/** The arithmetic DAG that a verifier circuit is built in, and its hash-consing builder
    (miden-vm/crates/ace-codegen/src/dag). */
module Dag {
  import opened Fields

  datatype InputKey =
    | Public(index: nat)
    | AuxRandAlpha
    | AuxRandBeta
    | Main(offset: nat, index: nat)
    | AuxCoord(offset: nat, index: nat, coord: nat)
    | AuxBusBoundary(index: nat)
    | VlpiReduction(index: nat)
    | Gamma
    | Alpha
    | ZPowN
    | ZK
    | IsFirst
    | IsLast
    | IsTransition
    | Weight0
    | F
    | S0
    | QuotientChunkCoord(offset: nat, chunk: nat, coord: nat)

  /** An assignment of field values to the circuit's inputs. */
  type Env<T> = InputKey -> T

  datatype NodeId = NodeId(dagId: nat, index: nat)

  datatype Node<T> =
    | Input(key: InputKey)
    | Constant(value: T)
    | Add(l: NodeId, r: NodeId)
    | Sub(l: NodeId, r: NodeId)
    | Mul(l: NodeId, r: NodeId)
    | Neg(x: NodeId)

  predicate In(id: NodeId, dagId: nat, len: nat) {
    id.dagId == dagId && id.index < len
  }

  predicate ChildrenIn<T>(node: Node<T>, dagId: nat, len: nat) {
    match node
    case Input(_) => true
    case Constant(_) => true
    case Add(a, b) => In(a, dagId, len) && In(b, dagId, len)
    case Sub(a, b) => In(a, dagId, len) && In(b, dagId, len)
    case Mul(a, b) => In(a, dagId, len) && In(b, dagId, len)
    case Neg(a) => In(a, dagId, len)
  }

  /** Nodes are topologically ordered: a node refers only to nodes before it. */
  ghost predicate Topological<T>(dagId: nat, nodes: seq<Node<T>>) {
    forall i :: OrderedAt(dagId, nodes, i)
  }

  ghost predicate OrderedAt<T>(dagId: nat, nodes: seq<Node<T>>, i: int) {
    0 <= i < |nodes| ==> ChildrenIn(nodes[i], dagId, i)
  }

  /** The value of node `i` under an input assignment. */
  ghost function Value<T>(f: Field<T>, dagId: nat, nodes: seq<Node<T>>, env: Env<T>, i: nat): T
    requires Topological(dagId, nodes) && i < |nodes|
    decreases i
  {
    assert OrderedAt(dagId, nodes, i);
    match nodes[i]
    case Input(key) => env(key)
    case Constant(value) => value
    case Add(a, b) => f.add(Value(f, dagId, nodes, env, a.index), Value(f, dagId, nodes, env, b.index))
    case Sub(a, b) => f.Sub(Value(f, dagId, nodes, env, a.index), Value(f, dagId, nodes, env, b.index))
    case Mul(a, b) => f.mul(Value(f, dagId, nodes, env, a.index), Value(f, dagId, nodes, env, b.index))
    case Neg(a) => f.neg(Value(f, dagId, nodes, env, a.index))
  }

  /** The value of node `i` as a function of the inputs. */
  ghost function Meaning<T>(f: Field<T>, dagId: nat, nodes: seq<Node<T>>, i: nat): Env<T> -> T
    requires Topological(dagId, nodes) && i < |nodes|
  {
    (env: Env<T>) => Value(f, dagId, nodes, env, i)
  }

  ghost function Meanings<T>(f: Field<T>, dagId: nat, nodes: seq<Node<T>>, n: nat): (ms: seq<Env<T> -> T>)
    requires Topological(dagId, nodes) && n <= |nodes|
    ensures |ms| == n && forall i :: 0 <= i < n ==> ms[i] == Meaning(f, dagId, nodes, i)
  {
    if n == 0 then [] else Meanings(f, dagId, nodes, n - 1) + [Meaning(f, dagId, nodes, n - 1)]
  }

  datatype AceDag<T> = AceDag(dagId: nat, nodes: seq<Node<T>>, root: NodeId) {
    ghost predicate Valid() {
      Topological(dagId, nodes) && In(root, dagId, |nodes|)
    }

    ghost function Eval(f: Field<T>, env: Env<T>): T
      requires Valid()
    {
      Value(f, dagId, nodes, env, root.index)
    }
  }

  /** Appending nodes leaves the value of every earlier node alone. */
  lemma {:induction false} ValueStable<T>(f: Field<T>, dagId: nat, nodes: seq<Node<T>>, nodes': seq<Node<T>>,
                                          env: Env<T>, i: nat)
    requires Topological(dagId, nodes) && Topological(dagId, nodes')
    requires nodes <= nodes' && i < |nodes|
    ensures Value(f, dagId, nodes', env, i) == Value(f, dagId, nodes, env, i)
    decreases i
  {
    assert OrderedAt(dagId, nodes, i);
    match nodes[i] {
      case Input(_) =>
      case Constant(_) =>
      case Neg(a) => ValueStable(f, dagId, nodes, nodes', env, a.index);
      case Add(a, b) =>
        ValueStable(f, dagId, nodes, nodes', env, a.index);
        ValueStable(f, dagId, nodes, nodes', env, b.index);
      case Sub(a, b) =>
        ValueStable(f, dagId, nodes, nodes', env, a.index);
        ValueStable(f, dagId, nodes, nodes', env, b.index);
      case Mul(a, b) =>
        ValueStable(f, dagId, nodes, nodes', env, a.index);
        ValueStable(f, dagId, nodes, nodes', env, b.index);
    }
  }

  // Constant folding

  /** What an arithmetic request turns into: a node that is already there, or a node to intern. */
  datatype Folded<T> = Existing(id: NodeId) | Intern(node: Node<T>)

  predicate Const<T(==)>(nodes: seq<Node<T>>, id: NodeId, value: T)
    requires id.index < |nodes|
  {
    nodes[id.index] == Constant(value)
  }

  function Ordered(a: NodeId, b: NodeId): (NodeId, NodeId) {
    if a.index <= b.index then (a, b) else (b, a)
  }

  function FoldAdd<T(==)>(f: Field<T>, nodes: seq<Node<T>>, a: NodeId, b: NodeId): Folded<T>
    requires a.index < |nodes| && b.index < |nodes|
  {
    if nodes[a.index].Constant? && nodes[b.index].Constant? then
      Intern(Constant(f.add(nodes[a.index].value, nodes[b.index].value)))
    else if Const(nodes, a, f.zero) then Existing(b)
    else if Const(nodes, b, f.zero) then Existing(a)
    else var (l, r) := Ordered(a, b); Intern(Add(l, r))
  }

  function FoldSub<T(==)>(f: Field<T>, nodes: seq<Node<T>>, a: NodeId, b: NodeId): Folded<T>
    requires a.index < |nodes| && b.index < |nodes|
  {
    if nodes[a.index].Constant? && nodes[b.index].Constant? then
      Intern(Constant(f.Sub(nodes[a.index].value, nodes[b.index].value)))
    else if Const(nodes, b, f.zero) then Existing(a)
    else Intern(Sub(a, b))
  }

  function FoldMul<T(==)>(f: Field<T>, nodes: seq<Node<T>>, a: NodeId, b: NodeId): Folded<T>
    requires a.index < |nodes| && b.index < |nodes|
  {
    if nodes[a.index].Constant? && nodes[b.index].Constant? then
      Intern(Constant(f.mul(nodes[a.index].value, nodes[b.index].value)))
    else if Const(nodes, a, f.zero) || Const(nodes, b, f.zero) then Intern(Constant(f.zero))
    else if Const(nodes, a, f.one) then Existing(b)
    else if Const(nodes, b, f.one) then Existing(a)
    else var (l, r) := Ordered(a, b); Intern(Mul(l, r))
  }

  function FoldNeg<T>(f: Field<T>, nodes: seq<Node<T>>, a: NodeId): Folded<T>
    requires a.index < |nodes|
  {
    if nodes[a.index].Constant? then Intern(Constant(f.neg(nodes[a.index].value))) else Intern(Neg(a))
  }

  /** `after` and `id` are the outcome of asking for `folded` in a store holding `before`. */
  ghost predicate Emitted<T>(dagId: nat, before: seq<Node<T>>, folded: Folded<T>, after: seq<Node<T>>, id: NodeId) {
    match folded
    case Existing(x) => after == before && id == x
    case Intern(node) =>
      && In(id, dagId, |after|) && after[id.index] == node
      && if node in before then after == before else after == before + [node] && id.index == |before|
  }

  /** Folding and operand ordering keep the meaning of an addition. */
  lemma AddSound<T(!new)>(f: Field<T>, dagId: nat, before: seq<Node<T>>, a: NodeId, b: NodeId,
                          nodes: seq<Node<T>>, id: NodeId, env: Env<T>)
    requires IsField(f) && Topological(dagId, nodes)
    requires In(a, dagId, |before|) && In(b, dagId, |before|) && before <= nodes
    requires In(id, dagId, |nodes|) && Emitted(dagId, before, FoldAdd(f, before, a, b), nodes, id)
    ensures Value(f, dagId, nodes, env, id.index)
         == f.add(Value(f, dagId, nodes, env, a.index), Value(f, dagId, nodes, env, b.index))
  {
    var x, y := Value(f, dagId, nodes, env, a.index), Value(f, dagId, nodes, env, b.index);
    assert Laws(f, x, y, y) && Laws(f, f.zero, y, y) && Laws(f, y, x, y);
  }

  lemma SubSound<T(!new)>(f: Field<T>, dagId: nat, before: seq<Node<T>>, a: NodeId, b: NodeId,
                          nodes: seq<Node<T>>, id: NodeId, env: Env<T>)
    requires IsField(f) && Topological(dagId, nodes)
    requires In(a, dagId, |before|) && In(b, dagId, |before|) && before <= nodes
    requires In(id, dagId, |nodes|) && Emitted(dagId, before, FoldSub(f, before, a, b), nodes, id)
    ensures Value(f, dagId, nodes, env, id.index)
         == f.Sub(Value(f, dagId, nodes, env, a.index), Value(f, dagId, nodes, env, b.index))
  {
    SubZero(f, Value(f, dagId, nodes, env, a.index), Value(f, dagId, nodes, env, b.index));
  }

  lemma MulSound<T(!new)>(f: Field<T>, dagId: nat, before: seq<Node<T>>, a: NodeId, b: NodeId,
                          nodes: seq<Node<T>>, id: NodeId, env: Env<T>)
    requires IsField(f) && Topological(dagId, nodes)
    requires In(a, dagId, |before|) && In(b, dagId, |before|) && before <= nodes
    requires In(id, dagId, |nodes|) && Emitted(dagId, before, FoldMul(f, before, a, b), nodes, id)
    ensures Value(f, dagId, nodes, env, id.index)
         == f.mul(Value(f, dagId, nodes, env, a.index), Value(f, dagId, nodes, env, b.index))
  {
    var x, y := Value(f, dagId, nodes, env, a.index), Value(f, dagId, nodes, env, b.index);
    MulZero(f, x);
    MulZero(f, y);
    assert Laws(f, x, y, y) && Laws(f, y, x, y) && Laws(f, f.one, y, y);
  }

  /** A node can only occur after the nodes it refers to. */
  lemma OccursAfter<T>(dagId: nat, nodes: seq<Node<T>>, i: nat)
    requires Topological(dagId, nodes) && i < |nodes|
    ensures (nodes[i].Add? || nodes[i].Mul?) ==> nodes[i].l.index < i && nodes[i].r.index < i
  {
    assert OrderedAt(dagId, nodes, i);
  }

  // The builder

  ghost predicate Variable<T>(nodes: seq<Node<T>>, id: NodeId)
    requires id.index < |nodes|
  {
    !nodes[id.index].Constant?
  }

  /** The store is as before, or has just the requested node appended. */
  ghost predicate Grown<T>(before: seq<Node<T>>, after: seq<Node<T>>, id: NodeId) {
    before <= after && (|after| == |before| || (|after| == |before| + 1 && id.index == |before|))
  }

  ghost predicate CacheEntry<T>(cache: map<Node<T>, NodeId>, dagId: nat, nodes: seq<Node<T>>, n: Node<T>) {
    if n in cache then In(cache[n], dagId, |nodes|) && nodes[cache[n].index] == n else n !in nodes
  }

  /** The cache finds exactly the nodes in the store. */
  ghost predicate CacheValid<T(!new)>(cache: map<Node<T>, NodeId>, dagId: nat, nodes: seq<Node<T>>) {
    forall n :: CacheEntry(cache, dagId, nodes, n)
  }

  ghost predicate MeansAt<T>(f: Field<T>, dagId: nat, nodes: seq<Node<T>>, meaning: seq<Env<T> -> T>, env: Env<T>,
                             i: int)
    requires Topological(dagId, nodes) && |meaning| == |nodes|
  {
    0 <= i < |nodes| ==> meaning[i](env) == Value(f, dagId, nodes, env, i)
  }

  class DagBuilder<T(==,!new)> {
    const f: Field<T>
    const dagId: nat
    var nodes: seq<Node<T>>
    var cache: map<Node<T>, NodeId>
    /** What each node computes; only ever appended to. */
    ghost var meaning: seq<Env<T> -> T>

    ghost predicate Valid()
      reads this
    {
      && IsField(f)
      && Topological(dagId, nodes)
      && CacheValid(cache, dagId, nodes)
      && |meaning| == |nodes|
      && forall env, i :: MeansAt(f, dagId, nodes, meaning, env, i)
    }

    /** Nodes and meanings are only appended, and the batching challenge does not appear. */
    twostate predicate Advanced()
      reads this
    {
      && old(nodes) <= nodes
      && old(meaning) <= meaning
      && (Node.Input(Gamma) in nodes ==> Node.Input(Gamma) in old(nodes))
    }

    predicate Has(id: NodeId)
      reads this
    {
      In(id, dagId, |nodes|)
    }

    constructor New(f: Field<T>, dagId: nat)
      requires IsField(f)
      ensures Valid() && this.f == f && this.dagId == dagId && nodes == []
    {
      this.f, this.dagId := f, dagId;
      nodes, cache, meaning := [], map[], [];
    }

    constructor FromDag(f: Field<T>, dag: AceDag<T>)
      requires IsField(f) && dag.Valid()
      ensures Valid() && this.f == f && dagId == dag.dagId && nodes == dag.nodes
      ensures forall env :: meaning[dag.root.index](env) == dag.Eval(f, env)
    {
      this.f := f;
      dagId := dag.dagId;
      nodes := dag.nodes;
      var ids: map<Node<T>, NodeId> := map[];
      for i := 0 to |dag.nodes|
        invariant forall n :: n in ids ==> In(ids[n], dag.dagId, i) && dag.nodes[ids[n].index] == n
        invariant forall j :: 0 <= j < i ==> dag.nodes[j] in ids
      {
        ids := ids[dag.nodes[i] := NodeId(dag.dagId, i)];
      }
      cache := ids;
      meaning := Meanings(f, dag.dagId, dag.nodes, |dag.nodes|);
    }

    method Intern(node: Node<T>) returns (id: NodeId)
      requires Valid() && ChildrenIn(node, dagId, |nodes|)
      modifies this
      ensures Valid() && Grown(old(nodes), nodes, id) && old(meaning) <= meaning && Has(id)
      ensures Emitted(dagId, old(nodes), Folded.Intern(node), nodes, id)
    {
      assert CacheEntry(cache, dagId, nodes, node);
      if node in cache {
        return cache[node];
      }
      id := NodeId(dagId, |nodes|);
      nodes := nodes + [node];
      cache := cache[node := id];
      forall i ensures OrderedAt(dagId, nodes, i) { assert OrderedAt(dagId, old(nodes), i); }
      forall n ensures CacheEntry(cache, dagId, nodes, n) { assert CacheEntry(old(cache), dagId, old(nodes), n); }
      meaning := meaning + [Meaning(f, dagId, nodes, |nodes| - 1)];
      forall env, i ensures MeansAt(f, dagId, nodes, meaning, env, i) {
        assert MeansAt(f, dagId, old(nodes), old(meaning), env, i);
        if 0 <= i < |old(nodes)| { ValueStable(f, dagId, old(nodes), nodes, env, i); }
      }
    }

    /** Carries out a folded request. */
    method Emit(folded: Folded<T>) returns (id: NodeId)
      requires Valid()
      requires folded.Existing? ==> Has(folded.id)
      requires folded.Intern? ==> ChildrenIn(folded.node, dagId, |nodes|)
      modifies this
      ensures Valid() && Grown(old(nodes), nodes, id) && old(meaning) <= meaning && Has(id)
      ensures Emitted(dagId, old(nodes), folded, nodes, id)
    {
      match folded
      case Existing(x) => id := x;
      case Intern(node) => id := Intern(node);
    }

    method Input(key: InputKey) returns (id: NodeId)
      requires Valid()
      modifies this
      ensures Valid() && Grown(old(nodes), nodes, id) && old(meaning) <= meaning && Has(id)
      ensures nodes[id.index] == Node.Input(key) && (key != Gamma ==> Advanced())
      ensures forall env :: meaning[id.index](env) == env(key)
    {
      id := Intern(Node.Input(key));
      forall env ensures meaning[id.index](env) == env(key) { assert MeansAt(f, dagId, nodes, meaning, env, id.index); }
    }

    method Constant(value: T) returns (id: NodeId)
      requires Valid()
      modifies this
      ensures Valid() && Advanced() && Grown(old(nodes), nodes, id) && Has(id)
      ensures nodes[id.index] == Node.Constant(value)
      ensures forall env :: meaning[id.index](env) == value
    {
      id := Intern(Node.Constant(value));
      forall env ensures meaning[id.index](env) == value { assert MeansAt(f, dagId, nodes, meaning, env, id.index); }
    }

    method Add(a: NodeId, b: NodeId) returns (id: NodeId)
      requires Valid() && Has(a) && Has(b)
      modifies this
      ensures Valid() && Advanced() && Grown(old(nodes), nodes, id) && Has(id)
      ensures Variable(nodes, a) ==> Variable(nodes, id)
      ensures Variable(nodes, b) ==>
                if nodes[a.index] == Node.Constant(f.zero) then id == b
                else nodes[id.index] == Node.Add(Ordered(a, b).0, Ordered(a, b).1)
      ensures forall env :: meaning[id.index](env) == f.add(meaning[a.index](env), meaning[b.index](env))
    {
      assert Laws(f, f.zero, f.zero, f.zero);
      id := Emit(FoldAdd(f, nodes, a, b));
      forall env ensures meaning[id.index](env) == f.add(meaning[a.index](env), meaning[b.index](env)) {
        assert MeansAt(f, dagId, nodes, meaning, env, id.index);
        assert MeansAt(f, dagId, nodes, meaning, env, a.index);
        assert MeansAt(f, dagId, nodes, meaning, env, b.index);
        AddSound(f, dagId, old(nodes), a, b, nodes, id, env);
      }
    }

    method Sub(a: NodeId, b: NodeId) returns (id: NodeId)
      requires Valid() && Has(a) && Has(b)
      modifies this
      ensures Valid() && Advanced() && Grown(old(nodes), nodes, id) && Has(id)
      ensures Variable(nodes, a) ==> Variable(nodes, id)
      ensures forall env :: meaning[id.index](env) == f.Sub(meaning[a.index](env), meaning[b.index](env))
    {
      assert Laws(f, f.zero, f.zero, f.zero);
      id := Emit(FoldSub(f, nodes, a, b));
      forall env ensures meaning[id.index](env) == f.Sub(meaning[a.index](env), meaning[b.index](env)) {
        assert MeansAt(f, dagId, nodes, meaning, env, id.index);
        assert MeansAt(f, dagId, nodes, meaning, env, a.index);
        assert MeansAt(f, dagId, nodes, meaning, env, b.index);
        SubSound(f, dagId, old(nodes), a, b, nodes, id, env);
      }
    }

    method Mul(a: NodeId, b: NodeId) returns (id: NodeId)
      requires Valid() && Has(a) && Has(b)
      modifies this
      ensures Valid() && Advanced() && Grown(old(nodes), nodes, id) && Has(id)
      ensures Variable(nodes, a) && Variable(nodes, b) ==>
                nodes[id.index] == Node.Mul(Ordered(a, b).0, Ordered(a, b).1)
      ensures nodes[a.index] == Node.Constant(f.one) && Variable(nodes, b) ==> id == b
      ensures forall env :: meaning[id.index](env) == f.mul(meaning[a.index](env), meaning[b.index](env))
    {
      assert Laws(f, f.zero, f.zero, f.zero);
      id := Emit(FoldMul(f, nodes, a, b));
      forall env ensures meaning[id.index](env) == f.mul(meaning[a.index](env), meaning[b.index](env)) {
        assert MeansAt(f, dagId, nodes, meaning, env, id.index);
        assert MeansAt(f, dagId, nodes, meaning, env, a.index);
        assert MeansAt(f, dagId, nodes, meaning, env, b.index);
        MulSound(f, dagId, old(nodes), a, b, nodes, id, env);
      }
    }

    method Neg(a: NodeId) returns (id: NodeId)
      requires Valid() && Has(a)
      modifies this
      ensures Valid() && Advanced() && Grown(old(nodes), nodes, id) && Has(id)
      ensures forall env :: meaning[id.index](env) == f.neg(meaning[a.index](env))
    {
      id := Emit(FoldNeg(f, nodes, a));
      forall env ensures meaning[id.index](env) == f.neg(meaning[a.index](env)) {
        assert MeansAt(f, dagId, nodes, meaning, env, id.index);
        assert MeansAt(f, dagId, nodes, meaning, env, a.index);
      }
    }

    method Build(root: NodeId) returns (dag: AceDag<T>)
      requires Valid() && Has(root)
      ensures dag == AceDag(dagId, nodes, root) && dag.Valid()
      ensures forall env :: dag.Eval(f, env) == meaning[root.index](env)
    {
      dag := AceDag(dagId, nodes, root);
      forall env ensures dag.Eval(f, env) == meaning[root.index](env) {
        assert MeansAt(f, dagId, nodes, meaning, env, root.index);
      }
    }
  }
}
