/** Batching of the auxiliary-trace boundary checks into a constraint DAG (miden-vm/air/src/ace.rs). */
module Ace {
  import opened Fields
  import opened Polynomials
  import opened Dag
  import C = Challenges

  datatype MessageElement<T> = Literal(value: T) | PublicInput(index: nat)

  datatype ProductFactor<T> =
    | BusBoundary(column: nat)
    | Message(bus: nat, elements: seq<MessageElement<T>>)
    | Vlpi(group: nat)

  datatype BatchConfig<T> = BatchConfig(
    numerator: seq<ProductFactor<T>>,
    denominator: seq<ProductFactor<T>>,
    sumColumns: seq<nat>)

  /** Bus indices are incremented as 32-bit integers. */
  predicate BusesFit<T>(factors: seq<ProductFactor<T>>) {
    forall i :: 0 <= i < |factors| && factors[i].Message? ==> factors[i].bus + 1 < 0x1_0000_0000
  }

  // What the checks mean

  ghost function ElementValue<T>(env: Env<T>, element: MessageElement<T>): T {
    match element
    case Literal(value) => value
    case PublicInput(index) => env(Public(index))
  }

  ghost function ElementValues<T>(env: Env<T>, elements: seq<MessageElement<T>>): (vs: seq<T>)
    ensures |vs| == |elements|
  {
    seq(|elements|, i requires 0 <= i < |elements| => ElementValue(env, elements[i]))
  }

  /** The factor's value, read off its definition. */
  ghost function FactorValue<T>(f: Field<T>, env: Env<T>, factor: ProductFactor<T>): T {
    match factor
    case BusBoundary(column) => env(AuxBusBoundary(column))
    case Message(bus, elements) =>
      C.Encoded(f, env(AuxRandAlpha), env(AuxRandBeta), bus, ElementValues(env, elements))
    case Vlpi(group) => env(VlpiReduction(group))
  }

  ghost function FactorProduct<T>(f: Field<T>, env: Env<T>, factors: seq<ProductFactor<T>>): T {
    var n := |factors|;
    if n == 0 then f.one else f.mul(FactorProduct(f, env, factors[..n - 1]), FactorValue(f, env, factors[n - 1]))
  }

  ghost function ColumnSum<T>(f: Field<T>, env: Env<T>, columns: seq<nat>): T {
    var n := |columns|;
    if n == 0 then f.zero else f.add(ColumnSum(f, env, columns[..n - 1]), env(AuxBusBoundary(columns[n - 1])))
  }

  ghost function ProductCheck<T>(f: Field<T>, env: Env<T>, config: BatchConfig<T>): T {
    f.Sub(FactorProduct(f, env, config.numerator), FactorProduct(f, env, config.denominator))
  }

  ghost function SumCheck<T>(f: Field<T>, env: Env<T>, config: BatchConfig<T>): T {
    ColumnSum(f, env, config.sumColumns)
  }

  /** The value of the batched root, given the value of the constraint root. */
  ghost function BatchedValue<T>(f: Field<T>, env: Env<T>, config: BatchConfig<T>, constraint: T): T {
    f.add(f.add(constraint, f.mul(env(Gamma), ProductCheck(f, env, config))),
          f.mul(f.mul(env(Gamma), env(Gamma)), SumCheck(f, env, config)))
  }

  // Building the checks

  /** beta^n, one multiplication at a time. */
  method BuildPower<T(==,!new)>(b: DagBuilder<T>, beta: NodeId, n: nat) returns (power: NodeId)
    requires b.Valid() && b.Has(beta)
    modifies b
    ensures b.Valid() && b.Advanced() && b.Has(power)
    ensures Variable(old(b.nodes), beta) && n > 0 ==> Variable(b.nodes, power)
    ensures forall env :: b.meaning[power.index](env) == b.f.Pow(b.meaning[beta.index](env), n)
  {
    power := b.Constant(b.f.one);
    for k := 0 to n
      invariant b.Valid() && b.Advanced() && b.Has(power)
      invariant if k == 0 then b.nodes[power.index] == Node.Constant(b.f.one)
                else Variable(old(b.nodes), beta) ==> Variable(b.nodes, power)
      invariant forall env :: b.meaning[power.index](env) == b.f.Pow(b.meaning[beta.index](env), k)
    {
      power := b.Mul(power, beta);
    }
  }

  method BuildElement<T(==,!new)>(b: DagBuilder<T>, element: MessageElement<T>) returns (node: NodeId)
    requires b.Valid()
    modifies b
    ensures b.Valid() && b.Advanced() && b.Has(node)
    ensures forall env :: b.meaning[node.index](env) == ElementValue(env, element)
  {
    match element
    case Literal(value) => node := b.Constant(value);
    case PublicInput(index) => node := b.Input(Public(index));
  }

  /** One turn of the element loop: `acc + power * element`, and the next power of beta. */
  method BuildTerm<T(==,!new)>(b: DagBuilder<T>, beta: NodeId, element: MessageElement<T>, acc: NodeId, power: NodeId)
    returns (acc': NodeId, power': NodeId)
    requires b.Valid() && b.Has(beta) && b.Has(acc) && b.Has(power)
    modifies b
    ensures b.Valid() && b.Advanced() && b.Has(acc') && b.Has(power')
    ensures Variable(old(b.nodes), acc) ==> Variable(b.nodes, acc')
    ensures forall env :: b.meaning[acc'.index](env)
              == b.f.add(b.meaning[acc.index](env), b.f.mul(b.meaning[power.index](env), ElementValue(env, element)))
    ensures forall env :: b.meaning[power'.index](env)
                == b.f.mul(b.meaning[power.index](env), b.meaning[beta.index](env))
  {
    var node := BuildElement(b, element);
    var term := b.Mul(power, node);
    acc' := b.Add(acc, term);
    power' := b.Mul(power, beta);
  }

  /** `sum(x^i * elements[i])`, as the element loop computes it. */
  ghost function ElementSum<T>(f: Field<T>, env: Env<T>, elements: seq<MessageElement<T>>, x: T): T {
    var n := |elements|;
    if n == 0 then f.zero
    else f.add(ElementSum(f, env, elements[..n - 1], x), f.mul(f.Pow(x, n - 1), ElementValue(env, elements[n - 1])))
  }

  lemma {:induction false} ElementSumIsPoly<T>(f: Field<T>, env: Env<T>, elements: seq<MessageElement<T>>, x: T)
    ensures ElementSum(f, env, elements, x) == Poly(f, ElementValues(env, elements), x)
  {
    var n := |elements|;
    if n > 0 {
      ElementSumIsPoly(f, env, elements[..n - 1], x);
      assert ElementValues(env, elements)[..n - 1] == ElementValues(env, elements[..n - 1]);
    }
  }

  /** `start + sum(beta^i * elements[i])`. */
  method BuildElements<T(==,!new)>(b: DagBuilder<T>, beta: NodeId, start: NodeId, elements: seq<MessageElement<T>>)
    returns (acc: NodeId)
    requires b.Valid() && b.Has(beta) && b.Has(start)
    modifies b
    ensures b.Valid() && b.Advanced() && b.Has(acc)
    ensures Variable(old(b.nodes), start) ==> Variable(b.nodes, acc)
    ensures forall env :: b.meaning[acc.index](env)
              == b.f.add(b.meaning[start.index](env), ElementSum(b.f, env, elements, b.meaning[beta.index](env)))
  {
    acc := start;
    var power := b.Constant(b.f.one);
    forall env ensures b.meaning[start.index](env) == b.f.add(b.meaning[start.index](env), b.f.zero) {
      assert Laws(b.f, b.meaning[start.index](env), b.f.zero, b.f.zero);
    }
    for k := 0 to |elements|
      invariant b.Valid() && b.Advanced() && b.Has(acc) && b.Has(power)
      invariant Variable(old(b.nodes), start) ==> Variable(b.nodes, acc)
      invariant forall env :: b.meaning[power.index](env) == b.f.Pow(b.meaning[beta.index](env), k)
      invariant forall env :: b.meaning[acc.index](env)
                  == b.f.add(b.meaning[start.index](env), ElementSum(b.f, env, elements[..k], b.meaning[beta.index](env)))
    {
      acc, power := BuildTerm(b, beta, elements[k], acc, power);
      assert elements[..k + 1][..k] == elements[..k];
      forall env ensures b.meaning[acc.index](env)
                  == b.f.add(b.meaning[start.index](env), ElementSum(b.f, env, elements[..k + 1], b.meaning[beta.index](env)))
      {
        var x := b.meaning[beta.index](env);
        assert Laws(b.f, b.meaning[start.index](env), ElementSum(b.f, env, elements[..k], x),
                    b.f.mul(b.f.Pow(x, k), ElementValue(env, elements[k])));
      }
    }
    assert elements[..|elements|] == elements;
  }

  method BuildPrefix<T(==,!new)>(b: DagBuilder<T>, bus: nat) returns (beta: NodeId, prefix: NodeId)
    requires b.Valid() && bus + 1 < 0x1_0000_0000
    modifies b
    ensures b.Valid() && b.Advanced() && b.Has(beta) && b.Has(prefix)
    ensures Variable(b.nodes, prefix)
    ensures forall env :: b.meaning[beta.index](env) == env(AuxRandBeta)
    ensures forall env :: b.meaning[prefix.index](env) == C.BusPrefix(b.f, env(AuxRandAlpha), env(AuxRandBeta), bus)
  {
    hide C.BusPrefix;
    var alpha := b.Input(AuxRandAlpha);
    beta := b.Input(AuxRandBeta);
    var offset := BuildOffset(b, beta, bus, C.MAX_MESSAGE_WIDTH);
    prefix := b.Add(alpha, offset);
    forall env ensures b.meaning[prefix.index](env) == C.BusPrefix(b.f, env(AuxRandAlpha), env(AuxRandBeta), bus) {
      PrefixParts(b.f, env(AuxRandAlpha), env(AuxRandBeta), bus, C.MAX_MESSAGE_WIDTH);
    }
  }

  ghost function Offset<T>(f: Field<T>, beta: T, bus: nat, width: nat): T {
    f.mul(f.Pow(beta, width), f.OfNat(bus + 1))
  }

  method BuildOffset<T(==,!new)>(b: DagBuilder<T>, beta: NodeId, bus: nat, width: nat) returns (offset: NodeId)
    requires b.Valid() && b.Has(beta) && Variable(b.nodes, beta) && width > 0 && bus + 1 < 0x1_0000_0000
    modifies b
    ensures b.Valid() && b.Advanced() && b.Has(offset)
    ensures forall env :: b.meaning[offset.index](env) == Offset(b.f, b.meaning[beta.index](env), bus, width)
  {
    var gamma := BuildPower(b, beta, width);
    var scale := b.Constant(b.f.OfNat(bus + 1));
    offset := b.Mul(gamma, scale);
  }

  lemma PrefixParts<T>(f: Field<T>, alpha: T, beta: T, bus: nat, width: nat)
    requires width == C.MAX_MESSAGE_WIDTH
    ensures C.BusPrefix(f, alpha, beta, bus) == f.add(alpha, Offset(f, beta, bus, width))
  {
  }

  /** A message encoded inside the DAG evaluates to the message's encoding. */
  method EncodeBusMessage<T(==,!new)>(b: DagBuilder<T>, bus: nat, elements: seq<MessageElement<T>>)
    returns (acc: NodeId)
    requires b.Valid() && bus + 1 < 0x1_0000_0000
    modifies b
    ensures b.Valid() && b.Advanced() && b.Has(acc)
    ensures Variable(b.nodes, acc)
    ensures forall env :: b.meaning[acc.index](env)
              == C.Encoded(b.f, env(AuxRandAlpha), env(AuxRandBeta), bus, ElementValues(env, elements))
  {
    var beta, prefix := BuildPrefix(b, bus);
    acc := BuildElements(b, beta, prefix, elements);
    forall env ensures b.meaning[acc.index](env)
                == C.Encoded(b.f, env(AuxRandAlpha), env(AuxRandBeta), bus, ElementValues(env, elements))
    {
      ElementSumIsPoly(b.f, env, elements, env(AuxRandBeta));
    }
  }

  method BuildFactor<T(==,!new)>(b: DagBuilder<T>, factor: ProductFactor<T>) returns (node: NodeId)
    requires b.Valid() && (factor.Message? ==> factor.bus + 1 < 0x1_0000_0000)
    modifies b
    ensures b.Valid() && b.Advanced() && b.Has(node)
    ensures Variable(b.nodes, node)
    ensures forall env :: b.meaning[node.index](env) == FactorValue(b.f, env, factor)
  {
    match factor
    case BusBoundary(column) => node := b.Input(AuxBusBoundary(column));
    case Message(bus, elements) => node := EncodeBusMessage(b, bus, elements);
    case Vlpi(group) => node := b.Input(VlpiReduction(group));
  }

  method BuildProduct<T(==,!new)>(b: DagBuilder<T>, factors: seq<ProductFactor<T>>) returns (acc: NodeId)
    requires b.Valid() && BusesFit(factors)
    modifies b
    ensures b.Valid() && b.Advanced() && b.Has(acc)
    ensures factors != [] ==> Variable(b.nodes, acc)
    ensures forall env :: b.meaning[acc.index](env) == FactorProduct(b.f, env, factors)
  {
    acc := b.Constant(b.f.one);
    for k := 0 to |factors|
      invariant b.Valid() && b.Advanced() && b.Has(acc)
      invariant if k == 0 then b.nodes[acc.index] == Node.Constant(b.f.one) else Variable(b.nodes, acc)
      invariant forall env :: b.meaning[acc.index](env) == FactorProduct(b.f, env, factors[..k])
    {
      var node := BuildFactor(b, factors[k]);
      acc := b.Mul(acc, node);
      assert factors[..k + 1][..k] == factors[..k];
    }
    assert factors[..|factors|] == factors;
  }

  method BuildProductCheck<T(==,!new)>(b: DagBuilder<T>, config: BatchConfig<T>) returns (check: NodeId)
    requires b.Valid() && BusesFit(config.numerator) && BusesFit(config.denominator)
    modifies b
    ensures b.Valid() && b.Advanced() && b.Has(check)
    ensures config.numerator != [] ==> Variable(b.nodes, check)
    ensures forall env :: b.meaning[check.index](env) == ProductCheck(b.f, env, config)
  {
    var numerator := BuildProduct(b, config.numerator);
    var denominator := BuildProduct(b, config.denominator);
    check := b.Sub(numerator, denominator);
  }

  method BuildSumCheck<T(==,!new)>(b: DagBuilder<T>, config: BatchConfig<T>) returns (sum: NodeId)
    requires b.Valid()
    modifies b
    ensures b.Valid() && b.Advanced() && b.Has(sum)
    ensures config.sumColumns != [] ==> Variable(b.nodes, sum)
    ensures forall env :: b.meaning[sum.index](env) == SumCheck(b.f, env, config)
  {
    var columns := config.sumColumns;
    sum := b.Constant(b.f.zero);
    for k := 0 to |columns|
      invariant b.Valid() && b.Advanced() && b.Has(sum)
      invariant if k == 0 then b.nodes[sum.index] == Node.Constant(b.f.zero) else Variable(b.nodes, sum)
      invariant forall env :: b.meaning[sum.index](env) == ColumnSum(b.f, env, columns[..k])
    {
      var column := b.Input(AuxBusBoundary(columns[k]));
      sum := b.Add(sum, column);
      assert columns[..k + 1][..k] == columns[..k];
    }
    assert columns[..|columns|] == columns;
  }

  method BuildChecks<T(==,!new)>(b: DagBuilder<T>, config: BatchConfig<T>) returns (product: NodeId, sum: NodeId)
    requires b.Valid() && BusesFit(config.numerator) && BusesFit(config.denominator)
    modifies b
    ensures b.Valid() && b.Advanced() && b.Has(product) && b.Has(sum)
    ensures config.numerator != [] ==> Variable(b.nodes, product)
    ensures config.sumColumns != [] ==> Variable(b.nodes, sum)
    ensures forall env :: b.meaning[product.index](env) == ProductCheck(b.f, env, config)
    ensures forall env :: b.meaning[sum.index](env) == SumCheck(b.f, env, config)
  {
    product := BuildProductCheck(b, config);
    sum := BuildSumCheck(b, config);
  }

  /** The batching challenge and its square; new nodes when the store has no gamma yet. */
  method BuildGamma<T(==,!new)>(b: DagBuilder<T>) returns (gamma: NodeId, gamma2: NodeId)
    requires b.Valid()
    modifies b
    ensures b.Valid() && old(b.nodes) <= b.nodes && old(b.meaning) <= b.meaning && b.Has(gamma) && b.Has(gamma2)
    ensures Variable(b.nodes, gamma) && b.nodes[gamma2.index] == Node.Mul(gamma, gamma)
    ensures forall env :: b.meaning[gamma.index](env) == env(Gamma)
    ensures forall env :: b.meaning[gamma2.index](env) == b.f.mul(env(Gamma), env(Gamma))
    ensures Node.Input(Gamma) !in old(b.nodes)
            ==> gamma.index == |old(b.nodes)| && gamma2.index == gamma.index + 1 == |b.nodes| - 1
  {
    gamma := b.Input(Gamma);
    ghost var before := b.nodes;
    gamma2 := b.Mul(gamma, gamma);
    if gamma2.index < |before| { OccursAfter(b.dagId, before, gamma2.index); }
  }

  /** `gamma * product` and `gamma^2 * sum`; new nodes when the store has no gamma yet. */
  method BuildGammaTerms<T(==,!new)>(b: DagBuilder<T>, product: NodeId, sum: NodeId)
    returns (term2: NodeId, term3: NodeId)
    requires b.Valid() && b.Has(product) && b.Has(sum)
    modifies b
    ensures b.Valid() && old(b.nodes) <= b.nodes && old(b.meaning) <= b.meaning && b.Has(term2) && b.Has(term3)
    ensures forall env :: b.meaning[term2.index](env) == b.f.mul(env(Gamma), b.meaning[product.index](env))
    ensures forall env :: b.meaning[term3.index](env)
                == b.f.mul(b.f.mul(env(Gamma), env(Gamma)), b.meaning[sum.index](env))
    ensures Variable(old(b.nodes), product) && Variable(old(b.nodes), sum) && Node.Input(Gamma) !in old(b.nodes)
            ==> && b.nodes[term2.index].Mul? && b.nodes[term3.index].Mul?
                && |old(b.nodes)| <= term2.index < term3.index == |b.nodes| - 1
  {
    ghost var isNew := Variable(b.nodes, product) && Variable(b.nodes, sum) && Node.Input(Gamma) !in b.nodes;
    var gamma, gamma2 := BuildGamma(b);
    ghost var n2 := b.nodes;
    term2 := b.Mul(gamma, product);
    assert isNew ==> term2.index == gamma2.index + 1 == |b.nodes| - 1 by {
      if isNew && term2.index < |n2| { OccursAfter(b.dagId, n2, term2.index); }
    }
    ghost var n3 := b.nodes;
    term3 := b.Mul(gamma2, sum);
    assert isNew ==> term3.index == term2.index + 1 == |b.nodes| - 1 by {
      if isNew && term3.index < |n3| { OccursAfter(b.dagId, n3, term3.index); }
    }
  }

  method BuildRoot<T(==,!new)>(b: DagBuilder<T>, root: NodeId, term2: NodeId, term3: NodeId) returns (batched: NodeId)
    requires b.Valid() && b.Has(root) && b.Has(term2) && b.Has(term3)
    modifies b
    ensures b.Valid() && old(b.nodes) <= b.nodes && old(b.meaning) <= b.meaning && b.Has(batched)
    ensures forall env :: b.meaning[batched.index](env)
              == b.f.add(b.f.add(b.meaning[root.index](env), b.meaning[term2.index](env)), b.meaning[term3.index](env))
    ensures Variable(old(b.nodes), term2) && Variable(old(b.nodes), term3)
            && root.index < term3.index && term2.index < term3.index == |old(b.nodes)| - 1
            ==> b.nodes[batched.index].Add? && batched.index == |b.nodes| - 1
  {
    ghost var isNew := Variable(b.nodes, term2) && Variable(b.nodes, term3)
                       && root.index < term3.index && term2.index < term3.index == |b.nodes| - 1;
    var partial := b.Add(root, term2);
    ghost var n1 := b.nodes;
    batched := b.Add(partial, term3);
    assert isNew ==> batched.index == |b.nodes| - 1 by {
      if isNew && batched.index < |n1| { OccursAfter(b.dagId, n1, batched.index); }
    }
  }

  /** Extends a constraint DAG so that its root becomes
      `constraint_check + gamma * product_check + gamma^2 * sum_check`, leaving every node of the original
      DAG in place.  The new root is the last node whenever gamma is new to the DAG and both checks are
      non-empty. */
  method BatchReducedAuxValues<T(==,!new)>(f: Field<T>, dag: AceDag<T>, config: BatchConfig<T>)
    returns (batched: AceDag<T>)
    requires IsField(f) && dag.Valid() && BusesFit(config.numerator) && BusesFit(config.denominator)
    ensures batched.Valid() && batched.dagId == dag.dagId && dag.nodes <= batched.nodes
    ensures forall env :: batched.Eval(f, env) == BatchedValue(f, env, config, dag.Eval(f, env))
    ensures Node.Input(Gamma) !in dag.nodes && config.numerator != [] && config.sumColumns != []
            ==> batched.nodes[batched.root.index].Add? && batched.root.index == |batched.nodes| - 1
  {
    var b := new DagBuilder.FromDag(f, dag);
    var product, sum := BuildChecks(b, config);
    var term2, term3 := BuildGammaTerms(b, product, sum);
    var root := BuildRoot(b, dag.root, term2, term3);
    batched := b.Build(root);
  }
}
