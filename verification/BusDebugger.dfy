/** The bus debugger: a matcher that keeps the requests and responses still waiting for a partner
    (miden-vm/processor/src/debug.rs). */
module BusDebugger {
  import opened Fields
  import opened AuxColumn

  datatype Pending<T, M> = Pending(value: T, message: M)

  function Values<T, M>(ps: seq<Pending<T, M>>): (vs: seq<T>)
    ensures |vs| == |ps| && forall i :: 0 <= i < |ps| ==> vs[i] == ps[i].value
  {
    seq(|ps|, i requires 0 <= i < |ps| => ps[i].value)
  }

  /** The first position holding the value, or the length. */
  method Position<T(==), M>(ps: seq<Pending<T, M>>, value: T) returns (pos: nat)
    ensures pos <= |ps| && (pos < |ps| ==> ps[pos].value == value)
    ensures pos == |ps| <==> value !in Values(ps)
    ensures forall i :: 0 <= i < pos ==> ps[i].value != value
  {
    pos := 0;
    while pos < |ps|
      invariant pos <= |ps| && forall i :: 0 <= i < pos ==> ps[i].value != value
    {
      if ps[pos].value == value {
        assert Values(ps)[pos] == value;
        return;
      }
      pos := pos + 1;
    }
  }

  /** Removes one element by moving the last one into its place. */
  function SwapRemove<X>(s: seq<X>, pos: nat): (r: seq<X>)
    requires pos < |s|
    ensures |r| == |s| - 1
  {
    s[pos := s[|s| - 1]][..|s| - 1]
  }

  /** The values waiting for a partner. */
  ghost function Outstanding<T, M>(ps: seq<Pending<T, M>>): multiset<T> {
    multiset(Values(ps))
  }

  lemma OutstandingPush<T, M>(ps: seq<Pending<T, M>>, p: Pending<T, M>)
    ensures Outstanding(ps + [p]) == Outstanding(ps) + multiset{p.value}
  {
    assert Values(ps + [p]) == Values(ps) + [p.value];
  }

  lemma OutstandingSwapRemove<T, M>(ps: seq<Pending<T, M>>, pos: nat)
    requires pos < |ps|
    ensures ps[pos].value in Outstanding(ps)
    ensures Outstanding(SwapRemove(ps, pos)) == Outstanding(ps) - multiset{ps[pos].value}
  {
    var vs, last := Values(ps), |ps| - 1;
    var moved := vs[pos := vs[last]];
    assert vs[pos] in multiset(vs);
    assert Values(SwapRemove(ps, pos)) == moved[..last];
    assert moved == moved[..last] + [vs[last]];
    var left, x, y := multiset(moved[..last]), vs[pos], vs[last];
    assert left + multiset{y} == multiset(moved) == multiset(vs) - multiset{x} + multiset{y};
    assert left == left + multiset{y} - multiset{y};
    assert left == multiset(vs) - multiset{x};
  }

  lemma OutstandingSize<T, M>(ps: seq<Pending<T, M>>)
    ensures |Outstanding(ps)| == |ps|
  {
  }

  /** `mine` and `theirs` hold what one side, resp. the other, has in excess. */
  ghost predicate Split<T, M>(mine: seq<Pending<T, M>>, theirs: seq<Pending<T, M>>, a: multiset<T>, b: multiset<T>) {
    Outstanding(mine) == a - b && Outstanding(theirs) == b - a
  }

  lemma Symmetric<T, M>(mine: seq<Pending<T, M>>, theirs: seq<Pending<T, M>>, a: multiset<T>, b: multiset<T>)
    ensures Split(mine, theirs, a, b) <==> Split(theirs, mine, b, a)
  {
  }

  /** One more value on a side whose partner waits on the other. */
  lemma MatchFound<T, M>(mine: seq<Pending<T, M>>, theirs: seq<Pending<T, M>>, a: multiset<T>, b: multiset<T>, pos: nat)
    requires Split(mine, theirs, a, b) && pos < |theirs|
    ensures Split(mine, SwapRemove(theirs, pos), a + multiset{theirs[pos].value}, b)
  {
    var v := theirs[pos].value;
    OutstandingSwapRemove(theirs, pos);
    assert (b - a)[v] > 0;
  }

  /** One more value on a side, with no partner on the other. */
  lemma NoMatch<T, M>(mine: seq<Pending<T, M>>, theirs: seq<Pending<T, M>>, a: multiset<T>, b: multiset<T>,
                      p: Pending<T, M>)
    requires Split(mine, theirs, a, b) && p.value !in Values(theirs)
    ensures Split(mine + [p], theirs, a + multiset{p.value}, b)
  {
    OutstandingPush(mine, p);
    assert (b - a)[p.value] == 0;
  }

  class Debugger<T(==), M> {
    var outstandingRequests: seq<Pending<T, M>>
    var outstandingResponses: seq<Pending<T, M>>
    /** Every value requested, and every value answered, so far. */
    ghost var requested: multiset<T>
    ghost var responded: multiset<T>

    /** What is outstanding is exactly what has no partner. */
    ghost predicate Valid()
      reads this
    {
      Split(outstandingRequests, outstandingResponses, requested, responded)
    }

    constructor ()
      ensures Valid() && requested == multiset{} && responded == multiset{}
    {
      outstandingRequests, outstandingResponses := [], [];
      requested, responded := multiset{}, multiset{};
    }

    method AddRequest(value: T, message: M)
      requires Valid()
      modifies this
      ensures Valid() && requested == old(requested) + multiset{value} && responded == old(responded)
    {
      hide Split;
      var pos := Position(outstandingResponses, value);
      if pos < |outstandingResponses| {
        MatchFound(outstandingRequests, outstandingResponses, requested, responded, pos);
        outstandingResponses := SwapRemove(outstandingResponses, pos);
      } else {
        NoMatch(outstandingRequests, outstandingResponses, requested, responded, Pending(value, message));
        outstandingRequests := outstandingRequests + [Pending(value, message)];
      }
      requested := requested + multiset{value};
    }

    method AddResponse(value: T, message: M)
      requires Valid()
      modifies this
      ensures Valid() && responded == old(responded) + multiset{value} && requested == old(requested)
    {
      hide Split;
      Symmetric(outstandingRequests, outstandingResponses, requested, responded);
      var pos := Position(outstandingRequests, value);
      if pos < |outstandingRequests| {
        MatchFound(outstandingResponses, outstandingRequests, responded, requested, pos);
        outstandingRequests := SwapRemove(outstandingRequests, pos);
      } else {
        NoMatch(outstandingResponses, outstandingRequests, responded, requested, Pending(value, message));
        outstandingResponses := outstandingResponses + [Pending(value, message)];
      }
      responded := responded + multiset{value};
      Symmetric(outstandingResponses, outstandingRequests, responded, requested);
    }

    /** The debugger is empty exactly when requests and responses match, value for value. */
    method IsEmpty() returns (empty: bool)
      requires Valid()
      ensures empty <==> requested == responded
    {
      hide Outstanding;
      empty := |outstandingRequests| == 0 && |outstandingResponses| == 0;
      Matched(requested, responded);
      OutstandingSize(outstandingRequests);
      OutstandingSize(outstandingResponses);
    }
  }

  lemma Matched<T>(a: multiset<T>, b: multiset<T>)
    ensures a == b <==> |a - b| == 0 && |b - a| == 0
  {
    if |a - b| == 0 && |b - a| == 0 {
      assert a - b == multiset{} && b - a == multiset{};
      forall x ensures a[x] == b[x] {
        assert (a - b)[x] == 0 && (b - a)[x] == 0;
      }
    }
  }

  // Whole runs

  datatype Event<T, M> = Request(value: T, message: M) | Response(value: T, message: M)

  function Requests<T, M>(events: seq<Event<T, M>>): (vs: seq<T>)
  {
    if |events| == 0 then []
    else
      var n := |events| - 1;
      Requests(events[..n]) + (if events[n].Request? then [events[n].value] else [])
  }

  function Responses<T, M>(events: seq<Event<T, M>>): (vs: seq<T>)
  {
    if |events| == 0 then []
    else
      var n := |events| - 1;
      Responses(events[..n]) + (if events[n].Response? then [events[n].value] else [])
  }

  lemma OneEvent<T, M>(events: seq<Event<T, M>>, i: nat)
    requires i < |events|
    ensures var v := multiset{events[i].value};
            && multiset(Requests(events[..i + 1])) == multiset(Requests(events[..i])) + (if events[i].Request? then v else multiset{})
            && multiset(Responses(events[..i + 1])) == multiset(Responses(events[..i])) + (if events[i].Response? then v else multiset{})
  {
    assert events[..i + 1][..i] == events[..i];
  }

  function Excess(n: nat, m: nat): nat {
    if n > m then n - m else 0
  }

  /** After any interleaving, each value waits on a side as often as that side has it in excess (so never on both),
      and the debugger is empty exactly when the two multisets of values agree. */
  method Replay<T(==), M>(events: seq<Event<T, M>>)
    returns (requests: seq<Pending<T, M>>, responses: seq<Pending<T, M>>, empty: bool)
    ensures var sent, answered := multiset(Requests(events)), multiset(Responses(events));
            && (forall v :: Outstanding(requests)[v] == Excess(sent[v], answered[v]))
            && (forall v :: Outstanding(responses)[v] == Excess(answered[v], sent[v]))
            && (empty <==> sent == answered)
  {
    hide Split, Requests, Responses;
    var d := new Debugger<T, M>();
    NoEvents<T, M>();
    assert events[..0] == [];
    for i := 0 to |events|
      invariant d.Valid() && fresh(d)
      invariant d.requested == multiset(Requests(events[..i])) && d.responded == multiset(Responses(events[..i]))
    {
      OneEvent(events, i);
      match events[i]
      case Request(value, message) => d.AddRequest(value, message);
      case Response(value, message) => d.AddResponse(value, message);
    }
    assert events[..|events|] == events;
    empty := d.IsEmpty();
    requests, responses := d.outstandingRequests, d.outstandingResponses;
    SplitCounts(requests, responses, d.requested, d.responded);
  }

  lemma SplitCounts<T, M>(mine: seq<Pending<T, M>>, theirs: seq<Pending<T, M>>, a: multiset<T>, b: multiset<T>)
    requires Split(mine, theirs, a, b)
    ensures forall v :: Outstanding(mine)[v] == Excess(a[v], b[v])
    ensures forall v :: Outstanding(theirs)[v] == Excess(b[v], a[v])
  {
  }

  lemma NoEvents<T, M>()
    ensures Requests<T, M>([]) == [] && Responses<T, M>([]) == []
  {
  }

  /** A bus whose debugger ends empty has a running product that ends at one. */
  lemma EmptyMeansOne<T(!new), M>(f: Field<T>, events: seq<Event<T, M>>)
    requires IsField(f) && multiset(Requests(events)) == multiset(Responses(events)) && f.zero !in Requests(events)
    ensures Ratio(f, Responses(events), Requests(events)) == f.one
  {
    ProdPermutation(f, Requests(events), Responses(events));
    var p := f.Prod(Requests(events));
    assert Laws(f, p, f.one, p) && Laws(f, f.one, p, p);
    RatioUnique(f, Responses(events), Requests(events), f.one);
  }
}
