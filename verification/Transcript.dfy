/** Precompile requests and the transcript that commits to them (miden-vm/core/src/precompile.rs).  Words and the
    permutation are parameters. */
module Transcript {
  import opened Common

  /** The permutation's state: two rate words and the capacity word.  The digest is the first rate word. */
  datatype Sponge<W> = Sponge(rate0: W, rate1: W, capacity: W)

  datatype Hasher<!W> = Hasher(zero: W, permute: Sponge<W> -> Sponge<W>)

  datatype Commitment<W> = Commitment(tag: W, comm: W)

  // The sponge in overwrite mode

  /** Absorbs a list of words two at a time, each pair overwriting the rate. */
  ghost function Absorb<W>(h: Hasher<W>, s: Sponge<W>, words: seq<W>): Sponge<W>
    requires |words| % 2 == 0
    decreases |words|
  {
    if |words| == 0 then s
    else
      var n := |words|;
      h.permute(Absorb(h, s, words[..n - 2]).(rate0 := words[n - 2], rate1 := words[n - 1]))
  }

  /** The sequential hash of a list of words: absorb everything from the zero state, return the first rate word. */
  ghost function SequentialHash<W>(h: Hasher<W>, words: seq<W>): W
    requires |words| % 2 == 0
  {
    Absorb(h, Sponge(h.zero, h.zero, h.zero), words).rate0
  }

  // The transcript

  /** The state after recording commitments: only the capacity survives between them. */
  ghost function Recorded<W>(h: Hasher<W>, state: W, cs: seq<Commitment<W>>): W {
    if |cs| == 0 then state
    else
      var n := |cs| - 1;
      h.permute(Sponge(cs[n].comm, cs[n].tag, Recorded(h, state, cs[..n]))).capacity
  }

  /** The words a list of commitments stands for, in order: COMM, TAG, COMM, TAG, ... */
  ghost function Words<W>(cs: seq<Commitment<W>>): (ws: seq<W>)
    ensures |ws| == 2 * |cs|
  {
    if |cs| == 0 then [] else Words(cs[..|cs| - 1]) + [cs[|cs| - 1].comm, cs[|cs| - 1].tag]
  }

  /** Keeping only the capacity loses nothing, because a full block overwrites the rate. */
  lemma {:induction false} CapacityIsEnough<W>(h: Hasher<W>, s: Sponge<W>, cs: seq<Commitment<W>>)
    ensures Absorb(h, s, Words(cs)).capacity == Recorded(h, s.capacity, cs)
  {
    if |cs| > 0 {
      var n := |cs| - 1;
      CapacityIsEnough(h, s, cs[..n]);
      var ws := Words(cs);
      assert ws[..|ws| - 2] == Words(cs[..n]);
    }
  }

  /** Squeezing the kept capacity is absorbing two empty words into the full sponge. */
  lemma FinalizeIsAbsorb<W>(h: Hasher<W>, start: W, cs: seq<Commitment<W>>)
    ensures h.permute(Sponge(h.zero, h.zero, Recorded(h, start, cs))).rate0
            == Absorb(h, Sponge(h.zero, h.zero, start), Words(cs) + [h.zero, h.zero]).rate0
  {
    CapacityIsEnough(h, Sponge(h.zero, h.zero, start), cs);
    var ws := Words(cs) + [h.zero, h.zero];
    assert ws[..|ws| - 2] == Words(cs);
  }

  /** A transcript, with the commitments recorded since its start. */
  class PrecompileTranscript<W> {
    const h: Hasher<W>
    var state: W
    ghost const start: W
    ghost var recorded: seq<Commitment<W>>

    ghost predicate Valid()
      reads this
    {
      state == Recorded(h, start, recorded)
    }

    constructor FromState(h: Hasher<W>, state: W)
      ensures Valid() && this.h == h && start == state && recorded == []
    {
      this.h, this.state, this.start, this.recorded := h, state, state, [];
    }

    /** Absorbs one commitment: its COMM and TAG words fill the rate. */
    method Record(c: Commitment<W>)
      requires Valid()
      modifies this
      ensures Valid() && recorded == old(recorded) + [c]
    {
      var s := h.permute(Sponge(c.comm, c.tag, state));
      recorded := recorded + [c];
      assert recorded[..|recorded| - 1] == old(recorded);
      state := s.capacity;
    }

    /** Squeezes a digest with an empty rate: the full sponge's digest of everything recorded and two empty words. */
    method Finalize() returns (digest: W)
      requires Valid()
      ensures digest == Absorb(h, Sponge(h.zero, h.zero, start), Words(recorded) + [h.zero, h.zero]).rate0
      ensures start == h.zero ==> digest == SequentialHash(h, Words(recorded) + [h.zero, h.zero])
    {
      digest := h.permute(Sponge(h.zero, h.zero, state)).rate0;
      FinalizeIsAbsorb(h, start, recorded);
    }
  }


  /** Transcripts compose through the state. */
  lemma {:induction false} RecordedConcat<W>(h: Hasher<W>, state: W, cs: seq<Commitment<W>>, ds: seq<Commitment<W>>)
    ensures Recorded(h, state, cs + ds) == Recorded(h, Recorded(h, state, cs), ds)
  {
    if |ds| == 0 {
      assert cs + ds == cs;
    } else {
      var n := |ds| - 1;
      RecordedConcat(h, state, cs, ds[..n]);
      assert (cs + ds)[..|cs + ds| - 1] == cs + ds[..n];
    }
  }

  /** The states the transcript goes through. */
  ghost function States<W>(h: Hasher<W>, state: W, cs: seq<Commitment<W>>): (states: seq<W>)
    ensures |states| == |cs| + 1
  {
    if |cs| == 0 then [state] else States(h, state, cs[..|cs| - 1]) + [Recorded(h, state, cs)]
  }

  /** They form a chain from the first state to the transcript's, one commitment a step. */
  lemma {:induction false} StatesChain<W>(h: Hasher<W>, state: W, cs: seq<Commitment<W>>)
    ensures var states := States(h, state, cs);
            && states[0] == state && states[|cs|] == Recorded(h, state, cs)
            && forall i :: 0 <= i < |cs| ==> states[i + 1] == h.permute(Sponge(cs[i].comm, cs[i].tag, states[i])).capacity
  {
    if |cs| > 0 { StatesChain(h, state, cs[..|cs| - 1]); }
  }

  // The registry

  type EventId = nat
  type EventName = string
  type Bytes = seq<nat>

  datatype Entry<W> = Entry(name: EventName, verify: Bytes -> Option<Commitment<W>>)

  datatype Request = Request(eventId: EventId, calldata: Bytes)

  type Verifiers<W> = map<EventId, Entry<W>>

  datatype VerificationError = VerifierNotFound(index: nat, eventId: EventId) | PrecompileError(index: nat, name: EventName)

  datatype Result<T> = Ok(value: T) | Err(error: VerificationError)

  /** A verifier is registered for the request and accepts it. */
  ghost predicate Accepts<W>(v: Verifiers<W>, r: Request) {
    r.eventId in v && v[r.eventId].verify(r.calldata).Some?
  }

  ghost predicate AllAccepted<W>(v: Verifiers<W>, requests: seq<Request>) {
    forall i :: 0 <= i < |requests| ==> Accepts(v, requests[i])
  }

  ghost function Commitments<W>(v: Verifiers<W>, requests: seq<Request>): (cs: seq<Commitment<W>>)
    requires AllAccepted(v, requests)
    ensures |cs| == |requests|
    ensures forall i :: 0 <= i < |requests| ==> Some(cs[i]) == v[requests[i].eventId].verify(requests[i].calldata)
  {
    seq(|requests|, i requires 0 <= i < |requests| => v[requests[i].eventId].verify(requests[i].calldata).value)
  }

  /** `i` is the first request that is not accepted. */
  ghost predicate FirstFailure<W>(v: Verifiers<W>, requests: seq<Request>, i: nat) {
    i < |requests| && AllAccepted(v, requests[..i]) && !Accepts(v, requests[i])
  }

  class PrecompileVerifierRegistry<W> {
    var verifiers: Verifiers<W>

    constructor ()
      ensures verifiers == map[]
    {
      verifiers := map[];
    }

    method WithVerifier(id: EventId, entry: Entry<W>)
      modifies this
      ensures verifiers == old(verifiers)[id := entry]
    {
      verifiers := verifiers[id := entry];
    }

    /** Adds all of another registry's verifiers, which win over this one's. */
    method Merge(other: PrecompileVerifierRegistry<W>)
      modifies this
      ensures verifiers == old(verifiers) + old(other.verifiers)
    {
      var source := other.verifiers;
      var todo: set<EventId> := source.Keys;
      ghost var done: set<EventId> := {};
      while todo != {}
        invariant todo + done == source.Keys
        invariant verifiers == old(verifiers) + map id | id in done :: source[id]
        decreases todo
      {
        var id: EventId :| id in todo;
        verifiers := verifiers[id := source[id]];
        todo, done := todo - {id}, done + {id};
      }
      assert (map id | id in done :: source[id]) == source;
    }

    /** Verifies the requests in order and records their commitments.  It succeeds exactly when every request has a
        verifier that accepts it, and otherwise reports the first that has none. */
    method RequestsTranscript(h: Hasher<W>, requests: seq<Request>) returns (r: Result<PrecompileTranscript<W>>)
      ensures r.Ok? <==> AllAccepted(verifiers, requests)
      ensures r.Ok? ==> fresh(r.value) && r.value.Valid() && r.value.h == h && r.value.start == h.zero
                        && r.value.recorded == Commitments(verifiers, requests)
      ensures r.Err? ==> FirstFailure(verifiers, requests, r.error.index)
      ensures r.Err? ==> (r.error.VerifierNotFound? <==> requests[r.error.index].eventId !in verifiers)
      ensures r.Err? && r.error.VerifierNotFound? ==> r.error.eventId == requests[r.error.index].eventId
      ensures r.Err? && r.error.PrecompileError? ==> r.error.name == verifiers[requests[r.error.index].eventId].name
    {
      var t := new PrecompileTranscript.FromState(h, h.zero);
      for i := 0 to |requests|
        invariant fresh(t) && t.h == h && AllAccepted(verifiers, requests[..i])
        invariant t.Valid() && t.start == h.zero && t.recorded == Commitments(verifiers, requests[..i])
      {
        var Request(id, calldata) := requests[i];
        if id !in verifiers { return Err(VerifierNotFound(i, id)); }
        var entry := verifiers[id];
        match entry.verify(calldata)
        case None => return Err(PrecompileError(i, entry.name));
        case Some(c) =>
          OneMore(verifiers, requests, i, c);
          t.Record(c);
      }
      assert requests[..|requests|] == requests;
      r := Ok(t);
    }
  }

  lemma OneMore<W>(v: Verifiers<W>, requests: seq<Request>, i: nat, c: Commitment<W>)
    requires i < |requests| && AllAccepted(v, requests[..i]) && Accepts(v, requests[i])
    requires v[requests[i].eventId].verify(requests[i].calldata) == Some(c)
    ensures AllAccepted(v, requests[..i + 1])
    ensures Commitments(v, requests[..i + 1]) == Commitments(v, requests[..i]) + [c]
  {
    assert requests[..i + 1] == requests[..i] + [requests[i]];
  }

  /** Two registries treat a list of requests alike when they agree on the events that it names: both accept it with the
      same commitments, or both fail at the same place. */
  lemma RequestedEventsDecide<W>(v: Verifiers<W>, v': Verifiers<W>, requests: seq<Request>, i: nat)
    requires forall k :: 0 <= k < |requests| ==> SameEntry(v, v', requests[k].eventId)
    ensures AllAccepted(v, requests) <==> AllAccepted(v', requests)
    ensures AllAccepted(v, requests) ==> Commitments(v, requests) == Commitments(v', requests)
    ensures FirstFailure(v, requests, i) <==> FirstFailure(v', requests, i)
  {
    forall k | 0 <= k < |requests| ensures Accepts(v, requests[k]) <==> Accepts(v', requests[k]) {
      assert SameEntry(v, v', requests[k].eventId);
    }
    if i < |requests| {
      assert forall k :: 0 <= k < i ==> requests[..i][k] == requests[k];
    }
    if AllAccepted(v, requests) {
      forall k | 0 <= k < |requests| ensures Commitments(v, requests)[k] == Commitments(v', requests)[k] {
        assert SameEntry(v, v', requests[k].eventId);
      }
    }
  }

  ghost predicate SameEntry<W>(v: Verifiers<W>, v': Verifiers<W>, id: EventId) {
    if id in v then id in v' && v[id] == v'[id] else id !in v'
  }

  /** Registering a verifier changes nothing for requests that do not name its event, and decides those that do. */
  lemma RegistrationIsLocal<W>(v: Verifiers<W>, id: EventId, entry: Entry<W>, requests: seq<Request>, i: nat)
    ensures (forall k :: 0 <= k < |requests| ==> requests[k].eventId != id) ==>
              && (AllAccepted(v[id := entry], requests) <==> AllAccepted(v, requests))
              && (AllAccepted(v, requests) ==> Commitments(v[id := entry], requests) == Commitments(v, requests))
              && (FirstFailure(v[id := entry], requests, i) <==> FirstFailure(v, requests, i))
    ensures (forall k :: 0 <= k < |requests| ==> requests[k].eventId == id) ==>
              (AllAccepted(v[id := entry], requests)
               <==> forall k :: 0 <= k < |requests| ==> entry.verify(requests[k].calldata).Some?)
  {
    if forall k :: 0 <= k < |requests| ==> requests[k].eventId != id {
      RequestedEventsDecide(v[id := entry], v, requests, i);
    }
  }

  /** Transcripts over concatenated lists compose, and failures keep their place. */
  lemma ConcatenatedRequests<W>(v: Verifiers<W>, h: Hasher<W>, rs: seq<Request>, more: seq<Request>, i: nat)
    ensures AllAccepted(v, rs + more) <==> AllAccepted(v, rs) && AllAccepted(v, more)
    ensures AllAccepted(v, rs + more) ==>
              Recorded(h, h.zero, Commitments(v, rs + more))
              == Recorded(h, Recorded(h, h.zero, Commitments(v, rs)), Commitments(v, more))
    ensures FirstFailure(v, rs, i) ==> FirstFailure(v, rs + more, i)
    ensures AllAccepted(v, rs) && FirstFailure(v, more, i) ==> FirstFailure(v, rs + more, |rs| + i)
  {
    Split(v, rs, more);
    if AllAccepted(v, rs + more) {
      assert Commitments(v, rs + more) == Commitments(v, rs) + Commitments(v, more);
      RecordedConcat(h, h.zero, Commitments(v, rs), Commitments(v, more));
    }
    if FirstFailure(v, rs, i) { assert (rs + more)[..i] == rs[..i]; }
    if AllAccepted(v, rs) && FirstFailure(v, more, i) {
      assert (rs + more)[..|rs| + i] == rs + more[..i];
      Split(v, rs, more[..i]);
    }
  }

  lemma Split<W>(v: Verifiers<W>, rs: seq<Request>, more: seq<Request>)
    ensures AllAccepted(v, rs + more) <==> AllAccepted(v, rs) && AllAccepted(v, more)
  {
    if AllAccepted(v, rs + more) {
      forall i | 0 <= i < |rs| ensures Accepts(v, rs[i]) { assert (rs + more)[i] == rs[i]; }
      forall i | 0 <= i < |more| ensures Accepts(v, more[i]) { assert (rs + more)[|rs| + i] == more[i]; }
    }
  }
}
