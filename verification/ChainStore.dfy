/** The client's chain tables: block headers with their relevance flag, authentication nodes and the sync height
    (miden-client/crates/sqlite-store/src/chain_data.rs and sync.rs).  Tables are maps and transactions are atomic. */
module ChainStore {
  import opened Common

  type Bytes = seq<nat>

  const GENESIS := 0

  /** No block comes before genesis. */
  lemma GenesisIsFirst(block: nat)
    ensures GENESIS <= block
  {
  }

  /** One row of `block_headers`. */
  datatype Stored = Stored(header: Bytes, peaks: Bytes, hasClientNotes: bool)

  datatype Chain = Chain(headers: map<nat, Stored>, nodes: map<nat, Bytes>, height: Option<nat>)

  datatype HeaderUpdate = HeaderUpdate(blockNum: nat, header: Bytes, peaks: Bytes, hasClientNotes: bool)

  // What the operations do to the tables

  /** Insert or ignore, then raise the flag of the row that is there. */
  ghost function Inserted(s: Chain, u: HeaderUpdate): Chain {
    var row := if u.blockNum in s.headers then s.headers[u.blockNum] else Stored(u.header, u.peaks, u.hasClientNotes);
    s.(headers := s.headers[u.blockNum := row.(hasClientNotes := row.hasClientNotes || u.hasClientNotes)])
  }

  ghost function InsertedAll(s: Chain, us: seq<HeaderUpdate>): Chain {
    if |us| == 0 then s else Inserted(InsertedAll(s, us[..|us| - 1]), us[|us| - 1])
  }

  ghost function NodesInserted(nodes: map<nat, Bytes>, added: seq<(nat, Bytes)>): map<nat, Bytes> {
    if |added| == 0 then nodes
    else
      var before := NodesInserted(nodes, added[..|added| - 1]);
      var (id, node) := added[|added| - 1];
      if id in before then before else before[id := node]
  }

  ghost function Advanced(height: Option<nat>, to: nat): Option<nat> {
    if height.Some? && height.value < to then Some(to) else height
  }

  ghost function Synced(s: Chain, blockNum: nat, us: seq<HeaderUpdate>, added: seq<(nat, Bytes)>): Chain {
    var s' := InsertedAll(s.(height := Advanced(s.height, blockNum)), us);
    s'.(nodes := NodesInserted(s'.nodes, added))
  }

  /** A prune keeps the genesis header, headers from the sync height on, and those flagged and not untracked. */
  ghost predicate Keeps(s: Chain, untrack: set<nat>, n: nat)
    requires n in s.headers
  {
    n == GENESIS || s.height.None? || n >= s.height.value || (s.headers[n].hasClientNotes && n !in untrack)
  }

  ghost function Pruned(s: Chain, untrack: set<nat>, removed: set<nat>): Chain {
    s.(headers := map n | n in s.headers && Keeps(s, untrack, n) ::
                    s.headers[n].(hasClientNotes := s.headers[n].hasClientNotes && n !in untrack),
       nodes := map i | i in s.nodes && i !in removed :: s.nodes[i])
  }

  ghost function Elements(s: seq<nat>): set<nat> {
    set x | x in s
  }

  class Store {
    var headers: map<nat, Stored>
    var nodes: map<nat, Bytes>
    var syncHeight: Option<nat>

    ghost function State(): Chain
      reads this
    {
      Chain(headers, nodes, syncHeight)
    }

    /** A new database: the schema inserts the initial sync height. */
    constructor ()
      ensures State() == Chain(map[], map[], Some(0))
    {
      headers, nodes, syncHeight := map[], map[], Some(0);
    }

    /** Only turns the flag on, and only for a stored header whose flag is off. */
    method SetHasClientNotes(blockNum: nat, hasClientNotes: bool)
      modifies this`headers
      ensures headers.Keys == old(headers.Keys)
      ensures forall n :: n in headers ==>
                headers[n] == old(headers[n]).(hasClientNotes := old(headers[n]).hasClientNotes || (n == blockNum && hasClientNotes))
    {
      if blockNum in headers && !headers[blockNum].hasClientNotes {
        headers := headers[blockNum := headers[blockNum].(hasClientNotes := hasClientNotes)];
      }
    }

    method InsertBlockHeader(u: HeaderUpdate)
      modifies this`headers
      ensures State() == Inserted(old(State()), u)
    {
      if u.blockNum !in headers {
        headers := headers[u.blockNum := Stored(u.header, u.peaks, u.hasClientNotes)];
      }
      SetHasClientNotes(u.blockNum, u.hasClientNotes);
      assert headers == Inserted(old(State()), u).headers;
    }

    method InsertNodes(added: seq<(nat, Bytes)>)
      modifies this`nodes
      ensures nodes == NodesInserted(old(nodes), added)
    {
      for i := 0 to |added|
        invariant nodes == NodesInserted(old(nodes), added[..i])
      {
        assert added[..i + 1][..i] == added[..i];
        var (id, node) := added[i];
        if id !in nodes { nodes := nodes[id := node]; }
      }
      assert added[..|added|] == added;
    }

    method ApplyStateSync(blockNum: nat, us: seq<HeaderUpdate>, added: seq<(nat, Bytes)>)
      modifies this
      ensures State() == Synced(old(State()), blockNum, us, added)
    {
      if syncHeight.Some? && syncHeight.value < blockNum { syncHeight := Some(blockNum); }
      ghost var advanced := State();
      for i := 0 to |us|
        invariant State() == InsertedAll(advanced, us[..i])
      {
        assert us[..i + 1][..i] == us[..i];
        InsertBlockHeader(us[i]);
      }
      assert us[..|us|] == us;
      InsertNodes(added);
    }

    method DeleteNodes(nodeIndices: seq<nat>)
      modifies this`nodes
      ensures nodes == old(map i | i in nodes && i !in Elements(nodeIndices) :: nodes[i])
    {
      if nodeIndices != [] {
        nodes := map i | i in nodes && i !in nodeIndices :: nodes[i];
      }
    }

    method Untrack(blocks: seq<nat>)
      modifies this`headers
      ensures headers.Keys == old(headers.Keys)
      ensures forall n :: n in headers ==>
                headers[n] == old(headers[n]).(hasClientNotes := old(headers[n]).hasClientNotes && n !in blocks)
    {
      if blocks != [] {
        headers := map n | n in headers :: if n in blocks then headers[n].(hasClientNotes := false) else headers[n];
      }
    }

    method DeleteIrrelevant()
      modifies this`headers
      ensures forall n :: n in headers <==> n in old(headers) && Keeps(old(State()), {}, n)
      ensures forall n :: n in headers ==> headers[n] == old(headers[n])
    {
      if syncHeight.Some? {
        var height := syncHeight.value;
        headers := map n | n in headers && !(!headers[n].hasClientNotes && GENESIS < n < height) :: headers[n];
      }
    }

    method PruneIrrelevantBlocks(blocksToUntrack: seq<nat>, nodeIndices: seq<nat>)
      modifies this
      ensures State() == Pruned(old(State()), Elements(blocksToUntrack), Elements(nodeIndices))
    {
      DeleteNodes(nodeIndices);
      Untrack(blocksToUntrack);
      DeleteIrrelevant();
      assert headers == Pruned(old(State()), Elements(blocksToUntrack), Elements(nodeIndices)).headers;
    }

    /** The nodes a filter selects. */
    method GetNodes(filter: NodeFilter) returns (r: map<nat, Bytes>)
      ensures forall i :: i in r <==> i in nodes && Selects(filter, i)
      ensures forall i :: i in r ==> r[i] == nodes[i]
    {
      match filter
      case All => return nodes;
      case List(ids) =>
        if ids == [] { return map[]; }
        return map i | i in nodes && i in ids :: nodes[i];
      case Forest(rightmost) =>
        if rightmost.None? { return map[]; }
        var last := rightmost.value;
        return map i | i in nodes && i <= last :: nodes[i];
    }

    method GetTrackedNumbers() returns (r: set<nat>)
      ensures r == Tracked(State())
    {
      r := set n | n in headers && headers[n].hasClientNotes;
    }
  }

  /** A forest is given by its rightmost in-order index, or is empty. */
  datatype NodeFilter = All | List(ids: seq<nat>) | Forest(rightmost: Option<nat>)

  ghost predicate Selects(filter: NodeFilter, i: nat) {
    match filter
    case All => true
    case List(ids) => i in ids
    case Forest(rightmost) => rightmost.Some? && i <= rightmost.value
  }

  ghost function Tracked(s: Chain): set<nat> {
    set n | n in s.headers && s.headers[n].hasClientNotes
  }

  // Whole runs

  datatype Step =
    | Insert(update: HeaderUpdate)
    | InsertNodes(added: seq<(nat, Bytes)>)
    | Sync(blockNum: nat, updates: seq<HeaderUpdate>, newNodes: seq<(nat, Bytes)>)
    | Prune(untrack: set<nat>, removed: set<nat>)

  ghost function Apply(s: Chain, step: Step): Chain {
    match step
    case Insert(u) => Inserted(s, u)
    case InsertNodes(added) => s.(nodes := NodesInserted(s.nodes, added))
    case Sync(n, us, added) => Synced(s, n, us, added)
    case Prune(untrack, removed) => Pruned(s, untrack, removed)
  }

  ghost function Run(s: Chain, steps: seq<Step>): Chain {
    if |steps| == 0 then s else Apply(Run(s, steps[..|steps| - 1]), steps[|steps| - 1])
  }

  /** `s` holds the same row as `was` for block `n`, up to the flag. */
  ghost predicate SameRow(was: Chain, s: Chain, n: nat)
    requires n in was.headers
  {
    n in s.headers && s.headers[n].header == was.headers[n].header && s.headers[n].peaks == was.headers[n].peaks
  }

  ghost predicate Flagged(s: Chain, n: nat) {
    n in s.headers && s.headers[n].hasClientNotes
  }

  ghost predicate NoLower(was: Option<nat>, height: Option<nat>) {
    (was.Some? <==> height.Some?) && (was.Some? ==> was.value <= height.value)
  }

  lemma {:induction false} InsertedAllKeeps(s: Chain, us: seq<HeaderUpdate>, n: nat)
    ensures InsertedAll(s, us).height == s.height && InsertedAll(s, us).nodes == s.nodes
    ensures n in s.headers ==> SameRow(s, InsertedAll(s, us), n)
    ensures Flagged(s, n) ==> Flagged(InsertedAll(s, us), n)
  {
    if |us| > 0 { InsertedAllKeeps(s, us[..|us| - 1], n); }
  }

  /** One step, whatever it is: the height does not fall, and a header that stays is not overwritten.  Only a prune
      removes headers or lowers flags. */
  lemma StepKeeps(s: Chain, step: Step, n: nat)
    ensures NoLower(s.height, Apply(s, step).height)
    ensures n in s.headers && n in Apply(s, step).headers ==> SameRow(s, Apply(s, step), n)
    ensures n in s.headers && (step.Prune? ==> Keeps(s, step.untrack, n)) ==> n in Apply(s, step).headers
    ensures Flagged(s, n) && (step.Prune? ==> n !in step.untrack) ==> Flagged(Apply(s, step), n)
  {
    if step.Sync? {
      InsertedAllKeeps(s.(height := Advanced(s.height, step.blockNum)), step.updates, n);
    }
  }

  /** No prune of the run names block `n` for untracking. */
  ghost predicate NeverUntracked(steps: seq<Step>, n: nat) {
    forall i :: 0 <= i < |steps| && steps[i].Prune? ==> n !in steps[i].untrack
  }

  /** Blocks that a run cannot lose: the genesis block, those at or above the height it ends at, and flagged ones that
      it never untracks. */
  ghost predicate Safe(s: Chain, steps: seq<Step>, n: nat) {
    || n == GENESIS
    || (Run(s, steps).height.Some? ==> n >= Run(s, steps).height.value)
    || (Flagged(s, n) && NeverUntracked(steps, n))
  }

  /** Over every run the sync height never decreases. */
  lemma {:induction false} HeightNeverFalls(s: Chain, steps: seq<Step>)
    ensures NoLower(s.height, Run(s, steps).height)
  {
    if |steps| > 0 {
      var before := steps[..|steps| - 1];
      HeightNeverFalls(s, before);
      StepKeeps(Run(s, before), steps[|steps| - 1], GENESIS);
    }
  }

  lemma {:induction false} InsertedAllHeight(s: Chain, us: seq<HeaderUpdate>)
    ensures InsertedAll(s, us).height == s.height
  {
    if |us| > 0 { InsertedAllHeight(s, us[..|us| - 1]); }
  }

  /** A sync moves the height to its block if that is higher; nothing else moves it. */
  lemma HeightAfterStep(s: Chain, step: Step)
    ensures Apply(s, step).height
            == if step.Sync? && s.height.Some? then Some(Max(s.height.value, step.blockNum)) else s.height
  {
    if step.Sync? { InsertedAllHeight(s.(height := Advanced(s.height, step.blockNum)), step.updates); }
  }

  ghost predicate SyncsTo(step: Step, n: nat) {
    step.Sync? && step.blockNum == n
  }

  /** Over every run the final height is the highest of the first height and the blocks synced to. */
  lemma {:induction false} HeightExactly(s: Chain, steps: seq<Step>)
    ensures s.height.None? ==> Run(s, steps).height.None?
    ensures s.height.Some? ==>
              && Run(s, steps).height.Some?
              && var h := Run(s, steps).height.value;
              && h >= s.height.value && (forall i :: 0 <= i < |steps| && steps[i].Sync? ==> h >= steps[i].blockNum)
              && (h == s.height.value || exists i :: 0 <= i < |steps| && SyncsTo(steps[i], h))
  {
    if |steps| > 0 {
      var k := |steps| - 1;
      HeightExactly(s, steps[..k]);
      HeightAfterStep(Run(s, steps[..k]), steps[k]);
      if s.height.Some? {
        var before, h := Run(s, steps[..k]).height.value, Run(s, steps).height.value;
        if h == before && before != s.height.value {
          var i :| 0 <= i < k && SyncsTo(steps[..k][i], before);
          assert SyncsTo(steps[i], h);
        } else if h != before {
          assert SyncsTo(steps[k], h);
        }
      }
    }
  }

  /** Over every run of inserts, syncs and prunes, a safe header stays, byte for byte; and a flag stays up as long as no
      prune takes it down. */
  lemma {:induction false} SafeHeadersSurvive(s: Chain, steps: seq<Step>, n: nat)
    requires n in s.headers && Safe(s, steps, n)
    ensures SameRow(s, Run(s, steps), n)
    ensures Flagged(s, n) && NeverUntracked(steps, n) ==> Flagged(Run(s, steps), n)
  {
    if |steps| > 0 {
      var before, last := steps[..|steps| - 1], steps[|steps| - 1];
      var mid := Run(s, before);
      StepKeeps(mid, last, n);
      assert NeverUntracked(steps, n) ==> NeverUntracked(before, n);
      SafeHeadersSurvive(s, before, n);
    }
  }

  /** The prune at step `i` of the run deletes block `n`: it is below the sync height, not the genesis block, and not
      flagged, or no longer. */
  ghost predicate DeletedAt(s: Chain, steps: seq<Step>, i: nat, n: nat)
    requires i < |steps|
  {
    var was := Run(s, steps[..i]);
    && steps[i].Prune? && n in was.headers && n != GENESIS && was.height.Some? && n < was.height.value
    && !(Flagged(was, n) && n !in steps[i].untrack)
  }

  /** Over every run, a header disappears only through such a prune, and such a prune always deletes it. */
  lemma {:induction false} LostOnlyByPrune(s: Chain, steps: seq<Step>, n: nat)
    requires n in s.headers
    ensures n !in Run(s, steps).headers ==> exists i :: 0 <= i < |steps| && DeletedAt(s, steps, i, n)
    ensures forall i :: 0 <= i < |steps| && DeletedAt(s, steps, i, n) ==> n !in Run(s, steps[..i + 1]).headers
  {
    forall i | 0 <= i < |steps| && DeletedAt(s, steps, i, n) ensures n !in Run(s, steps[..i + 1]).headers {
      assert steps[..i + 1][..i] == steps[..i];
    }
    if |steps| > 0 {
      var k := |steps| - 1;
      var before := steps[..k];
      LostOnlyByPrune(s, before, n);
      if n in Run(s, before).headers {
        StepKeeps(Run(s, before), steps[k], n);
        if n !in Run(s, steps).headers { assert DeletedAt(s, steps, k, n); }
      } else {
        var i :| 0 <= i < |before| && DeletedAt(s, before, i, n);
        assert before[..i] == steps[..i];
        assert DeletedAt(s, steps, i, n);
      }
    }
  }

  /** After a prune every stored header strictly between genesis and the sync height is flagged. */
  lemma PrunedClean(s: Chain, steps: seq<Step>, n: nat)
    requires |steps| > 0 && steps[|steps| - 1].Prune?
    ensures var s' := Run(s, steps);
            n in s'.headers && s'.height.Some? && GENESIS < n < s'.height.value ==> Flagged(s', n)
  {
  }

  // Tracked blocks

  lemma TrackedAfterInsert(s: Chain, u: HeaderUpdate)
    ensures Tracked(Inserted(s, u)) == Tracked(s) + if u.hasClientNotes then {u.blockNum} else {}
  {
  }

  /** A prune leaves exactly the tracked blocks it does not untrack, whatever headers it deletes. */
  lemma TrackedAfterPrune(s: Chain, untrack: set<nat>, removed: set<nat>)
    ensures Tracked(Pruned(s, untrack, removed)) == Tracked(s) - untrack
  {
  }

  ghost predicate FlaggedBy(step: Step, n: nat) {
    match step
    case Insert(u) => u.blockNum == n && u.hasClientNotes
    case Sync(_, us, _) => exists i :: 0 <= i < |us| && us[i].blockNum == n && us[i].hasClientNotes
    case _ => false
  }

  ghost predicate UntrackedBy(step: Step, n: nat) {
    step.Prune? && n in step.untrack
  }

  lemma {:induction false} TrackedAfterInserts(s: Chain, us: seq<HeaderUpdate>, n: nat)
    ensures n in Tracked(InsertedAll(s, us))
            <==> n in Tracked(s) || exists i :: 0 <= i < |us| && us[i].blockNum == n && us[i].hasClientNotes
  {
    if |us| > 0 {
      TrackedAfterInserts(s, us[..|us| - 1], n);
      TrackedAfterInsert(InsertedAll(s, us[..|us| - 1]), us[|us| - 1]);
    }
  }

  lemma TrackedAfterStep(s: Chain, step: Step, n: nat)
    ensures n in Tracked(Apply(s, step)) <==> FlaggedBy(step, n) || (n in Tracked(s) && !UntrackedBy(step, n))
  {
    match step
    case Insert(u) => TrackedAfterInsert(s, u);
    case Sync(blockNum, us, added) =>
      var advanced := s.(height := Advanced(s.height, blockNum));
      assert Tracked(advanced) == Tracked(s);
      TrackedAfterInserts(advanced, us, n);
      assert Tracked(Apply(s, step)) == Tracked(InsertedAll(advanced, us));
    case InsertNodes(added) => assert Tracked(Apply(s, step)) == Tracked(s);
    case Prune(untrack, removed) => TrackedAfterPrune(s, untrack, removed);
  }

  /** No prune from step `i` on untracks block `n`. */
  ghost predicate KeptFrom(steps: seq<Step>, i: nat, n: nat) {
    forall j :: i <= j < |steps| ==> !UntrackedBy(steps[j], n)
  }

  /** Over every run: a block is tracked at the end exactly when it was tracked at the start or flagged by some step,
      and no later prune untracked it. */
  lemma {:induction false} TrackedExactly(s: Chain, steps: seq<Step>, n: nat)
    ensures n in Tracked(Run(s, steps))
            <==> (n in Tracked(s) && KeptFrom(steps, 0, n))
                 || exists i :: 0 <= i < |steps| && FlaggedBy(steps[i], n) && KeptFrom(steps, i + 1, n)
  {
    hide FlaggedBy, UntrackedBy, Tracked, Apply;
    if |steps| > 0 {
      var k := |steps| - 1;
      TrackedExactly(s, steps[..k], n);
      TrackedAfterStep(Run(s, steps[..k]), steps[k], n);
      FlagsAndPrunes(steps[k], n);
      forall i | 0 <= i <= k ensures KeptFrom(steps, i, n) <==> KeptFrom(steps[..k], i, n) && !UntrackedBy(steps[k], n) {
        KeptOneMore(steps, i, n);
      }
      KeptOneMore(steps, k + 1, n);
      hide KeptFrom;
      var before := steps[..k];
      if FlaggedBy(steps[k], n) { assert KeptFrom(steps, k + 1, n); }
      forall i | 0 <= i < k && FlaggedBy(before[i], n) && KeptFrom(before, i + 1, n) && !UntrackedBy(steps[k], n)
        ensures FlaggedBy(steps[i], n) && KeptFrom(steps, i + 1, n)
      {
      }
    }
  }

  lemma FlagsAndPrunes(step: Step, n: nat)
    ensures !(FlaggedBy(step, n) && UntrackedBy(step, n))
  {
  }

  lemma KeptOneMore(steps: seq<Step>, i: nat, n: nat)
    requires |steps| > 0 && i <= |steps|
    ensures i == |steps| ==> KeptFrom(steps, i, n)
    ensures i < |steps| ==>
              (KeptFrom(steps, i, n) <==> KeptFrom(steps[..|steps| - 1], i, n) && !UntrackedBy(steps[|steps| - 1], n))
  {
    hide UntrackedBy;
    var k := |steps| - 1;
    if i < |steps| && KeptFrom(steps[..k], i, n) && !UntrackedBy(steps[k], n) {
      forall j | i <= j < |steps| ensures !UntrackedBy(steps[j], n) {
        assert j < k ==> steps[..k][j] == steps[j];
      }
    }
    if i < |steps| && KeptFrom(steps, i, n) {
      forall j | i <= j < k ensures !UntrackedBy(steps[..k][j], n) {
        assert steps[..k][j] == steps[j];
      }
    }
  }

  // Where rows and nodes come from

  ghost predicate Carries(u: HeaderUpdate, n: nat, header: Bytes, peaks: Bytes) {
    u.blockNum == n && u.header == header && u.peaks == peaks
  }

  /** The first update of the list for block `n` has this data. */
  ghost predicate FirstCarries(us: seq<HeaderUpdate>, n: nat, header: Bytes, peaks: Bytes) {
    exists i :: 0 <= i < |us| && Carries(us[i], n, header, peaks) && forall j :: 0 <= j < i ==> us[j].blockNum != n
  }

  /** The step brings this data for block `n`, if it has none yet. */
  ghost predicate Brings(step: Step, n: nat, header: Bytes, peaks: Bytes) {
    match step
    case Insert(u) => Carries(u, n, header, peaks)
    case Sync(_, us, _) => FirstCarries(us, n, header, peaks)
    case _ => false
  }

  ghost predicate HasRow(s: Chain, n: nat, header: Bytes, peaks: Bytes) {
    n in s.headers && s.headers[n].header == header && s.headers[n].peaks == peaks
  }

  lemma {:induction false} RowAfterInserts(s: Chain, us: seq<HeaderUpdate>, n: nat, header: Bytes, peaks: Bytes)
    ensures HasRow(InsertedAll(s, us), n, header, peaks)
            <==> HasRow(s, n, header, peaks) || (n !in s.headers && FirstCarries(us, n, header, peaks))
    ensures n in InsertedAll(s, us).headers <==> n in s.headers || exists i :: 0 <= i < |us| && us[i].blockNum == n
  {
    if |us| > 0 {
      var k := |us| - 1;
      RowAfterInserts(s, us[..k], n, header, peaks);
      if FirstCarries(us[..k], n, header, peaks) {
        var i :| 0 <= i < k && Carries(us[..k][i], n, header,
                                       peaks) && forall j :: 0 <= j < i ==> us[..k][j].blockNum != n;
        assert Carries(us[i], n, header, peaks);
        assert forall j :: 0 <= j < i ==> us[j] == us[..k][j];
      }
      if FirstCarries(us, n, header, peaks) {
        var i :| 0 <= i < |us| && Carries(us[i], n, header, peaks) && forall j :: 0 <= j < i ==> us[j].blockNum != n;
        if i < k { assert Carries(us[..k][i], n, header, peaks); }
      }
      if us[k].blockNum == n && n !in InsertedAll(s, us[..k]).headers {
        assert forall j :: 0 <= j < k ==> us[..k][j].blockNum != n;
      }
    }
  }

  /** One step, exactly: the data of a block is what was there, or, if nothing was, what the step brings first; a prune
      brings nothing. */
  lemma RowAfterStep(s: Chain, step: Step, n: nat, header: Bytes, peaks: Bytes)
    ensures HasRow(Apply(s, step), n, header, peaks)
            <==> || (HasRow(s, n, header, peaks) && (step.Prune? ==> Keeps(s, step.untrack, n)))
                 || (n !in s.headers && Brings(step, n, header, peaks))
  {
    if step.Sync? {
      RowAfterInserts(s.(height := Advanced(s.height, step.blockNum)), step.updates, n, header, peaks);
    }
  }

  /** Step `i` of the run stores this row for block `n`, which had none. */
  ghost predicate StoredAt(s: Chain, steps: seq<Step>, i: nat, n: nat, header: Bytes, peaks: Bytes)
    requires i < |steps|
  {
    n !in Run(s, steps[..i]).headers && Brings(steps[i], n, header, peaks)
  }

  ghost predicate NeverDeleted(s: Chain, steps: seq<Step>, from: nat, n: nat) {
    forall j :: from <= j < |steps| ==> !DeletedAt(s, steps, j, n)
  }

  /** Over every run: a row is in the table at the end exactly when it was there at the start or some step stored it,
      and no later prune deleted it. */
  lemma {:induction false} RowsExactly(s: Chain, steps: seq<Step>, n: nat, header: Bytes, peaks: Bytes)
    ensures HasRow(Run(s, steps), n, header, peaks)
            <==> || (HasRow(s, n, header, peaks) && NeverDeleted(s, steps, 0, n))
                 || exists i :: 0 <= i < |steps| && StoredAt(s, steps, i, n, header, peaks)
                                && NeverDeleted(s, steps, i + 1, n)
  {
    hide Brings, HasRow, Apply, DeletedAt;
    if |steps| > 0 {
      var k := |steps| - 1;
      var before := steps[..k];
      RowsExactly(s, before, n, header, peaks);
      RowStep(s, steps, n, header, peaks);
      forall i | 0 <= i < k ensures StoredAt(s, steps, i, n, header, peaks) <==> StoredAt(s, before, i, n, header, peaks) {
        assert before[..i] == steps[..i];
      }
      forall i | 0 <= i <= k
        ensures NeverDeleted(s, steps, i, n) <==> NeverDeleted(s, before, i, n) && !DeletedAt(s, steps, k, n)
      {
        DeletedEarlier(s, steps, i, n);
      }
      assert NeverDeleted(s, steps, k + 1, n);
      hide NeverDeleted, StoredAt;
    }
  }

  /** The last step of the run, in these terms. */
  lemma RowStep(s: Chain, steps: seq<Step>, n: nat, header: Bytes, peaks: Bytes)
    requires |steps| > 0
    ensures var k := |steps| - 1;
            HasRow(Run(s, steps), n, header, peaks)
            <==> || (HasRow(Run(s, steps[..k]), n, header, peaks) && !DeletedAt(s, steps, k, n))
                 || StoredAt(s, steps, k, n, header, peaks)
  {
    hide Brings;
    RowAfterStep(Run(s, steps[..|steps| - 1]), steps[|steps| - 1], n, header, peaks);
  }

  lemma DeletedEarlier(s: Chain, steps: seq<Step>, i: nat, n: nat)
    requires |steps| > 0 && i < |steps|
    ensures var k := |steps| - 1;
            NeverDeleted(s, steps, i, n) <==> NeverDeleted(s, steps[..k], i, n) && !DeletedAt(s, steps, k, n)
  {
    hide DeletedAt;
    var k := |steps| - 1;
    forall j | 0 <= j < k ensures DeletedAt(s, steps, j, n) <==> DeletedAt(s, steps[..k], j, n) {
      DeletedPrefix(s, steps, j, n);
    }
  }

  lemma DeletedPrefix(s: Chain, steps: seq<Step>, j: nat, n: nat)
    requires j < |steps| - 1
    ensures DeletedAt(s, steps, j, n) <==> DeletedAt(s, steps[..|steps| - 1], j, n)
  {
    assert steps[..|steps| - 1][..j] == steps[..j];
  }

  // Authentication nodes

  ghost predicate FirstNode(added: seq<(nat, Bytes)>, id: nat, node: Bytes) {
    exists i :: 0 <= i < |added| && added[i] == (id, node) && forall j :: 0 <= j < i ==> added[j].0 != id
  }

  ghost predicate HasNode(nodes: map<nat, Bytes>, id: nat, node: Bytes) {
    id in nodes && nodes[id] == node
  }

  lemma {:induction false} NodeAfterInserts(nodes: map<nat, Bytes>, added: seq<(nat, Bytes)>, id: nat, node: Bytes)
    ensures HasNode(NodesInserted(nodes, added), id, node)
            <==> HasNode(nodes, id, node) || (id !in nodes && FirstNode(added, id, node))
    ensures id in NodesInserted(nodes, added) <==> id in nodes || exists i :: 0 <= i < |added| && added[i].0 == id
  {
    if |added| > 0 {
      var k := |added| - 1;
      NodeAfterInserts(nodes, added[..k], id, node);
      if FirstNode(added[..k], id, node) {
        var i :| 0 <= i < k && added[..k][i] == (id, node) && forall j :: 0 <= j < i ==> added[..k][j].0 != id;
        assert added[i] == (id, node);
        assert forall j :: 0 <= j < i ==> added[j] == added[..k][j];
      }
      if FirstNode(added, id, node) {
        var i :| 0 <= i < |added| && added[i] == (id, node) && forall j :: 0 <= j < i ==> added[j].0 != id;
        if i < k { assert added[..k][i] == (id, node); }
      }
      if added[k].0 == id && id !in NodesInserted(nodes, added[..k]) {
        assert forall j :: 0 <= j < k ==> added[..k][j].0 != id;
      }
    }
  }

  ghost predicate BringsNode(step: Step, id: nat, node: Bytes) {
    match step
    case InsertNodes(added) => FirstNode(added, id, node)
    case Sync(_, _, added) => FirstNode(added, id, node)
    case _ => false
  }

  /** One step, exactly: a stored node stays as it is unless a prune removes it, and a new one is the first brought. */
  lemma NodeAfterStep(s: Chain, step: Step, id: nat, node: Bytes)
    ensures HasNode(Apply(s, step).nodes, id, node)
            <==> || (HasNode(s.nodes, id, node) && (step.Prune? ==> id !in step.removed))
                 || (id !in s.nodes && BringsNode(step, id, node))
  {
    match step
    case Insert(u) =>
    case InsertNodes(added) => NodeAfterInserts(s.nodes, added, id, node);
    case Sync(n, us, added) =>
      InsertedAllKeeps(s.(height := Advanced(s.height, n)), us, GENESIS);
      NodeAfterInserts(s.nodes, added, id, node);
    case Prune(untrack, removed) =>
  }

  /** Over every run a stored node that no prune removes stays, byte for byte. */
  lemma {:induction false} NodesSurvive(s: Chain, steps: seq<Step>, id: nat, node: Bytes)
    requires HasNode(s.nodes, id, node)
    requires forall i :: 0 <= i < |steps| && steps[i].Prune? ==> id !in steps[i].removed
    ensures HasNode(Run(s, steps).nodes, id, node)
  {
    if |steps| > 0 {
      NodesSurvive(s, steps[..|steps| - 1], id, node);
      NodeAfterStep(Run(s, steps[..|steps| - 1]), steps[|steps| - 1], id, node);
    }
  }

  /** A forest selects the nodes up to and including its rightmost one. */
  lemma ForestSelects(rightmost: nat, i: nat)
    ensures Selects(Forest(Some(rightmost)), i) <==> Selects(List(seq(rightmost + 1, (k: nat) => k)), i)
    ensures Selects(Forest(Some(rightmost)), i) ==> Selects(All, i)
    ensures Selects(All, i) <==> Selects(Forest(Some(Max(i, rightmost))), i)
    ensures !Selects(Forest(None), i) && !Selects(List([]), i)
  {
    var ids := seq(rightmost + 1, (k: nat) => k);
    if i <= rightmost { assert ids[i] == i; }
  }

  // Pruning composes

  /** Moving the sync height forward, to `to`, without new headers. */
  ghost function AdvancedTo(s: Chain, to: nat): Chain {
    s.(height := Advanced(s.height, to))
  }

  /** A prune, then a later one, leave what one prune at the later height with both lists leaves. */
  lemma PruneTwice(s: Chain, to: nat, u: set<nat>, r: set<nat>, u': set<nat>, r': set<nat>)
    ensures Pruned(AdvancedTo(Pruned(s, u, r), to), u', r') == Pruned(AdvancedTo(s, to), u + u', r + r')
  {
    var left, right := Pruned(AdvancedTo(Pruned(s, u, r), to), u', r'), Pruned(AdvancedTo(s, to), u + u', r + r');
    assert left.headers == right.headers;
    assert left.nodes == right.nodes;
  }

  /** Rounds of moving the height and pruning. */
  datatype Round = Round(to: nat, untrack: set<nat>, removed: set<nat>)

  ghost function Rounds(s: Chain, rounds: seq<Round>): Chain {
    if |rounds| == 0 then s
    else
      var last := rounds[|rounds| - 1];
      Pruned(AdvancedTo(Rounds(s, rounds[..|rounds| - 1]), last.to), last.untrack, last.removed)
  }

  ghost function Highest(rounds: seq<Round>): nat {
    if |rounds| == 0 then 0
    else
      var h := Highest(rounds[..|rounds| - 1]);
      if rounds[|rounds| - 1].to > h then rounds[|rounds| - 1].to else h
  }

  ghost function AllUntracked(rounds: seq<Round>): set<nat> {
    set i, n | 0 <= i < |rounds| && n in rounds[i].untrack :: n
  }

  ghost function AllRemoved(rounds: seq<Round>): set<nat> {
    set i, n | 0 <= i < |rounds| && n in rounds[i].removed :: n
  }

  /** Any number of rounds is one prune at the highest height, with everything they untracked and removed: pruning
      often or seldom makes no difference in the end. */
  lemma {:induction false} RoundsAreOnePrune(s: Chain, rounds: seq<Round>)
    requires |rounds| > 0
    ensures Rounds(s, rounds) == Pruned(AdvancedTo(s, Highest(rounds)), AllUntracked(rounds), AllRemoved(rounds))
  {
    var n := |rounds| - 1;
    var before, last := rounds[..n], rounds[n];
    assert AllUntracked(rounds) == AllUntracked(before) + last.untrack;
    assert AllRemoved(rounds) == AllRemoved(before) + last.removed;
    if n == 0 {
      assert Rounds(s, before) == s && AllUntracked(before) == {} && AllRemoved(before) == {};
    } else {
      RoundsAreOnePrune(s, before);
      PruneTwice(AdvancedTo(s, Highest(before)), last.to, AllUntracked(before), AllRemoved(before), last.untrack,
                 last.removed);
      assert AdvancedTo(AdvancedTo(s, Highest(before)), last.to) == AdvancedTo(s, Highest(rounds));
    }
  }

  // Inserting

  /** Two inserts of one block are one with the first data and either flag. */
  lemma InsertTwice(s: Chain, u: HeaderUpdate, v: HeaderUpdate)
    requires u.blockNum == v.blockNum
    ensures Inserted(Inserted(s, u), v) == Inserted(s, u.(hasClientNotes := u.hasClientNotes || v.hasClientNotes))
  {
    var flag := u.hasClientNotes || v.hasClientNotes;
    assert Inserted(Inserted(s, u), v).headers == Inserted(s, u.(hasClientNotes := flag)).headers;
  }

  lemma InsertsCommute(s: Chain, u: HeaderUpdate, v: HeaderUpdate)
    requires u.blockNum != v.blockNum
    ensures Inserted(Inserted(s, u), v) == Inserted(Inserted(s, v), u)
  {
    assert Inserted(Inserted(s, u), v).headers == Inserted(Inserted(s, v), u).headers;
  }

  // The client's pruning cadence (miden-client/crates/rust-client/src/sync/mod.rs)

  class Client {
    const store: Store
    const interval: Option<nat>
    var lastPruneHeight: Option<nat>

    constructor (store: Store, interval: Option<nat>)
      ensures this.store == store && this.interval == interval && lastPruneHeight.None?
    {
      this.store, this.interval, this.lastPruneHeight := store, interval, None;
    }

    /** A prune is due on the first call and then whenever the height has grown by the interval. */
    ghost predicate Due(height: nat)
      reads this
    {
      interval.Some? && DueAt(interval.value, lastPruneHeight, height)
    }

    /** Untracks every tracked block without unspent notes, in ascending order, and prunes, if it is due.  `None` stands
        for the error when no sync height is stored. */
    method MaybePrune(live: set<nat>, freed: Freeing) returns (pruned: Option<bool>, ghost order: seq<nat>)
      modifies this, store
      ensures pruned.None? <==> interval.Some? && old(store.syncHeight).None?
      ensures pruned.Some? ==> (pruned.value <==> interval.Some? && old(Due(store.syncHeight.value)))
      ensures pruned != Some(true) ==> store.State() == old(store.State()) && lastPruneHeight == old(lastPruneHeight)
      ensures pruned == Some(true) ==>
                && Ascending(order) && Elements(order) == old(Tracked(store.State())) - live
                && store.State() == Pruned(old(store.State()), Elements(order), Freed(freed, order))
                && lastPruneHeight == old(store.syncHeight)
                && Tracked(store.State()) == old(Tracked(store.State())) * live
      ensures forall n :: n in live && Flagged(old(store.State()), n) ==> Flagged(store.State(), n)
    {
      order := [];
      if interval.None? { return Some(false), order; }
      if store.syncHeight.None? { return None, order; }
      var height := store.syncHeight.value;
      if lastPruneHeight.Some? && height < lastPruneHeight.value + interval.value { return Some(false), order; }
      var tracked := store.GetTrackedNumbers();
      var toUntrack := InOrder(tracked - live);
      var removed := CollectFreed(freed, toUntrack);
      TrackedAfterPrune(store.State(), Elements(toUntrack), Elements(removed));
      store.PruneIrrelevantBlocks(toUntrack, removed);
      lastPruneHeight := Some(height);
      return Some(true), toUntrack;
    }
  }

  // The cadence over many calls

  ghost predicate DueAt(interval: nat, last: Option<nat>, height: nat) {
    last.Some? ==> height >= last.value + interval
  }

  /** The heights at which calls at the given heights prune. */
  ghost function PruneHeights(interval: nat, heights: seq<nat>): seq<nat> {
    if |heights| == 0 then []
    else
      var before, h := PruneHeights(interval, heights[..|heights| - 1]), heights[|heights| - 1];
      if DueAt(interval, LastOf(before), h) then before + [h] else before
  }

  ghost function LastOf(s: seq<nat>): Option<nat> {
    if |s| == 0 then None else Some(s[|s| - 1])
  }

  /** Over any sequence of calls: two prunes are at least an interval apart, the first call prunes, and a call that does
      not prune is less than an interval above an earlier prune. */
  lemma {:induction false} Cadence(interval: nat, heights: seq<nat>)
    ensures var prunes := PruneHeights(interval, heights);
            && (forall i :: 0 < i < |prunes| ==> prunes[i] >= prunes[i - 1] + interval)
            && (|heights| > 0 ==> |prunes| > 0 && prunes[0] == heights[0])
            && (forall i :: 0 <= i < |heights| ==> PrunedNear(interval, prunes, heights[i]))
  {
    hide PrunedNear;
    if |heights| > 0 {
      var k, h := |heights| - 1, heights[|heights| - 1];
      Cadence(interval, heights[..k]);
      var before, prunes := PruneHeights(interval, heights[..k]), PruneHeights(interval, heights);
      forall i | 0 <= i < |heights| ensures PrunedNear(interval, prunes, heights[i]) {
        if i < k {
          assert heights[..k][i] == heights[i];
          NearStays(interval, before, prunes, heights[i]);
        } else {
          LastIsNear(interval, before, h);
        }
      }
    }
  }

  /** A height pruned, or less than an interval above a prune. */
  ghost predicate PrunedNear(interval: nat, prunes: seq<nat>, height: nat) {
    height in prunes || exists p :: p in prunes && height < p + interval
  }

  lemma NearStays(interval: nat, before: seq<nat>, prunes: seq<nat>, height: nat)
    requires PrunedNear(interval, before, height) && before <= prunes
    ensures PrunedNear(interval, prunes, height)
  {
    if height !in before {
      var p :| p in before && height < p + interval;
      assert p in prunes;
    }
  }

  lemma LastIsNear(interval: nat, before: seq<nat>, height: nat)
    ensures PrunedNear(interval, if DueAt(interval, LastOf(before), height) then before + [height] else before, height)
  {
    if !DueAt(interval, LastOf(before), height) { assert before[|before| - 1] in before; }
  }

  /** Which authentication nodes the partial MMR frees when a block is untracked after others. */
  type Freeing = (seq<nat>, nat) -> seq<nat>

  ghost function Freed(freed: Freeing, order: seq<nat>): set<nat> {
    if |order| == 0 then {}
    else Freed(freed, order[..|order| - 1]) + Elements(freed(order[..|order| - 1], order[|order| - 1]))
  }

  ghost predicate Ascending(order: seq<nat>) {
    forall i, j :: 0 <= i < j < |order| ==> order[i] < order[j]
  }

  /** The nodes removed are those that untracking some block frees, given the blocks untracked before it. */
  lemma {:induction false} FreedExactly(freed: Freeing, order: seq<nat>, node: nat)
    ensures node in Freed(freed, order) <==> exists i :: 0 <= i < |order| && node in freed(order[..i], order[i])
  {
    if |order| > 0 {
      var n := |order| - 1;
      FreedExactly(freed, order[..n], node);
      assert forall i :: 0 <= i < n ==> order[..n][..i] == order[..i];
      if node in Freed(freed, order[..n]) {
        var i :| 0 <= i < n && node in freed(order[..n][..i], order[..n][i]);
        assert order[..n][..i] == order[..i];
        assert node in freed(order[..i], order[i]);
      }
      if i :| 0 <= i < n && node in freed(order[..i], order[i]) {
        assert node in freed(order[..n][..i], order[..n][i]);
      }
    }
  }

  method CollectFreed(freed: Freeing, order: seq<nat>) returns (nodes: seq<nat>)
    ensures Elements(nodes) == Freed(freed, order)
  {
    nodes := [];
    for i := 0 to |order|
      invariant Elements(nodes) == Freed(freed, order[..i])
    {
      assert order[..i + 1][..i] == order[..i];
      nodes := nodes + freed(order[..i], order[i]);
    }
    assert order[..|order|] == order;
  }

  predicate IsLeast(s: set<nat>, x: nat) {
    x in s && forall y :: y in s ==> x <= y
  }

  lemma {:induction false} HasLeast(s: set<nat>)
    requires s != {}
    ensures exists x :: IsLeast(s, x)
    decreases |s|
  {
    var x :| x in s;
    var rest := s - {x};
    if rest == {} {
      assert s == {x};
      assert IsLeast(s, x);
    } else {
      HasLeast(rest);
      var y :| IsLeast(rest, y);
      assert forall z :: z in s ==> z == x || z in rest;
      assert IsLeast(s, if x <= y then x else y);
    }
  }

  /** Everything already listed is below everything to come. */
  ghost predicate Ahead(order: seq<nat>, todo: set<nat>) {
    forall i, x :: 0 <= i < |order| && x in todo ==> order[i] < x
  }

  /** Listing the least remaining element next. */
  lemma NextInOrder(order: seq<nat>, todo: set<nat>, x: nat)
    requires Ascending(order) && Ahead(order, todo) && IsLeast(todo, x)
    ensures Ascending(order + [x]) && Ahead(order + [x], todo - {x})
    ensures Elements(order + [x]) + (todo - {x}) == Elements(order) + todo
  {
    assert Elements(order + [x]) == Elements(order) + {x};
  }

  lemma RestAscends(order: seq<nat>)
    requires Ascending(order) && |order| > 0
    ensures Ascending(order[1..]) && Elements(order[1..]) == Elements(order) - {order[0]}
    ensures IsLeast(Elements(order), order[0])
  {
    var rest := order[1..];
    assert forall i :: 0 <= i < |rest| ==> rest[i] == order[i + 1];
    assert order == [order[0]] + rest;
  }

  lemma Inhabited(s: seq<nat>)
    ensures Elements(s) == {} <==> s == []
  {
    if |s| > 0 { assert s[0] in Elements(s); }
  }

  /** Ascending order determines the list. */
  lemma {:induction false} AscendingUnique(a: seq<nat>, b: seq<nat>)
    requires Ascending(a) && Ascending(b) && Elements(a) == Elements(b)
    ensures a == b
  {
    hide Ascending;
    Inhabited(a);
    Inhabited(b);
    if |a| > 0 && |b| > 0 {
      RestAscends(a);
      RestAscends(b);
      AscendingUnique(a[1..], b[1..]);
      assert a == [a[0]] + a[1..] && b == [b[0]] + b[1..];
    }
  }

  /** The elements of a set in ascending order. */
  method InOrder(s: set<nat>) returns (order: seq<nat>)
    ensures Ascending(order) && Elements(order) == s
  {
    hide Ascending, Ahead, Elements;
    order := [];
    var todo := s;
    NoneListed(s);
    while todo != {}
      invariant Ascending(order) && Ahead(order, todo) && Elements(order) + todo == s
      decreases |todo|
    {
      HasLeast(todo);
      var x :| x in todo && IsLeast(todo, x);
      NextInOrder(order, todo, x);
      order := order + [x];
      todo := todo - {x};
    }
  }

  lemma NoneListed(s: set<nat>)
    ensures Ascending([]) && Ahead([], s) && Elements([]) == {}
  {
  }
}
