/** How variable-length public inputs are absorbed into the challenger (miden-vm/air/src/config.rs): each message is
    zero-padded to a multiple of the sponge rate and reversed. */
module Vlpi {
  import opened Common

  const SPONGE_RATE := 8

  lemma PaddedWidth(w: nat)
    ensures var p := NextMultipleOf(w, SPONGE_RATE); p % SPONGE_RATE == 0 && w <= p < w + SPONGE_RATE
  {
  }

  /** What one message becomes: leading zeros, then its elements backwards. */
  ghost function Block<T>(zero: T, message: seq<T>): (b: seq<T>)
    ensures |b| == NextMultipleOf(|message|, SPONGE_RATE) && |b| % 8 == 0 && |message| <= |b| < |message| + 8
  {
    PaddedWidth(|message|);
    Repeat(zero, NextMultipleOf(|message|, SPONGE_RATE) - |message|) + Reversed(message)
  }

  /** The stream for the first `n` messages of width `w` in a group. */
  ghost function Stream<T>(zero: T, group: seq<T>, w: nat, n: nat): (s: seq<T>)
    requires n * w <= |group|
    ensures |s| == n * NextMultipleOf(w, SPONGE_RATE)
  {
    if n == 0 then [] else
      Nested(n, w);
      assert n * NextMultipleOf(w, SPONGE_RATE)
                 == (n - 1) * NextMultipleOf(w, SPONGE_RATE) + NextMultipleOf(w, SPONGE_RATE);
      Stream(zero, group, w, n - 1) + Block(zero, group[(n - 1) * w..n * w])
  }

  lemma Nested(n: nat, w: nat)
    requires n > 0
    ensures 0 <= (n - 1) * w && n * w == (n - 1) * w + w
  {
  }

  /** The group is a whole number of messages. */
  ghost predicate Whole<T>(group: seq<T>, w: nat, n: nat) {
    w > 0 && |group| == n * w
  }

  method PadMessage<T>(zero: T, message: seq<T>) returns (padded: seq<T>)
    ensures padded == Block(zero, message)
  {
    var paddedWidth := NextMultipleOf(|message|, SPONGE_RATE);
    PaddedWidth(|message|);
    var buffer := new T[paddedWidth](_ => zero);
    for i := 0 to |message|
      invariant forall j :: 0 <= j < paddedWidth ==>
                  buffer[j] == if j >= paddedWidth - i then message[paddedWidth - 1 - j] else zero
    {
      buffer[paddedWidth - 1 - i] := message[i];
    }
    padded := buffer[..];
  }

  /** Absorbs one group; `None` stands for the panic on a message that is cut short, or on a zero width. */
  method ObserveGroup<T>(zero: T, group: seq<T>, w: nat) returns (r: Option<seq<T>>)
    ensures r.Some? <==> w > 0 && |group| % w == 0
    ensures r.Some? ==> Whole(group, w, |group| / w) && r.value == Stream(zero, group, w, |group| / w)
  {
    if w == 0 { return None; }
    var observed, k, at := [], 0, 0;
    while at < |group|
      invariant at == k * w <= |group| && observed == Stream(zero, group, w, k)
      decreases |group| - at
    {
      Nested(k + 1, w);
      if at + w > |group| {
        CutShort(|group|, w, k);
        return None;
      }
      var padded := PadMessage(zero, group[at..at + w]);
      observed := observed + padded;
      k, at := k + 1, at + w;
    }
    Exact(|group|, w, k);
    r := Some(observed);
  }

  lemma CutShort(n: nat, w: nat, k: nat)
    requires w > 0 && k * w < n < k * w + w
    ensures n % w != 0
  {
    Division(n, w, k, n - k * w);
  }

  lemma Exact(n: nat, w: nat, k: nat)
    requires w > 0 && n == k * w
    ensures n % w == 0 && n / w == k
  {
    Division(n, w, k, 0);
  }

  // Recovering the inputs

  /** Undoes `Block`. */
  ghost function Unblock<T>(block: seq<T>, w: nat): (message: seq<T>)
    requires w <= |block|
    ensures |message| == w
  {
    Reversed(block[|block| - w..])
  }

  lemma UnblockBlock<T>(zero: T, message: seq<T>)
    ensures |message| <= |Block(zero, message)| && Unblock(Block(zero, message), |message|) == message
  {
    PaddedWidth(|message|);
  }

  /** Reads `n` messages of width `w` back from the stream. */
  ghost function Recover<T>(stream: seq<T>, w: nat, n: nat): (group: seq<T>)
    requires |stream| == n * NextMultipleOf(w, SPONGE_RATE)
    ensures |group| == n * w
  {
    if n == 0 then [] else
      var p := NextMultipleOf(w, SPONGE_RATE);
      PaddedWidth(w);
      Nested(n, w);
      Nested(n, p);
      Recover(stream[..(n - 1) * p], w, n - 1) + Unblock(stream[(n - 1) * p..], w)
  }

  /** The group can be read back from the stream it is absorbed as. */
  lemma {:induction false} RecoverStream<T>(zero: T, group: seq<T>, w: nat, n: nat)
    requires n * w <= |group|
    ensures Recover(Stream(zero, group, w, n), w, n) == group[..n * w]
  {
    if n > 0 {
      var p := NextMultipleOf(w, SPONGE_RATE);
      Nested(n, w);
      Nested(n, p);
      RecoverStream(zero, group, w, n - 1);
      var message := group[(n - 1) * w..n * w];
      var stream := Stream(zero, group, w, n);
      assert stream[..(n - 1) * p] == Stream(zero, group, w, n - 1) && stream[(n - 1) * p..] == Block(zero, message);
      UnblockBlock(zero, message);
      assert group[..n * w] == group[..(n - 1) * w] + message;
    }
  }

  /** Distinct groups of the same width are absorbed as distinct streams, whatever their lengths. */
  lemma StreamInjective<T>(zero: T, g: seq<T>, g': seq<T>, w: nat, n: nat, n': nat)
    requires Whole(g, w, n) && Whole(g', w, n') && Stream(zero, g, w, n) == Stream(zero, g', w, n')
    ensures g == g'
  {
    var p := NextMultipleOf(w, SPONGE_RATE);
    PaddedWidth(w);
    if n < n' { Apart(p, n, n'); }
    if n' < n { Apart(p, n', n); }
    RecoverStream(zero, g, w, n);
    RecoverStream(zero, g', w, n');
    assert g[..n * w] == g && g'[..n' * w] == g';
  }

  // Several groups

  ghost function Streams<T>(zero: T, groups: seq<seq<T>>, widths: seq<nat>): seq<T>
    requires |groups| == |widths| && forall i :: 0 <= i < |groups| ==> widths[i] > 0
  {
    if |groups| == 0 then []
    else
      var n := |groups| - 1;
      DivisionFits(|groups[n]|, widths[n]);
      Streams(zero, groups[..n], widths[..n]) + Stream(zero, groups[n], widths[n], |groups[n]| / widths[n])
  }

  lemma DivisionFits(n: nat, w: nat)
    requires w > 0
    ensures n / w * w <= n
  {
  }

  /** All groups in order.  `None` stands for a panic: a missing width, a zero width, or a group with a partial
      message. */
  method ObserveVarLenPublicInputs<T>(zero: T, groups: seq<seq<T>>, widths: seq<nat>) returns (r: Option<seq<T>>)
    ensures r.Some? <==> |groups| == |widths| && forall i :: 0 <= i < |groups| ==>
              widths[i] > 0 && |groups[i]| % widths[i] == 0
    ensures r.Some? ==> r.value == Streams(zero, groups, widths)
  {
    if |groups| != |widths| { return None; }
    var observed := [];
    for i := 0 to |groups|
      invariant forall j :: 0 <= j < i ==> widths[j] > 0 && |groups[j]| % widths[j] == 0
      invariant observed == Streams(zero, groups[..i], widths[..i])
    {
      var next := ObserveGroup(zero, groups[i], widths[i]);
      if next.None? { return None; }
      observed := observed + next.value;
      assert groups[..i + 1][..i] == groups[..i] && widths[..i + 1][..i] == widths[..i];
    }
    assert groups[..|groups|] == groups && widths[..|widths|] == widths;
    r := Some(observed);
  }

  lemma SameTail<T>(a: seq<T>, b: seq<T>, c: seq<T>, d: seq<T>)
    requires a + b == c + d && |b| == |d|
    ensures a == c && b == d
  {
    assert |a| == |c|;
    assert a == (a + b)[..|a|] && c == (c + d)[..|c|];
    assert b == (a + b)[|a|..] && d == (c + d)[|c|..];
  }

  /** Groups with the same numbers of messages are told apart by the whole stream. */
  lemma {:induction false} StreamsInjective<T>(zero: T, gs: seq<seq<T>>, gs': seq<seq<T>>, widths: seq<nat>)
    requires |gs| == |gs'| == |widths|
    requires forall i :: 0 <= i < |gs| ==> widths[i] > 0 && |gs[i]| == |gs'[i]| && |gs[i]| % widths[i] == 0
    requires Streams(zero, gs, widths) == Streams(zero, gs', widths)
    ensures gs == gs'
  {
    hide Stream, Streams, NextMultipleOf;
    if |gs| > 0 {
      var n := |gs| - 1;
      LastGroup(zero, gs, widths);
      LastGroup(zero, gs', widths);
      var w, k := widths[n], |gs[n]| / widths[n];
      SameTail(Streams(zero, gs[..n], widths[..n]), Stream(zero, gs[n], w, k),
               Streams(zero, gs'[..n], widths[..n]), Stream(zero, gs'[n], w, k));
      StreamsInjective(zero, gs[..n], gs'[..n], widths[..n]);
      StreamInjective(zero, gs[n], gs'[n], w, k, k);
      assert gs == gs[..n] + [gs[n]] && gs' == gs'[..n] + [gs'[n]];
    }
  }

  lemma LastGroup<T>(zero: T, groups: seq<seq<T>>, widths: seq<nat>)
    requires |groups| == |widths| > 0
    requires forall i :: 0 <= i < |groups| ==> widths[i] > 0 && |groups[i]| % widths[i] == 0
    ensures var n := |groups| - 1;
            var k := |groups[n]| / widths[n];
            && Whole(groups[n], widths[n], k)
            && Streams(zero, groups, widths) == Streams(zero, groups[..n], widths[..n]) + Stream(zero, groups[n], widths[n], k)
  {
    hide Stream, NextMultipleOf;
    var n := |groups| - 1;
    WholeNumber(|groups[n]|, widths[n]);
  }

  lemma WholeNumber(n: nat, w: nat)
    requires w > 0 && n % w == 0
    ensures n == n / w * w
  {
  }

  // Which numbers of messages can be confused

  /** Groups of whole messages, `counts[i]` of them in group `i`. */
  ghost predicate Counted<T>(groups: seq<seq<T>>, widths: seq<nat>, counts: seq<nat>) {
    && |groups| == |widths| == |counts|
    && forall i :: 0 <= i < |groups| ==> Whole(groups[i], widths[i], counts[i])
  }

  ghost predicate Positive(widths: seq<nat>) {
    forall i :: 0 <= i < |widths| ==> widths[i] > 0
  }

  /** How many elements are absorbed for `counts[i]` messages of width `widths[i]`. */
  function Absorbed(widths: seq<nat>, counts: seq<nat>): nat
    requires |widths| == |counts|
  {
    if |widths| == 0 then 0
    else
      var n := |widths| - 1;
      Absorbed(widths[..n], counts[..n]) + counts[n] * NextMultipleOf(widths[n], SPONGE_RATE)
  }

  lemma {:induction false} StreamsLength<T>(zero: T, groups: seq<seq<T>>, widths: seq<nat>, counts: seq<nat>)
    requires Counted(groups, widths, counts)
    ensures |Streams(zero, groups, widths)| == Absorbed(widths, counts)
  {
    if |groups| > 0 {
      var n := |groups| - 1;
      assert Whole(groups[n], widths[n], counts[n]);
      Exact(|groups[n]|, widths[n], counts[n]);
      StreamsLength(zero, groups[..n], widths[..n], counts[..n]);
    }
  }

  /** Groups that hold nothing but zeros. */
  ghost function ZeroGroups<T>(zero: T, widths: seq<nat>, counts: seq<nat>): (groups: seq<seq<T>>)
    requires |widths| == |counts|
    ensures |groups| == |widths|
    ensures forall i :: 0 <= i < |widths| ==> groups[i] == Repeat(zero, counts[i] * widths[i])
  {
    seq(|widths|, i requires 0 <= i < |widths| => Repeat(zero, counts[i] * widths[i]))
  }

  lemma ZeroBlock<T>(zero: T, w: nat)
    ensures Block(zero, Repeat(zero, w)) == Repeat(zero, NextMultipleOf(w, SPONGE_RATE))
  {
    PaddedWidth(w);
    assert Reversed(Repeat(zero, w)) == Repeat(zero, w);
  }

  lemma {:induction false} ZeroStream<T>(zero: T, w: nat, total: nat, n: nat)
    requires n * w <= total
    ensures Stream(zero, Repeat(zero, total), w, n) == Repeat(zero, n * NextMultipleOf(w, SPONGE_RATE))
  {
    if n > 0 {
      var p := NextMultipleOf(w, SPONGE_RATE);
      Nested(n, w);
      Nested(n, p);
      ZeroStream(zero, w, total, n - 1);
      assert Repeat(zero, total)[(n - 1) * w..n * w] == Repeat(zero, w);
      ZeroBlock(zero, w);
      assert Repeat(zero, (n - 1) * p) + Repeat(zero, p) == Repeat(zero, n * p);
    }
  }

  lemma {:induction false} ZeroStreams<T>(zero: T, widths: seq<nat>, counts: seq<nat>)
    requires |widths| == |counts| && Positive(widths)
    ensures Counted(ZeroGroups(zero, widths, counts), widths, counts)
    ensures Streams(zero, ZeroGroups(zero, widths, counts), widths) == Repeat(zero, Absorbed(widths, counts))
  {
    hide NextMultipleOf, Stream;
    if |widths| > 0 {
      var n := |widths| - 1;
      var w, k := widths[n], counts[n];
      var groups := ZeroGroups(zero, widths, counts);
      assert groups[..n] == ZeroGroups(zero, widths[..n], counts[..n]);
      ZeroStreams(zero, widths[..n], counts[..n]);
      Exact(k * w, w, k);
      ZeroStream(zero, w, k * w, k);
      var p := k * NextMultipleOf(w, SPONGE_RATE);
      assert Streams(zero, groups, widths) == Streams(zero, groups[..n], widths[..n]) + Stream(zero, groups[n], w, k);
      assert Repeat(zero, Absorbed(widths[..n], counts[..n])) + Repeat(zero, p)
                 == Repeat(zero, Absorbed(widths, counts));
    }
  }

  ghost predicate Confused<T>(zero: T, widths: seq<nat>, groups: seq<seq<T>>, groups': seq<seq<T>>)
    requires |groups| == |groups'| == |widths| && Positive(widths)
  {
    Streams(zero, groups, widths) == Streams(zero, groups', widths)
  }

  /** Given the widths, some groups with `n` messages and some with `n'` share a stream exactly when both absorb the
      same number of elements. */
  lemma ConfusableExactly<T(!new)>(zero: T, widths: seq<nat>, n: seq<nat>, n': seq<nat>)
    requires |n| == |n'| == |widths| && Positive(widths)
    ensures (exists groups: seq<seq<T>>, groups': seq<seq<T>> ::
               Counted(groups, widths, n) && Counted(groups', widths, n') && Confused(zero, widths, groups, groups'))
            <==> Absorbed(widths, n) == Absorbed(widths, n')
  {
    hide Streams;
    forall groups: seq<seq<T>>, groups': seq<seq<T>> |
        Counted(groups, widths, n) && Counted(groups', widths, n') && Confused(zero, widths, groups, groups')
      ensures Absorbed(widths, n) == Absorbed(widths, n')
    {
      StreamsLength(zero, groups, widths, n);
      StreamsLength(zero, groups', widths, n');
    }
    ZeroStreams(zero, widths, n);
    ZeroStreams(zero, widths, n');
    if Absorbed(widths, n) == Absorbed(widths, n') {
      assert Confused(zero, widths, ZeroGroups(zero, widths, n), ZeroGroups(zero, widths, n'));
    }
  }

  /** Every two lists of groups of whole messages are told apart. */
  ghost predicate TellsApart<T(!new)>(zero: T, widths: seq<nat>)
    requires Positive(widths)
  {
    forall groups: seq<seq<T>>, groups': seq<seq<T>>, n: seq<nat>, n': seq<nat> ::
      Counted(groups, widths, n) && Counted(groups', widths, n') && Confused(zero, widths, groups, groups') ==>
        groups == groups'
  }

  /** The stream determines the groups exactly when there is at most one group, whatever the widths are. */
  lemma ToldApartExactly<T(!new)>(zero: T, widths: seq<nat>)
    requires Positive(widths)
    ensures TellsApart(zero, widths) <==> |widths| <= 1
  {
    hide Streams, Stream, NextMultipleOf;
    if |widths| <= 1 {
      forall groups: seq<seq<T>>, groups': seq<seq<T>>, n: seq<nat>, n': seq<nat> |
          Counted(groups, widths, n) && Counted(groups', widths, n') && Confused(zero, widths, groups, groups')
        ensures groups == groups'
      {
        if |widths| == 1 { OneGroup(zero, widths, groups, groups', n, n'); }
      }
    } else {
      TradedMessages(zero, widths);
    }
  }

  lemma OneGroup<T>(zero: T, widths: seq<nat>, groups: seq<seq<T>>, groups': seq<seq<T>>, n: seq<nat>, n': seq<nat>)
    requires |widths| == 1 && Positive(widths)
    requires Counted(groups, widths, n) && Counted(groups', widths, n') && Confused(zero, widths, groups, groups')
    ensures groups == groups'
  {
    hide Stream, NextMultipleOf;
    SingleStream(zero, groups, widths, n);
    SingleStream(zero, groups', widths, n');
    StreamInjective(zero, groups[0], groups'[0], widths[0], n[0], n'[0]);
  }

  lemma SingleStream<T>(zero: T, groups: seq<seq<T>>, widths: seq<nat>, n: seq<nat>)
    requires |widths| == 1 && Positive(widths) && Counted(groups, widths, n)
    ensures Whole(groups[0], widths[0], n[0])
    ensures Streams(zero, groups, widths) == Stream(zero, groups[0], widths[0], n[0])
  {
    hide Stream, NextMultipleOf;
    assert Whole(groups[0], widths[0], n[0]);
    Exact(|groups[0]|, widths[0], n[0]);
    assert groups[..0] == [] && widths[..0] == [];
  }

  /** As many zero messages in the first group as the second one's padded width, against the reverse. */
  lemma TradedMessages<T(!new)>(zero: T, widths: seq<nat>)
    requires Positive(widths) && |widths| >= 2
    ensures !TellsApart(zero, widths)
  {
    hide Streams, NextMultipleOf, Absorbed;
    var n, n' := Traded(widths, 0, 1), Traded(widths, 1, 0);
    ZeroStreams(zero, widths, n);
    ZeroStreams(zero, widths, n');
    SameAbsorbed(widths);
    var groups, groups' := ZeroGroups(zero, widths, n), ZeroGroups(zero, widths, n');
    assert Confused(zero, widths, groups, groups');
    assert |groups[0]| > 0 by {
      PaddedWidth(widths[1]);
      Apart(widths[0], 0, n[0]);
    }
    assert |groups'[0]| == 0;
  }

  /** As many messages in group `i` as the padded width of group `j`, and none elsewhere. */
  function Traded(widths: seq<nat>, i: nat, j: nat): (counts: seq<nat>)
    requires i < |widths| && j < |widths|
    ensures |counts| == |widths| && counts[i] == NextMultipleOf(widths[j], SPONGE_RATE)
    ensures forall k :: 0 <= k < |widths| && k != i ==> counts[k] == 0
  {
    Repeat(0, |widths|)[i := NextMultipleOf(widths[j], SPONGE_RATE)]
  }

  lemma SameAbsorbed(widths: seq<nat>)
    requires |widths| >= 2
    ensures Absorbed(widths, Traded(widths, 0, 1)) == Absorbed(widths, Traded(widths, 1, 0))
  {
    hide NextMultipleOf, Absorbed, Traded;
    FirstTwo(widths, Traded(widths, 0, 1));
    FirstTwo(widths, Traded(widths, 1, 0));
  }

  lemma {:induction false} FirstTwo(widths: seq<nat>, counts: seq<nat>)
    requires |widths| == |counts| >= 2 && forall i :: 2 <= i < |counts| ==> counts[i] == 0
    ensures Absorbed(widths, counts) == counts[0] * NextMultipleOf(widths[0], SPONGE_RATE)
                                        + counts[1] * NextMultipleOf(widths[1], SPONGE_RATE)
  {
    hide NextMultipleOf;
    var n := |widths| - 1;
    if n == 1 {
      assert widths[..1][..0] == [] && counts[..1][..0] == [];
      assert Absorbed(widths[..1], counts[..1]) == counts[0] * NextMultipleOf(widths[0], SPONGE_RATE);
    } else {
      FirstTwo(widths[..n], counts[..n]);
    }
  }

  /** Not only zeros are confused: any message moved to a neighbouring group of the same width leaves the stream
      unchanged. */
  lemma MovedMessage<T>(zero: T, message: seq<T>)
    requires |message| > 0
    ensures var w := |message|; Streams(zero, [message, []], [w, w]) == Streams(zero, [[], message], [w, w])
  {
    var w := |message|;
    var left, right, widths := [message, []], [[], message], [w, w];
    assert left[..1] == [message] && right[..1] == [[]] && widths[..1] == [w];
    assert [message][..0] == [] && [w][..0] == [];
    Exact(0, w, 0);
    Exact(w, w, 1);
    assert Streams(zero, [message], [w]) == Stream(zero, message, w, 1);
    assert Streams<T>(zero, [[]], [w]) == [];
  }
}
