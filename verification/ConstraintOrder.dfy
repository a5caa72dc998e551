/** Merging base-field and extension-field constraints into evaluation order
    (miden-vm/crates/ace-codegen/src/dag/lower.rs): a stable sort by position. */
module ConstraintOrder {
  import opened Common

  datatype Placed<X> = Placed(pos: nat, item: X)

  /** Puts one entry behind all entries that do not come after it. */
  function Insert<X>(s: seq<Placed<X>>, p: Placed<X>): seq<Placed<X>> {
    var n := |s| - 1;
    if n < 0 || s[n].pos <= p.pos then s + [p] else Insert(s[..n], p) + [s[n]]
  }

  /** `sort_by_key` on the position. */
  function Sorted<X>(s: seq<Placed<X>>): seq<Placed<X>> {
    if |s| == 0 then [] else Insert(Sorted(s[..|s| - 1]), s[|s| - 1])
  }

  ghost predicate Ascending<X>(s: seq<Placed<X>>) {
    forall i, j :: 0 <= i < j < |s| ==> s[i].pos <= s[j].pos
  }

  /** The entries at one position, in order. */
  ghost function At<X>(s: seq<Placed<X>>, pos: nat): seq<Placed<X>> {
    if |s| == 0 then []
    else
      var n := |s| - 1;
      At(s[..n], pos) + if s[n].pos == pos then [s[n]] else []
  }

  lemma {:induction false} NoneAt<X>(s: seq<Placed<X>>, pos: nat)
    requires forall i :: 0 <= i < |s| ==> s[i].pos != pos
    ensures At(s, pos) == []
  {
    if |s| > 0 { NoneAt(s[..|s| - 1], pos); }
  }

  ghost predicate AtMost<X>(s: seq<Placed<X>>, pos: nat) {
    forall i :: 0 <= i < |s| ==> s[i].pos <= pos
  }

  lemma {:induction false} InsertAscends<X>(s: seq<Placed<X>>, p: Placed<X>, bound: nat)
    requires Ascending(s)
    ensures Ascending(Insert(s, p))
    ensures AtMost(s, bound) && p.pos <= bound ==> AtMost(Insert(s, p), bound)
  {
    var n := |s| - 1;
    if n >= 0 && s[n].pos > p.pos {
      InsertAscends(s[..n], p, s[n].pos);
      InsertAscends(s[..n], p, bound);
    }
  }

  lemma {:induction false} InsertAdds<X>(s: seq<Placed<X>>, p: Placed<X>)
    ensures multiset(Insert(s, p)) == multiset(s) + multiset{p}
  {
    var n := |s| - 1;
    if n >= 0 && s[n].pos > p.pos {
      InsertAdds(s[..n], p);
      assert s == s[..n] + [s[n]];
    }
  }

  lemma {:induction false} InsertAt<X>(s: seq<Placed<X>>, p: Placed<X>, pos: nat)
    requires Ascending(s)
    ensures At(Insert(s, p), pos) == At(s, pos) + if p.pos == pos then [p] else []
  {
    var n := |s| - 1;
    if n < 0 || s[n].pos <= p.pos {
      assert (s + [p])[..|s|] == s;
    } else {
      InsertAt(s[..n], p, pos);
      var t := Insert(s[..n], p);
      assert (t + [s[n]])[..|t|] == t;
      if s[n].pos == pos {
        assert p.pos != pos;
      }
    }
  }

  /** Sorting keeps all entries, puts the positions in order, and keeps the order of entries at one position. */
  lemma {:induction false} SortedIsStable<X>(s: seq<Placed<X>>, pos: nat)
    ensures Ascending(Sorted(s)) && multiset(Sorted(s)) == multiset(s)
    ensures At(Sorted(s), pos) == At(s, pos)
  {
    hide Insert;
    if |s| > 0 {
      var n := |s| - 1;
      SortedIsStable(s[..n], pos);
      InsertAscends(Sorted(s[..n]), s[n], 0);
      InsertAdds(Sorted(s[..n]), s[n]);
      InsertAt(Sorted(s[..n]), s[n], pos);
      assert s == s[..n] + [s[n]];
    }
  }

  // The two lists

  function Place<X>(items: seq<X>, positions: seq<nat>): (s: seq<Placed<X>>)
    requires |positions| <= |items|
    ensures |s| == |positions| && forall i :: 0 <= i < |s| ==> s[i] == Placed(positions[i], items[i])
  {
    seq(|positions|, i requires 0 <= i < |positions| => Placed(positions[i], items[i]))
  }

  function Items<X>(s: seq<Placed<X>>): (items: seq<X>)
    ensures |items| == |s| && forall i :: 0 <= i < |s| ==> items[i] == s[i].item
  {
    seq(|s|, i requires 0 <= i < |s| => s[i].item)
  }

  /** Base constraints, then extension constraints, sorted by position. */
  function Ordered<X>(base: seq<X>, basePositions: seq<nat>, ext: seq<X>, extPositions: seq<nat>): seq<X>
    requires |basePositions| <= |base| && |extPositions| <= |ext|
  {
    Items(Sorted(Place(base, basePositions) + Place(ext, extPositions)))
  }

  lemma OrderedFrom<X>(base: seq<X>, basePositions: seq<nat>, ext: seq<X>, extPositions: seq<nat>)
    requires |basePositions| <= |base| && |extPositions| <= |ext|
    ensures |Ordered(base, basePositions, ext, extPositions)| == |basePositions| + |extPositions|
    ensures forall x :: x in Ordered(base, basePositions, ext, extPositions) ==> x in base || x in ext
  {
    hide Sorted;
    var all := Place(base, basePositions) + Place(ext, extPositions);
    SortedIsStable(all, 0);
    SameLength(Sorted(all), all);
    forall x | x in Ordered(base, basePositions, ext, extPositions) ensures x in base || x in ext {
      var i :| 0 <= i < |Sorted(all)| && Items(Sorted(all))[i] == x;
      var j := Found(Sorted(all), all, i);
      if j < |basePositions| { assert base[j] == x; } else { assert ext[j - |basePositions|] == x; }
    }
  }

  lemma SameLength<Y>(s: seq<Y>, t: seq<Y>)
    requires multiset(s) == multiset(t)
    ensures |s| == |t|
  {
    assert |multiset(s)| == |s| && |multiset(t)| == |t|;
  }

  lemma Found<Y>(s: seq<Y>, t: seq<Y>, i: nat) returns (j: nat)
    requires multiset(s) == multiset(t) && i < |s|
    ensures j < |t| && t[j] == s[i]
  {
    assert s[i] in multiset(t);
    j :| 0 <= j < |t| && t[j] == s[i];
  }

  /** Each position below the number of entries is used once. */
  ghost predicate Exhaustive<X>(s: seq<Placed<X>>) {
    && (forall i :: 0 <= i < |s| ==> s[i].pos < |s|)
    && forall i, j :: 0 <= i < j < |s| ==> s[i].pos != s[j].pos
  }

  lemma {:induction false} AtLeastIndex<X>(s: seq<Placed<X>>, k: nat)
    requires k < |s| && forall i, j :: 0 <= i < j < |s| ==> s[i].pos < s[j].pos
    ensures s[k].pos >= k
  {
    if k > 0 { AtLeastIndex(s, k - 1); }
  }

  lemma {:induction false} AtMostIndex<X>(s: seq<Placed<X>>, k: nat)
    requires k < |s| && forall i, j :: 0 <= i < j < |s| ==> s[i].pos < s[j].pos
    requires forall i :: 0 <= i < |s| ==> s[i].pos < |s|
    ensures s[k].pos <= k
    decreases |s| - k
  {
    if k + 1 < |s| { AtMostIndex(s, k + 1); }
  }

  lemma DistinctEntries<X>(s: seq<Placed<X>>, t: seq<Placed<X>>, i: nat, j: nat)
    requires Exhaustive(s) && multiset(t) == multiset(s) && i < j < |t|
    ensures t[i].pos != t[j].pos
  {
    var a := Found(t, s, i);
    var b := Found(t, s, j);
    if a == b {
      TwicePresent(t, i, j);
      OncePresent(s, t[i]);
    }
  }

  /** When the positions number the constraints from zero on, each ends up at its own position. */
  lemma SortedInPlace<X>(s: seq<Placed<X>>, k: nat)
    requires Exhaustive(s) && k < |s|
    ensures |Sorted(s)| == |s| && Sorted(s)[s[k].pos] == s[k]
  {
    hide Sorted;
    var t := Sorted(s);
    SortedIsStable(s, 0);
    SameLength(t, s);
    forall i | 0 <= i < |t| ensures t[i].pos < |t| {
      var j := Found(t, s, i);
    }
    forall i, j | 0 <= i < j < |t| ensures t[i].pos < t[j].pos {
      DistinctEntries(s, t, i, j);
    }
    var m := Found(s, t, k);
    AtLeastIndex(t, m);
    AtMostIndex(t, m);
  }

  lemma OrderedInPlace<X>(base: seq<X>, basePositions: seq<nat>, ext: seq<X>, extPositions: seq<nat>, k: nat)
    requires |basePositions| <= |base| && |extPositions| <= |ext|
    requires Exhaustive(Place(base, basePositions) + Place(ext, extPositions))
    ensures var ordered := Ordered(base, basePositions, ext, extPositions);
            && |ordered| == |basePositions| + |extPositions|
            && (k < |basePositions| ==> basePositions[k] < |ordered| && ordered[basePositions[k]] == base[k])
            && (k < |extPositions| ==> extPositions[k] < |ordered| && ordered[extPositions[k]] == ext[k])
  {
    hide Sorted, Exhaustive;
    var all := Place(base, basePositions) + Place(ext, extPositions);
    OrderedFrom(base, basePositions, ext, extPositions);
    if k < |basePositions| {
      assert all[k] == Placed(basePositions[k], base[k]);
      Within(all, k);
      SortedInPlace(all, k);
    }
    if k < |extPositions| {
      assert all[|basePositions| + k] == Placed(extPositions[k], ext[k]);
      Within(all, |basePositions| + k);
      SortedInPlace(all, |basePositions| + k);
    }
  }

  lemma Within<X>(s: seq<Placed<X>>, k: nat)
    requires Exhaustive(s) && k < |s|
    ensures s[k].pos < |s|
  {
  }
}
