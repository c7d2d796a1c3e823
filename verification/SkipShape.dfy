/** The shape of the skip list, free of pointers: towers side by side at positions 0, 1, ...
    Position 0 holds the sentinels; the entry with index k stands at position k + 1. */
module SkipShape {
  import opened CStrings
  import opened SortedSet

  const SENTINEL_KEY := "sentinel"

  /** Which key ds/skiplist.c compares when two scores are equal while looking for the place of
      a new entry: insertion reads the key of the node it stands on (line 169), removal reads the
      key of the next node (line 235). */
  datatype TieRule = OwnKey | NextKey

  ghost predicate Towers<T>(t: seq<seq<T>>, levels: nat) {
    |t| > 0 && |t[0]| == levels + 1 && forall p :: 0 < p < |t| ==> 1 <= |t[p]| <= levels + 1
  }

  /** The tower at q does not reach level i. */
  ghost predicate Lower<T>(t: seq<seq<T>>, q: nat, i: nat)
    requires q < |t|
  {
    |t[q]| <= i
  }

  /** n is the next position after p with a node on level i: |t| is the virtual end. */
  ghost predicate IsNext<T>(t: seq<seq<T>>, p: nat, i: nat, n: nat) {
    && p < n <= |t|
    && (n < |t| ==> i < |t[n]|)
    && (forall q {:trigger Lower(t, q, i)} :: p < q < n ==> Lower(t, q, i))
  }

  lemma {:induction false} NextExists<T>(t: seq<seq<T>>, p: nat, i: nat)
    requires p < |t|
    ensures exists n :: IsNext(t, p, i, n)
    decreases |t| - p
  {
    if p + 1 == |t| || i < |t[p + 1]| {
      assert IsNext(t, p, i, p + 1);
    } else {
      NextExists(t, p + 1, i);
      var n :| IsNext(t, p + 1, i, n);
      assert IsNext(t, p, i, n);
    }
  }

  /** The position after p that is reached along level i. */
  ghost function NextPos<T>(t: seq<seq<T>>, p: nat, i: nat): (n: nat)
    requires p < |t|
    ensures IsNext(t, p, i, n)
  {
    NextExists(t, p, i);
    var n :| IsNext(t, p, i, n);
    n
  }

  lemma NextPosIs<T>(t: seq<seq<T>>, p: nat, i: nat, n: nat)
    requires p < |t| && IsNext(t, p, i, n)
    ensures NextPos(t, p, i) == n
  {
    var m := NextPos(t, p, i);
    assert m < |t| ==> !Lower(t, m, i);
    assert n < |t| ==> !Lower(t, n, i);
  }

  /** p is the last position up to r that has a node on level i. */
  ghost predicate IsPred<T>(t: seq<seq<T>>, r: nat, i: nat, p: nat) {
    && p <= r < |t| && i < |t[p]|
    && (forall q {:trigger Lower(t, q, i)} :: p < q <= r ==> Lower(t, q, i))
  }

  lemma {:induction false} PredExists<T>(t: seq<seq<T>>, r: nat, i: nat)
    requires r < |t| && i < |t[0]|
    ensures exists p :: IsPred(t, r, i, p)
  {
    if i < |t[r]| {
      assert IsPred(t, r, i, r);
    } else {
      PredExists(t, r - 1, i);
      var p :| IsPred(t, r - 1, i, p);
      assert IsPred(t, r, i, p);
    }
  }

  /** The last position up to r that has a node on level i. */
  ghost function PredPos<T>(t: seq<seq<T>>, r: nat, i: nat): (p: nat)
    requires r < |t| && i < |t[0]|
    ensures IsPred(t, r, i, p)
  {
    PredExists(t, r, i);
    var p :| IsPred(t, r, i, p);
    p
  }

  /** A position is the predecessor of the gap after r exactly when it is at most r and its link
      leads past r. */
  lemma PredPosIs<T>(t: seq<seq<T>>, r: nat, i: nat, p: nat)
    requires r < |t| && i < |t[0]| && p <= r && i < |t[p]|
    ensures p == PredPos(t, r, i) <==> r < NextPos(t, p, i)
  {
    var q := PredPos(t, r, i);
    if p == q {
      var n := NextPos(t, p, i);
      assert n < |t| ==> !Lower(t, n, i);
    } else {
      assert !Lower(t, p, i) && !Lower(t, q, i);
    }
  }

  lemma PredPosRange<T>(t: seq<seq<T>>, lo: nat, hi: nat, i: nat)
    requires lo <= hi < |t| && i < |t[0]|
    ensures lo < PredPos(t, hi, i) || PredPos(t, hi, i) == PredPos(t, lo, i)
  {
    var p, q := PredPos(t, hi, i), PredPos(t, lo, i);
    assert !Lower(t, p, i) && !Lower(t, q, i);
  }

  lemma PredPosMonotone<T>(t: seq<seq<T>>, r: nat, i: nat, j: nat)
    requires r < |t| && i <= j < |t[0]|
    ensures PredPos(t, r, j) <= PredPos(t, r, i)
  {
    var p := PredPos(t, r, j);
    assert !Lower(t, p, i);
  }

  // ----- how links change when a tower comes or goes -----

  function InsertTower<T>(t: seq<seq<T>>, r: nat, w: seq<T>): seq<seq<T>>
    requires r < |t|
  {
    t[..r + 1] + [w] + t[r + 1..]
  }

  function RemoveTower<T>(t: seq<seq<T>>, k: nat): seq<seq<T>>
    requires 0 < k < |t|
  {
    t[..k] + t[k + 1..]
  }

  lemma InsertTowerAt<T>(t: seq<seq<T>>, r: nat, w: seq<T>)
    requires r < |t|
    ensures |InsertTower(t, r, w)| == |t| + 1
    ensures forall p :: 0 <= p <= r ==> InsertTower(t, r, w)[p] == t[p]
    ensures InsertTower(t, r, w)[r + 1] == w
    ensures forall p :: r + 1 < p <= |t| ==> InsertTower(t, r, w)[p] == t[p - 1]
  {
  }

  /** A link that ends before the new tower stays; one that jumps over the gap now ends at the new
      tower, if that is tall enough, or grows by one; the new tower takes over the rest of it. */
  lemma NextPosBeforeInserted<T>(t: seq<seq<T>>, r: nat, w: seq<T>, p: nat, i: nat)
    requires p <= r < |t|
    ensures NextPos(InsertTower(t, r, w), p, i) ==
            var n := NextPos(t, p, i); if n <= r then n else if i < |w| then r + 1 else n + 1
  {
    var t' := InsertTower(t, r, w);
    InsertTowerAt(t, r, w);
    var n := NextPos(t, p, i);
    var n' := if n <= r then n else if i < |w| then r + 1 else n + 1;
    forall q | p < q < n'
      ensures Lower(t', q, i)
    {
      assert t'[q] == if q <= r then t[q] else if q == r + 1 then w else t[q - 1];
      assert q <= r ==> Lower(t, q, i);
      assert q > r + 1 ==> Lower(t, q - 1, i);
    }
    NextPosIs(t', p, i, n');
  }

  lemma NextPosOfInserted<T>(t: seq<seq<T>>, r: nat, w: seq<T>, i: nat)
    requires r < |t|
    ensures NextPos(InsertTower(t, r, w), r + 1, i) == NextPos(t, r, i) + 1
  {
    var t' := InsertTower(t, r, w);
    InsertTowerAt(t, r, w);
    var n := NextPos(t, r, i);
    forall q | r + 1 < q < n + 1
      ensures Lower(t', q, i)
    {
      assert t'[q] == t[q - 1] && Lower(t, q - 1, i);
    }
    NextPosIs(t', r + 1, i, n + 1);
  }

  lemma NextPosAfterInserted<T>(t: seq<seq<T>>, r: nat, w: seq<T>, p: nat, i: nat)
    requires r < p < |t|
    ensures NextPos(InsertTower(t, r, w), p + 1, i) == NextPos(t, p, i) + 1
  {
    var t' := InsertTower(t, r, w);
    InsertTowerAt(t, r, w);
    var n := NextPos(t, p, i);
    forall q | p + 1 < q < n + 1
      ensures Lower(t', q, i)
    {
      assert t'[q] == t[q - 1] && Lower(t, q - 1, i);
    }
    NextPosIs(t', p + 1, i, n + 1);
  }

  lemma InsertUndoesRemoveTower<T>(t: seq<seq<T>>, k: nat)
    requires 0 < k < |t|
    ensures InsertTower(RemoveTower(t, k), k - 1, t[k]) == t
  {
  }

  lemma RemovedAt<T>(t: seq<seq<T>>, k: nat, q: nat)
    requires 0 < k < |t| && q < |t| - 1
    ensures RemoveTower(t, k)[q] == t[if q < k then q else q + 1]
  {
  }

  lemma RemoveUndoesInsertTower<T>(t: seq<seq<T>>, r: nat, w: seq<T>)
    requires r < |t|
    ensures RemoveTower(InsertTower(t, r, w), r + 1) == t
  {
  }

  /** The predecessor's link and the gap's link end at the same place. */
  lemma NextPosOfPred<T>(t: seq<seq<T>>, r: nat, i: nat, p: nat)
    requires p <= r < |t| && r < NextPos(t, p, i)
    ensures NextPos(t, r, i) == NextPos(t, p, i)
  {
    var n := NextPos(t, p, i);
    assert forall q :: r < q < n ==> Lower(t, q, i);
    NextPosIs(t, r, i, n);
  }

  /** What a link was before a tower was taken out, from what it is after. */
  lemma NextPosBeforeRemoved<T>(t: seq<seq<T>>, k: nat, p: nat, i: nat)
    requires p < k < |t|
    ensures var n := NextPos(RemoveTower(t, k), p, i);
      && NextPos(t, p, i) == (if n < k then n else if i < |t[k]| then k else n + 1)
      && (n >= k ==> NextPos(t, k, i) == n + 1)
  {
    var u := RemoveTower(t, k);
    InsertUndoesRemoveTower(t, k);
    NextPosBeforeInserted(u, k - 1, t[k], p, i);
    NextPosOfInserted(u, k - 1, t[k], i);
    if NextPos(u, p, i) >= k { NextPosOfPred(u, k - 1, i, p); }
  }

  lemma NextPosAfterRemoved<T>(t: seq<seq<T>>, k: nat, p: nat, i: nat)
    requires 0 < k < p < |t|
    ensures NextPos(t, p, i) == NextPos(RemoveTower(t, k), p - 1, i) + 1
  {
    InsertUndoesRemoveTower(t, k);
    NextPosAfterInserted(RemoveTower(t, k), k - 1, t[k], p - 1, i);
  }

  /** Links do not depend on the sentinel tower, only on the towers ahead. */
  lemma NextPosAhead<T>(t: seq<seq<T>>, u: seq<seq<T>>, p: nat, i: nat)
    requires |t| == |u| && p < |t|
    requires forall q {:trigger t[q]} {:trigger u[q]} :: 0 < q < |t| ==> |t[q]| == |u[q]|
    ensures NextPos(t, p, i) == NextPos(u, p, i)
  {
    var n := NextPos(u, p, i);
    forall q | p < q < n
      ensures Lower(t, q, i)
    {
      assert Lower(u, q, i) && |t[q]| == |u[q]|;
    }
    NextPosIs(t, p, i, n);
  }

  // ----- the search for the place of an entry -----

  function KeyAt(s: seq<Entry>, p: nat): string
    requires p <= |s|
  {
    if p == 0 then SENTINEL_KEY else s[p - 1].member
  }

  /** Does the search for e step from position p to position n? */
  predicate StepsTo(s: seq<Entry>, e: Entry, rule: TieRule, p: nat, n: nat)
    requires p <= |s| && 0 < n <= |s|
  {
    s[n - 1].score < e.score ||
    (s[n - 1].score == e.score && Less(KeyAt(s, if rule.OwnKey? then p else n), e.member))
  }

  /** Where the search stops on level i when it starts at p. */
  ghost function Walk<T>(t: seq<seq<T>>, s: seq<Entry>, e: Entry, rule: TieRule, p: nat, i: nat): (q: nat)
    requires |t| == |s| + 1 && p < |t| && i < |t[p]|
    ensures p <= q < |t| && i < |t[q]|
    decreases |t| - p
  {
    var n := NextPos(t, p, i);
    if n < |t| && StepsTo(s, e, rule, p, n) then Walk(t, s, e, rule, n, i) else p
  }

  lemma {:induction false} WalkStops<T>(t: seq<seq<T>>, s: seq<Entry>, e: Entry, rule: TieRule, p: nat, i: nat)
    requires |t| == |s| + 1 && p < |t| && i < |t[p]|
    ensures var q := Walk(t, s, e, rule, p, i);
      NextPos(t, q, i) < |t| ==> !StepsTo(s, e, rule, q, NextPos(t, q, i))
    decreases |t| - p
  {
    var n := NextPos(t, p, i);
    if n < |t| && StepsTo(s, e, rule, p, n) { WalkStops(t, s, e, rule, n, i); }
  }

  /** Where the search stops on level i when it comes down from the top. */
  ghost function Descend<T>(t: seq<seq<T>>, s: seq<Entry>, e: Entry, rule: TieRule, levels: nat, i: nat): (q: nat)
    requires Towers(t, levels) && |t| == |s| + 1 && i <= levels
    ensures q < |t| && i < |t[q]|
    decreases levels - i
  {
    Walk(t, s, e, rule, if i == levels then 0 else Descend(t, s, e, rule, levels, i + 1), i)
  }

  lemma DescendStep<T>(t: seq<seq<T>>, s: seq<Entry>, e: Entry, rule: TieRule, levels: nat, i: nat)
    requires Towers(t, levels) && |t| == |s| + 1 && i < levels
    ensures Descend(t, s, e, rule, levels, i) ==
            Walk(t, s, e, rule, Descend(t, s, e, rule, levels, i + 1), i)
    ensures Descend(t, s, e, rule, levels, i + 1) <= Descend(t, s, e, rule, levels, i)
  {
  }

  /** Removal's test steps exactly up to the cut. */
  lemma {:induction false} StepsToNextKey(s: seq<Entry>, e: Entry, p: nat, n: nat)
    requires Sorted(s) && p <= |s| && 0 < n <= |s|
    ensures StepsTo(s, e, NextKey, p, n) <==> n <= Cut(s, e)
  {
    assert StepsTo(s, e, NextKey, p, n) == EntryLess(s[n - 1], e);
  }

  lemma {:induction false} WalkNextKey<T>(t: seq<seq<T>>, s: seq<Entry>, e: Entry, p: nat, i: nat)
    requires |t| == |s| + 1 && p < |t| && i < |t[p]| && i < |t[0]| && Sorted(s) && p <= Cut(s, e)
    ensures Walk(t, s, e, NextKey, p, i) == PredPos(t, Cut(s, e), i)
    decreases |t| - p
  {
    var n := NextPos(t, p, i);
    if n < |t| { StepsToNextKey(s, e, p, n); }
    if n < |t| && n <= Cut(s, e) {
      WalkNextKey(t, s, e, n, i);
    } else {
      PredPosIs(t, Cut(s, e), i, p);
    }
  }

  /** Under removal's test the search finds, on every level, the predecessor of the sorted place. */
  lemma {:induction false} DescendNextKey<T>(t: seq<seq<T>>, s: seq<Entry>, e: Entry, levels: nat, i: nat)
    requires Towers(t, levels) && |t| == |s| + 1 && i <= levels && Sorted(s)
    ensures Descend(t, s, e, NextKey, levels, i) == PredPos(t, Cut(s, e), i)
    decreases levels - i
  {
    if i < levels { DescendNextKey(t, s, e, levels, i + 1); }
    WalkNextKey(t, s, e, if i == levels then 0 else Descend(t, s, e, NextKey, levels, i + 1), i);
  }
}
