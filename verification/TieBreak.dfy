/** The tie-break of insertion (ds/skiplist.c:168-169) against the one of removal
    (ds/skiplist.c:234-235): when does the search for a new entry still find, on every level,
    the predecessor of its sorted place? */
module TieBreak {
  import opened CStrings
  import opened SortedSet
  import opened SkipShape

  /** The number of entries with a score below, or not above, a bound. */
  function CountBelow(s: seq<Entry>, score: real, inclusive: bool): (r: nat)
    ensures r <= |s|
    ensures Sorted(s) ==> forall i :: 0 <= i < |s| ==>
      (i < r <==> s[i].score < score || (inclusive && s[i].score == score))
  {
    if s == [] then 0
    else
      var r := CountBelow(s[1..], score, inclusive);
      assert Sorted(s) ==> forall j :: 0 < j < |s| ==> s[0].score <= s[j].score by {
        forall j | Sorted(s) && 0 < j < |s|
          ensures s[0].score <= s[j].score
        {
          assert EntryLess(s[0], s[j]);
        }
      }
      assert Sorted(s) ==> Sorted(s[1..]) by {
        assert forall i, j :: 0 <= i < j < |s[1..]| ==>
          EntryLess(s[1..][i], s[1..][j]) == EntryLess(s[i + 1], s[j + 1]);
      }
      (if s[0].score < score || (inclusive && s[0].score == score) then 1 else 0) + r
  }

  /** Level i has a node with the new entry's score. */
  ghost predicate HasTie<T>(t: seq<seq<T>>, s: seq<Entry>, score: real, i: nat)
    requires |t| == |s| + 1 && i < |t[0]|
  {
    var lo := CountBelow(s, score, false);
    NextPos(t, PredPos(t, lo, i), i) <= CountBelow(s, score, true)
  }

  /** The highest level that has a node with the new entry's score. */
  ghost function TopTie<T>(t: seq<seq<T>>, s: seq<Entry>, score: real, i: nat): (k: nat)
    requires |t| == |s| + 1 && i < |t[0]| && HasTie(t, s, score, 0)
    ensures k <= i && HasTie(t, s, score, k)
    ensures forall j :: k < j <= i ==> !HasTie(t, s, score, j)
  {
    if HasTie(t, s, score, i) then i else TopTie(t, s, score, i - 1)
  }

  /** The key insertion compares on level i before it can step onto a node with the new score:
      that of the last node with a lower score. */
  ghost function LeadKey<T>(t: seq<seq<T>>, s: seq<Entry>, score: real, i: nat): string
    requires |t| == |s| + 1 && i < |t[0]|
  {
    KeyAt(s, PredPos(t, CountBelow(s, score, false), i))
  }

  /** When insertion's test is good enough: no entry has the new score; or the new member comes
      after all of those that do, and the lead of the highest level they reach lets it in; or it
      comes before all of them, and no lead lets it in. */
  ghost predicate TieIsHarmless<T>(t: seq<seq<T>>, s: seq<Entry>, e: Entry, levels: nat)
    requires Towers(t, levels) && |t| == |s| + 1 && Sorted(s)
  {
    var lo, hi := CountBelow(s, e.score, false), CountBelow(s, e.score, true);
    lo >= hi ||
    (&& Less(s[hi - 1].member, e.member)
     && HasTie(t, s, e.score, 0)
     && Less(LeadKey(t, s, e.score, TopTie(t, s, e.score, levels)), e.member)) ||
    (&& !Less(s[lo].member, e.member)
     && forall i :: 0 <= i <= levels && HasTie(t, s, e.score, i) ==> !Less(LeadKey(t, s, e.score, i), e.member))
  }

  /** On level i the search under insertion's test ends at the predecessor of the sorted place. */
  ghost predicate FindsPred<T>(t: seq<seq<T>>, s: seq<Entry>, e: Entry, levels: nat, i: nat)
    requires Towers(t, levels) && |t| == |s| + 1 && i <= levels && Sorted(s)
  {
    Descend(t, s, e, OwnKey, levels, i) == PredPos(t, Cut(s, e), i)
  }

  /** The entries in sorted order around a new entry: lower scores, then equal ones. */
  ghost predicate Setting<T>(t: seq<seq<T>>, s: seq<Entry>, e: Entry, levels: nat, lo: nat, hi: nat) {
    && Towers(t, levels) && |t| == |s| + 1 && WellFormed(s) && !Has(s, e.member)
    && lo == CountBelow(s, e.score, false) && hi == CountBelow(s, e.score, true) && lo <= hi
  }

  lemma {:induction false} CutInTies<T>(t: seq<seq<T>>, s: seq<Entry>, e: Entry, levels: nat, lo: nat, hi: nat)
    requires Setting(t, s, e, levels, lo, hi)
    ensures lo <= Cut(s, e) <= hi
    ensures lo < hi ==> (Cut(s, e) == lo <==> !Less(s[lo].member, e.member))
    ensures lo < hi ==> (Cut(s, e) == hi <==> Less(s[hi - 1].member, e.member))
  {
    var c := Cut(s, e);
    assert c < |s| ==> !EntryLess(s[c], e);
    assert c > 0 ==> EntryLess(s[c - 1], e);
    assert lo < |s| ==> (EntryLess(s[lo], e) ==> lo < c);
    assert hi < |s| ==> !EntryLess(s[hi], e);
    assert hi > 0 ==> (EntryLess(s[hi - 1], e) <==> hi - 1 < c);
  }

  /** The walk on a level first passes all lower scores. */
  lemma {:induction false} WalkToLead<T>(t: seq<seq<T>>, s: seq<Entry>, e: Entry, levels: nat, lo: nat, hi: nat,
                                         p: nat, i: nat)
    requires Setting(t, s, e, levels, lo, hi) && i <= levels && p <= lo && i < |t[p]|
    ensures Walk(t, s, e, OwnKey, p, i) == Walk(t, s, e, OwnKey, PredPos(t, lo, i), i)
    decreases lo - p
  {
    var n := NextPos(t, p, i);
    if n <= lo {
      assert s[n - 1].score < e.score;
      assert StepsTo(s, e, OwnKey, p, n);
      WalkToLead(t, s, e, levels, lo, hi, n, i);
    } else {
      PredPosIs(t, lo, i, p);
    }
  }

  /** From the last lower score the walk goes on only if level i has a tie and the lead lets the
      new member in. */
  lemma {:induction false} WalkFromLead<T>(t: seq<seq<T>>, s: seq<Entry>, e: Entry, levels: nat, lo: nat, hi: nat,
                                           i: nat)
    requires Setting(t, s, e, levels, lo, hi) && i <= levels
    ensures var lead := PredPos(t, lo, i);
      if HasTie(t, s, e.score, i) && Less(LeadKey(t, s, e.score, i), e.member)
      then Walk(t, s, e, OwnKey, lead, i) == Walk(t, s, e, OwnKey, NextPos(t, lead, i), i)
      else Walk(t, s, e, OwnKey, lead, i) == lead
  {
    var lead := PredPos(t, lo, i);
    PredPosIs(t, lo, i, lead);
    var n := NextPos(t, lead, i);
    assert lo < n;
    if n < |t| {
      assert s[n - 1].score >= e.score;
      assert n <= hi <==> s[n - 1].score == e.score;
    }
  }

  /** When the new member comes after every tie, a walk among the ties runs to their end. */
  lemma {:induction false} WalkThroughTies<T>(t: seq<seq<T>>, s: seq<Entry>, e: Entry, levels: nat, lo: nat, hi: nat,
                                              p: nat, i: nat)
    requires Setting(t, s, e, levels, lo, hi) && i <= levels && lo < p <= hi && i < |t[p]|
    requires Less(s[hi - 1].member, e.member)
    ensures Walk(t, s, e, OwnKey, p, i) == PredPos(t, hi, i)
    decreases hi - p
  {
    CutInTies(t, s, e, levels, lo, hi);
    var n := NextPos(t, p, i);
    assert EntryLess(s[p - 1], e) && s[p - 1].score == e.score;
    assert n < |t| ==> (n <= hi <==> s[n - 1].score == e.score);
    if n <= hi {
      WalkThroughTies(t, s, e, levels, lo, hi, n, i);
    } else {
      PredPosIs(t, hi, i, p);
    }
  }

  lemma NoTieSamePred<T>(t: seq<seq<T>>, s: seq<Entry>, e: Entry, levels: nat, lo: nat, hi: nat, i: nat)
    requires Setting(t, s, e, levels, lo, hi) && i <= levels
    ensures PredPos(t, hi, i) == PredPos(t, lo, i) <==> !HasTie(t, s, e.score, i)
  {
    var lead := PredPos(t, lo, i);
    PredPosIs(t, lo, i, lead);
    PredPosIs(t, hi, i, lead);
  }

  /** The bottom level has every entry. */
  lemma BottomTie<T>(t: seq<seq<T>>, s: seq<Entry>, e: Entry, levels: nat, lo: nat, hi: nat)
    requires Setting(t, s, e, levels, lo, hi)
    ensures HasTie(t, s, e.score, 0) <==> lo < hi
  {
    PredPosIs(t, lo, 0, lo);
    assert lo < |s| ==> IsNext(t, lo, 0, lo + 1);
    if lo < |s| { NextPosIs(t, lo, 0, lo + 1); }
  }

  ghost function StartAt<T>(t: seq<seq<T>>, s: seq<Entry>, e: Entry, levels: nat, i: nat): (p: nat)
    requires Towers(t, levels) && |t| == |s| + 1 && i <= levels
    ensures p < |t| && i < |t[p]|
  {
    if i == levels then 0 else Descend(t, s, e, OwnKey, levels, i + 1)
  }

  lemma {:induction false} DescendFromLead<T>(t: seq<seq<T>>, s: seq<Entry>, e: Entry, levels: nat, lo: nat, hi: nat,
                                              i: nat)
    requires Setting(t, s, e, levels, lo, hi) && i <= levels && StartAt(t, s, e, levels, i) <= lo
    ensures Descend(t, s, e, OwnKey, levels, i) == Walk(t, s, e, OwnKey, PredPos(t, lo, i), i)
  {
    WalkToLead(t, s, e, levels, lo, hi, StartAt(t, s, e, levels, i), i);
  }

  /** Before every tie: level i is right when no lead from the top down to i lets the new
      member in. */
  lemma {:induction false} BeforeTies<T>(t: seq<seq<T>>, s: seq<Entry>, e: Entry, levels: nat, lo: nat, hi: nat, i: nat)
    requires Setting(t, s, e, levels, lo, hi) && i <= levels
    requires forall j :: i <= j <= levels && HasTie(t, s, e.score, j) ==> !Less(LeadKey(t, s, e.score, j), e.member)
    ensures Descend(t, s, e, OwnKey, levels, i) == PredPos(t, lo, i)
    decreases levels - i
  {
    if i < levels { BeforeTies(t, s, e, levels, lo, hi, i + 1); }
    DescendFromLead(t, s, e, levels, lo, hi, i);
    WalkFromLead(t, s, e, levels, lo, hi, i);
  }

  /** The highest level with ties: the search steps among them exactly when the lead lets the
      new member in, and then runs to their end. */
  lemma {:induction false} AtTopTie<T>(t: seq<seq<T>>, s: seq<Entry>, e: Entry, levels: nat, lo: nat, hi: nat, top: nat)
    requires Setting(t, s, e, levels, lo, hi) && top <= levels && lo < hi
    requires Less(s[hi - 1].member, e.member) && HasTie(t, s, e.score, top)
    requires forall j :: top < j <= levels ==> !HasTie(t, s, e.score, j)
    ensures Descend(t, s, e, OwnKey, levels, top) ==
      PredPos(t, if Less(LeadKey(t, s, e.score, top), e.member) then hi else lo, top)
  {
    if top < levels { BeforeTies(t, s, e, levels, lo, hi, top + 1); }
    DescendFromLead(t, s, e, levels, lo, hi, top);
    WalkFromLead(t, s, e, levels, lo, hi, top);
    if Less(LeadKey(t, s, e.score, top), e.member) {
      var lead := PredPos(t, lo, top);
      PredPosIs(t, lo, top, lead);
      WalkThroughTies(t, s, e, levels, lo, hi, NextPos(t, lead, top), top);
    }
  }

  /** The search stands among the ties at the right place of level i. */
  ghost predicate AmongTies<T>(t: seq<seq<T>>, s: seq<Entry>, e: Entry, levels: nat, lo: nat, hi: nat, i: nat)
    requires Towers(t, levels) && |t| == |s| + 1 && i <= levels && hi < |t|
  {
    Descend(t, s, e, OwnKey, levels, i) == PredPos(t, hi, i) && lo < PredPos(t, hi, i)
  }

  lemma AmongTiesBelow<T>(t: seq<seq<T>>, s: seq<Entry>, e: Entry, levels: nat, lo: nat, hi: nat, i: nat)
    requires Setting(t, s, e, levels, lo, hi) && i < levels && lo < hi && Less(s[hi - 1].member, e.member)
    requires AmongTies(t, s, e, levels, lo, hi, i + 1)
    ensures AmongTies(t, s, e, levels, lo, hi, i)
  {
    PredPosMonotone(t, hi, i, i + 1);
    DescendStep(t, s, e, OwnKey, levels, i);
    WalkThroughTies(t, s, e, levels, lo, hi, PredPos(t, hi, i + 1), i);
  }

  /** Once the search stands among the ties it stays right on all lower levels. */
  lemma {:induction false} AfterTies<T>(t: seq<seq<T>>, s: seq<Entry>, e: Entry, levels: nat, lo: nat, hi: nat,
                                        i: nat, top: nat)
    requires Setting(t, s, e, levels, lo, hi) && i <= top <= levels && lo < hi
    requires Less(s[hi - 1].member, e.member)
    requires AmongTies(t, s, e, levels, lo, hi, top)
    ensures AmongTies(t, s, e, levels, lo, hi, i)
    decreases top - i
  {
    if i != top {
      AfterTies(t, s, e, levels, lo, hi, i + 1, top);
      AmongTiesBelow(t, s, e, levels, lo, hi, i);
    }
  }

  /** Above the top tie nothing has the new score. */
  lemma {:induction false} AboveTies<T>(t: seq<seq<T>>, s: seq<Entry>, e: Entry, levels: nat, lo: nat, hi: nat, i: nat)
    requires Setting(t, s, e, levels, lo, hi) && i <= levels
    requires forall j :: i <= j <= levels ==> !HasTie(t, s, e.score, j)
    ensures Descend(t, s, e, OwnKey, levels, i) == PredPos(t, hi, i) == PredPos(t, lo, i)
  {
    BeforeTies(t, s, e, levels, lo, hi, i);
    NoTieSamePred(t, s, e, levels, lo, hi, i);
  }

  /** The new member comes before some ties and after others: the bottom level is wrong. */
  lemma {:induction false} BetweenTies<T>(t: seq<seq<T>>, s: seq<Entry>, e: Entry, levels: nat, lo: nat, hi: nat)
    requires Setting(t, s, e, levels, lo, hi) && lo < Cut(s, e) < hi
    ensures !FindsPred(t, s, e, levels, 0)
  {
    var c := Cut(s, e);
    PredPosIs(t, c, 0, c);
    assert s[c].score == e.score && s[c - 1].score == e.score;
    assert EntryLess(s[c - 1], e);
    assert NextPos(t, c, 0) == c + 1 by { NextPosIs(t, c, 0, c + 1); }
    assert StepsTo(s, e, OwnKey, c, c + 1);
    WalkStops(t, s, e, OwnKey, StartAt(t, s, e, levels, 0), 0);
  }

  /** Insertion as shipped finds the predecessor of the sorted place on every level exactly when
      the tie-break is harmless. */
  lemma TieBreakExact<T>(t: seq<seq<T>>, s: seq<Entry>, e: Entry, levels: nat)
    requires Towers(t, levels) && |t| == |s| + 1 && WellFormed(s) && !Has(s, e.member)
    ensures (forall i :: 0 <= i <= levels ==> FindsPred(t, s, e, levels, i)) <==> TieIsHarmless(t, s, e, levels)
  {
    var lo, hi := CountBelow(s, e.score, false), CountBelow(s, e.score, true);
    CountsOrdered(s, e.score);
    CutInTies(t, s, e, levels, lo, hi);
    BottomTie(t, s, e, levels, lo, hi);
    if lo == hi {
      NoTies(t, s, e, levels, lo, hi);
    } else if Cut(s, e) == hi {
      LastTie(t, s, e, levels, lo, hi);
    } else if Cut(s, e) == lo {
      FirstTie(t, s, e, levels, lo, hi);
    } else {
      BetweenTies(t, s, e, levels, lo, hi);
    }
  }

  lemma {:induction false} CountsOrdered(s: seq<Entry>, score: real)
    ensures CountBelow(s, score, false) <= CountBelow(s, score, true)
  {
    if s != [] { CountsOrdered(s[1..], score); }
  }

  lemma NoTies<T>(t: seq<seq<T>>, s: seq<Entry>, e: Entry, levels: nat, lo: nat, hi: nat)
    requires Setting(t, s, e, levels, lo, hi) && lo == hi
    ensures forall i :: 0 <= i <= levels ==> FindsPred(t, s, e, levels, i)
  {
    CutInTies(t, s, e, levels, lo, hi);
    forall j | 0 <= j <= levels
      ensures !HasTie(t, s, e.score, j)
    {
      PredPosIs(t, lo, j, PredPos(t, lo, j));
    }
    forall i | 0 <= i <= levels
      ensures FindsPred(t, s, e, levels, i)
    {
      AboveTies(t, s, e, levels, lo, hi, i);
    }
  }

  lemma {:induction false} LastTie<T>(t: seq<seq<T>>, s: seq<Entry>, e: Entry, levels: nat, lo: nat, hi: nat)
    requires Setting(t, s, e, levels, lo, hi) && lo < hi && Cut(s, e) == hi
    ensures (forall i :: 0 <= i <= levels ==> FindsPred(t, s, e, levels, i)) <==>
            (HasTie(t, s, e.score, 0) && Less(LeadKey(t, s, e.score, TopTie(t, s, e.score, levels)), e.member))
  {
    CutInTies(t, s, e, levels, lo, hi);
    BottomTie(t, s, e, levels, lo, hi);
    var top := TopTie(t, s, e.score, levels);
    AtTopTie(t, s, e, levels, lo, hi, top);
    NoTieSamePred(t, s, e, levels, lo, hi, top);
    if Less(LeadKey(t, s, e.score, top), e.member) {
      PredPosRange(t, lo, hi, top);
      forall i | 0 <= i <= levels
        ensures FindsPred(t, s, e, levels, i)
      {
        if i <= top { AfterTies(t, s, e, levels, lo, hi, i, top); } else { AboveTies(t, s, e, levels, lo, hi, i); }
      }
    } else {
      assert !FindsPred(t, s, e, levels, top);
    }
  }

  lemma {:induction false} FirstTie<T>(t: seq<seq<T>>, s: seq<Entry>, e: Entry, levels: nat, lo: nat, hi: nat)
    requires Setting(t, s, e, levels, lo, hi) && lo < hi && Cut(s, e) == lo
    ensures (forall i :: 0 <= i <= levels ==> FindsPred(t, s, e, levels, i)) <==>
            (forall i :: 0 <= i <= levels && HasTie(t, s, e.score, i) ==> !Less(LeadKey(t, s, e.score, i), e.member))
  {
    if forall i :: 0 <= i <= levels && HasTie(t, s, e.score, i) ==> !Less(LeadKey(t, s, e.score, i), e.member) {
      forall i | 0 <= i <= levels
        ensures FindsPred(t, s, e, levels, i)
      {
        BeforeTies(t, s, e, levels, lo, hi, i);
      }
    }
    forall i | 0 <= i <= levels && HasTie(t, s, e.score, i) &&
      (forall j :: 0 <= j <= levels ==> FindsPred(t, s, e, levels, j))
      ensures !Less(LeadKey(t, s, e.score, i), e.member)
    {
      if i < levels { assert FindsPred(t, s, e, levels, i + 1); }
      assert FindsPred(t, s, e, levels, i);
      DescendFromLead(t, s, e, levels, lo, hi, i);
      WalkFromLead(t, s, e, levels, lo, hi, i);
    }
  }

  // ----- at any heights -----

  /** Whether the key the search stands on lets the new member in, for every position it may stand
      on before the ties: the sentinel's own key and the members with lower scores. */
  ghost predicate LeadsDecide(s: seq<Entry>, e: Entry, lo: nat, letIn: bool)
    requires lo <= |s|
  {
    forall p {:trigger KeyAt(s, p)} :: 0 <= p <= lo ==> (Less(KeyAt(s, p), e.member) <==> letIn)
  }

  /** No tower heights make insertion's own test fail: no entry has the new score; or the new member
      comes after all that do and every lead lets it in; or before all of them and none does. */
  ghost predicate SafeAtAnyHeight(s: seq<Entry>, e: Entry) {
    var lo, hi := CountBelow(s, e.score, false), CountBelow(s, e.score, true);
    lo >= hi ||
    (Less(s[hi - 1].member, e.member) && LeadsDecide(s, e, lo, true)) ||
    (!Less(s[lo].member, e.member) && LeadsDecide(s, e, lo, false))
  }

  lemma SafeIsHarmless<T>(t: seq<seq<T>>, s: seq<Entry>, e: Entry, levels: nat)
    requires Towers(t, levels) && |t| == |s| + 1 && WellFormed(s) && !Has(s, e.member) && SafeAtAnyHeight(s, e)
    ensures TieIsHarmless(t, s, e, levels)
  {
    var lo, hi := CountBelow(s, e.score, false), CountBelow(s, e.score, true);
    CountsOrdered(s, e.score);
    BottomTie(t, s, e, levels, lo, hi);
    forall i | 0 <= i <= levels
      ensures LeadKey(t, s, e.score, i) == KeyAt(s, PredPos(t, lo, i)) && PredPos(t, lo, i) <= lo
    {
    }
  }

  /** Towers of height one, but for those at the positions 0, p and q. */
  function Steep(n: nat, p: nat, q: nat): (t: seq<seq<int>>)
    ensures |t| == n + 1
  {
    seq(n + 1, k => if k == 0 || k == p || k == q then [0, 0] else [0])
  }

  lemma SteepPlaces(n: nat, p: nat, lo: nat)
    requires p <= lo < n
    ensures var t := Steep(n, p, lo + 1);
      && Towers(t, 1) && PredPos(t, lo, 1) == p && NextPos(t, p, 1) == lo + 1
      && PredPos(t, lo, 0) == lo && NextPos(t, lo, 0) == lo + 1
  {
    var t := Steep(n, p, lo + 1);
    assert forall q :: p < q <= lo ==> Lower(t, q, 1);
    assert IsNext(t, p, 1, lo + 1);
    NextPosIs(t, p, 1, lo + 1);
    PredPosIs(t, lo, 1, p);
    assert IsNext(t, lo, 0, lo + 1);
    NextPosIs(t, lo, 0, lo + 1);
    PredPosIs(t, lo, 0, lo);
  }

  /** With such towers the lead of the upper level is any position before the ties, and the first tie
      reaches that level. */
  lemma {:induction false} SteepLead(s: seq<Entry>, e: Entry, p: nat, lo: nat)
    requires lo == CountBelow(s, e.score, false) < CountBelow(s, e.score, true) && p <= lo
    ensures var t := Steep(|s|, p, lo + 1);
      && Towers(t, 1) && HasTie(t, s, e.score, 0) && HasTie(t, s, e.score, 1)
      && TopTie(t, s, e.score, 1) == 1 && LeadKey(t, s, e.score, 1) == KeyAt(s, p)
  {
    SteepPlaces(|s|, p, lo);
  }

  /** For every choice of heights: insertion as shipped goes right with all of them if and only if the
      condition on the entries alone holds. */
  lemma SafeAtAnyHeightExact(s: seq<Entry>, e: Entry)
    requires WellFormed(s) && !Has(s, e.member)
    ensures SafeAtAnyHeight(s, e) <==>
      forall t: seq<seq<int>>, levels: nat :: Towers(t, levels) && |t| == |s| + 1 ==> TieIsHarmless(t, s, e, levels)
  {
    if SafeAtAnyHeight(s, e) {
      forall t: seq<seq<int>>, levels: nat | Towers(t, levels) && |t| == |s| + 1
        ensures TieIsHarmless(t, s, e, levels)
      {
        SafeIsHarmless(t, s, e, levels);
      }
    } else {
      UnsafeSomewhere(s, e);
    }
  }

  /** Heights for which insertion as shipped goes wrong. */
  lemma UnsafeSomewhere(s: seq<Entry>, e: Entry)
    requires WellFormed(s) && !Has(s, e.member) && !SafeAtAnyHeight(s, e)
    ensures exists t: seq<seq<int>>, levels: nat ::
      Towers(t, levels) && |t| == |s| + 1 && !TieIsHarmless(t, s, e, levels)
  {
    var lo, hi := CountBelow(s, e.score, false), CountBelow(s, e.score, true);
    if Less(s[hi - 1].member, e.member) {
      var p :| 0 <= p <= lo && !Less(KeyAt(s, p), e.member);
      SteepLead(s, e, p, lo);
      FirstBelowLast(s, e, lo, hi);
      assert !TieIsHarmless(Steep(|s|, p, lo + 1), s, e, 1);
    } else if !Less(s[lo].member, e.member) {
      var p :| 0 <= p <= lo && Less(KeyAt(s, p), e.member);
      SteepLead(s, e, p, lo);
      assert !TieIsHarmless(Steep(|s|, p, lo + 1), s, e, 1);
    } else {
      SteepLead(s, e, 0, lo);
      assert !TieIsHarmless(Steep(|s|, 0, lo + 1), s, e, 1);
    }
  }

  /** Among ties the members are in order. */
  lemma {:induction false} FirstBelowLast(s: seq<Entry>, e: Entry, lo: nat, hi: nat)
    requires WellFormed(s) && lo == CountBelow(s, e.score, false) < hi == CountBelow(s, e.score, true)
    requires Less(s[hi - 1].member, e.member)
    ensures Less(s[lo].member, e.member)
  {
    if lo < hi - 1 {
      assert EntryLess(s[lo], s[hi - 1]);
      LessTransitive(s[lo].member, s[hi - 1].member, e.member);
    }
  }

  // ----- a set put back entry by entry, in its own order -----

  /** Every entry can be put behind those before it, at any heights. */
  ghost predicate SafeRebuild(s: seq<Entry>) {
    forall j {:trigger s[j]} :: 0 <= j < |s| ==> SafeAtAnyHeight(s[..j], s[j])
  }

  /** "sentinel" and every member with a lower score come before the member of entry j. */
  ghost predicate AboveLeads(s: seq<Entry>, j: nat)
    requires j < |s|
  {
    && Less(SENTINEL_KEY, s[j].member)
    && forall i {:trigger s[i]} :: 0 <= i < j && s[i].score < s[j].score ==> Less(s[i].member, s[j].member)
  }

  /** An entry with the score of the one before it. */
  predicate TiedTo(s: seq<Entry>, j: nat)
    requires 0 < j < |s|
  {
    s[j - 1].score == s[j].score
  }

  /** Every entry that ties with the one before it has a member above "sentinel" and above every member
      with a lower score. */
  ghost predicate TiesAboveLeads(s: seq<Entry>) {
    forall j {:trigger TiedTo(s, j)} :: 0 < j < |s| && TiedTo(s, j) ==> AboveLeads(s, j)
  }

  lemma {:induction false} FrontWellFormed(s: seq<Entry>, j: nat)
    requires WellFormed(s) && j <= |s|
    ensures WellFormed(s[..j]) && (j < |s| ==> !Has(s[..j], s[j].member))
  {
    var front := s[..j];
    forall x, y | 0 <= x < y < j
      ensures Apart(front, x, y) && EntryLess(front[x], front[y])
    {
      assert Apart(s, x, y) && EntryLess(s[x], s[y]);
    }
    if j < |s| {
      var i := IndexOf(front, s[j].member);
      assert i < j ==> Apart(s, i, j);
    }
  }

  lemma {:induction false} RebuildStep(s: seq<Entry>, j: nat)
    requires WellFormed(s) && j < |s|
    ensures SafeAtAnyHeight(s[..j], s[j]) <==> (j > 0 && TiedTo(s, j) ==> AboveLeads(s, j))
  {
    var front, e := s[..j], s[j];
    FrontWellFormed(s, j);
    var lo, hi := CountBelow(front, e.score, false), CountBelow(front, e.score, true);
    assert forall i {:trigger s[i]} :: 0 <= i < j ==> front[i] == s[i] && EntryLess(s[i], e);
    assert hi < j ==> EntryLess(s[hi], e);
    assert hi == j;
    assert lo < hi <==> j > 0 && TiedTo(s, j);
    if lo < hi {
      assert EntryLess(s[lo], e) && front[lo].score == e.score;
      assert Less(front[lo].member, e.member) && Less(front[hi - 1].member, e.member);
      assert KeyAt(front, 0) == SENTINEL_KEY;
      if LeadsDecide(front, e, lo, true) {
        forall i | 0 <= i < j && s[i].score < e.score
          ensures Less(s[i].member, e.member)
        {
          assert i < lo && KeyAt(front, i + 1) == s[i].member;
        }
      }
    }
  }

  /** Put back in order under insertion's own test, a set comes out as it was at any heights if and
      only if all its ties are above the leads. */
  lemma SafeRebuildExact(s: seq<Entry>)
    requires WellFormed(s)
    ensures SafeRebuild(s) <==> TiesAboveLeads(s)
  {
    forall j | 0 <= j < |s|
      ensures SafeAtAnyHeight(s[..j], s[j]) <==> (j > 0 && TiedTo(s, j) ==> AboveLeads(s, j))
    {
      RebuildStep(s, j);
    }
    assert TiesAboveLeads(s) ==> forall j {:trigger s[j]} :: 0 < j < |s| && TiedTo(s, j) ==> AboveLeads(s, j);
  }

  /** The set a (1.0), b (1.0) does not, at any heights: b goes in front of a. */
  lemma {:induction false} RebuildSwaps<T>(t: seq<seq<T>>, levels: nat)
    requires Towers(t, levels) && |t| == 2
    ensures var a, b := Entry(1.0, "a"), Entry(1.0, "b");
      && WellFormed([a, b]) && !SafeRebuild([a, b])
      && Descend(t, [a], b, OwnKey, levels, 0) == 0 && InsertAt([a], 0, b) == [b, a] && Insert([a], b) == [a, b]
  {
    var a, b := Entry(1.0, "a"), Entry(1.0, "b");
    var s := [a];
    assert Less("a", "b") && !Less(SENTINEL_KEY, "b");
    assert WellFormed([a, b]) by { assert Apart([a, b], 0, 1) && EntryLess([a, b][0], [a, b][1]); }
    assert !SafeRebuild([a, b]) by {
      SafeRebuildExact([a, b]);
      assert TiedTo([a, b], 1) && !AboveLeads([a, b], 1);
    }
    assert IsCut(s, b, 1);
    CutUnique(s, b, 1);
    assert CountBelow(s, 1.0, false) == 0 && CountBelow(s, 1.0, true) == 1;
    assert !Has(s, "b");
    forall i | 0 <= i <= levels && HasTie(t, s, 1.0, i)
      ensures !Less(LeadKey(t, s, 1.0, i), "b")
    {
      assert PredPos(t, 0, i) == 0;
    }
    BeforeTies(t, s, b, levels, 0, 1, 0);
    assert PredPos(t, 0, 0) == 0;
  }

  /** A failing case: with a and c at score 1 and no raised tower, insertion as shipped stops before
      a, because the sentinel's own key is not below "b". */
  lemma ShippedTieBreakFails()
    ensures var s := [Entry(1.0, "a"), Entry(1.0, "c")];
      var t := [[0], [0], [0]];
      && WellFormed(s) && Towers(t, 0)
      && Descend(t, s, Entry(1.0, "b"), OwnKey, 0, 0) == 0
      && Descend(t, s, Entry(1.0, "b"), NextKey, 0, 0) == 1
      && !Sorted(InsertAt(s, 0, Entry(1.0, "b")))
  {
    var s := [Entry(1.0, "a"), Entry(1.0, "c")];
    var t := [[0], [0], [0]];
    var e := Entry(1.0, "b");
    assert Less("a", "c") && Less("a", "b") && !Less("c", "b");
    assert !Less(SENTINEL_KEY, "b");
    NextPosIs(t, 0, 0, 1);
    NextPosIs(t, 1, 0, 2);
    assert !StepsTo(s, e, OwnKey, 0, 1);
    assert StepsTo(s, e, NextKey, 0, 1) && !StepsTo(s, e, NextKey, 1, 2);
    assert Walk(t, s, e, NextKey, 1, 0) == 1;
    var s' := InsertAt(s, 0, e);
    assert s'[0] == e && s'[1] == Entry(1.0, "a");
    LessAsymmetric("a", "b");
    assert !EntryLess(s'[0], s'[1]);
  }

  /** And under insertion's own test the order itself depends on tower heights: with a (0.0),
      z (0.5) and ab (1.0), the new pair b (1.0) lands after ab if a and ab are two levels high,
      and before it if no tower is raised. */
  lemma ShippedOrderDependsOnHeights()
    ensures var s := [Entry(0.0, "a"), Entry(0.5, "z"), Entry(1.0, "ab")];
      var e := Entry(1.0, "b");
      var tall: seq<seq<int>> := [[0, 0], [0, 0], [0], [0, 0]];
      var flat: seq<seq<int>> := [[0, 0], [0], [0], [0]];
      && WellFormed(s) && Towers(tall, 1) && Towers(flat, 1)
      && Descend(tall, s, e, OwnKey, 1, 0) == 3 == Cut(s, e)
      && Descend(flat, s, e, OwnKey, 1, 0) == 2
  {
    var s := [Entry(0.0, "a"), Entry(0.5, "z"), Entry(1.0, "ab")];
    var e := Entry(1.0, "b");
    var tall: seq<seq<int>> := [[0, 0], [0, 0], [0], [0, 0]];
    var flat: seq<seq<int>> := [[0, 0], [0], [0], [0]];
    assert Less("a", "b") && Less("ab", "b") && !Less("z", "b") && !Less(SENTINEL_KEY, "b");
    assert Apart(s, 0, 1) && Apart(s, 0, 2) && Apart(s, 1, 2);
    assert IsCut(s, e, 3);
    CutUnique(s, e, 3);
    NextPosIs(tall, 0, 1, 1);
    NextPosIs(tall, 1, 1, 3);
    NextPosIs(tall, 3, 1, 4);
    NextPosIs(tall, 3, 0, 4);
    assert StepsTo(s, e, OwnKey, 0, 1) && StepsTo(s, e, OwnKey, 1, 3);
    assert Walk(tall, s, e, OwnKey, 3, 1) == 3;
    assert Walk(tall, s, e, OwnKey, 1, 1) == 3;
    assert Descend(tall, s, e, OwnKey, 1, 1) == 3;
    assert Walk(tall, s, e, OwnKey, 3, 0) == 3;
    NextPosIs(flat, 0, 1, 4);
    NextPosIs(flat, 0, 0, 1);
    NextPosIs(flat, 1, 0, 2);
    NextPosIs(flat, 2, 0, 3);
    assert StepsTo(s, e, OwnKey, 1, 2) && !StepsTo(s, e, OwnKey, 2, 3);
    assert Descend(flat, s, e, OwnKey, 1, 1) == 0;
    assert Walk(flat, s, e, OwnKey, 2, 0) == 2;
    assert Walk(flat, s, e, OwnKey, 1, 0) == 2;
  }
}
