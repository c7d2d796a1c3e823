/** The abstract sorted set: what ds/skiplist.c is meant to store, free of nodes and levels. */
module SortedSet {
  import opened CStrings

  datatype Entry = Entry(score: real, member: string)

  /** Removal's order (ds/skiplist.c:234-235): by score, then by member. */
  predicate EntryLess(a: Entry, b: Entry) {
    a.score < b.score || (a.score == b.score && Less(a.member, b.member))
  }

  ghost predicate Sorted(s: seq<Entry>) {
    forall i, j {:trigger EntryLess(s[i], s[j])} :: 0 <= i < j < |s| ==> EntryLess(s[i], s[j])
  }

  ghost predicate Apart(s: seq<Entry>, i: nat, j: nat)
    requires i < |s| && j < |s|
  {
    s[i].member != s[j].member
  }

  ghost predicate Distinct(s: seq<Entry>) {
    forall i, j {:trigger Apart(s, i, j)} :: 0 <= i < j < |s| ==> Apart(s, i, j)
  }

  lemma SameMember(s: seq<Entry>, i: nat, j: nat)
    requires Distinct(s) && i < |s| && j < |s| && s[i].member == s[j].member
    ensures i == j
  {
    assert i < j ==> Apart(s, i, j);
    assert j < i ==> Apart(s, j, i);
  }

  lemma OtherMember(s: seq<Entry>, i: nat, j: nat)
    requires Distinct(s) && i < |s| && j < |s| && i != j
    ensures s[i].member != s[j].member
  {
    assert if i < j then Apart(s, i, j) else Apart(s, j, i);
  }

  /** No member holds a NUL byte. */
  ghost predicate PlainMembers(s: seq<Entry>) {
    forall i {:trigger s[i]} :: 0 <= i < |s| ==> Plain(s[i].member)
  }

  /** A sorted set: strictly ordered, one entry for each member. */
  ghost predicate WellFormed(s: seq<Entry>) {
    Sorted(s) && Distinct(s)
  }

  /** Where a member sits; |s| when it is absent. */
  function IndexOf(s: seq<Entry>, m: string): (r: nat)
    ensures r <= |s|
    ensures r < |s| ==> s[r].member == m
  {
    if s == [] || s[0].member == m then 0 else 1 + IndexOf(s[1..], m)
  }

  predicate Has(s: seq<Entry>, m: string) {
    IndexOf(s, m) < |s|
  }

  lemma {:induction false} HasAt(s: seq<Entry>, i: nat)
    requires i < |s|
    ensures Has(s, s[i].member) && IndexOf(s, s[i].member) <= i
  {
    if s[0].member != s[i].member { HasAt(s[1..], i - 1); }
  }

  /** The set as the member table sees it: scores by member. */
  ghost function ToMap(s: seq<Entry>): (r: map<string, real>)
    requires Distinct(s)
    ensures forall m {:trigger m in r} {:trigger Has(s, m)} :: m in r <==> Has(s, m)
    ensures forall i {:trigger s[i]} :: 0 <= i < |s| ==> s[i].member in r && r[s[i].member] == s[i].score
  {
    assert forall i, j :: 0 <= i < |s| && 0 <= j < |s| && s[i].member == s[j].member ==> i == j by {
      forall i, j | 0 <= i < |s| && 0 <= j < |s| && s[i].member == s[j].member
        ensures i == j
      {
        SameMember(s, i, j);
      }
    }
    var r := map i | 0 <= i < |s| :: s[i].member := s[i].score;
    assert forall m :: m in r <==> Has(s, m) by {
      forall m
        ensures m in r <==> Has(s, m)
      {
        if m in r {
          var i :| 0 <= i < |s| && s[i].member == m;
          HasAt(s, i);
        }
      }
    }
    r
  }

  /** r splits s into the entries before e and those not before e. */
  ghost predicate IsCut(s: seq<Entry>, e: Entry, r: nat) {
    && r <= |s|
    && (forall i {:trigger EntryLess(s[i], e)} :: 0 <= i < r ==> EntryLess(s[i], e))
    && (forall i {:trigger EntryLess(s[i], e)} :: r <= i < |s| ==> !EntryLess(s[i], e))
  }

  lemma EntryLessTransitive(a: Entry, b: Entry, c: Entry)
    requires EntryLess(a, b) && EntryLess(b, c)
    ensures EntryLess(a, c)
  {
    if a.score == b.score == c.score {
      LessTransitive(a.member, b.member, c.member);
    }
  }

  lemma EntryLessIrreflexive(a: Entry)
    ensures !EntryLess(a, a)
  {
    LessIrreflexive(a.member);
  }

  lemma EntryLessAsymmetric(a: Entry, b: Entry)
    requires EntryLess(a, b)
    ensures !EntryLess(b, a)
  {
    if EntryLess(b, a) {
      EntryLessTransitive(a, b, a);
      EntryLessIrreflexive(a);
    }
  }

  lemma EntryLessTotal(a: Entry, b: Entry)
    ensures EntryLess(a, b) || a == b || EntryLess(b, a)
  {
    LessTotal(a.member, b.member);
  }

  /** How many entries come before e. */
  function Cut(s: seq<Entry>, e: Entry): (r: nat)
    ensures r <= |s|
    ensures Sorted(s) ==> IsCut(s, e, r)
  {
    if s == [] || !EntryLess(s[0], e) then
      assert Sorted(s) ==> IsCut(s, e, 0) by {
        forall i | Sorted(s) && 0 < i < |s|
          ensures !EntryLess(s[i], e)
        {
          if EntryLess(s[i], e) { EntryLessTransitive(s[0], s[i], e); }
        }
      }
      0
    else
      1 + Cut(s[1..], e)
  }

  lemma {:induction false} CutUnique(s: seq<Entry>, e: Entry, r: nat)
    requires Sorted(s) && IsCut(s, e, r)
    ensures r == Cut(s, e)
  {
    var c := Cut(s, e);
    assert r < |s| ==> !EntryLess(s[r], e);
    assert c < |s| ==> !EntryLess(s[c], e);
  }

  function InsertAt(s: seq<Entry>, r: nat, e: Entry): seq<Entry>
    requires r <= |s|
  {
    s[..r] + [e] + s[r..]
  }

  function RemoveAt(s: seq<Entry>, r: nat): seq<Entry>
    requires r < |s|
  {
    s[..r] + s[r + 1..]
  }

  /** A new pair goes to its sorted place. */
  function Insert(s: seq<Entry>, e: Entry): seq<Entry> {
    InsertAt(s, Cut(s, e), e)
  }

  function Remove(s: seq<Entry>, m: string): seq<Entry> {
    var r := IndexOf(s, m);
    if r == |s| then s else RemoveAt(s, r)
  }

  lemma HasInsertAt(s: seq<Entry>, r: nat, e: Entry, m: string)
    requires r <= |s|
    ensures Has(InsertAt(s, r, e), m) <==> Has(s, m) || m == e.member
  {
    var s' := InsertAt(s, r, e);
    if m == e.member {
      assert s'[r] == e;
      HasAt(s', r);
    } else if Has(s, m) {
      var i := IndexOf(s, m);
      var k := if i < r then i else i + 1;
      assert s'[k] == s[i];
      HasAt(s', k);
    } else if Has(s', m) {
      var i := IndexOf(s', m);
      var k := if i < r then i else i - 1;
      assert i != r && s'[i] == s[k];
      HasAt(s, k);
    }
  }

  lemma DistinctInsertAt(s: seq<Entry>, r: nat, e: Entry)
    requires Distinct(s) && r <= |s| && !Has(s, e.member)
    ensures Distinct(InsertAt(s, r, e))
  {
    var s' := InsertAt(s, r, e);
    forall i, j | 0 <= i < j < |s'|
      ensures Apart(s', i, j)
    {
      var i', j' := if i < r then i else i - 1, if j < r then j else j - 1;
      if i != r && j != r {
        assert Apart(s, i', j');
      } else {
        HasAt(s, if i == r then j' else i');
      }
    }
  }

  lemma {:induction false} SortedInsertAt(s: seq<Entry>, r: nat, e: Entry)
    requires Sorted(s) && r <= |s|
    requires forall i :: 0 <= i < |s| ==> s[i] != e
    ensures Sorted(InsertAt(s, r, e)) <==> r == Cut(s, e)
  {
    var s' := InsertAt(s, r, e);
    assert forall i :: 0 <= i < |s'| && i != r ==> s'[i] == s[if i < r then i else i - 1];
    if r == Cut(s, e) {
      forall j | r < j < |s'|
        ensures EntryLess(s'[r], s'[j])
      {
        EntryLessTotal(e, s'[j]);
      }
    }
    if Sorted(s') {
      forall i | r <= i < |s|
        ensures !EntryLess(s[i], e)
      {
        assert EntryLess(s'[r], s'[i + 1]);
        EntryLessAsymmetric(e, s[i]);
      }
      forall i | 0 <= i < r
        ensures EntryLess(s[i], e)
      {
        assert EntryLess(s'[i], s'[r]);
      }
      CutUnique(s, e, r);
    }
  }

  lemma NotThere(s: seq<Entry>, e: Entry)
    requires !Has(s, e.member)
    ensures forall i {:trigger s[i]} :: 0 <= i < |s| ==> s[i].member != e.member
  {
    forall i | 0 <= i < |s|
      ensures s[i].member != e.member
    {
      HasAt(s, i);
    }
  }

  /** Inserting an absent member anywhere adds exactly that pair to the map; the result is
      sorted if and only if the place is the cut. */
  lemma {:induction false} InsertAtSpec(s: seq<Entry>, r: nat, e: Entry)
    requires WellFormed(s) && r <= |s| && !Has(s, e.member)
    ensures Distinct(InsertAt(s, r, e))
    ensures ToMap(InsertAt(s, r, e)) == ToMap(s)[e.member := e.score]
    ensures Sorted(InsertAt(s, r, e)) <==> r == Cut(s, e)
  {
    DistinctInsertAt(s, r, e);
    NotThere(s, e);
    SortedInsertAt(s, r, e);
    ToMapInsertAt(s, r, e);
  }

  lemma InsertWellFormed(s: seq<Entry>, e: Entry)
    requires WellFormed(s) && !Has(s, e.member)
    ensures WellFormed(Insert(s, e))
  {
    DistinctInsertAt(s, Cut(s, e), e);
    NotThere(s, e);
    SortedInsertAt(s, Cut(s, e), e);
  }

  lemma ToMapInsertAt(s: seq<Entry>, r: nat, e: Entry)
    requires Distinct(s) && r <= |s| && !Has(s, e.member)
    requires Distinct(InsertAt(s, r, e))
    ensures ToMap(InsertAt(s, r, e)) == ToMap(s)[e.member := e.score]
  {
    var s' := InsertAt(s, r, e);
    var m := ToMap(s)[e.member := e.score];
    forall k
      ensures k in m <==> Has(s', k)
    {
      HasInsertAt(s, r, e, k);
    }
    NotThere(s, e);
    forall i | 0 <= i < |s'|
      ensures m[s'[i].member] == s'[i].score
    {
      if i != r {
        assert s'[i] == s[if i < r then i else i - 1];
      }
    }
    MapIs(s', m);
  }

  /** ToMap is the only map with exactly these members and scores. */
  lemma MapIs(s: seq<Entry>, m: map<string, real>)
    requires Distinct(s)
    requires forall k {:trigger k in m} :: k in m <==> Has(s, k)
    requires forall i {:trigger s[i]} :: 0 <= i < |s| ==> s[i].member in m && m[s[i].member] == s[i].score
    ensures ToMap(s) == m
  {
    forall k | k in m
      ensures k in ToMap(s) && ToMap(s)[k] == m[k]
    {
      var i := IndexOf(s, k);
      assert s[i].member == k;
    }
    assert forall k :: k in ToMap(s) ==> k in m;
  }

  lemma HasRemoveAt(s: seq<Entry>, r: nat, m: string)
    requires Distinct(s) && r < |s|
    ensures Has(RemoveAt(s, r), m) <==> Has(s, m) && m != s[r].member
  {
    var s' := RemoveAt(s, r);
    if Has(s', m) {
      var i := IndexOf(s', m);
      var k := if i < r then i else i + 1;
      assert s'[i] == s[k];
      HasAt(s, k);
      OtherMember(s, k, r);
    } else if Has(s, m) && m != s[r].member {
      var i := IndexOf(s, m);
      var k := if i < r then i else i - 1;
      assert s'[k] == s[i];
      HasAt(s', k);
    }
  }

  lemma RemoveAtWellFormed(s: seq<Entry>, r: nat)
    requires WellFormed(s) && r < |s|
    ensures WellFormed(RemoveAt(s, r))
  {
    var s' := RemoveAt(s, r);
    forall i, j | 0 <= i < j < |s'|
      ensures Apart(s', i, j) && EntryLess(s'[i], s'[j])
    {
      var i', j' := if i < r then i else i + 1, if j < r then j else j + 1;
      assert Apart(s, i', j') && EntryLess(s[i'], s[j']);
    }
  }

  lemma ToMapRemoveAt(s: seq<Entry>, r: nat)
    requires Distinct(s) && r < |s| && Distinct(RemoveAt(s, r))
    ensures ToMap(RemoveAt(s, r)) == ToMap(s) - {s[r].member}
  {
    var s' := RemoveAt(s, r);
    var m := ToMap(s) - {s[r].member};
    forall k
      ensures k in m <==> Has(s', k)
    {
      HasRemoveAt(s, r, k);
    }
    forall i | 0 <= i < |s'|
      ensures s'[i].member in m && m[s'[i].member] == s'[i].score
    {
      var k := if i < r then i else i + 1;
      assert s'[i] == s[k];
      OtherMember(s, k, r);
    }
    MapIs(s', m);
  }

  /** Removal keeps the order and takes away exactly that pair. */
  lemma RemoveAtSpec(s: seq<Entry>, r: nat)
    requires WellFormed(s) && r < |s|
    ensures WellFormed(RemoveAt(s, r))
    ensures ToMap(RemoveAt(s, r)) == ToMap(s) - {s[r].member}
  {
    RemoveAtWellFormed(s, r);
    ToMapRemoveAt(s, r);
  }

  /** The entry at r is found by its own cut, and by its member. */
  lemma {:induction false} CutOfPresent(s: seq<Entry>, r: nat)
    requires WellFormed(s) && r < |s|
    ensures Cut(s, s[r]) == r && IndexOf(s, s[r].member) == r
  {
    forall i | r <= i < |s|
      ensures !EntryLess(s[i], s[r])
    {
      EntryLessIrreflexive(s[r]);
      if r < i && EntryLess(s[i], s[r]) { EntryLessTransitive(s[r], s[i], s[r]); }
    }
    CutUnique(s, s[r], r);
    HasAt(s, r);
    SameMember(s, IndexOf(s, s[r].member), r);
  }

  /** Insert, then remove the same new member: the sequence is back. */
  lemma RemoveUndoesInsert(s: seq<Entry>, e: Entry)
    requires WellFormed(s) && !Has(s, e.member)
    ensures Remove(Insert(s, e), e.member) == s
  {
    var r := Cut(s, e);
    InsertWellFormed(s, e);
    var s' := Insert(s, e);
    assert s'[r] == e;
    CutOfPresent(s', r);
    assert RemoveAt(s', r) == s;
  }

  lemma FirstLeast(s: seq<Entry>, i: nat)
    requires Sorted(s) && i < |s|
    ensures s[i] == s[0] || EntryLess(s[0], s[i])
  {
  }

  lemma TailSpec(s: seq<Entry>)
    requires WellFormed(s) && s != []
    ensures WellFormed(s[1..])
    ensures ToMap(s[1..]) == ToMap(s) - {s[0].member}
  {
    RemoveAtSpec(s, 0);
    assert RemoveAt(s, 0) == s[1..];
  }

  /** The smallest entry is the same in every sorted sequence for one map. */
  lemma SameFirst(a: seq<Entry>, b: seq<Entry>)
    requires WellFormed(a) && WellFormed(b) && ToMap(a) == ToMap(b) && a != []
    ensures b != [] && a[0] == b[0]
  {
    assert a[0].member in ToMap(b);
    var j := IndexOf(b, a[0].member);
    assert b[j] == a[0];
    assert b[0].member in ToMap(a);
    var i := IndexOf(a, b[0].member);
    assert a[i] == b[0];
    FirstLeast(a, i);
    FirstLeast(b, j);
    if EntryLess(b[0], a[0]) { EntryLessAsymmetric(b[0], a[0]); }
  }

  lemma SameRest(a: seq<Entry>, b: seq<Entry>)
    requires WellFormed(a) && WellFormed(b) && ToMap(a) == ToMap(b) && a != [] && b != [] && a[0] == b[0]
    ensures WellFormed(a[1..]) && WellFormed(b[1..]) && ToMap(a[1..]) == ToMap(b[1..])
  {
    TailSpec(a);
    TailSpec(b);
  }

  /** A sorted set is determined by its scores-by-member map: there is one sorted sequence
      for each map. */
  lemma {:induction false} SortedUnique(a: seq<Entry>, b: seq<Entry>)
    requires WellFormed(a) && WellFormed(b) && ToMap(a) == ToMap(b)
    ensures a == b
    decreases |a|
  {
    if a == [] {
      if b != [] { SameFirst(b, a); }
    } else {
      SameFirst(a, b);
      SameRest(a, b);
      SortedUnique(a[1..], b[1..]);
      assert a == [a[0]] + a[1..] && b == [b[0]] + b[1..];
    }
  }

  lemma {:induction false} MapSize(s: seq<Entry>)
    requires Distinct(s)
    ensures |ToMap(s)| == |s|
  {
    if s == [] {
      assert ToMap(s) == map[];
    } else {
      assert RemoveAt(s, 0) == s[1..];
      assert forall i, j :: 0 <= i < j < |s[1..]| ==> Apart(s[1..], i, j) == Apart(s, i + 1, j + 1);
      MapSize(s[1..]);
      ToMapRemoveAt(s, 0);
      assert s[0].member in ToMap(s);
      assert |(ToMap(s) - {s[0].member}).Keys| == |ToMap(s).Keys - {s[0].member}|;
    }
  }
}
