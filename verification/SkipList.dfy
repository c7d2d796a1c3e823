/** The indexable skip list with its member table: ds/skiplist.c over heap nodes. */
module SkipList {
  import opened CStrings
  import opened SortedSet
  import opened SkipShape
  import opened TieBreak

  const MAX_LEVEL := 16
  const DOUBLE_MIN := -9999999999.0

  class SkipNode {
    const key: string
    const score: real
    var children: int
    var next: SkipNode?
    var down: SkipNode?
    ghost const level: nat
    ghost const sentinel: bool

    constructor (key: string, score: real, ghost level: nat, ghost sentinel: bool)
      ensures this.key == key && this.score == score && this.level == level && this.sentinel == sentinel
      ensures children == 1 && next == null && down == null
    {
      this.key, this.score := key, score;
      this.level, this.sentinel := level, sentinel;
      children, next, down := 1, null, null;
    }
  }

  // ----- what the nodes of a row of towers are and how they are linked -----

  /** Node i of tower p is on level i and carries the key and score of its position. */
  ghost predicate Stands(t: seq<seq<SkipNode>>, s: seq<Entry>, p: nat, i: nat)
    requires p < |t| == |s| + 1 && i < |t[p]|
  {
    && t[p][i].level == i && t[p][i].sentinel == (p == 0) && t[p][i].key == KeyAt(s, p)
    && (p > 0 ==> t[p][i].score == s[p - 1].score)
  }

  ghost predicate Identity(t: seq<seq<SkipNode>>, s: seq<Entry>)
    requires |t| == |s| + 1
  {
    forall p, i {:trigger Stands(t, s, p, i)} :: 0 <= p < |t| && 0 <= i < |t[p]| ==> Stands(t, s, p, i)
  }

  /** Every node of the towers is one of ours. */
  ghost predicate Owned(t: seq<seq<SkipNode>>, nodes: set<object>) {
    forall p, i :: 0 <= p < |t| && 0 <= i < |t[p]| ==> t[p][i] in nodes
  }

  /** The node reached from position p along level i, if there is one. */
  ghost function NextNode(t: seq<seq<SkipNode>>, p: nat, i: nat): SkipNode?
    requires p < |t|
  {
    var n := NextPos(t, p, i);
    if n < |t| then t[n][i] else null
  }

  /** A node points down its tower, to the next node of its level, and spans to that node's
      position. */
  ghost predicate Linked(t: seq<seq<SkipNode>>, p: nat, i: nat)
    requires p < |t| && i < |t[p]|
    reads t[p][i]
  {
    && t[p][i].down == (if i > 0 then t[p][i - 1] else null)
    && t[p][i].next == NextNode(t, p, i)
    && t[p][i].children == NextPos(t, p, i) - p
  }

  ghost predicate AllLinked(t: seq<seq<SkipNode>>, nodes: set<object>)
    requires Owned(t, nodes)
    reads nodes
  {
    forall p, i {:trigger Linked(t, p, i)} :: 0 <= p < |t| && 0 <= i < |t[p]| ==> Linked(t, p, i)
  }

  /** No node stands in two places. */
  lemma SamePlace(t: seq<seq<SkipNode>>, s: seq<Entry>, p: nat, i: nat, q: nat, j: nat)
    requires |t| == |s| + 1 && Identity(t, s) && Distinct(s)
    requires p < |t| && i < |t[p]| && q < |t| && j < |t[q]|
    requires t[p][i] == t[q][j]
    ensures p == q && i == j
  {
    assert Stands(t, s, p, i) && Stands(t, s, q, j);
    if p > 0 { SameMember(s, p - 1, q - 1); }
  }

  // ----- the search for a place, shared by insertion and removal -----

  /** Everything the search relies on. */
  ghost predicate Searchable(t: seq<seq<SkipNode>>, s: seq<Entry>, levels: nat, nodes: set<object>)
    reads nodes
  {
    && Towers(t, levels) && levels < MAX_LEVEL && |t| == |s| + 1 && PlainMembers(s)
    && Identity(t, s) && Owned(t, nodes) && AllLinked(t, nodes)
  }

  /** The places at which the search for e stops, level by level. */
  ghost function Places(t: seq<seq<SkipNode>>, s: seq<Entry>, e: Entry, rule: TieRule, levels: nat): (at: seq<nat>)
    requires Towers(t, levels) && |t| == |s| + 1
    ensures |at| == levels + 1
    ensures forall i :: 0 <= i <= levels ==> at[i] == Descend(t, s, e, rule, levels, i)
  {
    seq(levels + 1, i requires 0 <= i <= levels => Descend(t, s, e, rule, levels, i))
  }

  /** What the search has recorded from level k upward when it stands at position p. */
  ghost predicate Recorded(t: seq<seq<SkipNode>>, at: seq<nat>, k: nat, p: nat, dirty: seq<SkipNode?>,
                           children: seq<int>)
    requires k <= |at| <= |dirty| && |at| < |children|
  {
    forall j :: k <= j < |at| ==>
      at[j] < |t| && j < |t[at[j]]| && dirty[j] == t[at[j]][j] && children[j] == 1 + at[j] && at[j] <= p
  }

  /** Where the search is when the k lowest levels are left to look at. */
  ghost predicate Arrived(t: seq<seq<SkipNode>>, at: seq<nat>, k: nat, tmp: SkipNode?, dirty: seq<SkipNode?>,
                          children: seq<int>) {
    && k <= |at| <= MAX_LEVEL == |dirty| && |children| == MAX_LEVEL + 1
    && var p := if k == |at| then 0 else at[k];
    && p < |t| && children[k] == 1 + p
    && (k > 0 ==> k - 1 < |t[p]| && tmp == t[p][k - 1])
    && Recorded(t, at, k, p, dirty, children)
  }

  lemma ArrivedBelow(t: seq<seq<SkipNode>>, at: seq<nat>, i: nat, from: SkipNode, tmp: SkipNode?,
                     dirty: seq<SkipNode?>, children: seq<int>)
    requires i < |at| && Arrived(t, at, i + 1, from, dirty, children)
    requires (if i == |at| - 1 then 0 else at[i + 1]) <= at[i] < |t| && i < |t[at[i]]|
    requires i > 0 ==> tmp == t[at[i]][i - 1]
    ensures Arrived(t, at, i, tmp, dirty[i := t[at[i]][i]], children[i := 1 + at[i]])
  {
  }

  /** The inner loop of the search, on level i: the spans passed are added up. */
  method WalkLevel(e: Entry, rule: TieRule, from: SkipNode, count: int,
                   ghost t: seq<seq<SkipNode>>, ghost s: seq<Entry>, ghost levels: nat, ghost nodes: set<object>,
                   ghost p: nat, ghost i: nat)
    returns (tmp: SkipNode, total: int)
    requires Searchable(t, s, levels, nodes) && Plain(e.member) && p < |t| && i < |t[p]| && from == t[p][i]
    ensures var q := Walk(t, s, e, rule, p, i);
      && tmp == t[q][i] && total == count + (q - p)
      && tmp.down == (if i > 0 then t[q][i - 1] else null)
  {
    tmp, total := from, count;
    ghost var q := p;
    while tmp.next != null &&
          (tmp.next.score < e.score ||
           (tmp.next.score == e.score && StrcmpLess(if rule.OwnKey? then tmp.key else tmp.next.key, e.member)))
      invariant p <= q < |t| && i < |t[q]| && tmp == t[q][i] && Stands(t, s, q, i) && Linked(t, q, i)
      invariant tmp.next != null ==> Stands(t, s, NextPos(t, q, i), i)
      invariant Plain(tmp.key) && (tmp.next != null ==> Plain(tmp.next.key))
      invariant Walk(t, s, e, rule, q, i) == Walk(t, s, e, rule, p, i)
      invariant total == count + (q - p)
      decreases |t| - q
    {
      assert Linked(t, q, i) && Stands(t, s, q, i);
      total := total + tmp.children;
      q := NextPos(t, q, i);
      tmp := tmp.next;
    }
    assert Linked(t, q, i);
  }

  /** One level of the search: ds/skiplist.c:167-176. */
  method SearchLevel(e: Entry, rule: TieRule, i: nat, from: SkipNode, dirty0: seq<SkipNode?>, children0: seq<int>,
                     ghost t: seq<seq<SkipNode>>, ghost s: seq<Entry>, ghost levels: nat, ghost nodes: set<object>)
    returns (tmp: SkipNode?, dirty: seq<SkipNode?>, children: seq<int>)
    requires Searchable(t, s, levels, nodes) && Plain(e.member)
    requires i <= levels && Arrived(t, Places(t, s, e, rule, levels), i + 1, from, dirty0, children0)
    ensures Arrived(t, Places(t, s, e, rule, levels), i, tmp, dirty, children)
  {
    ghost var at := Places(t, s, e, rule, levels);
    ghost var p := if i == levels then 0 else at[i + 1];
    assert at[i] == Walk(t, s, e, rule, p, i);
    var node, total := WalkLevel(e, rule, from, children0[i + 1], t, s, levels, nodes, p, i);
    tmp := node.down;
    ArrivedBelow(t, at, i, from, tmp, dirty0, children0);
    dirty, children := dirty0[i := node], children0[i := total];
  }

  /** The search of ds/skiplist.c:162-177 and 231-242: on every level, where it stops and one more
      than that position. */
  method FindPlaces(e: Entry, rule: TieRule, head: SkipNode, levels: nat,
                    ghost t: seq<seq<SkipNode>>, ghost s: seq<Entry>, ghost nodes: set<object>)
    returns (dirty: seq<SkipNode?>, children: seq<int>)
    requires Searchable(t, s, levels, nodes) && Plain(e.member) && head == t[0][levels]
    ensures |dirty| == MAX_LEVEL && |children| == MAX_LEVEL + 1
    ensures var at := Places(t, s, e, rule, levels); Recorded(t, at, 0, at[0], dirty, children)
  {
    children := seq(MAX_LEVEL + 1, _ => 0);
    dirty := seq(MAX_LEVEL, _ => null);
    children := children[levels + 1 := 1];
    var tmp: SkipNode? := head;
    var i: int := levels;
    while i >= 0
      invariant -1 <= i <= levels
      invariant Arrived(t, Places(t, s, e, rule, levels), i + 1, tmp, dirty, children)
    {
      tmp, dirty, children := SearchLevel(e, rule, i, tmp, dirty, children, t, s, levels, nodes);
      i := i - 1;
    }
  }

  // ----- ds/skiplist.c:179-188: sentinels for new levels -----

  lemma RaiseLinked(t: seq<seq<SkipNode>>, s: seq<Entry>, levels: nat, nodes: set<object>, top: SkipNode)
    requires Searchable(t, s, levels, nodes) && levels + 1 < MAX_LEVEL
    requires top.level == levels + 1 && top.sentinel && top.key == SENTINEL_KEY
    requires top.next == null && top.down == t[0][levels] && top.children == |t|
    ensures Searchable(t[0 := t[0] + [top]], s, levels + 1, nodes + {top})
  {
    var t' := t[0 := t[0] + [top]];
    forall p, i | 0 <= p < |t'| && 0 <= i < |t'[p]|
      ensures Linked(t', p, i) && Stands(t', s, p, i)
    {
      NextPosAhead(t', t, p, i);
      if i <= levels {
        assert Linked(t, p, i) && Stands(t, s, p, i);
      } else {
        NextPosIs(t, 0, i, |t|);
      }
    }
  }

  /** Recorded places, with place 0 for the levels above. */
  ghost function Padded(at: seq<nat>, levels: nat): (r: seq<nat>)
    requires |at| <= levels + 1
    ensures |r| == levels + 1
    ensures forall i :: 0 <= i < |r| ==> r[i] == if i < |at| then at[i] else 0
  {
    at + seq(levels + 1 - |at|, _ => 0)
  }

  lemma RecordedRaised(t: seq<seq<SkipNode>>, at: seq<nat>, i: nat, p: nat, dirty: seq<SkipNode?>, children: seq<int>,
                       top: SkipNode)
    requires |t| > 0 && 0 < |at| <= i < MAX_LEVEL == |dirty| && |children| == MAX_LEVEL + 1 && |t[0]| == i
    requires Recorded(t, Padded(at, i - 1), 0, p, dirty, children)
    ensures Recorded(t[0 := t[0] + [top]], Padded(at, i), 0, p, dirty[i := top], children[i := 1])
  {
  }

  method RaiseHead(raiseTo: nat, head: SkipNode, size: nat, levels: nat, dirty0: seq<SkipNode?>, children0: seq<int>,
                   ghost t0: seq<seq<SkipNode>>, ghost s: seq<Entry>, ghost nodes0: set<object>, ghost at: seq<nat>)
    returns (top: SkipNode, levels': nat, dirty: seq<SkipNode?>, children: seq<int>,
             ghost t: seq<seq<SkipNode>>, ghost nodes: set<object>)
    requires Searchable(t0, s, levels, nodes0) && head == t0[0][levels] && raiseTo < MAX_LEVEL && size == |s|
    requires |at| == levels + 1 && |dirty0| == MAX_LEVEL && |children0| == MAX_LEVEL + 1
    requires Recorded(t0, at, 0, at[0], dirty0, children0)
    ensures levels' == if levels < raiseTo then raiseTo else levels
    ensures Searchable(t, s, levels', nodes) && top == t[0][levels']
    ensures |t| == |t0| && t0[0] <= t[0] && t == t0[0 := t[0]]
    ensures nodes0 <= nodes && fresh(nodes - nodes0)
    ensures |dirty| == MAX_LEVEL && |children| == MAX_LEVEL + 1
    ensures Recorded(t, Padded(at, levels'), 0, at[0], dirty, children)
  {
    top, levels', dirty, children := head, levels, dirty0, children0;
    t, nodes := t0, nodes0;
    var i := levels + 1;
    assert Padded(at, levels) == at;
    while i <= raiseTo
      invariant levels + 1 <= i && (i <= raiseTo + 1 || i == levels + 1)
      invariant levels' == if i == levels + 1 then levels else raiseTo
      invariant Searchable(t, s, i - 1, nodes) && top == t[0][i - 1]
      invariant |t| == |t0| && t0[0] <= t[0] && t == t0[0 := t[0]]
      invariant nodes0 <= nodes && fresh(nodes - nodes0)
      invariant |dirty| == MAX_LEVEL && |children| == MAX_LEVEL + 1
      invariant Recorded(t, Padded(at, i - 1), 0, at[0], dirty, children)
    {
      var tmp := new SkipNode(SENTINEL_KEY, DOUBLE_MIN, i, true);
      tmp.down := top;
      tmp.children := size + 1;
      RaiseLinked(t, s, i - 1, nodes, tmp);
      RecordedRaised(t, at, i, at[0], dirty, children, tmp);
      t, nodes := t[0 := t[0] + [tmp]], nodes + {tmp};
      top := tmp;
      dirty := dirty[i := tmp];
      children := children[i := 1];
      levels' := raiseTo;
      i := i + 1;
    }
  }

  // ----- ds/skiplist.c:190-204: the new tower, and the spans that now jump over it -----

  ghost predicate InPlace(t: seq<seq<SkipNode>>, at: seq<nat>) {
    forall i :: 0 <= i < |at| ==> at[i] < |t| && i < |t[at[i]]| && at[i] <= at[0]
  }

  /** A node of the towers t while the tower w is threaded in after the places at: its own level
      may have been done (below |w|), or only its span (below bumped). */
  ghost predicate Patched(t: seq<seq<SkipNode>>, at: seq<nat>, w: seq<SkipNode>, bumped: nat, p: nat, i: nat)
    requires p < |t| && i < |t[p]| && |w| <= |at| && bumped <= |at|
    reads t[p][i]
  {
    var here := i < |at| && p == at[i];
    && t[p][i].down == (if i > 0 then t[p][i - 1] else null)
    && t[p][i].next == (if here && i < |w| then w[i] else NextNode(t, p, i))
    && t[p][i].children == (if here && i < |w| then at[0] - at[i] + 1
                            else NextPos(t, p, i) - p + if here && i < bumped then 1 else 0)
  }

  ghost predicate AllPatched(t: seq<seq<SkipNode>>, nodes: set<object>, at: seq<nat>, w: seq<SkipNode>, bumped: nat)
    requires Owned(t, nodes) && |w| <= |at| && bumped <= |at|
    reads nodes
  {
    forall p, i {:trigger Patched(t, at, w, bumped, p, i)} :: 0 <= p < |t| && 0 <= i < |t[p]| ==>
      Patched(t, at, w, bumped, p, i)
  }

  /** A node of the new tower takes over the rest of the link it interrupts. */
  ghost predicate Threaded(t: seq<seq<SkipNode>>, at: seq<nat>, w: seq<SkipNode>, e: Entry, i: nat)
    requires i < |w| <= |at| && at[i] < |t|
    reads w[i]
  {
    && w[i].level == i && !w[i].sentinel && w[i].key == e.member && w[i].score == e.score
    && w[i].down == (if i > 0 then w[i - 1] else null)
    && w[i].next == NextNode(t, at[i], i)
    && w[i].children == NextPos(t, at[i], i) - at[0]
  }

  ghost predicate AllThreaded(t: seq<seq<SkipNode>>, nodes: set<object>, at: seq<nat>, w: seq<SkipNode>, e: Entry)
    requires |w| <= |at| && InPlace(t, at)
    reads w
  {
    forall i {:trigger w[i]} :: 0 <= i < |w| ==> w[i] !in nodes && Threaded(t, at, w, e, i)
  }

  /** One level of the new tower: ds/skiplist.c:191-199. */
  method ThreadLevel(e: Entry, i: nat, place: SkipNode, gap: int, prev: SkipNode?,
                     ghost t: seq<seq<SkipNode>>, ghost s: seq<Entry>, ghost nodes: set<object>,
                     ghost at: seq<nat>, ghost w: seq<SkipNode>)
    returns (tmp: SkipNode)
    requires |t| == |s| + 1 && Identity(t, s) && Distinct(s) && Owned(t, nodes) && InPlace(t, at)
    requires i == |w| < |at| && place == t[at[i]][i] && gap == at[0] - at[i]
    requires prev == if i == 0 then null else w[i - 1]
    requires AllPatched(t, nodes, at, w, 0) && AllThreaded(t, nodes, at, w, e)
    modifies place
    ensures fresh(tmp)
    ensures AllPatched(t, nodes, at, w + [tmp], 0) && AllThreaded(t, nodes, at, w + [tmp], e)
  {
    assert Patched(t, at, w, 0, at[i], i);
    assert old(Patched(t, at, w, 0, at[i], i));
    tmp := new SkipNode(e.member, e.score, i, false);
    tmp.next := place.next;
    place.next := tmp;
    tmp.children := place.children - gap;
    place.children := gap + 1;
    if prev != null {
      tmp.down := prev;
    }
    forall p, j | 0 <= p < |t| && 0 <= j < |t[p]|
      ensures Patched(t, at, w + [tmp], 0, p, j)
    {
      assert old(Patched(t, at, w, 0, p, j));
      if t[p][j] == place { SamePlace(t, s, p, j, at[i], i); }
    }
    ghost var w' := w + [tmp];
    forall j | 0 <= j < |w'|
      ensures w'[j] !in nodes && Threaded(t, at, w', e, j)
    {
      if j < i { assert w'[j] == w[j] && old(Threaded(t, at, w, e, j)); }
    }
  }

  method ThreadTower(e: Entry, raiseTo: nat, dirty: seq<SkipNode?>, children: seq<int>,
                     ghost t: seq<seq<SkipNode>>, ghost s: seq<Entry>, ghost nodes: set<object>, ghost at: seq<nat>)
    returns (top: SkipNode, ghost w: seq<SkipNode>)
    requires |t| == |s| + 1 && Identity(t, s) && Distinct(s) && Owned(t, nodes) && InPlace(t, at)
    requires raiseTo < |at| <= MAX_LEVEL && AllPatched(t, nodes, at, [], 0)
    requires |dirty| == MAX_LEVEL && |children| == MAX_LEVEL + 1 && Recorded(t, at, 0, at[0], dirty, children)
    modifies nodes
    ensures |w| == raiseTo + 1 && fresh(w) && top == w[raiseTo]
    ensures AllPatched(t, nodes, at, w, 0) && AllThreaded(t, nodes, at, w, e)
  {
    var prev: SkipNode? := null;
    w := [];
    var i := 0;
    while i <= raiseTo
      invariant i == |w| <= raiseTo + 1 && fresh(w)
      invariant prev == if i == 0 then null else w[i - 1]
      invariant AllPatched(t, nodes, at, w, 0) && AllThreaded(t, nodes, at, w, e)
    {
      var tmp := ThreadLevel(e, i, dirty[i], children[0] - children[i], prev, t, s, nodes, at, w);
      w := w + [tmp];
      prev := tmp;
      i := i + 1;
    }
    assert i - 1 == raiseTo;
    top := prev;
  }

  /** The spans of the levels above the new tower: ds/skiplist.c:202-204. */
  method BumpSpans(raiseTo: nat, levels: nat, dirty: seq<SkipNode?>,
                   ghost t: seq<seq<SkipNode>>, ghost s: seq<Entry>, ghost nodes: set<object>,
                   ghost at: seq<nat>, ghost w: seq<SkipNode>, ghost children: seq<int>, ghost e: Entry)
    requires |t| == |s| + 1 && Identity(t, s) && Distinct(s) && Owned(t, nodes) && InPlace(t, at)
    requires |w| == raiseTo + 1 <= |at| == levels + 1 <= MAX_LEVEL && AllPatched(t, nodes, at, w, 0)
    requires |dirty| == MAX_LEVEL && |children| == MAX_LEVEL + 1 && Recorded(t, at, 0, at[0], dirty, children)
    requires AllThreaded(t, nodes, at, w, e)
    modifies nodes
    ensures AllPatched(t, nodes, at, w, levels + 1) && AllThreaded(t, nodes, at, w, e)
  {
    var i := raiseTo + 1;
    forall p, j | 0 <= p < |t| && 0 <= j < |t[p]|
      ensures Patched(t, at, w, i, p, j)
    {
      assert Patched(t, at, w, 0, p, j);
    }
    while i <= levels
      invariant raiseTo + 1 <= i <= levels + 1
      invariant AllPatched(t, nodes, at, w, i) && AllThreaded(t, nodes, at, w, e)
    {
      BumpSpan(i, dirty[i], t, s, nodes, at, w, e);
      i := i + 1;
    }
  }

  method BumpSpan(i: nat, place: SkipNode,
                  ghost t: seq<seq<SkipNode>>, ghost s: seq<Entry>, ghost nodes: set<object>,
                  ghost at: seq<nat>, ghost w: seq<SkipNode>, ghost e: Entry)
    requires |t| == |s| + 1 && Identity(t, s) && Distinct(s) && Owned(t, nodes) && InPlace(t, at)
    requires |w| <= i < |at| && place == t[at[i]][i] && AllPatched(t, nodes, at, w, i)
    requires AllThreaded(t, nodes, at, w, e)
    modifies place
    ensures AllPatched(t, nodes, at, w, i + 1) && AllThreaded(t, nodes, at, w, e)
  {
    place.children := place.children + 1;
    ghost var k := i + 1;
    forall p, j | 0 <= p < |t| && 0 <= j < |t[p]|
      ensures Patched(t, at, w, k, p, j)
    {
      assert old(Patched(t, at, w, i, p, j));
      if t[p][j] == place { SamePlace(t, s, p, j, at[i], i); }
    }
    forall j | 0 <= j < |w|
      ensures w[j] !in nodes && Threaded(t, at, w, e, j)
    {
      assert old(Threaded(t, at, w, e, j));
    }
  }

  // ----- the threaded structure is linked up exactly when the places are the predecessors -----

  /** The recorded place on level i is the predecessor of the new position. */
  ghost predicate RightPlace(t: seq<seq<SkipNode>>, at: seq<nat>, i: nat)
    requires i < |at| && |t| > 0 && i < |t[0]| && at[0] < |t|
  {
    at[i] == PredPos(t, at[0], i)
  }

  lemma LinkedBefore(t: seq<seq<SkipNode>>, at: seq<nat>, w: seq<SkipNode>, p: nat, i: nat)
    requires InPlace(t, at) && 0 < |w| <= |at| && p <= at[0] < |t| && i < |t[p]| && i < |at| && i < |t[0]|
    requires Patched(t, at, w, |at|, p, i) && RightPlace(t, at, i)
    ensures InsertTower(t, at[0], w)[p][i] == t[p][i] && Linked(InsertTower(t, at[0], w), p, i)
  {
    var r := at[0];
    var t' := InsertTower(t, r, w);
    InsertTowerAt(t, r, w);
    NextPosBeforeInserted(t, r, w, p, i);
    PredPosIs(t, r, i, p);
    var n := NextPos(t, p, i);
    assert n < |t| ==> i < |t[n]|;
  }

  lemma LinkedThere(t: seq<seq<SkipNode>>, at: seq<nat>, w: seq<SkipNode>, e: Entry, i: nat)
    requires InPlace(t, at) && i < |w| <= |at| && at[0] < |t| && i < |t[0]|
    requires Threaded(t, at, w, e, i) && RightPlace(t, at, i)
    ensures InsertTower(t, at[0], w)[at[0] + 1] == w && Linked(InsertTower(t, at[0], w), at[0] + 1, i)
  {
    var r := at[0];
    InsertTowerAt(t, r, w);
    PredPosIs(t, r, i, at[i]);
    NextPosOfPred(t, r, i, at[i]);
    NextPosOfInserted(t, r, w, i);
  }

  lemma LinkedAfter(t: seq<seq<SkipNode>>, at: seq<nat>, w: seq<SkipNode>, p: nat, i: nat)
    requires InPlace(t, at) && 0 < |w| <= |at| && at[0] < p < |t| && i < |t[p]|
    requires Patched(t, at, w, |at|, p, i)
    ensures InsertTower(t, at[0], w)[p + 1][i] == t[p][i] && Linked(InsertTower(t, at[0], w), p + 1, i)
  {
    var r := at[0];
    InsertTowerAt(t, r, w);
    NextPosAfterInserted(t, r, w, p, i);
  }

  /** A wrong place leaves a node of its level with a span that does not fit. */
  lemma WrongPlaceBreaks(t: seq<seq<SkipNode>>, at: seq<nat>, w: seq<SkipNode>, i: nat)
    requires InPlace(t, at) && 0 < |w| <= |at| && i < |at| && i < |t[0]|
    requires Patched(t, at, w, |at|, at[i], i) && !RightPlace(t, at, i)
    ensures InsertTower(t, at[0], w)[at[i]][i] == t[at[i]][i] && !Linked(InsertTower(t, at[0], w), at[i], i)
  {
    var r := at[0];
    InsertTowerAt(t, r, w);
    NextPosBeforeInserted(t, r, w, at[i], i);
    PredPosIs(t, r, i, at[i]);
  }

  ghost predicate AllRight(t: seq<seq<SkipNode>>, at: seq<nat>)
    requires |t| > 0 && 0 < |at| <= |t[0]| && at[0] < |t|
  {
    forall i {:trigger RightPlace(t, at, i)} :: 0 <= i < |at| ==> RightPlace(t, at, i)
  }

  lemma RightIsLinked(t: seq<seq<SkipNode>>, nodes: set<object>, at: seq<nat>, w: seq<SkipNode>, e: Entry,
                      levels: nat, nodes': set<object>)
    requires Towers(t, levels) && |at| == levels + 1 && InPlace(t, at) && 0 < |w| <= |at| && Owned(t, nodes)
    requires AllPatched(t, nodes, at, w, |at|) && AllThreaded(t, nodes, at, w, e)
    requires Owned(InsertTower(t, at[0], w), nodes') && AllRight(t, at)
    ensures AllLinked(InsertTower(t, at[0], w), nodes')
  {
    var r := at[0];
    var t' := InsertTower(t, r, w);
    InsertTowerAt(t, r, w);
    forall p, i | 0 <= p < |t'| && 0 <= i < |t'[p]|
      ensures Linked(t', p, i)
    {
      if p <= r {
        assert Patched(t, at, w, |at|, p, i) && RightPlace(t, at, i);
        LinkedBefore(t, at, w, p, i);
      } else if p == r + 1 {
        assert w[i] !in nodes && RightPlace(t, at, i);
        LinkedThere(t, at, w, e, i);
      } else {
        var q := p - 1;
        assert Patched(t, at, w, |at|, q, i);
        LinkedAfter(t, at, w, q, i);
      }
    }
  }

  lemma LinkedIsRight(t: seq<seq<SkipNode>>, nodes: set<object>, at: seq<nat>, w: seq<SkipNode>, levels: nat,
                      nodes': set<object>)
    requires Towers(t, levels) && |at| == levels + 1 && InPlace(t, at) && 0 < |w| <= |at| && Owned(t, nodes)
    requires AllPatched(t, nodes, at, w, |at|)
    requires Owned(InsertTower(t, at[0], w), nodes') && AllLinked(InsertTower(t, at[0], w), nodes')
    ensures AllRight(t, at)
  {
    var t' := InsertTower(t, at[0], w);
    InsertTowerAt(t, at[0], w);
    forall i | 0 <= i < |at|
      ensures RightPlace(t, at, i)
    {
      assert Patched(t, at, w, |at|, at[i], i);
      assert Linked(t', at[i], i);
      if !RightPlace(t, at, i) { WrongPlaceBreaks(t, at, w, i); }
    }
  }

  // ----- the parts of the structure that hold at whatever place the tower lands -----

  lemma IdentityInserted(t: seq<seq<SkipNode>>, s: seq<Entry>, nodes: set<object>, at: seq<nat>, w: seq<SkipNode>,
                         e: Entry)
    requires |t| == |s| + 1 && Identity(t, s) && InPlace(t, at) && 0 < |w| <= |at|
    requires AllThreaded(t, nodes, at, w, e)
    ensures Identity(InsertTower(t, at[0], w), InsertAt(s, at[0], e))
  {
    var r := at[0];
    var t': seq<seq<SkipNode>>, s' := InsertTower(t, r, w), InsertAt(s, r, e);
    InsertTowerAt(t, r, w);
    forall p, i | 0 <= p < |t'| && 0 <= i < |t'[p]|
      ensures Stands(t', s', p, i)
    {
      if p <= r {
        assert Stands(t, s, p, i) && (p > 0 ==> s'[p - 1] == s[p - 1]);
      } else if p == r + 1 {
        assert t'[p][i] == w[i] && s'[p - 1] == e;
      } else {
        var q := p - 1;
        assert Stands(t, s, q, i) && s'[p - 1] == s[q - 1];
      }
    }
  }

  /** The table maps each member to the top of its tower. */
  ghost predicate TableOf(table: map<string, SkipNode>, t: seq<seq<SkipNode>>, s: seq<Entry>)
    requires |t| == |s| + 1
  {
    forall p {:trigger t[p]} :: 0 < p < |t| ==>
      |t[p]| > 0 && s[p - 1].member in table && table[s[p - 1].member] == t[p][|t[p]| - 1]
  }

  /** The table has exactly the members. */
  ghost predicate KeysOf(table: map<string, SkipNode>, s: seq<Entry>) {
    forall m {:trigger m in table} {:trigger Has(s, m)} :: m in table <==> Has(s, m)
  }

  lemma KeysInserted(table: map<string, SkipNode>, s: seq<Entry>, r: nat, e: Entry, top: SkipNode)
    requires KeysOf(table, s) && r <= |s|
    ensures KeysOf(table[e.member := top], InsertAt(s, r, e))
  {
    forall m
      ensures m in table[e.member := top] <==> Has(InsertAt(s, r, e), m)
    {
      HasInsertAt(s, r, e, m);
    }
  }

  lemma KeysRemoved(table: map<string, SkipNode>, s: seq<Entry>, r: nat)
    requires KeysOf(table, s) && Distinct(s) && r < |s|
    ensures KeysOf(table - {s[r].member}, RemoveAt(s, r))
  {
    forall m
      ensures m in table - {s[r].member} <==> Has(RemoveAt(s, r), m)
    {
      HasRemoveAt(s, r, m);
    }
  }

  lemma TableInserted(table: map<string, SkipNode>, t: seq<seq<SkipNode>>, s: seq<Entry>, r: nat, w: seq<SkipNode>,
                      e: Entry)
    requires |t| == |s| + 1 && TableOf(table, t, s) && r < |t| && |w| > 0
    requires !Has(s, e.member)
    ensures TableOf(table[e.member := w[|w| - 1]], InsertTower(t, r, w), InsertAt(s, r, e))
  {
    var t': seq<seq<SkipNode>>, s' := InsertTower(t, r, w), InsertAt(s, r, e);
    InsertTowerAt(t, r, w);
    forall p | 0 < p < |t'|
      ensures |t'[p]| > 0 && s'[p - 1].member in table[e.member := w[|w| - 1]]
      ensures table[e.member := w[|w| - 1]][s'[p - 1].member] == t'[p][|t'[p]| - 1]
    {
      if p == r + 1 {
        assert s'[p - 1] == e;
      } else {
        var q := if p <= r then p else p - 1;
        assert t'[p] == t[q] && s'[p - 1] == s[q - 1];
        HasAt(s, q - 1);
      }
    }
  }

  lemma TableRaised(table: map<string, SkipNode>, t: seq<seq<SkipNode>>, t1: seq<seq<SkipNode>>, s: seq<Entry>)
    requires |t| == |s| + 1 == |t1| && t1 == t[0 := t1[0]] && TableOf(table, t, s)
    ensures TableOf(table, t1, s)
  {
    assert forall p :: 0 < p < |t1| ==> t1[p] == t[p];
  }

  lemma OwnedInserted(t: seq<seq<SkipNode>>, nodes: set<object>, r: nat, w: seq<SkipNode>)
    requires Owned(t, nodes) && r < |t|
    ensures Owned(InsertTower(t, r, w), nodes + (set n | n in w :: n as object))
  {
    var t' := InsertTower(t, r, w);
    InsertTowerAt(t, r, w);
    forall p, i | 0 <= p < |t'| && 0 <= i < |t'[p]|
      ensures t'[p][i] in nodes + (set n | n in w :: n as object)
    {
      if p == r + 1 {
        assert t'[p][i] in w;
      } else {
        assert t'[p][i] == t[if p <= r then p else p - 1][i];
      }
    }
  }

  // ----- from the recorded places to the tie-break -----

  lemma RaisedPred<T>(t: seq<seq<T>>, t1: seq<seq<T>>, levels: nat, r: nat, i: nat)
    requires Towers(t, levels) && |t1| == |t| && t[0] <= t1[0] && t1 == t[0 := t1[0]] && r < |t| && i < |t1[0]|
    ensures PredPos(t1, r, i) == if i <= levels then PredPos(t, r, i) else 0
  {
    var p := PredPos(t1, r, i);
    assert forall q :: 0 < q < |t| ==> t1[q] == t[q];
    if i <= levels {
      var q := PredPos(t, r, i);
      assert !Lower(t, p, i) && !Lower(t1, q, i);
      assert !Lower(t1, p, i) && !Lower(t, q, i);
    } else {
      assert i < |t1[p]|;
    }
  }

  lemma RaisedRight(t: seq<seq<SkipNode>>, t1: seq<seq<SkipNode>>, at0: seq<nat>, c: nat, levels: nat, levels1: nat)
    requires Towers(t, levels) && |at0| == levels + 1 && levels <= levels1 && at0[0] < |t| && c < |t|
    requires |t1| == |t| && t[0] <= t1[0] && t1 == t[0 := t1[0]] && |t1[0]| == levels1 + 1
    ensures AllRight(t1, Padded(at0, levels1)) && at0[0] == c <==>
            forall i :: 0 <= i <= levels ==> at0[i] == PredPos(t, c, i)
  {
    var at := Padded(at0, levels1);
    assert PredPos(t, c, 0) == c by { assert !Lower(t, c, 0); }
    if at0[0] == c {
      forall i | 0 <= i <= levels1
        ensures RightPlace(t1, at, i) <==> (i <= levels ==> at0[i] == PredPos(t, c, i))
      {
        RaisedPred(t, t1, levels, c, i);
      }
    }
  }

  /** The places found are all right, and the bottom one is the sorted place, exactly when the
      search was removal's or insertion's tie-break is harmless. */
  lemma {:induction false} PlacesRight(t: seq<seq<SkipNode>>, t1: seq<seq<SkipNode>>, s: seq<Entry>, e: Entry,
                                       rule: TieRule, levels: nat, levels1: nat)
    requires Towers(t, levels) && |t| == |s| + 1 && WellFormed(s) && !Has(s, e.member)
    requires |t1| == |t| && t[0] <= t1[0] && t1 == t[0 := t1[0]] && |t1[0]| == levels1 + 1 && levels <= levels1
    ensures var at0 := Places(t, s, e, rule, levels);
      && at0[0] < |t|
      && (AllRight(t1, Padded(at0, levels1)) && at0[0] == Cut(s, e) <==>
        rule.NextKey? || TieIsHarmless(t, s, e, levels))
  {
    var at0 := Places(t, s, e, rule, levels);
    RaisedRight(t, t1, at0, Cut(s, e), levels, levels1);
    if rule.NextKey? {
      forall i | 0 <= i <= levels
        ensures at0[i] == PredPos(t, Cut(s, e), i)
      {
        DescendNextKey(t, s, e, levels, i);
      }
    } else {
      TieBreakExact(t, s, e, levels);
      assert forall i :: 0 <= i <= levels ==> (FindsPred(t, s, e, levels, i) <==> at0[i] == PredPos(t, Cut(s, e), i));
    }
  }

  /** Before anything is threaded in, the patched links are the links. */
  lemma LinkedIsPatched(t: seq<seq<SkipNode>>, nodes: set<object>, at: seq<nat>)
    requires Owned(t, nodes) && AllLinked(t, nodes)
    ensures AllPatched(t, nodes, at, [], 0)
  {
    forall p, i | 0 <= p < |t| && 0 <= i < |t[p]|
      ensures Patched(t, at, [], 0, p, i)
    {
      assert Linked(t, p, i);
    }
  }

  /** The new tower, then the spans above it: ds/skiplist.c:190-204. */
  method ThreadIn(e: Entry, raiseTo: nat, levels: nat, dirty: seq<SkipNode?>, children: seq<int>,
                  ghost t: seq<seq<SkipNode>>, ghost s: seq<Entry>, ghost nodes: set<object>, ghost at: seq<nat>)
    returns (top: SkipNode, ghost w: seq<SkipNode>)
    requires |t| == |s| + 1 && Identity(t, s) && Distinct(s) && Owned(t, nodes) && AllLinked(t, nodes) && InPlace(t, at)
    requires raiseTo < |at| == levels + 1 <= MAX_LEVEL
    requires |dirty| == MAX_LEVEL && |children| == MAX_LEVEL + 1 && Recorded(t, at, 0, at[0], dirty, children)
    modifies nodes
    ensures |w| == raiseTo + 1 && fresh(w) && top == w[raiseTo]
    ensures AllPatched(t, nodes, at, w, |at|) && AllThreaded(t, nodes, at, w, e)
  {
    LinkedIsPatched(t, nodes, at);
    top, w := ThreadTower(e, raiseTo, dirty, children, t, s, nodes, at);
    BumpSpans(raiseTo, levels, dirty, t, s, nodes, at, w, children, e);
  }

  /** Search, raise the head, thread the tower in and bump the spans above it:
      ds/skiplist.c:159-204. */
  method Thread(e: Entry, rule: TieRule, raiseTo: nat, head: SkipNode, size: nat, levels: nat,
                ghost t: seq<seq<SkipNode>>, ghost s: seq<Entry>, ghost nodes: set<object>)
    returns (top: SkipNode, head': SkipNode, levels': nat,
             ghost t1: seq<seq<SkipNode>>, ghost nodes1: set<object>, ghost at: seq<nat>, ghost w: seq<SkipNode>)
    requires Searchable(t, s, levels, nodes) && Distinct(s) && size == |s| && head == t[0][levels]
    requires raiseTo < MAX_LEVEL && Plain(e.member)
    modifies nodes
    ensures levels' == if levels < raiseTo then raiseTo else levels
    ensures |t1| == |t| && t[0] <= t1[0] && t1 == t[0 := t1[0]]
    ensures Towers(t1, levels') && Identity(t1, s) && Owned(t1, nodes1) && head' == t1[0][levels']
    ensures nodes <= nodes1 && fresh(nodes1 - nodes)
    ensures at == Padded(Places(t, s, e, rule, levels), levels') && InPlace(t1, at)
    ensures |w| == raiseTo + 1 && fresh(w) && top == w[raiseTo]
    ensures AllPatched(t1, nodes1, at, w, |at|) && AllThreaded(t1, nodes1, at, w, e)
  {
    var dirty, children := FindPlaces(e, rule, head, levels, t, s, nodes);
    head', levels', dirty, children, t1, nodes1 :=
      RaiseHead(raiseTo, head, size, levels, dirty, children, t, s, nodes, Places(t, s, e, rule, levels));
    at := Padded(Places(t, s, e, rule, levels), levels');
    top, w := ThreadIn(e, raiseTo, levels', dirty, children, t1, s, nodes1, at);
  }

  lemma SkeletonInserted(t: seq<seq<SkipNode>>, s: seq<Entry>, nodes: set<object>, at: seq<nat>, w: seq<SkipNode>,
                         e: Entry, levels: nat, table: map<string, SkipNode>, nodes': set<object>)
    requires Towers(t, levels) && |t| == |s| + 1 && Identity(t, s) && Distinct(s) && Owned(t, nodes)
    requires |at| == levels + 1 && InPlace(t, at) && 0 < |w| <= |at| && AllThreaded(t, nodes, at, w, e)
    requires !Has(s, e.member) && KeysOf(table, s) && TableOf(table, t, s)
    requires nodes' == nodes + (set n | n in w :: n as object)
    ensures var t', s', table' := InsertTower(t, at[0], w), InsertAt(s, at[0], e), table[e.member := w[|w| - 1]];
      && Towers(t', levels) && t'[0] == t[0] && |t'| == |s'| + 1 && Identity(t', s') && Owned(t', nodes')
      && Distinct(s') && KeysOf(table', s') && TableOf(table', t', s')
      && RemoveTower(t', at[0] + 1) == t && t'[at[0] + 1] == w
  {
    InsertTowerAt(t, at[0], w);
    OwnedInserted(t, nodes, at[0], w);
    IdentityInserted(t, s, nodes, at, w, e);
    KeysInserted(table, s, at[0], e, w[|w| - 1]);
    DistinctInsertAt(s, at[0], e);
    TableInserted(table, t, s, at[0], w, e);
    RemoveUndoesInsertTower(t, at[0], w);
  }

  lemma {:induction false} LinkedInserted(t: seq<seq<SkipNode>>, t1: seq<seq<SkipNode>>, s: seq<Entry>,
                                          nodes: set<object>, at: seq<nat>, w: seq<SkipNode>, e: Entry, rule: TieRule,
                                          levels: nat, levels1: nat, nodes': set<object>)
    requires Towers(t, levels) && |t| == |s| + 1 && WellFormed(s) && !Has(s, e.member)
    requires |t1| == |t| && t[0] <= t1[0] && t1 == t[0 := t1[0]] && Towers(t1, levels1) && levels <= levels1
    requires at == Padded(Places(t, s, e, rule, levels), levels1) && InPlace(t1, at) && 0 < |w| <= |at|
    requires Owned(t1, nodes) && AllPatched(t1, nodes, at, w, |at|) && AllThreaded(t1, nodes, at, w, e)
    requires Owned(InsertTower(t1, at[0], w), nodes')
    ensures at[0] == Places(t, s, e, rule, levels)[0]
    ensures AllLinked(InsertTower(t1, at[0], w), nodes') && Sorted(InsertAt(s, at[0], e)) <==>
            rule.NextKey? || TieIsHarmless(t, s, e, levels)
    ensures rule.NextKey? ==> at[0] == Cut(s, e)
  {
    NotThere(s, e);
    SortedInsertAt(s, at[0], e);
    PlacesRight(t, t1, s, e, rule, levels, levels1);
    if AllRight(t1, at) { RightIsLinked(t1, nodes, at, w, e, levels1, nodes'); }
    if AllLinked(InsertTower(t1, at[0], w), nodes') { LinkedIsRight(t1, nodes, at, w, levels1, nodes'); }
  }

  /** What holds of the list's fields wherever a new tower was put. */
  ghost predicate SkeletonOf(head: SkipNode, size: nat, levels: nat, table: map<string, SkipNode>,
                             t: seq<seq<SkipNode>>, s: seq<Entry>, nodes: set<object>)
  {
    && Towers(t, levels) && levels < MAX_LEVEL
    && |t| == |s| + 1 && size == |s|
    && Identity(t, s) && Owned(t, nodes) && Distinct(s) && PlainMembers(s)
    && head == t[0][levels]
    && KeysOf(table, s) && TableOf(table, t, s)
  }

  /** t' is t with one more tower, of the given height, after position r, and perhaps more
      sentinels. */
  ghost predicate Grown<T>(t: seq<seq<T>>, t': seq<seq<T>>, r: nat, height: nat) {
    && r < |t| && |t'| == |t| + 1 && |t'[r + 1]| == height
    && t[0] <= t'[0] && RemoveTower(t', r + 1) == t[0 := t'[0]]
  }

  lemma PlainInserted(s: seq<Entry>, r: nat, e: Entry)
    requires PlainMembers(s) && r <= |s| && Plain(e.member)
    ensures PlainMembers(InsertAt(s, r, e))
  {
  }

  lemma PlainRemoved(s: seq<Entry>, r: nat)
    requires PlainMembers(s) && r < |s|
    ensures PlainMembers(RemoveAt(s, r))
  {
  }

  /** The state after threading, read as the list with one more tower. */
  lemma {:induction false} Inserted(t: seq<seq<SkipNode>>, t1: seq<seq<SkipNode>>, s: seq<Entry>, nodes: set<object>,
                                    at: seq<nat>, w: seq<SkipNode>, e: Entry, rule: TieRule, levels: nat,
                                    levels1: nat, table: map<string, SkipNode>, nodes': set<object>, r: nat)
    requires Towers(t, levels) && |t| == |s| + 1 && WellFormed(s) && !Has(s, e.member)
    requires |t1| == |t| && t[0] <= t1[0] && t1 == t[0 := t1[0]] && Towers(t1, levels1) && levels <= levels1 < MAX_LEVEL
    requires at == Padded(Places(t, s, e, rule, levels), levels1) && InPlace(t1, at) && 0 < |w| <= |at|
    requires Identity(t1, s) && Owned(t1, nodes) && AllPatched(t1, nodes, at, w, |at|) &&
      AllThreaded(t1, nodes, at, w, e)
    requires KeysOf(table, s) && TableOf(table, t, s) && PlainMembers(s) && Plain(e.member)
    requires nodes' == nodes + (set n | n in w :: n as object)
    requires r == Descend(t, s, e, rule, levels, 0)
    ensures at[0] == r
    ensures var t', s', table' := InsertTower(t1, r, w), InsertAt(s, r, e), table[e.member := w[|w| - 1]];
      && SkeletonOf(t1[0][levels1], |s| + 1, levels1, table', t', s', nodes')
      && Grown(t, t', r, |w|) && t'[r + 1] == w
      && (AllLinked(t', nodes') && Sorted(s') <==> rule.NextKey? || TieIsHarmless(t, s, e, levels))
    ensures rule.NextKey? ==> r == Cut(s, e)
  {
    TableRaised(table, t, t1, s);
    PlainInserted(s, r, e);
    SkeletonInserted(t1, s, nodes, at, w, e, levels1, table, nodes');
    LinkedInserted(t, t1, s, nodes, at, w, e, rule, levels, levels1, nodes');
  }

  // ----- ds/skiplist.c:243-258: taking a tower out -----

  /** A node of the towers t while tower k is taken out from level done upward. */
  ghost predicate Unpatched(t: seq<seq<SkipNode>>, at: seq<nat>, k: nat, done: nat, p: nat, i: nat)
    requires p < |t| && i < |t[p]| && k < |t|
    reads t[p][i]
  {
    var here := done <= i < |at| && p == at[i];
    && t[p][i].down == (if i > 0 then t[p][i - 1] else null)
    && t[p][i].next == NextNode(t, if here && i < |t[k]| then k else p, i)
    && t[p][i].children == NextPos(t, if here && i < |t[k]| then k else p, i) - p - (if here then 1 else 0)
  }

  ghost predicate AllUnpatched(t: seq<seq<SkipNode>>, nodes: set<object>, at: seq<nat>, k: nat, done: nat)
    requires Owned(t, nodes) && k < |t|
    reads nodes
  {
    forall p, i {:trigger Unpatched(t, at, k, done, p, i)} :: 0 <= p < |t| && 0 <= i < |t[p]| ==>
      Unpatched(t, at, k, done, p, i)
  }

  /** The node of tower k that the loop of ds/skiplist.c:245-253 holds when it comes to level i. */
  ghost function Held(t: seq<seq<SkipNode>>, k: nat, i: int): SkipNode?
    requires k < |t| && 0 < |t[k]|
  {
    if i < 0 then null else t[k][if i < |t[k]| then i else |t[k]| - 1]
  }

  /** The level's next node is of the tower exactly when the tower reaches the level. */
  lemma NextIsTower(t: seq<seq<SkipNode>>, s: seq<Entry>, k: nat, p: nat, i: nat)
    requires |t| == |s| + 1 && Identity(t, s) && Distinct(s) && 0 < k < |t|
    requires p < k && i < |t[p]| && i < |t[0]| && p == PredPos(t, k - 1, i)
    ensures k <= NextPos(t, p, i) && (i < |t[k]| <==> NextPos(t, p, i) == k)
    ensures NextNode(t, p, i) != null && NextNode(t, p, i).key == KeyAt(s, k) <==> i < |t[k]|
    ensures PlainMembers(s) && NextNode(t, p, i) != null ==> Plain(NextNode(t, p, i).key)
  {
    var n := NextPos(t, p, i);
    PredPosIs(t, k - 1, i, p);
    assert i < |t[k]| ==> !Lower(t, k, i);
    if n < |t| {
      assert Stands(t, s, n, i);
      if s[n - 1].member == s[k - 1].member { SameMember(s, n - 1, k - 1); }
    }
  }

  /** One level of the loop of ds/skiplist.c:245-253. */
  method UnthreadLevel(i: nat, place: SkipNode, node: SkipNode, key: string,
                       ghost t: seq<seq<SkipNode>>, ghost s: seq<Entry>, ghost nodes: set<object>,
                       ghost at: seq<nat>, ghost k: nat)
    returns (rest: SkipNode?)
    requires |t| == |s| + 1 && Identity(t, s) && Distinct(s) && Owned(t, nodes) && InPlace(t, at)
    requires PlainMembers(s) && 0 < k < |t| && key == KeyAt(s, k) && 0 < |t[k]| && i < |at| <= |t[0]| &&
      at[0] == k - 1 && RightPlace(t, at, i)
    requires place == t[at[i]][i] && node == Held(t, k, i)
    requires AllUnpatched(t, nodes, at, k, i + 1)
    modifies place
    ensures AllUnpatched(t, nodes, at, k, i)
    ensures rest == Held(t, k, i - 1)
  {
    ghost var done := i + 1;
    assert Unpatched(t, at, k, done, at[i], i);
    assert i < |t[k]| ==> Unpatched(t, at, k, done, k, i);
    NextIsTower(t, s, k, at[i], i);
    assert |t[k]| <= i ==> i > 0;
    if place.next != null && StrcmpSame(key, place.next.key) {
      place.children := place.children + node.children - 1;
      place.next := node.next;
      rest := node.down;
    } else {
      place.children := place.children - 1;
      rest := node;
    }
    forall p, j | 0 <= p < |t| && 0 <= j < |t[p]|
      ensures Unpatched(t, at, k, i, p, j)
    {
      assert old(Unpatched(t, at, k, done, p, j));
      if t[p][j] == place { SamePlace(t, s, p, j, at[i], i); }
    }
  }

  /** From the top level down: ds/skiplist.c:245-253. */
  method UnthreadTower(levels: nat, dirty: seq<SkipNode?>, node: SkipNode, key: string,
                       ghost t: seq<seq<SkipNode>>, ghost s: seq<Entry>, ghost nodes: set<object>,
                       ghost at: seq<nat>, ghost k: nat)
    requires |t| == |s| + 1 && Identity(t, s) && Distinct(s) && Owned(t, nodes) && InPlace(t, at)
    requires PlainMembers(s) && 0 < k < |t| && key == KeyAt(s, k) &&
      0 < |t[k]| <= |at| == levels + 1 == |t[0]| <= MAX_LEVEL
    requires at[0] == k - 1 && AllRight(t, at) && node == t[k][|t[k]| - 1]
    requires |dirty| == MAX_LEVEL && forall i :: 0 <= i <= levels ==> dirty[i] == t[at[i]][i]
    requires AllLinked(t, nodes)
    modifies nodes
    ensures AllUnpatched(t, nodes, at, k, 0)
  {
    var i: int := levels;
    var held: SkipNode? := node;
    ghost var done := levels + 1;
    forall p, j | 0 <= p < |t| && 0 <= j < |t[p]|
      ensures Unpatched(t, at, k, done, p, j)
    {
      assert Linked(t, p, j);
    }
    while i >= 0
      invariant -1 <= i <= levels && held == Held(t, k, i)
      invariant AllUnpatched(t, nodes, at, k, i + 1)
    {
      assert RightPlace(t, at, i);
      held := UnthreadLevel(i, dirty[i], held, key, t, s, nodes, at, k);
      i := i - 1;
    }
  }

  lemma UnlinkedBefore(t: seq<seq<SkipNode>>, at: seq<nat>, k: nat, p: nat, i: nat)
    requires 0 < k < |t| && p < k && i < |t[p]| && i < |t[0]| && i < |at| <= |t[0]| && at[0] == k - 1 && InPlace(t, at)
    requires Unpatched(t, at, k, 0, p, i) && RightPlace(t, at, i)
    ensures RemoveTower(t, k)[p][i] == t[p][i] && Linked(RemoveTower(t, k), p, i)
  {
    var u := RemoveTower(t, k);
    NextPosBeforeRemoved(t, k, p, i);
    PredPosIs(t, k - 1, i, p);
    var n := NextPos(u, p, i);
    RemovedAt(t, k, p);
    if n < |u| { RemovedAt(t, k, n); }
  }

  lemma UnlinkedAfter(t: seq<seq<SkipNode>>, at: seq<nat>, k: nat, p: nat, i: nat)
    requires 0 < k < p < |t| && i < |t[p]| && 0 < |at| && at[0] == k - 1 && InPlace(t, at)
    requires Unpatched(t, at, k, 0, p, i)
    ensures RemoveTower(t, k)[p - 1][i] == t[p][i] && Linked(RemoveTower(t, k), p - 1, i)
  {
    var u := RemoveTower(t, k);
    NextPosAfterRemoved(t, k, p, i);
    var n := NextPos(u, p - 1, i);
    RemovedAt(t, k, p - 1);
    if n < |u| { RemovedAt(t, k, n); }
  }

  /** With the tower gone every remaining node is linked up again. */
  lemma UnthreadedIsLinked(t: seq<seq<SkipNode>>, nodes: set<object>, at: seq<nat>, levels: nat, k: nat)
    requires Towers(t, levels) && Owned(t, nodes) && 0 < k < |t| && |at| == levels + 1 && InPlace(t, at)
    requires at[0] == k - 1 && AllRight(t, at) && AllUnpatched(t, nodes, at, k, 0)
    ensures Owned(RemoveTower(t, k), nodes) && AllLinked(RemoveTower(t, k), nodes)
  {
    var u := RemoveTower(t, k);
    forall p, i | 0 <= p < |u| && 0 <= i < |u[p]|
      ensures u[p][i] in nodes && Linked(u, p, i)
    {
      if p < k {
        assert u[p] == t[p];
        assert Unpatched(t, at, k, 0, p, i) && RightPlace(t, at, i);
        UnlinkedBefore(t, at, k, p, i);
      } else {
        var q := p + 1;
        assert u[p] == t[q];
        assert Unpatched(t, at, k, 0, q, i);
        UnlinkedAfter(t, at, k, q, i);
      }
    }
  }

  lemma IdentityRemoved(t: seq<seq<SkipNode>>, s: seq<Entry>, k: nat)
    requires |t| == |s| + 1 && Identity(t, s) && 0 < k < |t|
    ensures Identity(RemoveTower(t, k), RemoveAt(s, k - 1))
  {
    var u: seq<seq<SkipNode>>, s' := RemoveTower(t, k), RemoveAt(s, k - 1);
    forall p, i | 0 <= p < |u| && 0 <= i < |u[p]|
      ensures Stands(u, s', p, i)
    {
      var q := if p < k then p else p + 1;
      RemovedAt(t, k, p);
      assert p > 0 ==> s'[p - 1] == s[q - 1];
      assert Stands(t, s, q, i);
    }
  }

  lemma OwnedRemoved(t: seq<seq<SkipNode>>, nodes: set<object>, k: nat)
    requires Owned(t, nodes) && 0 < k < |t|
    ensures Owned(RemoveTower(t, k), nodes)
  {
    var u: seq<seq<SkipNode>> := RemoveTower(t, k);
    forall p, i | 0 <= p < |u| && 0 <= i < |u[p]|
      ensures u[p][i] in nodes
    {
      RemovedAt(t, k, p);
    }
  }

  lemma TableRemoved(table: map<string, SkipNode>, t: seq<seq<SkipNode>>, s: seq<Entry>, k: nat)
    requires |t| == |s| + 1 && Distinct(s) && TableOf(table, t, s) && 0 < k < |t|
    ensures TableOf(table - {s[k - 1].member}, RemoveTower(t, k), RemoveAt(s, k - 1))
  {
    var u: seq<seq<SkipNode>>, s' := RemoveTower(t, k), RemoveAt(s, k - 1);
    forall p | 0 < p < |u|
      ensures |u[p]| > 0 && s'[p - 1].member in table - {s[k - 1].member}
      ensures (table - {s[k - 1].member})[s'[p - 1].member] == u[p][|u[p]| - 1]
    {
      var q := if p < k then p else p + 1;
      RemovedAt(t, k, p);
      assert s'[p - 1] == s[q - 1];
      OtherMember(s, q - 1, k - 1);
    }
  }

  lemma TowersRemoved<T>(t: seq<seq<T>>, levels: nat, k: nat)
    requires Towers(t, levels) && 0 < k < |t|
    ensures Towers(RemoveTower(t, k), levels) && RemoveTower(t, k)[0] == t[0]
  {
    forall p | 0 < p < |t| - 1
      ensures 1 <= |RemoveTower(t, k)[p]| <= levels + 1
    {
      RemovedAt(t, k, p);
    }
  }

  lemma SkeletonRemoved(head: SkipNode, size: nat, levels: nat, table: map<string, SkipNode>,
                        t: seq<seq<SkipNode>>, s: seq<Entry>, nodes: set<object>, k: nat)
    requires SkeletonOf(head, size, levels, table, t, s, nodes) && WellFormed(s) && 0 < k < |t|
    ensures Sorted(RemoveAt(s, k - 1))
    ensures SkeletonOf(head, size - 1, levels, table - {s[k - 1].member}, RemoveTower(t, k), RemoveAt(s, k - 1), nodes)
  {
    RemoveAtWellFormed(s, k - 1);
    PlainRemoved(s, k - 1);
    KeysRemoved(table, s, k - 1);
    TowersRemoved(t, levels, k);
    IdentityRemoved(t, s, k);
    OwnedRemoved(t, nodes, k);
    TableRemoved(table, t, s, k);
  }

  /** What removal's search finds for an entry that is there. */
  lemma PlacesOfPresent(t: seq<seq<SkipNode>>, s: seq<Entry>, levels: nat, k: nat)
    requires Towers(t, levels) && |t| == |s| + 1 && WellFormed(s) && 0 < k < |t|
    ensures var at := Places(t, s, s[k - 1], NextKey, levels); at[0] == k - 1 && AllRight(t, at)
  {
    CutOfPresent(s, k - 1);
    var at := Places(t, s, s[k - 1], NextKey, levels);
    forall i | 0 <= i <= levels
      ensures at[i] == PredPos(t, k - 1, i)
    {
      DescendNextKey(t, s, s[k - 1], levels, i);
    }
    assert PredPos(t, k - 1, 0) == k - 1 by { assert !Lower(t, k - 1, 0); }
    forall i | 0 <= i < |at|
      ensures RightPlace(t, at, i)
    {
    }
  }

  /** Thread the tower in and see what list it makes. */
  method Place(e: Entry, rule: TieRule, raiseTo: nat, head: SkipNode, size: nat, levels: nat,
               table: map<string, SkipNode>, ghost t: seq<seq<SkipNode>>, ghost s: seq<Entry>, ghost nodes: set<object>)
    returns (top: SkipNode, head': SkipNode, levels': nat,
             ghost r: nat, ghost t': seq<seq<SkipNode>>, ghost nodes': set<object>)
    requires SkeletonOf(head, size, levels, table, t, s, nodes) && Sorted(s) && AllLinked(t, nodes)
    requires raiseTo < MAX_LEVEL && !Has(s, e.member) && Plain(e.member)
    modifies nodes
    ensures levels' == if levels < raiseTo then raiseTo else levels
    ensures nodes <= nodes' && fresh(nodes' - nodes)
    ensures r == Descend(t, s, e, rule, levels, 0)
    ensures SkeletonOf(head', size + 1, levels', table[e.member := top], t', InsertAt(s, r, e), nodes')
    ensures Grown(t, t', r, raiseTo + 1) && top == t'[r + 1][raiseTo]
    ensures AllLinked(t', nodes') && Sorted(InsertAt(s, r, e)) <==> rule.NextKey? || TieIsHarmless(t, s, e, levels)
    ensures rule.NextKey? ==> r == Cut(s, e)
  {
    ghost var t1, nodes1, at, w;
    top, head', levels', t1, nodes1, at, w := Thread(e, rule, raiseTo, head, size, levels, t, s, nodes);
    r := Descend(t, s, e, rule, levels, 0);
    nodes' := nodes1 + (set n | n in w :: n as object);
    Inserted(t, t1, s, nodes1, at, w, e, rule, levels, levels', table, nodes', r);
    t' := InsertTower(t1, r, w);
  }

  /** Search for a present entry and take its tower out: ds/skiplist.c:227-253. */
  method TakeOut(e: Entry, node: SkipNode, head: SkipNode, size: nat, levels: nat, table: map<string, SkipNode>,
                 ghost t: seq<seq<SkipNode>>, ghost s: seq<Entry>, ghost nodes: set<object>, ghost k: nat)
    returns (found: bool)
    requires SkeletonOf(head, size, levels, table, t, s, nodes) && Sorted(s) && AllLinked(t, nodes)
    requires 0 < k < |t| && s[k - 1] == e && node == t[k][|t[k]| - 1]
    modifies nodes
    ensures found && Owned(RemoveTower(t, k), nodes) && AllLinked(RemoveTower(t, k), nodes)
  {
    ghost var at := Places(t, s, e, NextKey, levels);
    PlacesOfPresent(t, s, levels, k);
    var dirty, children := FindPlaces(e, NextKey, head, levels, t, s, nodes);
    assert Linked(t, k - 1, 0) && Stands(t, s, k, 0);
    assert RightPlace(t, at, 0);
    NextIsTower(t, s, k, k - 1, 0);
    var tmp := dirty[0].next;
    found := tmp != null && e.score == tmp.score && StrcmpSame(tmp.key, e.member);
    if found {
      UnthreadTower(levels, dirty, node, e.member, t, s, nodes, at, k);
      UnthreadedIsLinked(t, nodes, at, levels, k);
    }
  }

  class SkipList {
    var head: SkipNode
    var size: nat
    var levels: nat
    var table: map<string, SkipNode>
    ghost var towers: seq<seq<SkipNode>>
    ghost var entries: seq<Entry>
    ghost var nodes: set<object>

    /** What holds wherever a new tower was put. */
    ghost predicate Skeleton()
      reads this
    {
      this !in nodes && SkeletonOf(head, size, levels, table, towers, entries, nodes)
    }

    ghost predicate Valid()
      reads this, nodes
    {
      Skeleton() && Sorted(entries) && AllLinked(towers, nodes)
    }

    constructor ()
      ensures Valid() && fresh(nodes)
      ensures entries == [] && levels == 0
    {
      var sentinel := new SkipNode(SENTINEL_KEY, DOUBLE_MIN, 0, true);
      head := sentinel;
      size, levels, table := 0, 0, map[];
      towers, entries := [[sentinel]], [];
      nodes := {sentinel};
      new;
    }

    /** The list's own fields; no node changes. */
    method Adopt(head: SkipNode, size: nat, levels: nat, table: map<string, SkipNode>,
                 ghost t: seq<seq<SkipNode>>, ghost s: seq<Entry>, ghost nodes: set<object>)
      requires this !in nodes && Owned(t, nodes)
      modifies this
      ensures this.head == head && this.size == size && this.levels == levels && this.table == table
      ensures towers == t && entries == s && this.nodes == nodes
      ensures AllLinked(t, nodes) == old(AllLinked(t, nodes))
    {
      this.head, this.size, this.levels, this.table := head, size, levels, table;
      towers, entries, this.nodes := t, s, nodes;
    }

    /** Insertion (ds/skiplist.c:155-208) at any height, with either tie-break.  The new pair lands
        after the bottom place of the search and its tower is threaded in; the list is valid
        afterwards if and only if the tie-break is removal's or is harmless here. */
    method AddNode(key: string, score: real, raiseTo: nat, rule: TieRule)
      returns (top: SkipNode, ghost r: nat)
      requires Valid() && raiseTo < MAX_LEVEL && key !in table && Plain(key)
      modifies this, nodes
      ensures fresh(nodes - old(nodes)) && Skeleton()
      ensures levels == if old(levels) < raiseTo then raiseTo else old(levels)
      ensures r == old(Descend(towers, entries, Entry(score, key), rule, levels, 0)) <= old(|entries|)
      ensures entries == InsertAt(old(entries), r, Entry(score, key))
      ensures Grown(old(towers), towers, r, raiseTo + 1) && top == towers[r + 1][raiseTo]
      ensures rule.NextKey? ==> Valid() && entries == Insert(old(entries), Entry(score, key))
      ensures Valid() <==> (rule.NextKey? || old(TieIsHarmless(towers, entries, Entry(score, key), levels)))
    {
      var e := Entry(score, key);
      var newHead, newLevels;
      ghost var t', nodes';
      top, newHead, newLevels, r, t', nodes' :=
        Place(e, rule, raiseTo, head, size, levels, table, towers, entries, nodes);
      assert this !in nodes';
      Adopt(newHead, size + 1, newLevels, table[key := top], t', InsertAt(entries, r, e), nodes');
    }

    /** Removal (ds/skiplist.c:224-259) of a member whose tower top the table gives. */
    method RemoveNode(key: string, score: real, node: SkipNode?)
      requires Valid()
      requires node != null ==> key in table && table[key] == node && node.score == score
      modifies this, nodes
      ensures Valid() && nodes == old(nodes) && levels == old(levels)
      ensures node == null ==> towers == old(towers) && entries == old(entries) && table == old(table)
      ensures node != null ==>
        var k := IndexOf(old(entries), key);
        && k < |old(entries)| && entries == RemoveAt(old(entries), k) && towers == RemoveTower(old(towers), k + 1)
    {
      if node == null { return; }
      ghost var t, s := towers, entries;
      ghost var k := IndexOf(s, key) + 1;
      assert s[k - 1].member == key && t[k][|t[k]| - 1] == node;
      assert Stands(t, s, k, |t[k]| - 1);
      var e := Entry(score, key);
      assert s[k - 1] == e;
      SkeletonRemoved(head, size, levels, table, t, s, nodes, k);
      var found := TakeOut(e, node, head, size, levels, table, t, s, nodes, k);
      if found {
        Adopt(head, size - 1, levels, table - {key}, RemoveTower(t, k), RemoveAt(s, k - 1), nodes);
      }
    }
  }
}
