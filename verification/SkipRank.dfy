/** Rank and select: ds/skiplist.c:351-399, and the slices and counts that commands build on them. */
module SkipRank {
  import opened SortedSet
  import opened SkipShape
  import opened TieBreak
  import opened SkipList

  /** One level of rankByScore: walk on while the next score passes. */
  method RankLevel(from: SkipNode, score: real, inclusive: bool, count: nat,
                   ghost t: seq<seq<SkipNode>>, ghost s: seq<Entry>, ghost levels: nat, ghost nodes: set<object>,
                   ghost p: nat, ghost i: nat)
    returns (down: SkipNode?, rank: nat, ghost q: nat)
    requires Searchable(t, s, levels, nodes) && Sorted(s) && p < |t| && i < |t[p]| && from == t[p][i]
    requires count == p <= CountBelow(s, score, inclusive)
    ensures q <= CountBelow(s, score, inclusive) < NextPos(t, q, i) && q < |t| && i < |t[q]| && rank == q
    ensures down == (if i > 0 then t[q][i - 1] else null)
  {
    var tmp := from;
    rank, q := count, p;
    assert Linked(t, q, i);
    while tmp.next != null && (if inclusive then tmp.next.score <= score else tmp.next.score < score)
      invariant q < |t| && i < |t[q]| && tmp == t[q][i] && rank == q <= CountBelow(s, score, inclusive)
      invariant Linked(t, q, i)
      decreases |t| - q
    {
      ghost var n := NextPos(t, q, i);
      assert Stands(t, s, n, i) && Linked(t, n, i);
      rank := rank + tmp.children;
      tmp := tmp.next;
      q := n;
    }
    ghost var n := NextPos(t, q, i);
    if n < |t| { assert Stands(t, s, n, i); }
    down := tmp.down;
  }

  /** rankByScore counts the entries below the bound, or not above it. */
  method RankByScore(list: SkipList, score: real, inclusive: bool) returns (rank: nat)
    requires list.Valid()
    ensures rank == CountBelow(list.entries, score, inclusive)
  {
    rank := 0;
    var tmp: SkipNode? := list.head;
    var i: int := list.levels;
    ghost var t, s := list.towers, list.entries;
    ghost var p := 0;
    while i >= 0
      invariant -1 <= i <= list.levels && p < |t| && rank == p <= CountBelow(s, score, inclusive)
      invariant i >= 0 ==> i < |t[p]| && tmp == t[p][i]
      invariant i < 0 ==> CountBelow(s, score, inclusive) < NextPos(t, p, 0)
    {
      tmp, rank, p := RankLevel(tmp, score, inclusive, rank, t, s, list.levels, list.nodes, p, i);
      i := i - 1;
    }
    NextPosIs(t, p, 0, p + 1);
  }

  /** One level of rankByOrder: walk on while the spans do not pass pos. */
  method SelectLevel(from: SkipNode, pos: nat, start: nat,
                     ghost t: seq<seq<SkipNode>>, ghost s: seq<Entry>, ghost levels: nat,
                     ghost nodes: set<object>, ghost i: nat)
    returns (prev: SkipNode, tmp: SkipNode?, count: nat)
    requires Searchable(t, s, levels, nodes) && pos < |s| && start <= pos && i < |t[start]| && from == t[start][i]
    ensures count <= pos < NextPos(t, count, i) && i < |t[count]| && prev == t[count][i]
    ensures tmp == (if i > 0 then t[count][i - 1] else null)
  {
    prev, count := from, start;
    assert Linked(t, count, i);
    while prev.next != null && count + prev.children <= pos
      invariant count <= pos && i < |t[count]| && prev == t[count][i] && Linked(t, count, i)
      decreases |t| - count
    {
      ghost var n := NextPos(t, count, i);
      assert Linked(t, n, i);
      count := count + prev.children;
      prev := prev.next;
    }
    tmp := prev.down;
  }

  /** rankByOrder gives the bottom node of the entry at pos, and nothing when there is none. */
  method RankByOrder(list: SkipList, pos: int) returns (node: SkipNode?)
    requires list.Valid()
    ensures node == if 0 <= pos < |list.entries| then list.towers[pos + 1][0] else null
  {
    if pos >= list.size || pos < 0 { return null; }
    var i: int := list.levels;
    var count: nat := 0;
    var tmp: SkipNode? := list.head;
    var prev: SkipNode? := null;
    ghost var t, s := list.towers, list.entries;
    while i >= 0
      invariant -1 <= i <= list.levels && count <= pos
      invariant i >= 0 ==> i < |t[count]| && tmp == t[count][i]
      invariant i < 0 ==> pos < NextPos(t, count, 0) && prev == t[count][0]
    {
      prev, tmp, count := SelectLevel(tmp, pos, count, t, s, list.levels, list.nodes, i);
      i := i - 1;
    }
    NextPosIs(t, count, 0, count + 1);
    assert Linked(t, count, 0);
    node := prev.next;
  }
}
