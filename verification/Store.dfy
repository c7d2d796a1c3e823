/** What ds/hashtable.c does to its buckets, and the clocked map it stands for. */
module Store {
  import opened Decimal
  import opened SortedSet

  const BUCKETS := 2048
  /** 2036-08-28: the expiry of a key that was given none. */
  const DEFAULT_EXPIRY_MS := 2103541620316

  datatype Value =
    | Text(str: string)
    | Bits(words: seq<bv32>)
    | Scores(entries: seq<Entry>)

  datatype Cell = Cell(key: string, value: Value, expiry: nat)

  /** isExpired (ds/linkedlist.c:162-168): only strings expire. */
  predicate Expired(c: Cell, now: nat) {
    c.value.Text? && c.expiry < now
  }

  // ----- one bucket -----

  /** findNode: the first cell with the key; |b| when there is none. */
  function Find(b: seq<Cell>, key: string): (r: nat)
    ensures r <= |b|
    ensures r < |b| ==> b[r].key == key
    ensures forall i {:trigger b[i]} :: 0 <= i < r ==> b[i].key != key
  {
    if b == [] || b[0].key == key then 0 else 1 + Find(b[1..], key)
  }

  function CellAt(b: seq<Cell>, key: string): (c: Option<Cell>)
    ensures c.Some? ==> c.value.key == key
  {
    var i := Find(b, key);
    if i < |b| then Some(b[i]) else None
  }

  ghost predicate KeysApart(b: seq<Cell>, i: nat, j: nat)
    requires i < |b| && j < |b|
  {
    b[i].key != b[j].key
  }

  ghost predicate DistinctKeys(b: seq<Cell>) {
    forall i, j {:trigger KeysApart(b, i, j)} :: 0 <= i < j < |b| ==> KeysApart(b, i, j)
  }

  function Unlinked(b: seq<Cell>, i: nat): seq<Cell>
    requires i < |b|
  {
    b[..i] + b[i + 1..]
  }

  lemma {:induction false} FindIs(b: seq<Cell>, key: string, i: nat)
    requires i < |b| && b[i].key == key && forall j :: 0 <= j < i ==> b[j].key != key
    ensures Find(b, key) == i
  {
  }

  lemma {:induction false} FindFails(b: seq<Cell>, key: string)
    requires forall j :: 0 <= j < |b| ==> b[j].key != key
    ensures Find(b, key) == |b|
  {
  }

  lemma {:induction false} FindOnly(b: seq<Cell>, i: nat)
    requires DistinctKeys(b) && i < |b|
    ensures Find(b, b[i].key) == i
  {
    var r := Find(b, b[i].key);
    assert r < i ==> KeysApart(b, r, i);
  }

  /** Unlinking a cell takes away its key and nothing else. */
  lemma UnlinkSpec(b: seq<Cell>, i: nat, k: string)
    requires DistinctKeys(b) && i < |b|
    ensures DistinctKeys(Unlinked(b, i))
    ensures CellAt(Unlinked(b, i), k) == if k == b[i].key then None else CellAt(b, k)
  {
    var b' := Unlinked(b, i);
    forall x, y | 0 <= x < y < |b'|
      ensures KeysApart(b', x, y)
    {
      assert KeysApart(b, if x < i then x else x + 1, if y < i then y else y + 1);
    }
    var r := Find(b, k);
    FindOnly(b, i);
    if k == b[i].key {
      forall j | 0 <= j < |b'|
        ensures b'[j].key != k
      {
        assert if j < i then KeysApart(b, j, i) else KeysApart(b, i, j + 1);
      }
      FindFails(b', k);
    } else if r < |b| {
      FindIs(b', k, if r < i then r else r - 1);
    } else {
      FindFails(b', k);
    }
  }

  lemma {:induction false} AppendDistinct(b: seq<Cell>, c: Cell)
    requires DistinctKeys(b)
    ensures DistinctKeys(b + [c]) <==> Find(b, c.key) == |b|
  {
    var b' := b + [c];
    var f := Find(b, c.key);
    if f < |b| {
      assert !KeysApart(b', f, |b|);
    } else {
      forall x, y | 0 <= x < y < |b'|
        ensures KeysApart(b', x, y)
      {
        if y < |b| { assert KeysApart(b, x, y); }
      }
    }
  }

  /** Appending a cell is seen only by a key that was not there; the keys stay distinct if and only
      if this is such a key. */
  lemma {:induction false} AppendSpec(b: seq<Cell>, c: Cell, k: string)
    requires DistinctKeys(b)
    ensures DistinctKeys(b + [c]) <==> Find(b, c.key) == |b|
    ensures CellAt(b + [c], k) ==
      if CellAt(b, k).Some? then CellAt(b, k) else if k == c.key then Some(c) else None
  {
    AppendDistinct(b, c);
    var r := Find(b, k);
    if r < |b| {
      FindIs(b + [c], k, r);
    } else if k == c.key {
      FindIs(b + [c], k, |b|);
    } else {
      FindFails(b + [c], k);
    }
  }

  /** Writing a cell in place changes what its key shows. */
  lemma ReplaceSpec(b: seq<Cell>, i: nat, c: Cell, k: string)
    requires DistinctKeys(b) && i < |b| && c.key == b[i].key
    ensures DistinctKeys(b[i := c])
    ensures CellAt(b[i := c], k) == if k == c.key then Some(c) else CellAt(b, k)
  {
    var b' := b[i := c];
    forall x, y | 0 <= x < y < |b'|
      ensures KeysApart(b', x, y)
    {
      assert KeysApart(b, x, y);
    }
    FindOnly(b, i);
    var r := Find(b, k);
    if r < |b| { FindIs(b', k, r); } else { FindFails(b', k); }
  }

  // ----- the operations -----

  /** What setWithExpiry does with an expired node it finds: the shipped line frees it but leaves it
      linked (ds/hashtable.c:77-80); del shows the intended step. */
  datatype StaleRule = Leave | Unlink

  datatype Op =
    | Get(key: string)
    | Put(key: string, value: Value)
    | SetEx(key: string, str: string, ms: nat, nx: bool, xx: bool)
    | Del(key: string)

  datatype Answer =
    | Found(value: Option<Value>)
    | Done
    | Refused
    | Count(n: nat)

  /** setWithExpiry's expiry: a time to live of 0 stands for none. */
  function Deadline(ms: nat, now: nat): nat {
    if ms != 0 then ms + now else DEFAULT_EXPIRY_MS
  }

  /** get (ds/hashtable.c:23-34): an expired cell is unlinked on the way. */
  function GetB(b: seq<Cell>, key: string, now: nat): (Answer, seq<Cell>) {
    var i := Find(b, key);
    if i == |b| then (Found(None), b)
    else if Expired(b[i], now) then (Found(None), Unlinked(b, i))
    else (Found(Some(b[i].value)), b)
  }

  /** set (ds/hashtable.c:39-52): a replaced value keeps the old expiry. */
  function PutB(b: seq<Cell>, key: string, value: Value): (Answer, seq<Cell>) {
    var i := Find(b, key);
    if i < |b| then (Done, b[i := Cell(key, value, b[i].expiry)])
    else (Done, b + [Cell(key, value, DEFAULT_EXPIRY_MS)])
  }

  /** setWithExpiry (ds/hashtable.c:71-101). */
  function SetExB(b: seq<Cell>, key: string, str: string, ms: nat, nx: bool, xx: bool, now: nat,
                  rule: StaleRule): (Answer, seq<Cell>) {
    var i := Find(b, key);
    var c := Cell(key, Text(str), Deadline(ms, now));
    if i < |b| && !Expired(b[i], now) then
      if nx then (Refused, b) else (Done, b[i := c])
    else
      var b' := if i < |b| && rule.Unlink? then Unlinked(b, i) else b;
      if xx then (Refused, b') else (Done, b' + [c])
  }

  /** del (ds/hashtable.c:107-118): an expired cell goes too, but does not count. */
  function DelB(b: seq<Cell>, key: string, now: nat): (Answer, seq<Cell>) {
    var i := Find(b, key);
    if i == |b| then (Count(0), b)
    else (Count(if Expired(b[i], now) then 0 else 1), Unlinked(b, i))
  }

  /** setFromLoad (ds/hashtable.c:57-69): no look at what is there. */
  function LoadB(b: seq<Cell>, key: string, str: string, expiry: nat, now: nat): seq<Cell> {
    if expiry < now then b else b + [Cell(key, Text(str), expiry)]
  }

  function StepB(b: seq<Cell>, op: Op, now: nat, rule: StaleRule): (Answer, seq<Cell>) {
    match op
    case Get(key) => GetB(b, key, now)
    case Put(key, value) => PutB(b, key, value)
    case SetEx(key, str, ms, nx, xx) => SetExB(b, key, str, ms, nx, xx, now, rule)
    case Del(key) => DelB(b, key, now)
  }

  /** An operation on the whole store works on the bucket its key hashes to. */
  function Step(store: seq<seq<Cell>>, hash: string -> nat, op: Op, now: nat, rule: StaleRule): (Answer, seq<seq<Cell>>)
    requires hash(op.key) < |store|
  {
    var (answer, b) := StepB(store[hash(op.key)], op, now, rule);
    (answer, store[hash(op.key) := b])
  }

  function Loaded(store: seq<seq<Cell>>, hash: string -> nat, key: string, str: string, expiry: nat,
                  now: nat): seq<seq<Cell>>
    requires hash(key) < |store|
  {
    store[hash(key) := LoadB(store[hash(key)], key, str, expiry, now)]
  }

  function EmptyStore(): (store: seq<seq<Cell>>)
    ensures |store| == BUCKETS && forall h {:trigger store[h]} :: 0 <= h < BUCKETS ==> store[h] == []
  {
    seq(BUCKETS, _ => [])
  }

  // ----- the clocked map -----

  /** What a reader can tell of a cell at a time: nothing once it expired, and an expiry only for
      strings. */
  function Visible(c: Option<Cell>, now: nat): Option<Cell> {
    match c
    case None => None
    case Some(cell) =>
      if Expired(cell, now) then None
      else if cell.value.Text? then Some(cell)
      else Some(cell.(expiry := DEFAULT_EXPIRY_MS))
  }

  function MapAt(m: map<string, Cell>, k: string): Option<Cell> {
    if k in m then Some(m[k]) else None
  }

  predicate LiveAt(m: map<string, Cell>, k: string, now: nat) {
    k in m && !Expired(m[k], now)
  }

  /** The same operations on a map whose expired cells just stay there, unseen. */
  function Ideal(m: map<string, Cell>, op: Op, now: nat): (Answer, map<string, Cell>) {
    match op
    case Get(key) => (Found(if LiveAt(m, key, now) then Some(m[key].value) else None), m)
    case Put(key, value) => (Done, m[key := Cell(key, value, DEFAULT_EXPIRY_MS)])
    case SetEx(key, str, ms, nx, xx) =>
      if (if LiveAt(m, key, now) then nx else xx) then (Refused, m)
      else (Done, m[key := Cell(key, Text(str), Deadline(ms, now))])
    case Del(key) => (Count(if LiveAt(m, key, now) then 1 else 0), m - {key})
  }

  ghost predicate Hashing(hash: string -> nat) {
    forall k :: hash(k) < BUCKETS
  }

  ghost predicate WellHashed(store: seq<seq<Cell>>, hash: string -> nat) {
    |store| == BUCKETS && Hashing(hash)
  }

  ghost predicate BucketKept(b: seq<Cell>, hash: string -> nat, h: nat) {
    && DistinctKeys(b)
    && forall i {:trigger b[i]} :: 0 <= i < |b| ==> hash(b[i].key) == h
  }

  /** Each key sits at most once, and only in the bucket it hashes to. */
  ghost predicate WellKept(store: seq<seq<Cell>>, hash: string -> nat) {
    && |store| == BUCKETS && Hashing(hash)
    && forall h {:trigger BucketKept(store[h], hash, h)} :: 0 <= h < |store| ==> BucketKept(store[h], hash, h)
  }

  /** The bucket and the map show the same for a key. */
  ghost predicate ShowSame(b: seq<Cell>, m: map<string, Cell>, now: nat, k: string) {
    Visible(CellAt(b, k), now) == Visible(MapAt(m, k), now)
  }

  ghost predicate AgreesOn(store: seq<seq<Cell>>, m: map<string, Cell>, hash: string -> nat, now: nat, k: string)
    requires hash(k) < |store|
  {
    ShowSame(store[hash(k)], m, now, k)
  }

  /** Every key shows the same in the store and in the map. */
  ghost predicate Agrees(store: seq<seq<Cell>>, m: map<string, Cell>, hash: string -> nat, now: nat)
    requires WellKept(store, hash)
  {
    forall k {:trigger AgreesOn(store, m, hash, now, k)} :: AgreesOn(store, m, hash, now, k)
  }

  /** set is only ever called with a bitmap or a sorted set. */
  predicate Called(op: Op) {
    op.Put? ==> !op.value.Text?
  }

  /** The guard of the branch that goes wrong: setWithExpiry finds an expired node, which the shipped
      code frees and leaves in its list, whether or not it then adds one. */
  predicate FreesInPlace(b: seq<Cell>, op: Op, now: nat) {
    op.SetEx? && var i := Find(b, op.key); i < |b| && Expired(b[i], now)
  }

  lemma GetOrDelKeepsKeys(b: seq<Cell>, i: nat, hash: string -> nat, h: nat)
    requires BucketKept(b, hash, h) && i < |b|
    ensures BucketKept(Unlinked(b, i), hash, h)
  {
    UnlinkSpec(b, i, b[i].key);
  }

  lemma WriteKeepsKeys(b: seq<Cell>, c: Cell, hash: string -> nat, h: nat)
    requires BucketKept(b, hash, h) && hash(c.key) == h
    ensures BucketKept(b + [c], hash, h) <==> Find(b, c.key) == |b|
    ensures var i := Find(b, c.key);
      i < |b| ==> BucketKept(b[i := c], hash, h) && BucketKept(Unlinked(b, i) + [c], hash, h)
  {
    AppendSpec(b, c, c.key);
    var i := Find(b, c.key);
    if i < |b| {
      UnlinkSpec(b, i, c.key);
      ReplaceSpec(b, i, c, c.key);
      AppendSpec(Unlinked(b, i), c, c.key);
    }
  }

  /** Every operation leaves the keys of a bucket distinct, with one exception: it does so if and
      only if the shipped setWithExpiry does not add beside an expired node, as it does without XX. */
  lemma StepKeepsKeys(b: seq<Cell>, op: Op, now: nat, rule: StaleRule, hash: string -> nat, h: nat)
    requires BucketKept(b, hash, h) && hash(op.key) == h
    ensures BucketKept(StepB(b, op, now, rule).1, hash, h) <==>
      rule.Unlink? || !(FreesInPlace(b, op, now) && !op.xx)
  {
    var i := Find(b, op.key);
    if i < |b| { GetOrDelKeepsKeys(b, i, hash, h); }
    match op
    case Put(key, value) =>
      var expiry := if i < |b| then b[i].expiry else DEFAULT_EXPIRY_MS;
      WriteKeepsKeys(b, Cell(key, value, expiry), hash, h);
    case SetEx(key, str, ms, _, _) => WriteKeepsKeys(b, Cell(key, Text(str), Deadline(ms, now)), hash, h);
    case _ =>
  }

  lemma GetShows(b: seq<Cell>, m: map<string, Cell>, key: string, now: nat, k: string)
    requires DistinctKeys(b) && ShowSame(b, m, now, key) && ShowSame(b, m, now, k)
    ensures GetB(b, key, now).0 == Ideal(m, Get(key), now).0
    ensures ShowSame(GetB(b, key, now).1, m, now, k)
  {
    var i := Find(b, key);
    if i < |b| { UnlinkSpec(b, i, k); }
  }

  lemma DelShows(b: seq<Cell>, m: map<string, Cell>, key: string, now: nat, k: string)
    requires DistinctKeys(b) && ShowSame(b, m, now, key) && ShowSame(b, m, now, k)
    ensures DelB(b, key, now).0 == Ideal(m, Del(key), now).0
    ensures ShowSame(DelB(b, key, now).1, m - {key}, now, k)
  {
    var i := Find(b, key);
    if i < |b| { UnlinkSpec(b, i, k); }
  }

  lemma PutShows(b: seq<Cell>, m: map<string, Cell>, key: string, value: Value, now: nat, k: string)
    requires DistinctKeys(b) && !value.Text? && ShowSame(b, m, now, k)
    ensures ShowSame(PutB(b, key, value).1, m[key := Cell(key, value, DEFAULT_EXPIRY_MS)], now, k)
  {
    var i := Find(b, key);
    if i < |b| {
      ReplaceSpec(b, i, Cell(key, value, b[i].expiry), k);
    } else {
      AppendSpec(b, Cell(key, value, DEFAULT_EXPIRY_MS), k);
    }
  }

  /** A cell written over a live one, after an unlinked one or where there was none. */
  lemma {:induction false} WriteShows(b: seq<Cell>, m: map<string, Cell>, c: Cell, now: nat, k: string)
    requires DistinctKeys(b) && ShowSame(b, m, now, k)
    ensures var i := Find(b, c.key);
      if i < |b| then
        ShowSame(b[i := c], m[c.key := c], now, k) && ShowSame(Unlinked(b, i) + [c], m[c.key := c], now, k)
      else
        ShowSame(b + [c], m[c.key := c], now, k)
  {
    var i := Find(b, c.key);
    if i < |b| {
      ReplaceSpec(b, i, c, k);
      UnlinkSpec(b, i, k);
      AppendSpec(Unlinked(b, i), c, k);
    } else {
      AppendSpec(b, c, k);
    }
  }

  lemma SetExShows(b: seq<Cell>, m: map<string, Cell>, op: Op, now: nat, rule: StaleRule, k: string)
    requires DistinctKeys(b) && op.SetEx? && (rule.Unlink? || !FreesInPlace(b, op, now))
    requires ShowSame(b, m, now, op.key) && ShowSame(b, m, now, k)
    ensures StepB(b, op, now, rule).0 == Ideal(m, op, now).0
    ensures ShowSame(StepB(b, op, now, rule).1, Ideal(m, op, now).1, now, k)
  {
    var i := Find(b, op.key);
    WriteShows(b, m, Cell(op.key, Text(op.str), Deadline(op.ms, now)), now, k);
    if i < |b| { UnlinkSpec(b, i, k); }
    assert LiveAt(m, op.key, now) <==> i < |b| && !Expired(b[i], now);
  }

  /** One operation answers alike, and leaves alike what a key shows, in the bucket and the map. */
  lemma StepShows(b: seq<Cell>, m: map<string, Cell>, op: Op, now: nat, rule: StaleRule, k: string)
    requires DistinctKeys(b) && Called(op) && (rule.Unlink? || !FreesInPlace(b, op, now))
    requires ShowSame(b, m, now, op.key) && ShowSame(b, m, now, k)
    ensures StepB(b, op, now, rule).0 == Ideal(m, op, now).0
    ensures ShowSame(StepB(b, op, now, rule).1, Ideal(m, op, now).1, now, k)
  {
    match op
    case Get(key) => GetShows(b, m, key, now, k);
    case Put(key, value) => PutShows(b, m, key, value, now, k);
    case SetEx(_, _, _, _, _) => SetExShows(b, m, op, now, rule, k);
    case Del(key) => DelShows(b, m, key, now, k);
  }

  /** setFromLoad keeps the keys of a bucket distinct if and only if it drops what it is given, or
      the key is not there yet. */
  lemma {:induction false} LoadKeepsKeys(b: seq<Cell>, key: string, str: string, expiry: nat, now: nat,
                                         hash: string -> nat, h: nat)
    requires BucketKept(b, hash, h) && hash(key) == h
    ensures BucketKept(LoadB(b, key, str, expiry, now), hash, h) <==> expiry < now || Find(b, key) == |b|
  {
    WriteKeepsKeys(b, Cell(key, Text(str), expiry), hash, h);
  }

  lemma StepKeepsStore(store: seq<seq<Cell>>, hash: string -> nat, op: Op, now: nat, rule: StaleRule)
    requires WellKept(store, hash)
    ensures WellKept(Step(store, hash, op, now, rule).1, hash) <==>
      rule.Unlink? || !(FreesInPlace(store[hash(op.key)], op, now) && !op.xx)
  {
    var h := hash(op.key);
    var store' := Step(store, hash, op, now, rule).1;
    assert BucketKept(store[h], hash, h);
    StepKeepsKeys(store[h], op, now, rule, hash, h);
    assert BucketKept(store'[h], hash, h) <==> rule.Unlink? || !(FreesInPlace(store[h], op, now) && !op.xx);
    forall g | 0 <= g < |store'| && g != h
      ensures BucketKept(store'[g], hash, g)
    {
      assert BucketKept(store[g], hash, g);
    }
  }

  /** One operation refines the clocked map: same answer, and every key shows the same after it. */
  lemma StepRefines(store: seq<seq<Cell>>, m: map<string, Cell>, hash: string -> nat, op: Op, now: nat, rule: StaleRule)
    requires WellKept(store, hash) && Agrees(store, m, hash, now) && Called(op)
    requires rule.Unlink? || !FreesInPlace(store[hash(op.key)], op, now)
    ensures var (answer, store') := Step(store, hash, op, now, rule);
      var (expected, m') := Ideal(m, op, now);
      answer == expected && WellKept(store', hash) && Agrees(store', m', hash, now)
  {
    var h := hash(op.key);
    StepKeepsStore(store, hash, op, now, rule);
    assert BucketKept(store[h], hash, h) && AgreesOn(store, m, hash, now, op.key);
    StepShows(store[h], m, op, now, rule, op.key);
    var store', m' := Step(store, hash, op, now, rule).1, Ideal(m, op, now).1;
    forall k
      ensures AgreesOn(store', m', hash, now, k)
    {
      assert AgreesOn(store, m, hash, now, k);
      if hash(k) == h {
        StepShows(store[h], m, op, now, rule, k);
      }
    }
  }

  lemma VisibleLater(c: Option<Cell>, d: Option<Cell>, now: nat, later: nat)
    requires now <= later && Visible(c, now) == Visible(d, now)
    ensures Visible(c, later) == Visible(d, later)
  {
  }

  /** Time alone changes the store and the map alike. */
  lemma AgreesLater(store: seq<seq<Cell>>, m: map<string, Cell>, hash: string -> nat, now: nat, later: nat)
    requires WellKept(store, hash) && Agrees(store, m, hash, now) && now <= later
    ensures Agrees(store, m, hash, later)
  {
    forall k
      ensures AgreesOn(store, m, hash, later, k)
    {
      assert AgreesOn(store, m, hash, now, k);
      VisibleLater(CellAt(store[hash(k)], k), MapAt(m, k), now, later);
    }
  }

  /** Lazy deletion is never observed: a read that unlinks an expired cell leaves what every key
      shows, now and later, as it was. */
  lemma LazyDeletionUnseen(store: seq<seq<Cell>>, hash: string -> nat, key: string, now: nat, k: string, later: nat)
    requires WellKept(store, hash) && now <= later
    ensures var store' := Step(store, hash, Get(key), now, Leave).1;
      Visible(CellAt(store'[hash(k)], k), later) == Visible(CellAt(store[hash(k)], k), later)
  {
    var b := store[hash(key)];
    assert BucketKept(b, hash, hash(key));
    var i := Find(b, key);
    if i < |b| { UnlinkSpec(b, i, k); }
  }

  /** The shipped SET: when an expired node is found, the value just acknowledged is not there for
      the next reader, and the key sits in its bucket twice. */
  lemma ShippedSetLoses(b: seq<Cell>, key: string, str: string, ms: nat, nx: bool, now: nat)
    requires DistinctKeys(b) && FreesInPlace(b, SetEx(key, str, ms, nx, false), now)
    ensures var (answer, b') := StepB(b, SetEx(key, str, ms, nx, false), now, Leave);
      answer == Done && StepB(b', Get(key), now, Leave).0 == Found(None) && !DistinctKeys(b')
  {
    AppendSpec(b, Cell(key, Text(str), Deadline(ms, now)), key);
  }

  /** An accepted shipped SET is read back, at once, exactly when no expired node was found (unless
      the new value is itself past its expiry). */
  lemma ShippedSetExact(b: seq<Cell>, op: Op, now: nat)
    requires DistinctKeys(b) && op.SetEx? && StepB(b, op, now, Leave).0 == Done
    requires now <= Deadline(op.ms, now)
    ensures StepB(StepB(b, op, now, Leave).1, Get(op.key), now, Leave).0 == Found(Some(Text(op.str)))
            <==> !FreesInPlace(b, op, now)
  {
    var c := Cell(op.key, Text(op.str), Deadline(op.ms, now));
    AppendSpec(b, c, op.key);
    if Find(b, op.key) < |b| { ReplaceSpec(b, Find(b, op.key), c, op.key); }
  }

  /** A string set without a time to live is read back up to 2036-08-28 and not after it. */
  lemma DefaultExpires(b: seq<Cell>, op: Op, now: nat, rule: StaleRule, later: nat)
    requires DistinctKeys(b) && op.SetEx? && op.ms == 0 && StepB(b, op, now, rule).0 == Done
    requires rule.Unlink? || !FreesInPlace(b, op, now)
    ensures StepB(StepB(b, op, now, rule).1, Get(op.key), later, rule).0 ==
      Found(if later <= DEFAULT_EXPIRY_MS then Some(Text(op.str)) else None)
  {
    var c, i := Cell(op.key, Text(op.str), DEFAULT_EXPIRY_MS), Find(b, op.key);
    AppendSpec(b, c, op.key);
    if i < |b| {
      ReplaceSpec(b, i, c, op.key);
      UnlinkSpec(b, i, op.key);
      AppendSpec(Unlinked(b, i), c, op.key);
    }
  }

  /** A concrete run: SET a for 1 ms at time 10, and SET it again at time 20. */
  lemma StaleRun()
    ensures var set1 := SetExB([], "a", "1", 1, false, false, 10, Leave).1;
      var set2 := SetExB(set1, "a", "2", 0, false, false, 20, Leave).1;
      set2 == [Cell("a", Text("1"), 11), Cell("a", Text("2"), DEFAULT_EXPIRY_MS)]
      && GetB(set2, "a", 20) == (Found(None), [Cell("a", Text("2"), DEFAULT_EXPIRY_MS)])
  {
    var c, d := Cell("a", Text("1"), 11), Cell("a", Text("2"), DEFAULT_EXPIRY_MS);
    assert [] + [c] == [c] && [c] + [d] == [c, d];
    FindIs([c], "a", 0);
    FindIs([c, d], "a", 0);
    assert Unlinked([c, d], 0) == [d];
  }
}
