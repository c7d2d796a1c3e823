# exoredis, modelled and proved

exoredis is a small Redis clone in C.  This project models its data structures and protocol in
Dafny and proves what they do:

- the indexable skip list behind sorted sets, on heap nodes with towers, spans and a member table,
  for every choice of tower heights;
- the sorted-set commands, from the text of their arguments to their replies;
- the RESP reader and the array writer, and the space-separated reader;
- the store: doubly linked bucket lists with lazy expiry, whose nodes hold strings, bitmaps and skip
  lists, and whole runs of every command on it, against a plain map with a clock;
- the growable bitmap;
- SAVE and LOAD, from the store to bytes and back.

`dafny verify dfyconfig.toml` checks everything.

The files go from values to nodes.  `SortedSet`, `SkipShape`, `TieBreak`, `ZSpec`, `Resp`, `Words`,
`Decimal`, `Store`, `CommandSpec`, `CommandRuns`, `CommandLaws`, `Dump` and `Persistence` say what is computed
and prove properties of it; `CommandLaws` says what a client sees of each command, from argument text to
reply, without its parsers, on the clocked map that `Server.ServeFromStart` proves a run of the server to
answer like.  `SkipList`, `SkipRank`, `ZCommands`, `ZRuns`, `ArgList`, `Protocol`, `Bitmap`,
`ExoVal`, `LinkedList`, `HashTable`, `Keyspace`, `Commands`, `Server` and `SaveLoad` hold the loops and
the updates in place, each proved against those.

How the C code is read:

- A `string` is a byte buffer, one `char` a byte.  Scores are exact (`real`).
- Tower heights, the time and what lies behind a receive buffer are parameters, arbitrary wherever
  the code leaves them open.  The time is fixed within a command.
- `unsigned long` arithmetic that matters is modelled as such (RESP counts, lengths and the test for
  room); `int` and `long long` digit counters are machine integers, and the texts they can take are a
  precondition of the parsers (`DoubleFits`, `LongLongFits`), since overflow is undefined in C.
- A freed list node is marked and keeps its bytes; a table is `Alive` when no marked node can be
  reached in it.
- Insertion takes the tie-break as a parameter: `OwnKey` is the shipped line, `NextKey` is removal's.
  So does setWithExpiry its treatment of an expired node: `Leave` is the shipped line, `Unlink` is what
  del does.  Where a result needs the second of a pair, or a condition under the first, it says so.

## Findings

Where the code does something else than it is meant to, the code is modelled as it is and the exact
condition is proved.

- Insertion breaks ties by the key of the node it stands on, removal by the next node's key
  (`ds/skiplist.c:169` and `ds/skiplist.c:235`).  For given towers insertion leaves a valid list if and
  only if the tie is harmless (`TieBreak.TieBreakExact`, `SkipList.SkipList.AddNode`); it does so for
  every choice of heights if and only if the pair is safe (`TieBreak.SafeAtAnyHeightExact`), as it is
  when no other member has the score (`ZCommands.NoTieIsSafe`).  A failing list is
  `TieBreak.ShippedTieBreakFails`; the resulting order depends on the tower heights in
  `TieBreak.ShippedOrderDependsOnHeights`.  So what the runs of `ZRuns` and `Server` reply does not
  depend on heights with removal's tie-break, and with insertion's own one for runs whose pairs are safe.
- A restart puts sorted sets back in order, so with insertion's own tie-break it keeps a store at any
  heights if and only if all ties are above their leads (`TieBreak.SafeRebuildExact`,
  `Persistence.LoadUndoesSave`).  `ZADD k 1 b 1 a` makes a set it turns round: `ZCommands.TwoTiesMade`,
  `TieBreak.RebuildSwaps`.
- SET on a key whose value expired frees the node but leaves it linked (`ds/hashtable.c:77-80`), with XX
  as without.  A freed node can be reached afterwards if and only if an expired node was found
  (`HashTable.HashTable.SetWithExpiry`, `Commands.SetCommand`; over runs `Server.Serve`).  If the freed
  memory keeps its bytes, an accepted value is lost for the next reader, and the key is in its bucket
  twice, if and only if an expired node was found: `Store.StepKeepsKeys`, `Store.ShippedSetLoses`,
  `Store.ShippedSetExact`; an example is `Store.StaleRun`.
- Loading a string appends it without a look at what is there (`ds/hashtable.c:57-69`):
  `Store.LoadKeepsKeys` says exactly when the bucket stays well-formed.
- The skip list compares keys with `strcmp`, the tables with `memcmp`.  They agree for a key exactly
  when it has no NUL byte: `CStrings.StrcmpIsKeyOrder`.
- RESP counts and lengths are read modulo 2^64 (`Resp.CountsWrapAround`), and the test for room is a
  64-bit sum that a huge length passes (`server/protocol.c:77`): `Resp.RoomTest`, with an input in
  `Resp.LengthsWrapAround`.  `Resp.Overruns` is the guard; no well-formed request meets it
  (`Resp.EncodedStays`).
- A printed score is read back only with at most six decimals and an integer part below 2^31
  (`ds/utilities.c:379-386`, `ds/utilities.c:433`): `Decimal.ScoreRoundTrip`.
- INCR does not look at XX (`ds/skiplist.c:55`): `ZSpec.IncrIgnoresXX`.  CH counts changes only
  (`ds/skiplist.c:115`): `ZSpec.ChCountsChangesOnly`.  A switch given twice is counted once
  (`ds/skiplist.c:44-48`): `ZSpec.RepeatedSwitch`, and `ZSpec.RequestExact` says exactly when the scores
  and members are what follows the switches.
- INF is read as a score only behind a minus sign or another score: in front it is taken for a switch, and so
  is the member behind it, which is then added in upper case (`ds/commands.c:434-437`, `ds/utilities.c:342-350`):
  `ZSpec.InfUppersMember`.
- ZCOUNT on a missing key answers 0 whatever its bounds say (`ds/commands.c:318-320`):
  `CommandRuns.ZcountBounds`.  Strings set without a time to live expire on 2036-08-28
  (`ds/constants.h:14`): `Store.DefaultExpires`.

## Model

| member | source | states |
|---|---|---|
| CStrings.LessTotal | ds/skiplist.c:234-235 | the byte order of keys is total |
| CStrings.LessTransitive | ds/skiplist.c:234-235 | and transitive |
| CStrings.StrcmpIsKeyOrder | ds/skiplist.c:169 | a key is told by `strcmp` from every NUL-free key as `memcmp` tells it, if and only if it has no NUL; then it is ordered by bytes too |
| CStrings.StrcmpSeesDifferentKeysAsEqual | ds/skiplist.c:244 | two different keys that `strcmp` takes for one |
| SortedSet.InsertAtSpec | ds/skiplist.c:155-208 | inserting an absent member anywhere adds exactly its pair to the member-to-score map, and keeps the order if and only if the place is its cut |
| SortedSet.RemoveAtSpec | ds/skiplist.c:224-259 | removing an entry keeps the order and takes exactly that pair from the map |
| SortedSet.RemoveUndoesInsert | ds/skiplist.c:155-259 | insert and remove the same new member: the sequence is back |
| SortedSet.SortedUnique | ds/skiplist.c:155-259 | one member-to-score map has one sorted sequence |
| SortedSet.MapSize | ds/skiplist.c:206 | the size is the number of members |
| SkipShape.DescendNextKey | ds/skiplist.c:231-242 | removal's search stops, on every level, at the last node before the sorted place |
| TieBreak.TieBreakExact | ds/skiplist.c:162-177 | insertion's own search finds these places on all levels if and only if the tie is harmless |
| TieBreak.ShippedTieBreakFails | ds/skiplist.c:168-169 | a list and a tie for which it does not |
| TieBreak.ShippedOrderDependsOnHeights | ds/skiplist.c:168-169 | the same insertion into the same set, two places for two tower heights |
| TieBreak.SafeAtAnyHeightExact | ds/skiplist.c:168-169 | insertion's own tie-break goes right for every choice of tower heights, if and only if a condition on the entries alone holds: no tie, or the new member after all ties and every lead before them below it, or before all ties and no lead below it |
| TieBreak.SafeRebuildExact | ds/skiplist.c:168-169 | put back entry by entry in order under insertion's own tie-break, a set comes out as it was at any heights, if and only if every entry that ties with the one before it is above "sentinel" and every lower-scored member |
| TieBreak.RebuildSwaps | ds/skiplist.c:168-169 | the set a (1.0), b (1.0) comes out as b, a at any heights |
| SkipList.FindPlaces | ds/skiplist.c:162-177 | on every level the place where the search stops, and one more than its position |
| SkipList.RaiseHead | ds/skiplist.c:179-188 | new sentinels span the whole list; the old structure stays linked |
| SkipList.ThreadTower | ds/skiplist.c:190-201 | each node of the tower takes over the rest of the link and span it interrupts |
| SkipList.BumpSpans | ds/skiplist.c:202-204 | on the levels above the tower exactly one span grows by one |
| SkipList.RightIsLinked | ds/skiplist.c:190-204 | with the right places every link leads to the next tower of its level and every span is the distance to it |
| SkipList.LinkedIsRight | ds/skiplist.c:190-204 | and only with the right places |
| SkipList.SkipList.AddNode | ds/skiplist.c:155-208 | insertion at any height with either tie-break: where the pair lands, the new tower, levels and table; the list is valid afterwards if and only if the tie-break is removal's or harmless |
| SkipList.UnthreadTower | ds/skiplist.c:245-253 | from the top level down, towers reached and levels passed over are patched |
| SkipList.UnthreadedIsLinked | ds/skiplist.c:245-253 | without the tower every remaining node is linked and spans right again |
| SkipList.SkipList.RemoveNode | ds/skiplist.c:224-259 | removal of a present member keeps the whole invariant and takes out exactly its entry and its tower; nothing for no node |
| SkipRank.RankByScore | ds/skiplist.c:355-378 | the number of scores below, or not above, a bound |
| SkipRank.RankByOrder | ds/skiplist.c:380-399 | the node at a position, none outside the set |
| Decimal.Digits | ds/utilities.c:355-374 | the decimal text of a number reads back as the number |
| Decimal.StringToLongLong | ds/utilities.c:391-402 | the number a text of digits stands for, -1 for anything else or above LL_MAX, in a `long long` |
| Decimal.StringToLongDouble | ds/utilities.c:422-461 | the value of a decimal text, as the next rows say it, or of INF, and none for anything else, in `int` counters |
| Decimal.ReadExactly | ds/utilities.c:422-461 | a score text is read if and only if it is INF in any case, or digits with at most one point anywhere |
| Decimal.WholeText | ds/utilities.c:449-456 | digits stand for their number |
| Decimal.PointText | ds/utilities.c:437-461 | digits with a point among them stand for the number of all of them, over ten to the number of digits behind the point |
| Decimal.TrailingZero | ds/utilities.c:445-461 | a zero at the end of the fraction changes nothing |
| Decimal.OneAndAHalf | ds/utilities.c:445-461 | 1.5 is read as 1.5 |
| Decimal.MinusText | ds/skiplist.c:331-341 | a minus sign in front of a score negates it |
| Decimal.LowerNames | ds/utilities.c:342-350 | names and INF may be given in lower case |
| Decimal.CountersFit | ds/utilities.c:433-451 | up to 2^31 and nine decimals the three counters do not overflow |
| Decimal.ScoreRoundTrip | ds/utilities.c:379-461 | a score is printed as a text that is read without overflow and as the same score, if and only if it has at most six decimals and an integer part below 2^31 |
| ZSpec.StepRefinesMap | ds/skiplist.c:83-110 | one pair of a ZADD updates the member-to-score map by NX, XX or neither |
| ZSpec.FoldSpec | ds/skiplist.c:83-110 | a batch keeps the order and grows the set by exactly the number of inserts; XX inserts nothing, NX changes nothing, and without them the two add up to the batch |
| ZSpec.FoldMeaning | ds/skiplist.c:83-110 | which score a member ends with: the batch's last, its first under NX for an absent one, or its own |
| ZSpec.RanksCount | ds/commands.c:309-311 | two ranks give the number of scores within the bounds, for bounds in either order |
| ZSpec.RankOfSelected | ds/skiplist.c:355-399 | the score selected at a position has its ranks around that position, and equal to it when scores differ |
| ZSpec.CountedFrom | ds/commands.c:309-311 | the count between two bounds is the number of positions whose scores lie between them |
| ZSpec.ItemsAt | ds/commands.c:361-370 | the answer of a ZRANGE lists the members in order, each with its printed score behind it if that was asked for |
| ZSpec.PairsValid | ds/skiplist.c:322-349 | a batch is read if and only if every one of its scores is |
| ZSpec.PairsInOrder | ds/skiplist.c:322-349 | the pairs read are the arguments, in order |
| ZSpec.ZaddSafe | ds/skiplist.c:37-148 | a ZADD keeps the set in order and never shrinks it; an error or a null reply, and XX on an empty set, change nothing |
| ZSpec.RequestExact | ds/skiplist.c:37-66 | a ZADD asks to add exactly the arguments from the first one that looks like a score, if and only if each switch before it is known and given once, XX and NX not both, without INCR, and they are even in number; to increment by them, if and only if the same holds with INCR and they are one pair |
| ZSpec.RepeatedSwitch | ds/skiplist.c:44-48 | ZADD k CH CH with one pair is a syntax error |
| ZSpec.IncrIgnoresXX | ds/skiplist.c:53-58 | ZADD XX INCR brings in a member that is not there |
| ZSpec.ChCountsChangesOnly | ds/skiplist.c:115 | ZADD CH of one pair answers 1 for a member that was there and 0 for a new one, and writes it |
| ZSpec.ReplyIsGrowth | ds/skiplist.c:73-117 | without CH a ZADD of any batch answers how much the set has grown |
| ZSpec.ReplyIsChanges | ds/skiplist.c:73-117 | with CH it answers the number of pairs less that growth; under NX 0, under XX the number of pairs whose members the set has |
| ZSpec.IncrSays | ds/skiplist.c:122-148 | an increment answers, in print, the score that the member has afterwards: its old one, or 0, and what was added; no other score changes |
| ZSpec.ScoresLook | ds/commands.c:433-436 | numbers with or without point and minus sign end the switches; names and plus signs do not |
| ZSpec.InfUppersMember | ds/commands.c:429-450 | ZADD k INF m adds m in upper case |
| ZCommands.NoTieIsHarmless | ds/skiplist.c:168-169 | when no other member has the new score both tie-breaks search the same way |
| ZCommands.NoTieIsSafe | ds/skiplist.c:168-169 | and then insertion's own goes right at any heights |
| ZCommands.TwoTiesMade | ds/skiplist.c:83-110 | ZADD k 1 b 1 a makes the set a, b under insertion's own tie-break at any heights |
| ZCommands.ApplyPair | ds/skiplist.c:83-110 | one round on the skip list is one step of the specification, with its counters |
| ZCommands.ParseArgs | ds/skiplist.c:322-349 | all scores and members, or nothing |
| ZCommands.AddOrUpdateMember | ds/skiplist.c:73-117 | the batch on the skip list is the left fold of its pairs, for any heights, and the reply is the number of inserts, or of changes under CH; with insertion's own tie-break when each pair that is written is safe at any heights |
| ZCommands.ScoreIncrement | ds/skiplist.c:122-148 | INCR adds to the member's score, or to 0, and answers the sum; null under NX for a present member; tie-breaks as above |
| ZCommands.ParseSwitches | ds/commands.c:429-450 | the switches in front of the first score, and the arguments in upper case |
| ZCommands.Zadd | ds/skiplist.c:37-148 | ZADD on the skip list: reply and set are the specification's, for any heights, with removal's tie-break in insertion, or with its own one for safe pairs |
| ZCommands.Zcount | ds/commands.c:309-311 | the number of members with a score within the bounds |
| ZCommands.Zrange | ds/commands.c:350-370 | the slice of the sorted sequence, with or without scores; as items, `CommandLaws.ZrangeLists` |
| ZRuns.Run | ds/commands.c:245-372 | every run of ZADD, ZCOUNT, ZRANGE and ZCARD on nodes answers what the specification answers: with removal's tie-break in insertion always, with its own one when every pair written is safe |
| ZRuns.RunTwice | ds/skiplist.c:213-218 | two runs with any two streams of heights give equal replies and equal sets, under the same two conditions |
| ZRuns.InsertThenRemove | ds/skiplist.c:155-259 | restores every node, link and span; a raised level holds only its sentinel, with span size + 1; with removal's tie-break, or with insertion's own for a safe pair |
| ArgList.ArgList.Add | ds/utilities.c:151-165 | appends one string |
| Resp.TokensExact | server/protocol.c:29-95 | the reader accepts exactly the texts of the grammar, a header and as many length-prefixed strings as it announces and nothing else, and reads each as the list it encodes |
| Resp.ReadUndoesWrite | server/redisserver.c:220-239 | every list of byte strings, printed and read, comes back |
| Resp.WriterEncodes | server/redisserver.c:220-239 | what is printed is of the grammar |
| Resp.CountsWrapAround | server/protocol.c:97-112 | a header that announces 2^64 strings is taken for 0 |
| Resp.RoomTest | server/protocol.c:77 | the 64-bit test for room is the intended one if and only if the length does not get through by wrapping |
| Resp.LengthsWrapAround | server/protocol.c:73-83 | an input whose length does |
| Resp.EncodedStays | server/protocol.c:47-94 | no text of the grammar does |
| Protocol.GetRespInt | server/protocol.c:97-112 | the number at a place modulo 2^64, -1 without a line end after digits |
| Protocol.RespTokenizer | server/protocol.c:29-95 | the strings the reader function gives, NULL for none, on inputs that stay in the buffer |
| Protocol.WriteRespArray | server/redisserver.c:220-239 | appends the array's text |
| Protocol.SimpleTokenizer | server/protocol.c:126-153 | the words of a text |
| Protocol.BufferTokenizer | server/protocol.c:15-27 | the reader that the first byte asks for; NULL for nothing received |
| Words.RunsExact | server/protocol.c:131-150 | the runs found are exactly the maximal ones without space, CR, LF and NUL |
| Words.WordsAreRuns | server/protocol.c:145-149 | the words are these runs, in order |
| Words.RetokenizeSame | server/protocol.c:126-153 | tokenizing the tokens joined by a space changes nothing |
| Bitmap.MaskIsShifted | ds/bitmap.c:102-123 | the mask of a bit is `1 << bit_offset` |
| Bitmap.WordWithSpec | ds/bitmap.c:102-123 | writing one bit of a word changes no other |
| Bitmap.WithBitSpec | ds/bitmap.c:50-70 | a write is seen at its own position and no other, in old words and new ones |
| Bitmap.LastWriteShows | ds/bitmap.c:50-70 | after any run of writes every position shows its last write, or what it showed before |
| Bitmap.BitmapNode.Init | ds/bitmap.c:18-34 | a new bitmap with one bit written |
| Bitmap.BitmapNode.GetBit | ds/bitmap.c:39-45 | the bit at a position, 0 past the words |
| Bitmap.BitmapNode.Grow | ds/bitmap.c:60-64 | the old words, and zeros in exactly the new ones |
| Bitmap.BitmapNode.SetBit | ds/bitmap.c:50-70 | the words with the bit written; answers the bit before |
| LinkedList.ListNode.IsExpired | ds/linkedlist.c:162-168 | only strings expire, after their time |
| LinkedList.LinkedList.AddNode | ds/linkedlist.c:34-49 | appends, keeping links both ways and size |
| LinkedList.LinkedList.RemoveNode | ds/linkedlist.c:55-77 | takes out exactly that node, at either end, in the middle or alone |
| LinkedList.LinkedList.FindNode | ds/linkedlist.c:102-111 | the first node with the key, none if there is none |
| Store.UnlinkSpec | ds/hashtable.c:107-118 | unlinking a cell takes away its key and nothing else |
| Store.AppendSpec | ds/hashtable.c:45-50 | an appended cell shows only for a key that was not there; the keys stay distinct if and only if it is such a key |
| Store.ReplaceSpec | ds/linkedlist.c:117-132 | a cell written in place changes what its key shows and nothing else |
| Store.StepKeepsKeys | ds/hashtable.c:23-118 | get, set, setWithExpiry and del leave each key once in its bucket, if and only if no new node is added beside an expired one |
| Store.LoadKeepsKeys | ds/hashtable.c:57-69 | setFromLoad does if and only if it drops its value or the key is not there |
| Store.StepRefines | ds/hashtable.c:23-118 | each of these operations answers, and leaves every key showing, what a map with a clock does; as shipped unless setWithExpiry, with or without XX, finds an expired node |
| Store.LazyDeletionUnseen | ds/hashtable.c:27-30 | a read that deletes an expired cell changes nothing that any later read sees |
| Store.ShippedSetLoses | ds/hashtable.c:77-98 | after a SET beside an expired node the value is not found and the key is there twice |
| Store.ShippedSetExact | ds/hashtable.c:71-101 | an accepted SET is read back if and only if no expired node was found |
| Store.StaleRun | ds/hashtable.c:77-98 | an example in two SETs and a GET |
| Store.DefaultExpires | ds/constants.h:14 | a string set without a time to live is read back up to 2036-08-28 and not after it |
| HashTable.FindLive | ds/hashtable.c:75-80 | setWithExpiry's search: an expired node is freed, and no freed node stays in the list if and only if it is unlinked, as it is under the rule Unlink only |
| HashTable.HashTable.constructor | ds/hashtable.c:8-18 | 2048 empty buckets |
| HashTable.HashTable.Get | ds/hashtable.c:23-34 | on the bucket lists, exactly the specified step; other buckets stay, and no freed node becomes reachable |
| HashTable.HashTable.Set | ds/hashtable.c:39-52 | the same for set, and which node holds the value |
| HashTable.HashTable.SetFromLoad | ds/hashtable.c:57-69 | the same for setFromLoad |
| HashTable.HashTable.SetWithExpiry | ds/hashtable.c:71-101 | the same for setWithExpiry, as shipped or with the expired node unlinked; afterwards no freed node can be reached if and only if none was found expired, with or without XX, or it was unlinked |
| HashTable.HashTable.Remove | ds/hashtable.c:107-118 | the same for del |
| Keyspace.Keep | ds/hashtable.c:39-52 | putting a new bitmap or skip list: every node still holds the object its value is, and no two share one |
| Keyspace.AddToList | ds/commands.c:265-266 | a ZADD changes the skip list a node holds in place: reply and entries are the specification's, it is a put in the store, and every other value stays |
| Keyspace.SetBitOf | ds/bitmap.c:50-70 | so does a SETBIT with the bitmap a node holds |
| CommandRuns.DelAllSpec | ds/commands.c:136-150 | DEL counts the distinct live keys among its arguments; afterwards all of them are gone and no other key changed |
| CommandRuns.ExecRefines | ds/commands.c:76-372 | every command, with sorted sets in removal's order, replies, and leaves every key showing, what the clocked map does; as shipped unless a SET finds an expired node |
| CommandRuns.RunRefines | ds/commands.c:76-372 | so, with sorted sets in removal's order, does every run of commands under a clock that does not go back, and each key stays once in its bucket; as shipped unless a SET of the run finds an expired node |
| CommandRuns.ExecKeepsProper | ds/commands.c:245-271 | no command on the clocked map leaves an empty or disordered sorted set |
| CommandRuns.ExecProper | ds/commands.c:245-271 | nor on the buckets, under either rule for expired nodes |
| CommandRuns.RunProper | ds/commands.c:76-372 | nor does any run on buckets, from an empty store on |
| CommandRuns.ZaddAllOrNothing | ds/commands.c:245-271 | on the clocked map, a ZADD that answers an error or null, or only updates a missing set, changes nothing any key shows |
| CommandRuns.ZaddReadsOnly | ds/commands.c:245-271 | on the buckets, it does just what a read of its key does |
| CommandRuns.ZcountBounds | ds/commands.c:304-320 | ZCOUNT on a missing key answers 0 whatever its bounds are; on a set it is an error if and only if a bound is bad |
| CommandLaws.SetAnswers | ds/commands.c:96-130 | for options spelled in any case, number and order: NX refuses exactly a live key, XX exactly one that is not; a refused SET answers null and changes nothing, any other OK, but a time to live of 0 in all is an error |
| CommandLaws.SetThenGet | ds/commands.c:76-130 | a GET answers the string of an accepted SET up to the time of the SET plus 1000 times the last EX plus the last PX, each capped, or up to 2036-08-28 without them, and null afterwards |
| CommandLaws.SetErrors | ds/commands.c:493-537 | a SET is an error for its options, and changes nothing, if and only if its arguments spell none |
| CommandLaws.SetExThenGet | ds/commands.c:110-125 | EX n: up to n seconds after the SET |
| CommandLaws.SetPxThenGet | ds/commands.c:110-125 | PX n: up to n milliseconds after it |
| CommandLaws.SetBothThenGet | ds/commands.c:110-125 | EX and PX, in either order: up to their sum |
| CommandLaws.SetPlainThenGet | ds/commands.c:76-130 | a SET without options always stores, and a GET answers what it stored |
| CommandLaws.SetIfThenGet | ds/hashtable.c:71-101 | NX stores exactly when the key is not live, XX exactly when it is; else null, and nothing changed |
| CommandLaws.SetbitThenGetbit | ds/commands.c:176-239 | after SETBIT of 0 or 1 a GETBIT answers that bit at its own offset, and at any other what it answered before; SETBIT answers what a GETBIT just before it would |
| CommandLaws.GetbitMissing | ds/commands.c:186-197 | every bit of a missing key is 0 |
| CommandLaws.SetbitErrors | ds/commands.c:203-219 | an offset that is not digits up to OFFSET_MAX, and a bit that is neither 0 nor 1, is an error and changes nothing |
| CommandLaws.ZcardCounts | ds/commands.c:276-292 | ZCARD answers the number of members |
| CommandLaws.PrintedBound | ds/commands.c:543-573 | a printed score of six decimals below 2^31, given as a bound, is that score |
| CommandLaws.SignedBound | ds/commands.c:549-567 | minus in front of digits negates a bound, plus changes nothing, also behind a minus |
| CommandLaws.ZcountCounts | ds/commands.c:297-322 | ZCOUNT with printed bounds answers the number of positions whose scores lie between them, both included |
| CommandLaws.RangeMeans | ds/commands.c:350-354 | a ZRANGE lists the positions not before its left index and not behind its right one, where a negative index counts from the end |
| CommandLaws.ZrangeLists | ds/commands.c:327-372 | for indices written with or without a minus sign: the member at each of these positions, and with WITHSCORES in any case behind each of them a text that reads back as its score |
| CommandLaws.ZrangeErrors | ds/commands.c:455-491 | an index that is no number up to LL_MAX, or a fifth argument that is not WITHSCORES, is an error |
| CommandLaws.ZaddWrites | ds/commands.c:245-271 | ZADD of one pair: with NX it writes exactly a new member, with XX exactly an old one, otherwise any; the map of scores afterwards, and 1 for a new member, 0 otherwise |
| CommandLaws.ZaddIncrements | ds/commands.c:245-271 | ZADD INCR adds to the member's score, or to 0, and answers the score it has then; with NX a member that is there is left alone and the answer is null |
| CommandLaws.WrongKind | ds/commands.c:76-372 | on a live key with a value of another kind every reading command is an error and changes nothing |
| CommandLaws.OthersStay | ds/commands.c:76-372 | no command but FLUSHALL changes what a key holds that it does not name as one it writes |
| CommandLaws.ArityErrors | ds/commands.c:96-330 | too few arguments, or too many, are an error and change nothing |
| CommandLaws.FlushallEmpties | ds/commands.c:162-171 | after a FLUSHALL every key is missing |
| Commands.GetCommand | ds/commands.c:76-89 | the string, null, or the wrong type |
| Commands.ParseSetSwitches | ds/commands.c:493-537 | the switches of a SET and their values, or the error |
| Commands.SetCommand | ds/commands.c:96-130 | SET on the table is the specified command; afterwards no freed node can be reached if and only if it found no expired node, or unlinked it; what that is to a client, `CommandLaws.SetAnswers`, `CommandLaws.SetThenGet` |
| Commands.DelCommand | ds/commands.c:136-150 | DEL on the table is the specified command |
| Commands.FlushCommand | ds/commands.c:162-171 | an empty table |
| Commands.GetbitCommand | ds/commands.c:176-198 | GETBIT, on the bitmap in the table, is the specified command |
| Commands.SetbitCommand | ds/commands.c:203-239 | SETBIT, on the bitmap in the table or a new one, is the specified command; what that is to a client, `CommandLaws.SetbitThenGetbit` |
| Commands.PutFirst | ds/commands.c:262-269 | putting an empty set first, or the set before it is deleted when it is empty, is one step |
| Commands.ZaddCommand | ds/commands.c:245-271 | ZADD on the table and the skip list it holds is the specified command, for any heights, with removal's tie-break in insertion, or with its own one for safe pairs |
| Commands.ZcardCommand | ds/commands.c:276-292 | ZCARD, from the size of the skip list in the table, is the specified command |
| Commands.ParseBound | ds/commands.c:543-573 | one bound of a ZCOUNT; what that is to a client, `CommandLaws.PrintedBound`, `CommandLaws.SignedBound` |
| Commands.ParseIndex | ds/commands.c:455-481 | one index of a ZRANGE |
| Commands.ZcountCommand | ds/commands.c:297-322 | ZCOUNT, by two ranks in the skip list in the table, is the specified command; what that is to a client, `CommandLaws.ZcountCounts` |
| Commands.ZrangeCommand | ds/commands.c:327-372 | ZRANGE, along the skip list in the table, is the specified command; what that is to a client, `CommandLaws.ZrangeLists` |
| Server.Execute | ds/commands.c:76-372 | every command on the heap is the specified one, FLUSHALL going on with a new table; no freed node becomes reachable but by a SET that finds an expired one, as shipped |
| Server.Serve | ds/commands.c:76-372 | every run of commands on nodes, for any tower heights and under either tie-break and either rule for expired nodes (insertion's own tie-break for runs all of whose pairs are safe), replies and leaves what the specification does; no freed node can be reached if no SET finds an expired node, or the line is mended |
| Server.ServeFromStart | ds/commands.c:76-372 | from an empty table, such a run replies what a clocked map of plain sorted sequences replies, and every key shows the same in the end |
| Dump.BytesRoundTrip | ds/commands.c:583-583 | a number that fits its bytes is read back from them |
| Dump.FieldBack | ds/commands.c:587-588 | a length-prefixed field is read back, whatever follows |
| Dump.WordsFieldBack | ds/commands.c:615-618 | so are the words of a bitmap |
| Dump.RecordBack | ds/commands.c:578-655 | so is every record, by the code in front of it |
| Dump.ReadUndoesEncode | ds/commands.c:675-692 | a file of records is read as these records |
| Persistence.ReplayedZadd | ds/commands.c:733-775 | the ZADD that loading replays for a new member is read in full, answers 1 and adds the saved entry at its place in removal's order, if and only if the score has at most six decimals and fits an `int` |
| Persistence.EntrySafe | ds/commands.c:733-775 | insertion's own tie-break puts a replayed entry there at any heights, if and only if it is safe behind the entries before it |
| Persistence.LoadCell | ds/commands.c:698-789 | loading what was written for a cell appends it to its bucket, unless it expired; with insertion's own tie-break, if and only if the cell is not a sorted set with a tie that is not above the leads |
| Persistence.LoadUndoesSave | ds/commands.c:377-422 | the file of a store, read into an empty one, is taken to its end and makes every bucket what it was, in order, without the strings that expired by then: with removal's tie-break in insertion always; with its own one, at any heights, if and only if in every sorted set each entry that ties with the one before it is above "sentinel" and every lower-scored member |
| Persistence.LoadedShowsSame | ds/commands.c:377-422 | every key shows the same in the loaded store as in the saved one, from the time of loading on, and is once in its bucket |
| SaveLoad.WriteScores | ds/commands.c:621-655 | down the sentinels and along the bottom level of the skip list: a record for every entry, in order |
| SaveLoad.SaveCommand | ds/commands.c:377-414 | the loops over buckets, nodes and the objects they hold write the file of the store |
| SaveLoad.LoadRecord | ds/commands.c:698-789 | one record is applied to the table; an entry goes into the skip list there, at any height, with removal's tie-break or when it is safe |
| SaveLoad.LoadFromDb | ds/commands.c:657-696 | the loop applies the records one by one until one fails; with insertion's own tie-break, for files all of whose entries are safe |
| SaveLoad.Restart | ds/commands.c:377-422 | a table saved and loaded into a new one, for any heights of the new towers: every bucket as it was, without expired strings; with removal's tie-break in insertion always, with its own one when the ties of every sorted set are above the leads |

## Left out

- Sockets, libevent, the receive loop, signals, `main`, PING and the dispatch by command name: foreign
  I/O and constant plumbing.  So is the text of a reply that is not an array (`server/redisserver.c:182-213`).
- `malloc` failure, the garbage list, `dead` flags and who frees what, but for the nodes of the bucket
  lists.  What a read of a freed node gives in C is not modelled: it keeps its bytes here.
- SkipList.SkipList: the member table inside a skip list is a `map`; the hash table that stores it is
  proved on its own in `HashTable`.  The C arrays `dirty` and `children` are local sequences.
- SkipList.SkipList.AddNode: the key must have no NUL byte; with one, `strcmp` may take it for another
  (`CStrings.StrcmpIsKeyOrder`).  The same holds for every parsed argument.
- ZRuns.Run: with insertion's own tie-break only for runs whose pairs are safe, as Server.Serve.  After
  an insertion that some heights put out of order the list is not valid
  (`SkipList.SkipList.AddNode`), and what later commands do to it is not modelled.
- Persistence.LoadUndoesSave: with insertion's own tie-break, an entry that some heights put elsewhere
  counts as refused; the order that loading goes on with in C is not modelled.
- ZCommands.Zadd: asks for scores within the `int` counters of the parser and for arguments without NUL
  (`ZSpec.ZaddFits`); beyond them C leaves the overflow undefined, or sees only part of the argument.
- Decimal.StringToLongLong: asks for digits a `long long` can take, which the code multiplies before it
  tests; so do SETBIT, GETBIT, SET with EX or PX, and ZRANGE (`CommandSpec.Readable`).
- CommandRuns.RunRefines: reads numbers exactly, for texts of any length; the methods of `Commands` ask
  for texts the machine integers can take.
- Decimal.StringToLongDouble: exact arithmetic; rounding of `long double`, and of the division in
  `double`, is not modelled.  LDBL_MAX is some fixed number.
- Protocol.RespTokenizer: not for inputs whose announced length wraps the test for room, where the C
  code reads outside its buffer.
- The hash function is any function of the key below 2048.  The C one divides by the key's length
  (`ds/utilities.c:241`), so it has no value for the empty key, and reads a byte in front of the buffer
  (`ds/utilities.c:232`).
- SaveLoad.LoadFromDb: files that end in the middle of a record; the C code goes on with what its buffer
  held.  Opening, creating and closing files, and the fixed size of the buffers.
- SaveLoad.Restart: asks that lengths fit eight bytes and scores print exactly (`Persistence.Storable`);
  a run can leave that, by an INCR past 2^31 say.  That sets stay in order is `CommandRuns.RunProper`.
- Numbers in the file are little-endian, eight bytes for lengths and codes, four for bitmap words.
- Counters and sizes (`size`, `count`, spans) are unbounded; expiry sums do not wrap.
- printList, printSkipList, teardown functions and the Ruby tests.
