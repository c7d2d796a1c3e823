/** What the commands mean to a client of the clocked map, said without their parsers and plans. */
module CommandLaws {
  import opened Decimal
  import opened SortedSet
  import ZSpec
  import opened Bitmap
  import opened Store
  import opened CommandSpec
  import opened CommandRuns

  /** A run of two commands. */
  lemma {:induction false} TwoCommands(m: map<string, Cell>, a: Timed, b: Timed)
    ensures var (first, between) := IdealExec(m, a.cmd, a.now);
      var (second, end) := IdealExec(between, b.cmd, b.now);
      IdealExecAll(m, [a, b]) == ([first, second], end)
  {
    hide IdealExec;
    var (first, between) := IdealExec(m, a.cmd, a.now);
    var (second, end) := IdealExec(between, b.cmd, b.now);
    assert [b][1..] == [] && [a, b][1..] == [b];
    assert IdealExecAll(end, []) == ([], end);
    assert [second] + [] == [second];
    assert IdealExecAll(between, [b]) == ([second], end);
    assert [first] + [second] == [first, second];
  }

  // ----- GET and SET -----

  lemma GetReads(m: map<string, Cell>, k: string, now: nat)
    ensures IdealExec(m, GET(k), now).0 ==
      if !LiveAt(m, k, now) then ZSpec.Null
      else if m[k].value.Text? then ZSpec.Bulk(m[k].value.str) else WRONG_TYPE
  {
  }

  datatype SetOption = Ex(n: nat) | Px(n: nat) | Nx | Xx

  /** Digits, leading zeros included, of a number up to LL_MAX. */
  ghost predicate Writes(t: string, n: nat) {
    AllDigits(t) && NatOf(t) == n <= LL_MAX
  }

  /** The arguments behind the value of a SET give these options, in any case and any order. */
  ghost predicate Spells(texts: seq<string>, os: seq<SetOption>)
    decreases |os|
  {
    if os == [] then texts == []
    else
      match os[0]
      case Ex(n) => |texts| >= 2 && Upper(texts[0]) == "EX" && Writes(texts[1], n) && Spells(texts[2..], os[1..])
      case Px(n) => |texts| >= 2 && Upper(texts[0]) == "PX" && Writes(texts[1], n) && Spells(texts[2..], os[1..])
      case Nx => |texts| >= 1 && Upper(texts[0]) == "NX" && Spells(texts[1..], os[1..])
      case Xx => |texts| >= 1 && Upper(texts[0]) == "XX" && Spells(texts[1..], os[1..])
  }

  /** The last EX, and the last PX, that is given. */
  function LastEx(os: seq<SetOption>): Option<nat> {
    if os == [] then None
    else if LastEx(os[1..]).Some? then LastEx(os[1..])
    else if os[0].Ex? then Some(os[0].n) else None
  }

  function LastPx(os: seq<SetOption>): Option<nat> {
    if os == [] then None
    else if LastPx(os[1..]).Some? then LastPx(os[1..])
    else if os[0].Px? then Some(os[0].n) else None
  }

  function AtMostDefault(n: nat): nat {
    if n <= DEFAULT_EXPIRY_MS then n else DEFAULT_EXPIRY_MS
  }

  function Given(n: Option<nat>, otherwise: nat): nat {
    if n.Some? then AtMostDefault(n.value) else otherwise
  }

  /** The time to live that the options ask for, in milliseconds; None for none. */
  function TimeToLive(os: seq<SetOption>): Option<nat> {
    if LastEx(os).None? && LastPx(os).None? then None
    else Some(1000 * Given(LastEx(os), 0) + Given(LastPx(os), 0))
  }

  /** The switches that options add to others. */
  function With(sw: SetSwitches, os: seq<SetOption>): SetSwitches {
    SetSwitches(sw.ex || LastEx(os).Some?, Given(LastEx(os), sw.exValue), sw.px || LastPx(os).Some?,
      Given(LastPx(os), sw.pxValue), sw.nx || Nx in os, sw.xx || Xx in os)
  }

  lemma WithNext(sw: SetSwitches, os: seq<SetOption>)
    requires os != []
    ensures With(sw, os) ==
      With(match os[0]
           case Ex(n) => sw.(ex := true, exValue := Capped(n))
           case Px(n) => sw.(px := true, pxValue := Capped(n))
           case Nx => sw.(nx := true)
           case Xx => sw.(xx := true), os[1..])
  {
    assert os == [os[0]] + os[1..];
  }

  /** The parser reads the options that are spelled. */
  lemma {:induction false} ReadsOptions(args: seq<string>, i: nat, os: seq<SetOption>, sw: SetSwitches)
    requires i <= |args| && Spells(args[i..], os)
    ensures SwitchesFrom(args, i, sw) == Good(With(sw, os))
    decreases |os|
  {
    if os == [] {
    } else {
      WithNext(sw, os);
      match os[0]
      case Ex(n) =>
        assert args[i..][2..] == args[i + 2..];
        ReadsOptions(args, i + 2, os[1..], sw.(ex := true, exValue := Capped(n)));
      case Px(n) =>
        assert args[i..][2..] == args[i + 2..];
        ReadsOptions(args, i + 2, os[1..], sw.(px := true, pxValue := Capped(n)));
      case Nx =>
        assert args[i..][1..] == args[i + 1..];
        ReadsOptions(args, i + 1, os[1..], sw.(nx := true));
      case Xx =>
        assert args[i..][1..] == args[i + 1..];
        ReadsOptions(args, i + 1, os[1..], sw.(xx := true));
    }
  }

  /** The options a text spells, when the parser takes it. */
  lemma {:induction false} Spelled(args: seq<string>, i: nat, sw: SetSwitches) returns (os: seq<SetOption>)
    requires i <= |args| && SwitchesFrom(args, i, sw).Good?
    ensures Spells(args[i..], os)
    decreases |args| - i
  {
    if i == |args| { return []; }
    var name := Upper(args[i]);
    if name == "EX" || name == "PX" {
      var n := LongLongOf(args[i + 1]).value;
      var more := Spelled(args, i + 2,
        if name == "EX" then sw.(ex := true, exValue := Capped(n)) else sw.(px := true, pxValue := Capped(n)));
      assert args[i..][2..] == args[i + 2..];
      os := [if name == "EX" then Ex(n) else Px(n)] + more;
      assert os[1..] == more;
    } else {
      var more := Spelled(args, i + 1, if name == "NX" then sw.(nx := true) else sw.(xx := true));
      assert args[i..][1..] == args[i + 1..];
      os := [if name == "NX" then Nx else Xx] + more;
      assert os[1..] == more;
    }
  }

  /** SET's plan, from its options. */
  lemma {:induction false} SetPlanned(args: seq<string>, os: seq<SetOption>)
    requires 3 <= |args| <= 9 && Spells(args[3..], os)
    ensures var ttl := TimeToLive(os);
      SetPlanOf(args) ==
        if ttl == Some(0) then Answered(ZSpec.Error(INVALID_EXPIRE_TIME))
        else if Nx in os && Xx in os then Answered(ZSpec.Null)
        else Asked(SetEx(args[1], args[2], if ttl.Some? then ttl.value else 0, Nx in os, Xx in os))
  {
    ReadsOptions(args, 3, os, NO_SWITCHES);
  }

  /** NX refuses a live key and nothing else does; XX refuses a key that is not live.  A refused SET
      answers null and changes nothing, and any other one answers OK; but a time to live that comes to
      0 is an error, and changes nothing either. */
  lemma {:induction false} SetAnswers(m: map<string, Cell>, args: seq<string>, os: seq<SetOption>, now: nat)
    requires 3 <= |args| <= 9 && Spells(args[3..], os)
    ensures var (reply, m') := IdealExec(m, SET(args), now);
      var refused := if LiveAt(m, args[1], now) then Nx in os else Xx in os;
      if TimeToLive(os) == Some(0) then reply == ZSpec.Error(INVALID_EXPIRE_TIME) && m' == m
      else if refused then reply == ZSpec.Null && m' == m
      else reply == ZSpec.Ok
  {
    SetPlanned(args, os);
  }

  /** The string of an accepted SET is what a GET answers up to the time of the SET plus its time to
      live, or up to 2036-08-28 without one, and null afterwards.  EX counts in seconds, PX in
      milliseconds, and the two add up. */
  lemma {:induction false} SetThenGet(m: map<string, Cell>, args: seq<string>, os: seq<SetOption>, now: nat, later: nat)
    requires 3 <= |args| <= 9 && Spells(args[3..], os)
    requires IdealExec(m, SET(args), now).0 == ZSpec.Ok
    ensures var limit := if TimeToLive(os).Some? then now + TimeToLive(os).value else DEFAULT_EXPIRY_MS;
      IdealExecAll(m, [Timed(SET(args), now), Timed(GET(args[1]), later)]).0 ==
        [ZSpec.Ok, if later <= limit then ZSpec.Bulk(args[2]) else ZSpec.Null]
  {
    SetPlanned(args, os);
    TwoCommands(m, Timed(SET(args), now), Timed(GET(args[1]), later));
    GetReads(IdealExec(m, SET(args), now).1, args[1], later);
  }

  ghost predicate SpellsSome(texts: seq<string>) {
    exists os :: Spells(texts, os)
  }

  lemma {:induction false} SpellsExactly(args: seq<string>, sw: SetSwitches)
    requires 3 <= |args|
    ensures SpellsSome(args[3..]) <==> SwitchesFrom(args, 3, sw).Good?
  {
    if SwitchesFrom(args, 3, sw).Good? {
      var os := Spelled(args, 3, sw);
    } else if SpellsSome(args[3..]) {
      var os :| Spells(args[3..], os);
      ReadsOptions(args, 3, os, sw);
    }
  }

  /** A SET whose arguments spell no options is an error, and changes nothing; no other is refused for
      them. */
  lemma SetErrors(m: map<string, Cell>, args: seq<string>, now: nat)
    requires 3 <= |args| <= 9
    ensures var (reply, m') := IdealExec(m, SET(args), now);
      var bad := reply == ZSpec.Error(ZSpec.SYNTAX_ERROR) || reply == ZSpec.Error(VALUE_IS_NOT_AN_INTEGER);
      (bad <==> !SpellsSome(args[3..])) && (bad ==> m' == m)
  {
    hide SpellsSome;
    SpellsExactly(args, NO_SWITCHES);
    if !SpellsSome(args[3..]) { BadSwitches(args, 3, NO_SWITCHES); }
  }

  lemma {:induction false} BadSwitches(args: seq<string>, i: nat, sw: SetSwitches)
    requires i <= |args| && SwitchesFrom(args, i, sw).Bad?
    ensures SwitchesFrom(args, i, sw).code == ZSpec.SYNTAX_ERROR
      || SwitchesFrom(args, i, sw).code == VALUE_IS_NOT_AN_INTEGER
    decreases |args| - i
  {
    var name := Upper(args[i]);
    if name == "EX" || name == "PX" {
      if i + 1 < |args| && LongLongOf(args[i + 1]).Some? {
        var n := LongLongOf(args[i + 1]).value;
        BadSwitches(args, i + 2,
          if name == "EX" then sw.(ex := true, exValue := Capped(n)) else sw.(px := true, pxValue := Capped(n)));
      }
    } else if name == "NX" || name == "XX" {
      BadSwitches(args, i + 1, if name == "NX" then sw.(nx := true) else sw.(xx := true));
    }
  }

  lemma {:induction false} SpellsTimed(name: string, n: nat, os: seq<SetOption>, texts: seq<string>)
    requires n <= LL_MAX && (name == "EX" || name == "PX") && Spells(texts, os)
    ensures Spells([name, Digits(n)] + texts, [if name == "EX" then Ex(n) else Px(n)] + os)
  {
    assert Upper("EX") == "EX" && Upper("PX") == "PX";
    assert ([name, Digits(n)] + texts)[2..] == texts;
    assert ([if name == "EX" then Ex(n) else Px(n)] + os)[1..] == os;
  }

  /** EX in seconds, exactly. */
  lemma {:induction false} SetExThenGet(m: map<string, Cell>, k: string, v: string, n: nat, now: nat, later: nat)
    requires 0 < n <= DEFAULT_EXPIRY_MS
    ensures IdealExecAll(m, [Timed(SET(["SET", k, v, "EX", Digits(n)]), now), Timed(GET(k), later)]).0 ==
      [ZSpec.Ok, if later <= now + 1000 * n then ZSpec.Bulk(v) else ZSpec.Null]
  {
    SpellsTimed("EX", n, [], []);
    LoneOption(m, ["SET", k, v, "EX", Digits(n)], Ex(n), now, later);
  }

  /** PX in milliseconds. */
  lemma {:induction false} SetPxThenGet(m: map<string, Cell>, k: string, v: string, n: nat, now: nat, later: nat)
    requires 0 < n <= DEFAULT_EXPIRY_MS
    ensures IdealExecAll(m, [Timed(SET(["SET", k, v, "PX", Digits(n)]), now), Timed(GET(k), later)]).0 ==
      [ZSpec.Ok, if later <= now + n then ZSpec.Bulk(v) else ZSpec.Null]
  {
    SpellsTimed("PX", n, [], []);
    LoneOption(m, ["SET", k, v, "PX", Digits(n)], Px(n), now, later);
  }

  lemma {:induction false} LoneOption(m: map<string, Cell>, args: seq<string>, o: SetOption, now: nat, later: nat)
    requires |args| == 5 && Spells(args[3..], [o]) && (o.Ex? || o.Px?) && 0 < o.n <= DEFAULT_EXPIRY_MS
    ensures IdealExecAll(m, [Timed(SET(args), now), Timed(GET(args[1]), later)]).0 ==
      [ZSpec.Ok, if later <= now + (if o.Ex? then 1000 * o.n else o.n) then ZSpec.Bulk(args[2]) else ZSpec.Null]
  {
    var none: seq<SetOption> := [];
    assert [o][1..] == none && LastEx(none).None? && LastPx(none).None?;
    SetAnswers(m, args, [o], now);
    SetThenGet(m, args, [o], now, later);
  }

  /** EX and PX together, in either order: the sum. */
  lemma SetBothThenGet(m: map<string, Cell>, k: string, v: string, e: nat, p: nat, exFirst: bool, now: nat, later: nat)
    requires 0 < e <= DEFAULT_EXPIRY_MS && 0 < p <= DEFAULT_EXPIRY_MS
    ensures var ex, px := ["EX", Digits(e)], ["PX", Digits(p)];
      var args := ["SET", k, v] + if exFirst then ex + px else px + ex;
      IdealExecAll(m, [Timed(SET(args), now), Timed(GET(k), later)]).0 ==
        [ZSpec.Ok, if later <= now + 1000 * e + p then ZSpec.Bulk(v) else ZSpec.Null]
  {
    hide IdealExecAll, IdealExec, Spells;
    var ex, px := ["EX", Digits(e)], ["PX", Digits(p)];
    var args := ["SET", k, v] + if exFirst then ex + px else px + ex;
    var os := if exFirst then [Ex(e), Px(p)] else [Px(p), Ex(e)];
    SpellsBoth(e, p, exFirst);
    assert args[3..] == if exFirst then ex + px else px + ex;
    BothTimes(os);
    SetAnswers(m, args, os, now);
    SetThenGet(m, args, os, now, later);
  }

  lemma {:induction false} SpellsBoth(e: nat, p: nat, exFirst: bool)
    requires e <= LL_MAX && p <= LL_MAX
    ensures var ex, px := ["EX", Digits(e)], ["PX", Digits(p)];
      if exFirst then Spells(ex + px, [Ex(e), Px(p)]) else Spells(px + ex, [Px(p), Ex(e)])
  {
    if exFirst {
      SpellsTimed("PX", p, [], []);
      SpellsTimed("EX", e, [Px(p)], ["PX", Digits(p)]);
      assert [Ex(e)] + [Px(p)] == [Ex(e), Px(p)];
    } else {
      SpellsTimed("EX", e, [], []);
      SpellsTimed("PX", p, [Ex(e)], ["EX", Digits(e)]);
      assert [Px(p)] + [Ex(e)] == [Px(p), Ex(e)];
    }
  }

  lemma {:induction false} BothTimes(os: seq<SetOption>)
    requires |os| == 2 && ((os[0].Ex? && os[1].Px?) || (os[0].Px? && os[1].Ex?))
    ensures LastEx(os) == Some(if os[0].Ex? then os[0].n else os[1].n)
    ensures LastPx(os) == Some(if os[0].Px? then os[0].n else os[1].n)
  {
    var none: seq<SetOption> := [];
    assert LastEx(none).None? && LastPx(none).None?;
    assert os[1..] == [os[1]] && [os[1]][1..] == none;
    assert LastEx([os[1]]) == if os[1].Ex? then Some(os[1].n) else None;
    assert LastPx([os[1]]) == if os[1].Px? then Some(os[1].n) else None;
  }

  /** A plain SET always stores, and a GET answers what it stored. */
  lemma {:induction false} SetPlainThenGet(m: map<string, Cell>, k: string, v: string, now: nat, later: nat)
    ensures IdealExecAll(m, [Timed(SET(["SET", k, v]), now), Timed(GET(k), later)]).0 ==
      [ZSpec.Ok, if later <= DEFAULT_EXPIRY_MS then ZSpec.Bulk(v) else ZSpec.Null]
  {
    var none: seq<SetOption> := [];
    assert Spells([], none) && LastEx(none).None? && LastPx(none).None?;
    var args := ["SET", k, v];
    assert args[3..] == [];
    SetAnswers(m, args, none, now);
    SetThenGet(m, args, none, now, later);
  }

  /** NX stores exactly when the key is not live, XX exactly when it is. */
  lemma {:induction false} SetIfThenGet(m: map<string, Cell>, k: string, v: string, nx: bool, now: nat, later: nat)
    requires now <= later <= DEFAULT_EXPIRY_MS
    ensures var write := SET(["SET", k, v, if nx then "NX" else "XX"]);
      if LiveAt(m, k, now) == nx then IdealExec(m, write, now) == (ZSpec.Null, m)
      else IdealExecAll(m, [Timed(write, now), Timed(GET(k), later)]).0 == [ZSpec.Ok, ZSpec.Bulk(v)]
  {
    assert Upper("NX") == "NX" && Upper("XX") == "XX";
    var args := ["SET", k, v, if nx then "NX" else "XX"];
    var os := [if nx then Nx else Xx];
    assert os[1..] == [] && args[3..] == [if nx then "NX" else "XX"];
    assert args[3..][1..] == [];
    assert LastEx(os[1..]).None? && LastPx(os[1..]).None?;
    SetAnswers(m, args, os, now);
    if LiveAt(m, k, now) != nx { SetThenGet(m, args, os, now, later); }
  }

  // ----- GETBIT and SETBIT -----

  /** The key has a bitmap, or nothing. */
  predicate HasBits(m: map<string, Cell>, k: string, now: nat) {
    LiveAt(m, k, now) ==> m[k].value.Bits?
  }

  function WordsAt(m: map<string, Cell>, k: string, now: nat): seq<bv32>
    requires HasBits(m, k, now)
  {
    if LiveAt(m, k, now) then m[k].value.words else []
  }

  lemma {:induction false} OffsetDigits(p: nat)
    ensures OffsetOf(Digits(p)) == if p <= OFFSET_MAX then Some(p) else None
  {
  }

  lemma {:induction false} GetbitReads(m: map<string, Cell>, k: string, q: nat, now: nat)
    requires HasBits(m, k, now) && q <= OFFSET_MAX
    ensures IdealExec(m, GETBIT(k, Digits(q)), now) == (BitReply(Bit(WordsAt(m, k, now), q)), m)
  {
    hide Digits, LongLongOf;
    OffsetDigits(q);
  }

  lemma {:induction false} SetbitWrites(m: map<string, Cell>, k: string, p: nat, bit: nat, now: nat)
    requires HasBits(m, k, now) && p <= OFFSET_MAX && bit < 2
    ensures var words := WordsAt(m, k, now);
      IdealExec(m, SETBIT(k, Digits(p), if bit == 1 then "1" else "0"), now) ==
        (BitReply(Bit(words, p)), m[k := Cell(k, Bits(WithBit(words, p, bit == 1)), DEFAULT_EXPIRY_MS)])
  {
    hide Digits, LongLongOf, WithBit;
    OffsetDigits(p);
    assert "1"[0] == '1' && "0"[0] == '0';
  }

  /** A bit that is written is read back, at its own offset and at no other: a GETBIT anywhere else
      answers what it answered before.  SETBIT itself answers what a GETBIT just before it would. */
  lemma {:induction false} SetbitThenGetbit(m: map<string, Cell>, k: string, p: nat, bit: nat, q: nat, now: nat,
                                            later: nat)
    requires HasBits(m, k, now) && p <= OFFSET_MAX && q <= OFFSET_MAX && bit < 2
    ensures var write := SETBIT(k, Digits(p), if bit == 1 then "1" else "0");
      IdealExecAll(m, [Timed(write, now), Timed(GETBIT(k, Digits(q)), later)]).0 ==
        [IdealExec(m, GETBIT(k, Digits(p)), now).0,
         if q == p then ZSpec.Integer(bit) else IdealExec(m, GETBIT(k, Digits(q)), now).0]
  {
    hide IdealExec, Digits, WithBit, Bit;
    var write := SETBIT(k, Digits(p), if bit == 1 then "1" else "0");
    TwoCommands(m, Timed(write, now), Timed(GETBIT(k, Digits(q)), later));
    SetbitWrites(m, k, p, bit, now);
    GetbitReads(m, k, p, now);
    GetbitReads(m, k, q, now);
    GetbitReads(IdealExec(m, write, now).1, k, q, later);
    WithBitSpec(WordsAt(m, k, now), p, bit == 1, q);
  }

  /** Every bit of a missing key is 0. */
  lemma {:induction false} GetbitMissing(m: map<string, Cell>, k: string, q: nat, now: nat)
    requires !LiveAt(m, k, now) && q <= OFFSET_MAX
    ensures IdealExec(m, GETBIT(k, Digits(q)), now) == (ZSpec.Integer(0), m)
  {
    GetbitReads(m, k, q, now);
  }

  /** Offsets are digits up to OFFSET_MAX, and a bit is written "0" or "1": anything else is an error
      and changes nothing. */
  lemma {:induction false} SetbitErrors(m: map<string, Cell>, k: string, offset: string, bit: string, now: nat)
    ensures var bad := !AllDigits(offset) || NatOf(offset) > OFFSET_MAX;
      && (bad ==> IdealExec(m, SETBIT(k, offset, bit), now) == (ZSpec.Error(OFFSET_NOT_INT_OR_OUT_OF_RANGE), m))
      && (bad ==> IdealExec(m, GETBIT(k, offset), now) == (ZSpec.Error(OFFSET_NOT_INT_OR_OUT_OF_RANGE), m))
      && (!bad && bit != "0" && bit != "1" ==>
        IdealExec(m, SETBIT(k, offset, bit), now) == (ZSpec.Error(BIT_NOT_INT_OR_OUT_OF_RANGE), m))
  {
  }

  // ----- the sorted-set commands -----

  /** The key has a sorted set, or nothing. */
  predicate HasScores(m: map<string, Cell>, k: string, now: nat) {
    LiveAt(m, k, now) ==> m[k].value.Scores?
  }

  function ScoresOf(m: map<string, Cell>, k: string, now: nat): seq<Entry>
    requires HasScores(m, k, now)
  {
    if LiveAt(m, k, now) then m[k].value.entries else []
  }

  /** The key's sorted set is well-formed and gives its members these scores; none for no set. */
  ghost predicate Shows(m: map<string, Cell>, k: string, now: nat, scores: map<string, real>) {
    HasScores(m, k, now) && WellFormed(ScoresOf(m, k, now)) && ToMap(ScoresOf(m, k, now)) == scores
  }

  /** ZCARD answers the number of members. */
  lemma ZcardCounts(m: map<string, Cell>, k: string, now: nat, scores: map<string, real>)
    requires Shows(m, k, now, scores)
    ensures IdealExec(m, ZCARD(k), now) == (ZSpec.Integer(|scores|), m)
  {
    MapSize(ScoresOf(m, k, now));
  }

  lemma BoundIsScore(s: string)
    requires s != [] && s[0] != '+' && (s[0] == '-' ==> |s| > 1 && s[1] != '+')
    ensures BoundOf(s) == ScoreOf(s)
  {
    if s[0] == '-' { assert s[1..][0] == s[1]; }
  }

  /** A printed score, as a bound, is that score. */
  lemma {:induction false} PrintedBound(x: real)
    requires SixDecimals(x) && IntSized(x)
    ensures BoundOf(DoubleToString(x)) == Some(x)
  {
    hide DoubleToString, DoubleOf, BoundOf;
    ScoreRoundTrip(x);
    ScoreStart(x);
    BoundIsScore(DoubleToString(x));
  }

  /** Signs in front of digits: minus negates the bound, plus changes nothing, also behind a minus. */
  lemma SignedBound(t: string)
    requires t != [] && IsDigit(t[0])
    ensures BoundOf(t) == DoubleOf(t) && BoundOf("+" + t) == DoubleOf(t) && BoundOf("-+" + t) == BoundOf("-" + t)
    ensures BoundOf("-" + t) == match DoubleOf(t) case Some(x) => Some(-x) case None => None
  {
    hide DoubleOf;
    assert ("-" + t)[1..] == t && ("+" + t)[1..] == t && ("-+" + t)[1..] == "+" + t;
  }

  /** ZCOUNT answers the number of positions whose scores lie between the bounds, both included. */
  lemma ZcountCounts(m: map<string, Cell>, k: string, left: real, right: real, now: nat)
    requires HasScores(m, k, now)
    requires SixDecimals(left) && IntSized(left) && SixDecimals(right) && IntSized(right)
    ensures var s := ScoresOf(m, k, now);
      IdealExec(m, ZCOUNT(k, DoubleToString(left), DoubleToString(right)), now) ==
        (ZSpec.Integer(|set i | 0 <= i < |s| && left <= s[i].score <= right|), m)
  {
    hide DoubleToString, BoundOf, SixDecimals, IntSized;
    var s := ScoresOf(m, k, now);
    PrintedBound(left);
    PrintedBound(right);
    ZSpec.CountedFrom(s, left, right, 0);
    assert s[0..] == s;
    assert ZSpec.Within(s, left, right, 0) == (set i | 0 <= i < |s| && left <= s[i].score <= right);
  }

  function IndexText(minus: bool, n: nat): string {
    if minus then "-" + Digits(n) else Digits(n)
  }

  function Index(minus: bool, n: nat): int {
    if minus then 0 - (n as int) else n as int
  }

  lemma IndexDigits(minus: bool, n: nat)
    ensures IndexOfArg(IndexText(minus, n)) == if n > LL_MAX then None else Some(Index(minus, n))
  {
    var d := Digits(n);
    assert IsDigit(d[0]);
    assert ("-" + d)[1..] == d;
  }

  /** The positions of a ZRANGE: a negative index counts from the end, what lies outside is cut off. */
  function First(size: nat, left: int): nat {
    if left >= 0 then left else if size + left > 0 then size + left else 0
  }

  function HowMany(size: nat, left: int, right: int): nat {
    var last := if right < 0 then size + right else if right < size then right else size - 1;
    if First(size, left) <= last then last - First(size, left) + 1 else 0
  }

  /** The reply to a ZRANGE for these positions, with or without scores. */
  ghost predicate Lists(items: seq<string>, s: seq<Entry>, from: nat, n: nat, withScores: bool)
    requires n == 0 || from + n <= |s|
  {
    && |items| == (if withScores then 2 * n else n)
    && (!withScores ==> forall i {:trigger items[i]} :: 0 <= i < n ==> items[i] == s[from + i].member)
    && (withScores ==> forall i {:trigger ScoredAt(items, s, from, i)} :: 0 <= i < n ==> ScoredAt(items, s, from, i))
  }

  /** A member, and behind it a text that reads back as its score. */
  ghost predicate ScoredAt(items: seq<string>, s: seq<Entry>, from: nat, i: nat)
    requires 2 * i + 1 < |items| && from + i < |s|
  {
    var e := s[from + i];
    && items[2 * i] == e.member
    && items[2 * i + 1] == DoubleToString(e.score)
    && (SixDecimals(e.score) && IntSized(e.score) ==> ScoreOf(items[2 * i + 1]) == Some(e.score))
  }

  lemma SliceIs(s: seq<Entry>, left: int, right: int)
    ensures var from, n := First(|s|, left), HowMany(|s|, left, right);
      ZSpec.Slice(s, left, right) == if n == 0 then [] else s[from..from + n]
  {
  }

  lemma ItemsList(s: seq<Entry>, from: nat, n: nat, withScores: bool)
    requires from + n <= |s|
    ensures Lists(ZSpec.Items(s[from..from + n], withScores), s, from, n, withScores)
  {
    hide ZSpec.Items, ScoreOf, DoubleToString, SixDecimals, IntSized;
    var slice := s[from..from + n];
    var items := ZSpec.Items(slice, withScores);
    ZSpec.ItemsSize(slice, withScores);
    forall i | 0 <= i < n
      ensures if withScores then ScoredAt(items, s, from, i) else items[i] == s[from + i].member
    {
      ZSpec.ItemsAt(slice, withScores, i);
      ScoreRoundTrip(s[from + i].score);
    }
  }

  lemma ZrangeArgs(m: map<string, Cell>, args: seq<string>, left: int, right: int, now: nat)
    requires |args| == 4 || (|args| == 5 && Upper(args[4]) == "WITHSCORES")
    requires IndexOfArg(args[2]) == Some(left) && IndexOfArg(args[3]) == Some(right)
    requires HasScores(m, args[1], now)
    ensures IdealExec(m, ZRANGE(args), now) ==
      (ZSpec.Array(ZSpec.Items(ZSpec.Slice(ScoresOf(m, args[1], now), left, right), |args| == 5)), m)
  {
    hide IndexOfArg, Upper, ZSpec.ItemOf;
    assert Early(ZRANGE(args)) == None;
    var found := Ideal(m, Get(args[1]), now).0.value;
    assert found == if LiveAt(m, args[1], now) then Some(m[args[1]].value) else None;
    if found.None? {
      assert ZSpec.Slice([], left, right) == [];
    }
  }

  /** ZRANGE lists the members from one position to another, both included; with WITHSCORES, in any
      case, each has its score behind it. */
  lemma ZrangeLists(m: map<string, Cell>, args: seq<string>, minusLeft: bool, l: nat, minusRight: bool, r: nat,
                    now: nat)
    requires |args| == 4 || (|args| == 5 && Upper(args[4]) == "WITHSCORES")
    requires l <= LL_MAX && r <= LL_MAX
    requires args[2] == IndexText(minusLeft, l) && args[3] == IndexText(minusRight, r)
    requires HasScores(m, args[1], now)
    ensures var (reply, m') := IdealExec(m, ZRANGE(args), now);
      var s := ScoresOf(m, args[1], now);
      var left, right := Index(minusLeft, l), Index(minusRight, r);
      var n := HowMany(|s|, left, right);
      && m' == m && reply.Array?
      && (n == 0 || First(|s|, left) + n <= |s|)
      && Lists(reply.items, s, First(|s|, left), n, |args| == 5)
  {
    hide IndexText, Upper, Lists, ZSpec.Slice, ZSpec.Items;
    var s := ScoresOf(m, args[1], now);
    var left, right := Index(minusLeft, l), Index(minusRight, r);
    IndexDigits(minusLeft, l);
    IndexDigits(minusRight, r);
    ZrangeArgs(m, args, left, right, now);
    SliceIs(s, left, right);
    var from, n := First(|s|, left), HowMany(|s|, left, right);
    if n == 0 {
      NothingListed(s, from, |args| == 5);
    } else {
      ItemsList(s, from, n, |args| == 5);
    }
  }

  lemma {:induction false} NothingListed(s: seq<Entry>, from: nat, withScores: bool)
    ensures Lists(ZSpec.Items([], withScores), s, from, 0, withScores)
  {
  }

  /** A minus sign or none, and digits of a number up to LL_MAX. */
  predicate IsIndex(t: string) {
    var digits := if t != [] && t[0] == '-' then t[1..] else t;
    AllDigits(digits) && NatOf(digits) <= LL_MAX
  }

  /** ZRANGE refuses anything else as an index, and a fifth argument that is not WITHSCORES. */
  lemma ZrangeErrors(m: map<string, Cell>, args: seq<string>, now: nat)
    requires 4 <= |args| <= 5
    ensures var bad := !IsIndex(args[2]) || !IsIndex(args[3]);
      && (bad ==> IdealExec(m, ZRANGE(args), now) == (ZSpec.Error(VALUE_IS_NOT_AN_INTEGER), m))
      && (!bad && |args| == 5 && Upper(args[4]) != "WITHSCORES" ==>
        IdealExec(m, ZRANGE(args), now) == (ZSpec.Error(ZSpec.SYNTAX_ERROR), m))
  {
  }

  /** Which positions a ZRANGE lists: those not before the left index and not behind the right one. */
  lemma RangeMeans(size: nat, left: int, right: int, i: int)
    ensures First(size, left) <= i < First(size, left) + HowMany(size, left, right) <==>
      0 <= i < size && (if left < 0 then size + left else left) <= i <= (if right < 0 then size + right else right)
  {
  }

  /** A ZADD leaves under its key the set that ZaddReply makes of the one it finds. */
  lemma ZaddLeaves(m: map<string, Cell>, args: seq<string>, now: nat, later: nat)
    requires |args| >= 4 && HasScores(m, args[1], now)
    ensures var (reply, s') := ZSpec.ZaddReply(ScoresOf(m, args[1], now), args);
      var (answer, m') := IdealExec(m, ZADD(args), now);
      answer == reply && HasScores(m', args[1], later) && ScoresOf(m', args[1], later) == s'
  {
    hide IdealExec, ZSpec.ZaddReply;
    ZaddOnMap(m, args, now);
  }

  /** The switches of a ZADD of one pair. */
  datatype ZaddOption = Always | OnlyNew | OnlyOld

  function ZaddArgs(k: string, x: string, o: ZaddOption, t: string, member: string): seq<string> {
    if o.Always? then ["ZADD", k, t, member] else ["ZADD", k, x, t, member]
  }

  lemma ZaddPair(k: string, x: string, o: ZaddOption, t: string, member: string, score: real)
    requires ZSpec.LooksLikeScore(t) && ScoreOf(t) == Some(score)
    requires o.OnlyNew? ==> Upper(x) == "NX"
    requires o.OnlyOld? ==> Upper(x) == "XX"
    requires !ZSpec.LooksLikeScore(x)
    ensures ZSpec.RequestOf(ZaddArgs(k, x, o, t, member)) == ZSpec.Add(o.OnlyOld?, o.OnlyNew?, false, [t, member])
    ensures ZSpec.PairsOf([t, member]) == Some([Entry(score, member)])
  {
    hide ScoreOf;
    ZSpec.LonePair([t, member]);
    var args := ZaddArgs(k, x, o, t, member);
    if o.Always? {
      ZSpec.LoneRequest(args);
      assert args[2..] == [t, member];
    } else {
      ZSpec.OneSwitch(k, x, t, member);
      ZSpec.RequestExact(args, 3, ZSpec.SwitchesIn([Upper(x)]));
      assert args[3..] == [t, member];
    }
  }

  lemma OnePair(s: seq<Entry>, args: seq<string>, o: ZaddOption, pair: seq<string>, e: Entry)
    requires WellFormed(s) && |args| >= 4
    requires ZSpec.RequestOf(args) == ZSpec.Add(o.OnlyOld?, o.OnlyNew?, false, pair) && ZSpec.PairsOf(pair) == Some([e])
    ensures var before := ToMap(s);
      var (reply, s') := ZSpec.ZaddReply(s, args);
      var writes := if e.member in before then !o.OnlyNew? else !o.OnlyOld?;
      && reply == ZSpec.Integer(if writes && e.member !in before then 1 else 0)
      && WellFormed(s') && ToMap(s') == if writes then before[e.member := e.score] else before
  {
    hide ZSpec.RequestOf, ZSpec.PairsOf, ZSpec.Step, ZSpec.Fold, ZSpec.Inserts;
    ZSpec.LoneFold(s, o.OnlyOld?, o.OnlyNew?, e);
    ZSpec.StepRefinesMap(s, o.OnlyOld?, o.OnlyNew?, e);
    assert Has(s, e.member) <==> e.member in ToMap(s);
  }

  /** ZADD of one pair: with NX it writes a new member only, with XX an old one only, otherwise any.
      The set then gives the member the new score and every other member its old one; the reply is 1
      for a new member and 0 otherwise. */
  lemma ZaddWrites(m: map<string, Cell>, k: string, scores: map<string, real>, x: string, o: ZaddOption, t: string,
                   member: string, score: real, now: nat, later: nat)
    requires Shows(m, k, now, scores)
    requires ZSpec.LooksLikeScore(t) && ScoreOf(t) == Some(score) && !ZSpec.LooksLikeScore(x)
    requires (o.OnlyNew? ==> Upper(x) == "NX") && (o.OnlyOld? ==> Upper(x) == "XX")
    ensures var (reply, m') := IdealExec(m, ZADD(ZaddArgs(k, x, o, t, member)), now);
      var writes := if member in scores then !o.OnlyNew? else !o.OnlyOld?;
      && reply == ZSpec.Integer(if writes && member !in scores then 1 else 0)
      && Shows(m', k, later, if writes then scores[member := score] else scores)
  {
    hide IdealExec, ZSpec.ZaddReply, ZSpec.LooksLikeScore, ScoreOf, Upper, WellFormed, IndexOf;
    ZaddLeaves(m, ZaddArgs(k, x, o, t, member), now, later);
    ZaddPair(k, x, o, t, member, score);
    OnePair(ScoresOf(m, k, now), ZaddArgs(k, x, o, t, member), o, [t, member], Entry(score, member));
  }

  function IncrArgs(k: string, nx: bool, t: string, member: string): seq<string> {
    if nx then ["ZADD", k, "NX", "INCR", t, member] else ["ZADD", k, "INCR", t, member]
  }

  lemma IncrPair(k: string, nx: bool, t: string, member: string)
    requires ZSpec.LooksLikeScore(t)
    ensures var args := IncrArgs(k, nx, t, member);
      |args| >= 4 && args[1] == k && ZSpec.RequestOf(args) == ZSpec.Increment(nx, [t, member])
  {
    assert Upper("NX") == "NX" && Upper("INCR") == "INCR";
    var args := IncrArgs(k, nx, t, member);
    if nx {
      ZSpec.TwoSwitches(k, "NX", "INCR", t, member);
      ZSpec.RequestExact(args, 4, ZSpec.SwitchesIn(["NX", "INCR"]));
      assert args[4..] == [t, member];
    } else {
      ZSpec.OneSwitch(k, "INCR", t, member);
      ZSpec.RequestExact(args, 3, ZSpec.SwitchesIn(["INCR"]));
      assert args[3..] == [t, member];
    }
  }

  lemma OneBump(s: seq<Entry>, args: seq<string>, nx: bool, t: string, member: string, x: real)
    requires WellFormed(s) && |args| >= 4
    requires ZSpec.RequestOf(args) == ZSpec.Increment(nx, [t, member]) && ScoreOf(t) == Some(x)
    ensures var before := ToMap(s);
      var (reply, s') := ZSpec.ZaddReply(s, args);
      var sum := x + (if member in before then before[member] else 0.0);
      if nx && member in before then reply == ZSpec.Null && s' == s
      else reply == ZSpec.Bulk(DoubleToString(sum)) && WellFormed(s') && ToMap(s') == before[member := sum]
  {
    hide ZSpec.RequestOf, ScoreOf, DoubleToString, Insert, Remove, IndexOf;
    assert Has(s, member) <==> member in ToMap(s);
    if !(nx && member in ToMap(s)) { ZSpec.IncrSays(s, nx, [t, member], x); }
  }

  /** ZADD INCR adds to the member's score, or to 0, and answers, in print, the score it has then; with
      NX a member that is there is left alone. */
  lemma ZaddIncrements(m: map<string, Cell>, k: string, scores: map<string, real>, nx: bool, t: string, member: string,
                       x: real, now: nat, later: nat)
    requires Shows(m, k, now, scores) && ZSpec.LooksLikeScore(t) && ScoreOf(t) == Some(x)
    ensures var (reply, m') := IdealExec(m, ZADD(IncrArgs(k, nx, t, member)), now);
      var sum := x + (if member in scores then scores[member] else 0.0);
      if nx && member in scores then reply == ZSpec.Null && Shows(m', k, later, scores)
      else reply == ZSpec.Bulk(DoubleToString(sum)) && Shows(m', k, later, scores[member := sum])
  {
    hide IncrArgs, IdealExec, ZSpec.ZaddReply, ZSpec.LooksLikeScore, ScoreOf, WellFormed, IndexOf, DoubleToString;
    IncrPair(k, nx, t, member);
    ZaddLeaves(m, IncrArgs(k, nx, t, member), now, later);
    OneBump(ScoresOf(m, k, now), IncrArgs(k, nx, t, member), nx, t, member, x);
  }

  // ----- all commands -----

  /** Too few or too many arguments. */
  lemma ArityErrors(m: map<string, Cell>, args: seq<string>, now: nat)
    ensures var wrong := (ZSpec.Error(ZSpec.WRONG_NUMBER_OF_ARGUMENTS), m);
      && (|args| < 3 ==> IdealExec(m, SET(args), now) == wrong)
      && (|args| > 9 ==> IdealExec(m, SET(args), now) == (ZSpec.Error(ZSpec.SYNTAX_ERROR), m))
      && (|args| < 2 ==> IdealExec(m, DEL(args), now) == wrong)
      && (|args| < 4 ==> IdealExec(m, ZADD(args), now) == wrong)
      && (|args| < 4 || |args| > 5 ==> IdealExec(m, ZRANGE(args), now) == wrong)
  {
  }

  /** The kind of value that a reading command works on. */
  predicate WorksOn(cmd: Command, value: Value)
    requires Reads(cmd)
  {
    match cmd
    case GET(_) => value.Text?
    case GETBIT(_, _) => value.Bits?
    case SETBIT(_, _, _) => value.Bits?
    case _ => value.Scores?
  }

  /** On a live key with a value of another kind every reading command is an error and changes
      nothing. */
  lemma WrongKind(m: map<string, Cell>, cmd: Command, now: nat)
    requires Reads(cmd) && Early(cmd).None?
    requires LiveAt(m, KeyOf(cmd), now) && !WorksOn(cmd, m[KeyOf(cmd)].value)
    ensures IdealExec(m, cmd, now) == (ZSpec.Error(ZSpec.WRONG_TYPE), m)
  {
  }

  /** The keys a command may write. */
  predicate MayWrite(cmd: Command, k: string) {
    match cmd
    case SET(args) => |args| > 1 && args[1] == k
    case DEL(args) => |args| > 1 && k in args[1..]
    case FLUSHALL => true
    case SETBIT(key, _, _) => key == k
    case ZADD(args) => |args| > 1 && args[1] == k
    case _ => false
  }

  lemma {:induction false} DelLeavesOthers(m: map<string, Cell>, keys: seq<string>, now: nat, k: string)
    requires k !in keys
    ensures MapAt(IdealDelAll(m, keys, now).1, k) == MapAt(m, k)
    decreases |keys|
  {
    if keys != [] {
      var front, last := keys[..|keys| - 1], keys[|keys| - 1];
      assert keys == front + [last];
      DelLeavesOthers(m, front, now, k);
    }
  }

  /** No command changes what another key holds. */
  lemma OthersStay(m: map<string, Cell>, cmd: Command, now: nat, k: string)
    requires !MayWrite(cmd, k)
    ensures MapAt(IdealExec(m, cmd, now).1, k) == MapAt(m, k)
  {
    if Early(cmd).None? {
      if cmd.DEL? {
        DelLeavesOthers(m, cmd.args[1..], now, k);
      } else if Reads(cmd) {
        var found := Ideal(m, Get(KeyOf(cmd)), now).0.value;
        PlanOp(cmd, found);
        if !cmd.SETBIT? && !cmd.ZADD? { OnlyReads(cmd, found); }
      }
    }
  }

  lemma OnlyReads(cmd: Command, found: Option<Value>)
    requires Reads(cmd) && Early(cmd).None? && !cmd.SETBIT? && !cmd.ZADD?
    ensures Plan(cmd, found).1.None?
  {
  }

  /** After a FLUSHALL every key is missing. */
  lemma {:induction false} FlushallEmpties(m: map<string, Cell>, k: string, now: nat, later: nat)
    ensures IdealExecAll(m, [Timed(FLUSHALL, now), Timed(GET(k), later)]).0 == [ZSpec.Ok, ZSpec.Null]
  {
    TwoCommands(m, Timed(FLUSHALL, now), Timed(GET(k), later));
    GetReads(map[], k, later);
  }
}
