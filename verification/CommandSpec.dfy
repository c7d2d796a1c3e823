/** What the commands of ds/commands.c answer and do to the store, and the clocked map they refine. */
module CommandSpec {
  import opened CStrings
  import opened Decimal
  import opened SortedSet
  import ZSpec
  import opened Bitmap
  import opened Store

  type Reply = ZSpec.Reply

  const OFFSET_MAX := 4294967295
  const OFFSET_NOT_INT_OR_OUT_OF_RANGE := -6
  const BIT_NOT_INT_OR_OUT_OF_RANGE := -7
  const MIN_OR_MAX_IS_NOT_A_FLOAT := -12
  const VALUE_IS_NOT_AN_INTEGER := -13
  const INVALID_EXPIRE_TIME := -14

  /** Argument lists start with the command's own name.  The server has checked the number of
      arguments of the commands that name theirs here. */
  datatype Command =
    | GET(key: string)
    | SET(args: seq<string>)
    | DEL(args: seq<string>)
    | FLUSHALL
    | GETBIT(key: string, offset: string)
    | SETBIT(key: string, offset: string, bit: string)
    | ZADD(args: seq<string>)
    | ZCARD(key: string)
    | ZCOUNT(key: string, min: string, max: string)
    | ZRANGE(args: seq<string>)

  // ----- arguments -----

  function OffsetOf(s: string): Option<nat> {
    match LongLongOf(s)
    case Some(pos) => if pos > OFFSET_MAX then None else Some(pos)
    case None => None
  }

  /** stringToBit (ds/utilities.c:407-417). */
  function BitOf(s: string): Option<bool> {
    if s == "0" then Some(false) else if s == "1" then Some(true) else None
  }

  function Signed(n: nat, minus: bool): int {
    if minus then -(n as int) else n
  }

  /** parseRange's reading of one index (ds/commands.c:462-481). */
  function IndexOfArg(s: string): Option<int> {
    var minus := s != [] && s[0] == '-';
    match LongLongOf(if minus then s[1..] else s)
    case Some(n) => Some(Signed(n, minus))
    case None => None
  }

  function Unplus(s: string): string {
    if s != [] && s[0] == '+' then s[1..] else s
  }

  /** parseMinMax's reading of one bound (ds/commands.c:549-567). */
  function BoundOf(s: string): Option<real> {
    if s != [] && s[0] == '-' then
      match DoubleOf(Unplus(s[1..]))
      case Some(x) => Some(-1.0 * x)
      case None => None
    else DoubleOf(Unplus(s))
  }

  /** The switches of a SET. */
  datatype SetSwitches = SetSwitches(ex: bool, exValue: nat, px: bool, pxValue: nat, nx: bool, xx: bool)

  datatype Parsed = Bad(code: int) | Good(sw: SetSwitches)

  const NO_SWITCHES := SetSwitches(false, 0, false, 0, false, false)

  function Capped(n: nat): nat {
    if n < DEFAULT_EXPIRY_MS then n else DEFAULT_EXPIRY_MS
  }

  /** parseSetSwitches (ds/commands.c:493-537) from argument i on. */
  function SwitchesFrom(args: seq<string>, i: nat, sw: SetSwitches): Parsed
    decreases |args| - i
  {
    if i >= |args| then Good(sw)
    else
      var name := Upper(args[i]);
      if name == "EX" || name == "PX" then
        if i + 1 == |args| then Bad(ZSpec.SYNTAX_ERROR)
        else
          match LongLongOf(args[i + 1])
          case None => Bad(VALUE_IS_NOT_AN_INTEGER)
          case Some(n) =>
            SwitchesFrom(args, i + 2,
              if name == "EX" then sw.(ex := true, exValue := Capped(n)) else sw.(px := true, pxValue := Capped(n)))
      else if name == "NX" then SwitchesFrom(args, i + 1, sw.(nx := true))
      else if name == "XX" then SwitchesFrom(args, i + 1, sw.(xx := true))
      else Bad(ZSpec.SYNTAX_ERROR)
  }

  // ----- what the C code can read -----

  predicate NumberFits(s: string) {
    Plain(s) && LongLongFits(s)
  }

  predicate IndexFits(s: string) {
    Plain(s) && LongLongFits(if s != [] && s[0] == '-' then s[1..] else s)
  }

  predicate BoundFits(s: string) {
    Plain(s) && DoubleFits(Unplus(if s != [] && s[0] == '-' then s[1..] else s))
  }

  /** The switches of a SET, as far as they are read. */
  predicate SwitchesFit(args: seq<string>, i: nat)
    decreases |args| - i
  {
    i >= |args| ||
    var name := Upper(args[i]);
    && Plain(args[i])
    && ((name == "EX" || name == "PX") && i + 1 < |args| ==>
      NumberFits(args[i + 1]) && (LongLongOf(args[i + 1]).Some? ==> SwitchesFit(args, i + 2)))
    && (name == "NX" || name == "XX" ==> SwitchesFit(args, i + 1))
  }

  /** A command whose parsed arguments have no NUL byte and whose numbers the machine integers of
      the parsers can take. */
  predicate Readable(cmd: Command) {
    match cmd
    case SET(args) => |args| <= 9 ==> SwitchesFit(args, 3)
    case GETBIT(_, offset) => NumberFits(offset)
    case SETBIT(_, offset, _) => NumberFits(offset)
    case ZADD(args) => |args| >= 4 ==> ZSpec.ZaddFits(args)
    case ZCOUNT(_, min, max) => BoundFits(min) && (BoundOf(min).Some? ==> BoundFits(max))
    case ZRANGE(args) =>
      |args| == 4 || |args| == 5 ==>
        IndexFits(args[2]) && IndexFits(args[3]) && (|args| == 5 ==> Plain(args[4]))
    case _ => true
  }

  datatype SetPlan = Answered(reply: Reply) | Asked(op: Op)

  /** setCommand up to its call of setWithExpiry (ds/commands.c:96-125). */
  function SetPlanOf(args: seq<string>): (plan: SetPlan)
    ensures plan.Asked? ==> plan.op.SetEx?
  {
    if |args| > 9 then Answered(ZSpec.Error(ZSpec.SYNTAX_ERROR))
    else if |args| < 3 then Answered(ZSpec.Error(ZSpec.WRONG_NUMBER_OF_ARGUMENTS))
    else
      match SwitchesFrom(args, 3, NO_SWITCHES)
      case Bad(code) => Answered(ZSpec.Error(code))
      case Good(sw) =>
        var ms := sw.exValue * 1000 + sw.pxValue;
        if (sw.ex || sw.px) && ms == 0 then Answered(ZSpec.Error(INVALID_EXPIRE_TIME))
        else if sw.nx && sw.xx then Answered(ZSpec.Null)
        else Asked(SetEx(args[1], args[2], ms, sw.nx, sw.xx))
  }

  /** The replies given before the store is looked at. */
  function Early(cmd: Command): Option<Reply> {
    match cmd
    case SET(args) => if SetPlanOf(args).Answered? then Some(SetPlanOf(args).reply) else None
    case DEL(args) => if |args| < 2 then Some(ZSpec.Error(ZSpec.WRONG_NUMBER_OF_ARGUMENTS)) else None
    case GETBIT(_, offset) =>
      if OffsetOf(offset).None? then Some(ZSpec.Error(OFFSET_NOT_INT_OR_OUT_OF_RANGE)) else None
    case SETBIT(_, offset, bit) =>
      if OffsetOf(offset).None? then Some(ZSpec.Error(OFFSET_NOT_INT_OR_OUT_OF_RANGE))
      else if BitOf(bit).None? then Some(ZSpec.Error(BIT_NOT_INT_OR_OUT_OF_RANGE)) else None
    case ZADD(args) => if |args| < 4 then Some(ZSpec.Error(ZSpec.WRONG_NUMBER_OF_ARGUMENTS)) else None
    case ZRANGE(args) =>
      if |args| != 4 && |args| != 5 then Some(ZSpec.Error(ZSpec.WRONG_NUMBER_OF_ARGUMENTS))
      else if IndexOfArg(args[2]).None? || IndexOfArg(args[3]).None? then Some(ZSpec.Error(VALUE_IS_NOT_AN_INTEGER))
      else if |args| == 5 && Upper(args[4]) != "WITHSCORES" then Some(ZSpec.Error(ZSpec.SYNTAX_ERROR))
      else None
    case _ => None
  }

  /** The commands that read one value and may then write it. */
  predicate Reads(cmd: Command) {
    !cmd.SET? && !cmd.DEL? && !cmd.FLUSHALL?
  }

  function KeyOf(cmd: Command): string
    requires Reads(cmd) && Early(cmd).None?
  {
    if cmd.ZADD? || cmd.ZRANGE? then cmd.args[1] else cmd.key
  }

  function BitReply(bit: bool): Reply {
    ZSpec.Integer(if bit then 1 else 0)
  }

  /** A sorted set goes back to the store, or its key goes away when it is empty. */
  function ScoresOp(key: string, s: seq<Entry>): Op {
    if s == [] then Del(key) else Put(key, Scores(s))
  }

  const WRONG_TYPE := ZSpec.Error(ZSpec.WRONG_TYPE)

  function ZaddPlan(args: seq<string>, found: Option<Value>): (Reply, Option<Op>)
    requires |args| >= 4
  {
    if found.Some? && !found.value.Scores? then (WRONG_TYPE, None)
    else
      var (reply, s) := ZSpec.ZaddReply(if found.Some? then found.value.entries else [], args);
      (reply, Some(ScoresOp(args[1], s)))
  }

  /** The reply to a reading command, and what it then writes. */
  function Plan(cmd: Command, found: Option<Value>): (Reply, Option<Op>)
    requires Reads(cmd) && Early(cmd).None?
  {
    match cmd
    case GET(_) =>
      (match found
       case None => ZSpec.Null
       case Some(Text(str)) => ZSpec.Bulk(str)
       case Some(_) => WRONG_TYPE, None)
    case GETBIT(_, offset) =>
      (match found
       case None => BitReply(false)
       case Some(Bits(words)) => BitReply(Bit(words, OffsetOf(offset).value))
       case Some(_) => WRONG_TYPE, None)
    case SETBIT(key, offset, bit) =>
      var pos, b := OffsetOf(offset).value, BitOf(bit).value;
      (match found
       case None => (BitReply(false), Some(Put(key, Bits(WithBit([], pos, b)))))
       case Some(Bits(words)) => (BitReply(Bit(words, pos)), Some(Put(key, Bits(WithBit(words, pos, b)))))
       case Some(_) => (WRONG_TYPE, None))
    case ZADD(args) =>
      ZaddPlan(args, found)
    case ZCARD(_) =>
      (match found
       case None => ZSpec.Integer(0)
       case Some(Scores(s)) => ZSpec.Integer(|s|)
       case Some(_) => WRONG_TYPE, None)
    case ZCOUNT(_, min, max) =>
      (match found
       case None => ZSpec.Integer(0)
       case Some(Scores(s)) =>
         if BoundOf(min).Some? && BoundOf(max).Some? then
           ZSpec.Integer(ZSpec.CountBetween(s, BoundOf(min).value, BoundOf(max).value))
         else ZSpec.Error(MIN_OR_MAX_IS_NOT_A_FLOAT)
       case Some(_) => WRONG_TYPE, None)
    case ZRANGE(args) =>
      (match found
       case None => ZSpec.Array([])
       case Some(Scores(s)) =>
         ZSpec.Array(ZSpec.Items(ZSpec.Slice(s, IndexOfArg(args[2]).value, IndexOfArg(args[3]).value), |args| == 5))
       case Some(_) => WRONG_TYPE, None)
  }

  // ----- the store -----

  /** delCommand's loop: keys one by one, counting. */
  function DelAll(store: seq<seq<Cell>>, hash: string -> nat, keys: seq<string>, now: nat): (r: (nat, seq<seq<Cell>>))
    requires |store| == BUCKETS && forall k :: hash(k) < BUCKETS
    ensures |r.1| == BUCKETS
  {
    if keys == [] then (0, store)
    else
      var (n, before) := DelAll(store, hash, keys[..|keys| - 1], now);
      var (answer, after) := Step(before, hash, Del(keys[|keys| - 1]), now, Leave);
      (n + answer.n, after)
  }

  function SetReply(answer: Answer): Reply {
    if answer.Done? then ZSpec.Ok else ZSpec.Null
  }

  /** One command on the store: the reply, and the buckets it leaves. */
  function Exec(store: seq<seq<Cell>>, hash: string -> nat, cmd: Command, now: nat,
                rule: StaleRule): (r: (Reply, seq<seq<Cell>>))
    requires |store| == BUCKETS && forall k :: hash(k) < BUCKETS
    ensures |r.1| == BUCKETS
  {
    if Early(cmd).Some? then (Early(cmd).value, store)
    else if cmd.SET? then
      var (answer, store') := Step(store, hash, SetPlanOf(cmd.args).op, now, rule);
      (SetReply(answer), store')
    else if cmd.DEL? then
      var (n, store') := DelAll(store, hash, cmd.args[1..], now);
      (ZSpec.Integer(n), store')
    else if cmd.FLUSHALL? then (ZSpec.Ok, EmptyStore())
    else
      var (found, read) := Step(store, hash, Get(KeyOf(cmd)), now, rule);
      var (reply, op) := Plan(cmd, found.value);
      (reply, if op.Some? then Step(read, hash, op.value, now, rule).1 else read)
  }

  /** The entries that a ZADD finds under its key, and whether it may add to them. */
  function FoundScores(found: Option<Value>): Option<seq<Entry>> {
    match found
    case None => Some([])
    case Some(Scores(s)) => Some(s)
    case Some(_) => None
  }

  /** Every pair a command writes can be put in its place by insertion's own tie-break, at any
      heights of towers. */
  ghost predicate SafeExec(store: seq<seq<Cell>>, hash: string -> nat, cmd: Command, now: nat)
    requires |store| == BUCKETS && forall k :: hash(k) < BUCKETS
  {
    cmd.ZADD? && |cmd.args| >= 4 ==>
      var s := FoundScores(Step(store, hash, Get(cmd.args[1]), now, Leave).0.value);
      s.Some? ==> ZSpec.SafeRequest(s.value, ZSpec.RequestOf(cmd.args))
  }

  // ----- the map -----

  function IdealDelAll(m: map<string, Cell>, keys: seq<string>, now: nat): (nat, map<string, Cell>) {
    if keys == [] then (0, m)
    else
      var (n, before) := IdealDelAll(m, keys[..|keys| - 1], now);
      var (answer, after) := Ideal(before, Del(keys[|keys| - 1]), now);
      (n + answer.n, after)
  }

  /** The same command on a clocked map. */
  function IdealExec(m: map<string, Cell>, cmd: Command, now: nat): (Reply, map<string, Cell>) {
    if Early(cmd).Some? then (Early(cmd).value, m)
    else if cmd.SET? then
      var (answer, m') := Ideal(m, SetPlanOf(cmd.args).op, now);
      (SetReply(answer), m')
    else if cmd.DEL? then
      var (n, m') := IdealDelAll(m, cmd.args[1..], now);
      (ZSpec.Integer(n), m')
    else if cmd.FLUSHALL? then (ZSpec.Ok, map[])
    else
      var (found, _) := Ideal(m, Get(KeyOf(cmd)), now);
      var (reply, op) := Plan(cmd, found.value);
      (reply, if op.Some? then Ideal(m, op.value, now).1 else m)
  }
}
