/** The request readers of server/protocol.c and the array writer of server/redisserver.c.
    A buffer is what was received, `len` bytes of it, and whatever the allocation holds beyond:
    the C code may look at the byte behind the last one. */
module Protocol {
  import opened Decimal
  import opened Resp
  import opened Words
  import opened ArgList

  lemma ModStep(a: nat, d: nat)
    ensures (a % ULONG * 10 + d) % ULONG == (a * 10 + d) % ULONG
  {
    var q := a / ULONG;
    assert a == q * ULONG + a % ULONG;
    assert a * 10 + d == q * 10 * ULONG + (a % ULONG * 10 + d);
    ModPlus(q * 10, a % ULONG * 10 + d);
  }

  lemma {:induction false} ModPlus(q: nat, x: nat)
    ensures (q * ULONG + x) % ULONG == x % ULONG
  {
    if q != 0 {
      ModPlus(q - 1, x);
      assert q * ULONG + x == ((q - 1) * ULONG + x) + ULONG;
    }
  }

  lemma DigitMore(buf: string, i: nat, j: nat)
    requires i <= j < |buf| && AllDigits(buf[i..j]) && IsDigit(buf[j])
    ensures AllDigits(buf[i..j + 1])
    ensures ULongOf(buf[i..j + 1]) == (ULongOf(buf[i..j]) * 10 + DigitValue(buf[j])) % ULONG
  {
    var d, d' := buf[i..j], buf[i..j + 1];
    assert d'[..|d'| - 1] == d && d'[|d'| - 1] == buf[j];
    forall k | 0 <= k < |d'|
      ensures IsDigit(d'[k])
    {
      if k < |d| { assert d'[k] == d[k] && IsDigit(d[k]); }
    }
    ModStep(NatOf(d), DigitValue(buf[j]));
  }

  /** Digits are passed on the way to a line end. */
  lemma {:induction false} DigitsPassed(s: string, i: nat, j: nat)
    requires i <= j <= |s| && AllDigits(s[i..j])
    ensures LineEnd(s, i) == LineEnd(s, j)
    decreases j - i
  {
    if i != j {
      assert s[i..j][0] == s[i] && IsDigit(s[i..j][0]);
      var rest := s[i + 1..j];
      forall k | 0 <= k < |rest|
        ensures IsDigit(rest[k])
      {
        assert rest[k] == s[i..j][k + 1] && IsDigit(s[i..j][k + 1]);
      }
      DigitsPassed(s, i + 1, j);
    }
  }

  lemma Received(buf: string, len: nat, i: nat, j: nat)
    requires i <= j <= len <= |buf|
    ensures buf[..len][i..j] == buf[i..j]
  {
  }

  /** What getRespInt may give for the digits at i; ULONG - 1 stands for the C code's -1. */
  predicate ReadAs(s: string, i: nat, l: nat)
    requires i <= |s|
  {
    var read := RespInt(s, i);
    if read.Some? then l == read.value else l == ULONG - 1 || LineEnd(s, i) + 1 >= |s|
  }

  /** getRespInt (server/protocol.c:97-112).  A line end that the received bytes do not hold in full
      is not noticed here, but by the caller. */
  method GetRespInt(buf: string, i: nat, len: nat) returns (l: nat)
    requires i <= len < |buf|
    ensures l < ULONG
    ensures ReadAs(buf[..len], i, l)
    ensures l != ULONG - 1 ==> LengthRead(buf[..len], i) == Some(l)
  {
    l := 0;
    var j := i;
    ghost var s := buf[..len];
    while buf[j] != '\r'
      invariant i <= j <= len && AllDigits(buf[i..j]) && l == ULongOf(buf[i..j])
      decreases len - j
    {
      if j >= len || buf[j] < '0' || buf[j] > '9' {
        StopsShort(s, buf, i, j, len);
        return ULONG - 1;
      }
      DigitMore(buf, i, j);
      l := (l * 10 + DigitValue(buf[j])) % ULONG;
      j := j + 1;
    }
    Received(buf, len, i, j);
    DigitsPassed(s, i, j);
    if j + 1 < len && buf[j + 1] != '\n' {
      l := ULONG - 1;
    }
  }

  lemma StopsShort(s: string, buf: string, i: nat, j: nat, len: nat)
    requires i <= j <= len < |buf| && s == buf[..len] && AllDigits(buf[i..j])
    requires buf[j] != '\r' && (j == len || !IsDigit(buf[j]))
    ensures RespInt(s, i).None?
  {
    Received(buf, len, i, j);
    DigitsPassed(s, i, j);
    var e := LineEnd(s, i);
    if j < len { assert s[i..e][j - i] == buf[j] && !IsDigit(s[i..e][j - i]); }
  }

  /** Skips to the next carriage return among the received bytes. */
  method SkipLine(buf: string, i: nat, len: nat) returns (j: nat)
    requires i <= len < |buf|
    ensures j == LineEnd(buf[..len], i)
  {
    j := i;
    ghost var s := buf[..len];
    while j < len && buf[j] != '\r'
      invariant i <= j <= len && LineEnd(s, j) == LineEnd(s, i)
    {
      j := j + 1;
    }
  }

  /** One round of the main loop: server/protocol.c:51-88.  next is where the round leaves `str`. */
  method ParseRound(buf: string, i: nat, len: nat) returns (round: Round, next: nat)
    requires i < len < |buf| && len < ULONG - 2 && !WrapsAt(buf[..len], i)
    ensures round == RoundAt(buf[..len], i)
    ensures round.Str? ==> next == round.next
    ensures round.Final? ==> next == len - 1
  {
    ghost var s := buf[..len];
    next := SkipLine(buf, i, len);
    if buf[next] == '\r' && next + 1 < len && buf[next + 1] == '\n' {
      if next + 2 < len && buf[next + 2] == '$' {
        next := next + 3;
      } else if next + 2 < len && buf[next + 2] != '$' {
        return Illegal, next;
      } else {
        return Final, next + 1;
      }
    } else {
      return Illegal, next;
    }
    round, next := ParseString(buf, next, len);
  }

  /** The string whose header's digits start at i: server/protocol.c:73-88. */
  method ParseString(buf: string, i: nat, len: nat) returns (round: Round, next: nat)
    requires 3 <= i <= len < |buf| && len < ULONG - 2
    requires !LengthWraps(buf[..len], i)
    ensures round == StringAt(buf[..len], i)
    ensures round.Str? ==> next == round.next
    ensures !round.Final?
  {
    next := i;
    var l := GetRespInt(buf, i, len);
    if l == ULONG - 1 { return Illegal, next; }
    next := SkipLine(buf, i, len);
    next := next + 2;
    RoomTest(len, next, l);
    if Sum64(Sum64(next, l), 1) >= len { return Illegal, next; }
    Received(buf, len, next, next + l);
    var token := buf[next..next + l];
    next := next + l;
    if buf[next] != '\r' { return Illegal, next; }
    round := Str(token, next);
  }

  function Prepend(front: seq<string>, rest: Option<seq<string>>): Option<seq<string>> {
    match rest
    case None => None
    case Some(tokens) => Some(front + tokens)
  }

  /** What one round does to the strings still to come. */
  lemma RoundCases(round: nat -> Round, size: nat, i: nat, num: nat, front: seq<string>)
    requires i < size
    ensures var rest, r := Prepend(front, StringsBy(round, size, i, num)), round(i);
      if num == 0 || r.Illegal? then rest == None
      else if r.Final? then rest == if num == 1 then Some(front) else None
      else rest == Prepend(front + [r.token], StringsBy(round, size, r.next, num - 1))
  {
    assert front + [] == front;
    if num > 0 && round(i).Str? && StringsBy(round, size, round(i).next, num - 1).Some? {
      var rest := StringsBy(round, size, round(i).next, num - 1).value;
      assert front + ([round(i).token] + rest) == front + [round(i).token] + rest;
    }
  }

  /** The C code's unsigned counter. */
  function Inc(l: nat): nat { if l == ULONG - 1 then 0 else l + 1 }
  function Dec(l: nat): nat { if l == 0 then ULONG - 1 else l - 1 }

  lemma PrependNothing(rest: Option<seq<string>>)
    ensures Prepend([], rest) == rest
  {
    if rest.Some? { assert [] + rest.value == rest.value; }
  }

  lemma StaysCases(round: nat -> Round, wraps: nat -> bool, size: nat, i: nat, num: nat)
    requires i < size && num != 0 && !OverrunsBy(round, wraps, size, i, num)
    ensures !wraps(i) && (round(i).Str? ==> !OverrunsBy(round, wraps, size, round(i).next, num - 1))
  {
  }

  /** What the header leaves for the main loop. */
  lemma {:induction false} HeaderRead(s: string, l: nat)
    requires 0 < |s| < ULONG && s[0] == '*' && l < ULONG
    requires ReadAs(s, 1, l)
    ensures Tokens(s) == Strings(s, 1, Inc(l))
    ensures !Overruns(s) ==> !OverrunsBy(Rounds(s), Wraps(s), |s|, 1, Inc(l))
  {
    if RespInt(s, 1).None? && l != ULONG - 1 && 1 < |s| {
      assert RoundAt(s, 1) == Illegal && !WrapsAt(s, 1);
      RoundCases(Rounds(s), |s|, 1, Inc(l), []);
    }
  }

  /** respTokenizer (server/protocol.c:29-95): null for the C code's NULL.  The count of rounds goes
      past zero, and wraps, when there is more text than the header announced. */
  method RespTokenizer(buf: string, len: nat) returns (tokens: ArgList?)
    requires 0 < len < |buf| && len < ULONG - 2 && !Overruns(buf[..len])
    ensures Tokens(buf[..len]) == if tokens == null then None else Some(tokens.Keys())
    ensures tokens != null ==> tokens.Valid() && fresh(tokens) && fresh(tokens.nodes)
  {
    if buf[0] != '*' { return null; }
    var l := GetRespInt(buf, 1, len);
    HeaderRead(buf[..len], l);
    tokens := RespStrings(buf, len, Inc(l));
  }

  /** The main loop and the last test: server/protocol.c:47-94. */
  method RespStrings(buf: string, len: nat, count: nat) returns (tokens: ArgList?)
    requires 0 < len < |buf| && len < ULONG - 2 && count < ULONG
    requires var s := buf[..len]; !OverrunsBy(Rounds(s), Wraps(s), len, 1, count)
    ensures Strings(buf[..len], 1, count) == if tokens == null then None else Some(tokens.Keys())
    ensures tokens != null ==> tokens.Valid() && fresh(tokens) && fresh(tokens.nodes)
  {
    var list := new ArgList();
    ghost var s := buf[..len];
    ghost var result := Strings(s, 1, count);
    var num := count;
    var i := 1;
    PrependNothing(result);
    while i < len
      invariant 1 <= i <= len && list.Valid() && fresh(list) && fresh(list.nodes)
      invariant result == Prepend(list.Keys(), StringsBy(Rounds(s), len, i, num))
      invariant !OverrunsBy(Rounds(s), Wraps(s), len, i, num)
      decreases len - i
    {
      RoundCases(Rounds(s), len, i, num, list.Keys());
      var more := num != 0;
      num := Dec(num);
      if !more { break; }
      StaysCases(Rounds(s), Wraps(s), len, i, num + 1);
      var round, next := ParseRound(buf, i, len);
      match round {
        case Illegal => return null;
        case Final =>
          i := next;
          break;
        case Str(token, _) =>
          list.Add(token);
          assert i < next;
          i := next;
      }
    }
    tokens := if num == 0 && i == len - 1 then list else null;
  }

  lemma {:induction false} BulksSnoc(tokens: seq<string>, t: string)
    ensures Bulks(tokens + [t]) == Bulks(tokens) + BulkText(t)
  {
    if tokens == [] {
      assert [t][1..] == [] && Bulks([t]) == BulkText(t) + Bulks([]);
    } else {
      assert (tokens + [t])[0] == tokens[0] && (tokens + [t])[1..] == tokens[1..] + [t];
      BulksSnoc(tokens[1..], t);
    }
  }

  /** The body of the writer's loop, and the bulk strings of writeToBuffer
      (server/redisserver.c:204-212). */
  method WriteBulk(before: string, token: string) returns (output: string)
    ensures output == before + BulkText(token)
  {
    output := before + "$";
    output := output + Digits(|token|);
    output := output + CRLF;
    output := output + token;
    output := output + CRLF;
  }

  lemma BulksNext(start: string, keys: seq<string>, k: nat)
    requires k < |keys|
    ensures start + Bulks(keys[..k]) + BulkText(keys[k]) == start + Bulks(keys[..k + 1])
  {
    BulksSnoc(keys[..k], keys[k]);
    assert keys[..k + 1] == keys[..k] + [keys[k]];
  }

  /** One round of the writer's loop. */
  method WriteNext(list: ArgList, node: ArgNode, ghost start: string, before: string, ghost k: nat)
    returns (output: string, next: ArgNode?)
    requires list.Valid() && k < |list.nodes| && node == list.nodes[k]
    requires before == start + Bulks(list.Keys()[..k])
    ensures output == start + Bulks(list.Keys()[..k + 1]) && next == list.NodeAt(k + 1)
  {
    assert list.LinkedAt(k);
    BulksNext(start, list.Keys(), k);
    output := WriteBulk(before, node.key);
    next := node.next;
  }

  /** writeRespArrayToBuffer (server/redisserver.c:220-239), appending to what is in the output. */
  method WriteRespArray(list: ArgList, before: string) returns (output: string)
    requires list.Valid()
    ensures output == before + ArrayText(list.Keys())
  {
    output := before + ("*" + Digits(list.size) + CRLF);
    var node := list.head;
    ghost var start := output;
    ghost var k := 0;
    while node != null
      invariant 0 <= k <= |list.nodes| && node == list.NodeAt(k)
      invariant output == start + Bulks(list.Keys()[..k])
      decreases |list.nodes| - k
    {
      output, node := WriteNext(list, node, start, output, k);
      k := k + 1;
    }
    assert list.Keys()[..k] == list.Keys();
  }

  /** server/protocol.c:134-138. */
  method SkipSeparators(buf: string, i: nat, len: nat) returns (index: nat)
    requires i <= len <= |buf|
    ensures index == WordStart(buf[..len], i)
  {
    index := i;
    ghost var s := buf[..len];
    while index < len && IsSeparator(buf[index])
      invariant i <= index <= len && WordStart(s, index) == WordStart(s, i)
    {
      assert SeparatorAt(s, index);
      index := index + 1;
    }
    assert index < len ==> !SeparatorAt(s, index);
  }

  /** server/protocol.c:139-144. */
  method TakeWord(buf: string, i: nat, len: nat) returns (index: nat)
    requires i <= len <= |buf|
    ensures index == WordEnd(buf[..len], i)
  {
    index := i;
    ghost var s := buf[..len];
    while index < len && !IsSeparator(buf[index])
      invariant i <= index <= len && WordEnd(s, index) == WordEnd(s, i)
    {
      assert !SeparatorAt(s, index);
      index := index + 1;
    }
    assert index < len ==> SeparatorAt(s, index);
  }

  lemma {:induction false} WordsStep(s: string, i: nat, front: seq<string>)
    requires i <= |s|
    ensures var a := WordStart(s, i);
      var b := WordEnd(s, a);
      && (a < b <==> a < |s|)
      && front + WordsFrom(s, i) == (if a < b then front + [s[a..b]] else front) + WordsFrom(s, b)
  {
    var a := WordStart(s, i);
    var b := WordEnd(s, a);
    if a < |s| {
      assert !SeparatorAt(s, a);
      assert front + ([s[a..b]] + WordsFrom(s, b)) == front + [s[a..b]] + WordsFrom(s, b);
    }
  }

  /** simpleTokenizer (server/protocol.c:126-153). */
  method SimpleTokenizer(buf: string, len: nat) returns (tokens: ArgList)
    requires len <= |buf|
    ensures tokens.Valid() && fresh(tokens) && fresh(tokens.nodes)
    ensures tokens.Keys() == WordsFrom(buf[..len], 0)
  {
    tokens := new ArgList();
    ghost var s := buf[..len];
    ghost var words := WordsFrom(s, 0);
    var index := 0;
    assert [] + words == words;
    while index < len
      invariant 0 <= index <= len && tokens.Valid() && fresh(tokens) && fresh(tokens.nodes)
      invariant tokens.Keys() + WordsFrom(s, index) == words
      decreases len - index
    {
      WordsStep(s, index, tokens.Keys());
      var str := SkipSeparators(buf, index, len);
      index := TakeWord(buf, str, len);
      if index > str {
        Received(buf, len, str, index);
        tokens.Add(buf[str..index]);
      }
    }
    assert index == |s| && tokens.Keys() + [] == tokens.Keys();
  }

  /** bufferTokenizer (server/protocol.c:15-27). */
  method BufferTokenizer(buf: string, len: nat) returns (tokens: ArgList?)
    requires len < |buf| && len < ULONG - 2 && !Overruns(buf[..len])
    ensures tokens == null <==> len == 0 || (buf[0] == '*' && Tokens(buf[..len]).None?)
    ensures tokens != null ==> tokens.Valid() && fresh(tokens) && fresh(tokens.nodes)
    ensures tokens != null ==>
      tokens.Keys() == if buf[0] == '*' then Tokens(buf[..len]).value else WordsFrom(buf[..len], 0)
  {
    if len < 1 { return null; }
    if buf[0] == '*' {
      tokens := RespTokenizer(buf, len);
    } else {
      tokens := SimpleTokenizer(buf, len);
    }
  }
}
