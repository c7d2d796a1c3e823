/** The RESP array text of server/protocol.c and server/redisserver.c: a grammar, the reading of
    respTokenizer as a function of the bytes, and the writer. */
module Resp {
  import opened Decimal

  const ULONG := 0x1_0000_0000_0000_0000
  const CRLF := "\r\n"

  /** What getRespInt's unsigned long holds after a run of digits. */
  function ULongOf(digits: string): (n: nat)
    requires AllDigits(digits)
    ensures n < ULONG
  {
    NatOf(digits) % ULONG
  }

  // ----- the grammar: arrays and bulk strings, with lengths read modulo 2^64 -----

  /** A run of digits that the tokenizer reads as n. */
  predicate Announces(digits: string, n: nat) {
    AllDigits(digits) && ULongOf(digits) == n
  }

  /** What follows the digits of the header: a line end, and each string after its own header. */
  function Tail(sizes: seq<string>, tokens: seq<string>): string
    requires |sizes| == |tokens|
  {
    if tokens == [] then CRLF
    else CRLF + "$" + sizes[0] + CRLF + tokens[0] + Tail(sizes[1..], tokens[1..])
  }

  ghost predicate SizesFit(sizes: seq<string>, tokens: seq<string>) {
    && |sizes| == |tokens|
    && forall i {:trigger Announces(sizes[i], |tokens[i]|)} :: 0 <= i < |tokens| ==> Announces(sizes[i], |tokens[i]|)
  }

  ghost predicate EncodesWith(s: string, tokens: seq<string>, count: string, sizes: seq<string>) {
    Announces(count, |tokens|) && SizesFit(sizes, tokens) && s == "*" + count + Tail(sizes, tokens)
  }

  /** s is a header and exactly the declared number of length-prefixed strings, and nothing else. */
  ghost predicate Encodes(s: string, tokens: seq<string>) {
    exists count, sizes :: EncodesWith(s, tokens, count, sizes)
  }

  // ----- what respTokenizer reads -----

  predicate IsReturn(s: string, i: nat)
    requires i < |s|
  {
    s[i] == '\r'
  }

  /** The first carriage return from i on; |s| when there is none. */
  function LineEnd(s: string, i: nat): (e: nat)
    requires i <= |s|
    ensures i <= e <= |s|
    ensures e < |s| ==> s[e] == '\r'
    decreases |s| - i
  {
    if i == |s| || s[i] == '\r' then i else LineEnd(s, i + 1)
  }

  lemma {:induction false} LineEndIs(s: string, i: nat, e: nat)
    requires i <= e < |s| && s[e] == '\r'
    requires forall k {:trigger IsReturn(s, k)} :: i <= k < e ==> !IsReturn(s, k)
    ensures LineEnd(s, i) == e
    decreases e - i
  {
    if i != e {
      assert !IsReturn(s, i);
      LineEndIs(s, i + 1, e);
    }
  }

  predicate EndsLine(s: string, e: nat) {
    e + 1 < |s| && s[e] == '\r' && s[e + 1] == '\n'
  }

  /** The number at i, when it is digits up to a line end. */
  function RespInt(s: string, i: nat): Option<nat>
    requires i <= |s|
  {
    var e := LineEnd(s, i);
    if EndsLine(s, e) && AllDigits(s[i..e]) then Some(ULongOf(s[i..e])) else None
  }

  /** What one round of the main loop finds: the final line end, or one more string and the
      position behind it. */
  datatype Round = Illegal | Final | Str(token: string, next: nat)

  /** The string whose length stands at i. */
  function StringAt(s: string, i: nat): (r: Round)
    requires i <= |s|
    ensures r.Str? ==> i < r.next < |s|
    ensures !r.Final?
  {
    match RespInt(s, i)
    case None => Illegal
    case Some(l) =>
      var b := LineEnd(s, i) + 2;
      if b + l + 1 >= |s| || s[b + l] != '\r' then Illegal else Str(s[b..b + l], b + l)
  }

  function RoundAt(s: string, i: nat): (r: Round)
    requires i <= |s|
    ensures r.Str? ==> i < r.next < |s|
  {
    var e := LineEnd(s, i);
    if !EndsLine(s, e) then Illegal
    else if e + 2 == |s| then Final
    else if s[e + 2] != '$' then Illegal
    else StringAt(s, e + 3)
  }

  /** The strings from i on when num rounds are left, the last of which takes the final line end. */
  function StringsBy(round: nat -> Round, size: nat, i: nat, num: nat): (r: Option<seq<string>>)
    decreases num
  {
    if i >= size || num == 0 then None
    else
      match round(i)
      case Illegal => None
      case Final => if num == 1 then Some([]) else None
      case Str(token, next) =>
        match StringsBy(round, size, next, num - 1)
        case None => None
        case Some(rest) => Some([token] + rest)
  }

  function Rounds(s: string): nat -> Round {
    (i: nat) => if i <= |s| then RoundAt(s, i) else Illegal
  }

  function Strings(s: string, i: nat, num: nat): Option<seq<string>> {
    StringsBy(Rounds(s), |s|, i, num)
  }

  /** respTokenizer as a function of the bytes received. */
  function Tokens(s: string): Option<seq<string>> {
    if s == [] || s[0] != '*' then None
    else
      match RespInt(s, 1)
      case None => None
      case Some(n) => if n == ULONG - 1 then None else Strings(s, 1, n + 1)
  }

  // ----- lengths that wrap around -----

  /** A sum of unsigned longs. */
  function Sum64(a: nat, b: nat): (r: nat)
    requires a < ULONG && b < ULONG
    ensures r < ULONG
  {
    if a + b >= ULONG then a + b - ULONG else a + b
  }

  /** The length getRespInt gives at i; a line end that is cut off is not noticed there. */
  function LengthRead(s: string, i: nat): Option<nat>
    requires i <= |s|
  {
    var e := LineEnd(s, i);
    if AllDigits(s[i..e]) && (EndsLine(s, e) || e + 1 >= |s|) then Some(ULongOf(s[i..e])) else None
  }

  /** The length announced for a string at b is so large that the test for room, a sum in 64 bits
      (server/protocol.c:77), lets it through. */
  predicate TooLong(size: nat, b: nat, l: nat) {
    l != ULONG - 1 && ULONG <= b + l + 1 < ULONG + size
  }

  predicate LengthWraps(s: string, i: nat)
    requires i <= |s|
  {
    LengthRead(s, i).Some? && TooLong(|s|, LineEnd(s, i) + 2, LengthRead(s, i).value)
  }

  predicate WrapsAt(s: string, i: nat)
    requires i <= |s|
  {
    var e := LineEnd(s, i);
    EndsLine(s, e) && e + 2 < |s| && s[e + 2] == '$' && LengthWraps(s, e + 3)
  }

  function Wraps(s: string): nat -> bool {
    (i: nat) => i <= |s| && WrapsAt(s, i)
  }

  /** One of the rounds the main loop comes to has such a length. */
  predicate OverrunsBy(round: nat -> Round, wraps: nat -> bool, size: nat, i: nat, num: nat)
    decreases num
  {
    i < size && num != 0 && (wraps(i) || (round(i).Str? && OverrunsBy(round, wraps, size, round(i).next, num - 1)))
  }

  /** The inputs on which respTokenizer leaves its buffer: the guard a caller would need. */
  predicate Overruns(s: string) {
    s != [] && s[0] == '*' && RespInt(s, 1).Some? && RespInt(s, 1).value != ULONG - 1
    && OverrunsBy(Rounds(s), Wraps(s), |s|, 1, RespInt(s, 1).value + 1)
  }

  /** The 64-bit test for room is the intended one if and only if the length does not get through by
      wrapping around. */
  lemma RoomTest(size: nat, b: nat, l: nat)
    requires size < ULONG && b < ULONG && l < ULONG - 1
    ensures (Sum64(Sum64(b, l), 1) < size <==> b + l + 1 < size) <==> !TooLong(size, b, l)
  {
  }

  lemma StrDoesNotWrap(s: string, i: nat)
    requires i <= |s| < ULONG && !RoundAt(s, i).Illegal?
    ensures !WrapsAt(s, i)
  {
  }

  lemma {:induction false} AcceptedStays(s: string, i: nat, num: nat)
    requires |s| < ULONG && Strings(s, i, num).Some?
    ensures !OverrunsBy(Rounds(s), Wraps(s), |s|, i, num)
    decreases num
  {
    StrDoesNotWrap(s, i);
    if RoundAt(s, i).Str? { AcceptedStays(s, RoundAt(s, i).next, num - 1); }
  }

  /** No text of the grammar is among the inputs that overrun. */
  lemma EncodedStays(s: string, tokens: seq<string>)
    requires |s| < ULONG && Encodes(s, tokens)
    ensures !Overruns(s)
  {
    TokensExact(s, tokens);
    AcceptedStays(s, 1, RespInt(s, 1).value + 1);
  }

  // ----- the two agree -----

  lemma {:induction false} SizesCons(size: string, sizes: seq<string>, token: string, tokens: seq<string>)
    requires SizesFit(sizes, tokens) && Announces(size, |token|)
    ensures SizesFit([size] + sizes, [token] + tokens)
    ensures Tail([size] + sizes, [token] + tokens) == CRLF + "$" + size + CRLF + token + Tail(sizes, tokens)
  {
    var ss, ts := [size] + sizes, [token] + tokens;
    assert ss[1..] == sizes && ts[1..] == tokens;
    forall k | 0 <= k < |ts|
      ensures Announces(ss[k], |ts[k]|)
    {
      if k > 0 { assert Announces(sizes[k - 1], |tokens[k - 1]|); }
    }
  }

  lemma SizesRest(sizes: seq<string>, tokens: seq<string>)
    requires SizesFit(sizes, tokens) && tokens != []
    ensures Announces(sizes[0], |tokens[0]|) && SizesFit(sizes[1..], tokens[1..])
  {
    forall k | 0 <= k < |tokens[1..]|
      ensures Announces(sizes[1..][k], |tokens[1..][k]|)
    {
      assert Announces(sizes[k + 1], |tokens[k + 1]|);
    }
  }

  /** A round that finds a string has seen its header, its bytes, and the start of a line end. */
  lemma RoundSound(s: string, i: nat) returns (size: string)
    requires i <= |s| && RoundAt(s, i).Str?
    ensures var Str(token, next) := RoundAt(s, i);
      && Announces(size, |token|) && LineEnd(s, next) == next
      && s[LineEnd(s, i)..] == CRLF + "$" + size + CRLF + token + s[next..]
  {
    var e := LineEnd(s, i);
    var f := LineEnd(s, e + 3);
    var next := RoundAt(s, i).next;
    size := s[e + 3..f];
    assert s[e..] == s[e..e + 3] + s[e + 3..f] + s[f..f + 2] + s[f + 2..next] + s[next..];
    assert s[e..e + 3] == CRLF + "$" && s[f..f + 2] == CRLF;
    LineEndIs(s, next, next);
  }

  /** From the next line end on, s is what follows a header. */
  ghost predicate TailAt(s: string, i: nat, tokens: seq<string>, sizes: seq<string>) {
    i <= |s| && SizesFit(sizes, tokens) && s[LineEnd(s, i)..] == Tail(sizes, tokens)
  }

  /** Rounds from i on that find these strings and then the final line end. */
  ghost predicate Chain(round: nat -> Round, size: nat, i: nat, tokens: seq<string>)
    decreases |tokens|
  {
    i < size &&
    if tokens == [] then round(i) == Final
    else round(i).Str? && round(i).token == tokens[0] && Chain(round, size, round(i).next, tokens[1..])
  }

  lemma {:induction false} StringsAreChain(round: nat -> Round, size: nat, i: nat, num: nat, tokens: seq<string>)
    ensures StringsBy(round, size, i, num) == Some(tokens) <==> num == |tokens| + 1 && Chain(round, size, i, tokens)
    decreases num
  {
    if i < size && num > 0 && round(i).Str? {
      var next := round(i).next;
      if tokens != [] {
        StringsAreChain(round, size, next, num - 1, tokens[1..]);
        assert tokens == [tokens[0]] + tokens[1..];
      }
      if StringsBy(round, size, next, num - 1).Some? {
        var rest := StringsBy(round, size, next, num - 1).value;
        assert ([round(i).token] + rest)[1..] == rest;
      }
    }
  }

  /** Accepted strings follow the grammar. */
  lemma {:induction false} TailOfChain(s: string, i: nat, tokens: seq<string>) returns (sizes: seq<string>)
    requires Chain(Rounds(s), |s|, i, tokens)
    ensures TailAt(s, i, tokens, sizes)
    decreases |tokens|
  {
    if tokens == [] {
      sizes := [];
      assert s[LineEnd(s, i)..] == CRLF;
    } else {
      var size := RoundSound(s, i);
      var rest := TailOfChain(s, RoundAt(s, i).next, tokens[1..]);
      SizesCons(size, rest, tokens[0], tokens[1..]);
      sizes := [size] + rest;
      assert tokens == [tokens[0]] + tokens[1..];
    }
  }

  /** A number and its line end, in place. */
  lemma {:induction false} ReadsInt(s: string, i: nat, d: string, n: nat)
    requires i + |d| <= |s| && s[i..i + |d|] == d && EndsLine(s, i + |d|) && Announces(d, n)
    ensures LineEnd(s, i) == i + |d| && RespInt(s, i) == Some(n)
  {
    forall k | i <= k < i + |d|
      ensures !IsReturn(s, k)
    {
      assert s[k] == d[k - i] && IsDigit(d[k - i]);
    }
    LineEndIs(s, i, i + |d|);
  }

  lemma FrontOf(s: string, i: nat, a: string, rest: string)
    requires i <= |s| && s[i..] == a + rest
    ensures i + |a| <= |s| && s[i..i + |a|] == a && s[i + |a|..] == rest
  {
    var u := s[i..];
    assert u[..|a|] == a && u[|a|..] == rest;
    assert s[i..i + |a|] == u[..|a|];
    assert s[i + |a|..] == u[|a|..];
  }

  lemma Nested(a: string, b: string, c: string, d: string)
    ensures a + b + c + d == a + (b + (c + d))
  {
  }

  /** Where the four parts of a text stand. */
  lemma Parts(s: string, i: nat, a: string, b: string, c: string, d: string)
    requires i <= |s| && s[i..] == a + b + c + d
    ensures var j := i + |a|;
      var k := j + |b|;
      var l := k + |c|;
      l <= |s| && s[i..j] == a && s[j..k] == b && s[k..l] == c && s[l..] == d
  {
    Nested(a, b, c, d);
    FrontOf(s, i, a, b + (c + d));
    FrontOf(s, i + |a|, b, c + d);
    FrontOf(s, i + |a| + |b|, c, d);
  }

  /** A length, a line end, that many bytes and a line end make a string. */
  lemma {:induction false} StringComplete(s: string, i: nat, size: string, token: string, rest: string)
    requires i <= |s| && Announces(size, |token|) && |rest| >= 2 && rest[0] == '\r'
    requires s[i..] == size + CRLF + token + rest
    ensures StringAt(s, i).Str? && StringAt(s, i).token == token
    ensures var next := StringAt(s, i).next; s[next..] == rest && LineEnd(s, next) == next
  {
    Parts(s, i, size, CRLF, token, rest);
    var f := i + |size|;
    assert s[f] == s[f..f + 2][0] && s[f + 1] == s[f..f + 2][1];
    ReadsInt(s, i, size, |token|);
    var next := f + 2 + |token|;
    assert s[next] == s[next..][0] == rest[0];
    StringIs(s, i, f, |token|);
    LineEndIs(s, next, next);
  }

  lemma {:induction false} StringIs(s: string, i: nat, f: nat, l: nat)
    requires i <= |s| && LineEnd(s, i) == f && RespInt(s, i) == Some(l)
    requires f + 2 + l + 1 < |s| && s[f + 2 + l] == '\r'
    ensures StringAt(s, i) == Str(s[f + 2..f + 2 + l], f + 2 + l)
  {
  }

  lemma {:induction false} RoundComplete(s: string, i: nat, size: string, token: string, rest: string)
    requires i <= |s| && Announces(size, |token|) && |rest| >= 2 && rest[0] == '\r'
    requires s[LineEnd(s, i)..] == CRLF + "$" + size + CRLF + token + rest
    ensures RoundAt(s, i).Str? && RoundAt(s, i).token == token
    ensures var next := RoundAt(s, i).next; s[next..] == rest && LineEnd(s, next) == next
  {
    var e := LineEnd(s, i);
    var u := s[e..];
    assert u[0] == '\r' && u[1] == '\n' && u[2] == '$';
    assert s[e + 3..] == u[3..] == size + CRLF + token + rest;
    StringComplete(s, e + 3, size, token, rest);
  }

  lemma {:induction false} TailStart(sizes: seq<string>, tokens: seq<string>)
    requires |sizes| == |tokens|
    ensures |Tail(sizes, tokens)| >= 2 && Tail(sizes, tokens)[0] == '\r' && Tail(sizes, tokens)[1] == '\n'
  {
  }

  lemma {:induction false} FinalAt(s: string, i: nat)
    requires i <= |s| && s[LineEnd(s, i)..] == CRLF
    ensures i < |s| && RoundAt(s, i) == Final
  {
    var e := LineEnd(s, i);
    assert s[e] == s[e..][0] && s[e + 1] == s[e..][1];
  }

  lemma CompleteStep(s: string, i: nat, tokens: seq<string>, sizes: seq<string>)
    requires TailAt(s, i, tokens, sizes) && tokens != []
    ensures i < |s| && RoundAt(s, i).Str? && RoundAt(s, i).token == tokens[0]
    ensures TailAt(s, RoundAt(s, i).next, tokens[1..], sizes[1..])
  {
    TailStart(sizes, tokens);
    SizesRest(sizes, tokens);
    TailStart(sizes[1..], tokens[1..]);
    RoundComplete(s, i, sizes[0], tokens[0], Tail(sizes[1..], tokens[1..]));
  }

  /** Text that follows the grammar is accepted, and read as just these strings. */
  lemma {:induction false} ChainOfTail(s: string, i: nat, tokens: seq<string>, sizes: seq<string>)
    requires TailAt(s, i, tokens, sizes)
    ensures Chain(Rounds(s), |s|, i, tokens)
    decreases |tokens|
  {
    if tokens == [] {
      FinalAt(s, i);
    } else {
      CompleteStep(s, i, tokens, sizes);
      ChainOfTail(s, RoundAt(s, i).next, tokens[1..], sizes[1..]);
    }
  }

  /** respTokenizer accepts exactly the texts of the grammar, and reads from each the one list of
      strings it encodes. */
  lemma TokensExact(s: string, tokens: seq<string>)
    requires |s| < ULONG
    ensures Tokens(s) == Some(tokens) <==> Encodes(s, tokens)
  {
    if Tokens(s) == Some(tokens) { TokensSound(s, tokens); }
    if Encodes(s, tokens) {
      var count, sizes :| EncodesWith(s, tokens, count, sizes);
      TailLength(sizes, tokens);
      TokensComplete(s, tokens, count, sizes);
    }
  }

  lemma HeaderSound(s: string, n: nat) returns (count: string)
    requires s != [] && s[0] == '*' && RespInt(s, 1) == Some(n)
    ensures Announces(count, n) && s == "*" + count + s[LineEnd(s, 1)..]
  {
    count := s[1..LineEnd(s, 1)];
  }

  lemma TokensSound(s: string, tokens: seq<string>)
    requires Tokens(s) == Some(tokens)
    ensures Encodes(s, tokens)
  {
    var n := RespInt(s, 1).value;
    StringsAreChain(Rounds(s), |s|, 1, n + 1, tokens);
    var sizes := TailOfChain(s, 1, tokens);
    var count := HeaderSound(s, n);
    assert EncodesWith(s, tokens, count, sizes);
  }

  /** The text of a list of strings is longer than the list. */
  lemma {:induction false} TailLength(sizes: seq<string>, tokens: seq<string>)
    requires |sizes| == |tokens|
    ensures |tokens| < |Tail(sizes, tokens)|
  {
    if tokens != [] { TailLength(sizes[1..], tokens[1..]); }
  }

  lemma TokensComplete(s: string, tokens: seq<string>, count: string, sizes: seq<string>)
    requires EncodesWith(s, tokens, count, sizes) && |tokens| < ULONG - 1
    ensures Tokens(s) == Some(tokens)
  {
    var rest := Tail(sizes, tokens);
    var e := 1 + |count|;
    TailStart(sizes, tokens);
    assert s[0] == '*' && s[1..e] == count && s[e..] == rest;
    assert s[e] == rest[0] && s[e + 1] == rest[1];
    ReadsInt(s, 1, count, |tokens|);
    ChainOfTail(s, 1, tokens, sizes);
    StringsAreChain(Rounds(s), |s|, 1, |tokens| + 1, tokens);
  }

  // ----- the writer -----

  /** A bulk string: its length, a line end, its bytes, a line end. */
  function BulkText(token: string): string {
    "$" + Digits(|token|) + CRLF + token + CRLF
  }

  function Bulks(tokens: seq<string>): string {
    if tokens == [] then [] else BulkText(tokens[0]) + Bulks(tokens[1..])
  }

  /** writeRespArrayToBuffer (server/redisserver.c:220-239). */
  function ArrayText(tokens: seq<string>): string {
    "*" + Digits(|tokens|) + CRLF + Bulks(tokens)
  }

  function Sizes(tokens: seq<string>): (r: seq<string>)
    ensures |r| == |tokens|
  {
    seq(|tokens|, i requires 0 <= i < |tokens| => Digits(|tokens[i]|))
  }

  lemma Regroup(d: string, t: string, rest: string)
    ensures CRLF + ("$" + d + CRLF + t + CRLF + rest) == CRLF + "$" + d + CRLF + t + (CRLF + rest)
  {
  }

  lemma {:induction false} BulksAreTail(tokens: seq<string>)
    ensures CRLF + Bulks(tokens) == Tail(Sizes(tokens), tokens)
  {
    if tokens == [] {
      assert CRLF + [] == CRLF;
    } else {
      BulksAreTail(tokens[1..]);
      assert Sizes(tokens)[1..] == Sizes(tokens[1..]);
      Regroup(Digits(|tokens[0]|), tokens[0], Bulks(tokens[1..]));
    }
  }

  lemma {:induction false} PrintedAnnounces(n: nat)
    requires n < ULONG
    ensures Announces(Digits(n), n)
  {
  }

  lemma SizesFitWriter(tokens: seq<string>)
    requires forall i :: 0 <= i < |tokens| ==> |tokens[i]| < ULONG
    ensures SizesFit(Sizes(tokens), tokens)
  {
    var sizes := Sizes(tokens);
    forall i | 0 <= i < |tokens|
      ensures Announces(sizes[i], |tokens[i]|)
    {
      PrintedAnnounces(|tokens[i]|);
    }
  }

  /** The writer's text encodes the strings it was given, whatever bytes they hold. */
  lemma WriterEncodes(tokens: seq<string>)
    requires |tokens| < ULONG && forall i :: 0 <= i < |tokens| ==> |tokens[i]| < ULONG
    ensures Encodes(ArrayText(tokens), tokens)
  {
    BulksAreTail(tokens);
    PrintedAnnounces(|tokens|);
    SizesFitWriter(tokens);
    var count := Digits(|tokens|);
    assert ArrayText(tokens) == "*" + count + (CRLF + Bulks(tokens));
    assert EncodesWith(ArrayText(tokens), tokens, count, Sizes(tokens));
  }

  /** Reading undoes writing: every list of byte strings, empty ones and ones that hold line ends,
      dollars or stars among them, comes back as it was. */
  lemma ReadUndoesWrite(tokens: seq<string>)
    requires |ArrayText(tokens)| < ULONG
    ensures Tokens(ArrayText(tokens)) == Some(tokens)
  {
    BulksAreTail(tokens);
    TailLength(Sizes(tokens), tokens);
    TokensShort(tokens);
    WriterEncodes(tokens);
    TokensExact(ArrayText(tokens), tokens);
  }

  lemma {:induction false} TokensShort(tokens: seq<string>)
    ensures forall i :: 0 <= i < |tokens| ==> |tokens[i]| <= |Bulks(tokens)|
    ensures |tokens| <= |Bulks(tokens)|
  {
    if tokens != [] {
      TokensShort(tokens[1..]);
      forall i | 0 <= i < |tokens|
        ensures |tokens[i]| <= |Bulks(tokens)|
      {
        if i > 0 { assert tokens[i] == tokens[1..][i - 1]; }
      }
    }
  }

  lemma HeaderOnly(count: string)
    requires Announces(count, 0)
    ensures Tokens("*" + count + CRLF) == Some([])
  {
    assert SizesFit([], []) && EncodesWith("*" + count + CRLF, [], count, []);
    TokensComplete("*" + count + CRLF, [], count, []);
  }

  /** A count is only read modulo 2^64: this header announces 2^64 strings and none follow, yet the
      text is accepted as the empty list. */
  lemma CountsWrapAround()
    ensures NatOf(Digits(ULONG)) == ULONG && Tokens("*" + Digits(ULONG) + CRLF) == Some([])
  {
    HeaderOnly(Digits(ULONG));
  }

  lemma HugeLength(d: string)
    requires AllDigits(d) && ULongOf(d) == ULONG - 2
    ensures var s := "*1" + CRLF + "$" + d + CRLF + "x" + CRLF;
      Overruns(s) && Tokens(s) == None
  {
    var s := "*1" + CRLF + "$" + d + CRLF + "x" + CRLF;
    var i := |d| + 5;
    assert s[1] == '1' && s[2] == '\r' && s[3] == '\n' && s[4] == '$';
    assert s[5..i] == d && s[i] == '\r' && s[i + 1] == '\n';
    LineEndIs(s, 1, 2);
    forall k | 5 <= k < i
      ensures !IsReturn(s, k)
    {
      assert s[k] == s[5..i][k - 5] == d[k - 5] && IsDigit(d[k - 5]);
    }
    LineEndIs(s, 5, i);
    assert s[1..2] == "1";
    assert NatOf("1") == 1 by { assert "1"[..0] == []; }
    assert RespInt(s, 1) == Some(1);
    assert LengthRead(s, 5) == Some(ULONG - 2);
    assert Wraps(s)(1);
    assert RoundAt(s, 1) == Illegal;
    assert Strings(s, 1, 2) == None;
  }

  /** A concrete one: the announced length is 2^64 - 2, and one byte follows. */
  lemma LengthsWrapAround()
    ensures var s := "*1" + CRLF + "$" + Digits(ULONG - 2) + CRLF + "x" + CRLF;
      Overruns(s) && Tokens(s) == None
  {
    HugeLength(Digits(ULONG - 2));
  }
}
