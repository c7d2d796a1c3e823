/** The file SAVE writes (ds/commands.c:578-655): numbers and fields, record after record, and how
    they are read back. */
module Dump {
  import opened Decimal

  /** A length or a code takes eight bytes, least significant first. */
  const NUMBER_SIZE := 8
  const WORD_SIZE := 4
  const BULKSTRING := 3
  const BITMAP := 102
  const SORTED_SET := 103

  function Pow256(k: nat): (p: nat)
    ensures p > 0
  {
    if k == 0 then 1 else 256 * Pow256(k - 1)
  }

  function Bytes(n: nat, k: nat): (s: string)
    ensures |s| == k
  {
    if k == 0 then [] else [(n % 256) as char] + Bytes(n / 256, k - 1)
  }

  function NumberOf(s: string): (n: nat)
    ensures n < Pow256(|s|)
  {
    if s == [] then 0 else (s[0] as int) % 256 + 256 * NumberOf(s[1..])
  }

  lemma {:induction false} BytesRoundTrip(n: nat, k: nat)
    requires n < Pow256(k)
    ensures NumberOf(Bytes(n, k)) == n
  {
    if k != 0 {
      var s := Bytes(n, k);
      assert s[1..] == Bytes(n / 256, k - 1);
      BytesRoundTrip(n / 256, k - 1);
      assert s[0] as int == n % 256;
    }
  }

  lemma WordFits()
    ensures Pow256(WORD_SIZE) == 0x1_0000_0000
  {
    assert Pow256(2) == 65536;
  }

  // ----- reading from the front -----

  /** What a reader makes of the front of a text, and the text after it; None at an early end. */
  datatype Front<T> = Early | Front(value: T, rest: string)

  function Number(n: nat): string {
    Bytes(n, NUMBER_SIZE)
  }

  function ReadNumber(s: string, size: nat): (r: Front<nat>)
    ensures r.Front? ==> size + |r.rest| == |s| && r.value < Pow256(size)
  {
    if |s| < size then Early else Front(NumberOf(s[..size]), s[size..])
  }

  lemma {:induction false} NumberBack(n: nat, size: nat, rest: string)
    requires n < Pow256(size)
    ensures ReadNumber(Bytes(n, size) + rest, size) == Front(n, rest)
  {
    BytesRoundTrip(n, size);
    var s := Bytes(n, size) + rest;
    assert s[..size] == Bytes(n, size) && s[size..] == rest;
  }

  /** A byte string: its length, then its bytes. */
  function Field(t: string): string {
    Number(|t|) + t
  }

  function ReadField(s: string): (r: Front<string>)
    ensures r.Front? ==> |r.rest| < |s|
  {
    match ReadNumber(s, NUMBER_SIZE)
    case Early => Early
    case Front(len, t) => if |t| < len then Early else Front(t[..len], t[len..])
  }

  predicate Short(t: string) {
    |t| < Pow256(NUMBER_SIZE)
  }

  lemma FieldBack(t: string, rest: string)
    requires Short(t)
    ensures ReadField(Field(t) + rest) == Front(t, rest)
  {
    NumberBack(|t|, NUMBER_SIZE, t + rest);
    assert Field(t) + rest == Number(|t|) + (t + rest);
    assert (t + rest)[..|t|] == t && (t + rest)[|t|..] == rest;
  }

  // ----- bitmap words -----

  function WordValue(n: nat): bv32
    requires n < 0x1_0000_0000
  {
    n as bv32
  }

  lemma WordBack(w: bv32)
    ensures WordValue(w as nat) == w
  {
  }

  function WordBytes(words: seq<bv32>): (s: string)
    ensures |s| == WORD_SIZE * |words|
  {
    if words == [] then [] else Bytes(words[0] as nat, WORD_SIZE) + WordBytes(words[1..])
  }

  function ReadWords(s: string, count: nat): (r: Front<seq<bv32>>)
    ensures r.Front? ==> |r.rest| <= |s|
    decreases count
  {
    if count == 0 then Front([], s)
    else
      match ReadNumber(s, WORD_SIZE)
      case Early => Early
      case Front(n, t) =>
        WordFits();
        match ReadWords(t, count - 1)
        case Early => Early
        case Front(words, rest) => Front([WordValue(n)] + words, rest)
  }

  lemma Assoc(a: string, b: string, c: string)
    ensures a + b + c == a + (b + c)
  {
  }

  lemma FirstAndRest<T>(s: seq<T>)
    requires s != []
    ensures [s[0]] + s[1..] == s
  {
  }

  lemma {:induction false} WordsStep(w: bv32, words: seq<bv32>, t: string, rest: string)
    requires ReadWords(t, |words|) == Front(words, rest)
    ensures ReadWords(Bytes(w as nat, WORD_SIZE) + t, |words| + 1) == Front([w] + words, rest)
  {
    WordFits();
    WordBack(w);
    NumberBack(w as nat, WORD_SIZE, t);
  }

  lemma {:induction false} WordsBack(words: seq<bv32>, rest: string)
    ensures ReadWords(WordBytes(words) + rest, |words|) == Front(words, rest)
    decreases |words|
  {
    if words == [] {
      assert WordBytes(words) + rest == rest;
    } else {
      var w, t := Bytes(words[0] as nat, WORD_SIZE), WordBytes(words[1..]);
      WordsBack(words[1..], rest);
      WordsStep(words[0], words[1..], t + rest, rest);
      Assoc(w, t, rest);
      FirstAndRest(words);
    }
  }

  /** The words of a bitmap: how many, then all of them. */
  function WordsField(words: seq<bv32>): string {
    Number(|words|) + WordBytes(words)
  }

  function ReadWordsField(s: string): (r: Front<seq<bv32>>)
    ensures r.Front? ==> |r.rest| < |s|
  {
    match ReadNumber(s, NUMBER_SIZE)
    case Early => Early
    case Front(len, t) => ReadWords(t, len)
  }

  lemma WordsFieldBack(words: seq<bv32>, rest: string)
    requires |words| < Pow256(NUMBER_SIZE)
    ensures ReadWordsField(WordsField(words) + rest) == Front(words, rest)
  {
    NumberBack(|words|, NUMBER_SIZE, WordBytes(words) + rest);
    WordsBack(words, rest);
    assert WordsField(words) + rest == Number(|words|) + (WordBytes(words) + rest);
  }

  // ----- records -----

  datatype Record =
    | TextRecord(key: string, str: string, expiry: string)
    | BitsRecord(key: string, words: seq<bv32>)
    | ScoreRecord(key: string, score: string, member: string)

  function Encode(r: Record): string {
    match r
    case TextRecord(key, str, expiry) => Number(BULKSTRING) + Field(key) + Field(str) + Field(expiry)
    case BitsRecord(key, words) => Number(BITMAP) + Field(key) + WordsField(words)
    case ScoreRecord(key, score, member) => Number(SORTED_SET) + Field(key) + Field(score) + Field(member)
  }

  predicate Fits(r: Record) {
    Short(r.key) &&
    match r
    case TextRecord(_, str, expiry) => Short(str) && Short(expiry)
    case BitsRecord(_, words) => |words| < Pow256(NUMBER_SIZE)
    case ScoreRecord(_, score, member) => Short(score) && Short(member)
  }

  function ReadThree(s: string): (r: Front<(string, string, string)>)
    ensures r.Front? ==> |r.rest| < |s|
  {
    match ReadField(s)
    case Early => Early
    case Front(a, t) =>
      match ReadField(t)
      case Early => Early
      case Front(b, u) =>
        match ReadField(u)
        case Early => Early
        case Front(c, rest) => Front((a, b, c), rest)
  }

  lemma ThreeBack(a: string, b: string, c: string, rest: string)
    requires Short(a) && Short(b) && Short(c)
    ensures ReadThree(Field(a) + (Field(b) + (Field(c) + rest))) == Front((a, b, c), rest)
  {
    var u := Field(c) + rest;
    var t := Field(b) + u;
    FieldBack(a, t);
    FieldBack(b, u);
    FieldBack(c, rest);
  }

  function ReadBitmap(s: string): (r: Front<(string, seq<bv32>)>)
    ensures r.Front? ==> |r.rest| < |s|
  {
    match ReadField(s)
    case Early => Early
    case Front(key, t) =>
      match ReadWordsField(t)
      case Early => Early
      case Front(words, rest) => Front((key, words), rest)
  }

  lemma BitmapBack(key: string, words: seq<bv32>, rest: string)
    requires Short(key) && |words| < Pow256(NUMBER_SIZE)
    ensures ReadBitmap(Field(key) + (WordsField(words) + rest)) == Front((key, words), rest)
  {
    FieldBack(key, WordsField(words) + rest);
    WordsFieldBack(words, rest);
  }

  /** One turn of loadFromDB's switch (ds/commands.c:676-691): a record, or nothing for a code it
      does not know. */
  function ReadCoded(code: nat, s: string): (r: Front<seq<Record>>)
    ensures r.Front? ==> |r.rest| <= |s|
  {
    if code == BULKSTRING then
      match ReadThree(s)
      case Early => Early
      case Front((a, b, c), rest) => Front([TextRecord(a, b, c)], rest)
    else if code == SORTED_SET then
      match ReadThree(s)
      case Early => Early
      case Front((a, b, c), rest) => Front([ScoreRecord(a, b, c)], rest)
    else if code == BITMAP then
      match ReadBitmap(s)
      case Early => Early
      case Front((key, words), rest) => Front([BitsRecord(key, words)], rest)
    else Front([], s)
  }

  function ReadRecord(s: string): (r: Front<seq<Record>>)
    ensures r.Front? ==> |r.rest| < |s|
  {
    match ReadNumber(s, NUMBER_SIZE)
    case Early => Early
    case Front(code, t) => ReadCoded(code, t)
  }

  lemma CodeBack(code: nat, t: string)
    requires code < 256
    ensures ReadRecord(Number(code) + t) == ReadCoded(code, t)
  {
    assert Pow256(2) == 65536;
    NumberBack(code, NUMBER_SIZE, t);
  }

  lemma Regroup(n: string, a: string, b: string, c: string, rest: string)
    ensures n + a + b + c + rest == n + (a + (b + (c + rest)))
    ensures n + a + b + rest == n + (a + (b + rest))
  {
  }

  lemma ThreeCoded(code: nat, a: string, b: string, c: string, rest: string)
    requires code < 256 && Short(a) && Short(b) && Short(c)
    ensures var s := Number(code) + Field(a) + Field(b) + Field(c) + rest;
      exists t :: ReadRecord(s) == ReadCoded(code, t) && ReadThree(t) == Front((a, b, c), rest)
  {
    var t := Field(a) + (Field(b) + (Field(c) + rest));
    Regroup(Number(code), Field(a), Field(b), Field(c), rest);
    CodeBack(code, t);
    ThreeBack(a, b, c, rest);
  }

  lemma BitmapCoded(key: string, words: seq<bv32>, rest: string)
    requires Short(key) && |words| < Pow256(NUMBER_SIZE)
    ensures ReadRecord(Number(BITMAP) + Field(key) + WordsField(words) + rest) == Front([BitsRecord(key, words)], rest)
  {
    Regroup(Number(BITMAP), Field(key), WordsField(words), [], rest);
    CodeBack(BITMAP, Field(key) + (WordsField(words) + rest));
    BitmapBack(key, words, rest);
  }

  /** A record is read back as it was written, and what follows it is left. */
  lemma RecordBack(r: Record, rest: string)
    requires Fits(r)
    ensures ReadRecord(Encode(r) + rest) == Front([r], rest)
  {
    match r
    case TextRecord(a, b, c) => ThreeCoded(BULKSTRING, a, b, c, rest);
    case BitsRecord(key, words) => BitmapCoded(key, words, rest);
    case ScoreRecord(a, b, c) => ThreeCoded(SORTED_SET, a, b, c, rest);
  }

  /** One text after the other. */
  function Texts<T>(text: T -> string, s: seq<T>): string {
    if s == [] then [] else text(s[0]) + Texts(text, s[1..])
  }

  lemma {:induction false} TextsBoth<T>(text: T -> string, a: seq<T>, b: seq<T>)
    ensures Texts(text, a + b) == Texts(text, a) + Texts(text, b)
    decreases |a|
  {
    if a == [] {
      assert a + b == b;
    } else {
      TextsBoth(text, a[1..], b);
      assert (a + b)[0] == a[0] && (a + b)[1..] == a[1..] + b;
    }
  }

  lemma TextsOne<T>(text: T -> string, x: T)
    ensures Texts(text, [x]) == text(x)
  {
    assert [x][1..] == [] && Texts(text, []) == [];
  }

  function EncodeAll(rs: seq<Record>): string {
    Texts(Encode, rs)
  }

  /** The records of a file; None when it ends too early. */
  function ReadAll(s: string): Option<seq<Record>>
    decreases |s|
  {
    if s == [] then Some([])
    else
      match ReadRecord(s)
      case Early => None
      case Front(rs, t) =>
        match ReadAll(t)
        case None => None
        case Some(rest) => Some(rs + rest)
  }

  /** Reading undoes writing, record for record. */
  lemma {:induction false} ReadUndoesEncode(rs: seq<Record>)
    requires forall k :: 0 <= k < |rs| ==> Fits(rs[k])
    ensures ReadAll(EncodeAll(rs)) == Some(rs)
    decreases |rs|
  {
    if rs != [] {
      RecordBack(rs[0], EncodeAll(rs[1..]));
      ReadUndoesEncode(rs[1..]);
      assert rs == [rs[0]] + rs[1..];
    }
  }
}
