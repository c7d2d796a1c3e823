/** The growable bitmap of ds/bitmap.c: 32-bit words that stand for an endless row of bits. */
module Bitmap {
  const BITS_PER_WORD := 32

  /** The word with only bit k set. */
  function Mask(k: nat): bv32
    requires k < BITS_PER_WORD
  {
    if k == 0 then 1 else Mask(k - 1) << 1
  }

  function Shifted(k: nat): bv32
    requires k < BITS_PER_WORD
  {
    1 << k
  }

  /** Case by case: shifting by a variable amount is beyond the bit-vector solver otherwise. */
  lemma Shifts(k: nat)
    requires k + 1 < BITS_PER_WORD
    ensures Shifted(k + 1) == Shifted(k) << 1 && Shifted(k + 1) >> 1 == Shifted(k)
  {
    match k
    case 0 => case 1 => case 2 => case 3 => case 4 => case 5 => case 6 => case 7 =>
    case 8 => case 9 => case 10 => case 11 => case 12 => case 13 => case 14 => case 15 =>
    case 16 => case 17 => case 18 => case 19 => case 20 => case 21 => case 22 => case 23 =>
    case 24 => case 25 => case 26 => case 27 => case 28 => case 29 => case 30 =>
  }

  /** The mask is the `1 << bit_offset(pos)` of the C code. */
  lemma {:induction false} MaskIsShifted(k: nat)
    requires k < BITS_PER_WORD
    ensures Mask(k) == Shifted(k)
  {
    if k != 0 {
      MaskIsShifted(k - 1);
      Shifts(k - 1);
    }
  }

  /** Doubling a mask loses nothing. */
  lemma Halve(k: nat)
    requires k + 1 < BITS_PER_WORD
    ensures Mask(k + 1) >> 1 == Mask(k)
  {
    MaskIsShifted(k);
    MaskIsShifted(k + 1);
    Shifts(k);
  }

  predicate Single(m: bv32) {
    m != 0 && m & (m - 1) == 0
  }

  lemma SingleDoubled(m: bv32)
    requires Single(m) && m >> 31 == 0
    ensures Single(m << 1)
  {
  }

  lemma SinglesApart(m: bv32, n: bv32)
    requires Single(m) && Single(n) && m != n
    ensures m & n == 0
  {
  }

  lemma HalvesToFit(m: bv32, n: bv32)
    requires m == n << 1 && m >> 1 == n
    ensures n >> 31 == 0
  {
  }

  lemma {:induction false} MaskSingle(k: nat)
    requires k < BITS_PER_WORD
    ensures Single(Mask(k))
  {
    if k != 0 {
      MaskSingle(k - 1);
      Halve(k - 1);
      HalvesToFit(Mask(k), Mask(k - 1));
      SingleDoubled(Mask(k - 1));
    }
  }

  lemma DoublesDiffer(m: bv32, n: bv32)
    requires m >> 1 != n >> 1
    ensures m != n
  {
  }

  lemma {:induction false} MasksDiffer(j: nat, k: nat)
    requires j < k < BITS_PER_WORD
    ensures Mask(j) != Mask(k)
  {
    Halve(k - 1);
    if j == 0 {
      MaskSingle(k - 1);
    } else {
      Halve(j - 1);
      MasksDiffer(j - 1, k - 1);
    }
    DoublesDiffer(Mask(j), Mask(k));
  }

  lemma {:induction false} MasksApart(j: nat, k: nat)
    requires j < BITS_PER_WORD && k < BITS_PER_WORD && j != k
    ensures Mask(j) & Mask(k) == 0
  {
    MaskSingle(j);
    MaskSingle(k);
    if j < k { MasksDiffer(j, k); } else { MasksDiffer(k, j); }
    SinglesApart(Mask(j), Mask(k));
  }

  function WordWith(w: bv32, m: bv32, bit: bool): bv32 {
    if bit then w | m else w & !m
  }

  predicate WordHas(w: bv32, m: bv32) {
    w & m != 0
  }

  lemma WordBit(w: bv32, m: bv32, bit: bool)
    requires m != 0
    ensures WordHas(WordWith(w, m, bit), m) == bit
  {
  }

  lemma SameBits(x: bv32, y: bv32, n: bv32)
    requires x & n == y & n
    ensures WordHas(x, n) == WordHas(y, n)
  {
  }

  lemma Elsewhere(w: bv32, m: bv32, bit: bool, n: bv32)
    requires m & n == 0
    ensures WordWith(w, m, bit) & n == w & n
  {
  }

  lemma OtherWordBit(w: bv32, m: bv32, bit: bool, n: bv32)
    requires m & n == 0
    ensures WordHas(WordWith(w, m, bit), n) == WordHas(w, n)
  {
    Elsewhere(w, m, bit, n);
    SameBits(WordWith(w, m, bit), w, n);
  }

  /** Writing one bit of a word changes that bit and no other. */
  lemma {:induction false} WordWithSpec(w: bv32, k: nat, bit: bool, j: nat)
    requires k < BITS_PER_WORD && j < BITS_PER_WORD
    ensures WordHas(WordWith(w, Mask(k), bit), Mask(j)) == if j == k then bit else WordHas(w, Mask(j))
  {
    if j == k {
      MaskSingle(k);
      WordBit(w, Mask(k), bit);
    } else {
      MasksApart(k, j);
      OtherWordBit(w, Mask(k), bit, Mask(j));
    }
  }

  // ----- what the words stand for -----

  /** The bit at a position; past the words every bit is 0. */
  predicate Bit(words: seq<bv32>, pos: nat) {
    pos / BITS_PER_WORD < |words| && WordHas(words[pos / BITS_PER_WORD], Mask(pos % BITS_PER_WORD))
  }

  function Zeros(n: nat): (z: seq<bv32>)
    ensures |z| == n && forall i :: 0 <= i < n ==> z[i] == 0
  {
    seq(n, _ => 0)
  }

  /** The words after a bit was written, with new zero words where needed. */
  function WithBit(words: seq<bv32>, pos: nat, bit: bool): (r: seq<bv32>)
    ensures |r| == if pos / BITS_PER_WORD < |words| then |words| else pos / BITS_PER_WORD + 1
  {
    var k := pos / BITS_PER_WORD;
    var grown := if k < |words| then words else words + Zeros(k + 1 - |words|);
    grown[k := WordWith(grown[k], Mask(pos % BITS_PER_WORD), bit)]
  }

  lemma ZeroBit(m: bv32)
    ensures !WordHas(0, m)
  {
  }

  /** A write is seen at its own position and at no other. */
  lemma WithBitSpec(words: seq<bv32>, pos: nat, bit: bool, q: nat)
    ensures Bit(WithBit(words, pos, bit), q) == if q == pos then bit else Bit(words, q)
  {
    var k, o := pos / BITS_PER_WORD, pos % BITS_PER_WORD;
    var kq, oq := q / BITS_PER_WORD, q % BITS_PER_WORD;
    ZeroBit(Mask(oq));
    if kq == k {
      WordWithSpec(if k < |words| then words[k] else 0, o, bit, oq);
      assert q == pos <==> oq == o;
    }
  }

  datatype Write = Write(pos: nat, bit: bool)

  function Written(words: seq<bv32>, writes: seq<Write>): seq<bv32> {
    if writes == [] then words
    else WithBit(Written(words, writes[..|writes| - 1]), writes[|writes| - 1].pos, writes[|writes| - 1].bit)
  }

  /** The last write to a position, if there was one. */
  ghost predicate IsLastWrite(writes: seq<Write>, q: nat, i: nat) {
    i < |writes| && writes[i].pos == q && forall j :: i < j < |writes| ==> writes[j].pos != q
  }

  /** After any run of writes every position shows its last write, or what it showed before. */
  lemma {:induction false} LastWriteShows(words: seq<bv32>, writes: seq<Write>, q: nat)
    ensures (forall i :: 0 <= i < |writes| ==> writes[i].pos != q) ==> Bit(Written(words, writes), q) == Bit(words, q)
    ensures forall i: nat :: IsLastWrite(writes, q, i) ==> Bit(Written(words, writes), q) == writes[i].bit
  {
    if writes != [] {
      var n := |writes| - 1;
      var before, w := writes[..n], writes[n];
      LastWriteShows(words, before, q);
      WithBitSpec(Written(words, before), w.pos, w.bit, q);
      forall i: nat | IsLastWrite(writes, q, i)
        ensures Bit(Written(words, writes), q) == writes[i].bit
      {
        if i != n {
          assert IsLastWrite(before, q, i);
        }
      }
    }
  }

  // ----- the node -----

  class BitmapNode {
    var mem: array<bv32>
    var len: nat

    ghost predicate Valid()
      reads this
    {
      len == mem.Length
    }

    ghost function Words(): seq<bv32>
      reads this, mem
    {
      mem[..]
    }

    /** initBitmapNode (ds/bitmap.c:18-34). */
    constructor Init(pos: nat, bit: bool)
      ensures Valid() && fresh(mem) && Words() == WithBit([], pos, bit)
    {
      len := pos / BITS_PER_WORD + 1;
      mem := new bv32[pos / BITS_PER_WORD + 1](_ => 0);
      new;
      assert mem[..] == [] + Zeros(len);
      WriteBit(mem, pos, bit);
    }

    /** The node loadBitmap makes of the words of a file (ds/bitmap.c:75-85). */
    constructor Of(words: seq<bv32>)
      ensures Valid() && fresh(mem) && Words() == words
    {
      len := |words|;
      mem := new bv32[|words|](i requires 0 <= i < |words| => words[i]);
    }

    /** setbitUtility and clearbitUtility (ds/bitmap.c:102-115) on the word and mask of a position. */
    static method WriteWord(mem: array<bv32>, k: nat, m: bv32, bit: bool)
      requires k < mem.Length
      modifies mem
      ensures mem[..] == old(mem[..])[k := WordWith(old(mem[k]), m, bit)]
    {
      if bit {
        mem[k] := mem[k] | m;
      } else {
        mem[k] := mem[k] & !m;
      }
    }

    static method WriteBit(mem: array<bv32>, pos: nat, bit: bool)
      requires pos / BITS_PER_WORD < mem.Length
      modifies mem
      ensures mem[..] == WithBit(old(mem[..]), pos, bit)
    {
      WriteWord(mem, pos / BITS_PER_WORD, Mask(pos % BITS_PER_WORD), bit);
    }

    /** getbitUtility (ds/bitmap.c:120-123) on the word and mask of a position. */
    static method ReadWord(mem: array<bv32>, k: nat, m: bv32) returns (bit: bool)
      requires k < mem.Length
      ensures bit == WordHas(mem[k], m)
    {
      bit := 0 != (mem[k] & m);
    }

    /** getBit (ds/bitmap.c:39-45). */
    method GetBit(pos: nat) returns (bit: bool)
      requires Valid()
      ensures bit == Bit(Words(), pos)
    {
      if pos < len * BITS_PER_WORD {
        bit := ReadWord(mem, pos / BITS_PER_WORD, Mask(pos % BITS_PER_WORD));
      } else {
        bit := false;
      }
    }

    /** The realloc and memset of setBit (ds/bitmap.c:60-64). */
    static method Grow(mem: array<bv32>, size: nat) returns (grown: array<bv32>)
      requires mem.Length <= size
      ensures fresh(grown) && grown[..] == mem[..] + Zeros(size - mem.Length)
    {
      grown := new bv32[size];
      for i := 0 to mem.Length
        invariant forall j :: 0 <= j < i ==> grown[j] == mem[j]
      {
        grown[i] := mem[i];
      }
      for i := mem.Length to size
        invariant forall j :: 0 <= j < mem.Length ==> grown[j] == mem[j]
        invariant forall j :: mem.Length <= j < i ==> grown[j] == 0
      {
        grown[i] := 0;
      }
    }

    /** setBit (ds/bitmap.c:50-70): writes the bit, answers the one it replaces. */
    method SetBit(pos: nat, bit: bool) returns (ret: bool)
      requires Valid()
      modifies this, mem
      ensures Valid() && (mem == old(mem) || fresh(mem))
      ensures Words() == WithBit(old(Words()), pos, bit)
      ensures ret == Bit(old(Words()), pos)
    {
      var k := pos / BITS_PER_WORD;
      if pos < len * BITS_PER_WORD {
        ret := GetBit(pos);
        WriteBit(mem, pos, bit);
      } else {
        mem := Grow(mem, k + 1);
        len := k + 1;
        ret := false;
        WriteBit(mem, pos, bit);
      }
    }
  }
}
