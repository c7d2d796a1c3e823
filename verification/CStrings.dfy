/** Byte strings as the C code compares and orders them.  A `string` stands for a byte
    buffer: every `char` is one byte. */
module CStrings {
  const NUL: char := 0 as char

  /** The lexicographic byte order that `strcmp` decides on buffers without NUL bytes. */
  predicate Less(a: string, b: string) {
    b != [] && (a == [] || a[0] < b[0] || (a[0] == b[0] && Less(a[1..], b[1..])))
  }

  lemma {:induction false} LessIrreflexive(a: string)
    ensures !Less(a, a)
  {
    if a != [] { LessIrreflexive(a[1..]); }
  }

  lemma {:induction false} LessTotal(a: string, b: string)
    ensures Less(a, b) || a == b || Less(b, a)
  {
    if a != [] && b != [] && a[0] == b[0] {
      LessTotal(a[1..], b[1..]);
      if a[1..] == b[1..] {
        assert a == [a[0]] + a[1..] == b;
      }
    }
  }

  lemma {:induction false} LessTransitive(a: string, b: string, c: string)
    requires Less(a, b) && Less(b, c)
    ensures Less(a, c)
  {
    if a != [] && a[0] == b[0] == c[0] {
      LessTransitive(a[1..], b[1..], c[1..]);
    }
  }

  lemma {:induction false} LessAsymmetric(a: string, b: string)
    requires Less(a, b)
    ensures !Less(b, a)
  {
    if Less(b, a) {
      LessTransitive(a, b, a);
      LessIrreflexive(a);
    }
  }

  /** The part of a buffer the C string functions see: everything before the first NUL. */
  function CStr(s: string): (r: string)
    ensures r <= s && NUL !in r
    ensures NUL !in s ==> r == s
  {
    if s == [] || s[0] == NUL then [] else [s[0]] + CStr(s[1..])
  }

  /** A buffer without a NUL byte: the C string functions see all of it. */
  predicate Plain(s: string) {
    NUL !in s
  }

  /** `strcmp(a, b) < 0` and `strcmp(a, b) == 0`. */
  predicate StrcmpLess(a: string, b: string)
    ensures Plain(a) && Plain(b) ==> StrcmpLess(a, b) == Less(a, b)
  {
    Less(CStr(a), CStr(b))
  }

  predicate StrcmpSame(a: string, b: string)
    ensures Plain(a) && Plain(b) ==> StrcmpSame(a, b) == (a == b)
  {
    CStr(a) == CStr(b)
  }

  /** `strcmp` tells a key from every key without NUL, as the tables' `memcmp` does, if and only if
      the key has no NUL itself; then it also orders them as Less does. */
  lemma {:induction false} StrcmpIsKeyOrder(a: string)
    ensures Plain(a) <==> forall b {:trigger StrcmpSame(a, b)} :: Plain(b) ==> (StrcmpSame(a, b) <==> a == b)
    ensures Plain(a) ==> forall b {:trigger StrcmpLess(a, b)} :: Plain(b) ==> (StrcmpLess(a, b) <==> Less(a, b))
  {
    if !Plain(a) {
      assert CStr(CStr(a)) == CStr(a) && Plain(CStr(a));
      assert StrcmpSame(a, CStr(a)) && a != CStr(a);
    }
  }

  /** Two different keys of a sorted set that `strcmp` takes for one. */
  lemma StrcmpSeesDifferentKeysAsEqual()
    ensures "a" + [NUL, 'b'] != "a" + [NUL, 'c'] && StrcmpSame("a" + [NUL, 'b'], "a" + [NUL, 'c'])
  {
    var x, y := "a" + [NUL, 'b'], "a" + [NUL, 'c'];
    assert x[1..][0] == NUL && y[1..][0] == NUL;
    assert x[2] != y[2];
    assert CStr(x) == [x[0]] + CStr(x[1..]);
    assert CStr(y) == [y[0]] + CStr(y[1..]);
  }
}
