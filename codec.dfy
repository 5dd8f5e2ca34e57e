/**
 * The fixed-width key and value codec of the lexical table
 * (vectorToString / stringToVector, floatToString / stringToFloat).
 *
 * Each word index is written as BYTES digits in base BASE, most
 * significant digit first, and every digit is stored plus one so that no
 * byte is zero. A key is the concatenation of its indices' encodings; a
 * float is encoded through its 32-bit pattern with the same digits.
 */
module Codec {
  import opened LexOrder

  type byte = b: int | 0 <= b < 0x100
  type Bytes = seq<byte>

  /** Unsigned 32-bit integers: the source's WordIndex and unsigned int. */
  const WORD_RANGE: nat := 0x1_0000_0000
  type uint32 = x: int | 0 <= x < 0x1_0000_0000
  type WordIndex = uint32

  /** A float is handled only through its 32-bit pattern. */
  type FloatBits = uint32

  /**
   * WORD_INDEX_MODULO_BASE and WORD_INDEX_MODULO_BYTES. Their header is
   * not part of this model; the values below satisfy what the codec needs
   * (see Radix), and the proofs use nothing else about them.
   */
  const BASE: nat := 254
  const BYTES: nat := 5

  /** BASE^j, the exact value of pow(WORD_INDEX_MODULO_BASE, j). */
  function Power(j: nat): (w: nat)
    ensures w >= 1
  {
    if j == 0 then 1 else BASE * Power(j - 1)
  }

  /**
   * The assumptions on the two constants: 1 + digit fits in a byte,
   * BYTES digits can hold every 32-bit pattern, and every weight the
   * source casts to unsigned int (BASE^j for j < BYTES) fits in 32 bits,
   * so that the exact Power(j) is the weight the source uses.
   */
  lemma Radix()
    ensures 2 <= BASE <= 255 && 1 <= BYTES
    ensures Power(BYTES) >= WORD_RANGE
    ensures Power(BYTES - 1) < WORD_RANGE
  {
    assert Power(4) == 254 * 254 * 254 * 254;
    assert Power(BYTES) == 254 * Power(4);
  }

  // ---------------------------------------------------------------------
  // Arithmetic helpers

  lemma MulMonotone(a: int, b: int, c: nat)
    requires a <= b
    ensures a * c <= b * c
  {
  }

  lemma MulAddDistrib(v: int, q: int, r: int, p: int)
    ensures (v * q + r) * p == v * (q * p) + r * p
  {
  }

  /** Division by a positive m is determined by the quotient and remainder it must satisfy. */
  lemma DivModUnique(x: int, q: int, m: int, r: int)
    requires m > 0 && 0 <= r < m && x == q * m + r
    ensures x / m == q && x % m == r
  {
    var q', r' := x / m, x % m;
    assert (q' - q) * m == r - r';
    if q' > q {
      MulMonotone(1, q' - q, m);
    } else if q' < q {
      MulMonotone(1, q - q', m);
    }
  }

  /** Dividing by a and then by b is dividing by a * b. */
  lemma DivDiv(x: nat, a: nat, b: nat)
    requires a >= 1 && b >= 1
    ensures (x / a) / b == x / (a * b)
  {
    var q, r := x / a, x % a;
    var q2, r2 := q / b, q % b;
    assert x == q2 * (a * b) + (r2 * a + r) by {
      assert q * a == q2 * b * a + r2 * a;
    }
    MulMonotone(r2, b - 1, a);
    DivModUnique(x, q2, a * b, r2 * a + r);
  }

  /** x mod BASE*p is its lowest digit plus BASE times (x / BASE) mod p. */
  lemma ModSplitLow(x: nat, p: nat)
    requires p >= 1
    ensures x % (BASE * p) == ((x / BASE) % p) * BASE + x % BASE
  {
    var q, r := x / BASE, x % BASE;
    var q2, r2 := q / p, q % p;
    assert x == q2 * (BASE * p) + (r2 * BASE + r) by {
      assert q * BASE == q2 * p * BASE + r2 * BASE;
    }
    MulMonotone(r2, p - 1, BASE);
    DivModUnique(x, q2, BASE * p, r2 * BASE + r);
  }

  lemma ModAddLeft(a: int, t: int)
    ensures (a % WORD_RANGE + t) % WORD_RANGE == (a + t) % WORD_RANGE
  {
    var m := WORD_RANGE;
    DivModUnique(a, a / m, m, a % m);
    var s := a % m + t;
    DivModUnique(a + t, a / m + s / m, m, s % m);
  }

  // ---------------------------------------------------------------------
  // Digits of one index

  /** The byte written for the digit of weight BASE^j of x, as line 107 computes it. */
  function Digit(x: nat, j: nat): (b: byte)
    ensures 1 <= b <= BASE
  {
    1 + (x / Power(j)) % BASE
  }

  /**
   * The n lowest base-BASE digits of x, most significant first, each
   * shifted by one; DigitsAt shows byte i is Digit(x, n - 1 - i).
   */
  function Digits(x: nat, n: nat): (r: Bytes)
    ensures |r| == n
    ensures forall i :: 0 <= i < n ==> 1 <= r[i] <= BASE
  {
    if n == 0 then [] else Digits(x / BASE, n - 1) + [1 + x % BASE]
  }

  lemma {:induction false} DigitsAt(x: nat, n: nat, i: nat)
    requires i < n
    ensures Digits(x, n)[i] == Digit(x, n - 1 - i)
  {
    if i < n - 1 {
      DigitsAt(x / BASE, n - 1, i);
      DivDiv(x, BASE, Power(n - 2 - i));
    }
  }

  /**
   * The number a digit string stands for: every byte minus one, read as
   * base-BASE digits, most significant first, with no wrap-around.
   */
  function Value(c: Bytes): int
  {
    if c == [] then 0 else Value(c[..|c| - 1]) * BASE + (c[|c| - 1] as int - 1)
  }

  lemma ValueSnoc(c: Bytes, b: byte)
    ensures Value(c + [b]) == Value(c) * BASE + (b - 1)
  {
    assert (c + [b])[..|c|] == c;
  }

  /** Reading the digits of x back gives x modulo BASE^n. */
  lemma {:induction false} ValueOfDigits(x: nat, n: nat)
    ensures Value(Digits(x, n)) == x % Power(n)
  {
    if n > 0 {
      ValueSnoc(Digits(x / BASE, n - 1), 1 + x % BASE);
      ValueOfDigits(x / BASE, n - 1);
      ModSplitLow(x, Power(n - 1));
    }
  }

  /** Appending one digit in 0..BASE-1 to two numbers keeps their order, ties broken by the digit. */
  lemma SnocCompare(x: int, y: int, a: int, b: int)
    requires 0 <= a < BASE && 0 <= b < BASE
    ensures x * BASE + a < y * BASE + b <==> x < y || (x == y && a < b)
    ensures x * BASE + a == y * BASE + b ==> x == y && a == b
  {
    if x < y {
      MulMonotone(x + 1, y, BASE);
    } else if y < x {
      MulMonotone(y + 1, x, BASE);
    }
  }

  /** One-element sequences compare as their elements do. */
  lemma SingleLess(a: int, b: int)
    ensures LexLess([a], [b]) <==> a < b
  {
    assert [a][1..] == [] && [b][1..] == [];
  }

  /**
   * Byte-lexicographic order of equal-length digit strings is the order
   * of the numbers they stand for, and equal numbers mean equal strings.
   */
  lemma {:induction false} DigitOrder(c: Bytes, d: Bytes)
    requires |c| == |d|
    requires forall i :: 0 <= i < |c| ==> 1 <= c[i] <= BASE
    requires forall i :: 0 <= i < |d| ==> 1 <= d[i] <= BASE
    ensures LexLess(c, d) <==> Value(c) < Value(d)
    ensures Value(c) == Value(d) ==> c == d
    decreases |c|
  {
    if c != [] {
      var c', d' := c[..|c| - 1], d[..|d| - 1];
      var a, b := c[|c| - 1], d[|d| - 1];
      assert c == c' + [a] && d == d' + [b];
      DigitOrder(c', d');
      DigitOrder(d', c');
      if c' != d' {
        Total(c', d');
      }
      ValueSnoc(c', a);
      ValueSnoc(d', b);
      SnocCompare(Value(c'), Value(d'), a as int - 1, b as int - 1);
      AppendEqualLength(c', [a], d', [b]);
      SingleLess(a, b);
    }
  }

  // ---------------------------------------------------------------------
  // One index

  /** The BYTES bytes that encode one word index (lines 106-108). */
  function EncodeIndex(x: WordIndex): (r: Bytes)
    ensures |r| == BYTES
    ensures forall i :: 0 <= i < |r| ==> 1 <= r[i] <= BASE
  {
    Digits(x, BYTES)
  }

  /**
   * The index that one chunk decodes to (lines 123-126): the sum of each
   * byte minus one times its weight, in unsigned 32-bit arithmetic, so a
   * byte 0 contributes -1 times its weight modulo 2^32.
   */
  function DecodeIndex(c: Bytes): WordIndex
  {
    Value(c) % WORD_RANGE
  }

  lemma IndexRoundTrip(x: WordIndex)
    ensures DecodeIndex(EncodeIndex(x)) == x
  {
    Radix();
    ValueOfDigits(x, BYTES);
    DivModUnique(x, 0, Power(BYTES), x);
  }

  /** The encoding of one index preserves its numeric order. */
  lemma IndexOrder(x: WordIndex, y: WordIndex)
    ensures LexLess(EncodeIndex(x), EncodeIndex(y)) <==> x < y
  {
    Radix();
    ValueOfDigits(x, BYTES);
    ValueOfDigits(y, BYTES);
    DivModUnique(x, 0, Power(BYTES), x);
    DivModUnique(y, 0, Power(BYTES), y);
    DigitOrder(EncodeIndex(x), EncodeIndex(y));
  }

  lemma IndexInjective(x: WordIndex, y: WordIndex)
    requires EncodeIndex(x) == EncodeIndex(y)
    ensures x == y
  {
    IndexRoundTrip(x);
    IndexRoundTrip(y);
  }

  // ---------------------------------------------------------------------
  // Keys

  /** The byte string of a key (vectorToString): the indices' encodings in order. */
  function EncodeKey(v: seq<WordIndex>): (r: Bytes)
    ensures |r| == BYTES * |v|
    ensures forall i :: 0 <= i < |r| ==> 1 <= r[i] <= BASE
  {
    if v == [] then [] else EncodeIndex(v[0]) + EncodeKey(v[1..])
  }

  /**
   * The key a byte string decodes to (stringToVector): one index per
   * chunk of BYTES bytes. The source reads past the end of a string
   * whose length is not a multiple of BYTES, so such strings are excluded.
   */
  function DecodeKey(s: Bytes): (r: seq<WordIndex>)
    requires |s| % BYTES == 0
    decreases |s|
  {
    if s == [] then [] else [DecodeIndex(s[..BYTES])] + DecodeKey(s[BYTES..])
  }

  lemma {:induction false} DecodeKeyLength(s: Bytes)
    requires |s| % BYTES == 0
    ensures BYTES * |DecodeKey(s)| == |s|
    decreases |s|
  {
    if s != [] {
      DecodeKeyLength(s[BYTES..]);
    }
  }

  lemma {:induction false} EncodeKeyAppend(a: seq<WordIndex>, b: seq<WordIndex>)
    ensures EncodeKey(a + b) == EncodeKey(a) + EncodeKey(b)
  {
    if a == [] {
      assert a + b == b;
    } else {
      assert (a + b)[0] == a[0] && (a + b)[1..] == a[1..] + b;
      EncodeKeyAppend(a[1..], b);
    }
  }

  /** Decoding an encoded key gives the key back. */
  lemma {:induction false} KeyRoundTrip(v: seq<WordIndex>)
    ensures |EncodeKey(v)| % BYTES == 0
    ensures DecodeKey(EncodeKey(v)) == v
  {
    if v != [] {
      var e := EncodeKey(v);
      assert e[..BYTES] == EncodeIndex(v[0]);
      assert e[BYTES..] == EncodeKey(v[1..]);
      IndexRoundTrip(v[0]);
      KeyRoundTrip(v[1..]);
    }
  }

  lemma KeyInjective(a: seq<WordIndex>, b: seq<WordIndex>)
    requires EncodeKey(a) == EncodeKey(b)
    ensures a == b
  {
    KeyRoundTrip(a);
    KeyRoundTrip(b);
  }

  /**
   * The encoding is order-preserving: keys compare byte-lexicographically
   * exactly as they compare as sequences of integers.
   */
  lemma {:induction false} KeyOrder(a: seq<WordIndex>, b: seq<WordIndex>)
    ensures LexLess(EncodeKey(a), EncodeKey(b)) <==> LexLess(a, b)
  {
    if a != [] && b != [] {
      AppendEqualLength(EncodeIndex(a[0]), EncodeKey(a[1..]), EncodeIndex(b[0]), EncodeKey(b[1..]));
      IndexOrder(a[0], b[0]);
      if EncodeIndex(a[0]) == EncodeIndex(b[0]) {
        IndexInjective(a[0], b[0]);
      }
      KeyOrder(a[1..], b[1..]);
    }
  }

  /**
   * The scan bounds of getTransForTarget: a validly encoded key lies in
   * [EncodeKey([t]), EncodeKey([t + 1])) exactly when its first index is t.
   */
  lemma PrefixRange(t: WordIndex, k: seq<WordIndex>)
    requires t + 1 < WORD_RANGE
    ensures (!LexLess(EncodeKey(k), EncodeKey([t])) && LexLess(EncodeKey(k), EncodeKey([t + 1])))
            <==> (|k| > 0 && k[0] == t)
  {
    KeyOrder(k, [t]);
    KeyOrder(k, [t + 1]);
  }

  // ---------------------------------------------------------------------
  // Float values

  /** The value bytes of a float: the digits of its 32-bit pattern (lines 166-171). */
  function EncodeFloat(f: FloatBits): (r: Bytes)
    ensures |r| == BYTES
    ensures forall i :: 0 <= i < |r| ==> r[i] != 0
  {
    EncodeIndex(f)
  }

  /** The 32-bit pattern read from the first BYTES value bytes (lines 150-157). */
  function DecodeFloat(s: Bytes): FloatBits
    requires |s| >= BYTES
  {
    DecodeIndex(s[..BYTES])
  }

  lemma FloatRoundTrip(f: FloatBits)
    ensures DecodeFloat(EncodeFloat(f)) == f
  {
    assert EncodeFloat(f)[..BYTES] == EncodeIndex(f);
    IndexRoundTrip(f);
  }

  // ---------------------------------------------------------------------
  // The source's loops, proved to compute the functions above

  /** Pushes the BYTES digit bytes of x, weight BASE^(BYTES-1) first (lines 106-108, 169-171). */
  method AppendIndexDigits(str0: Bytes, x: WordIndex) returns (str: Bytes)
    ensures str == str0 + EncodeIndex(x)
  {
    str := str0;
    var j: int := BYTES - 1;
    while j >= 0
      invariant -1 <= j < BYTES
      invariant str == str0 + EncodeIndex(x)[..BYTES - 1 - j]
    {
      DigitsAt(x, BYTES, BYTES - 1 - j);
      assert EncodeIndex(x)[..BYTES - j] == EncodeIndex(x)[..BYTES - 1 - j] + [Digit(x, j)];
      str := str + [1 + (x / Power(j)) % BASE];
      j := j - 1;
    }
    assert EncodeIndex(x)[..BYTES] == EncodeIndex(x);
  }

  /** One step of the decoding loop: adding the next byte's weighted digit. */
  lemma ChunkStep(s: Bytes, i0: nat, i: nat, j: nat, wi: int)
    requires i0 <= i < |s|
    requires wi == (Value(s[i0..i]) * Power(j + 1)) % WORD_RANGE
    ensures (wi + (s[i] - 1) * Power(j)) % WORD_RANGE == (Value(s[i0..i + 1]) * Power(j)) % WORD_RANGE
  {
    var c := s[i0..i];
    var b: int := s[i];
    assert s[i0..i + 1] == c + [s[i]];
    var v, p := Value(c), Power(j);
    ValueSnoc(c, s[i]);
    assert Power(j + 1) == BASE * p;
    MulAddDistrib(v, BASE, b - 1, p);
    ModAddLeft(v * (BASE * p), (b - 1) * p);
  }

  /**
   * Accumulates the chunk of BYTES bytes starting at i0 into an unsigned
   * 32-bit index, each byte minus one times its weight (lines 123-126, 150-154).
   */
  method ChunkToIndex(s: Bytes, i0: nat) returns (wi: WordIndex)
    requires i0 + BYTES <= |s|
    ensures wi == DecodeIndex(s[i0..i0 + BYTES])
  {
    wi := 0;
    var i := i0;
    var j: int := BYTES - 1;
    while j >= 0
      invariant -1 <= j < BYTES && i == i0 + BYTES - 1 - j
      invariant wi == (Value(s[i0..i]) * Power(j + 1)) % WORD_RANGE
    {
      ChunkStep(s, i0, i, j, wi);
      wi := (wi + (s[i] - 1) * Power(j)) % WORD_RANGE;
      j, i := j - 1, i + 1;
    }
  }

  /** vectorToString (lines 101-114), also used as vectorToKey (lines 135-138). */
  method VectorToString(vec: seq<WordIndex>) returns (s: Bytes)
    ensures s == EncodeKey(vec)
  {
    s := [];
    for i := 0 to |vec|
      invariant s == EncodeKey(vec[..i])
    {
      assert vec[..i + 1] == vec[..i] + [vec[i]];
      EncodeKeyAppend(vec[..i], [vec[i]]);
      s := AppendIndexDigits(s, vec[i]);
    }
    assert vec[..|vec|] == vec;
  }

  /** stringToVector (lines 117-132), also used as keyToVector (lines 141-144). */
  method StringToVector(s: Bytes) returns (vec: seq<WordIndex>)
    requires |s| % BYTES == 0
    ensures vec == DecodeKey(s)
  {
    vec := [];
    var i := 0;
    while i < |s|
      invariant 0 <= i <= |s| && (|s| - i) % BYTES == 0
      invariant DecodeKey(s) == vec + DecodeKey(s[i..])
    {
      DecodeKeyStep(s, i);
      var wi := ChunkToIndex(s, i);
      assert DecodeKey(s) == (vec + [wi]) + DecodeKey(s[i + BYTES..]);
      vec := vec + [wi];
      i := i + BYTES;
    }
    assert s[i..] == [];
  }

  /** Decoding from a chunk boundary: the chunk's index, then the rest. */
  lemma DecodeKeyStep(s: Bytes, i: nat)
    requires i < |s| && (|s| - i) % BYTES == 0
    ensures i + BYTES <= |s| && (|s| - (i + BYTES)) % BYTES == 0
    ensures |s[i..]| % BYTES == 0 && |s[i + BYTES..]| % BYTES == 0
    ensures DecodeKey(s[i..]) == [DecodeIndex(s[i..i + BYTES])] + DecodeKey(s[i + BYTES..])
  {
    assert s[i..][..BYTES] == s[i..i + BYTES];
    assert s[i..][BYTES..] == s[i + BYTES..];
  }

  /** floatToString (lines 163-176). */
  method FloatToString(value: FloatBits) returns (s: Bytes)
    ensures s == EncodeFloat(value)
  {
    s := AppendIndexDigits([], value);
  }

  /** stringToFloat (lines 147-160): always reports success. */
  method StringToFloat(valueStr: Bytes) returns (ok: bool, value: FloatBits)
    requires |valueStr| >= BYTES
    ensures ok
    ensures value == DecodeFloat(valueStr)
  {
    value := ChunkToIndex(valueStr, 0);
    ok := true;
  }
}
