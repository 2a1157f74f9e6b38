/**
 Go's fixed-width integers and the big-endian byte layouts of encoding/binary
 that the identifier is packed with.  Go integers wrap; here every conversion
 that drops bits is written out as a reduction modulo a power of two.
 */
module Binary {

  newtype byte = x: int | 0 <= x < 0x100
  newtype uint32 = x: int | 0 <= x < 0x1_0000_0000
  newtype int64 = x: int | -0x8000_0000_0000_0000 <= x < 0x8000_0000_0000_0000

  const TWO_TO_24: int := 0x100_0000
  const TWO_TO_32: int := 0x1_0000_0000

  /** Go's byte(x) conversion: the low eight bits of a non-negative value. */
  function Low8(x: int): (r: byte)
    requires 0 <= x
    ensures r as int == x % 0x100
  {
    (x % 0x100) as byte
  }

  /** Go's uint32(x) conversion of an int64: the low 32 bits of the two's
      complement representation, so the result is congruent to x. */
  function TruncateToUint32(x: int64): (r: uint32)
    ensures (x as int - r as int) % TWO_TO_32 == 0
    ensures 0 <= x as int < TWO_TO_32 ==> r as int == x as int
  {
    (x as int % TWO_TO_32) as uint32
  }

  /** The unsigned value of a big-endian byte string: the reference reading
      every fixed-width decoder below is checked against. */
  function BigEndian(b: seq<byte>): (r: nat)
    ensures r < Pow256(|b|)
  {
    if |b| == 0 then 0 else BigEndian(b[..|b| - 1]) * 0x100 + b[|b| - 1] as int
  }

  function Pow256(n: nat): (r: nat)
    ensures r >= 1
  {
    if n == 0 then 1 else 0x100 * Pow256(n - 1)
  }

  /** binary.BigEndian.Uint32: b[3] | b[2]<<8 | b[1]<<16 | b[0]<<24. */
  function Uint32(b: seq<byte>): (r: uint32)
    requires |b| == 4
    ensures r as int == BigEndian(b)
  {
    BigEndianDigits(b);
    (b[0] as int * 0x100_0000 + b[1] as int * 0x1_0000 + b[2] as int * 0x100 + b[3] as int) as uint32
  }

  /** binary.BigEndian.PutUint32: the four bytes v>>24, v>>16, v>>8, v. */
  function PutUint32(v: uint32): (r: seq<byte>)
    ensures |r| == 4
    ensures Uint32(r) == v
  {
    var x := v as int;
    LowBytes(x);
    assert x == x / 0x100_0000 * 0x100_0000 + x % 0x100_0000;
    [Low8(x / 0x100_0000), Low8(x / 0x1_0000), Low8(x / 0x100), Low8(x)]
  }

  /** putBigEndianUint24 (objectid.go): the bytes v>>16, v>>8 and v, which
      keep only the low 24 bits of v. */
  function PutBigEndianUint24(v: uint32): (r: seq<byte>)
    ensures |r| == 3
    ensures BigEndian(r) == v as int % TWO_TO_24
  {
    var r := [Low8(v as int / 0x1_0000), Low8(v as int / 0x100), Low8(v as int)];
    BigEndianDigits(r);
    LowBytes(v as int);
    r
  }

  /** The reference reading unrolled for the three- and four-byte strings
      the identifier layout uses. */
  lemma BigEndianDigits(b: seq<byte>)
    requires 3 <= |b| <= 4
    ensures |b| == 3 ==> BigEndian(b) == b[0] as int * 0x1_0000 + b[1] as int * 0x100 + b[2] as int
    ensures |b| == 4 ==> BigEndian(b) == b[0] as int * 0x100_0000 + b[1] as int * 0x1_0000 + b[2] as int * 0x100 + b[3] as int
  {
    var b3 := b[..3];
    assert b3[..2][..1] == [b[0]];
    assert b3[..2] == b[..2];
    assert BigEndian([b[0]]) == b[0] as int;
    assert BigEndian(b[..2]) == b[0] as int * 0x100 + b[1] as int;
    assert BigEndian(b3) == b[0] as int * 0x1_0000 + b[1] as int * 0x100 + b[2] as int;
    if |b| == 3 {
      assert b == b3;
    }
  }

  /** The three lowest bytes of x, read big-endian, are x modulo 2^24. */
  lemma LowBytes(x: int)
    requires 0 <= x
    ensures (x / 0x1_0000 % 0x100) * 0x1_0000 + (x / 0x100 % 0x100) * 0x100 + x % 0x100 == x % TWO_TO_24
  {
    var m := x / 0x100;
    var q := m / 0x100;
    var low := (m % 0x100) * 0x100 + x % 0x100;
    assert x == q * 0x1_0000 + low;
    DivModUnique(x, 0x1_0000, q, low);
    var rest := (q % 0x100) * 0x1_0000 + low;
    assert x == (q / 0x100) * 0x100_0000 + rest;
    DivModUnique(x, 0x100_0000, q / 0x100, rest);
  }

  /** Every four-byte string is the encoding of the value it decodes to. */
  lemma PutUint32OfUint32(b: seq<byte>)
    requires |b| == 4
    ensures PutUint32(Uint32(b)) == b
  {
    var v := Uint32(b) as int;
    var b0, b1, b2, b3 := b[0] as int, b[1] as int, b[2] as int, b[3] as int;
    DivModUnique(v, 0x100_0000, b0, b1 * 0x1_0000 + b2 * 0x100 + b3);
    DivModUnique(v, 0x1_0000, b0 * 0x100 + b1, b2 * 0x100 + b3);
    DivModUnique(b0 * 0x100 + b1, 0x100, b0, b1);
    DivModUnique(v, 0x100, b0 * 0x1_0000 + b1 * 0x100 + b2, b3);
    DivModUnique(b0 * 0x1_0000 + b1 * 0x100 + b2, 0x100, b0 * 0x100 + b1, b2);
  }

  /** Distinct values have distinct four-byte encodings. */
  lemma PutUint32Injective(v: uint32, w: uint32)
    requires PutUint32(v) == PutUint32(w)
    ensures v == w
  {
  }

  /** k * m is at least m for a positive multiplier. */
  lemma MulAtLeast(k: int, m: int)
    requires m > 0 && k >= 1
    ensures k * m >= m
  {
    var j := k - 1;
    assert k * m == j * m + m;
    assert j * m >= 0;
  }

  /** Euclidean division has one quotient and one remainder. */
  lemma DivModUnique(a: int, m: int, q: int, r: int)
    requires m > 0 && 0 <= r < m && a == q * m + r
    ensures a % m == r && a / m == q
  {
    var q0, r0 := a / m, a % m;
    assert a == q0 * m + r0;
    if q > q0 {
      MulAtLeast(q - q0, m);
      assert false;
    } else if q < q0 {
      MulAtLeast(q0 - q, m);
      assert false;
    }
  }

  /** Adding a multiple of m does not change a remainder modulo m. */
  lemma ModAddMultiple(a: int, m: int, k: int)
    requires m > 0
    ensures (a + k * m) % m == a % m
  {
    var q := a / m;
    assert a + k * m == (q + k) * m + a % m;
    DivModUnique(a + k * m, m, q + k, a % m);
  }

  /** Reducing modulo m before adding changes nothing modulo m. */
  lemma ModAddMod(x: int, k: int, m: int)
    requires m > 0
    ensures (x % m + k) % m == (x + k) % m
  {
    var q := x / m;
    assert x % m + k == (x + k) + (-q) * m;
    ModAddMultiple(x + k, m, -q);
  }

  /** The low 24 bits of the low 32 bits are the low 24 bits. */
  lemma Low24OfLow32(x: int)
    ensures x % TWO_TO_32 % TWO_TO_24 == x % TWO_TO_24
  {
    var q := x / 0x1_0000_0000;
    assert x % 0x1_0000_0000 == x + (-q * 0x100) * 0x100_0000;
    ModAddMultiple(x, 0x100_0000, -q * 0x100);
  }

  /** Reducing modulo 2^32 before adding changes nothing modulo 2^24. */
  lemma Low24AfterLow32(x: int, k: int)
    ensures (x % TWO_TO_32 + k) % TWO_TO_24 == (x + k) % TWO_TO_24
  {
    var q := x / 0x1_0000_0000;
    assert x % 0x1_0000_0000 + k == (x + k) + (-q * 0x100) * 0x100_0000;
    ModAddMultiple(x + k, 0x100_0000, -q * 0x100);
  }

  /** No multiple of m lies strictly between 0 and m. */
  lemma NoMultipleBetween(d: int, m: int)
    requires m > 0
    ensures d * m <= 0 || d * m >= m
  {
    if d >= 1 {
      MulAtLeast(d, m);
    } else {
      assert d * m == -((-d) * m);
      assert (-d) * m >= 0;
    }
  }

  /** Numbers less than m apart have different remainders modulo m. */
  lemma DistinctResidues(x: int, y: int, m: int)
    requires m > 0 && x < y < x + m
    ensures x % m != y % m
  {
    var d := y / m - x / m;
    assert y - x == d * m + (y % m - x % m);
    NoMultipleBetween(d, m);
  }
}
