/** The fixed-width integer codec behind DataPacket's template operators:
    a value is stored as the bytes of its in-memory representation, lowest
    address first. A signed intN is held in memory as its two's-complement
    bit pattern, the natural number x mod 2^N; the host is taken to be
    little-endian, so byte i of that memory is base-256 digit i of it. */
module ScalarCodec {
  import opened Sj

  type int8 = x: int | -0x80 <= x < 0x80
  type int16 = x: int | -0x8000 <= x < 0x8000
  type int32 = x: int | -0x8000_0000 <= x < 0x8000_0000
  type int64 = x: int | -0x8000_0000_0000_0000 <= x < 0x8000_0000_0000_0000

  /** The operand types of `operator<<` / `operator>>` (SJNetSock.hpp:56-59, 66-69). */
  datatype IntType = Int8 | Int16 | Int32 | Int64

  /** A value of one of those types. */
  datatype Scalar = I8(v8: int8) | I16(v16: int16) | I32(v32: int32) | I64(v64: int64)

  function TypeOf(v: Scalar): IntType
  {
    match v
    case I8(_) => Int8
    case I16(_) => Int16
    case I32(_) => Int32
    case I64(_) => Int64
  }

  function Value(v: Scalar): int
  {
    match v
    case I8(x) => x
    case I16(x) => x
    case I32(x) => x
    case I64(x) => x
  }

  /** The zero of a type: a default destination for a read. */
  function Zero(t: IntType): (v: Scalar)
    ensures TypeOf(v) == t && Value(v) == 0
  {
    match t
    case Int8 => I8(0)
    case Int16 => I16(0)
    case Int32 => I32(0)
    case Int64 => I64(0)
  }

  /** sizeof(T). */
  function SizeOf(t: IntType): nat
  {
    match t
    case Int8 => 1
    case Int16 => 2
    case Int32 => 4
    case Int64 => 8
  }

  function Pow256(k: nat): (p: nat)
    ensures p >= 1
  {
    if k == 0 then 1 else 256 * Pow256(k - 1)
  }

  lemma Pow256Values()
    ensures Pow256(1) == 0x100 && Pow256(2) == 0x1_0000
    ensures Pow256(4) == 0x1_0000_0000 && Pow256(8) == 0x1_0000_0000_0000_0000
  {
    assert Pow256(2) == 256 * Pow256(1);
    assert Pow256(4) == 256 * 256 * Pow256(2);
    assert Pow256(8) == 256 * 256 * 256 * 256 * Pow256(4);
  }

  /** 2^N for an N-bit type. */
  function Modulus(t: IntType): (m: nat)
    ensures m == Pow256(SizeOf(t))
  {
    Pow256Values();
    match t
    case Int8 => 0x100
    case Int16 => 0x1_0000
    case Int32 => 0x1_0000_0000
    case Int64 => 0x1_0000_0000_0000_0000
  }

  /** The bit pattern of a value, read as an unsigned number. */
  function TwosComplement(v: Scalar): (n: nat)
    ensures n < Modulus(TypeOf(v))
    ensures n % Modulus(TypeOf(v)) == Value(v) % Modulus(TypeOf(v))
  {
    var m := Modulus(TypeOf(v));
    if Value(v) < 0 then Value(v) + m else Value(v)
  }

  /** The value of type t whose bit pattern is n. */
  function OfTwosComplement(t: IntType, n: nat): (v: Scalar)
    requires n < Modulus(t)
    ensures TypeOf(v) == t
    ensures TwosComplement(v) == n
  {
    var x := if n < Modulus(t) / 2 then n else n - Modulus(t);
    match t
    case Int8 => I8(x)
    case Int16 => I16(x)
    case Int32 => I32(x)
    case Int64 => I64(x)
  }

  lemma TwosComplementInjective(v: Scalar, w: Scalar)
    requires TypeOf(v) == TypeOf(w) && TwosComplement(v) == TwosComplement(w)
    ensures v == w
  {
  }

  /** The k lowest base-256 digits of n, least significant first. */
  function LeBytes(n: nat, k: nat): (r: seq<byte>)
    ensures |r| == k
  {
    if k == 0 then [] else [n % 256] + LeBytes(n / 256, k - 1)
  }

  /** The number whose base-256 digits, least significant first, are bs. */
  function LeValue(bs: seq<byte>): (n: nat)
    ensures n < Pow256(|bs|)
  {
    if bs == [] then 0 else bs[0] + 256 * LeValue(bs[1..])
  }

  lemma {:induction false} LeValueOfBytes(n: nat, k: nat)
    requires n < Pow256(k)
    ensures LeValue(LeBytes(n, k)) == n
  {
    if k > 0 {
      LeValueOfBytes(n / 256, k - 1);
      assert LeBytes(n, k)[1..] == LeBytes(n / 256, k - 1);
    }
  }

  lemma {:induction false} LeBytesOfValue(bs: seq<byte>)
    ensures LeBytes(LeValue(bs), |bs|) == bs
  {
    if bs != [] {
      var n := LeValue(bs);
      assert n % 256 == bs[0] && n / 256 == LeValue(bs[1..]);
      LeBytesOfValue(bs[1..]);
      assert LeBytes(n, |bs|) == [n % 256] + LeBytes(n / 256, |bs| - 1);
      assert bs == [bs[0]] + bs[1..];
    }
  }

  /** Byte i of the little-endian digits of n is bits 8*i .. 8*i+7 of n. */
  lemma {:induction false} LeByteAt(n: nat, k: nat, i: nat)
    requires i < k
    ensures LeBytes(n, k)[i] == (n / Pow256(i)) % 256
  {
    if i > 0 {
      LeByteAt(n / 256, k - 1, i - 1);
      DivDiv(n, Pow256(i - 1));
    }
  }

  lemma MulMonotonic(d: nat, a: nat, b: nat)
    requires a <= b
    ensures d * a <= d * b
  {
    assert d * b == d * a + d * (b - a);
  }

  lemma MulStep(d: nat, a: nat, b: nat)
    requires a < b
    ensures d * a + d <= d * b
  {
    MulMonotonic(d, a + 1, b);
    assert d * (a + 1) == d * a + d;
  }

  lemma DivUnique(n: nat, d: nat, q: nat, r: nat)
    requires d > 0 && r < d && n == d * q + r
    ensures n / d == q
  {
    var q', r' := n / d, n % d;
    assert n == d * q' + r' && r' < d;
    if q' < q {
      MulStep(d, q', q);
      assert false;
    } else if q' > q {
      MulStep(d, q, q');
      assert false;
    }
  }

  lemma DivDiv(n: nat, p: nat)
    requires p >= 1
    ensures n / 256 / p == n / (256 * p)
  {
    var q := n / 256 / p;
    var m := n / 256 % p;
    assert n / 256 == p * q + m;
    assert n == 256 * (n / 256) + n % 256;
    assert n == (256 * p) * q + (256 * m + n % 256);
    DivUnique(n, 256 * p, q, 256 * m + n % 256);
  }

  /** The bytes at `(char*)&value + 0 .. sizeof(value)` (SJNetSock.hpp:83-85). */
  function MemoryBytes(v: Scalar): (r: seq<byte>)
    ensures |r| == SizeOf(TypeOf(v))
  {
    LeBytes(TwosComplement(v), SizeOf(TypeOf(v)))
  }

  /** The value of type t whose memory holds exactly `bs`
      (what SJNetSock.hpp:95-99 builds by storing through a `char*`). */
  function FromMemory(t: IntType, bs: seq<byte>): (v: Scalar)
    requires |bs| == SizeOf(t)
    ensures TypeOf(v) == t
  {
    OfTwosComplement(t, LeValue(bs))
  }

  /** Byte i of a value's memory holds bits 8*i .. 8*i+7 of its bit pattern. */
  lemma MemoryByteAt(v: Scalar, i: nat)
    requires i < SizeOf(TypeOf(v))
    ensures MemoryBytes(v)[i] == (TwosComplement(v) / Pow256(i)) % 256
  {
    LeByteAt(TwosComplement(v), SizeOf(TypeOf(v)), i);
  }

  /** Storing a value's bytes into a variable of its type gives back the value. */
  lemma MemoryRoundTrip(v: Scalar)
    ensures FromMemory(TypeOf(v), MemoryBytes(v)) == v
  {
    LeValueOfBytes(TwosComplement(v), SizeOf(TypeOf(v)));
    TwosComplementInjective(FromMemory(TypeOf(v), MemoryBytes(v)), v);
  }

  /** Every byte pattern of the right size is the memory of exactly one value. */
  lemma MemoryOfFromMemory(t: IntType, bs: seq<byte>)
    requires |bs| == SizeOf(t)
    ensures MemoryBytes(FromMemory(t, bs)) == bs
  {
    LeBytesOfValue(bs);
  }

  /** Two values with the same memory are equal. */
  lemma MemoryInjective(v: Scalar, w: Scalar)
    requires MemoryBytes(v) == MemoryBytes(w) && TypeOf(v) == TypeOf(w)
    ensures v == w
  {
    MemoryRoundTrip(v);
    MemoryRoundTrip(w);
  }

  /** `(std::int8_t) c` for a char c: the same bit pattern. */
  function CharAsInt8(c: byte): (x: int8)
    ensures MemoryBytes(I8(x)) == [c]
  {
    if c < 0x80 then c else c - 0x100
  }

  /** The char sharing the bit pattern of an int8. */
  function Int8AsChar(x: int8): (c: byte)
    ensures MemoryBytes(I8(x)) == [c]
    ensures c == 0 <==> x == 0
  {
    if x < 0 then x + 0x100 else x
  }
}
