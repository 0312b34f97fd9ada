/** Byte-level arithmetic shared by the frame codec and the reply decoder:
    the additive checksum, big-endian byte extraction and assembly, and the
    C++ conversions that truncate toward zero. */
module Bytes {

  /** An unsigned 8-bit value as it travels on the serial line. */
  type Byte = x: int | 0 <= x < 256

  /** Unsigned sum of all bytes of `s`, without wrap-around. */
  function Sum(s: seq<Byte>): nat
  {
    if s == [] then 0 else Sum(s[..|s| - 1]) + s[|s| - 1]
  }

  /** A frame is intact when its byte sum, checksum byte included, is a multiple of 256. */
  predicate ChecksumOk(f: seq<Byte>)
  {
    Sum(f) % 256 == 0
  }

  /** The trailing byte that completes `body` into an intact frame:
      (0x100 - (sum & 0xFF)) stored into an 8-bit cell. */
  function Checksum(body: seq<Byte>): (c: Byte)
    ensures (Sum(body) + c) % 256 == 0
  {
    (256 - Sum(body) % 256) % 256
  }

  lemma {:induction false} SumAppend(s: seq<Byte>, t: seq<Byte>)
    ensures Sum(s + t) == Sum(s) + Sum(t)
    decreases |t|
  {
    if t == [] {
      assert s + t == s;
    } else {
      var t' := t[..|t| - 1];
      assert (s + t)[..|s + t| - 1] == s + t';
      SumAppend(s, t');
    }
  }

  /** One step of a running checksum kept modulo 256: adding the next byte to
      the reduced sum of a prefix gives the reduced sum of the longer prefix. */
  lemma SumPrefixStep(s: seq<Byte>, i: nat)
    requires i < |s|
    ensures (Sum(s[..i]) % 256 + s[i]) % 256 == Sum(s[..i + 1]) % 256
  {
    assert s[..i + 1][..i] == s[..i];
  }

  /** Appending the checksum byte yields an intact frame. */
  lemma ChecksumCompletes(body: seq<Byte>)
    ensures ChecksumOk(body + [Checksum(body)])
    ensures Sum(body + [Checksum(body)]) == Sum(body) + Checksum(body)
  {
    assert (body + [Checksum(body)])[..|body|] == body;
  }

  /** A frame is intact exactly when its last byte is the checksum of the
      bytes before it. */
  lemma ChecksumMatches(f: seq<Byte>)
    requires 0 < |f|
    ensures ChecksumOk(f) <==> f[|f| - 1] == Checksum(f[..|f| - 1])
  {
  }

  /** Replacing one byte moves the sum by exactly the difference of the two values. */
  lemma SumUpdate(s: seq<Byte>, i: nat, b: Byte)
    requires i < |s|
    ensures Sum(s[i := b]) == Sum(s) - s[i] + b
  {
    assert s == s[..i] + [s[i]] + s[i + 1..];
    assert s[i := b] == s[..i] + [b] + s[i + 1..];
    SumAppend(s[..i] + [s[i]], s[i + 1..]);
    SumAppend(s[..i], [s[i]]);
    SumAppend(s[..i] + [b], s[i + 1..]);
    SumAppend(s[..i], [b]);
  }

  /** Any single corrupted byte of an intact frame breaks the checksum. */
  lemma SingleByteCorruptionDetected(f: seq<Byte>, i: nat, b: Byte)
    requires ChecksumOk(f) && i < |f| && b != f[i]
    ensures !ChecksumOk(f[i := b])
  {
    SumUpdate(f, i, b);
  }

  /** Byte `k` (counting from the least significant) of the two's-complement
      representation of `v`, i.e. `(v >> 8k) & 0xFF` with an arithmetic shift. */
  function ByteAt(v: int, k: nat): Byte
    decreases k
  {
    if k == 0 then v % 256 else ByteAt(v / 256, k - 1)
  }

  /** The low `n` bytes of `v`, most significant first. */
  function BEBytes(v: int, n: nat): (s: seq<Byte>)
    ensures |s| == n
  {
    seq(n, i requires 0 <= i < n => ByteAt(v, n - 1 - i))
  }

  function Pow256(n: nat): (p: nat)
    ensures p >= 1
  {
    if n == 0 then 1 else 256 * Pow256(n - 1)
  }

  /** The unsigned value of a big-endian byte string. */
  function BEValue(s: seq<Byte>): (v: nat)
    ensures v < Pow256(|s|)
  {
    if s == [] then 0 else BEValue(s[..|s| - 1]) * 256 + s[|s| - 1]
  }

  /** Extracting the low `n` bytes of a value that fits in them and reading
      them back big-endian gives the value again. */
  lemma {:induction false} BERoundTrip(v: int, n: nat)
    requires 0 <= v < Pow256(n)
    ensures BEValue(BEBytes(v, n)) == v
  {
    if n > 0 {
      var s := BEBytes(v, n);
      forall i | 0 <= i < n - 1
        ensures s[i] == BEBytes(v / 256, n - 1)[i]
      {
        assert s[i] == ByteAt(v, n - 1 - i) == ByteAt(v / 256, n - 2 - i);
      }
      assert s[..n - 1] == BEBytes(v / 256, n - 1);
      assert s[n - 1] == ByteAt(v, 0);
      BERoundTrip(v / 256, n - 1);
    }
  }

  /** A big-endian two's-complement 32-bit value, as `b0 << 24 | b1 << 16 | b2 << 8 | b3`
      stored into an `int`. */
  function Int32BE(b0: Byte, b1: Byte, b2: Byte, b3: Byte): (v: int)
    ensures -0x8000_0000 <= v < 0x8000_0000
    ensures (v - (b0 * 0x100_0000 + b1 * 0x1_0000 + b2 * 0x100 + b3)) % 0x1_0000_0000 == 0
  {
    var u := b0 * 0x100_0000 + b1 * 0x1_0000 + b2 * 0x100 + b3;
    if u >= 0x8000_0000 then u - 0x1_0000_0000 else u
  }

  /** A big-endian two's-complement 16-bit value, as `b0 << 8 | b1` stored into an `int16_t`. */
  function Int16BE(b0: Byte, b1: Byte): (v: int)
    ensures -0x8000 <= v < 0x8000
    ensures (v - (b0 * 0x100 + b1)) % 0x1_0000 == 0
  {
    var u := b0 * 0x100 + b1;
    if u >= 0x8000 then u - 0x1_0000 else u
  }

  /** A big-endian unsigned 16-bit value, as `b0 << 8 | b1`. */
  function Uint16BE(b0: Byte, b1: Byte): (v: int)
    ensures 0 <= v < 0x1_0000
    ensures v / 256 == b0 && v % 256 == b1
  {
    b0 * 0x100 + b1
  }

  /** Every 32-bit signed value survives extraction into four bytes and reassembly. */
  lemma Int32RoundTrip(v: int)
    requires -0x8000_0000 <= v < 0x8000_0000
    ensures var s := BEBytes(v, 4); Int32BE(s[0], s[1], s[2], s[3]) == v
  {
    var s := BEBytes(v, 4);
    var q1 := v / 256;
    var q2 := q1 / 256;
    var q3 := q2 / 256;
    assert s[3] == ByteAt(v, 0) == v % 256;
    assert s[2] == ByteAt(v, 1) == q1 % 256;
    assert s[1] == ByteAt(v, 2) == ByteAt(q1, 1) == q2 % 256;
    assert s[0] == ByteAt(v, 3) == ByteAt(q1, 2) == ByteAt(q2, 1) == q3 % 256;
  }

  /** Every 16-bit signed value survives extraction into two bytes and reassembly. */
  lemma Int16RoundTrip(v: int)
    requires -0x8000 <= v < 0x8000
    ensures var s := BEBytes(v, 2); Int16BE(s[0], s[1]) == v
  {
    var s := BEBytes(v, 2);
    assert s[1] == ByteAt(v, 0) == v % 256;
    assert s[0] == ByteAt(v, 1) == (v / 256) % 256;
  }

  /** C++ conversion of a floating value to `int`: truncation toward zero. */
  function TruncToInt(x: real): (n: int)
    ensures 0.0 <= x ==> 0 <= n && n as real <= x < n as real + 1.0
    ensures x < 0.0 ==> n <= 0 && n as real - 1.0 < x <= n as real
  {
    if x >= 0.0 then x.Floor else -((-x).Floor)
  }

  /** C++ integer division: the quotient truncated toward zero (Dafny's `/` is
      Euclidean). Its magnitude is the quotient of the magnitudes and its sign is
      that of `a`. */
  function TruncDiv(a: int, b: int): (q: int)
    requires b > 0
    ensures (if a < 0 then -q else q) == (if a < 0 then -a else a) / b
    ensures a < 0 ==> q <= 0
  {
    if a >= 0 then a / b else -((-a) / b)
  }
}
