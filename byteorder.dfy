/**
 * Big-endian fixed-width integer encoding: `Int64ToByte`, `ByteToInt64`,
 * `Int32ToByte`, `ByteToInt32` and `ByteToInt` of utils.go, with the parts
 * of `encoding/binary` they call.
 */
module ByteOrder {
  import opened Wrappers
  import opened Bits
  import opened Strconv

  function Pow256(n: nat): (p: nat)
    ensures p >= 1
  {
    if n == 0 then 1 else 0x100 * Pow256(n - 1)
  }

  /** The n-byte big-endian form of v: byte k is `byte(v >> (8 * (n - 1 - k)))`. */
  function BigEndian(v: nat, n: nat): (s: seq<byte>)
    ensures |s| == n
  {
    if n == 0 then [] else [v / Pow256(n - 1) % 0x100] + BigEndian(v, n - 1)
  }

  /** The number a big-endian byte string denotes (the OR of its shifted bytes, which do not overlap). */
  function FromBigEndian(s: seq<byte>): nat
  {
    if |s| == 0 then 0 else s[0] * Pow256(|s| - 1) + FromBigEndian(s[1..])
  }

  lemma MulMono(a: int, b: int, p: nat)
    requires a <= b
    ensures a * p <= b * p
  {
    assert b * p - a * p == (b - a) * p;
  }

  /** n bytes hold a value below 256^n. */
  lemma {:induction false} FromBigEndianBound(s: seq<byte>)
    ensures FromBigEndian(s) < Pow256(|s|)
  {
    if |s| > 0 {
      FromBigEndianBound(s[1..]);
      var p := Pow256(|s| - 1);
      MulMono(s[0], 0xFF, p);
    }
  }

  /** Euclidean remainder is unique. */
  lemma ModUnique(v: int, m: int, a: int, c: int)
    requires m > 0 && 0 <= c < m && v == a * m + c
    ensures v % m == c
  {
    var q, r := v / m, v % m;
    var d := a - q;
    assert d * m == a * m - q * m;
    assert d * m == r - c;
    if d >= 1 {
      MulMono(1, d, m);
    } else if d <= -1 {
      MulMono(d, -1, m);
    }
  }

  /** The byte at position p together with the bits below it is v modulo 256 p. */
  lemma DivModSplit(v: nat, p: nat)
    requires p > 0
    ensures v / p % 0x100 * p + v % p == v % (0x100 * p)
  {
    var q, r := v / p, v % p;
    var a, b := q / 0x100, q % 0x100;
    assert q * p == (0x100 * a + b) * p;
    assert (0x100 * a + b) * p == a * (0x100 * p) + b * p;
    MulMono(b, 0xFF, p);
    ModUnique(v, 0x100 * p, a, b * p + r);
  }

  /** Decoding the n-byte encoding of v gives v modulo 256^n. */
  lemma {:induction false} FromBigEndianOfBigEndian(v: nat, n: nat)
    ensures FromBigEndian(BigEndian(v, n)) == v % Pow256(n)
  {
    if n > 0 {
      var s := BigEndian(v, n);
      assert s[1..] == BigEndian(v, n - 1);
      FromBigEndianOfBigEndian(v, n - 1);
      DivModSplit(v, Pow256(n - 1));
    }
  }

  /** Multiplication by a positive number is injective. */
  lemma MulCancel(a: int, b: int, p: int)
    requires p > 0 && a * p == b * p
    ensures a == b
  {
    var d := a - b;
    assert d * p == a * p - b * p;
    if d >= 1 {
      MulMono(1, d, p);
    } else if d <= -1 {
      MulMono(d, -1, p);
    }
  }

  /** Two byte strings of one length that denote the same number are equal. */
  lemma {:induction false} FromBigEndianInjective(s: seq<byte>, t: seq<byte>)
    requires |s| == |t| && FromBigEndian(s) == FromBigEndian(t)
    ensures s == t
  {
    if |s| > 0 {
      var p := Pow256(|s| - 1);
      var v := FromBigEndian(s);
      FromBigEndianBound(s[1..]);
      FromBigEndianBound(t[1..]);
      ModUnique(v, p, s[0], FromBigEndian(s[1..]));
      ModUnique(v, p, t[0], FromBigEndian(t[1..]));
      FromBigEndianInjective(s[1..], t[1..]);
      MulCancel(s[0], t[0], p);
      assert s == [s[0]] + s[1..] && t == [t[0]] + t[1..];
    }
  }

  /** Encoding the value of a byte string in as many bytes gives the string back. */
  lemma BigEndianOfFromBigEndian(s: seq<byte>)
    ensures BigEndian(FromBigEndian(s), |s|) == s
  {
    var v := FromBigEndian(s);
    FromBigEndianBound(s);
    FromBigEndianOfBigEndian(v, |s|);
    ModUnique(v, Pow256(|s|), 0, v);
    FromBigEndianInjective(BigEndian(v, |s|), s);
  }

  lemma Pow256Values()
    ensures Pow256(1) == 0x100 && Pow256(2) == 0x1_0000 && Pow256(3) == 0x100_0000
    ensures Pow256(4) == 0x1_0000_0000 && Pow256(5) == 0x100_0000_0000
    ensures Pow256(6) == 0x1_0000_0000_0000 && Pow256(7) == 0x100_0000_0000_0000
    ensures Pow256(8) == 0x1_0000_0000_0000_0000
  {
  }

  lemma BigEndian4(v: nat)
    ensures BigEndian(v, 4) ==
      [v / 0x100_0000 % 0x100, v / 0x1_0000 % 0x100, v / 0x100 % 0x100, v % 0x100]
  {
    Pow256Values();
    assert BigEndian(v, 1) == [v % 0x100];
    assert BigEndian(v, 2) == [v / 0x100 % 0x100] + BigEndian(v, 1);
    assert BigEndian(v, 3) == [v / 0x1_0000 % 0x100] + BigEndian(v, 2);
  }

  lemma BigEndian8(v: nat)
    ensures BigEndian(v, 8) ==
      [v / 0x100_0000_0000_0000 % 0x100, v / 0x1_0000_0000_0000 % 0x100,
       v / 0x100_0000_0000 % 0x100, v / 0x1_0000_0000 % 0x100] + BigEndian(v, 4)
  {
    Pow256Values();
    assert BigEndian(v, 5) == [v / 0x1_0000_0000 % 0x100] + BigEndian(v, 4);
    assert BigEndian(v, 6) == [v / 0x100_0000_0000 % 0x100] + BigEndian(v, 5);
    assert BigEndian(v, 7) == [v / 0x1_0000_0000_0000 % 0x100] + BigEndian(v, 6);
  }

  // ---------------------------------------------------------------------------
  // encoding/binary

  /** `binary.BigEndian.PutUint64(b, v)`: the eight bytes of v into b[0..8], most significant first. */
  method PutUint64(b: array<byte>, v: uint64)
    requires b.Length >= 8
    modifies b
    ensures b[..8] == BigEndian(v, 8)
    ensures b[8..] == old(b[8..])
  {
    b[0] := v / 0x100_0000_0000_0000 % 0x100;
    b[1] := v / 0x1_0000_0000_0000 % 0x100;
    b[2] := v / 0x100_0000_0000 % 0x100;
    b[3] := v / 0x1_0000_0000 % 0x100;
    b[4] := v / 0x100_0000 % 0x100;
    b[5] := v / 0x1_0000 % 0x100;
    b[6] := v / 0x100 % 0x100;
    b[7] := v % 0x100;
    BigEndian8(v);
    BigEndian4(v);
  }

  /** `binary.BigEndian.PutUint32(b, v)`: the four bytes of v into b[0..4], most significant first. */
  method PutUint32(b: array<byte>, v: uint32)
    requires b.Length >= 4
    modifies b
    ensures b[..4] == BigEndian(v, 4)
    ensures b[4..] == old(b[4..])
  {
    b[0] := v / 0x100_0000 % 0x100;
    b[1] := v / 0x1_0000 % 0x100;
    b[2] := v / 0x100 % 0x100;
    b[3] := v % 0x100;
    BigEndian4(v);
  }

  /** `binary.BigEndian.Uint64(b)`: the value whose eight-byte big-endian form is b[0..8]. */
  function Uint64(b: seq<byte>): (v: uint64)
    requires |b| >= 8
    ensures BigEndian(v, 8) == b[..8]
  {
    FromBigEndianBound(b[..8]);
    Pow256Values();
    BigEndianOfFromBigEndian(b[..8]);
    FromBigEndian(b[..8])
  }

  /** `binary.BigEndian.Uint32(b)`: the value whose four-byte big-endian form is b[0..4]. */
  function Uint32(b: seq<byte>): (v: uint32)
    requires |b| >= 4
    ensures BigEndian(v, 4) == b[..4]
  {
    FromBigEndianBound(b[..4]);
    Pow256Values();
    BigEndianOfFromBigEndian(b[..4]);
    FromBigEndian(b[..4])
  }

  // ---------------------------------------------------------------------------
  // utils.go

  /** `Int64ToByte`: a fresh 8-byte buffer holding i big-endian. */
  method Int64ToByte(i: int64) returns (buf: array<byte>)
    ensures fresh(buf) && buf.Length == 8
    ensures buf[..] == BigEndian(Uint64Of(i), 8)
  {
    buf := new byte[8](_ => 0);
    PutUint64(buf, Uint64Of(i));
    assert buf[..] == buf[..8];
  }

  /** `ByteToInt64`: the first eight bytes, big-endian, as a signed value. */
  function ByteToInt64(buf: seq<byte>): int64
    requires |buf| >= 8
  {
    Int64Of(Uint64(buf))
  }

  /**
   * `Int32ToByte`: an 8-byte buffer of which PutUint32 fills only the first
   * four, with the low 32 bits of i; the last four stay zero.
   */
  method Int32ToByte(i: int64) returns (buf: array<byte>)
    ensures fresh(buf) && buf.Length == 8
    ensures buf[..4] == BigEndian(Uint32Of(i), 4)
    ensures buf[4..] == [0, 0, 0, 0]
  {
    buf := new byte[8](_ => 0);
    PutUint32(buf, Uint32Of(i));
  }

  /** `ByteToInt32`: the first four bytes, big-endian, as a signed value. */
  function ByteToInt32(buf: seq<byte>): int32
    requires |buf| >= 4
  {
    Int32Of(Uint32(buf))
  }

  /** Go's `string(buf)`: one character per byte, of the same code. */
  function BytesToString(buf: seq<byte>): (s: string)
    ensures |s| == |buf| && forall k :: 0 <= k < |buf| ==> s[k] as int == buf[k]
  {
    seq(|buf|, k requires 0 <= k < |buf| => buf[k] as char)
  }

  /** `ByteToInt`: Atoi of the bytes as text, with the error dropped. */
  function ByteToInt(buf: seq<byte>): int64
  {
    Atoi(BytesToString(buf)).0
  }

  // ---------------------------------------------------------------------------
  // Properties

  /** ByteToInt64 inverts Int64ToByte. */
  lemma ByteToInt64OfInt64ToByte(i: int64)
    ensures ByteToInt64(BigEndian(Uint64Of(i), 8)) == i
  {
    var s := BigEndian(Uint64Of(i), 8);
    assert s[..8] == s;
    FromBigEndianOfBigEndian(Uint64Of(i), 8);
    Pow256Values();
    Int64OfUint64Of(i);
  }

  /** ByteToInt32 of Int32ToByte's buffer recovers the low 32 bits of i, as int32. */
  lemma ByteToInt32OfInt32ToByte(i: int64)
    ensures var r := ByteToInt32(BigEndian(Uint32Of(i), 4) + [0, 0, 0, 0]);
      r == Int32Of(Uint32Of(i)) && Uint32Of(r) == Uint32Of(i)
    ensures -0x8000_0000 <= i < 0x8000_0000 ==>
      ByteToInt32(BigEndian(Uint32Of(i), 4) + [0, 0, 0, 0]) == i
  {
    var s := BigEndian(Uint32Of(i), 4);
    assert (s + [0, 0, 0, 0])[..4] == s;
    FromBigEndianOfBigEndian(Uint32Of(i), 4);
    Pow256Values();
  }

  /** A big-endian string followed by k zero bytes is the value shifted left by 8k bits. */
  lemma {:induction false} FromBigEndianZeros(s: seq<byte>, k: nat)
    ensures FromBigEndian(s + seq(k, _ => 0)) == FromBigEndian(s) * Pow256(k)
  {
    var z: seq<byte> := seq(k, _ => 0);
    if |s| == 0 {
      assert s + z == z;
      FromBigEndianOfZeros(k);
    } else {
      assert (s + z)[1..] == s[1..] + z;
      FromBigEndianZeros(s[1..], k);
      Pow256Add(|s| - 1, k);
      Distrib(s[0], Pow256(|s| - 1), FromBigEndian(s[1..]), Pow256(k));
    }
  }

  lemma Distrib(x: int, a: int, f: int, k: int)
    ensures x * (a * k) + f * k == (x * a + f) * k
  {
  }

  lemma {:induction false} FromBigEndianOfZeros(k: nat)
    ensures FromBigEndian(seq(k, _ => 0)) == 0
  {
    if k > 0 {
      var z: seq<byte> := seq(k, _ => 0);
      assert z[1..] == seq(k - 1, _ => 0);
      FromBigEndianOfZeros(k - 1);
    }
  }

  lemma {:induction false} Pow256Add(a: nat, b: nat)
    ensures Pow256(a + b) == Pow256(a) * Pow256(b)
  {
    if a > 0 {
      Pow256Add(a - 1, b);
      assert Pow256(a + b) == 0x100 * Pow256(a - 1 + b);
    }
  }

  /**
   * Because Int32ToByte leaves its value in the high half of an 8-byte
   * buffer, ByteToInt64 of that buffer is the low 32 bits shifted up by 32.
   */
  lemma ByteToInt64OfInt32ToByte(i: int64)
    ensures ByteToInt64(BigEndian(Uint32Of(i), 4) + [0, 0, 0, 0]) == Int64Of(Uint32Of(i) * 0x1_0000_0000)
  {
    var b := BigEndian(Uint32Of(i), 4) + [0, 0, 0, 0];
    assert b[..8] == b;
    HighHalf(Uint32Of(i));
  }

  /** Four bytes of u followed by four zero bytes read as u shifted left by 32 bits. */
  lemma HighHalf(u: uint32)
    ensures FromBigEndian(BigEndian(u, 4) + [0, 0, 0, 0]) == u * 0x1_0000_0000
  {
    var z: seq<byte> := seq(4, _ => 0);
    assert z == [0, 0, 0, 0];
    FromBigEndianZeros(BigEndian(u, 4), 4);
    FromBigEndianOfBigEndian(u, 4);
    Pow256Values();
  }

  /** ByteToInt returns Atoi's value when Atoi succeeds, and 0 on a syntax error. */
  lemma ByteToIntValue(buf: seq<byte>)
    ensures var s := BytesToString(buf);
      (IsDecimal(s) && MinInt64 <= DecimalValue(s) <= MaxInt64 ==> ByteToInt(buf) == DecimalValue(s)) &&
      (Atoi(s).1 == Some(ErrSyntax) ==> ByteToInt(buf) == 0)
  {
    AtoiCharacterised(BytesToString(buf));
  }
}
