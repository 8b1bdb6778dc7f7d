/**
 * IPv4 dotted-quad text and its 32-bit integer form: `Ip2Long`, `Long2Ip`,
 * `Long2IpBig` and `Long2IpLittle` of utils.go.
 */
module IpConv {
  import opened Wrappers
  import opened Bits
  import opened Strings
  import opened Strconv

  /**
   * The two errors of this group: `IpFormat` is Ip2Long's "malformed IP"
   * error, `NotIntegerIp` is Long2Ip's "not an integer IP" error.
   */
  datatype IpError = IpFormat | NotIntegerIp

  /** The part test of Ip2Long: Atoi succeeds and the value is not above 255. */
  predicate OctetAccepted(part: string)
  {
    Atoi(part).1 == None && Atoi(part).0 <= 255
  }

  /** `uint32(i) << uint((3-key)*8)`: part number `key` moved to its byte position. */
  function Placed(i: int, key: nat): uint32
    requires key <= 3
  {
    Shl32(Uint32Of(i), (3 - key) * 8)
  }

  /** The first `n` parts are accepted. */
  predicate PrefixAccepted(parts: seq<string>, n: nat)
    requires n <= |parts|
  {
    forall k :: 0 <= k < n ==> OctetAccepted(parts[k])
  }

  /** The value of `intIp` once the parts `vals` have been ORed in, in order. */
  function Pack(vals: seq<int>): uint32
    requires |vals| <= 4
    decreases |vals|
  {
    if |vals| == 0 then 0
    else Or32(Pack(vals[..|vals| - 1]), Placed(vals[|vals| - 1], |vals| - 1))
  }

  /** The value an address `a.b.c.d` denotes, first part in the high byte. */
  function OctetsValue(a: int, b: int, c: int, d: int): int
  {
    a * 0x100_0000 + b * 0x1_0000 + c * 0x100 + d
  }

  /** The values Atoi gives for the four parts. */
  function PartValues(parts: seq<string>): (vals: seq<int>)
    requires |parts| == 4
    ensures |vals| == 4
    ensures forall k :: 0 <= k < 4 ==> vals[k] == Atoi(parts[k]).0
  {
    [Atoi(parts[0]).0, Atoi(parts[1]).0, Atoi(parts[2]).0, Atoi(parts[3]).0]
  }

  /**
   * What Ip2Long returns, stated without its loop: the input must split on
   * '.' into exactly four parts, each accepted by Atoi and at most 255; the
   * result is the OR of the four placed parts.
   */
  function Ip2LongSpec(ip: string): Result<uint32, IpError>
  {
    var parts := Split(ip, '.');
    if |parts| != 4 then Err(IpFormat)
    else if !PrefixAccepted(parts, 4) then Err(IpFormat)
    else Ok(Pack(PartValues(parts)))
  }

  /** `Ip2Long`: parses a dotted quad, stopping at the first bad part. */
  method Ip2Long(ip: string) returns (r: Result<uint32, IpError>)
    ensures r == Ip2LongSpec(ip)
  {
    var ipSplit := Split(ip, '.');
    if |ipSplit| != 4 {
      return Err(IpFormat);
    }
    var intIp: uint32 := 0;
    ghost var vals: seq<int> := [];
    for key := 0 to 4
      invariant vals == PartValues(ipSplit)[..key]
      invariant PrefixAccepted(ipSplit, key)
      invariant intIp == Pack(vals)
    {
      var res := Atoi(ipSplit[key]);
      var i, err := res.0, res.1;
      if err.Some? || i > 255 {
        return Err(IpFormat);
      }
      assert OctetAccepted(ipSplit[key]);
      PackStep(ipSplit, key, vals);
      vals := vals + [i];
      intIp := Or32(intIp, Placed(i, key));
    }
    assert vals == PartValues(ipSplit);
    return Ok(intIp);
  }

  /** `fmt.Sprintf("%d.%d.%d.%d", a, b, c, d)` for non-negative parts. */
  function Dotted(a: nat, b: nat, c: nat, d: nat): string
  {
    Itoa(a) + "." + Itoa(b) + "." + Itoa(c) + "." + Itoa(d)
  }

  /** `Long2Ip`: the four bytes of a uint32, high byte first. */
  function Long2Ip(intIp: uint32): (r: Result<string, IpError>)
    ensures r.Ok?
  {
    var ip4 := intIp % 0x100;
    var ip3 := intIp / 0x100 % 0x100;
    var ip2 := intIp / 0x1_0000 % 0x100;
    var ip1 := intIp / 0x100_0000 % 0x100;
    if ip1 > 255 || ip2 > 255 || ip3 > 255 || ip4 > 255 then Err(NotIntegerIp)
    else Ok(Dotted(ip1, ip2, ip3, ip4))
  }

  /**
   * `Long2IpBig`: the low 32 bits of a 64-bit int, printed low byte first.
   * Go's `>>` on a signed int is a floor division, as is Dafny's `/` by a
   * positive number, and `& 255` is Dafny's `% 256`.
   */
  function Long2IpBig(intIp: int64): (r: (string, bool))
    ensures r.1
  {
    var i1 := intIp % 0x100;
    var i2 := intIp / 0x100 % 0x100;
    var i3 := intIp / 0x1_0000 % 0x100;
    var i4 := intIp / 0x100_0000 % 0x100;
    if i1 > 255 || i2 > 255 || i3 > 255 || i4 > 255 then ("", false)
    else (Dotted(i1, i2, i3, i4), true)
  }

  /** `Long2IpLittle`: the low 32 bits of a 64-bit int, printed high byte first. */
  function Long2IpLittle(intIp: int64): (r: (string, bool))
    ensures r.1
  {
    var i1 := intIp % 0x100;
    var i2 := intIp / 0x100 % 0x100;
    var i3 := intIp / 0x1_0000 % 0x100;
    var i4 := intIp / 0x100_0000 % 0x100;
    if i1 > 255 || i2 > 255 || i3 > 255 || i4 > 255 then ("", false)
    else (Dotted(i4, i3, i2, i1), true)
  }

  // ---------------------------------------------------------------------------
  // Properties

  lemma PackSnoc(vals: seq<int>, v: int)
    requires |vals| <= 3
    ensures Pack(vals + [v]) == Or32(Pack(vals), Placed(v, |vals|))
  {
    assert (vals + [v])[..|vals|] == vals;
  }

  /** One turn of Ip2Long's loop: the next part's value extends the prefix, and OR places it. */
  lemma PackStep(parts: seq<string>, key: nat, vals: seq<int>)
    requires |parts| == 4 && key < 4
    requires vals == PartValues(parts)[..key]
    ensures PartValues(parts)[..key + 1] == vals + [Atoi(parts[key]).0]
    ensures Pack(vals + [Atoi(parts[key]).0]) == Or32(Pack(vals), Placed(Atoi(parts[key]).0, key))
  {
    PackSnoc(vals, Atoi(parts[key]).0);
  }

  /** A byte placed at part position `key` is the byte times 2^(8*(3-key)). */
  lemma PlacedByte(v: byte, key: nat)
    requires key <= 3
    ensures Placed(v, key) == v * [0x100_0000, 0x1_0000, 0x100, 1][key]
  {
    Pow2Values();
    assert Pow2(0) == 1;
  }

  /** ORing a value below `p` into a multiple of `p` adds it, for `p` a byte position. */
  lemma Or32Add(m: nat, y: uint32, p: nat)
    requires p == 0x100 || p == 0x1_0000 || p == 0x100_0000
    requires m * p < 0x1_0000_0000 && y < p
    ensures Or32(m * p, y) == m * p + y
  {
    Pow2Values();
    var k := if p == 0x100 then 8 else if p == 0x1_0000 then 16 else 24;
    assert Pow2(k) == p;
    BitOrDisjoint(m, y, k);
  }

  lemma PackOne(a: byte)
    ensures Pack([a]) == a * 0x100_0000
  {
    PackSnoc([], a);
    assert [] + [a] == [a];
    PlacedByte(a, 0);
    assert Pack([]) == 0;
    assert Or32(0, a * 0x100_0000) == a * 0x100_0000;
  }

  lemma PackTwo(a: byte, b: byte)
    ensures Pack([a, b]) == a * 0x100_0000 + b * 0x1_0000
  {
    PackOne(a);
    PackSnoc([a], b);
    assert [a] + [b] == [a, b];
    PlacedByte(b, 1);
    Or32Add(a, b * 0x1_0000, 0x100_0000);
  }

  lemma PackThree(a: byte, b: byte, c: byte)
    ensures Pack([a, b, c]) == a * 0x100_0000 + b * 0x1_0000 + c * 0x100
  {
    PackTwo(a, b);
    PackSnoc([a, b], c);
    assert [a, b] + [c] == [a, b, c];
    PlacedByte(c, 2);
    Or32Add(a * 0x100 + b, c * 0x100, 0x1_0000);
  }

  /** Four bytes ORed into their positions add up to the address value. */
  lemma PackBytes(a: byte, b: byte, c: byte, d: byte)
    ensures Pack([a, b, c, d]) == OctetsValue(a, b, c, d)
  {
    PackThree(a, b, c);
    PackSnoc([a, b, c], d);
    assert [a, b, c] + [d] == [a, b, c, d];
    PlacedByte(d, 3);
    Or32Add(a * 0x1_0000 + b * 0x100 + c, d, 0x100);
  }

  /** Every decimal string holds no '.'. */
  lemma NoDotInDigits(s: string)
    requires AllDigits(s)
    ensures '.' !in s
  {
  }

  /** The printed form of four numbers splits back into their decimal strings. */
  lemma SplitDotted(a: nat, b: nat, c: nat, d: nat)
    ensures Split(Dotted(a, b, c, d), '.') == [Itoa(a), Itoa(b), Itoa(c), Itoa(d)]
  {
    var A, B, C, D := Itoa(a), Itoa(b), Itoa(c), Itoa(d);
    NoDotInDigits(A);
    NoDotInDigits(B);
    NoDotInDigits(C);
    NoDotInDigits(D);
    assert Dotted(a, b, c, d) == A + ['.'] + (B + ['.'] + (C + ['.'] + D));
    SplitCons(A, '.', B + ['.'] + (C + ['.'] + D));
    SplitCons(B, '.', C + ['.'] + D);
    SplitCons(C, '.', D);
    SplitNoSep(D, '.');
  }

  /** A uint32 is the sum of its four bytes at their positions. */
  lemma ByteDecomposition(n: uint32)
    ensures n == OctetsValue(n / 0x100_0000 % 0x100, n / 0x1_0000 % 0x100, n / 0x100 % 0x100, n % 0x100)
  {
    var q1 := n / 0x100;
    var q2 := q1 / 0x100;
    var q3 := q2 / 0x100;
    assert n / 0x1_0000 == q2;
    assert n / 0x100_0000 == q3;
  }

  /** Four accepted parts make Ip2Long return their packed Atoi values. */
  lemma Ip2LongSpecAccepts(ip: string, p0: string, p1: string, p2: string, p3: string)
    requires Split(ip, '.') == [p0, p1, p2, p3]
    requires OctetAccepted(p0) && OctetAccepted(p1) && OctetAccepted(p2) && OctetAccepted(p3)
    ensures Ip2LongSpec(ip) == Ok(Pack([Atoi(p0).0, Atoi(p1).0, Atoi(p2).0, Atoi(p3).0]))
  {
    var parts := [p0, p1, p2, p3];
    assert forall k :: 0 <= k < 4 ==> OctetAccepted(parts[k]);
  }

  /** Parsing four printed bytes gives back the value they were taken from. */
  lemma Ip2LongSpecDotted(a: byte, b: byte, c: byte, d: byte)
    ensures Ip2LongSpec(Dotted(a, b, c, d)) == Ok(OctetsValue(a, b, c, d))
  {
    SplitDotted(a, b, c, d);
    AtoiItoa(a);
    AtoiItoa(b);
    AtoiItoa(c);
    AtoiItoa(d);
    Ip2LongSpecAccepts(Dotted(a, b, c, d), Itoa(a), Itoa(b), Itoa(c), Itoa(d));
    PackBytes(a, b, c, d);
  }

  /** Long2Ip never fails, and Ip2Long inverts it on every uint32. */
  lemma Ip2LongOfLong2Ip(n: uint32)
    ensures Ip2LongSpec(Long2Ip(n).value) == Ok(n)
  {
    ByteDecomposition(n);
    Ip2LongSpecDotted(n / 0x100_0000 % 0x100, n / 0x1_0000 % 0x100, n / 0x100 % 0x100, n % 0x100);
  }

  /**
   * Ip2Long on four decimal parts within 0..255 returns the address value,
   * the first part in the high byte.
   */
  lemma Ip2LongOctets(ip: string)
    requires |Split(ip, '.')| == 4
    requires forall k :: 0 <= k < 4 ==>
      IsDecimal(Split(ip, '.')[k]) && 0 <= DecimalValue(Split(ip, '.')[k]) <= 255
    ensures var p := Split(ip, '.');
      Ip2LongSpec(ip) == Ok(OctetsValue(DecimalValue(p[0]), DecimalValue(p[1]), DecimalValue(p[2]), DecimalValue(p[3])))
  {
    var p := Split(ip, '.');
    AtoiCharacterised(p[0]);
    AtoiCharacterised(p[1]);
    AtoiCharacterised(p[2]);
    AtoiCharacterised(p[3]);
    assert PartValues(p) == [DecimalValue(p[0]), DecimalValue(p[1]), DecimalValue(p[2]), DecimalValue(p[3])];
    PackBytes(DecimalValue(p[0]), DecimalValue(p[1]), DecimalValue(p[2]), DecimalValue(p[3]));
  }

  /** A part is accepted exactly when it is a decimal string whose value lies in MinInt64..255. */
  lemma OctetAcceptedIff(part: string)
    ensures OctetAccepted(part) <==> IsDecimal(part) && MinInt64 <= DecimalValue(part) <= 255
  {
    AtoiCharacterised(part);
  }

  /**
   * Ip2Long fails exactly when the input is not four parts, each a decimal
   * string whose value Atoi can hold and that is at most 255.
   */
  lemma Ip2LongErrors(ip: string)
    ensures Ip2LongSpec(ip).Err? <==>
      |Split(ip, '.')| != 4 ||
      exists k :: 0 <= k < 4 && !(IsDecimal(Split(ip, '.')[k]) && MinInt64 <= DecimalValue(Split(ip, '.')[k]) <= 255)
  {
    var p := Split(ip, '.');
    if |p| == 4 {
      forall k | 0 <= k < 4
        ensures OctetAccepted(p[k]) <==> IsDecimal(p[k]) && MinInt64 <= DecimalValue(p[k]) <= 255
      {
        OctetAcceptedIff(p[k]);
      }
    }
  }

  /** Adding a multiple of 256 does not change the low byte. */
  lemma ByteOfShifted(m: int, w: int)
    ensures (m * 0x100 + w) % 0x100 == w % 0x100
  {
  }

  /** Adding a multiple of 2^32 does not change the byte at shift `p`. */
  lemma ByteUnderWrap(q: int, u: nat, p: nat)
    requires p == 0x1 || p == 0x100 || p == 0x1_0000 || p == 0x100_0000
    ensures (q * 0x1_0000_0000 + u) / p % 0x100 == u / p % 0x100
  {
    var n := q * 0x1_0000_0000 + u;
    if p == 1 {
      ByteOfShifted(q * 0x100_0000, u);
    } else if p == 0x100 {
      assert n / p == q * 0x100_0000 + u / p;
      ByteOfShifted(q * 0x1_0000, u / p);
    } else if p == 0x1_0000 {
      assert n / p == q * 0x1_0000 + u / p;
      ByteOfShifted(q * 0x100, u / p);
    } else {
      assert n / p == q * 0x100 + u / p;
      ByteOfShifted(q, u / p);
    }
  }

  /** The low 32 bits of a signed value have the same bytes as the value itself. */
  lemma LowBytes(n: int)
    ensures var u := Uint32Of(n);
      n % 0x100 == u % 0x100 && n / 0x100 % 0x100 == u / 0x100 % 0x100 &&
      n / 0x1_0000 % 0x100 == u / 0x1_0000 % 0x100 && n / 0x100_0000 % 0x100 == u / 0x100_0000 % 0x100
  {
    var u := Uint32Of(n);
    var q := n / 0x1_0000_0000;
    assert n == q * 0x1_0000_0000 + u;
    ByteUnderWrap(q, u, 1);
    ByteUnderWrap(q, u, 0x100);
    ByteUnderWrap(q, u, 0x1_0000);
    ByteUnderWrap(q, u, 0x100_0000);
  }

  /** Long2IpLittle prints the low 32 bits as Long2Ip does, so Ip2Long reads them back. */
  lemma Long2IpLittleIsLong2Ip(n: int64)
    ensures Long2IpLittle(n).0 == Long2Ip(Uint32Of(n)).value
    ensures Ip2LongSpec(Long2IpLittle(n).0) == Ok(Uint32Of(n))
  {
    LowBytes(n);
    Ip2LongOfLong2Ip(Uint32Of(n));
  }

  /** Long2IpBig and Long2IpLittle print the same four bytes in opposite orders. */
  lemma BigIsLittleReversed(n: int64)
    ensures var big, little := Split(Long2IpBig(n).0, '.'), Split(Long2IpLittle(n).0, '.');
      |big| == 4 && |little| == 4 && forall k :: 0 <= k < 4 ==> big[k] == little[3 - k]
  {
    var i1, i2, i3, i4 := n % 0x100, n / 0x100 % 0x100, n / 0x1_0000 % 0x100, n / 0x100_0000 % 0x100;
    SplitDotted(i1, i2, i3, i4);
    SplitDotted(i4, i3, i2, i1);
  }

  // ---------------------------------------------------------------------------
  // Negative parts

  lemma SplitNegativeExample()
    ensures Split("0.0.0.-1", '.') == ["0", "0", "0", "-1"]
  {
    assert "0.0.0.-1" == "0" + ['.'] + ("0" + ['.'] + ("0" + ['.'] + "-1"));
    SplitCons("0", '.', "0" + ['.'] + ("0" + ['.'] + "-1"));
    SplitCons("0", '.', "0" + ['.'] + "-1");
    SplitCons("0", '.', "-1");
    SplitNoSep("-1", '.');
  }

  lemma AtoiMinusOne()
    ensures Atoi("-1") == (-1, None)
  {
    AtoiCharacterised("-1");
    assert Unsigned("-1") == "1" && Value("1") == 1 by {
      assert "1"[..0] == [];
    }
  }

  lemma PackNegativeExample()
    ensures Pack([0, 0, 0, -1]) == 0xFFFF_FFFF
  {
    PackThree(0, 0, 0);
    PackSnoc([0, 0, 0], -1);
    assert [0, 0, 0] + [-1] == [0, 0, 0, -1];
    assert Placed(-1, 3) == 0xFFFF_FFFF by {
      assert Uint32Of(-1) == 0xFFFF_FFFF;
      assert Pow2(0) == 1;
    }
    assert Or32(0, 0xFFFF_FFFF) == 0xFFFF_FFFF;
  }

  lemma BroadcastAddress()
    ensures Ip2LongSpec("255.255.255.255") == Ok(0xFFFF_FFFF)
  {
    assert Itoa(255) == "255";
    assert Dotted(255, 255, 255, 255) == "255.255.255.255";
    Ip2LongSpecDotted(255, 255, 255, 255);
  }

  /**
   * As written, Ip2Long rejects a part only when it is above 255, so a
   * negative part passes and is truncated to uint32 before the shift:
   * "0.0.0.-1" denotes the same address as "255.255.255.255".
   */
  lemma NegativePartAccepted()
    ensures Ip2LongSpec("0.0.0.-1") == Ok(0xFFFF_FFFF)
    ensures Ip2LongSpec("255.255.255.255") == Ok(0xFFFF_FFFF)
  {
    SplitNegativeExample();
    assert Itoa(0) == "0";
    AtoiItoa(0);
    AtoiMinusOne();
    Ip2LongSpecAccepts("0.0.0.-1", "0", "0", "0", "-1");
    PackNegativeExample();
    BroadcastAddress();
  }

  /** A part as an IPv4 address means it: accepted by Atoi and within 0..255. */
  predicate OctetValid(part: string)
  {
    OctetAccepted(part) && Atoi(part).0 >= 0
  }

  /**
   * Ip2Long with the lower bound the parts evidently need. Wherever it
   * succeeds it agrees with Ip2Long as written.
   */
  function Ip2LongChecked(ip: string): (r: Result<uint32, IpError>)
    ensures r.Ok? ==> r == Ip2LongSpec(ip)
  {
    var parts := Split(ip, '.');
    if |parts| != 4 || !(forall k :: 0 <= k < 4 ==> OctetValid(parts[k])) then Err(IpFormat)
    else Ok(Pack(PartValues(parts)))
  }

  /** A part is valid exactly when it is a decimal string with a value in 0..255. */
  lemma OctetValidIff(part: string)
    ensures OctetValid(part) <==> IsDecimal(part) && 0 <= DecimalValue(part) <= 255
    ensures OctetValid(part) ==> Atoi(part).0 == DecimalValue(part)
  {
    AtoiCharacterised(part);
  }

  /**
   * The corrected parser accepts exactly four decimal parts in 0..255 and
   * returns the address value with the first part in the high byte.
   */
  lemma Ip2LongCheckedCharacterised(ip: string)
    ensures var p := Split(ip, '.');
      Ip2LongChecked(ip).Ok? <==>
        |p| == 4 && forall k :: 0 <= k < 4 ==> IsDecimal(p[k]) && 0 <= DecimalValue(p[k]) <= 255
    ensures var p := Split(ip, '.');
      Ip2LongChecked(ip).Ok? ==>
        |p| == 4 && (forall k :: 0 <= k < 4 ==> IsDecimal(p[k])) &&
        Ip2LongChecked(ip).value == OctetsValue(DecimalValue(p[0]), DecimalValue(p[1]), DecimalValue(p[2]), DecimalValue(p[3]))
  {
    var p := Split(ip, '.');
    if |p| == 4 {
      forall k | 0 <= k < 4
        ensures OctetValid(p[k]) <==> IsDecimal(p[k]) && 0 <= DecimalValue(p[k]) <= 255
      {
        OctetValidIff(p[k]);
      }
      if forall k :: 0 <= k < 4 ==> OctetValid(p[k]) {
        Ip2LongOctets(ip);
      }
    }
  }

  /** The corrected parser rejects a negative part. */
  lemma NegativePartRejected()
    ensures Ip2LongChecked("0.0.0.-1") == Err(IpFormat)
  {
    SplitNegativeExample();
    AtoiMinusOne();
    assert !OctetValid("-1");
  }

  /** The corrected parser still inverts Long2Ip on every uint32. */
  lemma Ip2LongCheckedOfLong2Ip(n: uint32)
    ensures Ip2LongChecked(Long2Ip(n).value) == Ok(n)
  {
    var a, b, c, d := n / 0x100_0000 % 0x100, n / 0x1_0000 % 0x100, n / 0x100 % 0x100, n % 0x100;
    Ip2LongOfLong2Ip(n);
    SplitDotted(a, b, c, d);
    AtoiItoa(a);
    AtoiItoa(b);
    AtoiItoa(c);
    AtoiItoa(d);
    var parts := [Itoa(a), Itoa(b), Itoa(c), Itoa(d)];
    assert forall k :: 0 <= k < 4 ==> OctetValid(parts[k]);
  }
}
