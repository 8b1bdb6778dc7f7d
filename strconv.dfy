/**
 * Decimal conversions the utilities depend on: `strconv.Atoi` (which on a
 * 64-bit platform behaves as `strconv.ParseInt(s, 10, 0)`), decimal
 * printing as done by `strconv.Itoa` and `fmt`'s `%d`, and `fmt`'s `%04d`.
 */
module Strconv {
  import opened Wrappers
  import opened Bits

  /** `strconv.ErrSyntax` and `strconv.ErrRange`. */
  datatype NumError = ErrSyntax | ErrRange

  const MaxUint64: nat := 0xFFFF_FFFF_FFFF_FFFF
  /** `ParseUint`'s cutoff for base 10: the first value whose product with 10 overflows. */
  const Cutoff10: nat := MaxUint64 / 10 + 1

  predicate IsDigit(c: char)
  {
    '0' <= c <= '9'
  }

  function DigitValue(c: char): (d: nat)
    requires IsDigit(c)
    ensures d < 10
  {
    (c as int) - ('0' as int)
  }

  function DigitChar(d: nat): (c: char)
    requires d < 10
    ensures IsDigit(c) && DigitValue(c) == d
  {
    (('0' as int) + d) as char
  }

  predicate AllDigits(s: string)
  {
    forall k :: 0 <= k < |s| ==> IsDigit(s[k])
  }

  /** The number a string of decimal digits denotes (most significant digit first). */
  function Value(s: string): nat
    requires AllDigits(s)
    decreases |s|
  {
    if |s| == 0 then 0 else Value(s[..|s| - 1]) * 10 + DigitValue(s[|s| - 1])
  }

  // ---------------------------------------------------------------------------
  // Parsing

  /**
   * The digit loop of `strconv.ParseUint(s, 10, 64)` from position `i` with
   * accumulated value `n`. It stops at the first character that is not a
   * decimal digit (syntax error) or at the first digit that would take the
   * value past 2^64 - 1 (range error), whichever comes first.
   */
  function ScanDigits(s: string, i: nat, n: nat): Result<nat, NumError>
    requires i <= |s|
    decreases |s| - i
  {
    if i == |s| then Ok(n)
    else if !IsDigit(s[i]) then Err(ErrSyntax)
    else if n >= Cutoff10 then Err(ErrRange)
    else if n * 10 + DigitValue(s[i]) > MaxUint64 then Err(ErrRange)
    else ScanDigits(s, i + 1, n * 10 + DigitValue(s[i]))
  }

  /** `strconv.ParseUint(s, 10, 64)`: the empty string is a syntax error. */
  function ParseUint10(s: string): Result<nat, NumError>
  {
    if |s| == 0 then Err(ErrSyntax) else ScanDigits(s, 0, 0)
  }

  /** The string without its leading sign, if it has one. */
  function Unsigned(s: string): string
    requires |s| > 0
  {
    if s[0] == '+' || s[0] == '-' then s[1..] else s
  }

  /**
   * `strconv.Atoi(s)`, as the pair Go returns: the value and the error.
   * On a syntax error the value is 0; on a range error it is the bound of
   * int64 on the side of the sign.
   */
  function Atoi(s: string): (r: (int64, Option<NumError>))
    ensures r.1 == Some(ErrSyntax) ==> r.0 == 0
    ensures r.1 == Some(ErrRange) ==> |s| > 0 && r.0 == (if s[0] == '-' then MinInt64 else MaxInt64)
  {
    if |s| == 0 then (0, Some(ErrSyntax))
    else
      var neg := s[0] == '-';
      match ParseUint10(Unsigned(s))
      case Err(ErrSyntax) => (0, Some(ErrSyntax))
      case Err(ErrRange) => (if neg then MinInt64 else MaxInt64, Some(ErrRange))
      case Ok(un) =>
        if !neg && un > MaxInt64 then (MaxInt64, Some(ErrRange))
        else if neg && un > -MinInt64 then (MinInt64, Some(ErrRange))
        else (if neg then -(un as int) else un, None)
  }

  /** The syntax Atoi accepts: an optional sign, then one or more decimal digits. */
  predicate IsDecimal(s: string)
  {
    |s| > 0 && |Unsigned(s)| > 0 && AllDigits(Unsigned(s))
  }

  /** The signed value of a decimal string. */
  function DecimalValue(s: string): int
    requires IsDecimal(s)
  {
    if s[0] == '-' then -(Value(Unsigned(s)) as int) else Value(Unsigned(s))
  }

  lemma {:induction false} ValuePrefixBound(s: string, i: nat)
    requires AllDigits(s) && i <= |s|
    ensures Value(s[..i]) <= Value(s)
    decreases |s|
  {
    if i < |s| {
      var s' := s[..|s| - 1];
      assert s'[..i] == s[..i];
      ValuePrefixBound(s', i);
    } else {
      assert s[..i] == s;
    }
  }

  lemma {:induction false} ScanAllDigits(s: string, i: nat, n: nat)
    requires AllDigits(s) && i <= |s|
    requires n == Value(s[..i]) && n <= MaxUint64
    ensures ScanDigits(s, i, n) == if Value(s) <= MaxUint64 then Ok(Value(s)) else Err(ErrRange)
    decreases |s| - i
  {
    if i == |s| {
      assert s[..i] == s;
    } else {
      var n' := n * 10 + DigitValue(s[i]);
      assert s[..i + 1][..i] == s[..i];
      assert Value(s[..i + 1]) == n';
      ValuePrefixBound(s, i + 1);
      if n < Cutoff10 && n' <= MaxUint64 {
        ScanAllDigits(s, i + 1, n');
      }
    }
  }

  lemma {:induction false} ScanNonDigit(s: string, i: nat, n: nat, k: nat)
    requires i <= k < |s| && !IsDigit(s[k])
    ensures ScanDigits(s, i, n).Err?
    decreases |s| - i
  {
    if i < k && IsDigit(s[i]) && n < Cutoff10 && n * 10 + DigitValue(s[i]) <= MaxUint64 {
      ScanNonDigit(s, i + 1, n * 10 + DigitValue(s[i]), k);
    }
  }

  /**
   * Atoi succeeds exactly on an optional sign followed by one or more digits
   * whose value fits in int64, and then returns that value.
   */
  lemma AtoiCharacterised(s: string)
    ensures Atoi(s).1 == None <==> IsDecimal(s) && MinInt64 <= DecimalValue(s) <= MaxInt64
    ensures Atoi(s).1 == None ==> IsDecimal(s) && Atoi(s).0 == DecimalValue(s)
  {
    if |s| > 0 {
      var u := Unsigned(s);
      if |u| > 0 {
        if AllDigits(u) {
          assert u[..0] == [];
          ScanAllDigits(u, 0, 0);
        } else {
          var k :| 0 <= k < |u| && !IsDigit(u[k]);
          ScanNonDigit(u, 0, 0, k);
        }
      }
    }
  }

  // ---------------------------------------------------------------------------
  // Printing

  /** `strconv.Itoa(n)`, equivalently `fmt.Sprintf("%d", n)`, for n >= 0. */
  function Itoa(n: nat): (s: string)
    ensures |s| > 0 && AllDigits(s)
    decreases n
  {
    if n < 10 then [DigitChar(n)] else Itoa(n / 10) + [DigitChar(n % 10)]
  }

  /** Printing and then reading the digits gives back the number. */
  lemma {:induction false} ValueItoa(n: nat)
    ensures Value(Itoa(n)) == n
    decreases n
  {
    if n >= 10 {
      ValueItoa(n / 10);
      var s := Itoa(n);
      assert s[..|s| - 1] == Itoa(n / 10);
    }
  }

  /** Atoi is the inverse of Itoa on the non-negative int64 values. */
  lemma AtoiItoa(n: nat)
    requires n <= MaxInt64
    ensures Atoi(Itoa(n)) == (n, None)
  {
    ValueItoa(n);
    AtoiCharacterised(Itoa(n));
  }

  /** A string of k zero digits. */
  function Zeros(k: nat): (s: string)
    ensures |s| == k && AllDigits(s)
  {
    seq(k, _ => '0')
  }

  /** `s` padded on the left with zeros to at least `width` characters. */
  function ZeroPadLeft(s: string, width: nat): (r: string)
    ensures |r| == if |s| >= width then |s| else width
  {
    if |s| >= width then s else Zeros(width - |s|) + s
  }

  /**
   * `fmt.Sprintf("%04d", n)`: the width counts the sign, so a negative
   * number keeps only three positions for zero padding.
   */
  function Sprint04d(n: int): string
  {
    if n < 0 then "-" + ZeroPadLeft(Itoa(-n), 3) else ZeroPadLeft(Itoa(n), 4)
  }

  lemma {:induction false} ValueLeadingZero(s: string)
    requires AllDigits(s)
    ensures AllDigits(['0'] + s) && Value(['0'] + s) == Value(s)
    decreases |s|
  {
    if |s| > 0 {
      var t := ['0'] + s;
      assert t[..|t| - 1] == ['0'] + s[..|s| - 1];
      ValueLeadingZero(s[..|s| - 1]);
    }
  }

  lemma {:induction false} ValueZeros(k: nat, s: string)
    requires AllDigits(s)
    ensures AllDigits(Zeros(k) + s) && Value(Zeros(k) + s) == Value(s)
    decreases k
  {
    if k > 0 {
      var t := Zeros(k - 1) + s;
      assert Zeros(k) + s == ['0'] + t;
      ValueZeros(k - 1, s);
      ValueLeadingZero(t);
      assert Value(['0'] + t) == Value(s);
    } else {
      assert Zeros(k) + s == s;
    }
  }

  /** `%04d` of a non-negative number reads back, leading zeros and all, as that number. */
  lemma AtoiSprint04d(n: nat)
    requires n <= MaxInt64
    ensures |Sprint04d(n)| >= 4
    ensures Atoi(Sprint04d(n)) == (n, None)
  {
    var s := Itoa(n);
    ValueItoa(n);
    if |s| < 4 {
      ValueZeros(4 - |s|, s);
    }
    AtoiCharacterised(Sprint04d(n));
  }
}
