/**
 * `subStr` of utils.go: a substring by rune position with clamping. The
 * input is taken as its sequence of runes (what `[]rune(str)` gives);
 * `start`, `length` and the intermediate positions are Go `int`s, 64 bits
 * wide, so `rl - 1 + start` and `start + length` wrap around.
 */
module SubString {
  import opened Bits

  function Min(a: int, b: int): int { if a <= b then a else b }

  function Max(a: int, b: int): int { if a <= b then b else a }

  function Abs(a: int): nat { if a < 0 then -a else a }

  /** The nearest point of 0..rl. */
  function Clamp(x: int, rl: nat): (c: nat)
    ensures c <= rl
    ensures 0 <= x <= rl ==> c == x
  {
    if x < 0 then 0 else if x > rl then rl else x
  }

  /** A negative start counts back from the last rune but one: it becomes rl - 1 + start. */
  function Rebased(start: int, rl: nat): int
  {
    if start < 0 then rl - 1 + start else start
  }

  /**
   * The slice between positions `s` and `e`, whichever way round, clamped
   * into 0..rl: a valid slice never longer than the distance from s to e.
   */
  function Span(s: int, e: int, rl: nat): (b: (nat, nat))
    ensures b.0 <= b.1 <= rl
    ensures b.1 - b.0 <= Abs(e - s)
  {
    (Clamp(Min(s, e), rl), Clamp(Max(s, e), rl))
  }

  /** Neither `rl - 1 + start` nor the `start + length` after it leaves int64. */
  predicate Unwrapped(rl: nat, start: int, length: int)
  {
    var s := Rebased(start, rl);
    MinInt64 <= s <= MaxInt64 && MinInt64 <= s + length <= MaxInt64
  }

  /**
   * The slice subStr takes, with Go's 64-bit arithmetic: the rebased start
   * and the wrapped `start + length`, swapped if need be and clamped into
   * 0..rl. It is always a valid slice; it is no longer than |length| when
   * nothing wraps.
   */
  function Bounds(rl: nat, start: int64, length: int64): (b: (nat, nat))
    ensures b.0 <= b.1 <= rl
    ensures Unwrapped(rl, start, length) ==> b.1 - b.0 <= Abs(length)
  {
    var s := Wrap64(Rebased(start, rl));
    Span(s, Wrap64(s + length), rl)
  }

  /** `subStr`, step by step as written. */
  method SubStr(rs: seq<char>, start: int64, length: int64) returns (r: seq<char>)
    requires |rs| <= MaxInt64
    ensures r == rs[Bounds(|rs|, start, length).0..Bounds(|rs|, start, length).1]
    ensures |r| <= |rs|
    ensures Unwrapped(|rs|, start, length) ==> |r| <= Abs(length)
  {
    var rl: int64 := |rs|;
    var end: int64 := 0;
    ghost var start0 := start;
    var start := start;
    if start < 0 {
      start := Wrap64(rl - 1 + start);
    }
    assert start == Wrap64(Rebased(start0, rl));
    end := Wrap64(start + length);
    ghost var s, e := start, end;
    if start > end {
      start, end := end, start;
    }
    assert start == Min(s, e) && end == Max(s, e);
    if start < 0 {
      start := 0;
    }
    if start > rl {
      start := rl;
    }
    assert start == Clamp(Min(s, e), rl);
    if end < 0 {
      end := 0;
    }
    if end > rl {
      end := rl;
    }
    assert end == Clamp(Max(s, e), rl);
    BoundsIsSpan(rl, start0, length, s, e);
    r := rs[start..end];
  }

  /** Bounds is the Span of the wrapped start and end positions. */
  lemma BoundsIsSpan(rl: nat, start: int64, length: int64, s: int, e: int)
    requires s == Wrap64(Rebased(start, rl)) && e == Wrap64(s + length)
    ensures Bounds(rl, start, length) == Span(s, e, rl)
  {
  }

  // ---------------------------------------------------------------------------
  // Properties

  /** A start and length that fit in the string select exactly that run of runes. */
  lemma BoundsInRange(rl: nat, start: int64, length: int64)
    requires rl <= MaxInt64 && 0 <= start && 0 <= length && start + length <= rl
    ensures Bounds(rl, start, length) == (start, start + length)
  {
  }

  /** A negative length selects the |length| runes before start (as far as they exist). */
  lemma BoundsNegativeLength(rl: nat, start: int64, length: int64)
    requires 0 <= start <= rl && length < 0
    ensures Bounds(rl, start, length) == (Clamp(start + length, rl), start)
  {
  }

  /**
   * A negative start inside the string begins at rune rl - 1 + start, one
   * before the rune counted from the end; when `start + length` then
   * passes MaxInt64 it wraps negative, and the swap selects everything
   * before that rune instead.
   */
  lemma BoundsNegativeStart(rl: nat, start: int64, length: int64)
    requires rl <= MaxInt64 && start < 0 && 0 < rl + start && 0 <= length
    ensures rl - 1 + start + length <= MaxInt64 ==>
            Bounds(rl, start, length) == (rl - 1 + start, Min(rl - 1 + start + length, rl))
    ensures rl - 1 + start + length > MaxInt64 ==>
            Bounds(rl, start, length) == (0, rl - 1 + start)
  {
    var s := rl - 1 + start;
    assert Wrap64(s) == s;
    if s + length > MaxInt64 {
      assert Wrap64(s + length) == s + length - 0x1_0000_0000_0000_0000;
    }
  }

  /**
   * A zero length gives the empty string, and so does a start past the end
   * with a non-negative length, unless `start + length` wraps: then the
   * whole string is selected.
   */
  lemma BoundsPastEnd(rl: nat, start: int64, length: int64)
    requires rl <= MaxInt64
    ensures length == 0 ==> Bounds(rl, start, length).0 == Bounds(rl, start, length).1
    ensures rl <= start && 0 <= length && start + length <= MaxInt64 ==> Bounds(rl, start, length) == (rl, rl)
    ensures rl <= start && 0 <= length && start + length > MaxInt64 ==> Bounds(rl, start, length) == (0, rl)
  {
  }

  /**
   * Without wrap-around, Go's arithmetic and exact arithmetic agree: the
   * slice is IntendedBounds.
   */
  lemma BoundsUnwrapped(rl: nat, start: int64, length: int64)
    requires Unwrapped(rl, start, length)
    ensures Bounds(rl, start, length) == IntendedBounds(rl, start, length)
  {
    var s := Rebased(start, rl);
    assert Wrap64(s) == s;
    assert Wrap64(s + length) == s + length;
  }

  // ---------------------------------------------------------------------------
  // Wrap-around

  /**
   * As written, `start + length` can wrap: subStr("abc", MaxInt64, 1) is
   * "abc", three runes for a length of 1, and subStr("abc", -1, MaxInt64)
   * is "a".
   */
  lemma WrapSelectsBefore()
    ensures Bounds(3, MaxInt64, 1) == (0, 3)
    ensures Bounds(3, -1, MaxInt64) == (0, 1)
  {
    assert Wrap64(MaxInt64 + 1) == MinInt64;
  }

  /** The slice subStr evidently means: the same steps in exact arithmetic. */
  function IntendedBounds(rl: nat, start: int, length: int): (b: (nat, nat))
    ensures b.0 <= b.1 <= rl
    ensures b.1 - b.0 <= Abs(length)
  {
    var s := Rebased(start, rl);
    Span(s, s + length, rl)
  }

  /** In exact arithmetic a start past the end with a non-negative length always gives the empty string. */
  lemma IntendedPastEndEmpty(rl: nat, start: int, length: int)
    requires rl <= start && 0 <= length
    ensures IntendedBounds(rl, start, length) == (rl, rl)
  {
  }

  // ---------------------------------------------------------------------------
  // Negative starts

  /**
   * As written, a negative start never makes the slice begin at the last
   * rune of a string of two or more runes: subStr("abc", -1, 1) is "b".
   */
  lemma NegativeStartMissesLastRune(rl: nat, start: int64, length: int64)
    requires 2 <= rl && start < 0
    ensures Bounds(rl, start, length).0 <= rl - 2
    ensures Bounds(3, -1, 1) == (1, 2)
  {
  }

  /** A negative start counted from the end as PHP's substr counts it: -k is rl - k. */
  function RebasedFromEnd(start: int, rl: nat): int
  {
    if start < 0 then rl + start else start
  }

  /** The slice subStr takes once a negative start is counted from the end (in exact arithmetic). */
  function BoundsFromEnd(rl: nat, start: int, length: int): (b: (nat, nat))
    ensures b.0 <= b.1 <= rl
    ensures b.1 - b.0 <= Abs(length)
  {
    var s := RebasedFromEnd(start, rl);
    Span(s, s + length, rl)
  }

  /** With the start counted from the end, a start of -k and a length of at least k select the last k runes. */
  lemma BoundsFromEndLastRunes(rl: nat, k: int, length: int)
    requires 1 <= k <= rl && k <= length
    ensures BoundsFromEnd(rl, -k, length) == (rl - k, rl)
  {
  }

  /** Counting from the end changes nothing for non-negative starts. */
  lemma BoundsFromEndNonNegative(rl: nat, start: int, length: int)
    ensures 0 <= start ==> BoundsFromEnd(rl, start, length) == IntendedBounds(rl, start, length)
  {
  }
}
