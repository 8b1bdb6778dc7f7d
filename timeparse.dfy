/**
 * `StrToTime` and `StrToLocalTime` of utils.go. Go's `time.Parse` is a
 * parameter `parse(layout, value)` returning the parsed time or its
 * error; the time type `T` and its zero value are parameters too, and so
 * are the local zone's name and offset that `time.Now().Zone()` reports.
 */
module TimeParse {
  import opened Wrappers
  import opened Bits
  import opened Strconv

  /** The layouts StrToTime tries, in its order: sixteen of its own, then Go's named layouts. */
  function Layouts(): seq<string>
  {
    [
    "2006-01-02 15:04:05 -0700 MST",
    "2006-01-02 15:04:05 -0700",
    "2006-01-02 15:04:05",
    "2006/01/02 15:04:05 -0700 MST",
    "2006/01/02 15:04:05 -0700",
    "2006/01/02 15:04:05",
    "2006-01-02 -0700 MST",
    "2006-01-02 -0700",
    "2006-01-02",
    "2006/01/02 -0700 MST",
    "2006/01/02 -0700",
    "2006/01/02",
    "2006-01-02 15:04:05 -0700 -0700",
    "2006/01/02 15:04:05 -0700 -0700",
    "2006-01-02 -0700 -0700",
    "2006/01/02 -0700 -0700",
    "Mon Jan _2 15:04:05 2006",                 // time.ANSIC
    "Mon Jan _2 15:04:05 MST 2006",             // time.UnixDate
    "Mon Jan 02 15:04:05 -0700 2006",           // time.RubyDate
    "02 Jan 06 15:04 MST",                      // time.RFC822
    "02 Jan 06 15:04 -0700",                    // time.RFC822Z
    "Monday, 02-Jan-06 15:04:05 MST",           // time.RFC850
    "Mon, 02 Jan 2006 15:04:05 MST",            // time.RFC1123
    "Mon, 02 Jan 2006 15:04:05 -0700",          // time.RFC1123Z
    "2006-01-02T15:04:05Z07:00",                // time.RFC3339
    "2006-01-02T15:04:05.999999999Z07:00",      // time.RFC3339Nano
    "3:04PM",                                   // time.Kitchen
    "Jan _2 15:04:05",                          // time.Stamp
    "Jan _2 15:04:05.000",                      // time.StampMilli
    "Jan _2 15:04:05.000000",                   // time.StampMicro
    "Jan _2 15:04:05.000000000"                 // time.StampNano
    ]
  }

  /**
   * The layout search from position `k` on: the first layout that parses
   * `value` gives the result; when none does, the error of the last one
   * tried is what is left.
   */
  function ParseFrom<T, E>(layouts: seq<string>, k: nat, value: string, parse: (string, string) -> Result<T, E>): Result<T, E>
    requires k < |layouts|
    decreases |layouts| - k
  {
    var res := parse(layouts[k], value);
    if res.Ok? || k == |layouts| - 1 then res else ParseFrom(layouts, k + 1, value, parse)
  }

  /**
   * `StrToTime(value)`: the zero time for the empty string, else the layout
   * search over Layouts. Where Go panics with the last error, the model
   * returns that error.
   */
  function StrToTimeSpec<T, E>(value: string, parse: (string, string) -> Result<T, E>, zero: T): Result<T, E>
  {
    if value == "" then Ok(zero) else ParseFrom(Layouts(), 0, value, parse)
  }

  /** The loop of StrToTime: try each layout in turn, keep the last error, return on the first success. */
  method ParseFirst<T, E>(layouts: seq<string>, value: string, parse: (string, string) -> Result<T, E>) returns (r: Result<T, E>)
    requires |layouts| > 0
    ensures r == ParseFrom(layouts, 0, value, parse)
  {
    var err: Option<E> := None;
    for i := 0 to |layouts|
      invariant forall j :: 0 <= j < i ==> parse(layouts[j], value).Err?
      invariant i == 0 <==> err == None
      invariant 0 < i ==> err == Some(parse(layouts[i - 1], value).error)
    {
      var res := parse(layouts[i], value);
      if res.Ok? {
        ParseFromSkip(layouts, 0, i, value, parse);
        return res;
      }
      err := Some(res.error);
    }
    ParseFromSkip(layouts, 0, |layouts| - 1, value, parse);
    r := Err(err.value);
  }

  /** `StrToTime(value)`: the zero time for "", else the loop over Layouts. */
  method StrToTime<T, E>(value: string, parse: (string, string) -> Result<T, E>, zero: T) returns (r: Result<T, E>)
    ensures r == StrToTimeSpec(value, parse, zero)
  {
    if value == "" {
      return Ok(zero);
    }
    LayoutsLength();
    r := ParseFirst(Layouts(), value, parse);
  }

  /** Go's `/` on integers: the quotient truncated toward zero. */
  function GoDiv(a: int, b: int): (q: int)
    requires b > 0
    ensures a >= 0 ==> 0 <= q && q * b <= a < q * b + b
    ensures a < 0 ==> q <= 0 && q * b - b < a <= q * b
  {
    DivBracket(if a >= 0 then a else -a, b);
    if a >= 0 then a / b else -((-a) / b)
  }

  /** Euclidean division of a natural number brackets it between two multiples of b. */
  lemma DivBracket(n: nat, b: int)
    requires b > 0
    ensures 0 <= n / b && (n / b) * b <= n < (n / b) * b + b
    ensures (-(n / b)) * b == -((n / b) * b)
  {
  }

  /**
   * What StrToLocalTime appends to a non-empty value: `" +%04d"` of the
   * whole hours times 100 when that is positive, `" -%04d"` of it
   * otherwise, then a space and the zone name when the name is not empty.
   */
  function ZoneSuffix(zoneName: string, offset: int64): string
  {
    var zoneValue := GoDiv(offset, 3600) * 100;
    (if zoneValue > 0 then " +" else " -") + Sprint04d(zoneValue)
    + (if zoneName != "" then " " + zoneName else "")
  }

  /** `StrToLocalTime(value)` with the zone that `time.Now().Zone()` reports given as `zoneName` and `offset`. */
  function StrToLocalTimeSpec<T, E>(value: string, zoneName: string, offset: int64,
                                    parse: (string, string) -> Result<T, E>, zero: T): Result<T, E>
  {
    if value == "" then Ok(zero) else StrToTimeSpec(value + ZoneSuffix(zoneName, offset), parse, zero)
  }

  method StrToLocalTime<T, E>(value: string, zoneName: string, offset: int64,
                              parse: (string, string) -> Result<T, E>, zero: T) returns (r: Result<T, E>)
    ensures r == StrToLocalTimeSpec(value, zoneName, offset, parse, zero)
  {
    if value == "" {
      return Ok(zero);
    }
    r := StrToTime(value + ZoneSuffix(zoneName, offset), parse, zero);
  }

  // ---------------------------------------------------------------------------
  // Properties of the layout search

  /** Layouts that fail before position `i` are skipped: the search from `k` is the search from `i`. */
  lemma {:induction false} ParseFromSkip<T, E>(layouts: seq<string>, k: nat, i: nat, value: string,
                                               parse: (string, string) -> Result<T, E>)
    requires k <= i < |layouts|
    requires forall j :: k <= j < i ==> parse(layouts[j], value).Err?
    ensures ParseFrom(layouts, k, value, parse) == ParseFrom(layouts, i, value, parse)
    decreases i - k
  {
    if k < i {
      ParseFromSkip(layouts, k + 1, i, value, parse);
    }
  }

  /** The search succeeds exactly when some layout from `k` on parses the value. */
  lemma {:induction false} ParseFromOk<T, E>(layouts: seq<string>, k: nat, value: string,
                                             parse: (string, string) -> Result<T, E>)
    requires k < |layouts|
    ensures ParseFrom(layouts, k, value, parse).Ok? <==>
            exists j :: k <= j < |layouts| && parse(layouts[j], value).Ok?
    decreases |layouts| - k
  {
    if parse(layouts[k], value).Err? && k < |layouts| - 1 {
      ParseFromOk(layouts, k + 1, value, parse);
      if exists j :: k <= j < |layouts| && parse(layouts[j], value).Ok? {
        var j :| k <= j < |layouts| && parse(layouts[j], value).Ok?;
        assert k + 1 <= j;
      }
    }
  }

  /** A successful search returns the parse of the earliest layout that succeeds. */
  lemma {:induction false} ParseFromFirst<T, E>(layouts: seq<string>, k: nat, j: nat, value: string,
                                                parse: (string, string) -> Result<T, E>)
    requires k <= j < |layouts|
    requires parse(layouts[j], value).Ok?
    requires forall i :: k <= i < j ==> parse(layouts[i], value).Err?
    ensures ParseFrom(layouts, k, value, parse) == parse(layouts[j], value)
  {
    ParseFromSkip(layouts, k, j, value, parse);
  }

  /** A failed search returns the error of the last layout. */
  lemma {:induction false} ParseFromLastError<T, E>(layouts: seq<string>, k: nat, value: string,
                                                    parse: (string, string) -> Result<T, E>)
    requires k < |layouts|
    requires ParseFrom(layouts, k, value, parse).Err?
    ensures ParseFrom(layouts, k, value, parse) == parse(layouts[|layouts| - 1], value)
    decreases |layouts| - k
  {
    if k < |layouts| - 1 && parse(layouts[k], value).Err? {
      ParseFromLastError(layouts, k + 1, value, parse);
    }
  }

  /** StrToTime tries 31 layouts. */
  lemma LayoutsLength()
    ensures |Layouts()| == 31
  {
  }

  /**
   * The layout search over any non-empty list: it succeeds exactly when some
   * layout parses the value, the earliest such layout decides, and when none
   * does the last layout's error is returned.
   */
  lemma ParseFromCharacterised<T, E>(layouts: seq<string>, value: string, parse: (string, string) -> Result<T, E>)
    requires |layouts| > 0
    ensures ParseFrom(layouts, 0, value, parse).Ok? <==>
            exists j :: 0 <= j < |layouts| && parse(layouts[j], value).Ok?
    ensures forall j :: 0 <= j < |layouts| && parse(layouts[j], value).Ok? &&
                        (forall i :: 0 <= i < j ==> parse(layouts[i], value).Err?) ==>
                        ParseFrom(layouts, 0, value, parse) == parse(layouts[j], value)
    ensures ParseFrom(layouts, 0, value, parse).Err? ==>
            ParseFrom(layouts, 0, value, parse) == parse(layouts[|layouts| - 1], value)
  {
    ParseFromOk(layouts, 0, value, parse);
    forall j | 0 <= j < |layouts| && parse(layouts[j], value).Ok? &&
               (forall i :: 0 <= i < j ==> parse(layouts[i], value).Err?)
      ensures ParseFrom(layouts, 0, value, parse) == parse(layouts[j], value)
    {
      ParseFromFirst(layouts, 0, j, value, parse);
    }
    if ParseFrom(layouts, 0, value, parse).Err? {
      ParseFromLastError(layouts, 0, value, parse);
    }
  }

  /**
   * StrToTime in full: the empty string gives the zero time without any
   * layout being tried; otherwise the earliest of the 31 layouts that parses
   * the value decides, and when none does the error of the last one,
   * time.StampNano, is returned.
   */
  lemma StrToTimeCharacterised<T, E>(value: string, parse: (string, string) -> Result<T, E>, zero: T)
    ensures value == "" ==> StrToTimeSpec(value, parse, zero) == Ok(zero)
    ensures value != "" ==>
            (StrToTimeSpec(value, parse, zero).Ok? <==>
             exists j :: 0 <= j < |Layouts()| && parse(Layouts()[j], value).Ok?)
    ensures forall j :: 0 <= j < |Layouts()| && value != "" && parse(Layouts()[j], value).Ok? &&
                        (forall i :: 0 <= i < j ==> parse(Layouts()[i], value).Err?) ==>
                        StrToTimeSpec(value, parse, zero) == parse(Layouts()[j], value)
    ensures value != "" && StrToTimeSpec(value, parse, zero).Err? ==>
            StrToTimeSpec(value, parse, zero) == parse("Jan _2 15:04:05.000000000", value)
  {
    LayoutsLength();
    if value != "" {
      ParseFromCharacterised(Layouts(), value, parse);
    }
  }

  // ---------------------------------------------------------------------------
  // Properties of the zone suffix

  /** Offsets east of Greenwich of at least an hour give `" +"`, the hours times 100 in four digits readable back with Atoi. */
  lemma ZoneSuffixEast(zoneName: string, offset: int64)
    requires offset >= 3600
    ensures var z := (offset / 3600) * 100;
            var field := Sprint04d(z);
            |field| >= 4 &&
            ZoneSuffix(zoneName, offset) == " +" + field + (if zoneName != "" then " " + zoneName else "") &&
            Atoi(field) == (z, None)
  {
    var z := (offset / 3600) * 100;
    assert 0 < z <= MaxInt64;
    AtoiSprint04d(z);
  }

  /** Offsets under an hour either way, including zero, give `" -0000"`: the sign is `-` although nothing is west. */
  lemma ZoneSuffixUnderAnHour(zoneName: string, offset: int64)
    requires -3600 < offset < 3600
    ensures ZoneSuffix(zoneName, offset) == " -0000" + (if zoneName != "" then " " + zoneName else "")
  {
    assert GoDiv(offset, 3600) == 0;
    assert Itoa(0) == "0";
    assert Zeros(3) == "000";
  }

  /** Offsets west by an hour or more give a doubled sign: `" -"` and then the `-` of the negative number. */
  lemma ZoneSuffixWest(zoneName: string, offset: int64)
    requires offset <= -3600
    ensures ZoneSuffix(zoneName, offset)[..3] == " --"
  {
    assert GoDiv(offset, 3600) * 100 < 0;
  }

  /** China Standard Time, eight hours east. */
  lemma ZoneSuffixChina()
    ensures ZoneSuffix("CST", 28800) == " +0800 CST"
  {
    assert GoDiv(28800, 3600) == 8;
    assert Itoa(800) == "800";
    assert Zeros(1) == "0";
  }

  /** Eastern Standard Time, five hours west, comes out with a doubled sign. */
  lemma ZoneSuffixEastern()
    ensures ZoneSuffix("EST", -18000) == " --500 EST"
  {
    assert GoDiv(-18000, 3600) == -5;
    assert Itoa(500) == "500";
  }

  /** Minutes are dropped: India's +5:30 gives the same suffix as +5:00. */
  lemma ZoneSuffixDropsMinutes(zoneName: string)
    ensures ZoneSuffix(zoneName, 19800) == ZoneSuffix(zoneName, 18000)
  {
    assert GoDiv(19800, 3600) == 5 == GoDiv(18000, 3600);
  }

  /** StrToLocalTime of a non-empty value is StrToTime of the value with the zone suffix appended; of "" it is the zero time. */
  lemma StrToLocalTimeAppends<T, E>(value: string, zoneName: string, offset: int64,
                                    parse: (string, string) -> Result<T, E>, zero: T)
    ensures value == "" ==> StrToLocalTimeSpec(value, zoneName, offset, parse, zero) == Ok(zero)
    ensures value != "" ==>
            StrToLocalTimeSpec(value, zoneName, offset, parse, zero) ==
            ParseFrom(Layouts(), 0, value + ZoneSuffix(zoneName, offset), parse)
  {
  }
}
