/**
 * `Format` of utils.go: PHP `date`-style letters rewritten into a Go time
 * layout by a `strings.Replacer` built from the token table, then handed
 * to the platform's `Time.Format`, which is a parameter here.
 */
module DateFormat {
  import opened Wrappers

  /** The token table of Format, in its order: a letter and the layout text it stands for. */
  function Tokens(): seq<(char, string)>
  {
    [
    ('Y', "2006"), ('y', "06"),
    ('m', "01"), ('n', "1"), ('M', "Jan"), ('F', "January"),
    ('d', "02"), ('j', "2"),
    ('D', "Mon"), ('l', "Monday"),
    ('g', "3"), ('G', "15"), ('h', "03"), ('H', "15"),
    ('a', "pm"), ('A', "PM"),
    ('i', "04"), ('s', "05")
    ]
  }

  /** The letters the table replaces, in table order. */
  const TokenLetters: string := "YymnMFdjDlgGhHaAis"

  /**
   * What one character of the pattern becomes: the replacer's per-byte
   * entry, that is the layout text of its token, or the character itself.
   */
  function Expand(c: char): string
  {
    match c
    case 'Y' => "2006"
    case 'y' => "06"
    case 'm' => "01"
    case 'n' => "1"
    case 'M' => "Jan"
    case 'F' => "January"
    case 'd' => "02"
    case 'j' => "2"
    case 'D' => "Mon"
    case 'l' => "Monday"
    case 'g' => "3"
    case 'G' => "15"
    case 'h' => "03"
    case 'H' => "15"
    case 'a' => "pm"
    case 'A' => "PM"
    case 'i' => "04"
    case 's' => "05"
    case _ => [c]
  }

  /**
   * `strings.NewReplacer(patterns...).Replace(format)`. Every key is a
   * single byte, so the replacer goes through the input once, replacing
   * each key by its text and copying everything else; what it has written
   * is never looked at again.
   */
  function Replace(s: string): string
    decreases |s|
  {
    if |s| == 0 then [] else Expand(s[0]) + Replace(s[1..])
  }

  /** `Format(format, ts...)`: the first timestamp if there is one, else the current time `now`. */
  function Format<T>(format: string, ts: seq<T>, now: T, timeFormat: (T, string) -> string): string
  {
    var t := if |ts| > 0 then ts[0] else now;
    timeFormat(t, Replace(format))
  }

  // ---------------------------------------------------------------------------
  // Properties

  /** Replacing a concatenation is concatenating the replacements: each character is handled on its own. */
  lemma {:induction false} ReplaceConcat(a: string, b: string)
    ensures Replace(a + b) == Replace(a) + Replace(b)
    decreases |a|
  {
    if |a| > 0 {
      assert (a + b)[0] == a[0];
      assert (a + b)[1..] == a[1..] + b;
      ReplaceConcat(a[1..], b);
    } else {
      assert a + b == b;
    }
  }

  /**
   * Expand agrees with the token table: the letters are the table's keys,
   * no key occurs twice (so which occurrence takes precedence does not
   * matter), and each key becomes its table text.
   */
  lemma ExpandIsTable()
    ensures |TokenLetters| == |Tokens()|
    ensures forall k :: 0 <= k < |Tokens()| ==> Tokens()[k].0 == TokenLetters[k]
    ensures forall i, j :: 0 <= i < j < |TokenLetters| ==> TokenLetters[i] != TokenLetters[j]
    ensures forall k :: 0 <= k < |Tokens()| ==> Expand(Tokens()[k].0) == Tokens()[k].1
  {
  }

  /** Exactly the table's letters are rewritten; every other character is copied. */
  lemma ExpandCopies(c: char)
    ensures c !in TokenLetters <==> Expand(c) == [c]
  {
  }

  /** One character is replaced by Expand of it. */
  lemma ReplaceChar(c: char)
    ensures Replace([c]) == Expand(c)
  {
    assert [c][1..] == [];
  }

  /** A pattern with none of the table's letters comes through unchanged. */
  lemma {:induction false} ReplaceKeyFree(s: string)
    requires forall i :: 0 <= i < |s| ==> s[i] !in TokenLetters
    ensures Replace(s) == s
    decreases |s|
  {
    if |s| > 0 {
      ExpandCopies(s[0]);
      ReplaceKeyFree(s[1..]);
      assert s == [s[0]] + s[1..];
    }
  }

  /** Two patterns joined by a space are replaced part by part. */
  lemma ReplaceSpaced(a: string, b: string)
    ensures Replace(a + " " + b) == Replace(a) + " " + Replace(b)
  {
    ReplaceConcat(a + " ", b);
    ReplaceConcat(a, " ");
    ReplaceChar(' ');
  }

  /** The date half of the usual pattern. */
  lemma ReplaceDate()
    ensures Replace("Y-m-d") == "2006-01-02"
  {
  }

  /** The time half of the usual pattern. */
  lemma ReplaceTime()
    ensures Replace("H:i:s") == "15:04:05"
  {
  }

  /**
   * The usual date-time pattern becomes Go's reference layout. The two
   * halves are parameters, pinned by the requires, only so that the solver
   * reasons about the concatenation through ReplaceSpaced rather than
   * unfolding Replace over the whole literal "Y-m-d H:i:s".
   */
  lemma ReplaceDateTime(date: string, time: string)
    requires date == "Y-m-d" && time == "H:i:s"
    ensures Replace(date + " " + time) == "2006-01-02 15:04:05"
  {
    ReplaceDate();
    ReplaceTime();
    ReplaceSpaced(date, time);
  }

  /** 'Y' and 'y' are separate tokens: the four-digit year does not swallow the two-digit one. */
  lemma ReplaceYears()
    ensures Replace("Yy") == "200606"
  {
    assert Expand('Y') == "2006" && Expand('y') == "06";
  }

  /**
   * Replacement text is never rescanned: "M" becomes "Jan" although "Jan"
   * holds the letters 'a' and 'n', which a second pass would replace.
   */
  lemma ReplaceNotRescanned()
    ensures Replace("M") == "Jan"
    ensures Replace(Replace("M")) == "Jpm1"
  {
    assert Expand('M') == "Jan";
    assert Expand('J') == "J" && Expand('a') == "pm" && Expand('n') == "1";
  }

  /** Format lays out the first timestamp given, or `now` when none is; further timestamps are ignored. */
  lemma FormatPicksTime<T>(format: string, ts: seq<T>, now: T, timeFormat: (T, string) -> string)
    ensures |ts| == 0 ==> Format(format, ts, now, timeFormat) == timeFormat(now, Replace(format))
    ensures |ts| > 0 ==> Format(format, ts, now, timeFormat) == timeFormat(ts[0], Replace(format))
  {
  }
}
