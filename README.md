# fbbin/utils in Dafny

A model of the conversion helpers in `utils.go` of the Go package `utils`:

- `Ip2Long`: dotted-quad IPv4 text to a `uint32`.
- `Long2Ip`, `Long2IpBig` and `Long2IpLittle`: the reverse direction.
- `Int64ToByte`/`ByteToInt64` and `Int32ToByte`/`ByteToInt32`: big-endian byte buffers.
- `ByteToInt`: `strconv.Atoi` of a byte buffer.
- `subStr`: a rune substring with clamping.
- `Format`: the PHP-`date`-style token replacement.
- `StrToTime`: the layout search.
- `StrToLocalTime`: the zone suffix.

The Go library behaviour these functions rely on is modelled too. That covers `strings.Split`, `strconv.Atoi` (with its `ErrSyntax`/`ErrRange` values), `fmt`'s `%d` and `%04d` and the `uint32`/`int64` conversions.

Modules, one per file:

- `Wrappers`: `Option` and `Result`.
- `Bits`: the integer widths and a bitwise OR on non-negative integers. `uint32` wrap-around is written out as `% 2^32`, and the wrap-around of Go's 64-bit `int` as `Wrap64`.
- `Strings`: `strings.Split`, with `Join` as its inverse.
- `Strconv`: `Atoi` as `ParseInt(s, 10, 0)` behaves, plus `Itoa` and `%04d`.
- `IpConv`: the IP helpers.
- `ByteOrder`: `binary.BigEndian`'s `PutUint64`/`PutUint32` on arrays, and the buffer helpers.
- `SubString`: `subStr`.
- `DateFormat`: the token table and the replacer.
- `TimeParse`: `StrToTime` and `StrToLocalTime`.

How each part is written:

- **In-place code becomes imperative methods:**
  - `Ip2Long`'s accumulating loop.
  - `subStr`'s step-by-step reassignments, including the swap.
  - The buffers that `Int64ToByte`/`Int32ToByte` allocate and fill.
  - `StrToTime`'s loop with its early return.

  Each method's `ensures` ties its result to a specification function. The properties are proved about that function.
- **Pure code becomes functions:** the `Long2Ip*` family, `ByteToInt*`, the token replacement and the zone suffix.
- **Parameters stand in for what is not modelled:**
  - `time.Parse` is a parameter `parse(layout, value)` that returns `Ok(time)` or `Err(error)`.
  - The time type and its zero value are type and value parameters.
  - `time.Now()` and the zone that `time.Now().Zone()` reports are parameters (`now`, `zoneName`, `offset`).
  - `Time.Format` is a parameter `timeFormat`.

## Model

| member | source | states |
|---|---|---|
| Strings.Split | utils.go:25 | `strings.Split` on one separator gives at least one part, and no part contains the separator |
| Strings.JoinSplit | utils.go:25 | joining the parts of Split with the separator gives back the input |
| Strconv.AtoiCharacterised | utils.go:31 | Atoi succeeds exactly on an optional sign followed by at least one digit whose value fits in int64, and then returns that value |
| Strconv.AtoiItoa | utils.go:49 | Atoi reads back `%d` of every non-negative int64 |
| Strconv.AtoiSprint04d | utils.go:252-256 | `%04d` of a non-negative number gives at least four characters, which Atoi reads back as that number |
| Bits.BitOrDisjoint | utils.go:35 | OR of a multiple of 2^k and a value below 2^k is their sum |
| Bits.Int64OfUint64Of | utils.go:82-87 | `int64(uint64(i)) == i` for every int64 |
| IpConv.Ip2Long | utils.go:24-38 | the loop returns what Ip2LongSpec states: an error unless there are four parts each accepted by Atoi and at most 255, else the OR of the parts shifted into place |
| IpConv.Ip2LongErrors | utils.go:25-34 | Ip2Long fails exactly when there are not four parts, or some part is not a decimal string with a value in MinInt64..255 |
| IpConv.OctetAcceptedIff | utils.go:31-32 | a part passes the check exactly when it is a decimal string with a value in MinInt64..255 |
| IpConv.Ip2LongOctets | utils.go:29-37 | four decimal parts in 0..255 give `a*2^24 + b*2^16 + c*2^8 + d`, first part in the high byte |
| IpConv.PackBytes | utils.go:35 | ORing four bytes into their shifted positions gives the same value as adding them |
| IpConv.Long2Ip | utils.go:41-51 | Long2Ip never returns its error: the check at line 46 cannot fire |
| IpConv.Ip2LongOfLong2Ip | utils.go:24-51 | Ip2Long inverts Long2Ip on every uint32 |
| IpConv.Long2IpBig | utils.go:53-64 | the flag is always true |
| IpConv.Long2IpLittle | utils.go:67-78 | the flag is always true |
| IpConv.Long2IpLittleIsLong2Ip | utils.go:67-78 | Long2IpLittle prints the low 32 bits exactly as Long2Ip does, so Ip2Long reads back the low 32 bits |
| IpConv.BigIsLittleReversed | utils.go:53-78 | Long2IpBig and Long2IpLittle print the same four fields in opposite orders |
| IpConv.NegativePartAccepted | utils.go:31-35 | as written, "0.0.0.-1" is accepted and gives 0xFFFFFFFF, the same as "255.255.255.255" |
| IpConv.Ip2LongChecked | utils.go:24-38 | the corrected parser, with a lower bound on each part, agrees with Ip2Long wherever it succeeds |
| IpConv.OctetValidIff | utils.go:31-32 | with the lower bound, a part is valid exactly when it is a decimal string in 0..255 |
| IpConv.Ip2LongCheckedCharacterised | utils.go:24-38 | the corrected parser succeeds exactly on four decimal parts in 0..255 and returns the address value |
| IpConv.NegativePartRejected | utils.go:31-35 | the corrected parser rejects "0.0.0.-1" |
| IpConv.Ip2LongCheckedOfLong2Ip | utils.go:24-51 | the corrected parser still inverts Long2Ip on every uint32 |
| ByteOrder.FromBigEndianOfBigEndian | utils.go:82-87 | reading n big-endian bytes of v gives v modulo 256^n |
| ByteOrder.PutUint64 | utils.go:82 | the first 8 bytes of the buffer become v big-endian and the rest are unchanged |
| ByteOrder.PutUint32 | utils.go:92 | the first 4 bytes of the buffer become v big-endian and the rest are unchanged |
| ByteOrder.FromBigEndianInjective | utils.go:86-87 | two byte strings of the same length that denote the same number are equal |
| ByteOrder.BigEndianOfFromBigEndian | utils.go:86-87 | encoding the value of any byte string big-endian in as many bytes gives the string back |
| ByteOrder.Uint64 | utils.go:87 | `BigEndian.Uint64` returns the value whose 8-byte big-endian encoding is exactly the first 8 bytes |
| ByteOrder.Uint32 | utils.go:97 | `BigEndian.Uint32` returns the value whose 4-byte big-endian encoding is exactly the first 4 bytes |
| ByteOrder.Int64ToByte | utils.go:80-84 | a fresh 8-byte buffer holding `uint64(i)` big-endian |
| ByteOrder.Int32ToByte | utils.go:90-94 | a fresh 8-byte buffer: `uint32(i)` big-endian in the first 4 bytes, zeros in the last 4 |
| ByteOrder.ByteToInt64OfInt64ToByte | utils.go:80-88 | ByteToInt64 inverts Int64ToByte |
| ByteOrder.ByteToInt32OfInt32ToByte | utils.go:90-98 | ByteToInt32 of Int32ToByte's buffer is `int32(uint32(i))`, so i itself whenever i fits in int32 |
| ByteOrder.ByteToInt64OfInt32ToByte | utils.go:86-94 | ByteToInt64 of Int32ToByte's buffer is the low 32 bits shifted up by 32, not i |
| ByteOrder.ByteToIntValue | utils.go:100-103 | ByteToInt is the decimal value when Atoi succeeds, and 0 on a syntax error |
| Bits.Wrap64 | utils.go:176-178 | Go's 64-bit `int` arithmetic: a result inside int64 is kept, and one that leaves it by less than 2^64 is shifted back by 2^64 |
| SubString.Span | utils.go:179-193 | the swap and the four clamps give a valid slice of 0..rl, no longer than the distance between the two positions |
| SubString.Bounds | utils.go:175-193 | with Go's 64-bit arithmetic the final start and end always satisfy `0 <= start <= end <= len(rs)`; when neither `rl - 1 + start` nor `start + length` overflows, also `end - start <= abs(length)` |
| SubString.SubStr | utils.go:171-195 | the step-by-step code, overflow included, returns `rs[start:end]` for Bounds: never longer than `rs`, and no longer than `abs(length)` when nothing overflows |
| SubString.Clamp | utils.go:182-193 | the clamped value lies in 0..rl and values already inside are kept |
| SubString.BoundsInRange | utils.go:178-194 | a start and length inside the string select exactly `rs[start:start+length]` |
| SubString.BoundsNegativeLength | utils.go:178-181 | a negative length selects the runes before start, after the swap |
| SubString.BoundsNegativeStart | utils.go:175-181 | a start of -k inside the string begins at rune `rl - 1 - k` and runs for `length` runes as far as they exist; when `start + length` overflows, it wraps negative and the swap selects the runes before `rl - 1 - k` instead |
| SubString.BoundsPastEnd | utils.go:178-194 | a zero length gives the empty string; a start past the end with a non-negative length gives the empty string unless `start + length` overflows, and then the whole string |
| SubString.BoundsUnwrapped | utils.go:175-193 | when nothing overflows, the slice is the one exact arithmetic gives (IntendedBounds) |
| SubString.WrapSelectsBefore | utils.go:178-181 | as written, `subStr("abc", MaxInt64, 1)` selects all of "abc" and `subStr("abc", -1, MaxInt64)` selects "a" |
| SubString.IntendedBounds | utils.go:175-193 | in exact arithmetic the slice is always valid and never longer than `abs(length)` |
| SubString.IntendedPastEndEmpty | utils.go:178-194 | in exact arithmetic a start past the end with a non-negative length always gives the empty string |
| SubString.NegativeStartMissesLastRune | utils.go:175-177 | as written, on a string of two or more runes a negative start never makes the selection begin at the last rune; `subStr("abc", -1, 1)` is "b" |
| SubString.BoundsFromEnd | utils.go:175-193 | the corrected bounds are still a valid slice no longer than `abs(length)` |
| SubString.BoundsFromEndLastRunes | utils.go:175-193 | with the start counted from the end, a start of -k and a length of at least k select the last k runes |
| SubString.BoundsFromEndNonNegative | utils.go:175-193 | counting from the end changes nothing for non-negative starts |
| DateFormat.ExpandIsTable | utils.go:206-236 | the per-character replacement is the token table: the same 18 keys in order, no key twice, each mapped to its layout text |
| DateFormat.ExpandCopies | utils.go:236-237 | a character is copied unchanged exactly when it is not a key of the table |
| DateFormat.ReplaceChar | utils.go:236-237 | replacing a one-character pattern gives that character's table text, or the character itself |
| DateFormat.ReplaceConcat | utils.go:236-237 | the replacer works character by character: the replacement of a concatenation is the concatenation of the replacements |
| DateFormat.ReplaceKeyFree | utils.go:236-237 | a pattern without any key comes through unchanged |
| DateFormat.ReplaceSpaced | utils.go:236-237 | two patterns joined by a space are replaced part by part |
| DateFormat.ReplaceDateTime | utils.go:206-237 | "Y-m-d H:i:s" becomes "2006-01-02 15:04:05" |
| DateFormat.ReplaceYears | utils.go:208-209 | "Yy" becomes "200606": 'Y' does not swallow 'y' |
| DateFormat.ReplaceNotRescanned | utils.go:214-237 | "M" becomes "Jan", whose own 'a' and 'n' are not replaced again |
| DateFormat.FormatPicksTime | utils.go:239-243 | Format lays out the first timestamp given, or the current time when none is |
| TimeParse.ParseFirst | utils.go:303-311 | the loop returns the layout search's result: the first successful parse, else the last error |
| TimeParse.StrToTime | utils.go:265-312 | the zero time for "", else the search over the 31 layouts |
| TimeParse.LayoutsLength | utils.go:269-301 | there are 31 layouts |
| TimeParse.ParseFromSkip | utils.go:305-310 | layouts that fail before position i are passed over |
| TimeParse.ParseFromOk | utils.go:305-310 | the search succeeds exactly when some layout parses the value |
| TimeParse.ParseFromFirst | utils.go:305-309 | the earliest layout that parses the value gives the result |
| TimeParse.ParseFromLastError | utils.go:305-311 | when no layout parses the value, the error is that of the last layout |
| TimeParse.ParseFromCharacterised | utils.go:303-311 | together: success iff some layout parses the value, the earliest success decides, and otherwise the last error is returned |
| TimeParse.StrToTimeCharacterised | utils.go:265-311 | StrToTime("") is the zero time; otherwise it succeeds iff one of the 31 layouts parses the value, the earliest such layout decides, and failure carries time.StampNano's error |
| TimeParse.GoDiv | utils.go:252 | Go's `/` truncates toward zero: the quotient brackets the dividend from below for a non-negative dividend and from above for a negative one |
| TimeParse.ZoneSuffixEast | utils.go:252-261 | an offset of at least an hour gives " +", the whole hours times 100 in at least four digits that Atoi reads back, then the zone name |
| TimeParse.ZoneSuffixUnderAnHour | utils.go:252-261 | an offset under an hour either way, zero included, gives " -0000" |
| TimeParse.ZoneSuffixWest | utils.go:252-257 | an offset of an hour or more west gives a doubled sign " --" |
| TimeParse.ZoneSuffixChina | utils.go:252-261 | "CST" at +8h gives " +0800 CST" |
| TimeParse.ZoneSuffixEastern | utils.go:252-261 | "EST" at -5h gives " --500 EST" |
| TimeParse.ZoneSuffixDropsMinutes | utils.go:252 | minutes are dropped: +5:30 gives the same suffix as +5:00 |
| TimeParse.StrToLocalTime | utils.go:246-263 | the zero time for "", else StrToTime of the value with the zone suffix appended |
| TimeParse.StrToLocalTimeAppends | utils.go:246-263 | StrToLocalTime of a non-empty value is the layout search on the value followed by the zone suffix |

## Left out

- `hashmd5` and `md5/md5.go`: they delegate to `crypto/md5` and a GBK decoder, neither of which is part of this model.
- `Float32ToByte` and the other float conversions: these are floating point and `math.Float*bits`.
- `Exist`, `ReadFileByte`, `ReadFileStr`: file-system I/O.
- `UrlEncode`, `UrlDecode`, `Base64Encode`, `Base64Decode`: thin wrappers over standard-library codecs.
- `Encode`/`Decode`: GBK transcoding via `golang.org/x/text`.
- `Shuffle`: randomness seeded from the clock.
- `time.Parse`, `Time.Format`, `time.Now()` and the local zone: these are parameters, as described above.
- Panics:
  - `ByteToInt64` and `ByteToInt32` panic on buffers shorter than 8 or 4 bytes; that is modelled as a `requires` on the length.
  - `StrToTime` panics with the last error when no layout matches. The model returns `Err` of that error instead, so the panic itself is not modelled.
- Go's `int` is taken to be 64 bits wide, as on every 64-bit platform. That fixes the range bounds of Atoi, the argument of Long2IpBig, the offset given to the zone suffix and the arithmetic of `subStr`.
- SubString.SubStr: requires `len(rs) <= MaxInt64`, since a Go slice length is an `int`.
- SubString.SubStr: the input is taken as its rune sequence. The `[]rune` conversion, and its replacement of invalid UTF-8 by U+FFFD, is not modelled.
- DateFormat.Replace: works on characters, where Go's replacer works on bytes. For the table's ASCII keys the two agree on valid UTF-8 input.
- Strconv.Atoi: modelled as the general `ParseInt(s, 10, 0)` path. Go's fast path for short inputs returns the same values and error kinds; it is not written out separately.
- `strconv.Atoi`'s error text is left out: only its kind and the value are kept. That value is the clamped bound for `ErrRange` and 0 for `ErrSyntax`.
- IpConv.Ip2Long: both error returns carry the same message, so they are one `IpFormat` value; the message text is not modelled.
- Nothing about the order in which `strings.NewReplacer` tries keys is modelled. No two keys share a first byte, so the order cannot matter. DateFormat.ExpandIsTable proves the keys distinct.

## Findings

| source | as written | input that shows it | evidently intended | confidence | as-written member | corrected member |
|---|---|---|---|---|---|---|
| utils.go:31-35 | a part is rejected only when Atoi fails or it is above 255; a negative part passes and is truncated to uint32 before the shift | `Ip2Long("0.0.0.-1")` returns 4294967295, the value of "255.255.255.255" | reject parts below 0 as well | high, not executed | IpConv.NegativePartAccepted | IpConv.Ip2LongChecked, IpConv.Ip2LongCheckedCharacterised |
| utils.go:175-177 | a negative start becomes `rl - 1 + start` | `subStr("abc", -1, 1)` returns "b"; no negative start makes the selection begin at the last rune "c" | count a negative start from the end as PHP's `substr` does, `rl + start` | medium, not executed | SubString.NegativeStartMissesLastRune | SubString.BoundsFromEndLastRunes, SubString.BoundsFromEndNonNegative |
| utils.go:178-180 | `end = start + length` is 64-bit `int` arithmetic and wraps for large lengths; the swap then turns the wrapped end into the start | `subStr("abc", math.MaxInt64, 1)` returns "abc", three runes for a length of 1 | compute the end without overflow, as exact arithmetic would | medium, not executed | SubString.WrapSelectsBefore | SubString.IntendedBounds, SubString.IntendedPastEndEmpty |
