/** The best-times log: the line SaveScore appends for a won game, and the
    extraction LoadBestTime runs over the log's lines (split on the marker,
    keep the last piece, drop empty pieces, trim, parse as mm:ss, take the
    minimum). */
module Scores {
  import opened Text

  /** The separator written before the game time: "Čas: " (U+010C, then "as: "). */
  const Marker: string := "\U{010C}as: "

  /** The fields of a wall-clock reading that a record shows. */
  datatype DateTimeFields = DateTimeFields(day: nat, month: nat, year: nat, hour: nat, minute: nat)

  /** The ranges a DateTime keeps these fields in. */
  predicate ValidClock(c: DateTimeFields) {
    1 <= c.day <= 31 && 1 <= c.month <= 12 && 1 <= c.year <= 9999 && c.hour < 24 && c.minute < 60
  }

  /** The wall-clock reading formatted into a record (`DateTime.Now`). */
  type Clock = c: DateTimeFields | ValidClock(c) witness DateTimeFields(1, 1, 1, 0, 0)

  /** Zero-padded two-digit field (custom formats "dd", "MM", "HH", "mm", "ss"). */
  function Pad2(n: nat): string {
    [Digit(n / 10 % 10), Digit(n % 10)]
  }

  /** Zero-padded four-digit field (custom format "yyyy"). */
  function Pad4(n: nat): string {
    [Digit(n / 10 / 10 / 10 % 10), Digit(n / 10 / 10 % 10), Digit(n / 10 % 10), Digit(n % 10)]
  }

  /** `{now:dd.MM.yyyy HH:mm}`. */
  function FormatClock(now: Clock): (s: string)
    ensures |s| == 16
    ensures forall k :: 0 <= k < |s| ==> IsDigit(s[k]) || s[k] in ". :"
  {
    Pad2(now.day) + "." + Pad2(now.month) + "." + Pad4(now.year) + " " + Pad2(now.hour) + ":" + Pad2(now.minute)
  }

  /** Every field of the clock reads back from its place in the stamp. */
  lemma StampReadsBack(now: Clock)
    ensures var s := FormatClock(now);
      AllDigits(s[0..2]) && DigitsValue(s[0..2]) == now.day
      && AllDigits(s[3..5]) && DigitsValue(s[3..5]) == now.month
      && AllDigits(s[6..10]) && DigitsValue(s[6..10]) == now.year
      && AllDigits(s[11..13]) && DigitsValue(s[11..13]) == now.hour
      && AllDigits(s[14..16]) && DigitsValue(s[14..16]) == now.minute
  {
    var s := FormatClock(now);
    assert s[0..2] == Pad2(now.day) && s[3..5] == Pad2(now.month) && s[6..10] == Pad4(now.year);
    assert s[11..13] == Pad2(now.hour) && s[14..16] == Pad2(now.minute);
    Pad2ReadsBack(now.day);
    Pad2ReadsBack(now.month);
    Pad4ReadsBack(now.year);
    Pad2ReadsBack(now.hour);
    Pad2ReadsBack(now.minute);
  }

  /** A two-digit field below 100 reads back as its value. */
  lemma Pad2ReadsBack(n: nat)
    requires n < 100
    ensures AllDigits(Pad2(n)) && DigitsValue(Pad2(n)) == n
  {
    var a, b := Digit(n / 10 % 10), Digit(n % 10);
    DigitsSnoc([], a);
    assert [] + [a] == [a] && [a] + [b] == Pad2(n);
    DigitsSnoc([a], b);
  }

  /** A four-digit field below 10000 reads back as its value. */
  lemma Pad4ReadsBack(n: nat)
    requires n < 10000
    ensures AllDigits(Pad4(n)) && DigitsValue(Pad4(n)) == n
  {
    var m1 := n / 10;
    var m2 := m1 / 10;
    var a, b, c, d := Digit(m2 / 10 % 10), Digit(m2 % 10), Digit(m1 % 10), Digit(n % 10);
    DigitsSnoc([], a);
    assert [] + [a] == [a] && [a] + [b] == [a, b] && [a, b] + [c] == [a, b, c] && [a, b, c] + [d] == Pad4(n);
    DigitsSnoc([a], b);
    DigitsSnoc([a, b], c);
    DigitsSnoc([a, b, c], d);
    assert m2 / 10 % 10 == m2 / 10;
  }

  /** Appending a digit multiplies the value by ten and adds the digit. */
  lemma DigitsSnoc(p: string, c: char)
    requires AllDigits(p) && IsDigit(c)
    ensures AllDigits(p + [c]) && DigitsValue(p + [c]) == DigitsValue(p) * 10 + DigitValue(c)
  {
    assert (p + [c])[..|p|] == p;
  }

  /** The line SaveScore appends for a win (its Environment.NewLine terminator
      is what makes it one line of the log). */
  function RecordLine(now: Clock, time: string): string {
    FormatClock(now) + " - " + Marker + time
  }

  // ---------------------------------------------------------------------
  // String.Split with the single separator Marker

  predicate MarkerAt(s: string, p: int) {
    0 <= p && p + |Marker| <= |s| && s[p..p + |Marker|] == Marker
  }

  predicate HasMarker(s: string) {
    exists p :: 0 <= p < |s| && MarkerAt(s, p)
  }

  /** The first occurrence of the marker at or after `from`. */
  function FindMarker(s: string, from: nat): (r: Option<nat>)
    decreases |s| - from
    ensures r.Some? ==> from <= r.value && MarkerAt(s, r.value)
    ensures r.Some? ==> forall q :: from <= q < r.value ==> !MarkerAt(s, q)
    ensures r.None? ==> forall q :: from <= q ==> !MarkerAt(s, q)
  {
    if from + |Marker| > |s| then None
    else if MarkerAt(s, from) then Some(from)
    else FindMarker(s, from + 1)
  }

  /** `s.Split(new[] { Marker }, StringSplitOptions.None)`: the pieces between
      occurrences, found left to right. */
  function Split(s: string): (pieces: seq<string>)
    decreases |s|
    ensures |pieces| >= 1
  {
    match FindMarker(s, 0)
    case None => [s]
    case Some(p) => [s[..p]] + Split(s[p + |Marker|..])
  }

  /** The inverse of Split: the pieces glued back with the marker. */
  function Join(pieces: seq<string>): string
    requires |pieces| >= 1
  {
    if |pieces| == 1 then pieces[0] else pieces[0] + Marker + Join(pieces[1..])
  }

  lemma {:induction false} JoinSplit(s: string)
    ensures Join(Split(s)) == s
    decreases |s|
  {
    match FindMarker(s, 0)
    case None =>
    case Some(p) =>
      var rest := s[p + |Marker|..];
      JoinSplit(rest);
      JoinCons(s[..p], Split(rest));
      CutAtMarker(s, p);
  }

  /** A string is the text before an occurrence of the marker, the marker,
      and the text after it. */
  lemma CutAtMarker(s: string, p: int)
    requires MarkerAt(s, p)
    ensures s == s[..p] + Marker + s[p + |Marker|..]
  {
    assert s == s[..p] + s[p..p + |Marker|] + s[p + |Marker|..];
  }

  lemma JoinCons(first: string, rest: seq<string>)
    requires |rest| >= 1
    ensures Join([first] + rest) == first + Marker + Join(rest)
  {
    assert ([first] + rest)[0] == first && ([first] + rest)[1..] == rest;
  }

  /** No piece of a split contains the marker. */
  lemma {:induction false} SplitPiecesAreMarkerFree(s: string)
    ensures forall k :: 0 <= k < |Split(s)| ==> !HasMarker(Split(s)[k])
    decreases |s|
  {
    match FindMarker(s, 0)
    case None =>
      forall q | MarkerAt(s, q) ensures false {
      }
    case Some(p) =>
      var rest := s[p + |Marker|..];
      SplitPiecesAreMarkerFree(rest);
      forall q | MarkerAt(s[..p], q) ensures false {
        assert s[..p][q..q + |Marker|] == s[q..q + |Marker|];
        assert MarkerAt(s, q);
      }
  }

  /** `Split(...).LastOrDefault()`: the text after the last marker, or the
      whole line when it has none (Split never returns an empty array). */
  function Segment(line: string): string {
    var pieces := Split(line);
    pieces[|pieces| - 1]
  }

  lemma SegmentOfMarkerFree(s: string)
    requires !HasMarker(s)
    ensures Split(s) == [s] && Segment(s) == s
  {
  }

  /** A saved record extracts back to exactly the time that was written. */
  lemma RecordRoundTrip(now: Clock, time: string)
    requires !HasMarker(time)
    ensures Segment(RecordLine(now, time)) == time
  {
    var prefix := FormatClock(now) + " - ";
    var line := RecordLine(now, time);
    assert line == prefix + Marker + time;
    var p := |prefix|;
    assert MarkerAt(line, p) by {
      assert line[p..p + |Marker|] == Marker;
    }
    forall q | 0 <= q < p ensures !MarkerAt(line, q) {
      assert line[q] == prefix[q];
      assert prefix[q] != Marker[0];
    }
    var r := FindMarker(line, 0);
    assert r == Some(p);
    assert line[p + |Marker|..] == time;
    SegmentOfMarkerFree(time);
  }

  // ---------------------------------------------------------------------
  // String.Trim

  /** Char.IsWhiteSpace: the Unicode space, line and paragraph separators,
      U+0009..U+000D and U+0085. */
  predicate IsWhiteSpace(c: char) {
    c == ' ' || '\t' <= c <= '\r' || c == '\U{0085}' || c == '\U{00A0}' || c == '\U{1680}'
    || '\U{2000}' <= c <= '\U{200A}' || c == '\U{2028}' || c == '\U{2029}' || c == '\U{202F}'
    || c == '\U{205F}' || c == '\U{3000}'
  }

  function TrimStart(s: string): (r: string)
    ensures |r| <= |s| && r == s[|s| - |r|..]
    ensures forall k :: 0 <= k < |s| - |r| ==> IsWhiteSpace(s[k])
    ensures r != [] ==> !IsWhiteSpace(r[0])
  {
    if |s| > 0 && IsWhiteSpace(s[0]) then TrimStart(s[1..]) else s
  }

  function TrimEnd(s: string): (r: string)
    ensures |r| <= |s| && r == s[..|r|]
    ensures forall k :: |r| <= k < |s| ==> IsWhiteSpace(s[k])
    ensures r != [] ==> !IsWhiteSpace(r[|r| - 1])
  {
    if |s| > 0 && IsWhiteSpace(s[|s| - 1]) then TrimEnd(s[..|s| - 1]) else s
  }

  /** String.Trim(): the text without its leading and trailing white space. */
  function Trim(s: string): string {
    TrimEnd(TrimStart(s))
  }

  /** Trimming removes only white space: what is left is the slice of `s` that
      starts where the leading white space ends, and all after it is white. */
  lemma TrimKeepsMiddle(s: string)
    ensures var a := |s| - |TrimStart(s)|;
      a + |Trim(s)| <= |s| && s[a..a + |Trim(s)|] == Trim(s)
      && (forall k :: a + |Trim(s)| <= k < |s| ==> IsWhiteSpace(s[k]))
  {
    var u := TrimStart(s);
    var a := |s| - |u|;
    assert u == s[a..];
    var t := TrimEnd(u);
    assert |t| <= |u| && t == u[..|t|];
    assert forall k :: |t| <= k < |u| ==> IsWhiteSpace(u[k]);
    assert Trim(s) == t;
    SliceOfSuffix(s, a, u, t);
    WhiteTailOfSuffix(s, a, u, |t|);
  }

  lemma SliceOfSuffix(s: string, a: nat, u: string, t: string)
    requires a <= |s| && u == s[a..] && |t| <= |u| && t == u[..|t|]
    ensures a + |t| <= |s| && s[a..a + |t|] == t
  {
  }

  lemma WhiteTailOfSuffix(s: string, a: nat, u: string, n: nat)
    requires a <= |s| && u == s[a..] && n <= |u|
    requires forall k :: n <= k < |u| ==> IsWhiteSpace(u[k])
    ensures forall k :: a + n <= k < |s| ==> IsWhiteSpace(s[k])
  {
    forall k | a + n <= k < |s| ensures IsWhiteSpace(s[k]) {
      assert s[k] == u[k - a];
    }
  }

  /** A string that neither starts nor ends with white space is left as it is. */
  lemma TrimOfUnpadded(s: string)
    requires |s| > 0 && !IsWhiteSpace(s[0]) && !IsWhiteSpace(s[|s| - 1])
    ensures Trim(s) == s
  {
    assert TrimStart(s) == s;
  }

  // ---------------------------------------------------------------------
  // TimeSpan.ParseExact and ToString with the custom format mm\:ss

  /** Exactly two digits of minutes, a colon and two digits of seconds, each at
      most 59; the result is the total number of seconds. */
  function ParseMmSs(t: string): (r: Option<nat>)
    ensures r.Some? ==> r.value < 3600
  {
    if |t| == 5 && IsDigit(t[0]) && IsDigit(t[1]) && t[2] == ':' && IsDigit(t[3]) && IsDigit(t[4]) then
      var minutes := 10 * DigitValue(t[0]) + DigitValue(t[1]);
      var seconds := 10 * DigitValue(t[3]) + DigitValue(t[4]);
      if minutes <= 59 && seconds <= 59 then Some(minutes * 60 + seconds) else None
    else None
  }

  /** The minutes component (hours dropped) and the seconds component, two digits each. */
  function FormatMmSs(total: nat): string {
    Pad2(total / 60 % 60) + ":" + Pad2(total % 60)
  }

  /** The reset text "00:00" is the rendering of zero seconds. */
  lemma FormatZero()
    ensures FormatMmSs(0) == "00:00"
  {
  }

  lemma ParseFormat(total: nat)
    requires total < 3600
    ensures ParseMmSs(FormatMmSs(total)) == Some(total)
  {
    var m, sec := total / 60, total % 60;
    assert m < 60 && m % 60 == m;
    Pad2Value(m);
    Pad2Value(sec);
    var t := FormatMmSs(total);
    assert t == Pad2(m) + ":" + Pad2(sec);
    assert t[0] == Pad2(m)[0] && t[1] == Pad2(m)[1] && t[2] == ':';
    assert t[3] == Pad2(sec)[0] && t[4] == Pad2(sec)[1];
  }

  /** A two-digit field reads back as its value. */
  lemma Pad2Value(n: nat)
    requires n < 100
    ensures IsDigit(Pad2(n)[0]) && IsDigit(Pad2(n)[1])
    ensures 10 * DigitValue(Pad2(n)[0]) + DigitValue(Pad2(n)[1]) == n
  {
  }

  lemma DivMod60(q: nat, r: nat)
    requires r < 60
    ensures (q * 60 + r) / 60 == q && (q * 60 + r) % 60 == r
  {
  }

  lemma DivMod10(q: nat, r: nat)
    requires r < 10
    ensures (q * 10 + r) / 10 == q && (q * 10 + r) % 10 == r
  {
  }

  lemma FormatParse(t: string)
    requires ParseMmSs(t).Some?
    ensures FormatMmSs(ParseMmSs(t).value) == t
  {
    var total := ParseMmSs(t).value;
    var a, b, c, d := DigitValue(t[0]), DigitValue(t[1]), DigitValue(t[3]), DigitValue(t[4]);
    var minutes := 10 * a + b;
    var seconds := 10 * c + d;
    DivMod60(minutes, seconds);
    DivMod10(a, b);
    DivMod10(c, d);
    assert total / 60 % 60 == minutes && total % 60 == seconds;
    var f := FormatMmSs(total);
    assert f[0] == Digit(a) && f[1] == Digit(b) && f[3] == Digit(c) && f[4] == Digit(d);
  }

  /** A formatted time has no marker in it, so it survives the split. */
  lemma FormattedTimeIsMarkerFree(total: nat)
    ensures !HasMarker(FormatMmSs(total))
  {
    var t := FormatMmSs(total);
    assert |t| == |Marker| && t[0] != Marker[0];
    assert t[0..|Marker|][0] == t[0];
  }

  // ---------------------------------------------------------------------
  // The LoadBestTime pipeline

  /** A line whose segment is present but not a valid mm:ss time: ParseExact
      throws on it, and the exception abandons the whole load. */
  predicate Malformed(line: string) {
    Segment(line) != "" && ParseMmSs(Trim(Segment(line))).None?
  }

  /** The Select/Where/Select/ToList chain: the times of the lines with a
      non-empty segment, in order, or None when some segment fails to parse. */
  function ParseTimes(lines: seq<string>): (r: Option<seq<nat>>)
    ensures r.Some? ==> |r.value| <= |lines|
    ensures r.Some? ==> forall k :: 0 <= k < |r.value| ==> r.value[k] < 3600
  {
    if lines == [] then Some([])
    else
      var t := Segment(lines[0]);
      if t == "" then ParseTimes(lines[1..])
      else
        match ParseMmSs(Trim(t))
        case None => None
        case Some(v) =>
          match ParseTimes(lines[1..])
          case None => None
          case Some(vs) => Some([v] + vs)
  }

  /** The load fails exactly when some line is malformed. */
  lemma {:induction false} ParseTimesFailsIffMalformed(lines: seq<string>)
    ensures ParseTimes(lines).None? <==> exists k :: 0 <= k < |lines| && Malformed(lines[k])
  {
    if lines != [] {
      ParseTimesFailsIffMalformed(lines[1..]);
      if exists k :: 0 <= k < |lines| - 1 && Malformed(lines[1..][k]) {
        var k :| 0 <= k < |lines| - 1 && Malformed(lines[1..][k]);
        assert Malformed(lines[k + 1]);
      }
      if exists k :: 0 <= k < |lines| && Malformed(lines[k]) {
        var k :| 0 <= k < |lines| && Malformed(lines[k]);
        if k > 0 {
          assert Malformed(lines[1..][k - 1]);
        }
      }
    }
  }

  /** Lines whose segment is empty contribute nothing. */
  lemma {:induction false} EmptySegmentsIgnored(before: seq<string>, line: string, after: seq<string>)
    requires Segment(line) == ""
    ensures ParseTimes(before + [line] + after) == ParseTimes(before + after)
  {
    if before == [] {
      assert before + [line] + after == [line] + after;
      assert before + after == after;
      ParseTimesSkip(line, after);
    } else {
      EmptySegmentsIgnored(before[1..], line, after);
      SplitFirst(before, line, after);
      ParseTimesCons(before[0], before[1..] + [line] + after, before[1..] + after);
    }
  }

  /** Both sides of EmptySegmentsIgnored split off the first line of a
      non-empty prefix. */
  lemma SplitFirst(before: seq<string>, line: string, after: seq<string>)
    requires before != []
    ensures before + [line] + after == [before[0]] + (before[1..] + [line] + after)
    ensures before + after == [before[0]] + (before[1..] + after)
  {
  }

  /** A first line with an empty segment is skipped. */
  lemma ParseTimesSkip(first: string, rest: seq<string>)
    requires Segment(first) == ""
    ensures ParseTimes([first] + rest) == ParseTimes(rest)
  {
    assert ([first] + rest)[0] == first && ([first] + rest)[1..] == rest;
  }

  /** ParseTimes reads the first line the same way whatever follows it. */
  lemma ParseTimesCons(first: string, rest1: seq<string>, rest2: seq<string>)
    requires ParseTimes(rest1) == ParseTimes(rest2)
    ensures ParseTimes([first] + rest1) == ParseTimes([first] + rest2)
  {
    assert ([first] + rest1)[0] == first && ([first] + rest1)[1..] == rest1;
    assert ([first] + rest2)[0] == first && ([first] + rest2)[1..] == rest2;
  }

  /** times.Min(), compared as durations. */
  function MinOf(ts: seq<nat>): (m: nat)
    requires |ts| > 0
    ensures m in ts
    ensures forall k :: 0 <= k < |ts| ==> m <= ts[k]
  {
    if |ts| == 1 then ts[0]
    else
      var rest := MinOf(ts[1..]);
      assert ts[1..][0] == ts[1];
      if ts[0] <= rest then ts[0] else rest
  }

  /** The BestTime after loading `lines`: the fastest time formatted as mm:ss,
      or the previous value when there is no time or some line is malformed. */
  function LoadedBestTime(lines: seq<string>, current: Option<string>): Option<string> {
    match ParseTimes(lines)
    case Some(ts) => if |ts| > 0 then Some(FormatMmSs(MinOf(ts))) else current
    case None => current
  }

  /** A single malformed line anywhere leaves BestTime as it was. */
  lemma MalformedLineKeepsBestTime(lines: seq<string>, k: nat, current: Option<string>)
    requires k < |lines| && Malformed(lines[k])
    ensures LoadedBestTime(lines, current) == current
  {
    ParseTimesFailsIffMalformed(lines);
  }

  /** A log with no time in it (every segment empty) leaves BestTime as it was. */
  lemma {:induction false} NoTimesKeepsBestTime(lines: seq<string>, current: Option<string>)
    requires forall k :: 0 <= k < |lines| ==> Segment(lines[k]) == ""
    ensures ParseTimes(lines) == Some([])
    ensures LoadedBestTime(lines, current) == current
  {
    if lines != [] {
      NoTimesKeepsBestTime(lines[1..], current);
    }
  }

  /** The log as SaveScore writes it: one record per win. */
  function Records(stamps: seq<Clock>, times: seq<nat>): (lines: seq<string>)
    requires |stamps| == |times|
    ensures |lines| == |times|
  {
    if times == [] then [] else [RecordLine(stamps[0], FormatMmSs(times[0]))] + Records(stamps[1..], times[1..])
  }

  /** Loading a log of saved records yields every time in order. */
  lemma {:induction false} RecordsParseBack(stamps: seq<Clock>, times: seq<nat>)
    requires |stamps| == |times|
    requires forall k :: 0 <= k < |times| ==> times[k] < 3600
    ensures ParseTimes(Records(stamps, times)) == Some(times)
  {
    if times != [] {
      var line := RecordLine(stamps[0], FormatMmSs(times[0]));
      FormattedTimeIsMarkerFree(times[0]);
      RecordRoundTrip(stamps[0], FormatMmSs(times[0]));
      ParseFormat(times[0]);
      var t := FormatMmSs(times[0]);
      assert |t| == 5 && !IsWhiteSpace(t[0]) && !IsWhiteSpace(t[4]);
      TrimOfUnpadded(t);
      RecordsParseBack(stamps[1..], times[1..]);
      var lines := Records(stamps, times);
      assert lines[0] == line && lines[1..] == Records(stamps[1..], times[1..]);
      assert [times[0]] + times[1..] == times;
    }
  }

  /** Loading a non-empty log of saved records sets BestTime to the fastest
      of the saved times (MinOf: one of them, and no larger than any),
      whatever BestTime held before. */
  lemma BestOfRecords(stamps: seq<Clock>, times: seq<nat>, current: Option<string>)
    requires |stamps| == |times| && |times| > 0
    requires forall k :: 0 <= k < |times| ==> times[k] < 3600
    ensures LoadedBestTime(Records(stamps, times), current) == Some(FormatMmSs(MinOf(times)))
  {
    RecordsParseBack(stamps, times);
  }

  /** Saving one more win appends its record to the log. */
  lemma {:induction false} RecordsSnoc(stamps: seq<Clock>, times: seq<nat>, now: Clock, total: nat)
    requires |stamps| == |times|
    ensures Records(stamps + [now], times + [total]) == Records(stamps, times) + [RecordLine(now, FormatMmSs(total))]
  {
    if times != [] {
      assert (stamps + [now])[1..] == stamps[1..] + [now];
      assert (times + [total])[1..] == times[1..] + [total];
      RecordsSnoc(stamps[1..], times[1..], now, total);
    }
  }

  /** "mm" is the minutes component: a time of an hour or more shows as its
      remainder modulo one hour. */
  lemma FormatWraps(total: nat)
    ensures FormatMmSs(total) == FormatMmSs(total % 3600)
  {
    WrapArithmetic(total);
  }

  /** The minutes and seconds components ignore whole hours. */
  lemma WrapArithmetic(total: nat)
    ensures total / 60 % 60 == total % 3600 / 60 % 60 && total % 60 == total % 3600 % 60
  {
    var r := total % 3600;
    var a, b := r / 60, r % 60;
    assert r == a * 60 + b;
    assert total == (total / 3600 * 60 + a) * 60 + b;
    DivMod60(total / 3600 * 60 + a, b);
    DivMod60(total / 3600, a);
  }
}
