/** src/templates.rs: character escaping, the RSS feed and its RFC 2822
    publication dates. The HTML page bodies are not part of this model. */
module Templates {
  import opened Wrappers
  import opened Strings
  import opened Calendar
  import opened RustInt
  import opened Time
  import opened Models

  // ---------------------------------------------------------------------
  // Escaping (the predefined entities of section 4.6 of XML 1.0)
  // ---------------------------------------------------------------------

  /** `escape_common`: four replacements, `&` first. */
  function EscapeCommon(s: string): (r: string)
    ensures '<' !in r && '>' !in r && '"' !in r
  {
    var s1 := ReplaceChar(s, '&', "&amp;");
    var s2 := ReplaceChar(s1, '<', "&lt;");
    var s3 := ReplaceChar(s2, '>', "&gt;");
    ReplaceCharKeepsAbsent(s2, '>', "&gt;", '<');
    ReplaceCharKeepsAbsent(s3, '"', "&quot;", '<');
    ReplaceCharKeepsAbsent(s3, '"', "&quot;", '>');
    ReplaceChar(s3, '"', "&quot;")
  }

  lemma ApostropheLast(s: string, apos: string)
    requires '<' !in apos && '>' !in apos && '"' !in apos
    ensures var r := ReplaceChar(EscapeCommon(s), '\'', apos); '<' !in r && '>' !in r && '"' !in r
  {
    ReplaceCharKeepsAbsent(EscapeCommon(s), '\'', apos, '<');
    ReplaceCharKeepsAbsent(EscapeCommon(s), '\'', apos, '>');
    ReplaceCharKeepsAbsent(EscapeCommon(s), '\'', apos, '"');
  }

  /** `escape_xml`: the apostrophe becomes `&apos;`. */
  function EscapeXml(s: string): (r: string)
    ensures '<' !in r && '>' !in r && '"' !in r && '\'' !in r
  {
    ApostropheLast(s, "&apos;");
    ReplaceChar(EscapeCommon(s), '\'', "&apos;")
  }

  /** `escape_html`: the apostrophe becomes `&#x27;`. */
  function EscapeHtml(s: string): (r: string)
    ensures '<' !in r && '>' !in r && '"' !in r && '\'' !in r
  {
    ApostropheLast(s, "&#x27;");
    ReplaceChar(EscapeCommon(s), '\'', "&#x27;")
  }

  const XML_APOS: string := "&apos;"
  const HTML_APOS: string := "&#x27;"

  /** The replacement of one character, with `apos` for the apostrophe. */
  function Entity(c: char, apos: string): string
  {
    if c == '&' then "&amp;"
    else if c == '<' then "&lt;"
    else if c == '>' then "&gt;"
    else if c == '"' then "&quot;"
    else if c == '\'' then apos
    else [c]
  }

  /** The reference escaper: every character replaced on its own. */
  function EscapeEach(s: string, apos: string): string
  {
    if |s| == 0 then "" else Entity(s[0], apos) + EscapeEach(s[1..], apos)
  }

  /** The four chained replacements and the apostrophe one. */
  function Chain(s: string, apos: string): string
  {
    ReplaceChar(EscapeCommon(s), '\'', apos)
  }

  lemma ChainAppend(a: string, b: string, apos: string)
    ensures Chain(a + b, apos) == Chain(a, apos) + Chain(b, apos)
  {
    ReplaceCharAppend(a, b, '&', "&amp;");
    var a1, b1 := ReplaceChar(a, '&', "&amp;"), ReplaceChar(b, '&', "&amp;");
    ReplaceCharAppend(a1, b1, '<', "&lt;");
    var a2, b2 := ReplaceChar(a1, '<', "&lt;"), ReplaceChar(b1, '<', "&lt;");
    ReplaceCharAppend(a2, b2, '>', "&gt;");
    var a3, b3 := ReplaceChar(a2, '>', "&gt;"), ReplaceChar(b2, '>', "&gt;");
    ReplaceCharAppend(a3, b3, '"', "&quot;");
    ReplaceCharAppend(EscapeCommon(a), EscapeCommon(b), '\'', apos);
  }

  lemma ReplaceOne(c: char, x: char, rep: string)
    ensures ReplaceChar([c], x, rep) == if c == x then rep else [c]
  {
    assert [c][1..] == [];
  }

  /** An entity that holds none of the characters still to be replaced
      passes the remaining replacements unchanged. */
  lemma AfterAmp(e: string, apos: string)
    requires '<' !in e && '>' !in e && '"' !in e && '\'' !in e
    ensures ReplaceChar(ReplaceChar(ReplaceChar(ReplaceChar(e, '<', "&lt;"), '>', "&gt;"), '"', "&quot;"), '\'', apos) == e
  {
    ReplaceCharAbsent(e, '<', "&lt;");
    ReplaceCharAbsent(e, '>', "&gt;");
    ReplaceCharAbsent(e, '"', "&quot;");
    ReplaceCharAbsent(e, '\'', apos);
  }

  lemma AfterLt(e: string, apos: string)
    requires '>' !in e && '"' !in e && '\'' !in e
    ensures ReplaceChar(ReplaceChar(ReplaceChar(e, '>', "&gt;"), '"', "&quot;"), '\'', apos) == e
  {
    ReplaceCharAbsent(e, '>', "&gt;");
    ReplaceCharAbsent(e, '"', "&quot;");
    ReplaceCharAbsent(e, '\'', apos);
  }

  lemma AfterGt(e: string, apos: string)
    requires '"' !in e && '\'' !in e
    ensures ReplaceChar(ReplaceChar(e, '"', "&quot;"), '\'', apos) == e
  {
    ReplaceCharAbsent(e, '"', "&quot;");
    ReplaceCharAbsent(e, '\'', apos);
  }

  /** The chain sends a single character to its entity: no replacement
      touches what an earlier one produced. */
  lemma ChainChar(c: char, apos: string)
    requires apos == XML_APOS || apos == HTML_APOS
    ensures Chain([c], apos) == Entity(c, apos)
  {
    ReplaceOne(c, '&', "&amp;");
    if c == '&' {
      AfterAmp("&amp;", apos);
    } else {
      ReplaceOne(c, '<', "&lt;");
      if c == '<' {
        AfterLt("&lt;", apos);
      } else {
        ReplaceOne(c, '>', "&gt;");
        if c == '>' {
          AfterGt("&gt;", apos);
        } else {
          ReplaceOne(c, '"', "&quot;");
          if c == '"' {
            ReplaceCharAbsent("&quot;", '\'', apos);
          } else {
            ReplaceOne(c, '\'', apos);
          }
        }
      }
    }
  }

  lemma {:induction false} ChainIsEach(s: string, apos: string)
    requires apos == XML_APOS || apos == HTML_APOS
    ensures Chain(s, apos) == EscapeEach(s, apos)
  {
    if |s| > 0 {
      assert s == [s[0]] + s[1..];
      ChainAppend([s[0]], s[1..], apos);
      ChainChar(s[0], apos);
      ChainIsEach(s[1..], apos);
    }
  }

  /** Because `&` is replaced first, the chained replacements are the
      per-character map: nothing is escaped twice. */
  lemma EscapeXmlPerCharacter(s: string)
    ensures EscapeXml(s) == EscapeEach(s, XML_APOS)
  {
    ChainIsEach(s, XML_APOS);
  }

  lemma EscapeHtmlPerCharacter(s: string)
    ensures EscapeHtml(s) == EscapeEach(s, HTML_APOS)
  {
    ChainIsEach(s, HTML_APOS);
  }

  lemma {:induction false} EachAgree(s: string)
    requires '\'' !in s
    ensures EscapeEach(s, XML_APOS) == EscapeEach(s, HTML_APOS)
  {
    if |s| > 0 {
      assert s[0] != '\'';
      assert '\'' !in s[1..] by {
        assert forall i :: 0 <= i < |s[1..]| ==> s[1..][i] == s[i + 1];
      }
      EachAgree(s[1..]);
    }
  }

  /** The two escapers differ only on the apostrophe. */
  lemma XmlHtmlAgree(s: string)
    requires '\'' !in s
    ensures EscapeXml(s) == EscapeHtml(s)
  {
    EscapeXmlPerCharacter(s);
    EscapeHtmlPerCharacter(s);
    EachAgree(s);
  }

  /** A text with none of the five special characters is left as it is. */
  lemma EscapeXmlPlain(s: string)
    requires '&' !in s && '<' !in s && '>' !in s && '"' !in s && '\'' !in s
    ensures EscapeXml(s) == s
  {
    ReplaceCharAbsent(s, '&', "&amp;");
    ReplaceCharAbsent(s, '<', "&lt;");
    ReplaceCharAbsent(s, '>', "&gt;");
    ReplaceCharAbsent(s, '"', "&quot;");
    ReplaceCharAbsent(s, '\'', XML_APOS);
  }

  predicate StartsWith(s: string, p: string)
  {
    |p| <= |s| && s[..|p|] == p
  }

  predicate EndsWith(s: string, t: string)
  {
    |t| <= |s| && s[|s| - |t|..] == t
  }

  /** The inverse of the escapers: entities back to characters. */
  function Unescape(s: string, apos: string): string
    requires |apos| > 0
    decreases |s|
  {
    if |s| == 0 then ""
    else if StartsWith(s, "&amp;") then "&" + Unescape(s[5..], apos)
    else if StartsWith(s, "&lt;") then "<" + Unescape(s[4..], apos)
    else if StartsWith(s, "&gt;") then ">" + Unescape(s[4..], apos)
    else if StartsWith(s, "&quot;") then "\"" + Unescape(s[6..], apos)
    else if StartsWith(s, apos) then "'" + Unescape(s[|apos|..], apos)
    else [s[0]] + Unescape(s[1..], apos)
  }

  lemma Mismatch(s: string, p: string, i: nat)
    requires i < |p| && i < |s| && s[i] != p[i]
    ensures !StartsWith(s, p)
  {
    if |p| <= |s| {
      assert s[..|p|][i] == s[i];
    }
  }

  lemma Prefixed(p: string, rest: string)
    ensures StartsWith(p + rest, p) && (p + rest)[|p|..] == rest
  {
    assert (p + rest)[..|p|] == p;
  }

  lemma UnescapeEntity(c: char, rest: string, apos: string)
    requires apos == XML_APOS || apos == HTML_APOS
    ensures Unescape(Entity(c, apos) + rest, apos) == [c] + Unescape(rest, apos)
  {
    var e := Entity(c, apos);
    var s := e + rest;
    Prefixed(e, rest);
    if c == '&' {
    } else if c == '<' {
      Mismatch(s, "&amp;", 1);
    } else if c == '>' {
      Mismatch(s, "&amp;", 1);
      Mismatch(s, "&lt;", 1);
    } else if c == '"' {
      Mismatch(s, "&amp;", 1);
      Mismatch(s, "&lt;", 1);
      Mismatch(s, "&gt;", 1);
    } else if c == '\'' {
      if apos == XML_APOS {
        Mismatch(s, "&amp;", 2);
      } else {
        Mismatch(s, "&amp;", 1);
      }
      Mismatch(s, "&lt;", 1);
      Mismatch(s, "&gt;", 1);
      Mismatch(s, "&quot;", 1);
    } else {
      Mismatch(s, "&amp;", 0);
      Mismatch(s, "&lt;", 0);
      Mismatch(s, "&gt;", 0);
      Mismatch(s, "&quot;", 0);
      Mismatch(s, apos, 0);
      assert s[1..] == rest;
    }
  }

  lemma {:induction false} UnescapeEach(s: string, apos: string)
    requires apos == XML_APOS || apos == HTML_APOS
    ensures Unescape(EscapeEach(s, apos), apos) == s
  {
    if |s| > 0 {
      UnescapeEach(s[1..], apos);
      UnescapeEntity(s[0], EscapeEach(s[1..], apos), apos);
      assert s == [s[0]] + s[1..];
    }
  }

  /** Escaping loses nothing: the text is recovered from the escaped form. */
  lemma EscapeRoundTrip(s: string)
    ensures Unescape(EscapeXml(s), XML_APOS) == s
    ensures Unescape(EscapeHtml(s), HTML_APOS) == s
  {
    EscapeXmlPerCharacter(s);
    EscapeHtmlPerCharacter(s);
    UnescapeEach(s, XML_APOS);
    UnescapeEach(s, HTML_APOS);
  }

  lemma EscapeXmlAppend(a: string, b: string)
    ensures EscapeXml(a + b) == EscapeXml(a) + EscapeXml(b)
  {
    ChainAppend(a, b, XML_APOS);
  }

  lemma EscapeXmlChar(c: char)
    ensures EscapeXml([c]) == Entity(c, XML_APOS)
  {
    ChainChar(c, XML_APOS);
  }

  /** A plain text between two special characters. */
  lemma EscapeXmlAround(c: char, s: string, d: char)
    requires '&' !in s && '<' !in s && '>' !in s && '"' !in s && '\'' !in s
    ensures EscapeXml([c] + s + [d]) == Entity(c, XML_APOS) + s + Entity(d, XML_APOS)
  {
    EscapeXmlAppend([c] + s, [d]);
    EscapeXmlAppend([c], s);
    EscapeXmlChar(c);
    EscapeXmlChar(d);
    EscapeXmlPlain(s);
  }

  /** A special character between two plain texts. */
  lemma EscapeXmlMiddle(s: string, c: char, t: string)
    requires '&' !in s && '<' !in s && '>' !in s && '"' !in s && '\'' !in s
    requires '&' !in t && '<' !in t && '>' !in t && '"' !in t && '\'' !in t
    ensures EscapeXml(s + [c] + t) == s + Entity(c, XML_APOS) + t
  {
    EscapeXmlAppend(s + [c], t);
    EscapeXmlAppend(s, [c]);
    EscapeXmlChar(c);
    EscapeXmlPlain(s);
    EscapeXmlPlain(t);
  }

  /** The escaper's own examples. Each text is a parameter so that the
      verifier does not unfold the escaper on a literal. */
  lemma EscapeTagExample(tag: string)
    requires tag == "<test>"
    ensures EscapeXml(tag) == "&lt;test&gt;"
  {
    var test := "test";
    assert tag == ['<'] + test + ['>'];
    EscapeXmlAround('<', test, '>');
  }

  lemma EscapeAmpersandExample(amp: string)
    requires amp == "a & b"
    ensures EscapeXml(amp) == "a &amp; b"
  {
    var a, b := "a ", " b";
    assert amp == a + ['&'] + b;
    EscapeXmlMiddle(a, '&', b);
  }

  lemma EscapeQuoteExample(quote: string)
    requires quote == "\"quote\""
    ensures EscapeXml(quote) == "&quot;quote&quot;"
  {
    var q := "quote";
    assert quote == ['"'] + q + ['"'];
    EscapeXmlAround('"', q, '"');
  }

  // ---------------------------------------------------------------------
  // Day of the week (Zeller's congruence)
  // ---------------------------------------------------------------------

  const WEEKDAY_NAMES: seq<string> := ["Sun", "Mon", "Tue", "Wed", "Thu", "Fri", "Sat"]
  const MONTH_NAMES: seq<string> := ["Jan", "Feb", "Mar", "Apr", "May", "Jun",
                                     "Jul", "Aug", "Sep", "Oct", "Nov", "Dec"]

  /** The range in which `calculate_weekday`'s `i32` arithmetic cannot
      overflow; its only caller passes pieces of a ten-byte string. */
  predicate WeekdayArgs(year: int, month: nat, day: nat)
  {
    -100_000_000 < year < 100_000_000 && month < 100_000_000 && day < 100_000_000
  }

  /** `calculate_weekday`: Zeller's congruence with Rust's truncating `/`
      and `%`, normalised into 0..6. Zeller counts from Saturday = 0. */
  function CalculateWeekday(year: int, month: nat, day: nat): (w: nat)
    requires WeekdayArgs(year, month, day)
    ensures w < 7
  {
    var y := if month <= 2 then year - 1 else year;
    var m := if month <= 2 then month + 12 else month;
    var q := TruncDiv(y, 100);
    var r := TruncRem(y, 100);
    var h := TruncRem(day + TruncDiv(13 * (m + 1), 5) + r + TruncDiv(r, 4) + TruncDiv(q, 4) - 2 * q, 7);
    TruncRem(h + 7, 7)
  }

  lemma QuarterSplit(q: int, r: int)
    requires 0 <= q && 0 <= r < 100
    ensures (100 * q + r) / 4 == 25 * q + r / 4
    ensures (100 * q + r) / 100 == q
    ensures (100 * q + r) / 400 == q / 4
  {
    var a, b := q / 4, q % 4;
    var s, t := r / 4, r % 4;
    assert 100 * q + r == 4 * (25 * q + s) + t;
    assert 100 * q + r == 400 * a + (100 * b + r);
  }

  lemma MonthTerm(m: int)
    requires m >= 3
    ensures (153 * (m - 3) + 2) / 5 == (13 * (m + 1)) / 5 + 28 * m - 94
  {
    assert 153 * (m - 3) + 2 == 13 * (m + 1) + 5 * (28 * m - 94);
  }

  /** Zeller's sum, with Dafny's Euclidean operators. */
  function ZellerSum(y: int, m: int, day: int): int
  {
    day + (13 * (m + 1)) / 5 + y % 100 + (y % 100) / 4 + (y / 100) / 4 - 2 * (y / 100)
  }

  /** Normalising a truncated remainder by 7 gives the Euclidean one. */
  lemma NormalisedRem7(s: int)
    ensures TruncRem(TruncRem(s, 7) + 7, 7) == s % 7
  {
    TruncRemNormalised7(s);
    var h := TruncRem(s, 7);
    assert h + 7 >= 0;
  }

  /** For a non-negative shifted year Rust's truncating operators agree with
      the Euclidean ones, and the result is the sum modulo 7. */
  lemma CalculateWeekdayIsZellerSum(year: int, month: nat, day: nat)
    requires WeekdayArgs(year, month, day) && (if month <= 2 then year - 1 else year) >= 0
    ensures CalculateWeekday(year, month, day)
            == ZellerSum(if month <= 2 then year - 1 else year, if month <= 2 then month + 12 else month, day) % 7
  {
    var y := if month <= 2 then year - 1 else year;
    var m := if month <= 2 then month + 12 else month;
    var q, r := y / 100, y % 100;
    assert TruncDiv(y, 100) == q && TruncRem(y, 100) == r;
    assert TruncDiv(r, 4) == r / 4 && TruncDiv(q, 4) == q / 4;
    assert TruncDiv(13 * (m + 1), 5) == (13 * (m + 1)) / 5;
    var sum := ZellerSum(y, m, day);
    assert day + TruncDiv(13 * (m + 1), 5) + r + TruncDiv(r, 4) + TruncDiv(q, 4) - 2 * q == sum;
    NormalisedRem7(sum);
  }

  /** The day count and Zeller's sum differ by a multiple of 7, less 5. */
  lemma ZellerDays(y: int, m: int, day: int)
    requires y >= 0 && m >= 3
    ensures MarchYearStart(y) + MonthStart(m - 3) + day - 1 - 719468 + 5
            == ZellerSum(y, m, day) + 7 * (5218 * (y / 100) + 52 * (y % 100) + 4 * m - 102794)
  {
    var q, r := y / 100, y % 100;
    assert y == 100 * q + r;
    QuarterSplit(q, r);
    MonthTerm(m);
  }

  /** A sum five ahead of a day count modulo 7 is the Sunday-based weekday + 1. */
  lemma WeekdayFromSum(days: int, sum: int, k: int)
    requires days + 5 == sum + 7 * k
    ensures sum % 7 == ((days + 4) % 7 + 1) % 7
  {
    ModSucc(days + 4);
    assert sum == days + 5 + 7 * (-k);
  }

  /** For dates of year 1 onwards Zeller's index is one ahead of the
      Sunday-based weekday: it is the index of the following day. */
  lemma ZellerIsNextWeekday(d: Date)
    requires ValidDate(d) && 1 <= d.year < 100_000_000
    ensures CalculateWeekday(d.year, d.month, d.day) == (Weekday(d) + 1) % 7
  {
    var y := MarchYear(d);
    var m := if d.month <= 2 then d.month + 12 else d.month;
    CalculateWeekdayIsZellerSum(d.year, d.month, d.day);
    assert MarchMonth(d) == m - 3;
    assert DaysFromCivil(d) == MarchYearStart(y) + MonthStart(m - 3) + d.day - 1 - 719468;
    ZellerDays(y, m, d.day);
    WeekdayFromSum(DaysFromCivil(d), ZellerSum(y, m, d.day), 5218 * (y / 100) + 52 * (y % 100) + 4 * m - 102794);
  }

  /** The index rises by one, modulo 7, from each day to the next. */
  lemma CalculateWeekdayNext(d: Date)
    requires ValidDate(d) && 1 <= d.year && d.year + 1 < 100_000_000
    ensures var e := NextDay(d);
      CalculateWeekday(e.year, e.month, e.day) == (CalculateWeekday(d.year, d.month, d.day) + 1) % 7
  {
    ZellerIsNextWeekday(d);
    ZellerIsNextWeekday(NextDay(d));
    WeekdayNext(d);
    ModSucc(Weekday(d) + 1);
  }

  /** The corrected weekday: Zeller's index moved back to Sunday = 0. */
  function DayOfWeek(year: int, month: nat, day: nat): (w: nat)
    requires WeekdayArgs(year, month, day)
    ensures w < 7
  {
    (CalculateWeekday(year, month, day) + 6) % 7
  }

  lemma PrevOfNext7(w: nat)
    requires w < 7
    ensures ((w + 1) % 7 + 6) % 7 == w
  {
  }

  /** The corrected index is the true day of the week. */
  lemma DayOfWeekIsWeekday(d: Date)
    requires ValidDate(d) && 1 <= d.year < 100_000_000
    ensures DayOfWeek(d.year, d.month, d.day) == Weekday(d)
  {
    ZellerIsNextWeekday(d);
    PrevOfNext7(Weekday(d));
  }

  // ---------------------------------------------------------------------
  // RFC 2822 dates
  // ---------------------------------------------------------------------

  /** Rust slices `datetime[0..10]` and `datetime[11..19]` only at character
      boundaries; anywhere else it panics. */
  predicate SliceableStamp(datetime: string)
  {
    ByteLen(datetime) < 19
    || (CharsForBytes(datetime, 10).Some? && CharsForBytes(datetime, 11).Some? && CharsForBytes(datetime, 19).Some?)
  }

  /** The fields `datetime_to_rfc2822` reads from a timestamp. */
  datatype Stamp = Stamp(year: int, month: nat, day: nat, hour: int, minute: int, second: int)

  /** The leading fields of a timestamp, or `None` when they are not there
      and the timestamp is printed unchanged. */
  function ReadStamp(datetime: string): (r: Option<Stamp>)
    requires SliceableStamp(datetime)
    ensures ByteLen(datetime) < 19 ==> r == None
    ensures r.Some? ==> WeekdayArgs(r.value.year, r.value.month, r.value.day) && r.value.month <= U32_MAX
  {
    if ByteLen(datetime) < 19 then None
    else
      var i10 := CharsForBytes(datetime, 10).value;
      var i11 := CharsForBytes(datetime, 11).value;
      var i19 := CharsForBytes(datetime, 19).value;
      CharsForBytesMonotone(datetime, 11, 19);
      ReadFields(datetime[..i10], datetime[i11..i19])
  }

  /** The fields of the date part `datetime[0..10]` and the time part
      `datetime[11..19]`: `None` unless the date splits on `-` into exactly
      three pieces; an unparsable piece takes its default, 2025, 1, 1 for
      the date and 0 for the clock, and a time part that does not split on
      `:` into three pieces reads as midnight. */
  function ReadFields(datePart: string, timePart: string): (r: Option<Stamp>)
    requires ByteLen(datePart) == 10
    ensures r.None? <==> |Split(datePart, '-')| != 3
    ensures r.Some? ==> WeekdayArgs(r.value.year, r.value.month, r.value.day) && r.value.month <= U32_MAX
    ensures r.Some? ==> var p := Split(datePart, '-');
              r.value.year == (if ParseI32(p[0]).Some? then ParseI32(p[0]).value else 2025)
              && r.value.month == (if ParseU32(p[1]).Some? then ParseU32(p[1]).value else 1)
              && r.value.day == (if ParseU32(p[2]).Some? then ParseU32(p[2]).value else 1)
    ensures r.Some? && |Split(timePart, ':')| != 3 ==>
              r.value.hour == 0 && r.value.minute == 0 && r.value.second == 0
    ensures r.Some? && |Split(timePart, ':')| == 3 ==> var t := Split(timePart, ':');
              r.value.hour == (if ParseI32(t[0]).Some? then ParseI32(t[0]).value else 0)
              && r.value.minute == (if ParseI32(t[1]).Some? then ParseI32(t[1]).value else 0)
              && r.value.second == (if ParseI32(t[2]).Some? then ParseI32(t[2]).value else 0)
  {
    var parts := Split(datePart, '-');
    if |parts| != 3 then None
    else
      var year := ParseI32(parts[0]).GetOr(2025);
      var month := ParseU32(parts[1]).GetOr(1);
      var day := ParseU32(parts[2]).GetOr(1);
      PiecesBounded(datePart);
      var tp := Split(timePart, ':');
      var hour := if |tp| == 3 then ParseI32(tp[0]).GetOr(0) else 0;
      var minute := if |tp| == 3 then ParseI32(tp[1]).GetOr(0) else 0;
      var second := if |tp| == 3 then ParseI32(tp[2]).GetOr(0) else 0;
      Some(Stamp(year, month, day, hour, minute, second))
  }

  /** Each piece of a ten-byte date field has at most eight characters, so
      it parses to less than 10^8. */
  lemma PiecesBounded(datePart: string)
    requires ByteLen(datePart) == 10 && |Split(datePart, '-')| == 3
    ensures var p := Split(datePart, '-');
      (ParseI32(p[0]).Some? ==> -100_000_000 < ParseI32(p[0]).value < 100_000_000)
      && (ParseU32(p[1]).Some? ==> ParseU32(p[1]).value < 100_000_000)
      && (ParseU32(p[2]).Some? ==> ParseU32(p[2]).value < 100_000_000)
  {
    var p := Split(datePart, '-');
    SplitThreeLengths(datePart, '-');
    assert Pow10(8) == 100_000_000 by {
      assert Pow10(2) == 100;
      assert Pow10(4) == 10_000;
    }
    if ParseI32(p[0]).Some? { ParseI32Bound(p[0], 8); }
    if ParseU32(p[1]).Some? { ParseU32Bound(p[1], 8); }
    if ParseU32(p[2]).Some? { ParseU32Bound(p[2], 8); }
  }

  /** `MONTH_NAMES.get((month - 1) as usize).unwrap_or(&"Jan")`, with the
      `u32` subtraction wrapping as a release build does: month 0 becomes
      index 4294967295, which is out of range like every month above 12. */
  function MonthName(month: nat): (name: string)
    requires month <= U32_MAX
    ensures 1 <= month <= 12 ==> name == MONTH_NAMES[month - 1]
    ensures (month == 0 || month > 12) ==> name == "Jan"
  {
    var index := (month - 1) % 0x1_0000_0000;
    assert month >= 1 ==> index == month - 1;
    assert month == 0 ==> index == U32_MAX;
    if index < 12 then MONTH_NAMES[index] else "Jan"
  }

  /** `WEEKDAY_NAMES.get(i).unwrap_or(&"Sun")`. */
  function WeekdayName(i: nat): string
  {
    if i < 7 then WEEKDAY_NAMES[i] else "Sun"
  }

  /** The clock fields of a stamp, each `{:02}`. */
  function StampClock(st: Stamp): string
  {
    SignedZeroPad(st.hour, 2) + ":" + SignedZeroPad(st.minute, 2) + ":" + SignedZeroPad(st.second, 2)
  }

  /** Everything after the weekday name, labelled `+0900` whatever zone the
      clock fields were read in. */
  function StampText(st: Stamp): string
    requires st.month <= U32_MAX
  {
    ", " + ZeroPad(st.day, 2) + " " + MonthName(st.month) + " " + SignedDecimal(st.year) + " "
      + StampClock(st) + " +0900"
  }

  /** `"{}, {:02} {} {} {:02}:{:02}:{:02} +0900"`. */
  function RenderStamp(st: Stamp, weekdayIndex: nat): string
    requires st.month <= U32_MAX
  {
    WeekdayName(weekdayIndex) + StampText(st)
  }

  /** For a stamp that names a real date, Zeller's index names the day after
      the date and the corrected index the date's own day. */
  lemma StampWeekdays(st: Stamp)
    requires WeekdayArgs(st.year, st.month, st.day) && st.month <= U32_MAX
    requires ValidDate(Date(st.year, st.month, st.day)) && 1 <= st.year
    ensures RenderStamp(st, CalculateWeekday(st.year, st.month, st.day))
            == WEEKDAY_NAMES[(Weekday(Date(st.year, st.month, st.day)) + 1) % 7] + StampText(st)
    ensures RenderStamp(st, DayOfWeek(st.year, st.month, st.day))
            == WEEKDAY_NAMES[Weekday(Date(st.year, st.month, st.day))] + StampText(st)
  {
    var d := Date(st.year, st.month, st.day);
    ZellerIsNextWeekday(d);
    NamedStamp(st, CalculateWeekday(st.year, st.month, st.day));
    DayOfWeekIsWeekday(d);
    NamedStamp(st, DayOfWeek(st.year, st.month, st.day));
  }

  lemma NamedStamp(st: Stamp, w: nat)
    requires st.month <= U32_MAX && w < 7
    ensures RenderStamp(st, w) == WEEKDAY_NAMES[w] + StampText(st)
  {
  }

  /** `datetime_to_rfc2822` as written: the weekday name is looked up with
      Zeller's Saturday-based index. */
  function DatetimeToRfc2822(datetime: string): (r: string)
    requires SliceableStamp(datetime)
    ensures match ReadStamp(datetime)
      case None => r == datetime
      case Some(st) =>
        r == RenderStamp(st, CalculateWeekday(st.year, st.month, st.day))
        && (ValidDate(Date(st.year, st.month, st.day)) && 1 <= st.year ==>
              r == WEEKDAY_NAMES[(Weekday(Date(st.year, st.month, st.day)) + 1) % 7] + StampText(st))
  {
    match ReadStamp(datetime)
    case None => datetime
    case Some(st) =>
      var d := Date(st.year, st.month, st.day);
      if ValidDate(d) && 1 <= d.year then
        StampWeekdays(st);
        RenderStamp(st, CalculateWeekday(st.year, st.month, st.day))
      else RenderStamp(st, CalculateWeekday(st.year, st.month, st.day))
  }

  /** A timestamp of at least 19 bytes has its fields read exactly when its
      first ten bytes split on `-` into three pieces; otherwise both
      rewriters return it unchanged. */
  lemma UnsplitDateKeptAsIs(datetime: string)
    requires SliceableStamp(datetime) && ByteLen(datetime) >= 19
    ensures var pieces := Split(datetime[..CharsForBytes(datetime, 10).value], '-');
      (ReadStamp(datetime).None? <==> |pieces| != 3)
      && (|pieces| != 3 ==> DatetimeToRfc2822(datetime) == datetime && DatetimeToRfc2822Corrected(datetime) == datetime)
  {
  }

  /** The corrected rewriter: the weekday name of the date itself. */
  function DatetimeToRfc2822Corrected(datetime: string): (r: string)
    requires SliceableStamp(datetime)
    ensures match ReadStamp(datetime)
      case None => r == datetime
      case Some(st) =>
        ValidDate(Date(st.year, st.month, st.day)) && 1 <= st.year ==>
          r == WEEKDAY_NAMES[Weekday(Date(st.year, st.month, st.day))] + StampText(st)
  {
    match ReadStamp(datetime)
    case None => datetime
    case Some(st) =>
      var d := Date(st.year, st.month, st.day);
      if ValidDate(d) && 1 <= d.year then
        StampWeekdays(st);
        RenderStamp(st, DayOfWeek(st.year, st.month, st.day))
      else RenderStamp(st, DayOfWeek(st.year, st.month, st.day))
  }

  /** A digit string holds no separator. */
  lemma DigitsWithout(s: string, c: char)
    requires AllDigits(s) && !IsDigit(c)
    ensures c !in s
  {
    assert forall i :: 0 <= i < |s| ==> IsDigit(s[i]);
  }

  /** Three digit fields joined by a separator form an ASCII string. */
  lemma JoinedAscii(a: string, b: string, c: string, sep: char)
    requires AllDigits(a) && AllDigits(b) && AllDigits(c) && sep as int < 0x80
    ensures IsAscii(a + [sep] + b + [sep] + c)
  {
    DigitsAscii(a); DigitsAscii(b); DigitsAscii(c);
    AsciiAppend(a, [sep]); AsciiAppend(a + [sep], b);
    AsciiAppend(a + [sep] + b, [sep]); AsciiAppend(a + [sep] + b + [sep], c);
  }

  /** A formatted date of a four-digit year splits on `-` into fields that
      parse back to the date. */
  lemma DateFields(d: Date)
    requires ValidDate(d) && 0 <= d.year <= 9999
    ensures var date := FormatDate(d);
      |date| == 10 && IsAscii(date)
      && var p := Split(date, '-');
      |p| == 3 && ParseI32(p[0]) == Some(d.year) && ParseU32(p[1]) == Some(d.month) && ParseU32(p[2]) == Some(d.day)
  {
    FormatDateShape(d);
    var y, m, dd := ZeroPad(d.year, 4), ZeroPad(d.month, 2), ZeroPad(d.day, 2);
    assert FormatDate(d) == y + ['-'] + m + ['-'] + dd;
    JoinedAscii(y, m, dd, '-');
    DigitsWithout(y, '-'); DigitsWithout(m, '-'); DigitsWithout(dd, '-');
    SplitThree(y, m, dd, '-');
    ZeroPadParsesI32(d.year, 4);
    ZeroPadParsesU32(d.month, 2);
    ZeroPadParsesU32(d.day, 2);
  }

  /** A formatted clock splits on `:` into fields that parse back to the
      hour, minute and second. */
  lemma ClockFields(tod: int)
    requires 0 <= tod < SECONDS_PER_DAY
    ensures var clock := ClockText(tod);
      |clock| == 8 && IsAscii(clock)
      && var p := Split(clock, ':');
      |p| == 3 && ParseI32(p[0]) == Some(tod / 3600) && ParseI32(p[1]) == Some(tod / 60 % 60)
      && ParseI32(p[2]) == Some(tod % 60)
  {
    var hh, mm, ss := ZeroPad(tod / 3600, 2), ZeroPad(tod / 60 % 60, 2), ZeroPad(tod % 60, 2);
    Pow10Values();
    ZeroPadWidth(tod / 3600, 2);
    ZeroPadWidth(tod / 60 % 60, 2);
    ZeroPadWidth(tod % 60, 2);
    assert ClockText(tod) == hh + [':'] + mm + [':'] + ss;
    JoinedAscii(hh, mm, ss, ':');
    DigitsWithout(hh, ':'); DigitsWithout(mm, ':'); DigitsWithout(ss, ':');
    SplitThree(hh, mm, ss, ':');
    ZeroPadParsesI32(tod / 3600, 2);
    ZeroPadParsesI32(tod / 60 % 60, 2);
    ZeroPadParsesI32(tod % 60, 2);
  }

  /** In an ASCII string of 19 characters or more the byte offsets 10, 11
      and 19 are character offsets, so the rewriter slices it safely. */
  lemma AsciiStamp(s: string)
    requires IsAscii(s) && |s| >= 19
    ensures ByteLen(s) == |s| && SliceableStamp(s)
    ensures CharsForBytes(s, 10) == Some(10) && CharsForBytes(s, 11) == Some(11) && CharsForBytes(s, 19) == Some(19)
  {
    AsciiByteLen(s);
    AsciiBoundaries(s, 10);
    AsciiBoundaries(s, 11);
    AsciiBoundaries(s, 19);
  }

  /** The fields of a formatted date and clock read back as that date and clock. */
  lemma ReadShapedFields(d: Date, tod: int)
    requires ValidDate(d) && 0 <= d.year <= 9999 && 0 <= tod < SECONDS_PER_DAY
    ensures var date := FormatDate(d);
      ByteLen(date) == 10
      && ReadFields(date, ClockText(tod)) == Some(Stamp(d.year, d.month, d.day, tod / 3600, tod / 60 % 60, tod % 60))
  {
    DateFields(d);
    ClockFields(tod);
    AsciiByteLen(FormatDate(d));
  }

  /** The timestamps the diary stores have the leading fields the rewriter
      reads: the date, `T`, the clock. */
  lemma ReadShapedStamp(d: Date, tod: int, tail: string)
    requires ValidDate(d) && 0 <= d.year <= 9999 && 0 <= tod < SECONDS_PER_DAY && IsAscii(tail)
    ensures var s := FormatDate(d) + "T" + ClockText(tod) + tail;
      IsAscii(s) && SliceableStamp(s)
      && ReadStamp(s) == Some(Stamp(d.year, d.month, d.day, tod / 3600, tod / 60 % 60, tod % 60))
  {
    DateFields(d);
    ClockFields(tod);
    ReadJoinedStamp(FormatDate(d), ClockText(tod), tail);
    ReadShapedFields(d, tod);
  }

  /** An ASCII date of ten characters, `T`, a clock of eight and an ASCII
      tail are read as the fields of that date and clock. */
  lemma ReadJoinedStamp(date: string, clock: string, tail: string)
    requires IsAscii(date) && |date| == 10 && IsAscii(clock) && |clock| == 8 && IsAscii(tail)
    ensures var s := date + "T" + clock + tail;
      IsAscii(s) && SliceableStamp(s) && ByteLen(date) == 10 && ReadStamp(s) == ReadFields(date, clock)
  {
    var s := date + "T" + clock + tail;
    AsciiAppend(date, "T"); AsciiAppend(date + "T", clock); AsciiAppend(date + "T" + clock, tail);
    AsciiStamp(s);
    AsciiByteLen(date);
    assert s[..10] == date && s[11..19] == clock;
  }


  /** What follows the weekday name in the rewritten form of a date and a
      clock: `", DD Mon YYYY HH:MM:SS +0900"`. */
  function PubDateTail(d: Date, tod: int): string
    requires ValidDate(d) && 0 <= tod < SECONDS_PER_DAY
  {
    ", " + ZeroPad(d.day, 2) + " " + MONTH_NAMES[d.month - 1] + " " + SignedDecimal(d.year) + " "
      + ClockText(tod) + " +0900"
  }

  /** The clock fields of a stamp print back as the clock they were read from. */
  lemma RenderShapedStamp(d: Date, tod: int, w: nat)
    requires ValidDate(d) && 0 <= tod < SECONDS_PER_DAY && w < 7
    ensures RenderStamp(Stamp(d.year, d.month, d.day, tod / 3600, tod / 60 % 60, tod % 60), w)
            == WEEKDAY_NAMES[w] + PubDateTail(d, tod)
  {
    var st := Stamp(d.year, d.month, d.day, tod / 3600, tod / 60 % 60, tod % 60);
    assert MonthName(d.month) == MONTH_NAMES[d.month - 1];
    assert StampClock(st) == ClockText(tod);
    assert StampText(st) == PubDateTail(d, tod);
  }

  /** A timestamp of the stored shape, for a date of year 1 to 9999, is
      rewritten with the weekday after its own as written, and with its own
      weekday once corrected. */
  lemma RewriteShaped(d: Date, tod: int, tail: string)
    requires ValidDate(d) && 1 <= d.year <= 9999 && 0 <= tod < SECONDS_PER_DAY && IsAscii(tail)
    ensures var s := FormatDate(d) + "T" + ClockText(tod) + tail;
      SliceableStamp(s)
      && DatetimeToRfc2822(s) == WEEKDAY_NAMES[(Weekday(d) + 1) % 7] + PubDateTail(d, tod)
      && DatetimeToRfc2822Corrected(s) == WEEKDAY_NAMES[Weekday(d)] + PubDateTail(d, tod)
  {
    ReadShapedStamp(d, tod, tail);
    ZellerIsNextWeekday(d);
    DayOfWeekIsWeekday(d);
    RenderShapedStamp(d, tod, (Weekday(d) + 1) % 7);
    RenderShapedStamp(d, tod, Weekday(d));
  }

  /** The part of an ISO 8601 timestamp after the clock is ASCII. */
  lemma IsoTailAscii(nanos: nat)
    ensures IsAscii(Fraction(nanos) + "+00:00")
  {
    var f := Fraction(nanos);
    if nanos != 0 {
      var digits := f[1..];
      assert f == "." + digits;
      DigitsAscii(digits);
      AsciiAppend(".", digits);
    }
    AsciiAppend(f, "+00:00");
  }

  /** A stored timestamp of an instant from 1970 to the end of year 9999 is
      a date, `T`, a clock and an ASCII tail. */
  lemma StoredStampShape(millis: int)
    requires 0 <= millis <= LAST_FOUR_DIGIT_MILLIS
    ensures var t := NowUtc(millis);
      var d := CivilFromDays(t.secs / SECONDS_PER_DAY);
      1 <= d.year <= 9999 && IsAscii(Fraction(t.nanos) + "+00:00")
      && NowIso8601(millis) == FormatDate(d) + "T" + ClockText(t.secs % SECONDS_PER_DAY) + (Fraction(t.nanos) + "+00:00")
  {
    var t := NowUtc(millis);
    var n := t.secs / SECONDS_PER_DAY;
    JstDayBounds(millis);
    assert 0 <= n <= JstDayNumber(t);
    DayYearInRange(n);
    IsoTailAscii(t.nanos);
  }

  /** A stored timestamp comes from `now_iso8601`, in UTC. The publication
      date prints the UTC date and clock of that instant unchanged and labels
      them `+0900`: no conversion to Japan time takes place. The as-written
      weekday is the one after the date's. */
  lemma PubDateOfStoredTimestamp(millis: int)
    requires 0 <= millis <= LAST_FOUR_DIGIT_MILLIS
    ensures var t := NowUtc(millis);
      var d := CivilFromDays(t.secs / SECONDS_PER_DAY);
      var tail := PubDateTail(d, t.secs % SECONDS_PER_DAY);
      SliceableStamp(NowIso8601(millis))
      && DatetimeToRfc2822(NowIso8601(millis)) == WEEKDAY_NAMES[(Weekday(d) + 1) % 7] + tail
      && DatetimeToRfc2822Corrected(NowIso8601(millis)) == WEEKDAY_NAMES[Weekday(d)] + tail
  {
    var t := NowUtc(millis);
    StoredStampShape(millis);
    RewriteShaped(CivilFromDays(t.secs / SECONDS_PER_DAY), t.secs % SECONDS_PER_DAY, Fraction(t.nanos) + "+00:00");
  }

  lemma ExampleYearText()
    ensures FormatYear(2025) == "2025"
  {
    ZeroPadFourDigits(2025);
  }

  lemma ExampleDateFields()
    ensures FormatDate(Date(2025, 1, 15)) == "2025" + "-" + "01" + "-" + "15"
  {
    ExampleYearText();
    ZeroPadTwoDigits(1);
    ZeroPadTwoDigits(15);
  }

  lemma ExampleDateText()
    ensures FormatDate(Date(2025, 1, 15)) == "2025-01-15"
  {
    ExampleDateFields();
  }

  lemma ExampleClockText()
    ensures ClockText(37845) == "10:30:45"
  {
    assert 37845 / 3600 == 10 && 37845 / 60 % 60 == 30 && 37845 % 60 == 45;
    ZeroPadTwoDigits(10);
    ZeroPadTwoDigits(30);
    ZeroPadTwoDigits(45);
  }

  /** The text of the rewriter's own example. */
  lemma ExampleStampText(date: string, clock: string)
    requires date == FormatDate(Date(2025, 1, 15)) && clock == ClockText(37845)
    ensures date + "T" + clock + "Z" == "2025-01-15T10:30:45Z"
  {
    ExampleDateText();
    ExampleClockText();
  }

  lemma ExampleTail(clock: string)
    requires clock == ClockText(37845)
    ensures PubDateTail(Date(2025, 1, 15), 37845) == ", " + "15" + " " + "Jan" + " " + "2025" + " " + clock + " +0900"
  {
    assert ZeroPad(15, 2) == "15";
    assert SignedDecimal(2025) == "2025";
  }

  /** 2025-01-15 was a Wednesday; the as-written index names the Thursday. */
  lemma ExampleWeekday()
    ensures WEEKDAY_NAMES[(Weekday(Date(2025, 1, 15)) + 1) % 7] == "Thu"
    ensures WEEKDAY_NAMES[Weekday(Date(2025, 1, 15))] == "Wed"
  {
    Weekday20250115();
  }

  /** Spelling out the example's rewritten text. */
  lemma ExampleGlue(w: string, clock: string, r: string)
    requires clock == "10:30:45" && r == w + (", " + "15" + " " + "Jan" + " " + "2025" + " " + clock + " +0900")
    ensures r == w + ", 15 Jan 2025 10:30:45 +0900"
  {
  }

  lemma ExampleThursday()
    ensures "Thu" + ", 15 Jan 2025 10:30:45 +0900" == "Thu, 15 Jan 2025 10:30:45 +0900"
  {
  }

  lemma ExampleWednesday()
    ensures "Wed" + ", 15 Jan 2025 10:30:45 +0900" == "Wed, 15 Jan 2025 10:30:45 +0900"
  {
  }

  /** The rewritten texts of the example's date and clock, by weekday index. */
  lemma ExampleTexts()
    ensures WEEKDAY_NAMES[(Weekday(Date(2025, 1, 15)) + 1) % 7] + PubDateTail(Date(2025, 1, 15), 37845)
            == "Thu, 15 Jan 2025 10:30:45 +0900"
    ensures WEEKDAY_NAMES[Weekday(Date(2025, 1, 15))] + PubDateTail(Date(2025, 1, 15), 37845)
            == "Wed, 15 Jan 2025 10:30:45 +0900"
  {
    var clock := ClockText(37845);
    ExampleWeekday();
    ExampleTail(clock);
    ExampleClockText();
    ExampleGlue("Thu", clock, "Thu" + PubDateTail(Date(2025, 1, 15), 37845));
    ExampleGlue("Wed", clock, "Wed" + PubDateTail(Date(2025, 1, 15), 37845));
    ExampleThursday();
    ExampleWednesday();
  }

  /** The rewritten forms of the example, from its fields. */
  lemma ExampleRewrite(s: string)
    requires s == FormatDate(Date(2025, 1, 15)) + "T" + ClockText(37845) + "Z"
    ensures SliceableStamp(s)
    ensures DatetimeToRfc2822(s) == "Thu, 15 Jan 2025 10:30:45 +0900"
    ensures DatetimeToRfc2822Corrected(s) == "Wed, 15 Jan 2025 10:30:45 +0900"
  {
    RewriteShaped(Date(2025, 1, 15), 37845, "Z");
    ExampleTexts();
  }

  /** The rewriter's own example: 2025-01-15 was a Wednesday, yet the as-written
      code prints "Thu" and keeps the UTC clock with a `+0900` label. */
  lemma Rfc2822Example()
    ensures SliceableStamp("2025-01-15T10:30:45Z")
    ensures DatetimeToRfc2822("2025-01-15T10:30:45Z") == "Thu, 15 Jan 2025 10:30:45 +0900"
    ensures DatetimeToRfc2822Corrected("2025-01-15T10:30:45Z") == "Wed, 15 Jan 2025 10:30:45 +0900"
  {
    var date, clock := FormatDate(Date(2025, 1, 15)), ClockText(37845);
    ExampleRewrite(date + "T" + clock + "Z");
    ExampleStampText(date, clock);
  }

  // ---------------------------------------------------------------------
  // RSS
  // ---------------------------------------------------------------------

  /** How many characters of an entry a feed item carries. */
  const FEED_CHARS: nat := 200

  /** The fields of one `<item>`, as printed. */
  datatype FeedItem = FeedItem(title: string, link: string, guid: string, pubDate: string, description: string)

  /** Rust panics slicing a stored `updated_at` off a character boundary. */
  predicate Publishable(entry: DiaryEntry)
  {
    SliceableStamp(entry.updatedAt)
  }

  /** The item of one entry. Its publication date is the as-written
      rewriting of the entry's `updated_at`. */
  function FeedItemOf(entry: DiaryEntry, baseUrl: string): (item: FeedItem)
    requires Publishable(entry)
    ensures item.title == EscapeXml(entry.date) + "の日記"
    ensures item.link == baseUrl + "/entries/" + EscapeXml(entry.date) && item.guid == item.link
    ensures item.pubDate == DatetimeToRfc2822(entry.updatedAt)
    ensures item.description == EscapeXml(TruncateChars(entry.content, FEED_CHARS))
    ensures '<' !in item.description && '>' !in item.description
  {
    var date := EscapeXml(entry.date);
    FeedItem(date + "の日記", baseUrl + "/entries/" + date, baseUrl + "/entries/" + date,
             DatetimeToRfc2822(entry.updatedAt), EscapeXml(TruncateChars(entry.content, FEED_CHARS)))
  }

  /** The items of a list of entries: one per entry, in the same order. */
  function FeedItems(entries: seq<DiaryEntry>, baseUrl: string): (items: seq<FeedItem>)
    requires forall i :: 0 <= i < |entries| ==> Publishable(entries[i])
    ensures |items| == |entries|
    ensures forall i :: 0 <= i < |entries| ==> items[i] == FeedItemOf(entries[i], baseUrl)
  {
    seq(|entries|, i requires 0 <= i < |entries| => FeedItemOf(entries[i], baseUrl))
  }

  function ItemXml(item: FeedItem): string
  {
    "    <item>\n      <title>" + item.title + "</title>\n      <link>" + item.link
      + "</link>\n      <guid>" + item.guid + "</guid>\n      <pubDate>" + item.pubDate
      + "</pubDate>\n      <description>" + item.description + "</description>\n    </item>"
  }

  function ItemsXml(items: seq<FeedItem>): (r: seq<string>)
    ensures |r| == |items| && forall i :: 0 <= i < |items| ==> r[i] == ItemXml(items[i])
  {
    if |items| == 0 then [] else [ItemXml(items[0])] + ItemsXml(items[1..])
  }

  function RssHead(baseUrl: string): string
  {
    "<?xml version=\"1.0\" encoding=\"UTF-8\"?>\n<rss version=\"2.0\">\n  <channel>\n    <title>誰かが書く日記</title>\n    <link>"
      + baseUrl + "</link>\n    <description>自分が書かなければおそらく誰かが書く日記</description>\n    <language>ja</language>\n"
  }

  const RSS_TAIL: string := "\n  </channel>\n</rss>"

  /** A text between a head and a tail starts with the one and ends with the other. */
  function Enclose(head: string, body: string, tail: string): (r: string)
    ensures StartsWith(r, head) && EndsWith(r, tail)
    ensures |r| == |head| + |body| + |tail|
    ensures r[|head|..|r| - |tail|] == body
  {
    var r := head + body + tail;
    assert r[..|head|] == head;
    assert r[|head|..|r| - |tail|] == body;
    assert r[|r| - |tail|..] == tail;
    r
  }

  /** The feed document of a list of items: the channel header, the items
      joined by newlines, the footer. */
  function RssDocument(items: seq<FeedItem>, baseUrl: string): (r: string)
    ensures StartsWith(r, RssHead(baseUrl)) && EndsWith(r, RSS_TAIL)
    ensures r == RssHead(baseUrl) + Join(ItemsXml(items), '\n') + RSS_TAIL
  {
    Enclose(RssHead(baseUrl), Join(ItemsXml(items), '\n'), RSS_TAIL)
  }

  /** `render_rss`: the document of the entries' items, in the given order. */
  function RenderRss(entries: seq<DiaryEntry>, baseUrl: string): (r: string)
    requires forall i :: 0 <= i < |entries| ==> Publishable(entries[i])
    ensures StartsWith(r, RssHead(baseUrl)) && EndsWith(r, RSS_TAIL)
  {
    RssDocument(FeedItems(entries, baseUrl), baseUrl)
  }

  /** The feed is the channel header, the `<item>` blocks of the entries
      joined by newlines, and the closing tags. */
  lemma RenderRssItems(entries: seq<DiaryEntry>, baseUrl: string)
    requires forall i :: 0 <= i < |entries| ==> Publishable(entries[i])
    ensures RenderRss(entries, baseUrl) == RssHead(baseUrl) + Join(ItemsXml(FeedItems(entries, baseUrl)), '\n') + RSS_TAIL
  {
    var items := FeedItems(entries, baseUrl);
    assert RenderRss(entries, baseUrl) == RssDocument(items, baseUrl);
  }


  /** The description is the content when it has at most 200 characters and
      its first 200 characters and `...` otherwise, escaped; unescaping the
      item recovers exactly that text. */
  lemma FeedDescription(entry: DiaryEntry, baseUrl: string)
    requires Publishable(entry)
    ensures var desc := Unescape(FeedItemOf(entry, baseUrl).description, XML_APOS);
      (|entry.content| <= FEED_CHARS ==> desc == entry.content)
      && (|entry.content| > FEED_CHARS ==> desc == entry.content[..FEED_CHARS] + "...")
  {
    EscapeRoundTrip(TruncateChars(entry.content, FEED_CHARS));
  }

  /** The item of an entry saved at an instant from 1970 to the end of year
      9999 carries the UTC date and clock of that instant labelled `+0900`,
      after the name of the day following that date. */
  lemma FeedPubDateOfSavedEntry(entry: DiaryEntry, baseUrl: string, millis: int)
    requires 0 <= millis <= LAST_FOUR_DIGIT_MILLIS && entry.updatedAt == NowIso8601(millis)
    ensures var t := NowUtc(millis);
      var d := CivilFromDays(t.secs / SECONDS_PER_DAY);
      Publishable(entry)
      && FeedItemOf(entry, baseUrl).pubDate
         == WEEKDAY_NAMES[(Weekday(d) + 1) % 7] + PubDateTail(d, t.secs % SECONDS_PER_DAY)
  {
    PubDateOfStoredTimestamp(millis);
  }

  /** A 300-character entry of `あ` is cut to 200 characters and `...`, which
      escaping leaves alone. */
  lemma FeedTruncatesLongContent()
    ensures var item := FeedItemOf(DiaryEntry("2025-01-15", Repeat('あ', 300), "", ""), "https://example.com");
      item.description == Repeat('あ', 200) + "..."
  {
    var t := TruncateChars(Repeat('あ', 300), FEED_CHARS);
    assert t == Repeat('あ', 200) + "...";
    assert forall i :: 0 <= i < |t| ==> t[i] == 'あ' || t[i] == '.';
    EscapeXmlPlain(t);
  }
}
