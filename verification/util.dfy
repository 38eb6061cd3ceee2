/** The two text builders of `src/mate-ui-util.c` that the rest of the
    library's callers see: the duration formatter and the help URI that
    `mate_ui_util_show_help` opens. Opening the URI is left out; its
    success is an input. */
module Util {
  import opened Common
  import Text

  predicate IsDigit(c: char) {
    '0' <= c <= '9'
  }

  /** The decimal digit for `d`. */
  function DigitChar(d: nat): (c: char)
    requires d < 10
    ensures IsDigit(c)
    ensures c as int - '0' as int == d
  {
    ('0' as int + d) as char
  }

  /** `%u`: the decimal digits of `n`, without padding or sign. */
  function Decimal(n: nat): (r: string)
    ensures |r| >= 1
    ensures forall i :: 0 <= i < |r| ==> IsDigit(r[i])
    ensures |r| > 1 ==> r[0] != '0'
    decreases n
  {
    if n < 10 then [DigitChar(n)] else Decimal(n / 10) + [DigitChar(n % 10)]
  }

  /** The value of one decimal digit. */
  function DigitValue(c: char): (d: nat)
    requires IsDigit(c)
    ensures d < 10
  {
    c as int - '0' as int
  }

  /** The number a string of digits denotes, most significant first. */
  function DigitsValue(s: string): nat
    requires forall i :: 0 <= i < |s| ==> IsDigit(s[i])
    decreases |s|
  {
    if s == [] then 0
    else DigitsValue(s[..|s| - 1]) * 10 + DigitValue(s[|s| - 1])
  }

  /** Reads back what `%u` prints: digits only, no leading zero. */
  function ParseDecimal(s: string): (r: Option<nat>)
  {
    if s != [] && (forall i :: 0 <= i < |s| ==> IsDigit(s[i])) && (|s| == 1 || s[0] != '0')
    then Some(DigitsValue(s))
    else None
  }

  lemma {:induction false} DecimalValue(n: nat)
    ensures DigitsValue(Decimal(n)) == n
    decreases n
  {
    if n >= 10 {
      var d := Decimal(n);
      DecimalValue(n / 10);
      assert d[..|d| - 1] == Decimal(n / 10);
    }
  }

  /** `%u` is read back exactly: distinct numbers print differently. */
  lemma DecimalRoundTrip(n: nat)
    ensures ParseDecimal(Decimal(n)) == Some(n)
  {
    DecimalValue(n);
  }

  /** A printed number holds no space. */
  lemma DecimalHasNoSpace(n: nat)
    ensures ' ' !in Decimal(n)
  {
    assert forall i :: 0 <= i < |Decimal(n)| ==> Decimal(n)[i] != ' ';
  }

  /** The numbers and unit words `mate_ui_util_format_time` prints, in
      order: "S sec" under a minute, "M min S sec" under an hour, and
      "H hr M min S sec" from an hour on; the argument is a `guint`. */
  function TimeFields(seconds: nat): seq<string>
  {
    if seconds < 60 then [Decimal(seconds), "sec"]
    else if seconds < 3600 then [Decimal(seconds / 60), "min", Decimal(seconds % 60), "sec"]
    else [Decimal(seconds / 3600), "hr", Decimal(seconds % 3600 / 60), "min", Decimal(seconds % 60), "sec"]
  }

  /** `mate_ui_util_format_time`: the fields separated by single spaces.
      The text reads back as the duration under the canonical reading. */
  function FormatTime(seconds: uint32): (r: string)
    ensures ParseTime(r) == Some(seconds as nat)
  {
    TimeFieldsSplit(seconds);
    TimeFieldsParse(seconds);
    Text.Join(TimeFields(seconds), ' ')
  }

  /** Reads back a formatted duration, canonically: a number of seconds,
      optionally preceded by minutes, optionally preceded by hours, each
      number followed by its unit word. The leading number of the minute
      and hour forms is not zero, and minutes and seconds after the
      leading number are below 60, so every duration has one spelling. */
  function ParseTime(text: string): (r: Option<nat>)
  {
    ParseTimeFields(Text.Pieces(text, ' '))
  }

  /** `ParseTime` on the space-separated fields. */
  function ParseTimeFields(w: seq<string>): (r: Option<nat>)
  {
    if |w| == 2 && w[1] == "sec" && ParseDecimal(w[0]).Some? && ParseDecimal(w[0]).value < 60 then
      ParseDecimal(w[0])
    else if |w| == 4 && w[1] == "min" && w[3] == "sec"
         && ParseDecimal(w[0]).Some? && ParseDecimal(w[2]).Some?
         && 0 < ParseDecimal(w[0]).value < 60 && ParseDecimal(w[2]).value < 60 then
      Some(60 * ParseDecimal(w[0]).value + ParseDecimal(w[2]).value)
    else if |w| == 6 && w[1] == "hr" && w[3] == "min" && w[5] == "sec"
         && ParseDecimal(w[0]).Some? && ParseDecimal(w[2]).Some? && ParseDecimal(w[4]).Some?
         && 0 < ParseDecimal(w[0]).value && ParseDecimal(w[2]).value < 60 && ParseDecimal(w[4]).value < 60 then
      Some(3600 * ParseDecimal(w[0]).value + 60 * ParseDecimal(w[2]).value + ParseDecimal(w[4]).value)
    else None
  }

  /** Numbers with unit words, separated by spaces, come back apart. */
  lemma FieldsSplit(w: seq<string>)
    requires |w| >= 1
    requires forall i :: 0 <= i < |w| ==> ' ' !in w[i]
    ensures Text.Pieces(Text.Join(w, ' '), ' ') == w
  {
    Text.PiecesJoin(w, ' ');
  }

  /** Fields whose numbers read back read back as the duration they spell. */
  lemma ParseTimeFieldsOf(a: string, b: string, c: string, x: nat, y: nat, z: nat)
    requires ParseDecimal(a) == Some(x) && ParseDecimal(b) == Some(y) && ParseDecimal(c) == Some(z)
    requires y < 60 && z < 60
    ensures ParseTimeFields([c, "sec"]) == Some(z)
    ensures 0 < y ==> ParseTimeFields([b, "min", c, "sec"]) == Some(60 * y + z)
    ensures 0 < x ==> ParseTimeFields([a, "hr", b, "min", c, "sec"]) == Some(3600 * x + 60 * y + z)
  {
    var w2, w4, w6 := [c, "sec"], [b, "min", c, "sec"], [a, "hr", b, "min", c, "sec"];
    assert w2[0] == c && w2[1] == "sec";
    assert w4[0] == b && w4[1] == "min" && w4[2] == c && w4[3] == "sec";
    assert w6[0] == a && w6[1] == "hr" && w6[2] == b && w6[3] == "min" && w6[4] == c && w6[5] == "sec";
  }

  /** No field of a formatted duration holds a space. */
  lemma TimeFieldsSplit(seconds: nat)
    ensures Text.Pieces(Text.Join(TimeFields(seconds), ' '), ' ') == TimeFields(seconds)
  {
    DecimalHasNoSpace(seconds);
    DecimalHasNoSpace(seconds / 60);
    DecimalHasNoSpace(seconds / 3600);
    DecimalHasNoSpace(seconds % 3600 / 60);
    DecimalHasNoSpace(seconds % 60);
    FieldsSplit(TimeFields(seconds));
  }

  /** `x` divided by 60 is `q` remainder `r`, given one such split. */
  lemma DivMod60(x: nat, q: nat, r: nat)
    requires r < 60 && x == 60 * q + r
    ensures x / 60 == q && x % 60 == r
  {
  }

  /** Hours, minutes and seconds of a duration: the minute and second
      fields stay below 60 and the fields add up to the input again. */
  lemma HourSplit(seconds: nat)
    ensures seconds % 3600 / 60 < 60 && seconds % 60 < 60
    ensures 3600 * (seconds / 3600) + 60 * (seconds % 3600 / 60) + seconds % 60 == seconds
  {
    var h, rem := seconds / 3600, seconds % 3600;
    var m, s := rem / 60, rem % 60;
    assert rem == 60 * m + s;
    DivMod60(seconds, 60 * h + m, s);
  }

  /** Minutes and seconds of a duration under an hour. */
  lemma MinuteSplit(seconds: nat)
    requires seconds < 3600
    ensures seconds / 60 < 60 && seconds % 60 < 60
    ensures 60 * (seconds / 60) + seconds % 60 == seconds
  {
  }

  /** "S sec" reads back as S. */
  lemma SecondsFieldsParse(s: nat)
    requires s < 60
    ensures ParseTimeFields([Decimal(s), "sec"]) == Some(s)
  {
    DecimalRoundTrip(s);
    ParseTimeFieldsOf(Decimal(s), Decimal(s), Decimal(s), s, s, s);
  }

  /** "M min S sec" reads back as 60 M + S. */
  lemma MinutesFieldsParse(m: nat, s: nat)
    requires 0 < m < 60 && s < 60
    ensures ParseTimeFields([Decimal(m), "min", Decimal(s), "sec"]) == Some(60 * m + s)
  {
    DecimalRoundTrip(m);
    DecimalRoundTrip(s);
    ParseTimeFieldsOf(Decimal(m), Decimal(m), Decimal(s), m, m, s);
  }

  /** "H hr M min S sec" reads back as 3600 H + 60 M + S. */
  lemma HoursFieldsParse(h: nat, m: nat, s: nat)
    requires 0 < h && m < 60 && s < 60
    ensures ParseTimeFields([Decimal(h), "hr", Decimal(m), "min", Decimal(s), "sec"]) == Some(3600 * h + 60 * m + s)
  {
    DecimalRoundTrip(h);
    DecimalRoundTrip(m);
    DecimalRoundTrip(s);
    ParseTimeFieldsOf(Decimal(h), Decimal(m), Decimal(s), h, m, s);
  }

  /** The fields of any duration read back as it. */
  lemma TimeFieldsParse(seconds: nat)
    ensures ParseTimeFields(TimeFields(seconds)) == Some(seconds)
  {
    if seconds < 60 {
      SecondsFieldsParse(seconds);
    } else if seconds < 3600 {
      MinutesCase(seconds);
    } else {
      HoursCase(seconds);
    }
  }

  lemma MinutesCase(seconds: nat)
    requires 60 <= seconds < 3600
    ensures ParseTimeFields(TimeFields(seconds)) == Some(seconds)
  {
    MinuteSplit(seconds);
    MinutesFieldsParse(seconds / 60, seconds % 60);
  }

  lemma HoursCase(seconds: nat)
    requires 3600 <= seconds
    ensures ParseTimeFields(TimeFields(seconds)) == Some(seconds)
  {
    HourSplit(seconds);
    HoursFieldsParse(seconds / 3600, seconds % 3600 / 60, seconds % 60);
  }

  /** A digit string without a leading zero that starts with a non-zero
      digit denotes a positive number. */
  lemma {:induction false} DigitsPositive(s: string)
    requires s != [] && s[0] != '0' && forall i :: 0 <= i < |s| ==> IsDigit(s[i])
    ensures DigitsValue(s) >= 1
    decreases |s|
  {
    if |s| > 1 {
      DigitsPositive(s[..|s| - 1]);
    }
  }

  /** `%u` prints back every string `ParseDecimal` accepts: the digits are
      the canonical spelling of their value. */
  lemma {:induction false} DecimalOfDigits(s: string)
    requires s != [] && (|s| == 1 || s[0] != '0') && forall i :: 0 <= i < |s| ==> IsDigit(s[i])
    ensures Decimal(DigitsValue(s)) == s
    decreases |s|
  {
    var d := DigitValue(s[|s| - 1]);
    assert DigitChar(d) == s[|s| - 1];
    if |s| == 1 {
      assert DigitsValue(s) == d;
      assert s == [s[0]];
    } else {
      var p := s[..|s| - 1];
      DigitsPositive(p);
      DecimalOfDigits(p);
      var n := DigitsValue(s);
      assert n == DigitsValue(p) * 10 + d;
      assert n / 10 == DigitsValue(p) && n % 10 == d;
      assert s == p + [s[|s| - 1]];
    }
  }

  /** A parsed number prints back as the text it was read from. */
  lemma DecimalOfParse(s: string)
    requires ParseDecimal(s).Some?
    ensures Decimal(ParseDecimal(s).value) == s
  {
    DecimalOfDigits(s);
  }

  /** `x` divided by 3600 is `q` remainder `r`, given one such split. */
  lemma DivMod3600(x: nat, q: nat, r: nat)
    requires r < 3600 && x == 3600 * q + r
    ensures x / 3600 == q && x % 3600 == r
  {
  }

  /** Canonical fields are the fields of the duration they spell. */
  lemma TimeFieldsOfParse(w: seq<string>)
    requires ParseTimeFields(w).Some?
    ensures TimeFields(ParseTimeFields(w).value) == w
  {
    var n := ParseTimeFields(w).value;
    if |w| == 2 {
      DecimalOfParse(w[0]);
      assert w == [w[0], "sec"];
    } else if |w| == 4 {
      var m, sec := ParseDecimal(w[0]).value, ParseDecimal(w[2]).value;
      DivMod60(n, m, sec);
      DecimalOfParse(w[0]);
      DecimalOfParse(w[2]);
      assert w == [w[0], "min", w[2], "sec"];
    } else {
      var h, m, sec := ParseDecimal(w[0]).value, ParseDecimal(w[2]).value, ParseDecimal(w[4]).value;
      DivMod3600(n, h, 60 * m + sec);
      DivMod60(60 * m + sec, m, sec);
      DivMod60(n, 60 * h + m, sec);
      DecimalOfParse(w[0]);
      DecimalOfParse(w[2]);
      DecimalOfParse(w[4]);
      assert w == [w[0], "hr", w[2], "min", w[4], "sec"];
    }
  }

  /** Every text the canonical reading accepts, for a duration that fits
      a `guint`, is the formatted text of that duration. */
  lemma ParseTimeIsFormatted(text: string)
    requires ParseTime(text).Some? && ParseTime(text).value < 0x1_0000_0000
    ensures FormatTime(ParseTime(text).value as uint32) == text
  {
    TimeFieldsOfParse(Text.Pieces(text, ' '));
    Text.JoinPieces(text, ' ');
  }

  /** A text spells a duration exactly when it is that duration's
      formatted text: the format and the canonical reading are inverse. */
  lemma FormatTimeRoundTrip(seconds: uint32, text: string)
    ensures ParseTime(text) == Some(seconds as nat) <==> text == FormatTime(seconds)
  {
    if ParseTime(text) == Some(seconds as nat) {
      ParseTimeIsFormatted(text);
    }
  }

  /** Different durations never format alike. */
  lemma FormatTimeInjective(s: uint32, t: uint32)
    requires FormatTime(s) == FormatTime(t)
    ensures s == t
  {
  }

  /** The two digits of 59 and the single digits of 0 and 1. */
  lemma SmallDecimals()
    ensures Decimal(59) == "59" && Decimal(1) == "1" && Decimal(0) == "0"
  {
    assert Decimal(5) == "5";
  }

  /** One more field in front of a joined text is one more space. */
  lemma JoinCons(a: string, rest: seq<string>)
    requires rest != []
    ensures Text.Join([a] + rest, ' ') == a + " " + Text.Join(rest, ' ')
  {
    assert ([a] + rest)[1..] == rest;
  }

  /** Fields joined by spaces, for two, four and six fields. */
  lemma JoinFields(a: string, b: string, c: string, d: string, e: string, f: string)
    ensures Text.Join([a, b], ' ') == a + " " + b
    ensures Text.Join([a, b, c, d], ' ') == a + " " + b + " " + c + " " + d
    ensures Text.Join([a, b, c, d, e, f], ' ') == a + " " + b + " " + c + " " + d + " " + e + " " + f
  {
    JoinCons(a, [b]);
    assert [a] + [b] == [a, b];
    JoinCons(c, [d]);
    JoinCons(b, [c, d]);
    JoinCons(a, [b, c, d]);
    assert [c] + [d] == [c, d] && [b] + [c, d] == [b, c, d] && [a] + [b, c, d] == [a, b, c, d];
    JoinCons(e, [f]);
    JoinCons(d, [e, f]);
    JoinCons(c, [d, e, f]);
    JoinCons(b, [c, d, e, f]);
    JoinCons(a, [b, c, d, e, f]);
    assert [e] + [f] == [e, f] && [d] + [e, f] == [d, e, f] && [c] + [d, e, f] == [c, d, e, f];
    assert [b] + [c, d, e, f] == [b, c, d, e, f] && [a] + [b, c, d, e, f] == [a, b, c, d, e, f];
  }

  /** 59 seconds stay in the seconds tier. */
  lemma FormatTime59()
    ensures FormatTime(59) == "59 sec"
  {
    SmallDecimals();
    JoinFields("59", "sec", [], [], [], []);
  }

  /** 60 seconds are the first value of the minutes tier: "1 min 0 sec". */
  lemma FormatTime60()
    ensures FormatTime(60) == "1" + " " + "min" + " " + "0" + " " + "sec"
  {
    SmallDecimals();
    assert TimeFields(60) == ["1", "min", "0", "sec"];
    assert FormatTime(60) == Text.Join(["1", "min", "0", "sec"], ' ');
    JoinFields("1", "min", "0", "sec", [], []);
  }

  /** 3600 seconds are the first value of the hours tier, zero fields
      included: "1 hr 0 min 0 sec". */
  lemma FormatTime3600()
    ensures FormatTime(3600) == "1" + " " + "hr" + " " + "0" + " " + "min" + " " + "0" + " " + "sec"
  {
    SmallDecimals();
    assert TimeFields(3600) == ["1", "hr", "0", "min", "0", "sec"];
    assert FormatTime(3600) == Text.Join(["1", "hr", "0", "min", "0", "sec"], ' ');
    JoinFields("1", "hr", "0", "min", "0", "sec");
  }

  /** The URI `mate_ui_util_show_help` opens: "help:DOC/LINK" with a
      section, "help:DOC" without; no URI for a NULL document. */
  function HelpUri(docId: Option<string>, linkId: Option<string>): (r: Option<string>)
    ensures r.Some? <==> docId.Some?
    ensures r.Some? ==> r.value == "help:" + docId.value + (if linkId.Some? then "/" + linkId.value else "")
  {
    if docId.None? then None
    else if linkId.Some? then Some("help:" + docId.value + "/" + linkId.value)
    else Some("help:" + docId.value)
  }

  /** Reads a help URI back into document and section: the section is
      whatever follows the first '/'. */
  function ParseHelpUri(uri: string): (r: Option<(string, Option<string>)>)
  {
    if |uri| < 5 || uri[..5] != "help:" then None
    else
      var split := Text.SplitOnce(uri[5..], '/');
      if split.0 then Some((split.1, Some(split.2))) else Some((uri[5..], None))
  }

  /** A document id without '/' is recovered from its URI together with
      the section, so distinct (document, section) pairs open distinct URIs. */
  lemma HelpUriRoundTrip(docId: string, linkId: Option<string>)
    requires '/' !in docId
    ensures ParseHelpUri(HelpUri(Some(docId), linkId).value) == Some((docId, linkId))
  {
    var uri := HelpUri(Some(docId), linkId).value;
    var prefix := "help:";
    if linkId.Some? {
      assert uri == prefix + (docId + ['/'] + linkId.value);
      assert uri[5..] == docId + ['/'] + linkId.value;
      Text.SplitOnceAt(docId, '/', linkId.value);
    } else {
      assert uri == prefix + docId;
      assert uri[5..] == docId;
    }
  }

  /** `mate_ui_util_show_help`: FALSE for a NULL document, else whatever
      opening the URI reports (`uriShown`). */
  function ShowHelp(docId: Option<string>, linkId: Option<string>, uriShown: bool): (r: bool)
    ensures r ==> docId.Some?
    ensures docId.Some? ==> r == uriShown
  {
    HelpUri(docId, linkId).Some? && uriShown
  }
}
