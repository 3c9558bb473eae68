/** Reading a port range written as "<min>-<max>", as arv_set_gv_port_range_from_string
    does: the regular expression ^([\d]+)-([\d]+)$ compiled by g_regex_new with no
    flags, g_ascii_strtoull on each captured group, and the assignment of the result
    to a guint16.

    Two GRegex defaults shape the language. With no newline flag, GRegex selects
    PCRE's "any" newline convention, so `$` also matches before one newline sequence
    that ends the subject: "\r\n", "\n", "\r", VT, FF, NEL, LS or PS. GRegex also
    turns on Unicode properties, so `\d` matches every character of the Unicode
    category Nd (decimal digit), not only '0' to '9'. Which characters those are
    depends on the Unicode tables of the PCRE build, so the model takes them as a
    parameter `isDecimal`, constrained by DigitClass. */
module RangeString {
  import opened NetTypes

  /** G_MAXUINT64, what g_ascii_strtoull returns for a number that does not fit. */
  const G_MAXUINT64: nat := 0xffff_ffff_ffff_ffff

  /** An ASCII decimal digit, the only digits g_ascii_strtoull reads. */
  predicate IsDigit(c: char) { '0' <= c <= '9' }

  /** The single characters that are newlines under the "any" convention. */
  predicate IsNewlineChar(c: char)
  {
    c == '\n' || c == '\r' || c == '\U{0B}' || c == '\U{0C}'
    || c == '\U{85}' || c == '\U{2028}' || c == '\U{2029}'
  }

  /** The whitespace g_ascii_strtoull skips before the number. */
  predicate IsAsciiSpace(c: char)
  {
    c == ' ' || c == '\t' || c == '\n' || c == '\r' || c == '\U{0B}' || c == '\U{0C}'
  }

  /** What any Unicode Nd table satisfies: the ASCII digits are in it, and no newline,
      no ASCII whitespace, no sign and no '-' is. */
  predicate DigitClass(isDecimal: char -> bool)
  {
    (forall c :: IsDigit(c) ==> isDecimal(c))
    && (forall c :: isDecimal(c) ==> !IsNewlineChar(c) && !IsAsciiSpace(c) && c != '+' && c != '-')
  }

  /** What `[\d]+` matches: one or more characters of the class. */
  predicate IsDigitRun(isDecimal: char -> bool, s: string)
  {
    |s| > 0 && forall k :: 0 <= k < |s| ==> isDecimal(s[k])
  }

  /** What may follow the last group for `$` to match: nothing, or one newline sequence. */
  predicate IsFinalNewline(nl: string)
  {
    nl == "" || nl == "\r\n" || (|nl| == 1 && IsNewlineChar(nl[0]))
  }

  /** The subject without the newline sequence that ends it, if any: `$` matches at
      the end of the subject and just before such a sequence. */
  function StripFinalNewline(s: string): (t: string)
    ensures t <= s && IsFinalNewline(s[|t|..])
    ensures (|s| == 0 || !IsNewlineChar(s[|s| - 1])) ==> t == s
    ensures |s| > 0 && IsNewlineChar(s[|s| - 1]) ==> t < s
    ensures |s| >= 2 && s[|s| - 2..] == "\r\n" ==> |t| == |s| - 2
  {
    if |s| >= 2 && s[|s| - 2..] == "\r\n" then s[..|s| - 2]
    else if |s| > 0 && IsNewlineChar(s[|s| - 1]) then s[..|s| - 1]
    else s
  }

  /** The position of the first '-' in `s`, or |s| when there is none. */
  function DashIndex(s: string): (k: nat)
    ensures k <= |s|
    ensures k < |s| ==> s[k] == '-'
    ensures forall j :: 0 <= j < k ==> s[j] != '-'
  {
    if s == [] then 0
    else if s[0] == '-' then 0
    else 1 + DashIndex(s[1..])
  }

  /** The two groups captured by ^([\d]+)-([\d]+)$, or None when it does not match. */
  function MatchRange(s: string, isDecimal: char -> bool): (m: Option<(string, string)>)
    requires DigitClass(isDecimal)
    ensures m.Some? ==> IsDigitRun(isDecimal, m.value.0) && IsDigitRun(isDecimal, m.value.1)
    ensures m.Some? ==> exists nl :: IsFinalNewline(nl) && s == m.value.0 + "-" + m.value.1 + nl
  {
    var body := StripFinalNewline(s);
    var k := DashIndex(body);
    if k < |body| && IsDigitRun(isDecimal, body[..k]) && IsDigitRun(isDecimal, body[k + 1..]) then
      assert s == body[..k] + "-" + body[k + 1..] + s[|body|..];
      Some((body[..k], body[k + 1..]))
    else
      None
  }

  /** Every string of the accepted shape matches, with the groups it was made of. */
  lemma MatchRangeComplete(a: string, b: string, nl: string, isDecimal: char -> bool)
    requires DigitClass(isDecimal)
    requires IsDigitRun(isDecimal, a) && IsDigitRun(isDecimal, b) && IsFinalNewline(nl)
    ensures MatchRange(a + "-" + b + nl, isDecimal) == Some((a, b))
  {
    var s := a + "-" + b + nl;
    var body := StripFinalNewline(s);
    var core := a + "-" + b;
    assert isDecimal(b[|b| - 1]) && core[|core| - 1] == b[|b| - 1];
    if nl == "\r\n" {
      assert s[|s| - 2..] == "\r\n" && s[..|s| - 2] == core;
    } else if nl != "" {
      assert s[|s| - 2] == core[|core| - 1];
      assert s[|s| - 1] == nl[0] && s[..|s| - 1] == core;
    } else {
      assert s == core;
    }
    assert body == core;
    forall j | 0 <= j < |a| ensures body[j] != '-' {
      assert isDecimal(a[j]);
    }
    assert body[|a|] == '-';
    assert DashIndex(body) == |a|;
    assert body[..|a|] == a;
    assert body[|a| + 1..] == b;
  }

  function DigitValue(c: char): nat
    requires IsDigit(c)
  {
    (c as int) - ('0' as int)
  }

  function DigitChar(d: nat): (c: char)
    requires d < 10
    ensures IsDigit(c) && DigitValue(c) == d
  {
    ('0' as int + d) as char
  }

  /** The number a run of ASCII decimal digits denotes. */
  function DecimalValue(s: string): nat
    requires forall k :: 0 <= k < |s| ==> IsDigit(s[k])
  {
    if s == [] then 0 else DecimalValue(s[..|s| - 1]) * 10 + DigitValue(s[|s| - 1])
  }

  /** The decimal notation of n, as "%u" prints it. */
  function Decimal(n: nat): (s: string)
    ensures |s| > 0 && forall k :: 0 <= k < |s| ==> IsDigit(s[k])
  {
    if n < 10 then [DigitChar(n)] else Decimal(n / 10) + [DigitChar(n % 10)]
  }

  lemma {:induction false} DecimalRoundTrip(n: nat)
    ensures DecimalValue(Decimal(n)) == n
  {
    if n >= 10 {
      var s := Decimal(n);
      assert s[..|s| - 1] == Decimal(n / 10);
      DecimalRoundTrip(n / 10);
    }
  }

  /** The ASCII digits g_ascii_strtoull consumes: the longest prefix of `s` made of them. */
  function LeadingDigits(s: string): (d: string)
    ensures d <= s
    ensures forall k :: 0 <= k < |d| ==> IsDigit(d[k])
    ensures |d| < |s| ==> !IsDigit(s[|d|])
  {
    if s == [] || !IsDigit(s[0]) then [] else [s[0]] + LeadingDigits(s[1..])
  }

  /** g_ascii_strtoull (s, NULL, 10) on a string that starts with neither whitespace
      nor a sign: the value of the leading ASCII digits, 0 when there are none,
      saturated at G_MAXUINT64 when it does not fit. */
  function StrToUll(s: string): (v: nat)
    requires s == [] || (!IsAsciiSpace(s[0]) && s[0] != '+' && s[0] != '-')
    ensures v <= G_MAXUINT64
    ensures DecimalValue(LeadingDigits(s)) <= G_MAXUINT64 ==> v == DecimalValue(LeadingDigits(s))
    ensures DecimalValue(LeadingDigits(s)) > G_MAXUINT64 ==> v == G_MAXUINT64
  {
    var n := DecimalValue(LeadingDigits(s));
    if n > G_MAXUINT64 then G_MAXUINT64 else n
  }

  /** A string of ASCII digits is read whole. */
  lemma {:induction false} LeadingDigitsOfDigits(s: string)
    requires forall k :: 0 <= k < |s| ==> IsDigit(s[k])
    ensures LeadingDigits(s) == s
  {
    if s != [] {
      LeadingDigitsOfDigits(s[1..]);
    }
  }

  /** A string that does not start with an ASCII digit reads as 0. */
  lemma NoLeadingDigitReadsZero(s: string)
    requires s == [] || (!IsDigit(s[0]) && !IsAsciiSpace(s[0]) && s[0] != '+' && s[0] != '-')
    ensures StrToUll(s) == 0
  {
  }

  /** Storing an integer into a guint16 keeps its low 16 bits: the stored value differs
      from the integer by a multiple of 2^16. */
  function TruncateU16(v: nat): (r: u16)
    ensures (v - r) % 0x1_0000 == 0
    ensures v < 0x1_0000 ==> r == v
  {
    v % 0x1_0000
  }

  /** The pair of guint16 values arv_set_gv_port_range_from_string obtains from its
      argument, or None when the argument is NULL or does not match. */
  function ParseRange(range: Option<string>, isDecimal: char -> bool): (r: Option<(u16, u16)>)
    requires DigitClass(isDecimal)
    ensures r.Some? <==> range.Some? && MatchRange(range.value, isDecimal).Some?
  {
    if range.None? then None
    else
      match MatchRange(range.value, isDecimal)
      case None => None
      case Some((lo, hi)) => Some((TruncateU16(StrToUll(lo)), TruncateU16(StrToUll(hi))))
  }

  /** A string of the accepted shape reads as its two groups, each converted by
      g_ascii_strtoull and truncated to 16 bits. */
  lemma ParseRangeOfGroups(a: string, b: string, nl: string, isDecimal: char -> bool)
    requires DigitClass(isDecimal)
    requires IsDigitRun(isDecimal, a) && IsDigitRun(isDecimal, b) && IsFinalNewline(nl)
    ensures !IsAsciiSpace(a[0]) && a[0] != '+' && a[0] != '-'
    ensures !IsAsciiSpace(b[0]) && b[0] != '+' && b[0] != '-'
    ensures ParseRange(Some(a + "-" + b + nl), isDecimal)
            == Some((TruncateU16(StrToUll(a)), TruncateU16(StrToUll(b))))
  {
    MatchRangeComplete(a, b, nl, isDecimal);
    assert isDecimal(a[0]) && isDecimal(b[0]);
  }

  /** A string with no '-' in it is never a range. */
  lemma ParseRangeNeedsDash(s: string, isDecimal: char -> bool)
    requires DigitClass(isDecimal)
    requires forall k :: 0 <= k < |s| ==> s[k] != '-'
    ensures ParseRange(Some(s), isDecimal) == None
  {
  }

  /** "<a>-<b>" written in decimal, with or without a final newline sequence, reads
      back as a and b, each saturated to 64 bits and then truncated to 16 bits. */
  lemma {:induction false} ParseRangeOfDecimals(a: nat, b: nat, nl: string, isDecimal: char -> bool)
    requires DigitClass(isDecimal) && IsFinalNewline(nl)
    ensures ParseRange(Some(Decimal(a) + "-" + Decimal(b) + nl), isDecimal)
            == Some((TruncateU16(if a > G_MAXUINT64 then G_MAXUINT64 else a),
                     TruncateU16(if b > G_MAXUINT64 then G_MAXUINT64 else b)))
  {
    MatchRangeComplete(Decimal(a), Decimal(b), nl, isDecimal);
    LeadingDigitsOfDigits(Decimal(a));
    LeadingDigitsOfDigits(Decimal(b));
    DecimalRoundTrip(a);
    DecimalRoundTrip(b);
  }

  /** Round trip: a pair of guint16 printed as "%u-%u" is read back unchanged. */
  lemma RangeRoundTrip(lo: u16, hi: u16, isDecimal: char -> bool)
    requires DigitClass(isDecimal)
    ensures ParseRange(Some(Decimal(lo) + "-" + Decimal(hi)), isDecimal) == Some((lo, hi))
  {
    ParseRangeOfDecimals(lo, hi, "", isDecimal);
    assert Decimal(lo) + "-" + Decimal(hi) + "" == Decimal(lo) + "-" + Decimal(hi);
  }

  /** "0-0", the string that switches the restriction off, reads as (0, 0). */
  lemma DisablingRangeParses(isDecimal: char -> bool)
    requires DigitClass(isDecimal)
    ensures ParseRange(Some("0-0"), isDecimal) == Some((0, 0))
  {
    RangeRoundTrip(0, 0, isDecimal);
    assert Decimal(0) + "-" + Decimal(0) == "0-0";
  }

  /** A range ended by a Windows line ending is accepted: `$` matches before "\r\n",
      so "100-200\r\n" reads as (100, 200). The two groups are parameters fixed by
      the precondition: with the whole string written as a literal, the verifier
      unfolds ParseRange on it without bound and runs out of resources. */
  lemma CrLfRangeParses(lo: string, hi: string, isDecimal: char -> bool)
    requires DigitClass(isDecimal) && lo == "100" && hi == "200"
    ensures ParseRange(Some(lo + "-" + hi + "\r\n"), isDecimal) == Some((100, 200))
  {
    ParseRangeOfGroups(lo, hi, "\r\n", isDecimal);
    Reads100(lo);
    Reads200(hi);
  }

  /** Each bound is truncated to 16 bits before the bounds are compared: "65537-2"
      reads as (1, 2), an ordered pair. The groups are parameters for the same reason. */
  lemma TruncationBeforeOrder(lo: string, hi: string, isDecimal: char -> bool)
    requires DigitClass(isDecimal) && lo == "65537" && hi == "2"
    ensures ParseRange(Some(lo + "-" + hi), isDecimal) == Some((1, 2))
  {
    assert lo + "-" + hi + "" == lo + "-" + hi;
    ParseRangeOfGroups(lo, hi, "", isDecimal);
    Reads65537(lo);
    LeadingDigitsOfDigits(hi);
    assert hi[..0] == [] && DecimalValue(hi) == 2;
    assert TruncateU16(65537) == 1;
  }

  // The values of the groups above, digit by digit, each in a lemma of its own so
  // that every evaluation of DecimalValue stays small.

  lemma Reads100(t: string)
    requires t == "100"
    ensures StrToUll(t) == 100
  {
    LeadingDigitsOfDigits(t);
    assert t[..2][..1][..0] == [];
    assert DecimalValue(t[..2][..1]) == 1 && DecimalValue(t[..2]) == 10;
  }

  lemma Reads200(t: string)
    requires t == "200"
    ensures StrToUll(t) == 200
  {
    LeadingDigitsOfDigits(t);
    assert t[..2][..1][..0] == [];
    assert DecimalValue(t[..2][..1]) == 2 && DecimalValue(t[..2]) == 20;
  }

  lemma Reads65537(t: string)
    requires t == "65537"
    ensures StrToUll(t) == 65537
  {
    LeadingDigitsOfDigits(t);
    assert DecimalValue(t[..1]) == 6;
    assert t[..2][..1] == t[..1];
    assert DecimalValue(t[..2]) == 65;
    assert t[..3][..2] == t[..2];
    assert DecimalValue(t[..3]) == 655;
    assert t[..4][..3] == t[..3];
    assert DecimalValue(t[..4]) == 6553;
    assert t[..5][..4] == t[..4];
  }

  /** Groups of digits outside ASCII match `\d` but g_ascii_strtoull reads nothing
      of them: both bounds read as 0. */
  lemma NonAsciiDigitsReadAsZero(a: string, b: string, isDecimal: char -> bool)
    requires DigitClass(isDecimal)
    requires IsDigitRun(isDecimal, a) && IsDigitRun(isDecimal, b)
    requires !IsDigit(a[0]) && !IsDigit(b[0])
    ensures ParseRange(Some(a + "-" + b), isDecimal) == Some((0, 0))
  {
    MatchRangeComplete(a, b, "", isDecimal);
    assert a + "-" + b + "" == a + "-" + b;
    assert isDecimal(a[0]) && isDecimal(b[0]);
  }

  /** Fullwidth digits one and two (U+FF11, U+FF12), which are in category Nd: the
      range "１-２" reads as (0, 0). */
  lemma FullwidthRangeReadsAsDisabled(isDecimal: char -> bool)
    requires DigitClass(isDecimal)
    requires isDecimal('\U{FF11}') && isDecimal('\U{FF12}')
    ensures ParseRange(Some("\U{FF11}-\U{FF12}"), isDecimal) == Some((0, 0))
  {
    NonAsciiDigitsReadAsZero("\U{FF11}", "\U{FF12}", isDecimal);
    assert "\U{FF11}" + "-" + "\U{FF12}" == "\U{FF11}-\U{FF12}";
  }
}
