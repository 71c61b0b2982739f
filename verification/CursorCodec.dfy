/** The opaque pagination cursor of ingestor/crud.py: an id and a timestamp printed as compact
    JSON with an ISO 8601 text inside, in base64 (section 4 of RFC 4648), and parsed back.

    The parsers accept the texts that the printers produce; the wider inputs that Python's
    own libraries tolerate are not part of this model. */
module CursorCodec {
  import opened Options

  // ------------------------------------------------------------- digits

  predicate IsDigit(c: char) {
    '0' <= c <= '9'
  }

  function DigitChar(d: nat): (c: char)
    requires d < 10
    ensures IsDigit(c)
  {
    '0' + d as char
  }

  function DigitValue(c: char): nat
    requires IsDigit(c)
  {
    (c - '0') as int
  }

  predicate AllDigits(s: string) {
    forall i | 0 <= i < |s| :: IsDigit(s[i])
  }

  /** The number that a string of decimal digits denotes. */
  function NatValue(s: string): nat
    requires AllDigits(s)
  {
    if s == "" then 0 else 10 * NatValue(s[..|s| - 1]) + DigitValue(s[|s| - 1])
  }

  function Pow10(w: nat): nat {
    if w == 0 then 1 else 10 * Pow10(w - 1)
  }

  /** The last w decimal digits of n, zero-padded. */
  function Pad(n: nat, w: nat): (s: string)
    ensures |s| == w && AllDigits(s)
  {
    if w == 0 then "" else Pad(n / 10, w - 1) + [DigitChar(n % 10)]
  }

  lemma {:induction false} PadValue(n: nat, w: nat)
    requires n < Pow10(w)
    ensures NatValue(Pad(n, w)) == n
    decreases w
  {
    if w > 0 {
      PadValue(n / 10, w - 1);
      assert Pad(n, w)[..w - 1] == Pad(n / 10, w - 1);
    }
  }

  function Decimal(n: nat): (s: string)
    ensures s != "" && AllDigits(s)
  {
    if n < 10 then [DigitChar(n)] else Decimal(n / 10) + [DigitChar(n % 10)]
  }

  lemma {:induction false} DecimalValue(n: nat)
    ensures NatValue(Decimal(n)) == n
    ensures Decimal(n)[0] == '0' <==> n == 0
    ensures |Decimal(n)| > 1 ==> n >= 10
    decreases n
  {
    if n < 10 {
      assert Decimal(n)[..0] == "";
    } else {
      DecimalValue(n / 10);
      var s := Decimal(n);
      assert s[..|s| - 1] == Decimal(n / 10);
    }
  }

  function Integer(n: int): string {
    if n < 0 then "-" + Decimal(-n) else Decimal(n)
  }

  /** Splits off the longest prefix of digits. */
  function DigitPrefix(s: string): nat
    ensures DigitPrefix(s) <= |s|
    ensures AllDigits(s[..DigitPrefix(s)])
    ensures DigitPrefix(s) < |s| ==> !IsDigit(s[DigitPrefix(s)])
  {
    if s != "" && IsDigit(s[0]) then
      assert s[..1 + DigitPrefix(s[1..])] == [s[0]] + s[1..][..DigitPrefix(s[1..])];
      1 + DigitPrefix(s[1..])
    else 0
  }

  datatype Parsed<+T> = Parsed(value: T, rest: string)

  /** Digits without a leading zero. */
  function ParseNatural(s: string): Option<Parsed<nat>> {
    var n := DigitPrefix(s);
    if n == 0 || (n > 1 && s[0] == '0') then None else Some(Parsed(NatValue(s[..n]), s[n..]))
  }

  /** A JSON integer: an optional minus sign and a natural number. */
  function ParseInteger(s: string): Option<Parsed<int>> {
    if s != "" && s[0] == '-' then
      var p :- ParseNatural(s[1..]);
      Some(Parsed(-(p.value as int), p.rest))
    else
      var p :- ParseNatural(s);
      Some(Parsed(p.value, p.rest))
  }

  lemma {:induction false} DigitPrefixOf(digits: string, rest: string)
    requires AllDigits(digits) && (rest != "" ==> !IsDigit(rest[0]))
    ensures DigitPrefix(digits + rest) == |digits|
    decreases |digits|
  {
    if digits != "" {
      assert (digits + rest)[1..] == digits[1..] + rest;
      DigitPrefixOf(digits[1..], rest);
    } else {
      assert digits + rest == rest;
    }
  }

  lemma NaturalRoundTrip(n: nat, rest: string)
    requires rest != "" ==> !IsDigit(rest[0])
    ensures ParseNatural(Decimal(n) + rest) == Some(Parsed(n, rest))
    ensures IsDigit((Decimal(n) + rest)[0])
  {
    var digits := Decimal(n);
    DecimalValue(n);
    DigitPrefixOf(digits, rest);
    assert (digits + rest)[..|digits|] == digits && (digits + rest)[|digits|..] == rest;
  }

  lemma Negated(t: string)
    requires ParseNatural(t).Some?
    ensures ParseInteger(['-'] + t) == Some(Parsed(-(ParseNatural(t).value.value as int), ParseNatural(t).value.rest))
  {
    assert (['-'] + t)[1..] == t;
  }

  lemma IntegerRoundTrip(n: int, rest: string)
    requires rest != "" ==> !IsDigit(rest[0])
    ensures ParseInteger(Integer(n) + rest) == Some(Parsed(n, rest))
  {
    if n < 0 {
      var t := Decimal(-n) + rest;
      NaturalRoundTrip(-n, rest);
      assert Integer(n) + rest == ['-'] + t;
      Negated(t);
    } else {
      NaturalRoundTrip(n, rest);
    }
  }

  // ------------------------------------------------------------- timestamps

  /** A naive datetime. */
  datatype DateTime = DateTime(year: nat, month: nat, day: nat, hour: nat, minute: nat, second: nat, microsecond: nat)
  {
    predicate Valid() {
      && 1 <= year <= 9999 && 1 <= month <= 12 && 1 <= day <= DaysIn(year, month)
      && hour < 24 && minute < 60 && second < 60 && microsecond < 1_000_000
    }

    /** Microseconds are left out when they are zero. */
    function IsoFormat(): string {
      Pad(year, 4) + ("-" + (Pad(month, 2) + ("-" + (Pad(day, 2) + ("T" + Clock())))))
    }

    function Clock(): string {
      Pad(hour, 2) + (":" + (Pad(minute, 2) + (":" + (Pad(second, 2) + ("" + Fraction())))))
    }

    function Fraction(): string {
      if microsecond == 0 then "" else "." + Pad(microsecond, 6)
    }

    /** A number that orders timestamps as the database does. */
    function Rank(): nat {
      (((((year * 13 + month) * 32 + day) * 24 + hour) * 60 + minute) * 60 + second) * 1_000_000 + microsecond
    }
  }

  function DaysIn(year: nat, month: nat): nat {
    if month == 2 then if year % 4 == 0 && (year % 100 != 0 || year % 400 == 0) then 29 else 28
    else if month in {4, 6, 9, 11} then 30 else 31
  }

  /** Field by field, most significant first. */
  predicate Leap(year: nat) {
    year % 4 == 0 && (year % 100 != 0 || year % 400 == 0)
  }

  /** The Gregorian calendar: February has 29 days in leap years and 28 in others, April, June,
      September and November have 30, and every other month has 31. */
  lemma Calendar(year: nat, month: nat)
    requires 1 <= month <= 12
    ensures month == 2 ==> DaysIn(year, month) == if Leap(year) then 29 else 28
    ensures month in {4, 6, 9, 11} ==> DaysIn(year, month) == 30
    ensures month in {1, 3, 5, 7, 8, 10, 12} ==> DaysIn(year, month) == 31
  {
  }

  function DaysUpTo(year: nat, month: nat): nat {
    if month == 0 then 0 else DaysUpTo(year, month - 1) + DaysIn(year, month)
  }

  lemma DaysOfYear(year: nat)
    ensures DaysUpTo(year, 12) == if Leap(year) then 366 else 365
  {
    assert DaysUpTo(year, 1) == 31;
    assert DaysUpTo(year, 2) == 31 + DaysIn(year, 2);
    assert DaysUpTo(year, 4) == DaysUpTo(year, 2) + 31 + 30;
    assert DaysUpTo(year, 6) == DaysUpTo(year, 4) + 31 + 30;
    assert DaysUpTo(year, 8) == DaysUpTo(year, 6) + 31 + 31;
    assert DaysUpTo(year, 10) == DaysUpTo(year, 8) + 30 + 31;
    assert DaysUpTo(year, 12) == DaysUpTo(year, 10) + 30 + 31;
  }

  /** Every day of the years 1 to 9999 and every time of day down to the microsecond is valid. */
  lemma ValidMeans(t: DateTime)
    ensures t.Valid() <==>
            && 1 <= t.year <= 9999 && 1 <= t.month <= 12 && 1 <= t.day <= DaysIn(t.year, t.month)
            && t.hour <= 23 && t.minute <= 59 && t.second <= 59 && t.microsecond <= 999_999
  {
  }

  predicate Earlier(a: DateTime, b: DateTime) {
    if a.year != b.year then a.year < b.year
    else if a.month != b.month then a.month < b.month
    else if a.day != b.day then a.day < b.day
    else if a.hour != b.hour then a.hour < b.hour
    else if a.minute != b.minute then a.minute < b.minute
    else if a.second != b.second then a.second < b.second
    else a.microsecond < b.microsecond
  }

  lemma RankIsChronological(a: DateTime, b: DateTime)
    requires a.Valid() && b.Valid()
    ensures a.Rank() < b.Rank() <==> Earlier(a, b)
    ensures a.Rank() == b.Rank() <==> a == b
  {
  }

  /** Reads exactly w digits and the separator after them. */
  function Take(s: string, w: nat, separator: string): Option<Parsed<nat>> {
    if |s| < w + |separator| || !AllDigits(s[..w]) || s[w..w + |separator|] != separator then None
    else Some(Parsed(NatValue(s[..w]), s[w + |separator|..]))
  }

  function ParseFraction(s: string): Option<nat> {
    if s == "" then Some(0)
    else if |s| == 7 && s[0] == '.' && AllDigits(s[1..]) then Some(NatValue(s[1..]))
    else None
  }

  function ParseIso(s: string): Option<DateTime> {
    var year :- Take(s, 4, "-");
    var month :- Take(year.rest, 2, "-");
    var day :- Take(month.rest, 2, "T");
    var hour :- Take(day.rest, 2, ":");
    var minute :- Take(hour.rest, 2, ":");
    var second :- Take(minute.rest, 2, "");
    var microsecond :- ParseFraction(second.rest);
    var t := DateTime(year.value, month.value, day.value, hour.value, minute.value, second.value, microsecond);
    if t.Valid() then Some(t) else None
  }

  lemma TakePadded(n: nat, w: nat, separator: string, rest: string)
    requires n < Pow10(w)
    ensures Take(Pad(n, w) + (separator + rest), w, separator) == Some(Parsed(n, rest))
  {
    PadValue(n, w);
    var s := Pad(n, w) + (separator + rest);
    assert s[..w] == Pad(n, w) && s[w..w + |separator|] == separator && s[w + |separator|..] == rest;
  }

  lemma FractionRoundTrip(t: DateTime)
    requires t.Valid()
    ensures ParseFraction(t.Fraction()) == Some(t.microsecond)
  {
    if t.microsecond != 0 {
      assert Pow10(6) == 1_000_000;
      PadValue(t.microsecond, 6);
      assert t.Fraction()[1..] == Pad(t.microsecond, 6);
    }
  }

  lemma IsoRoundTrip(t: DateTime)
    requires t.Valid()
    ensures ParseIso(t.IsoFormat()) == Some(t)
  {
    assert Pow10(2) == 100 && Pow10(4) == 10_000;
    var afterHour := Pad(t.minute, 2) + (":" + (Pad(t.second, 2) + ("" + t.Fraction())));
    var afterYear := Pad(t.month, 2) + ("-" + (Pad(t.day, 2) + ("T" + t.Clock())));
    TakePadded(t.year, 4, "-", afterYear);
    TakePadded(t.month, 2, "-", Pad(t.day, 2) + ("T" + t.Clock()));
    TakePadded(t.day, 2, "T", t.Clock());
    TakePadded(t.hour, 2, ":", afterHour);
    TakePadded(t.minute, 2, ":", Pad(t.second, 2) + ("" + t.Fraction()));
    TakePadded(t.second, 2, "", t.Fraction());
    FractionRoundTrip(t);
  }

  /** The number at a place of a text. */
  ghost predicate Reads(s: string, from: nat, to: nat, n: nat) {
    from <= to <= |s| && AllDigits(s[from..to]) && NatValue(s[from..to]) == n
  }

  /** A padded number, and what follows it. */
  lemma PartOf(s: string, from: nat, n: nat, w: nat, rest: string)
    requires from <= |s| && s[from..] == Pad(n, w) + rest && n < Pow10(w)
    ensures from + w <= |s| && s[from + w..] == rest
    ensures Reads(s, from, from + w, n)
  {
    PadValue(n, w);
    assert s[from..from + w] == s[from..][..w] == Pad(n, w);
    assert s[from + w..] == s[from..][w..];
  }

  lemma CharOf(s: string, from: nat, c: char, rest: string)
    requires from <= |s| && s[from..] == [c] + rest
    ensures from < |s| && s[from] == c && s[from + 1..] == rest
  {
    assert s[from] == s[from..][0];
    assert s[from + 1..] == s[from..][1..];
  }

  /** What the text of a timestamp looks like: YYYY-MM-DDTHH:MM:SS, followed by a point and six
      digits unless the microseconds are zero. */
  lemma IsoText(t: DateTime)
    requires t.Valid()
    ensures var s := t.IsoFormat();
            && |s| == (if t.microsecond == 0 then 19 else 26)
            && Reads(s, 0, 4, t.year) && Reads(s, 5, 7, t.month) && Reads(s, 8, 10, t.day)
            && Reads(s, 11, 13, t.hour) && Reads(s, 14, 16, t.minute) && Reads(s, 17, 19, t.second)
            && s[4] == s[7] == '-' && s[10] == 'T' && s[13] == s[16] == ':'
            && (t.microsecond != 0 ==> s[19] == '.' && Reads(s, 20, 26, t.microsecond))
  {
    var s := t.IsoFormat();
    DateText(t, s);
    ClockText(t, s);
    FractionText(t, s);
  }

  lemma FractionText(t: DateTime, s: string)
    requires t.Valid() && |s| >= 19 && s[19..] == t.Fraction()
    ensures |s| == if t.microsecond == 0 then 19 else 26
    ensures t.microsecond != 0 ==> s[19] == '.' && Reads(s, 20, 26, t.microsecond)
  {
    assert |s| == 19 + |t.Fraction()|;
    if t.microsecond != 0 {
      assert Pow10(6) == 1_000_000;
      CharOf(s, 19, '.', Pad(t.microsecond, 6));
      assert s[20..] == Pad(t.microsecond, 6) + "";
      PartOf(s, 20, t.microsecond, 6, "");
    }
  }

  lemma DateText(t: DateTime, s: string)
    requires t.Valid() && s == t.IsoFormat()
    ensures |s| >= 11 && Reads(s, 0, 4, t.year) && Reads(s, 5, 7, t.month) && Reads(s, 8, 10, t.day)
    ensures s[4] == s[7] == '-' && s[10] == 'T' && s[11..] == t.Clock()
  {
    assert Pow10(2) == 100 && Pow10(4) == 10_000;
    var afterMonth := "-" + (Pad(t.day, 2) + ("T" + t.Clock()));
    var afterYear := "-" + (Pad(t.month, 2) + afterMonth);
    assert s[0..] == Pad(t.year, 4) + afterYear;
    PartOf(s, 0, t.year, 4, afterYear);
    CharOf(s, 4, '-', Pad(t.month, 2) + afterMonth);
    PartOf(s, 5, t.month, 2, afterMonth);
    CharOf(s, 7, '-', Pad(t.day, 2) + ("T" + t.Clock()));
    PartOf(s, 8, t.day, 2, "T" + t.Clock());
    CharOf(s, 10, 'T', t.Clock());
  }

  lemma ClockText(t: DateTime, s: string)
    requires t.Valid() && |s| >= 11 && s[11..] == t.Clock()
    ensures |s| >= 19 && Reads(s, 11, 13, t.hour) && Reads(s, 14, 16, t.minute) && Reads(s, 17, 19, t.second)
    ensures s[13] == s[16] == ':' && s[19..] == t.Fraction()
  {
    assert Pow10(2) == 100;
    var afterMinute := ":" + (Pad(t.second, 2) + ("" + t.Fraction()));
    var afterHour := ":" + (Pad(t.minute, 2) + afterMinute);
    PartOf(s, 11, t.hour, 2, afterHour);
    CharOf(s, 13, ':', Pad(t.minute, 2) + afterMinute);
    PartOf(s, 14, t.minute, 2, afterMinute);
    CharOf(s, 16, ':', Pad(t.second, 2) + ("" + t.Fraction()));
    PartOf(s, 17, t.second, 2, "" + t.Fraction());
    assert "" + t.Fraction() == t.Fraction();
  }

  // ------------------------------------------------------------- compact JSON

  const ID_FIELD := "{\"id\":"
  const TIMESTAMP_FIELD := ",\"timestamp\":"

  function TimestampJson(timestamp: Option<DateTime>): string {
    if timestamp.Some? then "\"" + timestamp.value.IsoFormat() + "\"}" else "null}"
  }

  function ToJson(id: int, timestamp: Option<DateTime>): string {
    ID_FIELD + (Integer(id) + (TIMESTAMP_FIELD + TimestampJson(timestamp)))
  }

  function Strip(s: string, prefix: string): Option<string> {
    if prefix <= s then Some(s[|prefix|..]) else None
  }

  function FromJson(s: string): Option<(int, Option<DateTime>)> {
    var afterOpen :- Strip(s, ID_FIELD);
    var id :- ParseInteger(afterOpen);
    var t :- Strip(id.rest, TIMESTAMP_FIELD);
    var timestamp :- ParseTimestampJson(t);
    Some((id.value, timestamp))
  }

  function ParseTimestampJson(s: string): Option<Option<DateTime>> {
    if s == "null}" then Some(None)
    else if |s| >= 3 && s[0] == '"' && s[|s| - 2..] == "\"}" then
      var timestamp :- ParseIso(s[1..|s| - 2]);
      Some(Some(timestamp))
    else None
  }

  /** The JSON text: an object of the two members, without spaces. */
  lemma JsonText(id: int, t: DateTime)
    ensures ToJson(id, None) == "{\"id\":" + (Integer(id) + (",\"timestamp\":" + "null}"))
    ensures ToJson(id, Some(t)) == "{\"id\":" + (Integer(id) + (",\"timestamp\":" + ("\"" + t.IsoFormat() + "\"}")))
  {
  }

  lemma TimestampJsonRoundTrip(timestamp: Option<DateTime>)
    requires timestamp.Some? ==> timestamp.value.Valid()
    ensures ParseTimestampJson(TimestampJson(timestamp)) == Some(timestamp)
  {
    if timestamp.Some? {
      var iso, s := timestamp.value.IsoFormat(), TimestampJson(timestamp);
      IsoRoundTrip(timestamp.value);
      assert s[1..|s| - 2] == iso && s[|s| - 2..] == "\"}";
    }
  }

  lemma StripPrefix(prefix: string, rest: string)
    ensures Strip(prefix + rest, prefix) == Some(rest)
  {
    assert (prefix + rest)[|prefix|..] == rest;
  }

  lemma JsonRoundTrip(id: int, timestamp: Option<DateTime>)
    requires timestamp.Some? ==> timestamp.value.Valid()
    ensures FromJson(ToJson(id, timestamp)) == Some((id, timestamp))
  {
    var middle := TIMESTAMP_FIELD + TimestampJson(timestamp);
    StripPrefix(ID_FIELD, Integer(id) + middle);
    IntegerRoundTrip(id, middle);
    StripPrefix(TIMESTAMP_FIELD, TimestampJson(timestamp));
    TimestampJsonRoundTrip(timestamp);
  }

  // ------------------------------------------------------------- base64

  /** The character of a 6-bit group. */
  function Symbol(v: nat): (c: char)
    requires v < 64
  {
    if v < 26 then 'A' + v as char
    else if v < 52 then 'a' + (v - 26) as char
    else if v < 62 then '0' + (v - 52) as char
    else if v == 62 then '+' else '/'
  }

  /** The alphabet of RFC 4648 (table 1): the upper-case letters, the lower-case letters and the
      digits, each in their order, then + and /. */
  lemma Alphabet(v: nat)
    requires v < 64
    ensures Symbol(0) == 'A' && Symbol(25) == 'Z' && Symbol(26) == 'a' && Symbol(51) == 'z'
    ensures Symbol(52) == '0' && Symbol(61) == '9' && Symbol(62) == '+' && Symbol(63) == '/'
    ensures v < 61 && v != 25 && v != 51 ==> Symbol(v + 1) as int == Symbol(v) as int + 1
  {
  }

  /** The 6-bit group of a character, if it is in the alphabet. */
  function SymbolValue(c: char): Option<nat>
    ensures SymbolValue(c).Some? ==> SymbolValue(c).value < 64
  {
    if 'A' <= c <= 'Z' then Some((c - 'A') as int)
    else if 'a' <= c <= 'z' then Some((c - 'a') as int + 26)
    else if '0' <= c <= '9' then Some((c - '0') as int + 52)
    else if c == '+' then Some(62)
    else if c == '/' then Some(63)
    else None
  }

  lemma SymbolRoundTrip(v: nat)
    requires v < 64
    ensures SymbolValue(Symbol(v)) == Some(v)
  {
  }

  predicate AllBytes(s: string) {
    forall i | 0 <= i < |s| :: s[i] < 256 as char
  }

  /** The four 6-bit groups of three bytes. */
  function Groups(b0: nat, b1: nat, b2: nat): (g: (nat, nat, nat, nat))
    requires b0 < 256 && b1 < 256 && b2 < 256
    ensures g.0 < 64 && g.1 < 64 && g.2 < 64 && g.3 < 64
  {
    (b0 / 4, b0 % 4 * 16 + b1 / 16, b1 % 16 * 4 + b2 / 64, b2 % 64)
  }

  function Block(g: (nat, nat, nat, nat)): string
    requires g.0 < 64 && g.1 < 64 && g.2 < 64 && g.3 < 64
  {
    [Symbol(g.0), Symbol(g.1), Symbol(g.2), Symbol(g.3)]
  }

  function Bytes(g: (nat, nat, nat, nat)): string
    requires g.0 < 64 && g.1 < 64 && g.2 < 64 && g.3 < 64
  {
    [Byte0(g.0, g.1) as char, Byte1(g.1, g.2) as char, Byte2(g.2, g.3) as char]
  }

  function Byte0(v0: nat, v1: nat): (b: nat)
    requires v0 < 64 && v1 < 64
    ensures b < 256
  {
    v0 * 4 + v1 / 16
  }

  function Byte1(v1: nat, v2: nat): (b: nat)
    requires v1 < 64 && v2 < 64
    ensures b < 256
  {
    v1 % 16 * 16 + v2 / 4
  }

  function Byte2(v2: nat, v3: nat): (b: nat)
    requires v2 < 64 && v3 < 64
    ensures b < 256
  {
    v2 % 4 * 64 + v3
  }

  /** The groups are the 24 bits of the bytes, six at a time. */
  lemma GroupsAreBits(b0: nat, b1: nat, b2: nat)
    requires b0 < 256 && b1 < 256 && b2 < 256
    ensures var g := Groups(b0, b1, b2);
            g.0 * 262_144 + g.1 * 4_096 + g.2 * 64 + g.3 == b0 * 65_536 + b1 * 256 + b2
  {
  }

  lemma GroupsRoundTrip(b0: nat, b1: nat, b2: nat)
    requires b0 < 256 && b1 < 256 && b2 < 256
    ensures var g := Groups(b0, b1, b2);
            Byte0(g.0, g.1) == b0 && Byte1(g.1, g.2) == b1 && Byte2(g.2, g.3) == b2
  {
  }

  function ByteAt(s: string, i: nat): (b: nat)
    requires AllBytes(s)
    ensures b < 256
  {
    if i < |s| then s[i] as nat else 0
  }

  function Base64Encode(s: string): string
    requires AllBytes(s)
  {
    if s == "" then ""
    else
      var g := Groups(ByteAt(s, 0), ByteAt(s, 1), ByteAt(s, 2));
      if |s| == 1 then [Symbol(g.0), Symbol(g.1), '=', '=']
      else if |s| == 2 then [Symbol(g.0), Symbol(g.1), Symbol(g.2), '=']
      else Block(g) + Base64Encode(s[3..])
  }

  /** Decodes four characters at a time; padding ends the text. */
  function Base64Decode(s: string): Option<string> {
    if s == "" then Some("")
    else if |s| < 4 then None
    else
      var v0 :- SymbolValue(s[0]);
      var v1 :- SymbolValue(s[1]);
      var b0 := Byte0(v0, v1) as char;
      if |s| == 4 && s[2] == '=' && s[3] == '=' then Some([b0])
      else
        var v2 :- SymbolValue(s[2]);
        var b1 := Byte1(v1, v2) as char;
        if |s| == 4 && s[3] == '=' then Some([b0, b1])
        else
          var v3 :- SymbolValue(s[3]);
          var rest :- Base64Decode(s[4..]);
          Some([b0, b1, Byte2(v2, v3) as char] + rest)
  }

  lemma PaddedRoundTrip(s: string)
    requires AllBytes(s) && 1 <= |s| <= 2
    ensures Base64Decode(Base64Encode(s)) == Some(s)
  {
    var g := Groups(ByteAt(s, 0), ByteAt(s, 1), ByteAt(s, 2));
    GroupsRoundTrip(ByteAt(s, 0), ByteAt(s, 1), ByteAt(s, 2));
    SymbolRoundTrip(g.0);
    SymbolRoundTrip(g.1);
    SymbolRoundTrip(g.2);
    assert s == if |s| == 1 then [s[0]] else [s[0], s[1]];
  }

  lemma BlockDecodes(g: (nat, nat, nat, nat), tail: string, rest: string)
    requires g.0 < 64 && g.1 < 64 && g.2 < 64 && g.3 < 64 && Base64Decode(tail) == Some(rest)
    ensures Base64Decode(Block(g) + tail) == Some(Bytes(g) + rest)
  {
    SymbolRoundTrip(g.0);
    SymbolRoundTrip(g.1);
    SymbolRoundTrip(g.2);
    SymbolRoundTrip(g.3);
    assert (Block(g) + tail)[4..] == tail;
  }

  /** Decoding what was encoded gives back every byte string. */
  lemma {:induction false} Base64RoundTrip(s: string)
    requires AllBytes(s)
    ensures Base64Decode(Base64Encode(s)) == Some(s)
    decreases |s|
  {
    if |s| > 2 {
      var g := Groups(ByteAt(s, 0), ByteAt(s, 1), ByteAt(s, 2));
      assert Bytes(g) + s[3..] == s by {
        GroupsRoundTrip(ByteAt(s, 0), ByteAt(s, 1), ByteAt(s, 2));
        assert s == [s[0], s[1], s[2]] + s[3..];
      }
      Base64RoundTrip(s[3..]);
      var tail := Base64Encode(s[3..]);
      assert Base64Encode(s) == Block(g) + tail;
      BlockDecodes(g, tail, s[3..]);
    } else if s != "" {
      PaddedRoundTrip(s);
    }
  }

  // ------------------------------------------------------------- the cursor

  /** The decoded position: an id and, unless it was null, a timestamp. */
  type Position = (int, Option<DateTime>)

  lemma Joined(a: string, b: string)
    requires AllBytes(a) && AllBytes(b)
    ensures AllBytes(a + b)
  {
  }

  lemma IsoIsBytes(t: DateTime)
    ensures AllBytes(t.IsoFormat())
  {
    var clock := t.Clock();
    assert AllBytes(clock) by { assert AllBytes(t.Fraction()); }
    var date := Pad(t.month, 2) + ("-" + (Pad(t.day, 2) + ("T" + clock)));
    assert AllBytes(date) by { Joined("T", clock); }
    Joined("-", date);
    Joined(Pad(t.year, 4), "-" + date);
  }

  lemma JsonIsBytes(id: int, timestamp: Option<DateTime>)
    ensures AllBytes(ToJson(id, timestamp))
  {
    if timestamp.Some? { IsoIsBytes(timestamp.value); }
    Joined(TIMESTAMP_FIELD, TimestampJson(timestamp));
    Joined(Integer(id), TIMESTAMP_FIELD + TimestampJson(timestamp));
    Joined(ID_FIELD, Integer(id) + (TIMESTAMP_FIELD + TimestampJson(timestamp)));
  }

  function EncodeCursor(id: int, timestamp: Option<DateTime>): string {
    JsonIsBytes(id, timestamp);
    Base64Encode(ToJson(id, timestamp))
  }

  /** A missing, empty or unreadable cursor decodes to nothing. */
  function DecodeCursor(cursor: Option<string>): Option<Position> {
    if cursor.None? || cursor.value == "" then None
    else
      var json :- Base64Decode(cursor.value);
      FromJson(json)
  }

  /** Decoding an encoded cursor returns the same id and timestamp, whatever they are. */
  lemma CursorRoundTrip(id: int, timestamp: Option<DateTime>)
    requires timestamp.Some? ==> timestamp.value.Valid()
    ensures DecodeCursor(Some(EncodeCursor(id, timestamp))) == Some((id, timestamp))
  {
    JsonIsBytes(id, timestamp);
    Base64RoundTrip(ToJson(id, timestamp));
    JsonRoundTrip(id, timestamp);
  }
}
