/** Durations such as "2h30m" (src/agent_keepalive/timeparse.py:8-59), on ASCII text and whole seconds. */
module Durations {
  import opened Prelude

  const MINUTE := 60
  const HOUR := 3600
  const DAY := 86400

  /** The largest whole number of seconds that fits a `timedelta`. */
  const MAX_SECONDS: nat := 86399999999999

  datatype DurationError = EmptyDuration | InvalidDuration | NotPositive | TooLarge
  datatype ParseResult = Parsed(seconds: nat) | Rejected(error: DurationError)

  // ---- characters ---------------------------------------------------------------------------

  predicate IsSpace(c: char) {
    c == ' ' || '\t' <= c <= '\r' || '\U{1C}' <= c <= '\U{1F}'
  }

  predicate IsDigit(c: char) {
    '0' <= c <= '9'
  }

  predicate IsUnit(c: char) {
    c == 's' || c == 'm' || c == 'h' || c == 'd'
  }

  function UnitSeconds(c: char): nat
    requires IsUnit(c)
  {
    if c == 's' then 1 else if c == 'm' then MINUTE else if c == 'h' then HOUR else DAY
  }

  function LowerChar(c: char): char {
    if 'A' <= c <= 'Z' then c - 'A' + 'a' else c
  }

  function Lower(s: string): (r: string)
    ensures |r| == |s| && forall i | 0 <= i < |s| :: r[i] == LowerChar(s[i])
  {
    seq(|s|, i requires 0 <= i < |s| => LowerChar(s[i]))
  }

  predicate AllSpaces(s: string) {
    forall i | 0 <= i < |s| :: IsSpace(s[i])
  }

  predicate AllDigits(s: string) {
    forall i | 0 <= i < |s| :: IsDigit(s[i])
  }

  function DropSpaces(s: string): (r: string)
    ensures |r| <= |s| && (r != "" ==> !IsSpace(r[0]))
  {
    if s != "" && IsSpace(s[0]) then DropSpaces(s[1..]) else s
  }

  function DropTrailing(s: string): (r: string)
    ensures |r| <= |s| && (r != "" ==> !IsSpace(r[|r| - 1]))
    ensures r == s[..|r|] && forall i | |r| <= i < |s| :: IsSpace(s[i])
  {
    if s != "" && IsSpace(s[|s| - 1]) then
      var init := s[..|s| - 1];
      assert forall i | 0 <= i < |s| - 1 :: init[i] == s[i];
      DropTrailing(init)
    else s
  }

  /** `str.strip`. */
  function Strip(s: string): string {
    DropTrailing(DropSpaces(s))
  }

  // ---- numbers ------------------------------------------------------------------------------

  function DigitCount(s: string): (n: nat)
    ensures n <= |s| && AllDigits(s[..n]) && (n < |s| ==> !IsDigit(s[n]))
  {
    if s != "" && IsDigit(s[0]) then
      var n := 1 + DigitCount(s[1..]);
      assert s[..n] == [s[0]] + s[1..][..n - 1];
      n
    else 0
  }

  function DigitValue(c: char): nat
    requires IsDigit(c)
  {
    (c - '0') as nat
  }

  /** `int` of a string of digits. */
  function Value(s: string): nat
    requires AllDigits(s)
  {
    if s == "" then 0 else 10 * Value(s[..|s| - 1]) + DigitValue(s[|s| - 1])
  }

  function Digit(n: nat): (c: char)
    requires n < 10
    ensures IsDigit(c) && DigitValue(c) == n
  {
    '0' + n as char
  }

  /** `str` of a number. */
  function Decimal(n: nat): (s: string)
    ensures s != "" && AllDigits(s)
  {
    if n < 10 then [Digit(n)] else Decimal(n / 10) + [Digit(n % 10)]
  }

  lemma {:induction false} DecimalRoundTrip(n: nat)
    ensures Value(Decimal(n)) == n
  {
    var s := Decimal(n);
    if n >= 10 {
      DecimalRoundTrip(n / 10);
      assert s[..|s| - 1] == Decimal(n / 10);
    } else {
      assert s[..|s| - 1] == "";
    }
  }

  // ---- scanning -------------------------------------------------------------------------------

  /** One match of the token expression at the start of `s`: seconds, and what follows. */
  datatype Token = Token(seconds: nat, rest: string)

  function FirstToken(s: string): (r: Option<Token>)
    ensures r.Some? ==> |r.value.rest| < |s|
  {
    var t := DropSpaces(s);
    var n := DigitCount(t);
    if n == 0 then None else Some(WithUnit(Value(t[..n]), t[n..]))
  }

  /** The end of a token: an optional unit, with spaces around it. */
  function WithUnit(amount: nat, w: string): (r: Token)
    ensures |r.rest| <= |w|
  {
    var u := DropSpaces(w);
    if u != "" && IsUnit(u[0]) then Token(amount * UnitSeconds(u[0]), DropSpaces(u[1..])) else Token(amount, u)
  }

  predicate IsSuffix(r: string, s: string) {
    |r| <= |s| && r == s[|s| - |r|..]
  }

  lemma SuffixOfDrop(r: string, s: string, k: nat)
    requires k <= |s| && IsSuffix(r, s[k..])
    ensures IsSuffix(r, s)
  {
    DropOfDrop(s, k, |s| - k - |r|);
  }

  lemma {:induction false} SpacesLeaveSuffix(s: string)
    ensures IsSuffix(DropSpaces(s), s)
  {
    if s != "" && IsSpace(s[0]) {
      SpacesLeaveSuffix(s[1..]);
      SuffixOfDrop(DropSpaces(s), s, 1);
    }
  }

  lemma SuffixTransitive(q: string, r: string, s: string)
    requires IsSuffix(q, r) && IsSuffix(r, s)
    ensures IsSuffix(q, s)
  {
    SuffixOfDrop(q, s, |s| - |r|);
  }

  lemma UnitLeavesSuffix(amount: nat, w: string)
    ensures IsSuffix(WithUnit(amount, w).rest, w)
  {
    hide IsSuffix, UnitSeconds;
    var u := DropSpaces(w);
    SpacesLeaveSuffix(w);
    if u != "" {
      SpacesLeaveSuffix(u[1..]);
      SuffixOfDrop(DropSpaces(u[1..]), u, 1);
      SuffixTransitive(DropSpaces(u[1..]), u, w);
    }
  }

  lemma TokenLeavesSuffix(s: string)
    requires FirstToken(s).Some?
    ensures IsSuffix(FirstToken(s).value.rest, s)
  {
    hide IsSuffix, Value, WithUnit;
    var t := DropSpaces(s);
    var n := DigitCount(t);
    SpacesLeaveSuffix(s);
    UnitLeavesSuffix(Value(t[..n]), t[n..]);
    SuffixOfDrop(FirstToken(s).value.rest, t, n);
    SuffixTransitive(FirstToken(s).value.rest, t, s);
  }

  /** The sum of all tokens of `s`, if `s` is nothing but tokens. */
  function Scan(s: string): Option<nat>
    decreases |s|
  {
    if s == "" then Some(0)
    else
      var token := FirstToken(s);
      if token.None? then None
      else
        var more := Scan(token.value.rest);
        if more.None? then None else Some(token.value.seconds + more.value)
  }

  function Judged(total: Option<nat>): ParseResult {
    if total.None? then Rejected(InvalidDuration)
    else if total.value == 0 then Rejected(NotPositive)
    else if total.value > MAX_SECONDS then Rejected(TooLarge)
    else Parsed(total.value)
  }

  /** What a duration text means. */
  function Meaning(value: string): ParseResult {
    var text := Lower(Strip(value));
    if text == "" then Rejected(EmptyDuration) else Judged(Scan(text))
  }

  /** The sum for the text from a position on, given what is before it. */
  function Plus(total: nat, more: Option<nat>): Option<nat> {
    if more.None? then None else Some(total + more.value)
  }

  lemma ScanFrom(text: string, position: nat)
    requires position < |text|
    ensures var token := FirstToken(text[position..]);
            if token.None? then Scan(text[position..]) == None
            else
              && |token.value.rest| < |text| - position
              && token.value.rest == text[|text| - |token.value.rest|..]
              && Scan(text[position..]) == Plus(token.value.seconds, Scan(token.value.rest))
  {
    hide FirstToken;
    if FirstToken(text[position..]).Some? {
      var rest := FirstToken(text[position..]).value.rest;
      TokenLeavesSuffix(text[position..]);
      SuffixOfDrop(rest, text, position);
    }
  }

  /** The loop of `parse_duration` adds up the tokens from left to right; it ends because each token
      takes at least one digit. */
  method ParseDuration(value: string) returns (r: ParseResult)
    ensures r == Meaning(value)
  {
    hide Meaning, Scan, FirstToken, Lower, Strip, DropSpaces, DigitCount, Value;
    var text := Lower(Strip(value));
    MeaningIs(value, text);
    if text == "" {
      return Rejected(EmptyDuration);
    }
    var total: nat, position: nat := 0, 0;
    while position < |text|
      invariant 0 <= position <= |text| && Scan(text) == Plus(total, Scan(text[position..]))
    {
      ScanFrom(text, position);
      var token := FirstToken(text[position..]);
      if token.None? {
        return Rejected(InvalidDuration);
      }
      total := total + token.value.seconds;
      position := |text| - |token.value.rest|;
    }
    NothingToScan(text);
    if total <= 0 {
      return Rejected(NotPositive);
    }
    if total > MAX_SECONDS {
      return Rejected(TooLarge);
    }
    return Parsed(total);
  }

  lemma MeaningIs(value: string, text: string)
    requires text == Lower(Strip(value))
    ensures Meaning(value) == if text == "" then Rejected(EmptyDuration) else Judged(Scan(text))
    ensures text[0..] == text
  {
  }

  lemma NothingToScan(text: string)
    ensures Scan(text[|text|..]) == Some(0)
  {
  }

  // ---- printing ---------------------------------------------------------------------------------

  /** One component, omitted when it is zero. */
  function Component(n: nat, unit: char): string {
    if n == 0 then "" else Decimal(n) + [unit]
  }

  function Text(seconds: nat): string {
    var days, hours, minutes, rest := seconds / DAY, seconds % DAY / HOUR, seconds % HOUR / MINUTE, seconds % MINUTE;
    var front := Component(days, 'd') + Component(hours, 'h') + Component(minutes, 'm');
    front + if rest != 0 || front == "" then Decimal(rest) + "s" else ""
  }

  function Joined(parts: seq<string>): string {
    if parts == [] then "" else Joined(parts[..|parts| - 1]) + parts[|parts| - 1]
  }

  lemma JoinedAppend(parts: seq<string>, p: string)
    ensures Joined(parts + [p]) == Joined(parts) + p
  {
    assert (parts + [p])[..|parts|] == parts;
  }

  /** The text so far, with a component that is printed unless it is zero. */
  lemma WithComponent(parts: seq<string>, n: nat, unit: char)
    requires parts == [] <==> Joined(parts) == ""
    ensures var more := if n != 0 then parts + [Decimal(n) + [unit]] else parts;
            Joined(more) == Joined(parts) + Component(n, unit) && (more == [] <==> Joined(more) == "")
  {
    if n != 0 {
      JoinedAppend(parts, Decimal(n) + [unit]);
    } else {
      assert Joined(parts) + "" == Joined(parts);
    }
  }

  /** `format_duration`, on the whole seconds of its argument; a negative duration prints as zero. */
  method FormatDuration(seconds: int) returns (r: string)
    ensures r == Text(if seconds < 0 then 0 else seconds)
  {
    hide Decimal, Component, Joined;
    var total: nat := if seconds < 0 then 0 else seconds;
    var parts: seq<string> := [];
    var days, remainder := total / DAY, total % DAY;
    var hours := remainder / HOUR;
    remainder := remainder % HOUR;
    var minutes, rest := remainder / MINUTE, remainder % MINUTE;
    Remainders(total);
    assert Joined(parts) == "" by { NoParts(); }
    WithComponent(parts, days, 'd');
    if days != 0 {
      parts := parts + [Decimal(days) + "d"];
    }
    assert Joined(parts) == Component(days, 'd');
    WithComponent(parts, hours, 'h');
    if hours != 0 {
      parts := parts + [Decimal(hours) + "h"];
    }
    WithComponent(parts, minutes, 'm');
    if minutes != 0 {
      parts := parts + [Decimal(minutes) + "m"];
    }
    assert Joined(parts) + "" == Joined(parts);
    if rest != 0 || parts == [] {
      JoinedAppend(parts, Decimal(rest) + "s");
      parts := parts + [Decimal(rest) + "s"];
    }
    r := Joined(parts);
  }

  lemma NoParts()
    ensures Joined([]) == ""
  {
  }

  lemma Remainders(total: nat)
    ensures total % DAY % HOUR == total % HOUR
    ensures total % HOUR % MINUTE == total % MINUTE
    ensures total == total / DAY * DAY + total % DAY / HOUR * HOUR + total % HOUR / MINUTE * MINUTE + total % MINUTE
  {
    var d, h, m := total / DAY, total % DAY / HOUR, total % HOUR / MINUTE;
    assert total == (24 * d + h) * HOUR + total % DAY % HOUR;
    assert total % HOUR == total % DAY % HOUR;
    assert total == ((total / HOUR) * 60 + m) * MINUTE + total % HOUR % MINUTE;
    assert total % MINUTE == total % HOUR % MINUTE;
  }

  // ---- the round trip ----------------------------------------------------------------------------

  /** The scanner can only go on here with a new token. */
  predicate StartsToken(t: string) {
    t == "" || IsDigit(t[0])
  }

  lemma {:induction false} CountDigits(d: string, t: string)
    requires AllDigits(d) && (t == "" || !IsDigit(t[0]))
    ensures DigitCount(d + t) == |d|
  {
    if d == "" {
      assert d + t == t;
    } else {
      assert (d + t)[1..] == d[1..] + t;
      CountDigits(d[1..], t);
    }
  }

  /** A number and its unit, in front of more text, are one token. */
  lemma OneToken(n: nat, unit: char, t: string)
    requires IsUnit(unit) && StartsToken(t)
    ensures FirstToken(Decimal(n) + [unit] + t) == Some(Token(n * UnitSeconds(unit), t))
  {
    hide Decimal, Value;
    var d := Decimal(n);
    var s := d + [unit] + t;
    assert s[0] == d[0] && DropSpaces(s) == s;
    assert s == d + ([unit] + t);
    CountDigits(d, [unit] + t);
    assert s[..|d|] == d && s[|d|..] == [unit] + t;
    DecimalRoundTrip(n);
    assert DropSpaces([unit] + t) == [unit] + t;
    assert ([unit] + t)[1..] == t && DropSpaces(t) == t;
  }

  lemma ScanComponent(n: nat, unit: char, t: string)
    requires IsUnit(unit) && StartsToken(t)
    ensures Scan(Component(n, unit) + t) == Plus(n * UnitSeconds(unit), Scan(t))
    ensures StartsToken(Component(n, unit) + t)
  {
    hide FirstToken, Decimal, UnitSeconds;
    if n == 0 {
      assert Component(n, unit) + t == t;
    } else {
      OneToken(n, unit, t);
      var s := Decimal(n) + [unit] + t;
      assert s[0] == Decimal(n)[0];
    }
  }

  /** The last component stands alone, and is there unless it is zero and others are. */
  lemma LastComponent(rest: nat, shown: bool)
    requires rest != 0 ==> shown
    ensures var last := if shown then Decimal(rest) + "s" else "";
            Scan(last) == Some(rest) && StartsToken(last)
  {
    hide FirstToken, Decimal;
    var last := Decimal(rest) + "s";
    if shown {
      OneToken(rest, 's', "");
      assert last + "" == last && last[0] == Decimal(rest)[0];
      ScanOne(last, rest);
    }
  }

  lemma ScanOne(s: string, seconds: nat)
    requires s != "" && FirstToken(s) == Some(Token(seconds, ""))
    ensures Scan(s) == Some(seconds)
  {
    hide FirstToken;
    assert Scan("") == Some(0);
  }

  /** What is printed scans to the seconds that were printed. */
  lemma ScanText(seconds: nat)
    ensures Scan(Text(seconds)) == Some(seconds)
  {
    hide Component, Decimal, FirstToken;
    var days, hours, minutes, rest := seconds / DAY, seconds % DAY / HOUR, seconds % HOUR / MINUTE, seconds % MINUTE;
    var d, h, m := Component(days, 'd'), Component(hours, 'h'), Component(minutes, 'm');
    var last := if rest != 0 || d + h + m == "" then Decimal(rest) + "s" else "";
    LastComponent(rest, rest != 0 || d + h + m == "");
    ScanComponent(minutes, 'm', last);
    ScanComponent(hours, 'h', m + last);
    ScanComponent(days, 'd', h + (m + last));
    assert Text(seconds) == d + (h + (m + last));
    Remainders(seconds);
  }

  // ---- what the texts look like ---------------------------------------------------------------------

  lemma {:induction false} DecimalHasNoLeadingZero(n: nat)
    ensures n > 0 ==> Decimal(n)[0] != '0'
  {
    if n >= 10 {
      DecimalHasNoLeadingZero(n / 10);
    }
  }

  lemma Digits(days: nat, hours: nat, minutes: nat, rest: nat)
    requires hours < 24 && minutes < 60 && rest < 60
    ensures var s := 86400 * days + 3600 * hours + 60 * minutes + rest;
            && s / DAY == days && s % DAY / HOUR == hours && s % HOUR / MINUTE == minutes && s % MINUTE == rest
  {
    hide DAY, HOUR, MINUTE;
    var s := 86400 * days + 3600 * hours + 60 * minutes + rest;
    DivideByDay(days, 3600 * hours + 60 * minutes + rest);
    DivideByHour(hours, 60 * minutes + rest);
    DivideByHour(24 * days + hours, 60 * minutes + rest);
    DivideByMinute(minutes, rest);
    DivideByMinute(1440 * days + 60 * hours + minutes, rest);
    assert s == 3600 * (24 * days + hours) + (60 * minutes + rest);
    assert s == 60 * (1440 * days + 60 * hours + minutes) + rest;
  }

  lemma DivideByDay(q: nat, r: nat)
    requires r < 86400
    ensures (86400 * q + r) / DAY == q && (86400 * q + r) % DAY == r
  {
  }

  lemma DivideByHour(q: nat, r: nat)
    requires r < 3600
    ensures (3600 * q + r) / HOUR == q && (3600 * q + r) % HOUR == r
  {
  }

  lemma DivideByMinute(q: nat, r: nat)
    requires r < 60
    ensures (60 * q + r) / MINUTE == q && (60 * q + r) % MINUTE == r
  {
  }

  /** What is printed: days, hours below 24, minutes below 60 and seconds below 60, in this order, each with
      its letter and none of them if it is zero, except for a bare "0s". */
  lemma TextIs(days: nat, hours: nat, minutes: nat, rest: nat)
    requires hours < 24 && minutes < 60 && rest < 60
    ensures Text(86400 * days + 3600 * hours + 60 * minutes + rest) ==
            (if days != 0 then Decimal(days) + "d" else "")
            + (if hours != 0 then Decimal(hours) + "h" else "")
            + (if minutes != 0 then Decimal(minutes) + "m" else "")
            + (if rest != 0 || (days == 0 && hours == 0 && minutes == 0) then Decimal(rest) + "s" else "")
  {
    hide Decimal;
    Digits(days, hours, minutes, rest);
    var d, h, m := Component(days, 'd'), Component(hours, 'h'), Component(minutes, 'm');
    assert d + h + m == "" <==> d == "" && h == "" && m == "";
  }

  /** A number and its letter count for seconds, minutes of 60, hours of 3600 or days of 86400 of them. */
  lemma TokenWeighs(n: nat)
    ensures Scan(Decimal(n) + "s") == Some(n)
    ensures Scan(Decimal(n) + "m") == Some(60 * n)
    ensures Scan(Decimal(n) + "h") == Some(3600 * n)
    ensures Scan(Decimal(n) + "d") == Some(86400 * n)
    ensures Scan(Decimal(n)) == Some(n)
  {
    hide FirstToken, Decimal;
    OneTokenIs(n, 's');
    OneTokenIs(n, 'm');
    OneTokenIs(n, 'h');
    OneTokenIs(n, 'd');
    BareNumber(n);
    ScanOne(Decimal(n), n);
  }

  lemma OneTokenIs(n: nat, unit: char)
    requires IsUnit(unit)
    ensures Scan(Decimal(n) + [unit]) == Some(n * UnitSeconds(unit))
  {
    hide FirstToken, Decimal;
    OneToken(n, unit, "");
    assert Decimal(n) + [unit] + "" == Decimal(n) + [unit];
    ScanOne(Decimal(n) + [unit], n * UnitSeconds(unit));
  }

  lemma BareNumber(n: nat)
    ensures FirstToken(Decimal(n)) == Some(Token(n, ""))
  {
    hide Decimal, Value;
    var d := Decimal(n);
    assert d + "" == d;
    CountDigits(d, "");
    assert d[..|d|] == d && d[|d|..] == "" && DropSpaces(d) == d && DropSpaces("") == "";
    DecimalRoundTrip(n);
  }

  /** A character that may occur in a duration. */
  predicate Known(c: char) {
    c in SPACES || '0' <= c <= '9' || c in {'s', 'm', 'h', 'd'}
  }

  /** The ASCII characters that count as spaces. */
  const SPACES: set<char> :=
    {' ', '\t', '\n', '\r', '\U{0B}', '\U{0C}', '\U{1C}', '\U{1D}', '\U{1E}', '\U{1F}'}

  lemma SpacesAreDropped(c: char, s: string)
    ensures IsSpace(c) <==> c in SPACES
    ensures c in SPACES ==> DropSpaces([c] + s) == DropSpaces(s)
  {
    assert ([c] + s)[1..] == s;
    hide DropSpaces;
    assert '\t' <= c <= '\r' ==> c as int in {9, 10, 11, 12, 13};
  }

  lemma {:induction false} OnlySpacesAreDropped(s: string, c: char)
    requires c in s && !IsSpace(c)
    ensures c in DropSpaces(s)
  {
    if c !in [s[0]] {
      assert s == [s[0]] + s[1..];
      OnlySpacesAreDropped(s[1..], c);
    }
  }

  /** An unknown character is not read by a token, it is left. */
  lemma UnknownIsLeft(s: string, c: char)
    requires c in s && !Known(c) && FirstToken(s).Some?
    ensures c in FirstToken(s).value.rest
  {
    var t := DropSpaces(s);
    OnlySpacesAreDropped(s, c);
    var n := DigitCount(t);
    assert t == t[..n] + t[n..] && c !in t[..n] by {
      assert forall i | 0 <= i < n :: IsDigit(t[..n][i]);
    }
    var w := t[n..];
    OnlySpacesAreDropped(w, c);
    var u := DropSpaces(w);
    if u != "" && IsUnit(u[0]) {
      assert u == [u[0]] + u[1..];
      OnlySpacesAreDropped(u[1..], c);
    }
  }

  /** A text is only accepted if it holds nothing but digits, the four letters and spaces, and begins, after
      any spaces, with a digit. */
  lemma {:induction false} NothingElseIsRead(s: string)
    requires Scan(s).Some?
    ensures forall c | c in s :: Known(c)
    ensures DropSpaces(s) != "" ==> IsDigit(DropSpaces(s)[0])
    decreases |s|
  {
    hide Known;
    forall c | c in s ensures Known(c) {
      if !Known(c) {
        UnknownIsLeft(s, c);
        NothingElseIsRead(FirstToken(s).value.rest);
        assert false;
      }
    }
  }

  /** Text that neither strip nor lower changes. */
  predicate Plain(s: string) {
    && s != "" && !IsSpace(s[0]) && !IsSpace(s[|s| - 1])
    && forall i | 0 <= i < |s| :: LowerChar(s[i]) == s[i]
  }

  lemma PlainIsUnchanged(s: string)
    requires Plain(s)
    ensures Lower(Strip(s)) == s
  {
  }

  predicate OnlyDigitsAndUnits(s: string) {
    forall i | 0 <= i < |s| :: IsDigit(s[i]) || IsUnit(s[i])
  }

  lemma TextIsPlain(seconds: nat)
    ensures Plain(Text(seconds))
  {
    hide Decimal;
    var s := Text(seconds);
    assert OnlyDigitsAndUnits(s);
    assert s != "";
    assert forall i | 0 <= i < |s| :: !IsSpace(s[i]) && LowerChar(s[i]) == s[i];
  }

  /** Printing and parsing again gives a duration back exactly when it is positive and fits. */
  lemma PrintThenParseIff(seconds: nat)
    ensures Meaning(Text(seconds)) == Parsed(seconds) <==> 0 < seconds <= 86399999999999
  {
    ScanText(seconds);
    TextIsPlain(seconds);
    PlainIsUnchanged(Text(seconds));
  }

  // ---- addition ------------------------------------------------------------------------------------

  /** No number of `b` is glued to a number of `a`. */
  predicate Separate(a: string, b: string) {
    a == "" || b == "" || !IsDigit(a[|a| - 1]) || !IsDigit(b[0])
  }

  lemma {:induction false} DropSpacesOfSum(a: string, b: string)
    ensures DropSpaces(a + b) == if DropSpaces(a) == "" then DropSpaces(b) else DropSpaces(a) + b
  {
    if a == "" {
      assert a + b == b;
    } else if IsSpace(a[0]) {
      assert (a + b)[1..] == a[1..] + b;
      DropSpacesOfSum(a[1..], b);
    }
  }

  lemma {:induction false} DigitCountOfSum(a: string, b: string)
    requires Separate(a, b)
    ensures DigitCount(a + b) == if DigitCount(a) == |a| && a == "" then DigitCount(b) else DigitCount(a)
  {
    if a == "" {
      assert a + b == b;
    } else if IsDigit(a[0]) {
      assert (a + b)[1..] == a[1..] + b;
      if |a| > 1 {
        DigitCountOfSum(a[1..], b);
      } else {
        assert a[1..] + b == b;
      }
    }
  }

  lemma SameFirstToken(a: string)
    ensures FirstToken(DropSpaces(a)) == FirstToken(a)
  {
    hide DigitCount, WithUnit, Value;
    assert DropSpaces(DropSpaces(a)) == DropSpaces(a);
  }

  lemma LeadingSpacesAreIgnored(a: string)
    requires DropSpaces(a) != ""
    ensures Scan(DropSpaces(a)) == Scan(a)
  {
    SameFirstToken(a);
    hide FirstToken, DropSpaces;
  }

  /** A text whose scan succeeds begins, after spaces, with a digit. */
  lemma ScanStartsWithDigit(b: string)
    requires b != "" && Scan(b).Some?
    ensures DropSpaces(b) != "" && IsDigit(DropSpaces(b)[0])
    ensures Scan(DropSpaces(b)) == Scan(b)
  {
    hide DropSpaces, WithUnit, Value;
    assert FirstToken(b).Some?;
    LeadingSpacesAreIgnored(b);
  }

  lemma UnitOfSum(amount: nat, w: string, b: string)
    requires DropSpaces(b) != "" && IsDigit(DropSpaces(b)[0])
    ensures var x, y := WithUnit(amount, w), WithUnit(amount, w + b);
            y.seconds == x.seconds && y.rest == if x.rest == "" then DropSpaces(b) else x.rest + b
  {
    hide DropSpaces, UnitSeconds;
    DropSpacesOfSum(w, b);
    var u := DropSpaces(w);
    if u != "" {
      assert (u + b)[0] == u[0] && (u + b)[1..] == u[1..] + b;
      DropSpacesOfSum(u[1..], b);
    }
  }

  lemma TokenOfSum(a: string, b: string)
    requires Separate(a, b) && FirstToken(a).Some? && b != "" && Scan(b).Some?
    ensures FirstToken(a + b).Some?
    ensures var x, y := FirstToken(a).value, FirstToken(a + b).value;
            y.seconds == x.seconds && y.rest == if x.rest == "" then DropSpaces(b) else x.rest + b
  {
    hide Value, WithUnit, DropSpaces, Scan;
    var t := DropSpaces(a);
    DropSpacesOfSum(a, b);
    SpacesLeaveSuffix(a);
    assert t[|t| - 1] == a[|a| - 1];
    DigitCountOfSum(t, b);
    var n := DigitCount(t);
    CutConcat(t, b, n);
    ScanStartsWithDigit(b);
    UnitOfSum(Value(t[..n]), t[n..], b);
  }

  /** Parsing is additive: a text followed by another one scans to the sum, when no number of the one
      runs into a number of the other. */
  lemma {:induction false} ScanIsAdditive(a: string, b: string)
    requires Separate(a, b) && Scan(a).Some? && Scan(b).Some?
    ensures Scan(a + b) == Some(Scan(a).value + Scan(b).value)
    decreases |a|
  {
    hide FirstToken;
    if a == "" {
      assert a + b == b;
    } else if b == "" {
      assert a + b == a;
    } else {
      TokenOfSum(a, b);
      var rest := FirstToken(a).value.rest;
      if rest == "" {
        ScanStartsWithDigit(b);
      } else {
        TokenLeavesSuffix(a);
        assert rest[|rest| - 1] == a[|a| - 1];
        ScanIsAdditive(rest, b);
      }
    }
  }

  // ---- spaces around a text ------------------------------------------------------------------------

  lemma {:induction false} OnlySpaces(w: string)
    ensures DropSpaces(w) == "" <==> AllSpaces(w)
  {
    if w != "" && IsSpace(w[0]) {
      OnlySpaces(w[1..]);
      assert AllSpaces(w) ==> forall i | 0 <= i < |w| - 1 :: w[1..][i] == w[i + 1];
      assert AllSpaces(w[1..]) ==> forall i | 0 < i < |w| :: w[i] == w[1..][i - 1];
    }
  }

  lemma UnitBeforeSpaces(amount: nat, w: string, spaces: string)
    requires AllSpaces(spaces)
    ensures var x, y := WithUnit(amount, w), WithUnit(amount, w + spaces);
            y.seconds == x.seconds && y.rest == if x.rest == "" then "" else x.rest + spaces
  {
    hide DropSpaces, UnitSeconds;
    OnlySpaces(spaces);
    DropSpacesOfSum(w, spaces);
    var u := DropSpaces(w);
    if u != "" {
      assert (u + spaces)[0] == u[0] && (u + spaces)[1..] == u[1..] + spaces;
      DropSpacesOfSum(u[1..], spaces);
    }
  }

  lemma TokenBeforeSpaces(a: string, spaces: string)
    requires AllSpaces(spaces)
    ensures FirstToken(a + spaces).Some? <==> FirstToken(a).Some?
    ensures FirstToken(a).Some? ==>
              var x, y := FirstToken(a).value, FirstToken(a + spaces).value;
              y.seconds == x.seconds && y.rest == if x.rest == "" then "" else x.rest + spaces
  {
    hide Value, WithUnit, DropSpaces;
    var t := DropSpaces(a);
    DropSpacesOfSum(a, spaces);
    OnlySpaces(spaces);
    if t != "" {
      DigitCountOfSum(t, spaces);
      var n := DigitCount(t);
      CutConcat(t, spaces, n);
      UnitBeforeSpaces(Value(t[..n]), t[n..], spaces);
    }
  }

  lemma {:induction false} TrailingSpacesAreIgnored(a: string, spaces: string)
    requires a != "" && AllSpaces(spaces)
    ensures Scan(a + spaces) == Scan(a)
    decreases |a|
  {
    hide FirstToken;
    TokenBeforeSpaces(a, spaces);
    if FirstToken(a).Some? && FirstToken(a).value.rest != "" {
      TrailingSpacesAreIgnored(FirstToken(a).value.rest, spaces);
    }
  }

  lemma {:induction false} LowerKeepsSpaces(s: string)
    ensures DropSpaces(Lower(s)) == Lower(DropSpaces(s))
  {
    if s != "" && IsSpace(s[0]) {
      LowerKeepsSpaces(s[1..]);
      assert Lower(s)[1..] == Lower(s[1..]);
    }
  }

  /** Stripping does not matter to the scanner, unless nothing is left. */
  lemma StripIsIgnored(value: string)
    requires Strip(value) != ""
    ensures Scan(Lower(Strip(value))) == Scan(Lower(value))
  {
    hide Scan, FirstToken;
    var t := DropSpaces(value);
    var core := DropTrailing(t);
    assert AllSpaces(Lower(t[|core|..]));
    assert Lower(t) == Lower(core) + Lower(t[|core|..]);
    TrailingSpacesAreIgnored(Lower(core), Lower(t[|core|..]));
    LowerKeepsSpaces(value);
    LeadingSpacesAreIgnored(Lower(value));
  }

  lemma BlankMeansEmpty(value: string)
    ensures Strip(value) == "" <==> AllSpaces(value)
  {
    OnlySpaces(value);
    var t := DropSpaces(value);
    assert t != "" ==> t[0..][0] == t[0];
  }

  /** A unit counts in either case, and no other character is changed into one. */
  lemma CaseIsIgnored(c: char)
    ensures LowerChar(c) == 's' <==> c == 's' || c == 'S'
    ensures LowerChar(c) == 'm' <==> c == 'm' || c == 'M'
    ensures LowerChar(c) == 'h' <==> c == 'h' || c == 'H'
    ensures LowerChar(c) == 'd' <==> c == 'd' || c == 'D'
    ensures !('A' <= c <= 'Z') ==> LowerChar(c) == c
  {
  }

  /** What comes of a text: it is empty, or not a duration, or zero, or more than a `timedelta` holds, or its
      seconds. */
  lemma Outcomes(value: string)
    ensures var total := Scan(Lower(value));
            Meaning(value) ==
            if forall c | c in value :: IsSpace(c) then Rejected(EmptyDuration)
            else if total == None then Rejected(InvalidDuration)
            else if total.value < 1 then Rejected(NotPositive)
            else if total.value > 86399999999999 then Rejected(TooLarge)
            else Parsed(total.value)
  {
    hide Scan, Lower;
    BlankMeansEmpty(value);
    assert AllSpaces(value) <==> forall c | c in value :: IsSpace(c);
    if Strip(value) != "" {
      StripIsIgnored(value);
      LowerOfSome(Strip(value));
    }
    LowerOfNone();
  }

  lemma LowerOfSome(s: string)
    ensures s != "" ==> Lower(s) != ""
  {
  }

  lemma LowerOfNone()
    ensures Lower("") == ""
  {
  }

  /** What `a` and `b` mean, `a`, spaces and `b` mean together, provided a digit of the one does not
      meet a digit of the other. */
  lemma ParsingIsAdditive(a: string, spaces: string, b: string)
    requires Meaning(a).Parsed? && Meaning(b).Parsed? && AllSpaces(spaces)
    requires spaces != "" || Separate(a, b)
    ensures Meaning(a + spaces + b) ==
            var sum := Meaning(a).seconds + Meaning(b).seconds;
            if sum <= MAX_SECONDS then Parsed(sum) else Rejected(TooLarge)
  {
    hide Scan, Strip, DropSpaces;
    var all := a + spaces + b;
    BlankMeansEmpty(a);
    BlankMeansEmpty(b);
    BlankMeansEmpty(all);
    assert !AllSpaces(all) by {
      assert forall i | 0 <= i < |a| :: all[i] == a[i];
    }
    StripIsIgnored(a);
    StripIsIgnored(b);
    StripIsIgnored(all);
    var x, y, w := Lower(a), Lower(b), Lower(spaces);
    assert Lower(all) == (x + w) + y;
    assert AllSpaces(w);
    TrailingSpacesAreIgnored(x, w);
    assert Separate(x + w, y) by {
      if spaces == "" {
        assert x + w == x;
      } else {
        assert (x + w)[|x + w| - 1] == w[|w| - 1];
      }
    }
    ScanIsAdditive(x + w, y);
  }
}
