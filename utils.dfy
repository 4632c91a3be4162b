/**
 The string and number utilities of lib/utils.ts: E.164 phone-number validation and
 normalisation with the Australian defaults, call-duration and transcript-timestamp
 formatting, and two text helpers. Every utility is a pure function of its arguments.
 */
module Utils {
  import opened JsRuntime

  // ===========================================================================
  // Phone numbers

  /**
   `isValidE164`: the regular expression `^\+[1-9]\d{1,14}$`, read piece by piece:
   a '+', one digit from 1 to 9, then a run of 1 to 14 digits reaching the end.
   */
  predicate IsValidE164(phone: string)
    ensures IsValidE164(phone) ==> |phone| >= 3 && phone[0] == '+' && IsDigit(phone[1])
  {
    && |phone| >= 2
    && phone[0] == '+'
    && '1' <= phone[1] <= '9'
    && DigitRun(phone[2..], 1, 14)
  }

  /** `\d{min,max}$`: the whole of `s` is between `min` and `max` digits. */
  predicate DigitRun(s: string, min: nat, max: nat)
    ensures DigitRun(s, min, max) ==> min <= |s| <= max
    decreases |s|
  {
    if s == [] then min == 0
    else max > 0 && IsDigit(s[0]) && DigitRun(s[1..], if min > 0 then min - 1 else 0, max - 1)
  }

  lemma {:induction false} DigitRunIsBoundedDigits(s: string, min: nat, max: nat)
    ensures DigitRun(s, min, max) <==> min <= |s| <= max && AllDigits(s)
    decreases |s|
  {
    if s != [] && max > 0 {
      DigitRunIsBoundedDigits(s[1..], if min > 0 then min - 1 else 0, max - 1);
      if max > 0 && IsDigit(s[0]) && AllDigits(s[1..]) {
        assert AllDigits(s) by {
          forall i | 0 <= i < |s| ensures IsDigit(s[i]) {
            if i > 0 { assert s[i] == s[1..][i - 1]; }
          }
        }
      }
      if AllDigits(s) {
        assert AllDigits(s[1..]) by {
          forall i | 0 <= i < |s| - 1 ensures IsDigit(s[1..][i]) {
            assert s[1..][i] == s[i + 1];
          }
        }
      }
    }
  }

  /**
   What the E.164 check accepts, stated without the regular expression: a '+', a
   non-zero leading digit and digits only, 2 to 15 of them in all (the comment above
   `isValidE164` says 1 to 15, the expression itself needs at least 2).
   */
  lemma E164Shape(phone: string)
    ensures IsValidE164(phone) <==>
      && 3 <= |phone| <= 16
      && phone[0] == '+'
      && phone[1] != '0'
      && AllDigits(phone[1..])
  {
    if |phone| >= 2 {
      DigitRunIsBoundedDigits(phone[2..], 1, 14);
      assert phone[1..] == [phone[1]] + phone[2..];
      if AllDigits(phone[1..]) {
        assert phone[1] == phone[1..][0];
        assert AllDigits(phone[2..]) by {
          forall i | 0 <= i < |phone| - 2 ensures IsDigit(phone[2..][i]) {
            assert phone[2..][i] == phone[1..][i + 1];
          }
        }
      }
    }
  }

  /** Characters the cleaning step keeps: `[\d+]`. */
  predicate IsDialChar(c: char) {
    IsDigit(c) || c == '+'
  }

  /** `phone.replace(/[^\d+]/g, '')`: drop every character that is not a digit or '+'. */
  function Clean(phone: string): (cleaned: string)
    ensures |cleaned| <= |phone|
    ensures forall i :: 0 <= i < |cleaned| ==> IsDialChar(cleaned[i])
    ensures (forall i :: 0 <= i < |phone| ==> IsDialChar(phone[i])) ==> cleaned == phone
    decreases |phone|
  {
    if phone == [] then []
    else
      assert phone == [phone[0]] + phone[1..];
      (if IsDialChar(phone[0]) then [phone[0]] else []) + Clean(phone[1..])
  }

  /** Cleaning keeps exactly the digits and '+' signs of the input. */
  lemma {:induction false} CleanMembers(phone: string)
    ensures forall c :: c in Clean(phone) <==> c in phone && IsDialChar(c)
    decreases |phone|
  {
    if phone != [] {
      CleanMembers(phone[1..]);
      assert phone == [phone[0]] + phone[1..];
    }
  }

  /** Without a '+' in the input, the cleaned text is all digits. */
  lemma {:induction false} CleanWithoutPlus(phone: string)
    requires forall i :: 0 <= i < |phone| ==> phone[i] != '+'
    ensures AllDigits(Clean(phone))
    decreases |phone|
  {
    if phone != [] {
      CleanWithoutPlus(phone[1..]);
      var head := if IsDialChar(phone[0]) then [phone[0]] else [];
      assert Clean(phone) == head + Clean(phone[1..]);
      assert AllDigits(head);
    }
  }

  /** Cleaning works character by character, left to right. */
  lemma {:induction false} CleanAppend(a: string, b: string)
    ensures Clean(a + b) == Clean(a) + Clean(b)
    decreases |a|
  {
    if a != [] {
      var head := if IsDialChar(a[0]) then [a[0]] else [];
      assert (a + b)[0] == a[0];
      assert (a + b)[1..] == a[1..] + b;
      assert Clean(a + b) == head + Clean(a[1..] + b);
      CleanAppend(a[1..], b);
      assert Clean(a) == head + Clean(a[1..]);
    } else {
      assert a + b == b;
    }
  }

  lemma CleanIdempotent(phone: string)
    ensures Clean(Clean(phone)) == Clean(phone)
  {
  }

  /** The country assumed when the caller does not name one. */
  const DefaultCountry: string := "AU"

  /**
   `formatPhoneE164(phone, defaultCountry)`: clean the input, return it when it already
   carries a '+' and is valid, otherwise apply the Australian rules when the country is
   "AU"; any input the rules do not cover gives "".
   */
  function FormatPhoneE164(phone: string, defaultCountry: string): (r: string)
    ensures r == "" || r[0] == '+'
    ensures forall i :: 0 <= i < |r| ==> IsDialChar(r[i])
  {
    var cleaned := Clean(phone);
    if StartsWith(cleaned, "+") then
      if IsValidE164(cleaned) then cleaned else ""
    else if defaultCountry == "AU" && StartsWith(cleaned, "61") then
      "+" + cleaned
    else if defaultCountry == "AU" && StartsWith(cleaned, "0") then
      "+61" + Slice(cleaned, 1, |cleaned|)
    else if defaultCountry == "AU" && |cleaned| >= 9 then
      "+61" + cleaned
    else
      ""
  }

  /** A number that is already valid E.164 comes back unchanged, whatever the country. */
  lemma FormatPhoneKeepsValid(phone: string, defaultCountry: string)
    requires IsValidE164(phone)
    ensures FormatPhoneE164(phone, defaultCountry) == phone
  {
    E164Shape(phone);
    assert forall i :: 0 <= i < |phone| ==> IsDialChar(phone[i]) by {
      forall i | 0 <= i < |phone| ensures IsDialChar(phone[i]) {
        if i > 0 { assert phone[i] == phone[1..][i - 1]; }
      }
    }
  }

  /**
   Formatting a result again leaves it alone exactly when it is "" or valid E.164.
   Results of the Australian rules need not be valid, and those format to "".
   */
  lemma FormatPhoneFixedPoints(phone: string, defaultCountry: string)
    ensures var r := FormatPhoneE164(phone, defaultCountry);
      && (FormatPhoneE164(r, defaultCountry) == r <==> r == "" || IsValidE164(r))
      && (r != "" && !IsValidE164(r) ==> FormatPhoneE164(r, defaultCountry) == "")
  {
    var r := FormatPhoneE164(phone, defaultCountry);
    if IsValidE164(r) {
      FormatPhoneKeepsValid(r, defaultCountry);
    } else if r != "" {
      assert Clean(r) == r;
      assert StartsWith(r, "+") by { assert r[..1] == [r[0]]; }
    }
  }

  /**
   Outside Australia, and for any input that already carries a '+', formatting is
   cleaning followed by validation: the cleaned text when it is valid E.164, "" otherwise.
   */
  lemma FormatPhoneIsCleanAndValidate(phone: string, defaultCountry: string)
    requires defaultCountry != "AU" || StartsWith(Clean(phone), "+")
    ensures FormatPhoneE164(phone, defaultCountry)
         == if IsValidE164(Clean(phone)) then Clean(phone) else ""
  {
  }

  /** The national part of a cleaned Australian number, after the rules strip "61" or a trunk "0". */
  function AustralianNationalPart(cleaned: string): string {
    if StartsWith(cleaned, "61") then cleaned[2..]
    else if StartsWith(cleaned, "0") then cleaned[1..]
    else cleaned
  }

  /**
   With the Australian default and no '+' in front: a result is produced exactly when
   the cleaned number starts with "61" or "0" or has at least 9 digits, and it is always
   "+61" followed by the national part.
   */
  lemma FormatPhoneAustralian(phone: string)
    requires !StartsWith(Clean(phone), "+")
    ensures var cleaned, r := Clean(phone), FormatPhoneE164(phone, "AU");
      && (r != "" <==> StartsWith(cleaned, "61") || StartsWith(cleaned, "0") || |cleaned| >= 9)
      && (r != "" ==> r == "+61" + AustralianNationalPart(cleaned))
  {
    var cleaned := Clean(phone);
    if StartsWith(cleaned, "61") {
      assert cleaned == "61" + cleaned[2..];
    }
  }

  /**
   The one-argument call uses the Australian rules: a cleaned number of at least 9
   digits without a leading '+' always gets a "+61" number.
   */
  lemma DefaultCountryFormatsLongNumbers(phone: string)
    requires !StartsWith(Clean(phone), "+") && |Clean(phone)| >= 9
    ensures var r := FormatPhoneE164(phone, DefaultCountry);
      |r| >= 3 && r[..3] == "+61"
  {
    FormatPhoneAustralian(phone);
  }

  /**
   For an input without any '+', the Australian rules yield either "" or a string whose
   validity depends only on its length: the result is valid E.164 exactly when it has
   at most 16 characters.
   */
  lemma FormatPhoneAustralianValidity(phone: string)
    requires forall i :: 0 <= i < |phone| ==> phone[i] != '+'
    ensures var r := FormatPhoneE164(phone, "AU");
      r == "" || (|r| >= 3 && (IsValidE164(r) <==> |r| <= 16))
  {
    var cleaned := Clean(phone);
    CleanWithoutPlus(phone);
    assert !StartsWith(cleaned, "+") by {
      assert |cleaned| > 0 ==> cleaned[..1] == [cleaned[0]] && IsDigit(cleaned[0]);
    }
    FormatPhoneAustralian(phone);
    var r := FormatPhoneE164(phone, "AU");
    if r != "" {
      var national := AustralianNationalPart(cleaned);
      assert AllDigits(national);
      CountryCodeSixtyOne(national);
    }
  }

  /** "+61" followed by digits is valid E.164 exactly when there are at most 13 of them. */
  lemma CountryCodeSixtyOne(national: string)
    requires AllDigits(national)
    ensures IsValidE164("+61" + national) <==> |national| <= 13
  {
    var r := "+61" + national;
    assert r[1..] == "61" + national;
    E164Shape(r);
  }

  /** A '+' after the start survives cleaning and makes the Australian result invalid. */
  lemma FormatPhoneInnerPlus()
    ensures FormatPhoneE164("0+1", "AU") == "+61+1"
    ensures !IsValidE164("+61+1")
  {
    var phone := "0+1";
    assert forall i :: 0 <= i < |phone| ==> IsDialChar(phone[i]);
    assert Clean(phone) == phone;
    assert Slice(phone, 1, |phone|) == "+1";
    var r := "+61+1";
    assert r[2..] == "1+1";
    assert !DigitRun("+1", 0, 13);
  }

  // ===========================================================================
  // Durations

  datatype Unit = Hours | Minutes | Seconds

  /** One printed piece of a duration, such as "5m". */
  datatype Component = Component(amount: nat, unit: Unit)

  function Suffix(u: Unit): char {
    match u
    case Hours => 'h'
    case Minutes => 'm'
    case Seconds => 's'
  }

  function UnitOfSuffix(c: char): (u: Option<Unit>)
    ensures u.Some? ==> Suffix(u.value) == c
  {
    if c == 'h' then Some(Hours)
    else if c == 'm' then Some(Minutes)
    else if c == 's' then Some(Seconds)
    else None
  }

  function SecondsPer(u: Unit): nat {
    match u
    case Hours => 3600
    case Minutes => 60
    case Seconds => 1
  }

  /** Position of a unit in the printed order h, m, s. */
  function Rank(u: Unit): nat {
    match u
    case Hours => 0
    case Minutes => 1
    case Seconds => 2
  }

  /** `${amount}` followed by the unit letter. */
  function Token(c: Component): string {
    NatToDecimal(c.amount) + [Suffix(c.unit)]
  }

  /**
   `formatDuration(seconds)`: under a minute, the seconds with an "s"; under an hour,
   minutes and (when non-zero) seconds; otherwise hours, then minutes and seconds each
   only when non-zero, separated by single spaces.
   */
  function FormatDuration(seconds: nat): (r: string)
    ensures |r| >= 2
    ensures r[|r| - 1] == 's' <==> seconds < 60 || seconds % 60 > 0
  {
    if seconds < 60 then
      Token(Component(seconds, Seconds))
    else
      var minutes, remainingSeconds := seconds / 60, seconds % 60;
      if minutes < 60 then
        if remainingSeconds > 0 then
          Token(Component(minutes, Minutes)) + " " + Token(Component(remainingSeconds, Seconds))
        else
          Token(Component(minutes, Minutes))
      else
        var hours, remainingMinutes := minutes / 60, minutes % 60;
        Token(Component(hours, Hours))
          + (if remainingMinutes > 0 then " " + Token(Component(remainingMinutes, Minutes)) else "")
          + (if remainingSeconds > 0 then " " + Token(Component(remainingSeconds, Seconds)) else "")
  }

  /** Splits `s` at every occurrence of `sep`, like `s.split(sep)` with a one-character separator. */
  function SplitOn(s: string, sep: char): (parts: seq<string>)
    ensures |parts| >= 1
    decreases |s|
  {
    if s == [] then [""]
    else if s[0] == sep then [""] + SplitOn(s[1..], sep)
    else
      var rest := SplitOn(s[1..], sep);
      [[s[0]] + rest[0]] + rest[1..]
  }

  /** Reads one piece such as "12m" back. */
  function ParseComponent(token: string): Option<Component> {
    if |token| >= 2 && AllDigits(token[..|token| - 1]) && UnitOfSuffix(token[|token| - 1]).Some? then
      Some(Component(DecimalValue(token[..|token| - 1]), UnitOfSuffix(token[|token| - 1]).value))
    else
      None
  }

  function ParseComponents(tokens: seq<string>): Option<seq<Component>>
    decreases |tokens|
  {
    if tokens == [] then Some([])
    else match (ParseComponent(tokens[0]), ParseComponents(tokens[1..]))
      case (Some(c), Some(cs)) => Some([c] + cs)
      case _ => None
  }

  /** Reads a printed duration back into its pieces. */
  function ParseDuration(text: string): Option<seq<Component>> {
    ParseComponents(SplitOn(text, ' '))
  }

  function TotalSeconds(cs: seq<Component>): nat
    decreases |cs|
  {
    if cs == [] then 0 else cs[0].amount * SecondsPer(cs[0].unit) + TotalSeconds(cs[1..])
  }

  /** The pieces appear in the order h, m, s, each unit at most once. */
  predicate InUnitOrder(cs: seq<Component>) {
    forall i, j :: 0 <= i < j < |cs| ==> Rank(cs[i].unit) < Rank(cs[j].unit)
  }

  /** Pieces joined with single spaces. */
  function Render(cs: seq<Component>): string
    decreases |cs|
  {
    if cs == [] then ""
    else if |cs| == 1 then Token(cs[0])
    else Token(cs[0]) + " " + Render(cs[1..])
  }

  lemma {:induction false} SplitWithoutSeparator(s: string, sep: char)
    requires forall i :: 0 <= i < |s| ==> s[i] != sep
    ensures SplitOn(s, sep) == [s]
    decreases |s|
  {
    if s != [] {
      SplitWithoutSeparator(s[1..], sep);
      assert [s[0]] + s[1..] == s;
    }
  }

  lemma {:induction false} SplitAtSeparator(a: string, sep: char, b: string)
    requires forall i :: 0 <= i < |a| ==> a[i] != sep
    ensures SplitOn(a + [sep] + b, sep) == [a] + SplitOn(b, sep)
    decreases |a|
  {
    if a == [] {
      assert a + [sep] + b == [sep] + b;
      assert ([sep] + b)[1..] == b;
    } else {
      SplitAtSeparator(a[1..], sep, b);
      assert (a + [sep] + b)[1..] == a[1..] + [sep] + b;
      assert [a[0]] + a[1..] == a;
    }
  }

  lemma TokenRoundTrip(c: Component)
    ensures |Token(c)| >= 2
    ensures forall i :: 0 <= i < |Token(c)| ==> Token(c)[i] != ' ' && Token(c)[i] != ':'
    ensures ParseComponent(Token(c)) == Some(c)
  {
    var t := Token(c);
    assert t[..|t| - 1] == NatToDecimal(c.amount);
    DecimalRoundTrip(c.amount);
    forall i | 0 <= i < |t| ensures t[i] != ' ' && t[i] != ':' {
      if i < |t| - 1 { assert IsDigit(NatToDecimal(c.amount)[i]); }
    }
  }

  lemma ParseComponentsCons(token: string, c: Component, rest: seq<string>, cs: seq<Component>)
    requires ParseComponent(token) == Some(c) && ParseComponents(rest) == Some(cs)
    ensures ParseComponents([token] + rest) == Some([c] + cs)
  {
    assert ([token] + rest)[0] == token;
    assert ([token] + rest)[1..] == rest;
  }

  lemma {:induction false} RenderRoundTrip(cs: seq<Component>)
    requires |cs| >= 1
    ensures ParseDuration(Render(cs)) == Some(cs)
    decreases |cs|
  {
    TokenRoundTrip(cs[0]);
    if |cs| == 1 {
      SplitWithoutSeparator(Token(cs[0]), ' ');
      ParseComponentsCons(Token(cs[0]), cs[0], [], []);
      assert [Token(cs[0])] + [] == [Token(cs[0])];
      assert cs == [cs[0]] + [];
    } else {
      RenderRoundTrip(cs[1..]);
      assert Render(cs) == Token(cs[0]) + [' '] + Render(cs[1..]);
      SplitAtSeparator(Token(cs[0]), ' ', Render(cs[1..]));
      ParseComponentsCons(Token(cs[0]), cs[0], SplitOn(Render(cs[1..]), ' '), cs[1..]);
      assert cs == [cs[0]] + cs[1..];
    }
  }

  /**
   Reading a printed duration back gives pieces in the order h, m, s that add up to the
   original number of seconds. Under a minute it is the single piece "<n>s" (so "0s" for
   zero); from a minute on, no piece is zero and minutes and seconds are each below 60,
   which makes the pieces the unique hours/minutes/seconds split of `n`.
   */
  lemma FormatDurationRoundTrip(n: nat)
    ensures ParseDuration(FormatDuration(n)).Some?
    ensures var cs := ParseDuration(FormatDuration(n)).value;
      && |cs| >= 1
      && TotalSeconds(cs) == n
      && InUnitOrder(cs)
      && (n < 60 ==> cs == [Component(n, Seconds)])
      && (n >= 60 ==> forall i :: 0 <= i < |cs| ==>
            cs[i].amount > 0 && (cs[i].unit != Hours ==> cs[i].amount < 60))
  {
    var cs := DurationComponents(n);
    FormatDurationRendersComponents(n);
    RenderRoundTrip(cs);
  }

  /** The pieces FormatDuration prints for `n`, in order. */
  function DurationComponents(n: nat): (cs: seq<Component>)
    ensures |cs| >= 1
    ensures TotalSeconds(cs) == n
    ensures InUnitOrder(cs)
    ensures n < 60 ==> cs == [Component(n, Seconds)]
    ensures n >= 60 ==> forall i :: 0 <= i < |cs| ==>
      cs[i].amount > 0 && (cs[i].unit != Hours ==> cs[i].amount < 60)
  {
    if n < 60 then [Component(n, Seconds)]
    else
      var minutes, s := n / 60, n % 60;
      if minutes < 60 then
        if s > 0 then
          assert TotalSeconds([Component(s, Seconds)]) == s;
          [Component(minutes, Minutes), Component(s, Seconds)]
        else
          [Component(minutes, Minutes)]
      else
        var hours, m := minutes / 60, minutes % 60;
        var H, M, S := Component(hours, Hours), Component(m, Minutes), Component(s, Seconds);
        assert TotalSeconds([S]) == s;
        assert TotalSeconds([M]) == m * 60;
        assert TotalSeconds([M, S]) == m * 60 + s by { assert [M, S][1..] == [S]; }
        if m > 0 && s > 0 then
          assert [H, M, S][1..] == [M, S];
          [H, M, S]
        else if m > 0 then
          assert [H, M][1..] == [M];
          [H, M]
        else if s > 0 then
          assert [H, S][1..] == [S];
          [H, S]
        else
          [H]
  }

  lemma FormatDurationRendersComponents(n: nat)
    ensures FormatDuration(n) == Render(DurationComponents(n))
  {
    if n >= 60 {
      if n / 60 < 60 {
        RenderPair(Component(n / 60, Minutes), Component(n % 60, Seconds));
      } else {
        RendersWithHours(n);
      }
    }
  }

  lemma RendersWithHours(n: nat)
    requires n / 60 >= 60
    ensures FormatDuration(n) == Render(DurationComponents(n))
  {
    var s, m := n % 60, (n / 60) % 60;
    var H, M, S := Component((n / 60) / 60, Hours), Component(m, Minutes), Component(s, Seconds);
    var text := FormatDuration(n);
    if m > 0 && s > 0 {
      assert text == Token(H) + " " + Token(M) + " " + Token(S);
      RenderTriple(H, M, S);
    } else if m > 0 {
      assert text == Token(H) + " " + Token(M);
      RenderPair(H, M);
    } else if s > 0 {
      assert text == Token(H) + " " + Token(S);
      RenderPair(H, S);
    }
  }

  lemma RenderPair(a: Component, b: Component)
    ensures Render([a, b]) == Token(a) + " " + Token(b)
  {
    assert [a, b][1..] == [b];
  }

  lemma RenderTriple(a: Component, b: Component, c: Component)
    ensures Render([a, b, c]) == Token(a) + " " + Token(b) + " " + Token(c)
  {
    assert [a, b, c][1..] == [b, c];
    RenderPair(b, c);
  }

  /** Two different durations never print the same way. */
  lemma FormatDurationInjective(m: nat, n: nat)
    requires FormatDuration(m) == FormatDuration(n)
    ensures m == n
  {
    FormatDurationRoundTrip(m);
    FormatDurationRoundTrip(n);
  }

  // ===========================================================================
  // Transcript timestamps

  /** `formatTimestamp(seconds)`: whole minutes, a colon, and the seconds padded to two digits. */
  function FormatTimestamp(seconds: nat): (r: string)
    ensures |r| >= 4 && r[|r| - 3] == ':'
  {
    NatToDecimal(seconds / 60) + ":" + PadStart(NatToDecimal(seconds % 60), 2, '0')
  }

  /** Reads "<minutes>:<two-digit seconds>" back. */
  function ParseTimestamp(text: string): Option<(nat, nat)> {
    var parts := SplitOn(text, ':');
    if |parts| == 2 && |parts[0]| >= 1 && AllDigits(parts[0]) && |parts[1]| == 2 && AllDigits(parts[1]) then
      Some((DecimalValue(parts[0]), DecimalValue(parts[1])))
    else
      None
  }

  /**
   A printed timestamp reads back as the whole minutes and the remaining seconds of
   `n`, and its seconds field is exactly two digits.
   */
  lemma FormatTimestampRoundTrip(n: nat)
    ensures ParseTimestamp(FormatTimestamp(n)) == Some((n / 60, n % 60))
    ensures var r := FormatTimestamp(n);
      |r| >= 4 && r[|r| - 3] == ':' && AllDigits(r[|r| - 2..])
  {
    var minutes := NatToDecimal(n / 60);
    var secs := PadStart(NatToDecimal(n % 60), 2, '0');
    PaddedSeconds(n % 60);
    DecimalRoundTrip(n / 60);
    ParseTimestampOf(minutes, secs);
    var r := FormatTimestamp(n);
    assert r == minutes + [':'] + secs;
    assert r[|r| - 2..] == secs;
  }

  lemma ParseTimestampOf(minutes: string, secs: string)
    requires |minutes| >= 1 && AllDigits(minutes) && |secs| == 2 && AllDigits(secs)
    ensures ParseTimestamp(minutes + [':'] + secs) == Some((DecimalValue(minutes), DecimalValue(secs)))
  {
    forall i | 0 <= i < |minutes| ensures minutes[i] != ':' {
      assert IsDigit(minutes[i]);
    }
    forall i | 0 <= i < |secs| ensures secs[i] != ':' {
      assert IsDigit(secs[i]);
    }
    SplitAtSeparator(minutes, ':', secs);
    SplitWithoutSeparator(secs, ':');
  }

  /** The seconds field: two digits whose value is the seconds themselves. */
  lemma PaddedSeconds(s: nat)
    requires s < 60
    ensures var field := PadStart(NatToDecimal(s), 2, '0');
      |field| == 2 && AllDigits(field) && DecimalValue(field) == s
  {
    var field := PadStart(NatToDecimal(s), 2, '0');
    DecimalRoundTrip(s);
    if s < 10 {
      assert field == ['0', DigitChar(s)];
      assert field[..1] == ['0'];
    } else {
      assert field == NatToDecimal(s);
    }
  }

  lemma FormatTimestampInjective(m: nat, n: nat)
    requires FormatTimestamp(m) == FormatTimestamp(n)
    ensures m == n
  {
    FormatTimestampRoundTrip(m);
    FormatTimestampRoundTrip(n);
  }

  // ===========================================================================
  // Text

  /** `capitalize(str)`: "" stays ""; otherwise the first character upper-cased and the rest lower-cased. */
  function Capitalize(str: string): (r: string)
    ensures |r| == |str|
  {
    if str == "" then str
    else ToUpperCase([str[0]]) + ToLowerCase(Slice(str, 1, |str|))
  }

  /** No lower-case letter first and no upper-case letter after it. */
  predicate IsCapitalized(s: string) {
    && (|s| > 0 ==> !IsLowerAscii(s[0]))
    && forall i :: 1 <= i < |s| ==> !IsUpperAscii(s[i])
  }

  predicate SameIgnoringCase(a: string, b: string) {
    |a| == |b| && forall i :: 0 <= i < |a| ==> ToLowerChar(a[i]) == ToLowerChar(b[i])
  }

  /** Capitalizing changes only the case of letters, and leaves the text capitalized. */
  lemma CapitalizeSpec(s: string)
    ensures IsCapitalized(Capitalize(s))
    ensures SameIgnoringCase(Capitalize(s), s)
  {
    var r := Capitalize(s);
    if s != "" {
      assert r[0] == ToUpperChar(s[0]);
      assert forall i :: 1 <= i < |s| ==> r[i] == ToLowerChar(s[i]);
    }
  }

  /** The texts capitalize leaves alone are exactly the capitalized ones. */
  lemma CapitalizeFixedPoints(s: string)
    ensures Capitalize(s) == s <==> IsCapitalized(s)
  {
    CapitalizeSpec(s);
    if IsCapitalized(s) && s != "" {
      var r := Capitalize(s);
      assert r[0] == ToUpperChar(s[0]);
      assert forall i :: 1 <= i < |s| ==> r[i] == ToLowerChar(s[i]);
      assert r == s;
    }
  }

  lemma CapitalizeIdempotent(s: string)
    ensures Capitalize(Capitalize(s)) == Capitalize(s)
  {
    CapitalizeSpec(s);
    CapitalizeFixedPoints(Capitalize(s));
  }

  /**
   `truncateText(text, maxLength)`: the text itself when it fits, otherwise
   `text.slice(0, maxLength - 3)` followed by "...".
   */
  function TruncateText(text: string, maxLength: int): (r: string)
    ensures maxLength >= 3 ==> |r| <= maxLength
  {
    if |text| <= maxLength then text else Slice(text, 0, maxLength - 3) + "..."
  }

  /**
   Text that fits is returned unchanged; longer text becomes a prefix of itself plus
   "...", of exactly `maxLength` characters when `maxLength` is at least 3.
   */
  lemma TruncateTextSpec(text: string, maxLength: int)
    ensures var r := TruncateText(text, maxLength);
      && (|text| <= maxLength ==> r == text)
      && (|text| > maxLength ==>
            && |r| >= 3
            && r[|r| - 3..] == "..."
            && r[..|r| - 3] == text[..|r| - 3])
      && (|text| > maxLength >= 3 ==> |r| == maxLength)
  {
  }

  /**
   Below 3, `maxLength - 3` is negative and `slice` counts it from the end of the text:
   "hello" with limit 2 becomes "hell...". The kept prefix is then the text minus its
   last `3 - maxLength` characters, so the result is longer than `maxLength`.
   */
  lemma TruncateTextShortLimit(text: string, maxLength: int)
    requires maxLength < 3 && |text| > maxLength
    ensures var r := TruncateText(text, maxLength);
      && |r| == (if |text| + maxLength - 3 < 0 then 0 else |text| + maxLength - 3) + 3
      && |r| > maxLength
  {
  }

  lemma TruncateTextExample()
    ensures TruncateText("hello", 2) == "hell..."
  {
  }

  /** Truncating twice with the same limit of at least 3 is the same as once. */
  lemma TruncateTextIdempotent(text: string, maxLength: int)
    requires maxLength >= 3
    ensures TruncateText(TruncateText(text, maxLength), maxLength) == TruncateText(text, maxLength)
  {
    TruncateTextSpec(text, maxLength);
  }
}
