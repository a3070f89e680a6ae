/**
 * The hour-list parser applied to the `hours` column of a schedule row
 * (main.py:75): split the text on ',', strip each token, keep the tokens
 * that `str.isdigit` accepts, and convert each kept token with `int`.
 * The conversion can fail for the whole list at once.
 */
module HourList {
  import opened Wrappers

  // ---------------------------------------------------------------------------
  // Character classes
  // ---------------------------------------------------------------------------

  /** The characters Python's `str.isspace` accepts, which `str.strip()` removes. */
  predicate IsSpace(c: char)
  {
    || c == ' '
    || ('\t' <= c <= '\r')
    || ('\U{1C}' <= c <= '\U{1F}')
    || c == '\U{85}' || c == '\U{A0}' || c == '\U{1680}'
    || ('\U{2000}' <= c <= '\U{200A}')
    || c == '\U{2028}' || c == '\U{2029}' || c == '\U{202F}' || c == '\U{205F}' || c == '\U{3000}'
  }

  /** A decimal digit: what `int` converts. */
  predicate IsDecimal(c: char)
  {
    '0' <= c <= '9'
  }

  /**
   * A digit that is not decimal: the superscript and subscript digits, which
   * `str.isdigit` accepts and `int` rejects.
   */
  predicate IsOtherDigit(c: char)
  {
    || c == '\U{B2}' || c == '\U{B3}' || c == '\U{B9}' || c == '\U{2070}'
    || ('\U{2074}' <= c <= '\U{2079}')
    || ('\U{2080}' <= c <= '\U{2089}')
  }

  predicate IsDigit(c: char)
  {
    IsDecimal(c) || IsOtherDigit(c)
  }

  predicate AllSpace(s: string)
  {
    forall i :: 0 <= i < |s| ==> IsSpace(s[i])
  }

  /** `str.isdigit`: non-empty and made of digits only. */
  predicate IsDigitString(s: string)
  {
    |s| > 0 && forall i :: 0 <= i < |s| ==> IsDigit(s[i])
  }

  predicate IsDecimalString(s: string)
  {
    forall i :: 0 <= i < |s| ==> IsDecimal(s[i])
  }

  /**
   * CPython's default bound on the digits `int` converts from a string
   * (`sys.int_info.default_max_str_digits`); a longer numeral raises.
   */
  const MaxStrDigits: nat := 4300

  /** What `int` converts without raising: decimal digits only, and no more of them than the bound. */
  predicate Converts(s: string)
  {
    IsDecimalString(s) && |s| <= MaxStrDigits
  }

  // ---------------------------------------------------------------------------
  // str.split(sep) and its inverse, sep.join
  // ---------------------------------------------------------------------------

  /** `s.split(sep)`: the pieces between separators; an empty text gives one empty piece. */
  function Split(s: string, sep: char): (r: seq<string>)
    ensures |r| >= 1
    ensures forall k :: 0 <= k < |r| ==> sep !in r[k]
    decreases |s|
  {
    if s == [] then [[]]
    else
      var rest := Split(s[1..], sep);
      if s[0] == sep then [[]] + rest
      else [[s[0]] + rest[0]] + rest[1..]
  }

  /** `sep.join(ts)`. */
  function Join(ts: seq<string>, sep: char): string
    decreases |ts|
  {
    if ts == [] then []
    else if |ts| == 1 then ts[0]
    else ts[0] + [sep] + Join(ts[1..], sep)
  }

  /** Joining the pieces of a split gives back the text. */
  lemma {:induction false} JoinSplit(s: string, sep: char)
    ensures Join(Split(s, sep), sep) == s
    decreases |s|
  {
    if s != [] {
      var rest := Split(s[1..], sep);
      JoinSplit(s[1..], sep);
      if s[0] != sep {
        if |rest| > 1 {
          assert Join(rest, sep) == rest[0] + [sep] + Join(rest[1..], sep);
        }
      }
    }
  }

  lemma {:induction false} SplitPrefix(t: string, s: string, sep: char)
    requires sep !in t
    ensures Split(t + s, sep) == [t + Split(s, sep)[0]] + Split(s, sep)[1..]
    decreases |t|
  {
    if t != [] {
      assert (t + s)[1..] == t[1..] + s;
      SplitPrefix(t[1..], s, sep);
      assert [t[0]] + (t[1..] + Split(s, sep)[0]) == t + Split(s, sep)[0];
    } else {
      var r := Split(s, sep);
      assert t + s == s;
      assert t + r[0] == r[0];
      assert [r[0]] + r[1..] == r;
    }
  }

  /** Splitting a join of separator-free pieces gives back the pieces. */
  lemma {:induction false} SplitJoin(ts: seq<string>, sep: char)
    requires |ts| >= 1
    requires forall k :: 0 <= k < |ts| ==> sep !in ts[k]
    ensures Split(Join(ts, sep), sep) == ts
    decreases |ts|
  {
    if |ts| == 1 {
      SplitPrefix(ts[0], [], sep);
      assert ts[0] + [] == ts[0];
    } else {
      var rest := Join(ts[1..], sep);
      SplitJoin(ts[1..], sep);
      assert ts[0] + [sep] + rest == ts[0] + ([sep] + rest);
      SplitPrefix(ts[0], [sep] + rest, sep);
      assert ([sep] + rest)[1..] == rest;
      assert ts[0] + [] == ts[0];
    }
  }

  // ---------------------------------------------------------------------------
  // str.strip()
  // ---------------------------------------------------------------------------

  /** `s.lstrip()`: drops the whitespace that begins `s`. */
  function StripLeft(s: string): string
    decreases |s|
  {
    if s != [] && IsSpace(s[0]) then StripLeft(s[1..]) else s
  }

  /** `s.rstrip()`: drops the whitespace that ends `s`. */
  function StripRight(s: string): string
    decreases |s|
  {
    if s != [] && IsSpace(s[|s| - 1]) then StripRight(s[..|s| - 1]) else s
  }

  /** `s.strip()`: no longer than `s`, and neither begins nor ends with whitespace. */
  function Strip(s: string): (r: string)
    ensures |r| <= |s|
    ensures r == [] || (!IsSpace(r[0]) && !IsSpace(r[|r| - 1]))
  {
    StripLeftSuffix(s);
    StripRightPrefix(StripLeft(s));
    StripRight(StripLeft(s))
  }

  /** What `lstrip` keeps is a suffix after whitespace only, and it does not begin with whitespace. */
  lemma {:induction false} StripLeftSuffix(s: string)
    ensures var r := StripLeft(s);
      && |r| <= |s| && r == s[|s| - |r|..] && AllSpace(s[..|s| - |r|])
      && (r == [] || !IsSpace(r[0]))
    decreases |s|
  {
    if s != [] && IsSpace(s[0]) {
      StripLeftSuffix(s[1..]);
      var r := StripLeft(s[1..]);
      assert s[..|s| - |r|] == [s[0]] + s[1..][..|s| - 1 - |r|];
    }
  }

  /** What `rstrip` keeps is a prefix before whitespace only, and it does not end with whitespace. */
  lemma {:induction false} StripRightPrefix(s: string)
    ensures var r := StripRight(s);
      && |r| <= |s| && r == s[..|r|] && AllSpace(s[|r|..])
      && (r == [] || !IsSpace(r[|r| - 1]))
    decreases |s|
  {
    if s != [] && IsSpace(s[|s| - 1]) {
      var init := s[..|s| - 1];
      StripRightPrefix(init);
      var r := StripRight(init);
      assert s[|r|..] == init[|r|..] + [s[|s| - 1]];
    }
  }

  /**
   * `s.strip()` is the infix of `s` that is preceded and followed by
   * whitespace only and neither begins nor ends with whitespace.
   */
  lemma StripInfix(s: string)
    ensures |StripLeft(s)| <= |s|
    ensures var r, i := Strip(s), |s| - |StripLeft(s)|;
      && i + |r| <= |s| && r == s[i..i + |r|]
      && AllSpace(s[..i]) && AllSpace(s[i + |r|..])
      && (r == [] || (!IsSpace(r[0]) && !IsSpace(r[|r| - 1])))
  {
    var l := StripLeft(s);
    var i := |s| - |l|;
    StripLeftSuffix(s);
    StripRightPrefix(l);
    var r := StripRight(l);
    assert s[i..i + |r|] == l[..|r|];
    assert s[i + |r|..] == l[|r|..];
  }

  lemma {:induction false} StripAllSpace(s: string)
    requires AllSpace(s)
    ensures Strip(s) == []
    decreases |s|
  {
    if s != [] {
      StripAllSpace(s[1..]);
    }
  }

  lemma StripNoSpace(s: string)
    requires forall k :: 0 <= k < |s| ==> !IsSpace(s[k])
    ensures Strip(s) == s
  {
  }

  // ---------------------------------------------------------------------------
  // The comprehension of main.py:75
  // ---------------------------------------------------------------------------

  /** What `if h.strip().isdigit()` lets through from one token. */
  function Keep(token: string): (r: seq<string>)
    ensures |r| <= 1
    ensures forall k :: 0 <= k < |r| ==> IsDigitString(r[k])
  {
    var u := Strip(token);
    if IsDigitString(u) then [u] else []
  }

  /**
   * The stripped tokens that pass `isdigit`, in order, duplicates kept:
   * every token whose stripped form passes is kept in that form, and
   * nothing else is.
   */
  function KeptTokens(tokens: seq<string>): (r: seq<string>)
    ensures |r| <= |tokens|
    ensures forall k :: 0 <= k < |r| ==> IsDigitString(r[k])
    ensures forall k :: 0 <= k < |tokens| && IsDigitString(Strip(tokens[k])) ==> Strip(tokens[k]) in r
    ensures forall u :: u in r ==> exists k :: 0 <= k < |tokens| && Strip(tokens[k]) == u
  {
    if tokens == [] then []
    else
      var rest := KeptTokens(tokens[1..]);
      assert forall k :: 1 <= k < |tokens| ==> tokens[k] == tokens[1..][k - 1];
      Keep(tokens[0]) + rest
  }

  function DigitValue(c: char): (d: nat)
    requires IsDecimal(c)
    ensures d < 10
  {
    c as int - '0' as int
  }

  function DigitChar(d: nat): (c: char)
    requires d < 10
    ensures IsDecimal(c) && DigitValue(c) == d
  {
    ('0' as int + d) as char
  }

  /** The value of a decimal numeral, most significant digit first. */
  function DecimalValue(s: string): nat
    requires IsDecimalString(s)
  {
    if s == [] then 0
    else DecimalValue(s[..|s| - 1]) * 10 + DigitValue(s[|s| - 1])
  }

  /** Both parts convert, and the hours are those of the first part, then those of the second. */
  function AppendParsed(x: Option<seq<nat>>, y: Option<seq<nat>>): (r: Option<seq<nat>>)
    ensures r.Some? <==> x.Some? && y.Some?
  {
    if x.Some? && y.Some? then Some(x.value + y.value) else None
  }

  /**
   * `int(t)` on a token that `isdigit` accepted: fails when it holds a
   * non-decimal digit or more digits than CPython's bound.
   */
  function IntOfDigits(t: string): (r: Option<seq<nat>>)
    requires IsDigitString(t)
    ensures r.Some? <==> Converts(t)
  {
    if Converts(t) then Some([DecimalValue(t)]) else None
  }

  /**
   * Converts every token, or fails as a whole when one conversion fails, as
   * an exception inside a list comprehension does.
   */
  function ConvertAll(ts: seq<string>): (r: Option<seq<nat>>)
    requires forall k :: 0 <= k < |ts| ==> IsDigitString(ts[k])
    ensures r.Some? <==> forall k :: 0 <= k < |ts| ==> Converts(ts[k])
    ensures r.Some? ==> |r.value| == |ts|
    ensures r.Some? ==> forall k :: 0 <= k < |ts| ==> r.value[k] == DecimalValue(ts[k])
  {
    if ts == [] then Some([])
    else
      var r := AppendParsed(IntOfDigits(ts[0]), ConvertAll(ts[1..]));
      assert r.Some? ==> forall k :: 1 <= k < |ts| ==> r.value[k] == ConvertAll(ts[1..]).value[k - 1];
      r
  }

  /** Every token that passes `isdigit` once stripped also converts with `int`. */
  predicate AllConvert(ts: seq<string>)
  {
    forall k :: 0 <= k < |ts| && IsDigitString(Strip(ts[k])) ==> Converts(Strip(ts[k]))
  }

  /** `v` is the value of one of the tokens. */
  predicate TokenValue(ts: seq<string>, v: nat)
  {
    exists k :: 0 <= k < |ts| && Converts(Strip(ts[k])) && DecimalValue(Strip(ts[k])) == v
  }

  /**
   * `[int(h.strip()) for h in hours.split(",") if h.strip().isdigit()]`, or
   * None when it raises: it raises exactly when some token that passes
   * `isdigit` fails to convert, and otherwise every hour it gives is the
   * value of one of the tokens.
   */
  function ParseHours(hours: string): (r: Option<seq<nat>>)
    ensures r.Some? <==> AllConvert(Split(hours, ','))
    ensures r.Some? ==> forall j :: 0 <= j < |r.value| ==> TokenValue(Split(hours, ','), r.value[j])
  {
    KeptTokensConvert(Split(hours, ','));
    ConvertAll(KeptTokens(Split(hours, ',')))
  }

  /**
   * Converting the kept tokens succeeds exactly when every token that passes
   * `isdigit` converts, and then each value is that of some token.
   */
  lemma KeptTokensConvert(ts: seq<string>)
    ensures ConvertAll(KeptTokens(ts)).Some? <==> AllConvert(ts)
    ensures var r := ConvertAll(KeptTokens(ts));
      r.Some? ==> forall j :: 0 <= j < |r.value| ==> TokenValue(ts, r.value[j])
  {
    var kept := KeptTokens(ts);
    var r := ConvertAll(kept);
    if r.Some? {
      forall k | 0 <= k < |ts| && IsDigitString(Strip(ts[k])) ensures Converts(Strip(ts[k])) {
        var j :| 0 <= j < |kept| && kept[j] == Strip(ts[k]);
      }
      forall j | 0 <= j < |r.value|
        ensures TokenValue(ts, r.value[j])
      {
        assert kept[j] in kept;
        var k :| 0 <= k < |ts| && Strip(ts[k]) == kept[j];
        assert Converts(Strip(ts[k])) && DecimalValue(Strip(ts[k])) == r.value[j];
      }
    } else {
      var j :| 0 <= j < |kept| && !Converts(kept[j]);
      assert kept[j] in kept;
      var k :| 0 <= k < |ts| && Strip(ts[k]) == kept[j];
      assert IsDigitString(Strip(ts[k])) && !Converts(Strip(ts[k]));
    }
  }

  // ---------------------------------------------------------------------------
  // What the parse means
  // ---------------------------------------------------------------------------

  /** What a single comma-free token contributes to the hour list. */
  function ParseToken(t: string): Option<seq<nat>>
  {
    var u := Strip(t);
    if IsDigitString(u) then IntOfDigits(u) else Some([])
  }

  lemma {:induction false} SplitConcat(a: string, b: string, sep: char)
    ensures Split(a + [sep] + b, sep) == Split(a, sep) + Split(b, sep)
    decreases |a|
  {
    if a == [] {
      assert a + [sep] + b == [sep] + b;
      assert ([sep] + b)[1..] == b;
    } else {
      assert (a + [sep] + b)[1..] == a[1..] + [sep] + b;
      SplitConcat(a[1..], b, sep);
    }
  }

  lemma SplitSingle(t: string, sep: char)
    requires sep !in t
    ensures Split(t, sep) == [t]
  {
    SplitPrefix(t, [], sep);
    assert t + [] == t;
  }

  /** Keeping tokens commutes with concatenation: order and duplicates are preserved. */
  lemma {:induction false} KeptTokensConcat(x: seq<string>, y: seq<string>)
    ensures KeptTokens(x + y) == KeptTokens(x) + KeptTokens(y)
    decreases |x|
  {
    if x == [] {
      assert x + y == y;
    } else {
      calc {
        KeptTokens(x + y);
        { assert (x + y)[0] == x[0]; assert (x + y)[1..] == x[1..] + y; }
        Keep(x[0]) + KeptTokens(x[1..] + y);
        { KeptTokensConcat(x[1..], y); }
        Keep(x[0]) + (KeptTokens(x[1..]) + KeptTokens(y));
        (Keep(x[0]) + KeptTokens(x[1..])) + KeptTokens(y);
      }
    }
  }

  lemma {:induction false} ConvertAllConcat(x: seq<string>, y: seq<string>)
    requires forall k :: 0 <= k < |x| ==> IsDigitString(x[k])
    requires forall k :: 0 <= k < |y| ==> IsDigitString(y[k])
    ensures ConvertAll(x + y) == AppendParsed(ConvertAll(x), ConvertAll(y))
    decreases |x|
  {
    if x == [] {
      assert x + y == y;
      if ConvertAll(y).Some? {
        assert [] + ConvertAll(y).value == ConvertAll(y).value;
      }
    } else {
      var head := IntOfDigits(x[0]);
      calc {
        ConvertAll(x + y);
        { assert (x + y)[0] == x[0]; assert (x + y)[1..] == x[1..] + y; }
        AppendParsed(head, ConvertAll(x[1..] + y));
        { ConvertAllConcat(x[1..], y); }
        AppendParsed(head, AppendParsed(ConvertAll(x[1..]), ConvertAll(y)));
        { if head.Some? && ConvertAll(x[1..]).Some? && ConvertAll(y).Some? {
            var a, b, c := head.value, ConvertAll(x[1..]).value, ConvertAll(y).value;
            assert a + (b + c) == (a + b) + c;
          } }
        AppendParsed(AppendParsed(head, ConvertAll(x[1..])), ConvertAll(y));
      }
    }
  }

  /**
   * The parse of a comma-joined text is the parse of its first part followed
   * by the parse of its second, and fails if either part fails.
   */
  lemma ParseConcat(a: string, b: string)
    ensures ParseHours(a + [','] + b) == AppendParsed(ParseHours(a), ParseHours(b))
  {
    SplitConcat(a, b, ',');
    KeptTokensConcat(Split(a, ','), Split(b, ','));
    ConvertAllConcat(KeptTokens(Split(a, ',')), KeptTokens(Split(b, ',')));
  }

  /**
   * A comma-free token contributes its integer value when it strips to
   * decimal digits, nothing when it does not pass `isdigit` (an empty token,
   * `-1`, `x`), and fails the whole list when it holds a non-decimal digit.
   */
  lemma ParseSingleToken(t: string)
    requires ',' !in t
    ensures ParseHours(t) == ParseToken(t)
  {
    SplitSingle(t, ',');
    assert KeptTokens([t]) == Keep(t) + KeptTokens([]) == Keep(t);
    var u := Strip(t);
    if IsDigitString(u) {
      var head := IntOfDigits(u);
      assert [u][1..] == [];
      assert ConvertAll([u]) == AppendParsed(head, Some([]));
      if head.Some? {
        assert head.value + [] == head.value;
      }
    }
  }

  /** The tokens' contributions, in order; fails when any token fails. */
  function ParseTokens(ts: seq<string>): Option<seq<nat>>
  {
    if ts == [] then Some([]) else AppendParsed(ParseToken(ts[0]), ParseTokens(ts[1..]))
  }

  lemma ConvertKeep(token: string)
    ensures ConvertAll(Keep(token)) == ParseToken(token)
  {
    var u := Strip(token);
    if IsDigitString(u) {
      var head := IntOfDigits(u);
      assert [u][1..] == [];
      assert ConvertAll([u]) == AppendParsed(head, Some([]));
      if head.Some? {
        assert head.value + [] == head.value;
      }
    }
  }

  /**
   * The parse reads the tokens between commas one by one: each contributes
   * what it contributes on its own, in order, and one failing token fails
   * the whole list.
   */
  lemma {:induction false} ParseByTokens(ts: seq<string>)
    ensures ConvertAll(KeptTokens(ts)) == ParseTokens(ts)
    decreases |ts|
  {
    if ts != [] {
      ParseByTokens(ts[1..]);
      ConvertKeep(ts[0]);
      ConvertAllConcat(Keep(ts[0]), KeptTokens(ts[1..]));
    }
  }

  /** A text made only of commas and whitespace parses to the empty list. */
  lemma {:induction false} BlankParsesEmpty(h: string)
    requires forall k :: 0 <= k < |h| ==> IsSpace(h[k]) || h[k] == ','
    ensures ParseHours(h) == Some([])
    decreases |h|
  {
    if ',' in h {
      var k :| 0 <= k < |h| && h[k] == ',';
      assert h == h[..k] + [','] + h[k + 1..];
      BlankParsesEmpty(h[..k]);
      BlankParsesEmpty(h[k + 1..]);
      ParseConcat(h[..k], h[k + 1..]);
    } else {
      ParseSingleToken(h);
      assert AllSpace(h);
      StripAllSpace(h);
    }
  }

  /**
   * The parse fails only because of a non-decimal digit or an overlong
   * numeral: a text without non-decimal digits whose comma-separated pieces
   * are within the bound always parses.
   */
  lemma {:induction false} ParseFailsOnlyOnUnconvertible(h: string)
    requires forall k :: 0 <= k < |h| ==> !IsOtherDigit(h[k])
    requires forall k :: 0 <= k < |Split(h, ',')| ==> |Split(h, ',')[k]| <= MaxStrDigits
    ensures ParseHours(h).Some?
    decreases |h|
  {
    if ',' in h {
      var k :| 0 <= k < |h| && h[k] == ',';
      var a, b := h[..k], h[k + 1..];
      assert h == a + [','] + b;
      SplitConcat(a, b, ',');
      var sa, sb := Split(a, ','), Split(b, ',');
      assert forall j :: 0 <= j < |sa| ==> sa[j] == Split(h, ',')[j];
      assert forall j :: 0 <= j < |sb| ==> sb[j] == Split(h, ',')[|sa| + j];
      ParseFailsOnlyOnUnconvertible(a);
      ParseFailsOnlyOnUnconvertible(b);
      ParseConcat(a, b);
    } else {
      SplitSingle(h, ',');
      assert Split(h, ',')[0] == h;
      ParseSingleToken(h);
      var u := Strip(h);
      var i := |h| - |StripLeft(h)|;
      StripInfix(h);
      assert forall k :: 0 <= k < |u| ==> u[k] == h[i + k];
    }
  }

  /**
   * One token that passes `isdigit` but fails `int` (a non-decimal digit, or
   * more digits than the bound) rejects the whole list, wherever it stands
   * and whatever the other tokens are.
   */
  lemma OneBadTokenRejectsAll(a: string, t: string, b: string)
    requires ',' !in t
    requires IsDigitString(Strip(t)) && !Converts(Strip(t))
    ensures ParseHours(a + [','] + t + [','] + b) == None
    ensures ParseHours(t) == None
  {
    ParseSingleToken(t);
    ParseConcat(a, t);
    ParseConcat(a + [','] + t, b);
  }

  /** A leading zero does not change a numeral's value. */
  lemma {:induction false} LeadingZero(s: string)
    requires IsDecimalString(s)
    ensures IsDecimalString(['0'] + s) && DecimalValue(['0'] + s) == DecimalValue(s)
    decreases |s|
  {
    if s != [] {
      var z := ['0'] + s;
      assert z[..|z| - 1] == ['0'] + s[..|s| - 1];
      LeadingZero(s[..|s| - 1]);
    }
  }

  // ---------------------------------------------------------------------------
  // The inverse: writing an hour list in the column's format
  // ---------------------------------------------------------------------------

  /** The shortest decimal numeral of `n`. */
  function NatToDecimal(n: nat): (s: string)
    ensures |s| > 0 && IsDecimalString(s)
    ensures DecimalValue(s) == n
    ensures forall k :: 0 <= k < |s| ==> s[k] != ',' && !IsSpace(s[k])
  {
    if n < 10 then [DigitChar(n)]
    else
      var s := NatToDecimal(n / 10) + [DigitChar(n % 10)];
      assert s[..|s| - 1] == NatToDecimal(n / 10);
      s
  }

  function Numerals(hours: seq<nat>): (r: seq<string>)
    ensures |r| == |hours|
    ensures forall k :: 0 <= k < |r| ==> r[k] == NatToDecimal(hours[k])
  {
    if hours == [] then [] else [NatToDecimal(hours[0])] + Numerals(hours[1..])
  }

  /** The column's documented format: decimal hours joined by commas, e.g. "0,6,12,18". */
  function FormatHours(hours: seq<nat>): string
  {
    Join(Numerals(hours), ',')
  }

  /** Every hour's numeral is short enough for `int` to convert. */
  predicate Convertible(hours: seq<nat>)
  {
    forall k :: 0 <= k < |hours| ==> |NatToDecimal(hours[k])| <= MaxStrDigits
  }

  lemma {:induction false} KeptNumerals(hours: seq<nat>)
    ensures KeptTokens(Numerals(hours)) == Numerals(hours)
    decreases |hours|
  {
    if hours != [] {
      var ns := Numerals(hours);
      KeptNumerals(hours[1..]);
      assert ns[1..] == Numerals(hours[1..]);
      StripNoSpace(ns[0]);
      assert Keep(ns[0]) == [ns[0]];
      assert [ns[0]] + ns[1..] == ns;
    }
  }

  lemma ConvertNumerals(hours: seq<nat>)
    requires Convertible(hours)
    ensures ConvertAll(Numerals(hours)) == Some(hours)
  {
    var ns := Numerals(hours);
    assert forall k :: 0 <= k < |ns| ==> Converts(ns[k]);
    var r := ConvertAll(ns);
    assert forall k :: 0 <= k < |hours| ==> r.value[k] == DecimalValue(ns[k]) == hours[k];
    assert r.value == hours;
  }

  /**
   * Parsing reads back every hour list written in the column's format,
   * duplicates, zeros and values above 23 included, as long as no numeral
   * exceeds the digit bound of `int`.
   */
  lemma ParseFormat(hours: seq<nat>)
    requires Convertible(hours)
    ensures ParseHours(FormatHours(hours)) == Some(hours)
  {
    var ns := Numerals(hours);
    KeptNumerals(hours);
    ConvertNumerals(hours);
    if hours == [] {
      assert Split(FormatHours(hours), ',') == [[]];
    } else {
      SplitJoin(ns, ',');
    }
  }
}
