/** The ways to write an array tree in TOML, version 0.4.0, with strings on one line, and what the parser takes
    beyond them. */
module TomlStandard {
  import opened Texts
  import opened TomlSpec
  import opened TomlGrammar

  // ----- integers -----

  predicate IsDigit(c: char) {
    c in "0123456789"
  }

  /** Digits, and underscores each with a digit on either side. */
  predicate AreDigits(s: string) {
    && s != "" && IsDigit(s[0]) && IsDigit(s[|s| - 1])
    && forall k | 0 < k < |s| - 1 && !IsDigit(s[k]) :: s[k] == '_' && IsDigit(s[k - 1]) && IsDigit(s[k + 1])
  }

  /** The number that digits make behind those that make n. */
  function ValueBehind(n: int, s: string): int
    decreases |s|
  {
    if s == "" then n
    else if s[0] == '_' then ValueBehind(n, s[1..])
    else ValueBehind(10 * n + (s[0] as int - '0' as int), s[1..])
  }

  /** Digits behind a plus sign, a minus sign or none. */
  predicate SpellsTomlInt(t: string, i: int) {
    if t != "" && t[0] == '-' then AreDigits(t[1..]) && i == -ValueBehind(0, t[1..])
    else if t != "" && t[0] == '+' then AreDigits(t[1..]) && i == ValueBehind(0, t[1..])
    else AreDigits(t) && i == ValueBehind(0, t)
  }

  lemma DigitIsNumber(c: char)
    ensures IsDigit(c) <==> IsNumber(c)
    ensures IsDigit(c) ==> c != '_'
  {
  }

  lemma {:induction false} DigitsAreGrouped(s: string)
    ensures AreDigits(s) <==> IsGrouped(s)
    decreases |s|
  {
    if s != "" {
      DigitIsNumber(s[0]);
      hide IsDigit, IsNumber;
      if |s| > 1 {
        DigitIsNumber(s[1]);
        var n := if s[1] == '_' then 2 else 1;
        DigitsAreGrouped(s[n..]);
        if AreDigits(s) {
          FewerDigits(s, n);
        }
        if IsNumber(s[0]) && AreDigits(s[n..]) {
          MoreDigits(s, n);
        }
      }
    }
  }

  lemma FewerDigits(s: string, n: nat)
    requires AreDigits(s) && |s| > 1 && n == if s[1] == '_' then 2 else 1
    ensures AreDigits(s[n..])
  {
    hide IsDigit;
    if s[1] == '_' {
      DigitIsNumber('_');
      assert |s| > 2;
    }
    var r := s[n..];
    forall k | 0 < k < |r| - 1 && !IsDigit(r[k]) ensures r[k] == '_' && IsDigit(r[k - 1]) && IsDigit(r[k + 1]) {
      assert r[k] == s[k + n] && r[k - 1] == s[k + n - 1] && r[k + 1] == s[k + n + 1];
    }
  }

  lemma MoreDigits(s: string, n: nat)
    requires |s| > 1 && IsDigit(s[0]) && n == (if s[1] == '_' then 2 else 1) && AreDigits(s[n..])
    ensures AreDigits(s)
  {
    hide IsDigit;
    var r := s[n..];
    assert s[|s| - 1] == r[|r| - 1] && s[n] == r[0];
    forall k | 0 < k < |s| - 1 && !IsDigit(s[k]) ensures s[k] == '_' && IsDigit(s[k - 1]) && IsDigit(s[k + 1]) {
      if k > n {
        assert s[k] == r[k - n] && s[k - 1] == r[k - n - 1] && s[k + 1] == r[k - n + 1];
      }
    }
  }

  lemma {:induction false} ValueOfMore(n: int, s: string, c: char)
    ensures ValueBehind(n, s + [c])
            == if c == '_' then ValueBehind(n, s) else 10 * ValueBehind(n, s) + (c as int - '0' as int)
    decreases |s|
  {
    var t := s + [c];
    if s == "" {
      assert t[1..] == "";
    } else {
      assert t[1..] == s[1..] + [c];
      ValueOfMore(if s[0] == '_' then n else 10 * n + (s[0] as int - '0' as int), s[1..], c);
    }
  }

  lemma {:induction false} WithoutMore(s: string, c: char)
    ensures WithoutUnderscores(s + [c]) == WithoutUnderscores(s) + if c == '_' then "" else [c]
  {
    var t := s + [c];
    if s == "" {
      assert t[1..] == "";
    } else {
      assert t[1..] == s[1..] + [c];
      WithoutMore(s[1..], c);
    }
  }

  lemma {:induction false} DigitsHaveValue(s: string)
    ensures ValueBehind(0, s) == DecimalValue(WithoutUnderscores(s))
    decreases |s|
  {
    if s != "" {
      var front, c := s[..|s| - 1], s[|s| - 1];
      var w := WithoutUnderscores(front);
      DigitsHaveValue(front);
      assert s == front + [c];
      ValueOfMore(0, front, c);
      WithoutMore(front, c);
      hide WithoutUnderscores, ValueBehind;
      if c == '_' {
        assert w + "" == w;
      } else {
        assert (w + [c])[..|w|] == w;
      }
    }
  }

  /** Integers of TOML are the integers the parser knows; leading zeros are another matter. */
  lemma TomlIntIs(t: string, i: int)
    ensures SpellsTomlInt(t, i) <==> SpellsInt(t, i)
  {
    var n := SignLength(t);
    var digits := t[n..];
    assert n == 0 ==> digits == t;
    DigitsAreGrouped(digits);
    hide AreDigits;
    DigitsHaveValue(digits);
    if IsGrouped(digits) {
      WithoutSign(t);
    }
    hide IsGrouped, DecimalValue, ValueBehind, WithoutUnderscores;
  }

  lemma WithoutSign(t: string)
    requires IsGrouped(t[SignLength(t)..])
    ensures SignedValue(WithoutUnderscores(t))
            == var d := DecimalValue(WithoutUnderscores(t[SignLength(t)..]));
               if t != "" && t[0] == '-' then -d else d
  {
    var n := SignLength(t);
    var w := WithoutUnderscores(t[n..]);
    GroupedNotEmpty(t[n..]);
    hide DecimalValue, IsGrouped;
    if n == 1 {
      assert WithoutUnderscores(t) == [t[0]] + w;
      assert ([t[0]] + w)[1..] == w;
    } else {
      assert t[0..] == t && IsNumber(t[0]);
      assert w[0] == t[0] && w[0..] == w;
    }
  }

  // ----- strings -----

  predicate IsControl(c: char) {
    c < ' '
  }

  const ESCAPES: map<char, char> :=
    map['b' := 8 as char, 't' := '\t', 'n' := '\n', 'f' := 12 as char, 'r' := '\r', '"' := '"', '\\' := '\\']

  predicate IsHex(c: char) {
    IsNumber(c) || 'a' <= c <= 'f' || 'A' <= c <= 'F'
  }

  function HexDigit(c: char): int {
    if IsNumber(c) then c as int - '0' as int
    else if c <= 'F' then c as int - 'A' as int + 10
    else c as int - 'a' as int + 10
  }

  /** Hexadecimal digits, small and capital. */
  lemma HexDigits(c: char)
    ensures IsHex(c) <==> c in "0123456789abcdefABCDEF"
    ensures HexDigit('0') == 0 && HexDigit('9') == 9 && HexDigit('a') == HexDigit('A') == 10
    ensures HexDigit('f') == HexDigit('F') == 15
    ensures 'a' < c <= 'f' || 'A' < c <= 'F' ==> HexDigit(c) == HexDigit((c as int - 1) as char) + 1
  {
  }

  /** Control characters are those from U+0000 to U+001F. */
  lemma ControlsAre(c: char)
    ensures IsControl(c) <==> 0x00 <= c as int <= 0x1F
  {
  }

  function HexValue(s: string): int {
    if s == "" then 0 else HexValue(s[..|s| - 1]) * 16 + HexDigit(s[|s| - 1])
  }

  /** How many characters an escape has behind the backslash, by the first of them. */
  function EscapeLength(c: char): (n: nat)
    ensures n >= 1
  {
    if c == 'u' then 5 else if c == 'U' then 9 else 1
  }

  /** What stands behind a backslash, and the character it means: a letter for a special character, or the
      hexadecimal number of any character. */
  predicate SpellsEscape(t: string, c: char) {
    && t != "" && |t| == EscapeLength(t[0])
    && if t[0] == 'u' || t[0] == 'U' then (forall k | 1 <= k < |t| :: IsHex(t[k])) && HexValue(t[1..]) == c as int
       else t[0] in ESCAPES && ESCAPES[t[0]] == c
  }

  /** Four hexadecimal digits behind a small letter, eight behind a capital one. */
  lemma EscapesByNumber()
    ensures SpellsEscape("u00e9", 0xE9 as char) && SpellsEscape("U0001F600", 0x1F600 as char)
  {
    var s, t := "00e9", "0001F600";
    assert "u00e9"[1..] == s && "U0001F600"[1..] == t;
    assert s[..3] == "00e" && s[..2] == "00" && s[..1] == "0" && s[..0] == "";
    assert "00e"[..2] == "00" && "00"[..1] == "0" && "0"[..0] == "";
    assert HexValue("00") == 0 && HexValue("00e") == 14 && HexValue(s) == 0xE9;
    assert t[..7] == "0001F60" && "0001F60"[..6] == "0001F6" && "0001F6"[..5] == "0001F" && "0001F"[..4] == "0001";
    assert "0001"[..3] == "000" && "000"[..2] == "00";
    assert HexValue("0001") == 1 && HexValue("0001F") == 0x1F && HexValue("0001F6") == 0x1F6;
    assert HexValue("0001F60") == 0x1F60 && HexValue(t) == 0x1F600;
  }

  /** The inside of a basic string: escapes, and any characters but quotes, backslashes and control
      characters as themselves. */
  predicate SpellsBasic(t: string, s: string) {
    if t == "" then s == ""
    else if t[0] == '\\' then
      && |t| > 1 && |t| > EscapeLength(t[1]) && s != ""
      && SpellsEscape(t[1..1 + EscapeLength(t[1])], s[0])
      && SpellsBasic(t[1 + EscapeLength(t[1])..], s[1..])
    else t[0] != '"' && !IsControl(t[0]) && s != "" && s[0] == t[0] && SpellsBasic(t[1..], s[1..])
  }

  /** A literal string is anything on one line between apostrophes. The strict reading, which later versions
      spell out, forbids control characters but tabs here, too. */
  predicate SpellsLiteral(t: string, s: string, strict: bool) {
    && t == "'" + s + "'" && '\'' !in s && '\n' !in s
    && (strict ==> forall c | c in s :: c == '\t' || !IsControl(c))
  }

  predicate HasLeadingZero(t: string) {
    var digits := if t != "" && (t[0] == '+' || t[0] == '-') then t[1..] else t;
    |digits| > 1 && digits[0] == '0'
  }

  /** A scalar as TOML has it. What a string means and what digits mean is no matter of reading. */
  predicate SpellsToml(t: string, v: Value, strict: bool) {
    match v
    case Str(s) =>
      || (|t| >= 2 && t[0] == t[|t| - 1] == '"' && SpellsBasic(t[1..|t| - 1], s))
      || SpellsLiteral(t, s, strict)
    case Int(i) => SpellsTomlInt(t, i) && !HasLeadingZero(t)
    case Bool(b) => t == if b then "true" else "false"
    case Arr(_) => false
  }

  // ----- layout -----

  /** White space is spaces and tabs. */
  predicate IsWhite(s: string) {
    forall k | 0 <= k < |s| :: s[k] == ' ' || s[k] == '\t'
  }

  /** The rest of a line with nothing but white space and the carriage return of its line end. */
  predicate IsReturnLine(s: string) {
    s != "" && s[|s| - 1] == '\r' && IsWhite(s[..|s| - 1])
  }

  /** White space and perhaps a comment, up to a line feed, or a carriage return and a line feed; a carriage
      return behind a comment may as well be part of it. */
  ghost predicate EndsLine(s: string) {
    '\n' !in s && (IsReturnLine(s) || exists n :: 0 <= n <= |s| && IsWhite(s[..n]) && (n == |s| || s[n] == '#'))
  }

  ghost predicate IsTomlGap(g: Gap) {
    match g
    case Within(blanks) => IsWhite(blanks)
    case Over(first, middle, last) =>
      EndsLine(first) && (forall k | 0 <= k < |middle| :: EndsLine(middle[k])) && IsWhite(last)
  }

  lemma WhiteIsBlank(s: string)
    ensures IsWhite(s) <==> AllBlank(s)
  {
  }

  lemma LineEnds(s: string)
    ensures EndsLine(s) <==> IsEmptyLine(s) || IsReturnLine(s)
    ensures IsReturnLine(s) <==> s != "" && s[|s| - 1] == '\r' && AllBlank(s[..|s| - 1])
  {
    forall n | 0 <= n <= |s| ensures IsWhite(s[..n]) <==> AllBlank(s[..n]) {
      WhiteIsBlank(s[..n]);
    }
    if IsReturnLine(s) {
      assert '\n' !in s by {
        assert s == s[..|s| - 1] + ['\r'];
      }
    }
    hide AllBlank, IsWhite;
  }

  lemma TomlGapIs(g: Gap)
    ensures IsTomlGap(g) <==>
            match g
            case Within(blanks) => AllBlank(blanks)
            case Over(first, middle, last) =>
              && (IsEmptyLine(first) || IsReturnLine(first)) && AllBlank(last)
              && forall k | 0 <= k < |middle| :: IsEmptyLine(middle[k]) || IsReturnLine(middle[k])
  {
    hide AllBlank, IsWhite, EndsLine, IsEmptyLine, IsReturnLine;
    match g
    case Within(blanks) => WhiteIsBlank(blanks);
    case Over(first, middle, last) =>
      WhiteIsBlank(last);
      LineEnds(first);
      forall k | 0 <= k < |middle| ensures EndsLine(middle[k]) <==> IsEmptyLine(middle[k]) || IsReturnLine(middle[k]) {
        LineEnds(middle[k]);
      }
  }

  /** An array tree as TOML has it. */
  ghost predicate IsToml(l: Laid, strict: bool) {
    match l
    case Scalar(t, v) => SpellsToml(t, v, strict)
    case Array(open, items) => IsTomlGap(open) && AreToml(items, strict)
  }

  ghost predicate AreToml(items: Items, strict: bool) {
    match items
    case Bracket => true
    case Last(e, behind, closer) => IsToml(e, strict) && IsTomlGap(behind) && closer == ']'
    case Comma(e, behind, next, rest) =>
      IsToml(e, strict) && IsTomlGap(behind) && IsTomlGap(next) && AreToml(rest, strict)
  }

  // ----- what the parser takes beyond TOML -----

  predicate HasRawControl(t: string, strict: bool) {
    && t != ""
    && ((t[0] == '"' && exists c :: c in t && IsControl(c))
        || (t[0] == '\'' && strict && exists c :: c in t && IsControl(c) && c != '\t'))
  }

  /** No integer has leading zeros and no string holds a control character as itself. */
  predicate AllFit(l: Laid, strict: bool) {
    match l
    case Scalar(t, _) => !HasLeadingZero(t) && !HasRawControl(t, strict)
    case Array(_, items) => AllItemsFit(items, strict)
  }

  predicate AllItemsFit(items: Items, strict: bool) {
    match items
    case Bracket => true
    case Last(e, _, _) => AllFit(e, strict)
    case Comma(e, _, _, rest) => AllFit(e, strict) && AllItemsFit(rest, strict)
  }

  lemma EscapesAreCodes(c: char)
    ensures EscapeCode(c).Some? <==> c in ESCAPES
    ensures c in ESCAPES ==> EscapeCode(c).value == ESCAPES[c] && c != 'u' && c != 'U' && !IsControl(c) && c != '\n'
  {
  }

  lemma SimpleEscape(t: string, c: char)
    requires |t| > 1 && t[0] == '\\' && EscapeCode(t[1]).Some?
    ensures EscapeLength(t[1]) == 1 && (SpellsEscape(t[1..2], c) <==> EscapeCode(t[1]).value == c) && !IsControl(t[1])
  {
    EscapesAreCodes(t[1]);
    hide EscapeCode;
  }

  lemma {:induction false} BodyIsBasic(t: string, s: string)
    requires SpellsBody(t, s)
    ensures SpellsBasic(t, s) <==> forall c | c in t :: !IsControl(c)
  {
    if t != "" {
      var n := if t[0] == '\\' then 2 else 1;
      if n == 2 {
        SimpleEscape(t, s[0]);
      }
      BodyIsBasic(t[n..], s[1..]);
      hide SpellsEscape, EscapeCode, EscapeLength;
      assert t == t[..n] + t[n..];
      assert forall c | c in t[..n] :: c == t[0] || (n == 2 && c == t[1]);
      assert t[0] in t;
    }
  }

  lemma StringIsToml(t: string, s: string, strict: bool)
    requires SpellsString(t, s)
    ensures SpellsToml(t, Str(s), strict) <==> !HasRawControl(t, strict)
  {
    hide SpellsBody, SpellsBasic;
    if t[0] == '"' {
      var b := t[1..|t| - 1];
      BodyIsBasic(b, s);
      assert t == ['"'] + b + ['"'];
    } else {
      assert t == "'" + s + "'";
    }
  }

  lemma QuotedFits(t: string, s: string)
    requires SpellsString(t, s)
    ensures !HasLeadingZero(t)
  {
    hide SpellsBody;
  }

  lemma IntHasNoControl(t: string, i: int, strict: bool)
    requires SpellsInt(t, i)
    ensures !HasRawControl(t, strict)
  {
    GroupedNotEmpty(t[SignLength(t)..]);
    hide IsGrouped;
  }

  lemma ScalarIsToml(t: string, v: Value, strict: bool)
    requires SpellsScalar(t, v)
    ensures SpellsToml(t, v, strict) <==> !HasLeadingZero(t) && !HasRawControl(t, strict)
  {
    hide SpellsString, SpellsInt, SpellsTomlInt;
    match v
    case Str(s) =>
      StringIsToml(t, s, strict);
      QuotedFits(t, s);
    case Int(i) =>
      TomlIntIs(t, i);
      IntHasNoControl(t, i, strict);
    case Bool(_) =>
  }

  lemma GapIsToml(g: Gap)
    requires IsGap(g)
    ensures IsTomlGap(g)
  {
    TomlGapIs(g);
    hide IsEmptyLine, IsReturnLine, EndsLine;
  }

  /** What the parser takes for an array tree is TOML if and only if a bracket ends every array in it, no
      integer has leading zeros, and no string holds a control character as itself. */
  lemma {:induction false} LooseIsToml(l: Laid, post: Cursor, strict: bool)
    requires IsLoose(l, post)
    ensures IsToml(l, strict) <==> AllClosed(l) && AllFit(l, strict)
  {
    hide SpellsScalar, SpellsToml, IsGap, IsTomlGap, HasLeadingZero, HasRawControl;
    match l
    case Scalar(t, v) => ScalarIsToml(t, v, strict);
    case Array(open, items) =>
      GapIsToml(open);
      LooseAreToml(items, post, strict);
  }

  lemma {:induction false} LooseAreToml(items: Items, post: Cursor, strict: bool)
    requires AreLoose(items, post)
    ensures AreToml(items, strict) <==> AreClosed(items) && AllOfAllClosed(items) && AllItemsFit(items, strict)
  {
    hide IsGap, IsTomlGap, Before;
    match items
    case Bracket =>
    case Last(e, behind, closer) =>
      GapIsToml(behind);
      LooseIsToml(e, Before(behind, Prefix([closer], post)), strict);
    case Comma(e, behind, next, rest) =>
      GapIsToml(behind);
      GapIsToml(next);
      LooseIsToml(e, Before(behind, Prefix(",", Before(next, SpellItems(rest, post)))), strict);
      LooseAreToml(rest, post, strict);
  }

  // ----- what the parser does not know of TOML -----

  /** An escape by number somewhere behind a place in a string that is not inside an escape. */
  predicate EscapesNumber(t: string) {
    t != ""
    && if t[0] != '\\' || |t| == 1 then EscapesNumber(t[1..])
       else t[1] == 'u' || t[1] == 'U' || EscapesNumber(t[2..])
  }

  predicate HasUnicodeEscape(t: string) {
    t != "" && t[0] == '"' && EscapesNumber(t[1..])
  }

  /** Some line in a gap has nothing but a carriage return. */
  predicate HasReturn(g: Gap) {
    g.Over? && (IsReturnLine(g.first) || exists k :: 0 <= k < |g.middle| && IsReturnLine(g.middle[k]))
  }

  /** No string has an escape by number, and no line ends in a carriage return unless behind a comment. */
  predicate AllKnown(l: Laid) {
    match l
    case Scalar(t, _) => !HasUnicodeEscape(t)
    case Array(open, items) => !HasReturn(open) && AllItemsKnown(items)
  }

  predicate AllItemsKnown(items: Items) {
    match items
    case Bracket => true
    case Last(e, behind, _) => AllKnown(e) && !HasReturn(behind)
    case Comma(e, behind, next, rest) => AllKnown(e) && !HasReturn(behind) && !HasReturn(next) && AllItemsKnown(rest)
  }
}
