/** Texts on which the TOML parser does not keep to TOML. */
module TomlFaults {
  import opened Texts
  import opened TomlSpec
  import opened TomlGrammar
  import opened TomlStandard
  import opened TomlConformance
  import opened TomlRoundTrip

  /** An array of one scalar with nothing else in it. */
  function Single(text: string, v: Value, closer: char): Laid {
    Array(NOTHING, Last(Scalar(text, v), NOTHING, closer))
  }

  const END := Cursor("", [])

  lemma SingleText(text: string, v: Value, closer: char, post: Cursor)
    ensures Spell(Single(text, v, closer), post) == Prefix("[" + text + [closer], post)
  {
    var e := Scalar(text, v);
    var behind := Prefix([closer], post);
    PrefixTwice("", "", behind);
    assert SpellItems(Last(e, NOTHING, closer), post) == Spell(e, behind) == Prefix(text, behind);
    PrefixTwice(text, [closer], post);
    PrefixTwice("", "", Prefix(text + [closer], post));
    PrefixTwice("[", text + [closer], post);
    assert "[" + (text + [closer]) == "[" + text + [closer];
  }

  lemma SingleIsLoose(text: string, v: Value, closer: char, post: Cursor)
    requires SpellsScalar(text, v) && IsCloser(closer) && MayFollow(text, v, [closer] + post.rest)
    ensures IsLoose(Single(text, v, closer), post)
  {
    hide SpellsScalar, MayFollow;
    var e := Scalar(text, v);
    PrefixTwice("", "", Prefix([closer], post));
    assert IsLoose(e, Prefix([closer], post));
    assert AreLoose(Last(e, NOTHING, closer), post);
  }

  lemma SingleTree(text: string, v: Value, closer: char)
    requires !v.Arr?
    ensures TreeOf(Single(text, v, closer)) == Arr([v]) && Homogeneous(Arr([v]))
  {
    assert Trees(Last(Scalar(text, v), NOTHING, closer)) == [v];
  }

  lemma SingleIsRead(text: string, v: Value, closer: char, post: Cursor)
    requires SpellsScalar(text, v) && IsCloser(closer) && MayFollow(text, v, [closer] + post.rest)
    ensures var c := Prefix("[" + text + [closer], post);
            && Spell(Single(text, v, closer), post) == c && IsLoose(Single(text, v, closer), post)
            && ParseArray(c) == Parsed(Arr([v]), post)
  {
    SingleText(text, v, closer, post);
    SingleIsLoose(text, v, closer, post);
    SingleTree(text, v, closer);
    hide MayFollow, ParseArray, Spell, TreeOf, Homogeneous, IsLoose;
    ReadsArray(Single(text, v, closer), post);
  }

  /** A single scalar that is read is TOML if and only if a bracket follows, and the scalar is TOML. */
  lemma SingleIsToml(text: string, v: Value, closer: char, post: Cursor, strict: bool)
    requires SpellsScalar(text, v) && IsCloser(closer) && MayFollow(text, v, [closer] + post.rest)
    ensures (exists m: Laid :: m.Array? && IsToml(m, strict) && Spell(m, post) == Prefix("[" + text + [closer], post))
            <==> closer == ']' && !HasLeadingZero(text) && !HasRawControl(text, strict)
  {
    hide SpellsScalar, MayFollow, IsLoose, IsToml, Spell, HasLeadingZero, HasRawControl, ParseArray, Prefix;
    SingleIsRead(text, v, closer, post);
    var items := Last(Scalar(text, v), NOTHING, closer);
    assert AllItemsFit(items, strict) == AllFit(items.element, strict);
    assert AllOfAllClosed(items) == AllClosed(items.element);
    ReadIsToml(Prefix("[" + text + [closer], post), Single(text, v, closer), post, strict);
  }

  lemma DigitSpells(c: char)
    requires IsNumber(c)
    ensures SpellsInt([c], c as int - '0' as int)
  {
    assert [c][0..] == [c] && WithoutUnderscores([c][1..]) == "";
    assert WithoutUnderscores([c]) == [c];
    assert DecimalValue([c][..0]) == 0;
  }

  lemma OneMoreDigit(s: string, c: char)
    ensures DecimalValue(s + [c]) == DecimalValue(s) * 10 + (c as int - '0' as int)
  {
    assert (s + [c])[..|s|] == s;
  }

  lemma SevenSpells()
    ensures SpellsInt("007", 7)
  {
    OneMoreDigit("", '0');
    OneMoreDigit("0", '0');
    OneMoreDigit("00", '7');
    assert "" + ['0'] == "0" && "0" + ['0'] == "00" && "00" + ['7'] == "007" == "007"[0..];
    assert "007"[1..] == "07" && "07"[1..] == "7";
    NothingRemoved("007");
    hide WithoutUnderscores;
  }

  /** [1x] is read as the array of 1, and its bracket is left over. */
  lemma WrongCharacterAccepted(strict: bool)
    ensures ParseArray(Cursor("[1x]", [])) == Parsed(Arr([Int(1)]), Cursor("]", []))
    ensures !exists m: Laid :: m.Array? && IsToml(m, strict) && Spell(m, Cursor("]", [])) == Cursor("[1x]", [])
  {
    var post := Cursor("]", []);
    DigitSpells('1');
    assert "[" + "1" + ['x'] + "]" == "[1x]";
    NumberIsNoDate("1", "");
    assert MayFollow("1", Int(1), ['x'] + post.rest) by {
      hide IsDate;
      NoDate("1x]");
    }
    hide MayFollow, ParseArray, IsToml, Spell, Prefix;
    SingleIsRead("1", Int(1), 'x', post);
    SingleIsToml("1", Int(1), 'x', post, strict);
  }

  /** [007] is read as the array of 7, although TOML forbids leading zeros. */
  lemma LeadingZerosAccepted(strict: bool)
    ensures ParseArray(Cursor("[007]", [])) == Parsed(Arr([Int(7)]), END)
    ensures !exists m: Laid :: m.Array? && IsToml(m, strict) && Spell(m, END) == Cursor("[007]", [])
  {
    SevenSpells();
    assert "[" + "007" + [']'] + "" == "[007]";
    NumberIsNoDate("007", "]");
    assert HasLeadingZero("007");
    hide MayFollow, ParseArray, IsToml, Spell, Prefix, HasLeadingZero, SpellsInt;
    SingleIsRead("007", Int(7), ']', END);
    SingleIsToml("007", Int(7), ']', END, strict);
  }

  /** A control character between quotes is read, although TOML forbids it. */
  lemma ControlAccepted(c: char, strict: bool)
    requires IsControl(c) && c != '\n'
    ensures ParseArray(Cursor("[\"" + [c] + "\"]", [])) == Parsed(Arr([Str([c])]), END)
    ensures !exists m: Laid :: m.Array? && IsToml(m, strict) && Spell(m, END) == Cursor("[\"" + [c] + "\"]", [])
  {
    var t := ['"', c, '"'];
    assert t[1..2] == [c] && SpellsBody([c], [c]) by {
      assert [c][1..] == "";
    }
    assert "[" + t + [']'] + "" == "[\"" + [c] + "\"]";
    assert HasRawControl(t, strict) by {
      assert c in t;
    }
    hide ParseArray, IsToml, Spell, Prefix, SpellsBody;
    SingleIsRead(t, Str([c]), ']', END);
    SingleIsToml(t, Str([c]), ']', END, strict);
  }

  lemma EscapeSpells()
    ensures SpellsToml("\"\\u0041\"", Str("A"), true) && SpellsToml("\"\\u0041\"", Str("A"), false)
  {
    var t := "\\u0041";
    assert "\"\\u0041\""[1..|"\"\\u0041\""| - 1] == t;
    var e := t[1..6];
    assert e == "u0041" && e[1..] == "0041" && t[6..] == "" && "A"[1..] == "";
    assert "0041"[..3] == "004" && "004"[..2] == "00" && "00"[..1] == "0" && "0"[..0] == "";
    assert HexValue("0041") == 65;
  }

  lemma SingleTomlText(text: string, v: Value, strict: bool)
    requires SpellsToml(text, v, strict)
    ensures IsToml(Single(text, v, ']'), strict) && Spell(Single(text, v, ']'), END) == Prefix("[" + text + "]", END)
    ensures TreeOf(Single(text, v, ']')) == Arr([v])
  {
    SingleText(text, v, ']', END);
    hide SpellsToml;
    var items := Last(Scalar(text, v), NOTHING, ']');
    assert IsToml(items.element, strict) && AreToml(items, strict);
    assert Trees(items) == [v];
  }

  /** ["\u0041"] is TOML for the array of one letter A, and is refused. */
  lemma EscapeRefused(strict: bool)
    ensures var c := Cursor("[\"\\u0041\"]", []);
            && ParseArray(c) == Failed(InvalidEscape)
            && exists m: Laid :: m.Array? && IsToml(m, strict) && Spell(m, END) == c && TreeOf(m) == Arr([Str("A")])
  {
    var t := "\"\\u0041\"";
    EscapeSpells();
    SingleTomlText(t, Str("A"), strict);
    assert "[" + t + "]" + "" == "[\"\\u0041\"]";
    StringArrayFails(Cursor("[" + t + "]", []), []);
    hide IsToml, Spell, TreeOf, ParseArray;
  }

  const ESCAPED_A := "\"\\u0041\"]"

  lemma StringFails(c: Cursor)
    requires |c.rest| > 2 && c.rest[0] == '"' && c.rest[1] == '\\' && EscapeCode(c.rest[2]).None?
    ensures ParseString(c) == Failed(InvalidEscape)
  {
    hide EscapeCode;
  }

  lemma StringArrayFails(c: Cursor, lines: seq<string>)
    requires c == Cursor("[" + ESCAPED_A, lines)
    ensures ParseArray(c) == Failed(InvalidEscape)
  {
    hide IsDate, StringLiteral, Front;
    var d := Cursor(ESCAPED_A, lines);
    StringFails(d);
    hide ParseString;
    assert c.rest[1..] == d.rest && SkipToToken(d) == Parsed((), d);
    assert ParseValueArray(StringType, d, []) == Failed(InvalidEscape);
  }

  /** An array that goes on in the next line behind a carriage return and a line feed is TOML, and is read as
      if the carriage return ended it. */
  lemma ReturnEndsArray(strict: bool)
    ensures var c := Cursor("[1\r", ["]"]);
            && ParseArray(c) == Parsed(Arr([Int(1)]), Cursor("", ["]"]))
            && exists m: Laid :: m.Array? && IsToml(m, strict) && Spell(m, END) == c && TreeOf(m) == Arr([Int(1)])
  {
    DigitSpells('1');
    ReturnText(strict);
    hide ParseArray, IsToml, Spell, TreeOf, SpellsInt;
    ReturnIsRead();
  }

  lemma ReturnIsRead()
    requires SpellsInt("1", 1)
    ensures ParseArray(Cursor("[1\r", ["]"])) == Parsed(Arr([Int(1)]), Cursor("", ["]"]))
  {
    hide ParseArray, Spell;
    ReturnMayFollow();
    hide MayFollow;
    assert ['\r'] + "" == "\r" && "[" + "1" + ['\r'] + "" == "[1\r";
    SingleIsRead("1", Int(1), '\r', Cursor("", ["]"]));
  }

  lemma ReturnMayFollow()
    ensures MayFollow("1", Int(1), "\r")
  {
    hide IsDate;
    assert "1" + "\r" == "1\r";
    NoDate("1\r");
  }

  lemma ReturnText(strict: bool)
    requires SpellsInt("1", 1)
    ensures var m := Array(NOTHING, Last(Scalar("1", Int(1)), Over("\r", [], ""), ']'));
            IsToml(m, strict) && Spell(m, END) == Cursor("[1\r", ["]"]) && TreeOf(m) == Arr([Int(1)])
  {
    var g := Over("\r", [], "");
    var items := Last(Scalar("1", Int(1)), g, ']');
    assert IsReturnLine("\r") && "1"[0..] == "1";
    assert IsToml(items.element, strict) && IsTomlGap(g) && AreToml(items, strict);
    var behind := Before(g, Prefix("]", END));
    assert "" + ("]" + "") == "]" && [] + ["]"] + [] == ["]"];
    assert behind == Cursor("\r", ["]"]);
    assert SpellItems(items, END) == Spell(items.element, behind) == Cursor("1\r", ["]"]) by {
      assert "1" + "\r" == "1\r";
    }
    PrefixTwice("", "", Cursor("1\r", ["]"]));
    assert "[" + "1\r" == "[1\r";
    assert Trees(items) == [Int(1)];
    hide SpellsInt;
  }

  // ----- the two builds -----

  const NO_DATE := "1234-67-90T23:56:89-"

  lemma FrontIsAll(s: string, p: char -> bool)
    requires forall k | 0 <= k < |s| :: p(s[k])
    ensures Front(s, p) == |s|
  {
    FrontIs(s, p, |s|);
  }

  lemma OnlyLooksLikeDate()
    ensures Front(NO_DATE, IsDateChar) == Front(NO_DATE, InFirstValue) == |NO_DATE| == 20
    ensures LooksLikeDate(NO_DATE) && !MatchesDate(NO_DATE)
  {
    hide Front, FractionLength, HasShape;
    FrontIsAll(NO_DATE, IsDateChar);
    FrontIsAll(NO_DATE, InFirstValue);
    NoZone();
    assert NO_DATE[19..] == "-";
  }

  lemma NoZone()
    ensures FractionLength("-") == 0 && "-"[0..] == "-" && "-"[1..] == "" && !HasShape("", "00:00")
  {
  }

  lemma DigitsSpell(s: string)
    requires s != "" && AllNumbers(s)
    ensures SpellsInt(s, DecimalValue(s))
  {
    assert IsNumber(s[0]) && s[0..] == s;
    NumbersAreGrouped(s);
    NothingRemoved(s);
    hide WithoutUnderscores, IsGrouped, DecimalValue;
  }

  lemma NumberSpells()
    ensures SpellsInt("1234", 1234)
  {
    OneMoreDigit("", '1');
    OneMoreDigit("1", '2');
    OneMoreDigit("12", '3');
    OneMoreDigit("123", '4');
    assert DecimalValue("") == 0;
    hide DecimalValue, SpellsInt;
    assert "" + ['1'] == "1";
    assert "1" + ['2'] == "12";
    assert "12" + ['3'] == "123";
    assert "123" + ['4'] == "1234";
    DigitsSpell("1234");
  }

  /** The look-ahead takes for a date what the pattern does not match: a build with regular expressions reads a
      number there. */
  lemma BuildsDiffer()
    ensures ParseArray(Cursor("[" + NO_DATE, []))
            == if HAS_STD_REGEX then Parsed(Arr([Int(1234)]), Cursor("67-90T23:56:89-", [])) else Failed(Unmodelled)
  {
    var c := Cursor("[" + NO_DATE, []);
    hide ParseArray;
    OnlyLooksLikeDate();
    if HAS_STD_REGEX {
      PatternReads(c);
    } else {
      LookAheadRefuses(c);
    }
  }

  lemma PatternReads(c: Cursor)
    requires HAS_STD_REGEX && c == Cursor("[" + NO_DATE, []) && !MatchesDate(NO_DATE)
    requires Front(NO_DATE, IsDateChar) == |NO_DATE|
    ensures ParseArray(c) == Parsed(Arr([Int(1234)]), Cursor("67-90T23:56:89-", []))
  {
    hide MatchesDate, LooksLikeDate, Front, ParseArray, SpellsInt;
    var post := Cursor("67-90T23:56:89-", []);
    NumberSpells();
    Rest(post.rest);
    assert NO_DATE[..|NO_DATE|] == NO_DATE;
    assert !IsDate(NO_DATE);
    hide IsDate;
    SingleIsRead("1234", Int(1234), '-', post);
  }

  lemma Rest(rest: string)
    requires rest == "67-90T23:56:89-"
    ensures "1234" + (['-'] + rest) == NO_DATE && ("[" + "1234" + ['-']) + rest == "[" + NO_DATE
  {
  }

  lemma LookAheadRefuses(c: Cursor)
    requires !HAS_STD_REGEX && c == Cursor("[" + NO_DATE, []) && LooksLikeDate(NO_DATE)
    requires Front(NO_DATE, IsDateChar) == Front(NO_DATE, InFirstValue) == |NO_DATE|
    ensures ParseArray(c) == Failed(Unmodelled)
  {
    hide MatchesDate, LooksLikeDate, Front, ParseValueArray, ParseObjectArray, NumberType;
    assert c.rest[1..] == NO_DATE && NO_DATE[..|NO_DATE|] == NO_DATE;
    assert IsDate(NO_DATE);
    hide IsDate;
    assert SkipToToken(Cursor(NO_DATE, [])) == Parsed((), Cursor(NO_DATE, []));
  }

  predicate IsFraction(s: string) {
    |s| > 1 && s[0] == '.' && forall k | 0 < k < |s| :: IsNumber(s[k])
  }

  /** Digits of a date and a time, perhaps a fraction, and Z or an offset: what the date pattern matches. */
  predicate IsDateText(day: string, fraction: string, zone: string) {
    && HasShape(day, "0000-00-00T00:00:00")
    && (fraction == "" || IsFraction(fraction))
    && (zone == "Z" || HasShape(zone, "+00:00") || HasShape(zone, "-00:00"))
  }

  /** A zero in a shape stands for a digit, any other character for itself, and shapes join. */
  lemma ShapeOfOne(c: char, p: char)
    ensures HasShape([c], [p]) <==> if p == '0' then '0' <= c <= '9' else c == p
  {
    assert [c][0] == c && [p][0] == p;
  }

  lemma ShapeJoins(s: string, p: string, c: char, q: char)
    ensures HasShape(s + [c], p + [q]) <==> HasShape(s, p) && HasShape([c], [q])
  {
    var t, u := s + [c], p + [q];
    if HasShape(t, u) {
      assert forall k | 0 <= k < |s| :: t[k] == s[k] && u[k] == p[k];
      assert t[|s|] == c && u[|s|] == q;
    }
  }

  lemma ZoneIs(zone: string)
    ensures (zone != "" && IsSign(zone[0]) && HasShape(zone[1..], "00:00"))
            <==> HasShape(zone, "+00:00") || HasShape(zone, "-00:00")
  {
    var p, m, s := "+00:00", "-00:00", "00:00";
    assert p[1..] == s && m[1..] == s;
    if zone != "" {
      assert forall k | 0 < k < |zone| :: zone[k] == zone[1..][k - 1];
      assert forall k | 0 < k < 6 :: p[k] == m[k] == s[k - 1];
    }
  }

  lemma FractionIs(fraction: string, zone: string)
    requires fraction == "" || IsFraction(fraction)
    requires zone != "" && !IsNumber(zone[0]) && zone[0] != '.'
    ensures FractionLength(fraction + zone) == |fraction|
  {
    if fraction == "" {
      assert fraction + zone == zone;
    } else {
      assert (fraction + zone)[1..] == fraction[1..] + zone;
      FrontIs(fraction[1..] + zone, IsNumber, |fraction| - 1);
    }
    hide Front;
  }

  lemma PiecesMatch(day: string, fraction: string, zone: string)
    requires IsDateText(day, fraction, zone)
    ensures MatchesDate(day + fraction + zone)
  {
    var t := day + fraction + zone;
    ZoneIs(zone);
    assert zone != "" && !IsNumber(zone[0]) && zone[0] != '.' by {
      hide FractionLength;
    }
    FractionIs(fraction, zone);
    assert t[..19] == day && t[19..] == fraction + zone;
    assert (fraction + zone)[|fraction|..] == zone;
    hide FractionLength, HasShape;
  }

  lemma MatchHasPieces(t: string) returns (fraction: string, zone: string)
    requires MatchesDate(t)
    ensures t == t[..19] + fraction + zone && IsDateText(t[..19], fraction, zone)
  {
    var n := FractionLength(t[19..]);
    fraction, zone := t[19..][..n], t[19..][n..];
    ZoneIs(zone);
    assert t == t[..19] + t[19..];
    hide HasShape;
    if n > 0 {
      assert forall k | 0 < k < n :: fraction[k] == t[19..][1..][k - 1];
    }
    hide Front;
  }

  /** The date pattern matches exactly these texts. */
  lemma DatePattern(t: string)
    ensures MatchesDate(t) <==>
            exists day: string, fraction: string, zone: string ::
              t == day + fraction + zone && IsDateText(day, fraction, zone)
  {
    hide MatchesDate, IsDateText;
    if MatchesDate(t) {
      var fraction, zone := MatchHasPieces(t);
    }
    if day: string, fraction: string, zone: string :| t == day + fraction + zone && IsDateText(day, fraction, zone) {
      PiecesMatch(day, fraction, zone);
    }
  }
}
