/** The ways to write an array tree that the parser knows, and that it reads them. */
module TomlGrammar {
  import opened Options
  import opened Texts
  import opened TomlSpec

  // ----- scalars -----

  /** Digits with single underscores between them. */
  predicate IsGrouped(s: string) {
    s != "" && IsNumber(s[0])
    && if |s| == 1 then true else if s[1] == '_' then IsGrouped(s[2..]) else IsGrouped(s[1..])
  }

  predicate SpellsInt(t: string, i: int) {
    IsGrouped(t[SignLength(t)..]) && SignedValue(WithoutUnderscores(t)) == i
  }

  // Lines come without their line feeds, so no text of a scalar and no comment holds one.

  /** The inside of a quoted string: escapes, and any other characters but quotes as themselves. */
  predicate SpellsBody(t: string, s: string) {
    if t == "" then s == ""
    else if t[0] == '\\' then
      |t| > 1 && s != "" && EscapeCode(t[1]) == Some(s[0]) && SpellsBody(t[2..], s[1..])
    else t[0] != '"' && t[0] != '\n' && s != "" && s[0] == t[0] && SpellsBody(t[1..], s[1..])
  }

  predicate SpellsString(t: string, s: string) {
    || (|t| >= 2 && t[0] == t[|t| - 1] == '"' && SpellsBody(t[1..|t| - 1], s))
    || (t == "'" + s + "'" && '\'' !in s && '\n' !in s)
  }

  predicate SpellsScalar(t: string, v: Value) {
    match v
    case Str(s) => SpellsString(t, s)
    case Int(i) => SpellsInt(t, i)
    case Bool(b) => t == if b then "true" else "false"
    case Arr(_) => false
  }

  // ----- layout -----

  predicate AllBlank(s: string) {
    forall k | 0 <= k < |s| :: IsBlank(s[k])
  }

  /** A line that holds at most a comment. */
  ghost predicate IsEmptyLine(s: string) {
    '\n' !in s && exists n | 0 <= n <= |s| :: AllBlank(s[..n]) && (n == |s| || s[n] == '#')
  }

  /** What may stand between two tokens: blanks on a line, or the rest of that line, further lines and the
      beginning of the next. */
  datatype Gap = Within(blanks: string) | Over(first: string, middle: seq<string>, last: string)

  ghost predicate IsGap(g: Gap) {
    match g
    case Within(blanks) => AllBlank(blanks)
    case Over(first, middle, last) =>
      IsEmptyLine(first) && (forall k | 0 <= k < |middle| :: IsEmptyLine(middle[k])) && AllBlank(last)
  }

  /** A gap in front of what stands at a place. */
  function Before(g: Gap, c: Cursor): Cursor {
    match g
    case Within(blanks) => Cursor(blanks + c.rest, c.lines)
    case Over(first, middle, last) => Cursor(first, middle + [last + c.rest] + c.lines)
  }

  function Prefix(t: string, c: Cursor): Cursor {
    Cursor(t + c.rest, c.lines)
  }

  /** An array tree as it is written. */
  datatype Laid = Scalar(text: string, v: Value) | Array(open: Gap, items: Items)

  /** The elements and the end of an array: a bracket, also behind a last comma; a last element, the gap
      behind it and the character that ends the array; or an element, the gap behind it, a comma and the
      gap behind that. */
  datatype Items =
    | Bracket
    | Last(element: Laid, behind: Gap, closer: char)
    | Comma(element: Laid, behind: Gap, next: Gap, rest: Items)

  function TreeOf(l: Laid): Value {
    match l
    case Scalar(_, v) => v
    case Array(_, items) => Arr(Trees(items))
  }

  function Trees(items: Items): seq<Value> {
    match items
    case Bracket => []
    case Last(e, _, _) => [TreeOf(e)]
    case Comma(e, _, _, rest) => [TreeOf(e)] + Trees(rest)
  }

  /** The text of a tree in front of what stands at a place. */
  function Spell(l: Laid, post: Cursor): Cursor {
    match l
    case Scalar(t, _) => Prefix(t, post)
    case Array(open, items) => Prefix("[", Before(open, SpellItems(items, post)))
  }

  /** The text of some last elements of an array, and of its end. */
  function SpellItems(items: Items, post: Cursor): Cursor {
    match items
    case Bracket => Prefix("]", post)
    case Last(e, behind, closer) => Spell(e, Before(behind, Prefix([closer], post)))
    case Comma(e, behind, next, rest) => Spell(e, Before(behind, Prefix(",", Before(next, SpellItems(rest, post)))))
  }

  /** A spelling: scalars and gaps as they should be, and every array ended by a bracket. */
  ghost predicate IsSpelling(l: Laid) {
    match l
    case Scalar(t, v) => SpellsScalar(t, v)
    case Array(open, items) => IsGap(open) && AreSpellings(items)
  }

  ghost predicate AreSpellings(items: Items) {
    match items
    case Bracket => true
    case Last(e, behind, closer) => IsSpelling(e) && IsGap(behind) && closer == ']'
    case Comma(e, behind, next, rest) => IsSpelling(e) && IsGap(behind) && IsGap(next) && AreSpellings(rest)
  }

  // ----- what the parser takes for a spelling -----

  /** What may stand behind a scalar so that it ends there. */
  predicate MayFollow(t: string, v: Value, tail: string) {
    match v
    case Str(_) => t != "" && (t == [t[0], t[0]] ==> tail == "" || tail[0] != t[0])
    case Int(_) => EndsInt(tail) && !IsDate(t + tail)
    case _ => EndsValue(tail)
  }

  /** Whether a text can stand behind any scalar. */
  predicate EndsValue(tail: string) {
    tail == "" || tail[0] in {',', ']', '#', ' ', '\t'}
  }

  predicate EndsInt(tail: string) {
    tail == "" || !(IsNumber(tail[0]) || tail[0] == '_' || IsFloatMark(tail[0]))
  }

  predicate IsCloser(c: char) {
    !IsBlank(c) && c != '#' && c != ','
  }

  /** What the parser takes for a spelling in front of a place: an array of scalars may be ended by any
      character that is no blank, hash or comma, and such a character may stand right behind a string or a
      number. */
  ghost predicate IsLoose(l: Laid, post: Cursor) {
    match l
    case Scalar(t, v) => SpellsScalar(t, v) && MayFollow(t, v, post.rest)
    case Array(open, items) => IsGap(open) && AreLoose(items, post) && (BeginsWithArray(items) ==> AreClosed(items))
  }

  ghost predicate AreLoose(items: Items, post: Cursor) {
    match items
    case Bracket => true
    case Last(e, behind, closer) =>
      IsGap(behind) && IsCloser(closer) && IsLoose(e, Before(behind, Prefix([closer], post)))
    case Comma(e, behind, next, rest) =>
      && IsGap(behind) && IsGap(next) && AreLoose(rest, post)
      && IsLoose(e, Before(behind, Prefix(",", Before(next, SpellItems(rest, post)))))
  }

  predicate BeginsWithArray(items: Items) {
    !items.Bracket? && items.element.Array?
  }

  /** A bracket ends these elements. */
  predicate AreClosed(items: Items) {
    match items
    case Bracket => true
    case Last(_, _, closer) => closer == ']'
    case Comma(_, _, _, rest) => AreClosed(rest)
  }

  /** A bracket ends every array. */
  predicate AllClosed(l: Laid) {
    l.Array? ==> AreClosed(l.items) && AllOfAllClosed(l.items)
  }

  predicate AllOfAllClosed(items: Items) {
    match items
    case Bracket => true
    case Last(e, _, _) => AllClosed(e)
    case Comma(e, _, _, rest) => AllClosed(e) && AllOfAllClosed(rest)
  }

  // ----- gaps are skipped -----

  predicate BeginsToken(s: string) {
    s != "" && !IsBlank(s[0]) && s[0] != '#'
  }

  lemma {:induction false} SkipsBlanks(blanks: string, s: string)
    requires AllBlank(blanks)
    ensures SkipBlanks(blanks + s) == SkipBlanks(s)
  {
    if blanks == "" {
      assert blanks + s == s;
    } else {
      assert (blanks + s)[1..] == blanks[1..] + s;
      SkipsBlanks(blanks[1..], s);
    }
  }

  lemma EmptyLineSkips(s: string)
    requires IsEmptyLine(s)
    ensures var r := SkipBlanks(s); r == "" || r[0] == '#'
  {
    var n :| 0 <= n <= |s| && AllBlank(s[..n]) && (n == |s| || s[n] == '#');
    hide AllBlank, IsEmptyLine;
    SkipsBlanks(s[..n], s[n..]);
    assert s == s[..n] + s[n..];
    NothingToSkip(s[n..]);
    hide SkipBlanks;
  }

  lemma NothingToSkip(s: string)
    requires s == "" || s[0] == '#'
    ensures SkipBlanks(s) == s
  {
  }

  lemma SkipsToken(blanks: string, c: Cursor)
    requires AllBlank(blanks) && BeginsToken(c.rest)
    ensures SkipToToken(Prefix(blanks, c)) == Parsed((), c)
  {
    SkipsBlanks(blanks, c.rest);
  }

  lemma {:induction false} SkipsLines(middle: seq<string>, last: string, c: Cursor, first: string)
    requires IsEmptyLine(first) && (forall k | 0 <= k < |middle| :: IsEmptyLine(middle[k]))
    requires AllBlank(last) && BeginsToken(c.rest)
    ensures SkipToToken(Cursor(first, middle + [last + c.rest] + c.lines)) == Parsed((), c)
    decreases |middle|
  {
    hide IsEmptyLine;
    EmptyLineSkips(first);
    var lines := middle + [last + c.rest] + c.lines;
    if middle == [] {
      assert lines[0] == last + c.rest && lines[1..] == c.lines;
      SkipsToken(last, c);
    } else {
      assert lines[0] == middle[0] && lines[1..] == middle[1..] + [last + c.rest] + c.lines;
      SkipsLines(middle[1..], last, c, middle[0]);
    }
  }

  /** Whatever gap stands in front of a token, the token is found. */
  lemma SkipsGap(g: Gap, c: Cursor)
    requires IsGap(g) && BeginsToken(c.rest)
    ensures SkipToToken(Before(g, c)) == Parsed((), c)
  {
    match g
    case Within(blanks) => SkipsToken(blanks, c);
    case Over(first, middle, last) => SkipsLines(middle, last, c, first);
  }

  lemma {:induction false} SkipBlanksTwice(s: string)
    ensures SkipBlanks(SkipBlanks(s)) == SkipBlanks(s)
  {
  }

  /** A token is found from behind the blanks in front of it, too. */
  lemma SkipsFromBlanks(c: Cursor)
    ensures SkipToToken(Cursor(SkipBlanks(c.rest), c.lines)) == SkipToToken(c)
  {
    SkipBlanksTwice(c.rest);
  }

  // ----- scalars are read -----

  lemma GapEndsValue(g: Gap, c: Cursor)
    requires IsGap(g) && EndsValue(c.rest)
    ensures EndsValue(Before(g, c).rest)
  {
    match g
    case Within(blanks) =>
      if blanks != "" {
        assert IsBlank(blanks[0]);
      }
    case Over(first, middle, last) =>
      if first != "" {
        var n :| 0 <= n <= |first| && AllBlank(first[..n]) && (n == |first| || first[n] == '#');
        if n > 0 {
          assert IsBlank(first[..n][0]);
        }
      }
  }

  lemma {:induction false} ReadsBody(t: string, s: string, tail: string, lines: seq<string>, val: string)
    requires SpellsBody(t, s)
    ensures StringLiteral(Cursor(t + "\"" + tail, lines), '"', val) == Parsed(val + s, Cursor(SkipBlanks(tail), lines))
    decreases |t|
  {
    hide SkipBlanks, EscapeCode;
    var text := t + "\"" + tail;
    if t == "" {
      assert text[1..] == tail && val + s == val;
    } else {
      var n := if t[0] == '\\' then 2 else 1;
      assert text[n..] == t[n..] + "\"" + tail;
      assert val + [s[0]] + s[1..] == val + s;
      ReadsBody(t[n..], s[1..], tail, lines, val + [s[0]]);
    }
  }

  lemma {:induction false} ReadsRaw(s: string, tail: string, lines: seq<string>, val: string)
    requires '\'' !in s
    ensures StringLiteral(Cursor(s + "'" + tail, lines), '\'', val) == Parsed(val + s, Cursor(SkipBlanks(tail), lines))
    decreases |s|
  {
    hide SkipBlanks;
    var text := s + "'" + tail;
    if s == "" {
      assert text[1..] == tail && val + s == val;
    } else {
      assert text[1..] == s[1..] + "'" + tail;
      assert val + [s[0]] + s[1..] == val + s;
      ReadsRaw(s[1..], tail, lines, val + [s[0]]);
    }
  }

  lemma ReadsQuoted(t: string, s: string, tail: string, lines: seq<string>)
    requires |t| >= 2 && t[0] == t[|t| - 1] == '"' && SpellsBody(t[1..|t| - 1], s) && MayFollow(t, Str(s), tail)
    ensures ParseString(Cursor(t + tail, lines)) == Parsed(Str(s), Cursor(SkipBlanks(tail), lines))
  {
    var body := t[1..|t| - 1];
    var text := t + tail;
    assert text[1..] == body + "\"" + tail;
    ReadsBody(body, s, tail, lines, "");
    assert "" + s == s;
    hide StringLiteral, SkipBlanks, EscapeCode;
    if body == "" {
      assert |text| >= 3 ==> text[2] == tail[0];
    } else {
      assert text[1] == body[0] != '"';
    }
  }

  lemma ReadsApostrophes(s: string, tail: string, lines: seq<string>)
    requires '\'' !in s && MayFollow("'" + s + "'", Str(s), tail)
    ensures ParseString(Cursor("'" + s + "'" + tail, lines)) == Parsed(Str(s), Cursor(SkipBlanks(tail), lines))
  {
    var text := "'" + s + "'" + tail;
    assert text[1..] == s + "'" + tail;
    ReadsRaw(s, tail, lines, "");
    assert "" + s == s;
    hide StringLiteral, SkipBlanks;
    if s == "" {
      assert |text| >= 3 ==> text[2] == tail[0];
    } else {
      assert text[1] == s[0];
    }
  }

  lemma {:induction false} EatsGrouped(s: string, tail: string)
    requires IsGrouped(s) && EndsInt(tail)
    ensures EatNumbers(s + tail) == Some(|s|)
    decreases |s|
  {
    var text := s + tail;
    if |s| == 1 {
      assert text[1..] == tail;
    } else {
      var n := if s[1] == '_' then 2 else 1;
      assert text[n..] == s[n..] + tail;
      assert text[1] == s[1];
      assert n == 2 ==> s[2..] != "" && text[2] == s[2] == s[2..][0];
      EatsGrouped(s[n..], tail);
    }
  }

  lemma ReadsInt(t: string, i: int64, tail: string, lines: seq<string>)
    requires SpellsInt(t, i) && EndsInt(tail)
    ensures ParseNumber(Cursor(t + tail, lines)) == Parsed(Int(i), Cursor(tail, lines))
  {
    hide EatNumbers, WithoutUnderscores, SignedValue;
    var text := t + tail;
    var sign := SignLength(t);
    assert IsGrouped(t[sign..]);
    hide IsGrouped;
    assert t[sign..] != "" by { GroupedNotEmpty(t[sign..]); }
    assert SignLength(text) == sign;
    assert text[sign..] == t[sign..] + tail;
    EatsGrouped(t[sign..], tail);
    assert text[..|t|] == t && text[|t|..] == tail;
    assert tail != "" ==> text[|t|] == tail[0];
  }

  lemma GroupedNotEmpty(s: string)
    requires IsGrouped(s)
    ensures s != "" && IsNumber(s[0])
  {
  }

  lemma ReadsBool(b: bool, tail: string, lines: seq<string>)
    requires EndsValue(tail)
    ensures var t := if b then "true" else "false";
            ParseBool(Cursor(t + tail, lines)) == Parsed(Bool(b), Cursor(tail, lines))
  {
    var t := if b then "true" else "false";
    FrontIs(t + tail, InBool, |t|);
    assert (t + tail)[..|t|] == t && (t + tail)[|t|..] == tail;
  }

  // ----- types are seen -----

  function TypeOf(v: Value): Type {
    match v
    case Str(_) => StringType
    case Int(_) => IntType
    case Bool(_) => BoolType
    case Arr(_) => ArrayType
  }

  lemma {:induction false} GroupedChars(s: string, k: nat)
    requires IsGrouped(s) && k < |s|
    ensures IsNumber(s[k]) || s[k] == '_'
    decreases |s|
  {
    var n := if |s| > 1 && s[1] == '_' then 2 else 1;
    if k >= n {
      assert s[k] == s[n..][k - n];
      GroupedChars(s[n..], k - n);
    }
  }

  /** Every date, in either build, has a dash in the fifth place. */
  lemma DateHasDash(t: string)
    requires MatchesDate(t) || LooksLikeDate(t)
    ensures |t| >= 20 && t[4] == '-'
  {
    hide FractionLength;
    if MatchesDate(t) {
      assert HasShape(t[..19], "0000-00-00T00:00:00");
      hide MatchesDate;
      assert t[..19][4] == '-';
    }
  }

  lemma NoDate(s: string)
    requires Front(s, IsDateChar) < 5 || !IsDateChar(s[4]) || s[4] != '-'
    ensures !IsDate(s)
  {
    var t := s[..Front(s, IsDateChar)];
    assert |t| > 4 ==> t[4] == s[4];
    hide MatchesDate, LooksLikeDate;
    if IsDate(s) {
      DateHasDash(t);
    }
  }

  /** A number is no date: its fifth character is no dash. */
  lemma NumberIsNoDate(t: string, tail: string)
    requires IsGrouped(t[SignLength(t)..]) && EndsValue(tail)
    ensures !IsDate(t + tail)
  {
    var text := t + tail;
    var sign := SignLength(t);
    if Front(text, IsDateChar) >= 5 {
      assert text[4] != '-' by {
        assert IsDateChar(text[4]);
        if 4 < |t| {
          GroupedChars(t[sign..], 4 - sign);
          assert t[4] == t[sign..][4 - sign];
        } else {
          assert 4 >= |t| > 0;
          assert IsDateChar(text[|t|]);
          assert text[|t|] == tail[0];
        }
      }
    }
    NoDate(text);
  }

  lemma NoPointFollows(g: string, tail: string)
    requires IsGrouped(g) && EndsInt(tail)
    ensures var text := g + tail; var n := Front(text, IsNumber); n < |text| ==> text[n] != '.'
  {
    var text := g + tail;
    forall k | 0 <= k < |g| ensures text[k] != '.' {
      GroupedChars(g, k);
    }
    if tail != "" {
      assert text[|g|] == tail[0];
      assert Front(text, IsNumber) <= |g|;
    }
  }

  lemma TypeOfInt(t: string, tail: string)
    requires IsGrouped(t[SignLength(t)..]) && EndsInt(tail) && !IsDate(t + tail)
    ensures t != "" && ValueType(t[0], t + tail) == IntType
  {
    var sign := SignLength(t);
    GroupedNotEmpty(t[sign..]);
    NoPointFollows(t[sign..], tail);
    hide IsDate, IsGrouped, Front;
    assert SignLength(t + tail) == sign;
    assert (t + tail)[sign..] == t[sign..] + tail;
  }

  lemma ScalarBegins(t: string, v: Value)
    requires SpellsScalar(t, v)
    ensures BeginsToken(t) && t[0] != ']' && t[0] != ',' && t[0] != '['
  {
    if v.Int? {
      GroupedNotEmpty(t[SignLength(t)..]);
    }
    hide IsGrouped, SpellsBody;
  }

  /** The front of a cut text is the front of the text if the text is not cut inside it. */
  lemma FrontOfCut(s: string, p: char -> bool, m: nat)
    requires m <= |s| && (m < |s| ==> !p(s[m]))
    ensures Front(s[..m], p) == Front(s, p) <= m
  {
    var n := Front(s, p);
    assert n <= m;
    FrontIs(s[..m], p, n);
  }

  lemma DateOfCut(s: string, m: nat)
    requires m <= |s| && (m < |s| ==> !IsDateChar(s[m]))
    ensures IsDate(s[..m]) == IsDate(s)
  {
    FrontOfCut(s, IsDateChar, m);
    assert s[..m][..Front(s, IsDateChar)] == s[..Front(s, IsDateChar)];
  }

  lemma NumberTypeOfCut(s: string, m: nat)
    requires 0 < m <= |s| && (m < |s| ==> !IsNumber(s[m]) && s[m] != '.')
    ensures NumberType(s[..m]) == NumberType(s)
  {
    var sign := SignLength(s);
    assert SignLength(s[..m]) == sign;
    assert s[..m][sign..] == s[sign..][..m - sign];
    FrontOfCut(s[sign..], IsNumber, m - sign);
  }

  /** Cutting a text where the first element may end does not change its type. */
  lemma CutType(text: string)
    requires text != "" && InFirstValue(text[0])
    ensures ValueType(text[0], text[..Front(text, InFirstValue)]) == ValueType(text[0], text)
  {
    var m := Front(text, InFirstValue);
    DateOfCut(text, m);
    NumberTypeOfCut(text, m);
    hide IsDate, NumberType;
  }

  /** The type of a scalar is seen from its text. */
  lemma SeesType(t: string, v: Value, tail: string)
    requires SpellsScalar(t, v) && MayFollow(t, v, tail)
    ensures t != "" && InFirstValue((t + tail)[0]) && ValueType((t + tail)[0], t + tail) == TypeOf(v)
  {
    ScalarBegins(t, v);
    if v.Int? {
      TypeOfInt(t, tail);
    } else if v.Bool? {
      FrontIs(t + tail, IsDateChar, 0);
    }
    hide IsDate, NumberType, SpellsBody, IsGrouped;
  }

  lemma Bracketed(text: string)
    requires text != "" && text[0] == '['
    ensures ValueType(text[0], text) == ArrayType
  {
    FrontIs(text, IsDateChar, 0);
  }

  // ----- elements are read -----

  lemma ReadsString(t: string, s: string, tail: string, lines: seq<string>)
    requires SpellsString(t, s) && MayFollow(t, Str(s), tail)
    ensures ParseString(Cursor(t + tail, lines)) == Parsed(Str(s), Cursor(SkipBlanks(tail), lines))
  {
    hide SpellsBody, ParseString, SkipBlanks, MayFollow;
    if t == "'" + s + "'" && '\'' !in s {
      ReadsApostrophes(s, tail, lines);
    } else {
      ReadsQuoted(t, s, tail, lines);
    }
  }

  /** A scalar is read from in front of whatever may stand behind it. */
  lemma ReadsScalar(t: string, v: Value, tail: Cursor)
    requires SpellsScalar(t, v) && MayFollow(t, v, tail.rest)
    ensures Prefix(t, tail).rest != ""
    ensures var p := ParseValue(Prefix(t, tail));
            && p.Parsed? && p.value == v
            && (p.at == tail || p.at == Cursor(SkipBlanks(tail.rest), tail.lines))
  {
    hide ValueType, ParseString, ParseNumber, ParseBool, ParseArray, EndsValue,
         EndsInt, IsDate, SpellsString, SpellsInt;
    hide SkipBlanks;
    ScalarBegins(t, v);
    SeesType(t, v, tail.rest);
    match v
    case Str(s) => ReadsString(t, s, tail.rest, tail.lines);
    case Int(i) => ReadsInt(t, i, tail.rest, tail.lines);
    case Bool(b) => ReadsBool(b, tail.rest, tail.lines);
  }

  // ----- arrays are read -----

  lemma SpellBegins(l: Laid, post: Cursor)
    requires IsLoose(l, post)
    ensures var s := Spell(l, post).rest; BeginsToken(s) && s[0] != ']' && s[0] != ',' && (s[0] == '[' <==> l.Array?)
  {
    if l.Scalar? {
      ScalarBegins(l.text, l.v);
    }
    hide SpellsScalar, IsGap, SpellItems, MayFollow;
  }

  lemma ItemsBegin(items: Items, post: Cursor)
    requires AreLoose(items, post)
    ensures var s := SpellItems(items, post).rest; BeginsToken(s) && (s[0] == ']' <==> items.Bracket?)
  {
    match items
    case Bracket =>
    case Last(e, behind, closer) => SpellBegins(e, Before(behind, Prefix([closer], post)));
    case Comma(e, behind, next, rest) =>
      SpellBegins(e, Before(behind, Prefix(",", Before(next, SpellItems(rest, post)))));
  }

  lemma Unprefixed(c: char, d: Cursor)
    ensures var p := Prefix([c], d); p.rest != "" && p.rest[0] == c && Cursor(p.rest[1..], p.lines) == d
  {
    assert ([c] + d.rest)[1..] == d.rest;
  }

  /** Behind an element a gap and a character that ends the array are found. */
  lemma ReadsEnd(behind: Gap, closer: char, post: Cursor, at: Cursor)
    requires IsGap(behind) && IsCloser(closer)
    requires var tail := Before(behind, Prefix([closer], post));
             at == tail || at == Cursor(SkipBlanks(tail.rest), tail.lines)
    ensures Separator(at) == Parsed(false, Prefix([closer], post))
  {
    hide SkipToToken, IsGap, Before, SkipBlanks;
    var b := Prefix([closer], post);
    Unprefixed(closer, post);
    SkipsGap(behind, b);
    SkipsFromBlanks(Before(behind, b));
  }

  /** Behind an element a gap, a comma and a gap lead to the next element. */
  lemma ReadsComma(behind: Gap, next: Gap, c: Cursor, at: Cursor)
    requires IsGap(behind) && IsGap(next) && BeginsToken(c.rest)
    requires var tail := Before(behind, Prefix(",", Before(next, c)));
             at == tail || at == Cursor(SkipBlanks(tail.rest), tail.lines)
    ensures Separator(at) == Parsed(true, c)
  {
    hide SkipToToken, IsGap, Before, SkipBlanks;
    var b := Prefix(",", Before(next, c));
    Unprefixed(',', Before(next, c));
    SkipsGap(behind, b);
    SkipsFromBlanks(Before(behind, b));
    SkipsGap(next, c);
  }

  /** What the parser makes of one element; an array among scalars is an array or an error. */
  lemma ReadsElement(l: Laid, post: Cursor)
    requires IsLoose(l, post)
    ensures Spell(l, post).rest != ""
    ensures var p := ParseValue(Spell(l, post));
            if l.Array? then p.Parsed? ==> p.value.Arr?
            else p.Parsed? && p.value == TreeOf(l)
                 && (p.at == post || p.at == Cursor(SkipBlanks(post.rest), post.lines))
  {
    SpellBegins(l, post);
    if l.Scalar? {
      ReadsScalar(l.text, l.v, post);
    } else {
      Bracketed(Spell(l, post).rest);
      hide ValueType, ParseArray;
    }
  }

  predicate AllOf(values: seq<Value>, t: Type) {
    forall v | v in values :: HasType(v, t)
  }

  predicate AllArrays(values: seq<Value>) {
    forall v | v in values :: v.Arr? && Homogeneous(v)
  }

  lemma AllOfMore(v: Value, values: seq<Value>, t: Type)
    ensures AllOf([v] + values, t) == (HasType(v, t) && AllOf(values, t)) && AllOf([], t)
    ensures AllArrays([v] + values) == (v.Arr? && Homogeneous(v) && AllArrays(values)) && AllArrays([])
  {
    hide Homogeneous;
    assert v in [v] + values;
  }

  lemma TypeOfTree(l: Laid, post: Cursor)
    requires IsLoose(l, post)
    ensures TreeOf(l).Arr? <==> l.Array?
  {
  }

  /** The rest of an array of one scalar type is read; an element of another type is an error. */
  lemma {:induction false} ReadsValues(items: Items, t: Type, post: Cursor, arr: seq<Value>)
    requires AreLoose(items, post) && t != ArrayType
    ensures var p := ParseValueArray(t, SpellItems(items, post), arr);
            if AllOf(Trees(items), t) then p == Parsed(Arr(arr + Trees(items)), post) else p.Failed?
  {
    hide TreeOf, Spell, Before, ParseValue, Separator, AllOf, IsLoose, IsGap, SkipBlanks;
    ItemsBegin(items, post);
    match items
    case Bracket =>
      Unprefixed(']', post);
      assert arr + [] == arr;
      AllOfMore(Int(0), [], t);
    case Last(e, behind, closer) =>
      var tail := Before(behind, Prefix([closer], post));
      ReadsElement(e, tail);
      TypeOfTree(e, tail);
      AllOfMore(TreeOf(e), [], t);
      assert [TreeOf(e)] + [] == [TreeOf(e)];
      if !e.Array? {
        ReadsEnd(behind, closer, post, ParseValue(Spell(e, tail)).at);
        Unprefixed(closer, post);
      }
    case Comma(e, behind, next, rest) =>
      var tail := Before(behind, Prefix(",", Before(next, SpellItems(rest, post))));
      ReadsElement(e, tail);
      TypeOfTree(e, tail);
      AllOfMore(TreeOf(e), Trees(rest), t);
      if !e.Array? {
        ItemsBegin(rest, post);
        ReadsComma(behind, next, SpellItems(rest, post), ParseValue(Spell(e, tail)).at);
        ReadsValues(rest, t, post, arr + [TreeOf(e)]);
        assert arr + [TreeOf(e)] + Trees(rest) == arr + ([TreeOf(e)] + Trees(rest));
      }
  }

  /** The rest of an array of arrays is read; anything else among them is an error. */
  lemma {:induction false} ReadsObjects(items: Items, post: Cursor, arr: seq<Value>)
    requires AreLoose(items, post) && AreClosed(items)
    ensures var p := ParseObjectArray(SpellItems(items, post), arr);
            if AllArrays(Trees(items)) then p == Parsed(Arr(arr + Trees(items)), post) else p.Failed?
  {
    hide TreeOf, Spell, Before, ParseArray, Separator, AllArrays, Homogeneous, IsLoose, IsGap, SkipBlanks;
    ItemsBegin(items, post);
    match items
    case Bracket =>
      Unprefixed(']', post);
      assert arr + [] == arr;
      AllOfMore(Int(0), [], ArrayType);
    case Last(e, behind, closer) =>
      var tail := Before(behind, Prefix([closer], post));
      SpellBegins(e, tail);
      TypeOfTree(e, tail);
      AllOfMore(TreeOf(e), [], ArrayType);
      assert [TreeOf(e)] + [] == [TreeOf(e)];
      if e.Array? {
        ReadsArray(e, tail);
        ReadsEnd(behind, closer, post, tail);
        Unprefixed(closer, post);
      }
    case Comma(e, behind, next, rest) =>
      var tail := Before(behind, Prefix(",", Before(next, SpellItems(rest, post))));
      SpellBegins(e, tail);
      TypeOfTree(e, tail);
      AllOfMore(TreeOf(e), Trees(rest), ArrayType);
      if e.Array? {
        ReadsArray(e, tail);
        ItemsBegin(rest, post);
        ReadsComma(behind, next, SpellItems(rest, post), tail);
        ReadsObjects(rest, post, arr + [TreeOf(e)]);
        assert arr + [TreeOf(e)] + Trees(rest) == arr + ([TreeOf(e)] + Trees(rest));
      }
  }

  lemma HomogeneousFirst(v: Value, values: seq<Value>)
    ensures Homogeneous(Arr([v] + values)) == if v.Arr? then AllArrays([v] + values) else AllOf([v] + values, TypeOf(v))
  {
    var a := [v] + values;
    assert a[0] == v;
    assert forall w | w in a :: exists k | 0 <= k < |a| :: a[k] == w;
    hide TypeOf;
    TypeIsSame(v, a);
  }

  lemma TypeIsSame(v: Value, a: seq<Value>)
    ensures !v.Arr? ==> forall k | 0 <= k < |a| :: SameType(v, a[k]) == HasType(a[k], TypeOf(v))
    ensures !v.Arr? ==> forall k | 0 <= k < |a| && SameType(v, a[k]) :: Homogeneous(a[k])
    ensures v.Arr? ==> forall k | 0 <= k < |a| :: SameType(v, a[k]) == a[k].Arr?
  {
  }

  lemma FirstTree(items: Items)
    requires !items.Bracket?
    ensures Trees(items) != [] && Trees(items)[0] == TreeOf(items.element)
    ensures Trees(items) == [TreeOf(items.element)] + Trees(items)[1..]
  {
    hide TreeOf;
  }

  /** The parser goes by the type of the first element. */
  lemma ArrayByFirst(open: Gap, items: Items, post: Cursor)
    requires IsGap(open) && AreLoose(items, post)
    ensures Spell(Array(open, items), post).rest != ""
    ensures var c := SpellItems(items, post);
            ParseArray(Spell(Array(open, items), post))
            == if items.Bracket? then Parsed(Arr([]), post)
               else var t := TypeOf(TreeOf(items.element));
                    if t == ArrayType then ParseObjectArray(c, []) else ParseValueArray(t, c, [])
  {
    hide ParseObjectArray, ParseValueArray, ValueType, Front, SkipToToken, Before, IsGap, IsLoose;
    var c := SpellItems(items, post);
    Unprefixed('[', Before(open, c));
    ItemsBegin(items, post);
    SkipsGap(open, c);
    Unprefixed(']', post);
    if !items.Bracket? {
      FirstType(items, post);
      CutType(c.rest);
    }
    hide SpellItems, TreeOf;
  }

  lemma FirstType(items: Items, post: Cursor)
    requires AreLoose(items, post) && !items.Bracket?
    ensures var s := SpellItems(items, post).rest;
            s != "" && InFirstValue(s[0]) && ValueType(s[0], s) == TypeOf(TreeOf(items.element))
  {
    var tail := if items.Last? then Before(items.behind, Prefix([items.closer], post))
                else Before(items.behind, Prefix(",", Before(items.next, SpellItems(items.rest, post))));
    hide Before, ValueType;
    var e := items.element;
    SpellBegins(e, tail);
    if e.Array? {
      Bracketed(Spell(e, tail).rest);
    } else {
      SeesType(e.text, e.v, tail.rest);
    }
  }

  /** Whatever the parser takes for a spelling of an array tree, it parses as that tree, and exactly the
      text is consumed, if and only if the tree is homogeneous; a tree that is not is refused. */
  lemma {:induction false} ReadsArray(l: Laid, post: Cursor)
    requires l.Array? && IsLoose(l, post)
    ensures Spell(l, post).rest != ""
    ensures var p := ParseArray(Spell(l, post));
            if Homogeneous(TreeOf(l)) then p == Parsed(TreeOf(l), post) else p.Failed?
  {
    hide Spell, SpellItems, ParseArray, ParseValueArray, ParseObjectArray, AllOf, AllArrays, Trees;
    var items := l.items;
    assert IsGap(l.open) && AreLoose(items, post);
    ArrayByFirst(l.open, items, post);
    if items.Bracket? {
      NoTrees(items);
    } else {
      FirstTree(items);
      HomogeneousFirst(TreeOf(items.element), Trees(items)[1..]);
      hide Homogeneous;
      var all := Trees(items);
      assert [] + all == all;
      if TreeOf(items.element).Arr? {
        FirstIsArray(items, post);
        ReadsObjects(items, post, []);
      } else {
        ReadsValues(items, TypeOf(TreeOf(items.element)), post, []);
      }
    }
  }

  lemma NoTrees(items: Items)
    requires items.Bracket?
    ensures Trees(items) == [] && Homogeneous(Arr([]))
  {
  }

  lemma FirstIsArray(items: Items, post: Cursor)
    requires AreLoose(items, post) && !items.Bracket? && TreeOf(items.element).Arr?
    ensures BeginsWithArray(items)
  {
  }
}
