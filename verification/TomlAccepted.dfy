/** What the TOML parser accepts: exactly the loose spellings of homogeneous array trees. */
module TomlAccepted {
  import opened Options
  import opened Texts
  import opened TomlSpec
  import opened TomlGrammar

  /** A place in lines that come without their line feeds. */
  predicate NoFeed(c: Cursor) {
    '\n' !in c.rest && forall k | 0 <= k < |c.lines| :: '\n' !in c.lines[k]
  }

  // ----- spellings among loose spellings -----

  lemma EndsValueFollows(t: string, v: Value, tail: string)
    requires SpellsScalar(t, v) && EndsValue(tail)
    ensures MayFollow(t, v, tail)
  {
    if v.Int? {
      NumberIsNoDate(t, tail);
    }
    hide IsDate, SpellsBody, IsGrouped;
  }

  lemma {:induction false} SpellingIsLoose(l: Laid, post: Cursor)
    requires IsSpelling(l) && (l.Scalar? ==> EndsValue(post.rest))
    ensures IsLoose(l, post) && AllClosed(l)
  {
    match l
    case Scalar(t, v) => EndsValueFollows(t, v, post.rest);
    case Array(open, items) => SpellingsAreLoose(items, post);
  }

  lemma {:induction false} SpellingsAreLoose(items: Items, post: Cursor)
    requires AreSpellings(items)
    ensures AreLoose(items, post) && AreClosed(items) && AllOfAllClosed(items)
  {
    hide EndsValue;
    match items
    case Bracket =>
    case Last(e, behind, closer) =>
      GapEndsHere(behind, ']', post);
      SpellingIsLoose(e, Before(behind, Prefix([closer], post)));
    case Comma(e, behind, next, rest) =>
      var c := Before(next, SpellItems(rest, post));
      GapEndsHere(behind, ',', c);
      SpellingsAreLoose(rest, post);
      SpellingIsLoose(e, Before(behind, Prefix(",", c)));
  }

  lemma GapEndsHere(g: Gap, c: char, post: Cursor)
    requires IsGap(g) && (c == ']' || c == ',')
    ensures EndsValue(Before(g, Prefix([c], post)).rest)
  {
    GapEndsValue(g, Prefix([c], post));
    hide IsGap, Before;
  }

  lemma {:induction false} ClosedIsSpelling(l: Laid, post: Cursor)
    requires IsLoose(l, post) && AllClosed(l)
    ensures IsSpelling(l)
  {
    match l
    case Scalar(_, _) =>
    case Array(_, items) => ClosedAreSpellings(items, post);
  }

  lemma {:induction false} ClosedAreSpellings(items: Items, post: Cursor)
    requires AreLoose(items, post) && AreClosed(items) && AllOfAllClosed(items)
    ensures AreSpellings(items)
  {
    match items
    case Bracket =>
    case Last(e, behind, closer) => ClosedIsSpelling(e, Before(behind, Prefix([closer], post)));
    case Comma(e, behind, next, rest) =>
      ClosedAreSpellings(rest, post);
      ClosedIsSpelling(e, Before(behind, Prefix(",", Before(next, SpellItems(rest, post)))));
  }

  /** A loose spelling of an array is a spelling exactly when a bracket ends every array in it. */
  lemma SpellingIffClosed(l: Laid, post: Cursor)
    requires l.Array?
    ensures IsSpelling(l) <==> IsLoose(l, post) && AllClosed(l)
  {
    hide IsSpelling, IsLoose, AllClosed;
    if IsSpelling(l) {
      SpellingIsLoose(l, post);
    }
    if IsLoose(l, post) && AllClosed(l) {
      ClosedIsSpelling(l, post);
    }
  }

  // ----- gaps and scalars are found -----

  lemma {:induction false} BlanksFound(s: string) returns (n: nat)
    ensures n <= |s| && AllBlank(s[..n]) && SkipBlanks(s) == s[n..]
  {
    if s != "" && IsBlank(s[0]) {
      var m := BlanksFound(s[1..]);
      n := m + 1;
      assert s[..n] == [s[0]] + s[1..][..m];
      assert s[1..][m..] == s[n..];
    } else {
      n := 0;
    }
  }

  /** What was skipped before a token is a gap. */
  lemma {:induction false} GapFound(c: Cursor) returns (g: Gap)
    requires NoFeed(c) && SkipToToken(c).Parsed?
    ensures var d := SkipToToken(c).at; IsGap(g) && Before(g, d) == c && BeginsToken(d.rest) && NoFeed(d)
    decreases |c.lines|
  {
    var n := BlanksFound(c.rest);
    var rest := SkipBlanks(c.rest);
    assert c.rest == c.rest[..n] + rest;
    if rest != "" && rest[0] != '#' {
      g := Within(c.rest[..n]);
    } else {
      var next := Cursor(c.lines[0], c.lines[1..]);
      assert IsEmptyLine(c.rest);
      var h := GapFound(next);
      g := GapBefore(c.rest, h, next, SkipToToken(next).at);
      hide SkipToToken;
      assert c == Cursor(c.rest, [next.rest] + next.lines);
    }
  }

  lemma GapBefore(first: string, h: Gap, next: Cursor, d: Cursor) returns (g: Gap)
    requires IsEmptyLine(first) && IsGap(h) && Before(h, d) == next
    ensures IsGap(g) && Before(g, d) == Cursor(first, [next.rest] + next.lines)
  {
    hide IsEmptyLine, AllBlank;
    match h
    case Within(blanks) =>
      g := Over(first, [], blanks);
      assert [] + [blanks + d.rest] + d.lines == [next.rest] + next.lines;
    case Over(f, middle, last) =>
      g := Over(first, [f] + middle, last);
      assert [f] + middle + [last + d.rest] + d.lines == [f] + (middle + [last + d.rest] + d.lines);
  }

  lemma Regrouped(r: string, n: nat, b: string, delim: char, tail: string, val: string, e: string, u: string)
    requires n <= |r| && r[n..] == b + [delim] + tail
    ensures r == r[..n] + b + [delim] + tail && val + e + u == val + (e + u)
  {
    assert r == r[..n] + r[n..];
  }

  lemma {:induction false} LiteralFound(r: string, lines: seq<string>, delim: char, val: string)
    returns (body: string, s: string, tail: string)
    requires StringLiteral(Cursor(r, lines), delim, val).Parsed? && '\n' !in r && (delim == '"' || delim == '\'')
    ensures r == body + [delim] + tail
    ensures StringLiteral(Cursor(r, lines), delim, val) == Parsed(val + s, Cursor(SkipBlanks(tail), lines))
    ensures if delim == '"' then SpellsBody(body, s) else body == s && '\'' !in s && '\n' !in s
    decreases |r|
  {
    hide SkipBlanks, EscapeCode;
    if delim == '"' && r[0] == '\\' {
      var e := EscapeCode(r[1]).value;
      var b, u;
      b, u, tail := LiteralFound(r[2..], lines, delim, val + [e]);
      body, s := r[..2] + b, [e] + u;
      assert body[2..] == b && s[1..] == u;
      Regrouped(r, 2, b, delim, tail, val, [e], u);
    } else if r[0] == delim {
      body, s, tail := "", "", r[1..];
      assert val + s == val;
      assert r == [delim] + tail;
    } else {
      var b, u;
      b, u, tail := LiteralFound(r[1..], lines, delim, val + [r[0]]);
      body, s := [r[0]] + b, [r[0]] + u;
      assert body[1..] == b && s[1..] == u;
      assert r[..1] == [r[0]];
      Regrouped(r, 1, b, delim, tail, val, [r[0]], u);
    }
  }

  lemma StringFound(c: Cursor) returns (t: string, tail: string)
    requires c.rest != "" && (c.rest[0] == '"' || c.rest[0] == '\'') && '\n' !in c.rest
    requires ParseString(c).Parsed?
    ensures c.rest == t + tail && SpellsString(t, ParseString(c).value.s) && MayFollow(t, ParseString(c).value, tail)
    ensures ParseString(c).at == Cursor(SkipBlanks(tail), c.lines)
  {
    hide SpellsBody, StringLiteral, SkipBlanks;
    var delim := c.rest[0];
    var body, s;
    body, s, tail := LiteralFound(c.rest[1..], c.lines, delim, "");
    t := [delim] + body + [delim];
    assert "" + s == s;
    assert c.rest == [delim] + c.rest[1..];
    assert [delim] + (body + [delim] + tail) == t + tail;
    assert t[1..|t| - 1] == body;
    if t == [t[0], t[0]] {
      assert |t| == 2;
      assert tail != "" ==> c.rest[2] == tail[0];
      assert c.rest[1] == t[1];
    }
  }

  lemma {:induction false} GroupFound(s: string, n: nat)
    requires EatNumbers(s) == Some(n) && n > 0
    ensures n <= |s| && IsGrouped(s[..n]) && (n < |s| ==> !IsNumber(s[n]) && s[n] != '_')
    decreases |s|
  {
    var step := if |s| > 1 && s[1] == '_' then 2 else 1;
    var m := EatNumbers(s[step..]).value;
    assert n == step + m;
    if m > 0 {
      GroupFound(s[step..], m);
      assert s[..n][step..] == s[step..][..m];
      assert n < |s| ==> s[n] == s[step..][m];
    } else {
      assert step == 1;
      assert |s[..n]| == 1;
      assert |s| > 1 ==> s[1..][0] == s[1];
    }
  }

  lemma Sliced(s: string, sign: nat, n: nat)
    requires sign + n <= |s|
    ensures s == s[..sign + n] + s[sign + n..] && s[..sign + n][sign..] == s[sign..][..n]
    ensures sign + n < |s| ==> s[sign..][n] == s[sign + n]
  {
  }

  lemma IntFound(c: Cursor) returns (t: string, tail: string)
    requires ParseNumber(c).Parsed?
    ensures c.rest == t + tail && SpellsInt(t, ParseNumber(c).value.i) && EndsInt(tail)
    ensures ParseNumber(c).at == Cursor(tail, c.lines)
  {
    hide EatNumbers, WithoutUnderscores, SignedValue, IsGrouped;
    var sign := SignLength(c.rest);
    var n := EatNumbers(c.rest[sign..]).value;
    GroupFound(c.rest[sign..], n);
    Sliced(c.rest, sign, n);
    t, tail := c.rest[..sign + n], c.rest[sign + n..];
    GroupedNotEmpty(c.rest[sign..][..n]);
    assert t[0] == c.rest[0];
    assert SignLength(t) == sign;
    assert tail != "" ==> tail[0] == c.rest[sign + n];
  }

  lemma BoolFound(c: Cursor) returns (t: string, tail: string)
    requires ParseBool(c).Parsed?
    ensures c.rest == t + tail && SpellsScalar(t, ParseBool(c).value) && EndsValue(tail)
    ensures ParseBool(c).at == Cursor(tail, c.lines)
  {
    var n := Front(c.rest, InBool);
    t, tail := c.rest[..n], c.rest[n..];
    hide Front;
  }

  lemma DateOrNot(c: Cursor)
    requires c.rest != "" && ParseValue(c).Parsed? && ParseValue(c).value.Int?
    ensures !IsDate(c.rest) && ParseValue(c) == ParseNumber(c)
  {
    hide IsDate, NumberType, ParseNumber, ParseString, ParseBool, ParseArray;
  }

  /** What was parsed as a scalar is one of its spellings, with what may stand behind it. */
  lemma ScalarFound(c: Cursor) returns (t: string, tail: Cursor)
    requires c.rest != "" && NoFeed(c) && ParseValue(c).Parsed? && !ParseValue(c).value.Arr?
    ensures var p := ParseValue(c);
            && c == Prefix(t, tail) && SpellsScalar(t, p.value) && MayFollow(t, p.value, tail.rest)
            && (p.at == tail || p.at == Cursor(SkipBlanks(tail.rest), tail.lines))
    ensures NoFeed(tail)
  {
    var p := ParseValue(c);
    var rest;
    if p.value.Str? {
      ByString(c);
      t, rest := StringFound(c);
    } else if p.value.Int? {
      DateOrNot(c);
      t, rest := IntFound(c);
    } else {
      ByBool(c);
      t, rest := BoolFound(c);
    }
    hide ParseValue, ParseString, ParseNumber, ParseBool, SpellsString, SpellsInt, EndsInt,
         EndsValue, IsDate, SkipBlanks;
    tail := Cursor(rest, c.lines);
  }

  lemma ByString(c: Cursor)
    requires c.rest != "" && ParseValue(c).Parsed? && ParseValue(c).value.Str?
    ensures (c.rest[0] == '"' || c.rest[0] == '\'') && ParseValue(c) == ParseString(c)
  {
    hide IsDate, NumberType, ParseNumber, ParseString, ParseBool, ParseArray;
  }

  lemma ByBool(c: Cursor)
    requires c.rest != "" && ParseValue(c).Parsed? && ParseValue(c).value.Bool?
    ensures ParseValue(c) == ParseBool(c)
  {
    hide IsDate, NumberType, ParseNumber, ParseString, ParseBool, ParseArray;
  }

  // ----- arrays are found -----

  /** What stands behind an element is a gap, and then either a comma, a gap and the next element, or a
      character that ends the array. */
  lemma SeparatorFound(at: Cursor, tail: Cursor) returns (behind: Gap, next: Gap)
    requires NoFeed(tail) && Separator(at).Parsed?
    requires at == tail || at == Cursor(SkipBlanks(tail.rest), tail.lines)
    ensures var p := Separator(at);
            && IsGap(behind) && IsGap(next) && NoFeed(p.at) && BeginsToken(p.at.rest)
            && if p.value then tail == Before(behind, Prefix(",", Before(next, p.at)))
               else p.at.rest[0] != ',' && tail == Before(behind, p.at)
  {
    hide SkipToToken, SkipBlanks, IsGap, Before;
    SkipsFromBlanks(tail);
    var b := SkipToToken(tail).at;
    behind := GapFound(tail);
    next := Within("");
    EmptyGap(b);
    if b.rest[0] == ',' {
      var c := Cursor(b.rest[1..], b.lines);
      next := GapFound(c);
      assert b == Prefix(",", c);
    }
  }

  lemma EmptyGap(c: Cursor)
    ensures IsGap(Within("")) && Before(Within(""), c) == c
  {
    assert "" + c.rest == c.rest;
  }

  lemma BracketFound(c: Cursor)
    requires c.rest != "" && NoFeed(c)
    ensures var d := Cursor(c.rest[1..], c.lines); c == Prefix([c.rest[0]], d) && NoFeed(d)
  {
  }

  lemma {:induction false} ItemsFound(t: Type, c: Cursor, arr: seq<Value>) returns (items: Items)
    requires NoFeed(c) && BeginsToken(c.rest) && ParseValueArray(t, c, arr).Parsed?
    ensures var post := ParseValueArray(t, c, arr).at;
            AreLoose(items, post) && SpellItems(items, post) == c && NoFeed(post) && !BeginsWithArray(items)
    decreases c.Size()
  {
    hide ParseValue, Separator, SpellsScalar, MayFollow, IsGap, Before, SkipBlanks;
    BracketFound(c);
    if c.rest[0] == ']' {
      items := Bracket;
    } else {
      var p := ParseValue(c);
      var text, tail := ScalarFound(c);
      var s := Separator(p.at);
      var behind, next := SeparatorFound(p.at, tail);
      var e := Scalar(text, p.value);
      if s.value {
        var rest := ItemsFound(t, s.at, arr + [p.value]);
        items := Comma(e, behind, next, rest);
      } else {
        TokenCloses(s.at.rest);
        BracketFound(s.at);
        items := Last(e, behind, s.at.rest[0]);
      }
    }
  }

  lemma TokenCloses(s: string)
    requires BeginsToken(s) && s[0] != ','
    ensures IsCloser(s[0])
  {
  }

  lemma {:induction false} ObjectsFound(c: Cursor, arr: seq<Value>) returns (items: Items)
    requires NoFeed(c) && BeginsToken(c.rest) && ParseObjectArray(c, arr).Parsed?
    ensures var post := ParseObjectArray(c, arr).at;
            AreLoose(items, post) && SpellItems(items, post) == c && NoFeed(post) && AreClosed(items)
    decreases c.Size(), 1
  {
    hide ParseArray, Separator, IsLoose, IsGap, Before, SkipBlanks;
    BracketFound(c);
    if c.rest[0] == ']' {
      items := Bracket;
    } else {
      var p := ParseArray(c);
      var e := ArrayFound(c);
      var s := Separator(p.at);
      var behind, next := SeparatorFound(p.at, p.at);
      if s.value {
        var rest := ObjectsFound(s.at, arr + [p.value]);
        items := Comma(e, behind, next, rest);
      } else {
        TokenCloses(s.at.rest);
        BracketFound(s.at);
        items := Last(e, behind, s.at.rest[0]);
      }
    }
  }

  /** Every text that is accepted as an array is a loose spelling. */
  lemma {:induction false} ArrayFound(c: Cursor) returns (l: Laid)
    requires NoFeed(c) && c.rest != "" && c.rest[0] == '[' && ParseArray(c).Parsed?
    ensures var post := ParseArray(c).at; l.Array? && IsLoose(l, post) && Spell(l, post) == c && NoFeed(post)
    decreases c.Size(), 0
  {
    hide ParseValueArray, ParseObjectArray, ValueType, Front, SkipToToken, AreLoose, SpellItems, IsGap, Before;
    BracketFound(c);
    var behind := Cursor(c.rest[1..], c.lines);
    var open := GapFound(behind);
    var d := SkipToToken(behind).at;
    var items;
    if d.rest[0] == ']' {
      BracketFound(d);
      items := Bracket;
      NoItems(ParseArray(c).at);
    } else if ValueType(d.rest[0], d.rest[..Front(d.rest, InFirstValue)]) == ArrayType {
      items := ObjectsFound(d, []);
    } else {
      items := ItemsFound(ValueType(d.rest[0], d.rest[..Front(d.rest, InFirstValue)]), d, []);
    }
    l := Array(open, items);
  }

  lemma NoItems(post: Cursor)
    ensures AreLoose(Bracket, post) && SpellItems(Bracket, post) == Prefix("]", post)
  {
  }

  /** What the parser accepts, and as what: exactly the loose spellings of homogeneous array trees. */
  lemma AcceptsExactlyLoose(c: Cursor, v: Value, post: Cursor)
    requires NoFeed(c) && c.rest != "" && c.rest[0] == '['
    ensures ParseArray(c) == Parsed(v, post) <==>
            exists l: Laid :: l.Array? && IsLoose(l, post) && Spell(l, post) == c && TreeOf(l) == v && Homogeneous(v)
  {
    hide ParseArray, IsLoose, Spell, TreeOf, Homogeneous;
    if ParseArray(c) == Parsed(v, post) {
      var l := ArrayFound(c);
      ReadsArray(l, post);
    }
    if l: Laid :| l.Array? && IsLoose(l, post) && Spell(l, post) == c && TreeOf(l) == v && Homogeneous(v) {
      ReadsArray(l, post);
    }
  }

  // ----- an accepted text has one spelling -----

  lemma SameGap(g: Gap, h: Gap, d: Cursor)
    requires Before(g, d) == Before(h, d)
    ensures g == h
  {
    assert g.Over? ==> |Before(g, d).lines| > |d.lines|;
    assert h.Over? ==> |Before(h, d).lines| > |d.lines|;
    match (g, h)
    case (Within(a), Within(b)) =>
      assert a == (a + d.rest)[..|a|] && b == (b + d.rest)[..|b|];
    case (Over(_, m, x), Over(_, n, y)) =>
      var s, t := m + [x + d.rest] + d.lines, n + [y + d.rest] + d.lines;
      assert m == s[..|m|] && n == t[..|n|];
      assert s[|m|] == x + d.rest && t[|n|] == y + d.rest;
      assert x == (x + d.rest)[..|x|] && y == (y + d.rest)[..|y|];
    case _ =>
  }

  /** Two gaps before tokens that are the same text are the same gap before the same token. */
  lemma SameToken(g: Gap, h: Gap, d: Cursor, e: Cursor)
    requires IsGap(g) && IsGap(h) && BeginsToken(d.rest) && BeginsToken(e.rest) && Before(g, d) == Before(h, e)
    ensures d == e && g == h
  {
    hide IsGap, Before, SkipToToken;
    SkipsGap(g, d);
    SkipsGap(h, e);
    SameGap(g, h, d);
  }

  lemma {:induction false} SameBody(b: string, s: string, x: string, c: string, t: string, y: string)
    requires SpellsBody(b, s) && SpellsBody(c, t) && b + "\"" + x == c + "\"" + y
    ensures b == c && s == t
    decreases |b|
  {
    var l, r := b + "\"" + x, c + "\"" + y;
    assert l[0] == if b == "" then '"' else b[0];
    assert r[0] == if c == "" then '"' else c[0];
    if b != "" {
      var n := if b[0] == '\\' then 2 else 1;
      assert n == 2 ==> l[1] == b[1] && (|c| > 1 ==> r[1] == c[1]);
      assert l[n..] == b[n..] + "\"" + x && r[n..] == c[n..] + "\"" + y;
      SameBody(b[n..], s[1..], x, c[n..], t[1..], y);
      assert b == b[..n] + b[n..] && c == c[..n] + c[n..];
      assert b[..n] == l[..n] && c[..n] == r[..n];
    }
  }

  lemma SameString(t: string, s: string, x: string, u: string, r: string, y: string)
    requires SpellsString(t, s) && SpellsString(u, r) && t + x == u + y
    requires MayFollow(t, Str(s), x) && MayFollow(u, Str(r), y)
    ensures t == u
  {
    hide SpellsBody, StringLiteral;
    assert (t + x)[0] == t[0] && (u + y)[0] == u[0];
    if t[0] == '"' {
      var b, c := t[1..|t| - 1], u[1..|u| - 1];
      assert (t + x)[1..] == b + "\"" + x && (u + y)[1..] == c + "\"" + y;
      SameBody(b, s, x, c, r, y);
      assert t == ['"'] + b + ['"'] && u == ['"'] + c + ['"'];
    } else {
      ReadsString(t, s, x, []);
      ReadsString(u, r, y, []);
      hide ParseString;
    }
  }

  lemma SameInt(t: string, i: int, x: string, u: string, j: int, y: string)
    requires SpellsInt(t, i) && SpellsInt(u, j) && EndsInt(x) && EndsInt(y) && t + x == u + y
    ensures t == u
  {
    hide IsGrouped, EatNumbers, SignedValue, WithoutUnderscores;
    var m, n := SignLength(t), SignLength(u);
    GroupedNotEmpty(t[m..]);
    GroupedNotEmpty(u[n..]);
    assert (t + x)[0] == t[0] && (u + y)[0] == u[0];
    assert (t + x)[m..] == t[m..] + x && (u + y)[n..] == u[n..] + y;
    EatsGrouped(t[m..], x);
    EatsGrouped(u[n..], y);
    assert t == (t + x)[..|t|] && u == (u + y)[..|u|];
  }

  /** A scalar ends where it ends. */
  lemma SameScalar(t: string, v: Value, x: Cursor, u: string, w: Value, y: Cursor)
    requires SpellsScalar(t, v) && MayFollow(t, v, x.rest) && SpellsScalar(u, w) && MayFollow(u, w, y.rest)
    requires Prefix(t, x) == Prefix(u, y)
    ensures t == u && v == w && x == y
  {
    assert v == w by {
      ReadsScalar(t, v, x);
      ReadsScalar(u, w, y);
      hide ParseValue, SpellsScalar, MayFollow;
    }
    hide SpellsString, SpellsInt, EndsInt, EndsValue;
    match v {
      case Str(s) => SameString(t, s, x.rest, u, s, y.rest);
      case Int(i) => SameInt(t, i, x.rest, u, i, y.rest);
      case Bool(_) =>
    }
    assert x.rest == (t + x.rest)[|t|..] && y.rest == (u + y.rest)[|u|..];
  }

  /** A text has at most one loose spelling, and it ends in one place. */
  lemma {:induction false} SameSpelling(l: Laid, p: Cursor, m: Laid, q: Cursor)
    requires IsLoose(l, p) && IsLoose(m, q) && Spell(l, p) == Spell(m, q)
    ensures l == m && p == q
  {
    SpellBegins(l, p);
    SpellBegins(m, q);
    hide SpellsScalar, MayFollow, IsGap, Before, AreClosed;
    if l.Scalar? {
      SameScalar(l.text, l.v, p, m.text, m.v, q);
    } else {
      var c, d := SpellItems(l.items, p), SpellItems(m.items, q);
      Unprefixed('[', Before(l.open, c));
      Unprefixed('[', Before(m.open, d));
      ItemsBegin(l.items, p);
      ItemsBegin(m.items, q);
      SameToken(l.open, m.open, c, d);
      SameItems(l.items, p, m.items, q);
    }
  }

  /** What stands behind an element. */
  function AtSeparator(items: Items, post: Cursor): Cursor
    requires !items.Bracket?
  {
    if items.Last? then Prefix([items.closer], post) else Prefix(",", Before(items.next, SpellItems(items.rest, post)))
  }

  lemma SeparatorBegins(items: Items, post: Cursor)
    requires AreLoose(items, post) && !items.Bracket?
    ensures var s := AtSeparator(items, post).rest; BeginsToken(s) && (s[0] == ',' <==> items.Comma?)
    ensures IsGap(items.behind) && IsLoose(items.element, Before(items.behind, AtSeparator(items, post)))
    ensures SpellItems(items, post) == Spell(items.element, Before(items.behind, AtSeparator(items, post)))
  {
    hide IsGap, Before, IsLoose;
  }

  lemma {:induction false} SameItems(items: Items, p: Cursor, others: Items, q: Cursor)
    requires AreLoose(items, p) && AreLoose(others, q) && SpellItems(items, p) == SpellItems(others, q)
    ensures items == others && p == q
  {
    ItemsBegin(items, p);
    ItemsBegin(others, q);
    Unprefixed(']', p);
    Unprefixed(']', q);
    if !items.Bracket? {
      hide IsLoose, Spell, IsGap, Before;
      var a, b := AtSeparator(items, p), AtSeparator(others, q);
      SeparatorBegins(items, p);
      SeparatorBegins(others, q);
      SameSpelling(items.element, Before(items.behind, a), others.element, Before(others.behind, b));
      SameToken(items.behind, others.behind, a, b);
      if items.Last? {
        Unprefixed(items.closer, p);
        Unprefixed(others.closer, q);
      } else {
        var c, d := SpellItems(items.rest, p), SpellItems(others.rest, q);
        Unprefixed(',', Before(items.next, c));
        Unprefixed(',', Before(others.next, d));
        ItemsBegin(items.rest, p);
        ItemsBegin(others.rest, q);
        SameToken(items.next, others.next, c, d);
        SameItems(items.rest, p, others.rest, q);
      }
    }
  }
}
