/** Where the TOML parser and writer keep to TOML, and where they do not. */
module TomlConformance {
  import opened Texts
  import opened TomlSpec
  import opened TomlGrammar
  import opened TomlAccepted
  import opened TomlStandard
  import opened TomlRoundTrip

  // ----- TOML that the parser knows -----

  lemma {:induction false} BasicIsBody(t: string, s: string)
    requires SpellsBasic(t, s)
    ensures SpellsBody(t, s) <==> !EscapesNumber(t + "\"")
    decreases |t|
  {
    var all := t + "\"";
    if t != "" {
      assert all[0] == t[0];
      if t[0] == '\\' {
        assert all[1] == t[1];
        EscapesAreCodes(t[1]);
        if t[1] != 'u' && t[1] != 'U' {
          assert all[2..] == t[2..] + "\"";
          assert t[1..2] == [t[1]];
          BasicIsBody(t[2..], s[1..]);
        }
      } else {
        assert all[1..] == t[1..] + "\"";
        BasicIsBody(t[1..], s[1..]);
      }
    }
    hide EscapeCode, ESCAPES;
  }

  lemma TomlScalarKnown(t: string, v: Value, strict: bool)
    requires SpellsToml(t, v, strict)
    ensures SpellsScalar(t, v) <==> !HasUnicodeEscape(t)
  {
    hide SpellsBasic, SpellsBody, EscapesNumber;
    match v
    case Str(s) =>
      if t[0] == '"' {
        var b := t[1..|t| - 1];
        assert t[1..] == b + "\"";
        BasicIsBody(b, s);
      }
    case Int(i) =>
      TomlIntIs(t, i);
      IntIsNoString(t, i);
      hide SpellsTomlInt, SpellsInt;
    case Bool(_) =>
  }

  lemma IntIsNoString(t: string, i: int)
    requires SpellsInt(t, i)
    ensures t != "" && t[0] != '"' && t[0] != '\''
  {
    GroupedNotEmpty(t[SignLength(t)..]);
    hide IsGrouped;
  }

  lemma ReturnIsNotEmpty(s: string)
    requires IsReturnLine(s)
    ensures !IsEmptyLine(s)
  {
    var r := |s| - 1;
    assert s[..|s|] == s && !AllBlank(s) && !IsBlank(s[r]);
    forall n | 0 <= n < |s| ensures s[n] != '#' {
      assert n < r ==> s[n] == s[..r][n] && IsBlank(s[..r][n]);
    }
  }

  lemma TomlGapKnown(g: Gap)
    requires IsTomlGap(g)
    ensures IsGap(g) <==> !HasReturn(g)
  {
    if g.Over? {
      if IsReturnLine(g.first) {
        ReturnIsNotEmpty(g.first);
      }
      forall k | 0 <= k < |g.middle| && IsReturnLine(g.middle[k]) ensures !IsEmptyLine(g.middle[k]) {
        ReturnIsNotEmpty(g.middle[k]);
      }
      hide IsReturnLine, IsEmptyLine, AllBlank;
    }
  }

  /** A spelling of TOML is one that the parser takes if and only if no string has an escape by number and no
      line in it ends in a carriage return, unless behind a comment. */
  lemma {:induction false} TomlIsKnown(l: Laid, strict: bool)
    requires IsToml(l, strict)
    ensures IsSpelling(l) <==> AllKnown(l)
  {
    hide SpellsScalar, SpellsToml, IsGap, IsTomlGap, HasUnicodeEscape, HasReturn;
    match l
    case Scalar(t, v) => TomlScalarKnown(t, v, strict);
    case Array(open, items) =>
      TomlGapKnown(open);
      TomlAreKnown(items, strict);
  }

  lemma {:induction false} TomlAreKnown(items: Items, strict: bool)
    requires AreToml(items, strict)
    ensures AreSpellings(items) <==> AllItemsKnown(items)
  {
    hide IsGap, IsTomlGap, HasReturn;
    match items
    case Bracket =>
    case Last(e, behind, _) =>
      TomlGapKnown(behind);
      TomlIsKnown(e, strict);
    case Comma(e, behind, next, rest) =>
      TomlGapKnown(behind);
      TomlGapKnown(next);
      TomlIsKnown(e, strict);
      TomlAreKnown(rest, strict);
  }

  // ----- a text of TOML, and what the parser takes it for -----

  /** What may stand behind a scalar in TOML. */
  predicate EndsToml(tail: string) {
    EndsValue(tail) || tail[0] == '\r'
  }

  lemma GapEndsToml(g: Gap, c: Cursor)
    requires IsTomlGap(g) && EndsValue(c.rest)
    ensures EndsToml(Before(g, c).rest)
  {
    if IsGap(g) {
      GapEndsValue(g, c);
    } else if g.Over? && IsReturnLine(g.first) {
      var s := g.first;
      assert s != "" && (|s| > 1 ==> s[..|s| - 1][0] == s[0]);
    } else if g.Over? {
      GapEndsValue(Over(g.first, [], ""), c);
    }
    hide IsReturnLine, IsEmptyLine;
  }

  lemma {:induction false} SameBasic(b: string, s: string, x: string, c: string, t: string, y: string)
    requires SpellsBasic(b, s) && SpellsBody(c, t) && b + "\"" + x == c + "\"" + y
    ensures b == c && s == t
    decreases |b|
  {
    var l, r := b + "\"" + x, c + "\"" + y;
    assert l[0] == if b == "" then '"' else b[0];
    assert r[0] == if c == "" then '"' else c[0];
    if b != "" {
      var n := if b[0] == '\\' then 2 else 1;
      if n == 2 {
        assert l[1] == b[1] == r[1] == c[1];
        SimpleEscape(c, s[0]);
        assert b[1..2] == [b[1]] == c[1..2];
      }
      assert l[n..] == b[n..] + "\"" + x && r[n..] == c[n..] + "\"" + y;
      SameBasic(b[n..], s[1..], x, c[n..], t[1..], y);
      assert b == b[..n] + b[n..] && c == c[..n] + c[n..];
      assert b[..n] == l[..n] && c[..n] == r[..n];
    }
  }

  lemma TomlBegins(t: string, v: Value, strict: bool)
    requires SpellsToml(t, v, strict)
    ensures t != "" && t[0] !in {']', ',', '[', '\r', '#', ' ', '\t'}
    ensures match v
            case Str(_) => t[0] == '"' || t[0] == '\''
            case Int(_) => IsNumber(t[0]) || IsSign(t[0])
            case Bool(_) => t[0] == 't' || t[0] == 'f'
            case Arr(_) => true
  {
    if v.Int? {
      TomlIntIs(t, v.i);
      GroupedNotEmpty(t[SignLength(t)..]);
    }
    hide IsGrouped, SpellsBasic, SpellsTomlInt;
  }

  lemma KindOfText(t: string, v: Value)
    requires SpellsScalar(t, v)
    ensures t != "" && t[0] != '\r'
    ensures match v
            case Str(_) => t[0] == '"' || t[0] == '\''
            case Int(_) => IsNumber(t[0]) || IsSign(t[0])
            case Bool(_) => t[0] == 't' || t[0] == 'f'
            case Arr(_) => true
  {
    if v.Int? {
      GroupedNotEmpty(t[SignLength(t)..]);
    }
    hide IsGrouped, SpellsBody;
  }

  lemma {:induction false} SameLiteral(s: string, x: string, r: string, y: string)
    requires '\'' !in s && '\'' !in r && s + "'" + x == r + "'" + y
    ensures s == r
  {
    var l, k := s + "'" + x, r + "'" + y;
    assert l[0] == if s == "" then '\'' else s[0];
    assert k[0] == if r == "" then '\'' else r[0];
    if s != "" {
      assert l[1..] == s[1..] + "'" + x && k[1..] == r[1..] + "'" + y;
      SameLiteral(s[1..], x, r[1..], y);
    }
  }

  lemma SameTomlString(t: string, s: string, x: string, u: string, r: string, y: string, strict: bool)
    requires SpellsToml(t, Str(s), strict) && SpellsString(u, r) && t + x == u + y
    ensures t == u && s == r
  {
    hide SpellsBasic, SpellsBody;
    assert (t + x)[0] == t[0] && (u + y)[0] == u[0];
    if t[0] == '"' {
      var b, c := t[1..|t| - 1], u[1..|u| - 1];
      assert (t + x)[1..] == b + "\"" + x && (u + y)[1..] == c + "\"" + y;
      SameBasic(b, s, x, c, r, y);
      assert t == ['"'] + b + ['"'] && u == ['"'] + c + ['"'];
    } else {
      assert (t + x)[1..] == s + "'" + x && (u + y)[1..] == r + "'" + y;
      SameLiteral(s, x, r, y);
    }
  }

  /** What the parser takes for a scalar in a text of TOML is the scalar that stands there. */
  lemma SameTomlScalar(t: string, v: Value, x: Cursor, u: string, w: Value, y: Cursor, strict: bool)
    requires SpellsToml(t, v, strict) && EndsToml(x.rest) && SpellsScalar(u, w) && MayFollow(u, w, y.rest)
    requires Prefix(t, x) == Prefix(u, y)
    ensures t == u && v == w && x == y
  {
    TomlBegins(t, v, strict);
    KindOfText(u, w);
    assert (t + x.rest)[0] == t[0] && (u + y.rest)[0] == u[0];
    match v {
      case Str(s) => SameTomlString(t, s, x.rest, u, w.s, y.rest, strict);
      case Int(i) =>
        TomlIntIs(t, i);
        SameInt(t, i, x.rest, u, w.i, y.rest);
      case Bool(_) => assert (t + x.rest)[..|t|] == t && (u + y.rest)[..|u|] == u;
    }
    hide SpellsString, SpellsInt, SpellsTomlInt, EndsInt, EndsValue, SpellsBasic;
    assert x.rest == (t + x.rest)[|t|..] && y.rest == (u + y.rest)[|u|..];
  }

  lemma {:induction false} ReturnFound(first: string, middle: seq<string>, last: string, d: Cursor) returns (g: Gap)
    requires IsTomlGap(Over(first, middle, last)) && HasReturn(Over(first, middle, last)) && BeginsToken(d.rest)
    ensures IsTomlGap(g) && SkipToToken(Before(Over(first, middle, last), d)) == Parsed((), Prefix("\r", Before(g, d)))
    decreases |middle|
  {
    var c := Before(Over(first, middle, last), d);
    if IsReturnLine(first) {
      var blanks := first[..|first| - 1];
      assert first == blanks + "\r";
      SkipsBlanks(blanks, "\r");
      g := Over("", middle, last);
      assert "\r" + "" == "\r";
      assert AllBlank(""[..0]);
    } else {
      EmptyLineSkips(first);
      hide IsReturnLine, IsEmptyLine;
      g := ReturnFound(middle[0], middle[1..], last, d);
      assert c.lines[0] == middle[0] && c.lines[1..] == middle[1..] + [last + d.rest] + d.lines;
    }
  }

  /** In a gap of TOML the parser finds the token behind it, or a carriage return. */
  lemma TokenInGap(g: Gap, d: Cursor, h: Gap, e: Cursor) returns (left: Gap)
    requires IsTomlGap(g) && BeginsToken(d.rest) && IsGap(h) && BeginsToken(e.rest) && Before(g, d) == Before(h, e)
    ensures if HasReturn(g) then IsTomlGap(left) && e == Prefix("\r", Before(left, d)) else g == h && d == e
  {
    left := NOTHING;
    TomlGapKnown(g);
    if HasReturn(g) {
      left := ReturnFound(g.first, g.middle, g.last, d);
      hide IsGap, IsTomlGap, HasReturn, Before, SkipToToken;
      SkipsGap(h, e);
    } else {
      hide IsTomlGap, HasReturn, Before;
      SameToken(g, h, d, e);
    }
  }

  /** A place behind an element inside a text of TOML: how the arrays go on that are open there. */
  datatype Open =
    | Done
    | Close(behind: Gap, outer: Open)
    | More(behind: Gap, next: Gap, items: Items, outer: Open)
  {
    ghost predicate IsToml(strict: bool) {
      match this
      case Done => true
      case Close(behind, outer) => IsTomlGap(behind) && outer.IsToml(strict)
      case More(behind, next, items, outer) =>
        IsTomlGap(behind) && IsTomlGap(next) && AreToml(items, strict) && outer.IsToml(strict)
    }

    function Depth(): nat {
      if Done? then 0 else 1 + outer.Depth()
    }

    function Separator(p: Cursor): Cursor
      requires !Done?
      decreases this, 0
    {
      if Close? then Prefix("]", outer.Place(p)) else Prefix(",", Before(next, SpellItems(items, outer.Place(p))))
    }

    function Place(p: Cursor): Cursor
      decreases this, 1
    {
      if Done? then p else Before(behind, Separator(p))
    }
  }

  /** Behind the first of some elements. */
  function Behind(items: Items, outer: Open): Open
    requires !items.Bracket?
  {
    if items.Last? then Close(items.behind, outer) else More(items.behind, items.next, items.rest, outer)
  }

  lemma BehindIsToml(items: Items, o: Open, p: Cursor, strict: bool)
    requires AreToml(items, strict) && o.IsToml(strict) && !items.Bracket?
    ensures var b := Behind(items, o);
            && b.IsToml(strict) && b.Depth() == o.Depth() + 1 && IsToml(items.element, strict)
            && SpellItems(items, o.Place(p)) == Spell(items.element, b.Place(p))
  {
    hide IsToml, IsTomlGap, Spell, Before;
  }

  lemma PlaceEnds(o: Open, p: Cursor, strict: bool)
    requires o.IsToml(strict) && !o.Done?
    ensures EndsToml(o.Place(p).rest)
  {
    GapEndsToml(o.behind, o.Separator(p));
    hide IsTomlGap, EndsToml, Before;
  }

  lemma TomlItemsBegin(items: Items, post: Cursor, strict: bool)
    requires AreToml(items, strict)
    ensures var s := SpellItems(items, post).rest; BeginsToken(s) && (s[0] == ']' <==> items.Bracket?)
  {
    if !items.Bracket? && items.element.Scalar? {
      TomlBegins(items.element.text, items.element.v, strict);
    }
    hide SpellsToml, IsTomlGap, Before;
  }

  lemma LooseItemsBegin(items: Items, post: Cursor)
    requires AreLoose(items, post)
    ensures var s := SpellItems(items, post).rest; BeginsToken(s) && s[0] != '\r'
  {
    ItemsBegin(items, post);
    if !items.Bracket? && items.element.Scalar? {
      KindOfText(items.element.text, items.element.v);
    }
    hide SpellsScalar, IsGap, Before, MayFollow;
  }

  /** Where the parser takes a text for an element, there is the element, or it ends too early. */
  lemma {:induction false} SameElement(e: Laid, o: Open, f: Laid, b: Cursor, p: Cursor, strict: bool) returns (r: Open)
    requires IsToml(e, strict) && o.IsToml(strict) && (o.Done? ==> e.Array?) && IsLoose(f, b)
    requires Spell(e, o.Place(p)) == Spell(f, b)
    ensures r.IsToml(strict) && r.Place(p) == b && ((e == f && r == o) || r.Depth() > o.Depth())
    decreases f
  {
    SpellBegins(f, b);
    if e.Scalar? {
      TomlBegins(e.text, e.v, strict);
      PlaceEnds(o, p, strict);
      hide SpellsToml, SpellsScalar, EndsToml, MayFollow;
      SameTomlScalar(e.text, e.v, o.Place(p), f.text, f.v, b, strict);
      r := o;
    } else {
      hide IsTomlGap, IsGap, Before, SpellItems, AreToml, AreLoose, AreClosed;
      var c, d := SpellItems(e.items, o.Place(p)), SpellItems(f.items, b);
      Unprefixed('[', Before(e.open, c));
      Unprefixed('[', Before(f.open, d));
      TomlItemsBegin(e.items, o.Place(p), strict);
      LooseItemsBegin(f.items, b);
      var left := TokenInGap(e.open, c, f.open, d);
      Unprefixed('\r', Before(left, c));
      r := SameRest(e.items, o, f.items, b, p, strict);
    }
  }

  lemma {:induction false} SameRest(items: Items, o: Open, others: Items, q: Cursor, p: Cursor, strict: bool)
    returns (r: Open)
    requires AreToml(items, strict) && o.IsToml(strict) && AreLoose(others, q)
    requires SpellItems(items, o.Place(p)) == SpellItems(others, q)
    ensures r.IsToml(strict) && r.Place(p) == q && ((items == others && r == o) || r.Depth() > o.Depth())
    decreases others, 1
  {
    ItemsBegin(others, q);
    TomlItemsBegin(items, o.Place(p), strict);
    if items.Bracket? {
      Unprefixed(']', o.Place(p));
      Unprefixed(']', q);
      r := o;
    } else {
      BehindIsToml(items, o, p, strict);
      SeparatorBegins(others, q);
      hide AreToml, AreLoose, SpellItems, IsLoose, IsToml, Before;
      var b := Before(others.behind, AtSeparator(others, q));
      var s := SameElement(items.element, Behind(items, o), others.element, b, p, strict);
      r := GoesOn(s, others, q, p, strict);
    }
  }

  /** Behind an element the parser goes on as TOML does, or ends the array at a carriage return. */
  lemma {:induction false} GoesOn(o: Open, others: Items, q: Cursor, p: Cursor, strict: bool) returns (r: Open)
    requires o.IsToml(strict) && !o.Done? && AreLoose(others, q) && !others.Bracket?
    requires o.Place(p) == Before(others.behind, AtSeparator(others, q))
    ensures r.IsToml(strict) && r.Place(p) == q
    ensures r.Depth() >= o.Depth()
            || (r == o.outer && o == Behind(others, r) && (others.Last? ==> others.closer == ']'))
    decreases others, 0
  {
    var d, e := o.Separator(p), AtSeparator(others, q);
    SeparatorBegins(others, q);
    SeparatorIsToken(o, p);
    hide AreToml, IsTomlGap, IsGap, Before, SpellItems, IsLoose;
    var left := TokenInGap(o.behind, d, others.behind, e);
    if HasReturn(o.behind) {
      Unprefixed('\r', Before(left, d));
      Unprefixed(others.closer, q);
      r := o.(behind := left);
    } else if o.Close? {
      Unprefixed(']', o.outer.Place(p));
      Unprefixed(others.closer, q);
      r := o.outer;
    } else {
      var c, b := SpellItems(o.items, o.outer.Place(p)), SpellItems(others.rest, q);
      Unprefixed(',', Before(o.next, c));
      Unprefixed(',', Before(others.next, b));
      TomlItemsBegin(o.items, o.outer.Place(p), strict);
      LooseItemsBegin(others.rest, q);
      var rest := TokenInGap(o.next, c, others.next, b);
      Unprefixed('\r', Before(rest, c));
      r := SameRest(o.items, o.outer, others.rest, q, p, strict);
    }
  }

  lemma SeparatorIsToken(o: Open, p: Cursor)
    requires !o.Done?
    ensures var s := o.Separator(p).rest; BeginsToken(s) && s[0] == if o.Close? then ']' else ','
  {
    hide Before;
  }

  // ----- what is read -----

  /** A place stands before another one if more of the text is left. */
  predicate StandsBefore(c: Cursor, d: Cursor) {
    |c.lines| > |d.lines| || (|c.lines| == |d.lines| && |c.rest| > |d.rest|)
  }

  predicate NotBehind(c: Cursor, d: Cursor) {
    c == d || StandsBefore(c, d)
  }

  lemma GapNotBehind(g: Gap, c: Cursor)
    ensures NotBehind(Before(g, c), c)
  {
    match g
    case Within(blanks) => assert blanks == "" ==> blanks + c.rest == c.rest;
    case Over(_, _, _) =>
  }

  lemma PrefixBefore(t: string, c: Cursor)
    requires t != ""
    ensures StandsBefore(Prefix(t, c), c)
  {
  }

  lemma PrefixNotBehind(t: string, c: Cursor)
    ensures NotBehind(Prefix(t, c), c)
  {
    assert t == "" ==> t + c.rest == c.rest;
  }

  lemma {:induction false} SpellNotBehind(l: Laid, post: Cursor)
    ensures NotBehind(Spell(l, post), post)
  {
    hide Before, Prefix;
    match l
    case Scalar(t, _) => PrefixNotBehind(t, post);
    case Array(open, items) =>
      var c := SpellItems(items, post);
      ItemsNotBehind(items, post);
      GapNotBehind(open, c);
      PrefixNotBehind("[", Before(open, c));
  }

  lemma {:induction false} ItemsNotBehind(items: Items, post: Cursor)
    ensures NotBehind(SpellItems(items, post), post)
  {
    hide Before, Prefix;
    match items
    case Bracket => PrefixNotBehind("]", post);
    case Last(e, behind, closer) =>
      var c := Prefix([closer], post);
      PrefixNotBehind([closer], post);
      GapNotBehind(behind, c);
      SpellNotBehind(e, Before(behind, c));
    case Comma(e, behind, next, rest) =>
      var c := SpellItems(rest, post);
      var d := Prefix(",", Before(next, c));
      ItemsNotBehind(rest, post);
      GapNotBehind(next, c);
      PrefixNotBehind(",", Before(next, c));
      GapNotBehind(behind, d);
      SpellNotBehind(e, Before(behind, d));
  }

  lemma {:induction false} OpenStandsBefore(o: Open, p: Cursor)
    requires !o.Done?
    ensures StandsBefore(o.Place(p), p)
  {
    hide Before, Prefix;
    var c := o.outer.Place(p);
    if !o.outer.Done? {
      OpenStandsBefore(o.outer, p);
    }
    GapNotBehind(o.behind, o.Separator(p));
    if o.Close? {
      PrefixBefore("]", c);
    } else {
      ItemsNotBehind(o.items, c);
      GapNotBehind(o.next, SpellItems(o.items, c));
      PrefixBefore(",", Before(o.next, SpellItems(o.items, c)));
    }
  }

  /** What the parser takes a text of TOML for is the array tree that TOML has in it, or it ends before the
      end of the tree. */
  lemma SameToml(l: Laid, p: Cursor, m: Laid, q: Cursor, strict: bool)
    requires l.Array? && IsToml(l, strict) && IsLoose(m, q) && Spell(l, p) == Spell(m, q)
    ensures (l == m && p == q) || StandsBefore(q, p)
  {
    hide IsToml, IsLoose, Spell;
    var r := SameElement(l, Done, m, q, p, strict);
    if !r.Done? {
      OpenStandsBefore(r, p);
    }
  }

  /** What was read is TOML if and only if a bracket ends every array in it, no integer has leading zeros, and
      no string holds a control character as itself. */
  lemma ReadIsToml(c: Cursor, l: Laid, post: Cursor, strict: bool)
    requires l.Array? && IsLoose(l, post) && Spell(l, post) == c
    ensures (exists m: Laid :: m.Array? && IsToml(m, strict) && Spell(m, post) == c)
            <==> AllClosed(l) && AllFit(l, strict)
  {
    hide IsToml, IsLoose, Spell, AllClosed, AllFit;
    LooseIsToml(l, post, strict);
    if m: Laid :| m.Array? && IsToml(m, strict) && Spell(m, post) == c {
      SameToml(m, post, l, post, strict);
    }
  }

  lemma {:induction false} BasicHasNoFeed(t: string, s: string)
    requires SpellsBasic(t, s)
    ensures '\n' !in t
    decreases |t|
  {
    if t != "" {
      var n := if t[0] == '\\' then 1 + EscapeLength(t[1]) else 1;
      BasicHasNoFeed(t[n..], s[1..]);
      assert t == t[..n] + t[n..];
      if n > 1 {
        var e := t[1..n];
        assert t[..n] == [t[0]] + e;
        EscapesAreCodes(e[0]);
        hide ESCAPES, HexValue;
        assert forall k | 0 <= k < |e| :: e[k] != '\n';
      }
    }
  }

  lemma {:induction false} GroupedHasNoFeed(s: string)
    requires IsGrouped(s)
    ensures '\n' !in s
  {
    forall k | 0 <= k < |s| ensures s[k] != '\n' {
      GroupedChars(s, k);
    }
  }

  lemma ScalarHasNoFeed(t: string, v: Value, strict: bool)
    requires SpellsToml(t, v, strict)
    ensures '\n' !in t
  {
    hide SpellsBasic, IsGrouped, SpellsTomlInt;
    match v
    case Str(s) =>
      if t[0] == '"' {
        BasicHasNoFeed(t[1..|t| - 1], s);
        assert t == ['"'] + t[1..|t| - 1] + ['"'];
      }
    case Int(i) =>
      var n := SignLength(t);
      TomlIntIs(t, i);
      GroupedHasNoFeed(t[n..]);
      assert t == t[..n] + t[n..];
    case Bool(_) =>
  }

  lemma GapHasNoFeed(g: Gap, c: Cursor)
    requires IsTomlGap(g) && NoFeed(c)
    ensures NoFeed(Before(g, c))
  {
    if g.Over? {
      forall s | EndsLine(s) ensures '\n' !in s {
        assert IsReturnLine(s) ==> s == s[..|s| - 1] + ['\r'];
      }
    }
  }

  lemma PrefixHasNoFeed(t: string, c: Cursor)
    requires '\n' !in t && NoFeed(c)
    ensures NoFeed(Prefix(t, c))
  {
  }

  lemma {:induction false} TomlHasNoFeed(l: Laid, post: Cursor, strict: bool)
    requires IsToml(l, strict) && NoFeed(post)
    ensures NoFeed(Spell(l, post))
  {
    hide SpellsToml, IsTomlGap, Before, Prefix, NoFeed;
    match l
    case Scalar(t, v) =>
      ScalarHasNoFeed(t, v, strict);
      PrefixHasNoFeed(t, post);
    case Array(open, items) =>
      TomlItemsHaveNoFeed(items, post, strict);
      GapHasNoFeed(open, SpellItems(items, post));
      PrefixHasNoFeed("[", Before(open, SpellItems(items, post)));
  }

  lemma {:induction false} TomlItemsHaveNoFeed(items: Items, post: Cursor, strict: bool)
    requires AreToml(items, strict) && NoFeed(post)
    ensures NoFeed(SpellItems(items, post))
  {
    hide SpellsToml, IsTomlGap, Before, Prefix, NoFeed;
    PrefixHasNoFeed("]", post);
    match items
    case Bracket =>
    case Last(e, behind, _) =>
      GapHasNoFeed(behind, Prefix("]", post));
      TomlHasNoFeed(e, Before(behind, Prefix("]", post)), strict);
    case Comma(e, behind, next, rest) =>
      var c := SpellItems(rest, post);
      TomlItemsHaveNoFeed(rest, post, strict);
      GapHasNoFeed(next, c);
      PrefixHasNoFeed(",", Before(next, c));
      GapHasNoFeed(behind, Prefix(",", Before(next, c)));
      TomlHasNoFeed(e, Before(behind, Prefix(",", Before(next, c))), strict);
  }

  lemma TomlIsTaken(l: Laid, post: Cursor, strict: bool)
    requires l.Array? && IsToml(l, strict)
    ensures IsLoose(l, post) <==> AllKnown(l)
  {
    hide IsSpelling, IsToml, AllKnown, IsLoose, AllClosed, AllFit;
    TomlIsKnown(l, strict);
    SpellingIffClosed(l, post);
    if IsLoose(l, post) {
      LooseIsToml(l, post, strict);
    }
  }

  /** An array tree written in TOML is read as that tree, and exactly its text is consumed, if and only if it is
      homogeneous, no string has an escape by number, and no line in it ends in a carriage return, unless
      behind a comment. Otherwise it is refused, or reading ends too early. */
  lemma ReadsToml(l: Laid, post: Cursor, strict: bool)
    requires l.Array? && IsToml(l, strict) && NoFeed(post)
    ensures Spell(l, post).rest != ""
    ensures var p := ParseArray(Spell(l, post));
            && (p == Parsed(TreeOf(l), post) <==> Homogeneous(TreeOf(l)) && AllKnown(l))
            && (p.Parsed? ==> p == Parsed(TreeOf(l), post) || StandsBefore(p.at, post))
  {
    Unprefixed('[', Before(l.open, SpellItems(l.items, post)));
    TomlIsTaken(l, post, strict);
    TomlHasNoFeed(l, post, strict);
    hide Spell, ParseArray, IsToml, AllKnown, Homogeneous, TreeOf, IsLoose, NoFeed;
    var c := Spell(l, post);
    if AllKnown(l) {
      ReadsArray(l, post);
    } else if ParseArray(c).Parsed? {
      var m := ArrayFound(c);
      SameToml(l, post, m, ParseArray(c).at, strict);
    }
  }

  // ----- what is written -----

  /** Some string in a tree holds a control character that is not written as an escape. */
  predicate HoldsControl(v: Value) {
    match v
    case Str(s) => exists c :: c in s && IsControl(c) && c != '\n'
    case Arr(a) => exists k :: 0 <= k < |a| && HoldsControl(a[k])
    case _ => false
  }

  lemma {:induction false} EscapedControl(s: string)
    ensures (exists c :: c in Escaped(s) && IsControl(c)) <==> exists c :: c in s && IsControl(c) && c != '\n'
  {
    if s != "" {
      EscapedControl(s[1..]);
      var e := EscapedChar(s[0]);
      assert Escaped(s) == e + Escaped(s[1..]) && s == [s[0]] + s[1..];
      assert forall c | c in e :: IsControl(c) ==> c == s[0];
      assert s[0] != '\n' && IsControl(s[0]) ==> e == [s[0]];
    }
  }

  lemma {:induction false} NoLeadingZero(n: nat)
    ensures n >= 1 ==> Decimal(n)[0] != '0'
    ensures n < 10 ==> |Decimal(n)| == 1
  {
    if n >= 10 {
      NoLeadingZero(n / 10);
      assert Decimal(n)[0] == Decimal(n / 10)[0];
    }
  }

  lemma WrittenIntFits(i: int)
    ensures !HasLeadingZero(DecimalInt(i))
  {
    var n := if i < 0 then -i else i;
    NoLeadingZero(n);
    DecimalReads(n);
    hide Decimal, DecimalValue;
    assert i < 0 ==> DecimalInt(i)[1..] == Decimal(n);
  }

  lemma WrittenScalarFits(v: Value, strict: bool)
    requires !v.Arr?
    ensures !HasLeadingZero(Render(v)) && (HasRawControl(Render(v), strict) <==> HoldsControl(v))
  {
    match v
    case Str(s) =>
      EscapedControl(s);
      hide Escaped;
      var e := Escaped(s);
      assert Render(v) == ['"'] + e + ['"'];
    case Int(i) =>
      IntSpells(i);
      IntHasNoControl(Render(v), i, strict);
      WrittenIntFits(i);
    case Bool(_) =>
  }

  lemma {:induction false} WrittenFits(v: Value, strict: bool)
    ensures AllFit(LaidOf(v), strict) <==> !HoldsControl(v)
    decreases v, 1
  {
    if v.Arr? {
      WrittenItemsFit(v, 0, strict);
    } else {
      WrittenScalarFits(v, strict);
    }
  }

  lemma {:induction false} WrittenItemsFit(v: Value, k: nat, strict: bool)
    requires v.Arr? && k <= |v.elements|
    ensures AllItemsFit(ItemsOf(v, k), strict) <==> !exists j :: k <= j < |v.elements| && HoldsControl(v.elements[j])
    decreases v, 0, |v.elements| - k
  {
    if k < |v.elements| {
      WrittenFits(v.elements[k], strict);
      WrittenItemsFit(v, k + 1, strict);
      hide HoldsControl, LaidOf;
    }
  }

  /** The text that the writer emits for an array tree is TOML, and then for that tree, if and only if no string
      in it holds a control character other than a line feed. */
  lemma WriterIsToml(v: Value, post: Cursor, strict: bool)
    requires v.Arr?
    ensures (exists m: Laid :: m.Array? && IsToml(m, strict) && Spell(m, post) == Prefix(Render(v), post))
            <==> !HoldsControl(v)
    ensures !HoldsControl(v) ==>
              IsToml(LaidOf(v), strict) && TreeOf(LaidOf(v)) == v && Spell(LaidOf(v), post) == Prefix(Render(v), post)
  {
    hide IsToml, IsLoose, IsSpelling, Spell, TreeOf, AllClosed, AllFit, Render, HoldsControl;
    LaidOfSpells(v);
    LaidOfText(v, post);
    SpellingIffClosed(LaidOf(v), post);
    WrittenFits(v, strict);
    LooseIsToml(LaidOf(v), post, strict);
    ReadIsToml(Prefix(Render(v), post), LaidOf(v), post, strict);
  }
}
