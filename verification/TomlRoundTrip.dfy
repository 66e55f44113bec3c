/** What the writer emits is one way to write an array tree, so the parser reads it back. */
module TomlRoundTrip {
  import opened Texts
  import opened TomlSpec
  import opened TomlAccepted
  import opened TomlGrammar

  // ----- scalars -----

  lemma {:induction false} EscapedSpells(s: string)
    ensures SpellsBody(Escaped(s), s)
  {
    if s != "" {
      var e := EscapedChar(s[0]);
      assert Escaped(s)[|e|..] == Escaped(s[1..]);
      EscapedSpells(s[1..]);
    }
  }

  lemma StringSpells(s: string)
    ensures SpellsString(Render(Str(s)), s)
  {
    EscapedSpells(s);
    assert Render(Str(s))[1..|Escaped(s)| + 1] == Escaped(s);
    hide Escaped, SpellsBody;
  }

  lemma {:induction false} NumbersAreGrouped(s: string)
    requires s != "" && AllNumbers(s)
    ensures IsGrouped(s)
  {
    assert IsNumber(s[0]);
    if |s| > 1 {
      assert IsNumber(s[1]);
      NumbersAreGrouped(s[1..]);
    }
  }

  lemma {:induction false} NothingRemoved(s: string)
    requires forall k | 0 <= k < |s| :: s[k] != '_'
    ensures WithoutUnderscores(s) == s
  {
    if s != "" {
      NothingRemoved(s[1..]);
      assert s == [s[0]] + s[1..];
    }
  }

  lemma SignedDecimal(i: int)
    ensures var s, n := DecimalInt(i), SignLength(DecimalInt(i));
            AllNumbers(s[n..]) && s[n..] != "" && SignedValue(s) == i && forall k | 0 <= k < |s| :: s[k] != '_'
  {
    var s, d := DecimalInt(i), Decimal(if i < 0 then -i else i);
    DecimalReads(if i < 0 then -i else i);
    hide Decimal, DecimalValue;
    if i < 0 {
      assert s[0] == '-' && s[1..] == d;
    } else {
      assert s[0..] == s == d && IsNumber(s[0]);
    }
  }

  lemma IntSpells(i: int64)
    ensures SpellsInt(Render(Int(i)), i)
  {
    var s := DecimalInt(i);
    SignedDecimal(i);
    hide DecimalInt, SignedValue, IsGrouped, WithoutUnderscores;
    NumbersAreGrouped(s[SignLength(s)..]);
    NothingRemoved(s);
  }

  lemma ScalarSpells(v: Value)
    requires !v.Arr?
    ensures SpellsScalar(Render(v), v)
  {
    match v
    case Str(s) => StringSpells(s);
    case Int(i) => IntSpells(i);
    case Bool(_) =>
  }

  // ----- the writer's layout -----

  const NOTHING := Within("")
  const BLANK := Within(" ")

  /** The way the writer lays out a tree: a blank behind each comma. */
  function LaidOf(v: Value): (l: Laid)
    ensures l.Array? <==> v.Arr?
    decreases v, 1
  {
    if v.Arr? then Array(NOTHING, ItemsOf(v, 0)) else Scalar(Render(v), v)
  }

  function ItemsOf(v: Value, k: nat): Items
    requires v.Arr? && k <= |v.elements|
    decreases v, 0, |v.elements| - k
  {
    if k == |v.elements| then Bracket
    else if k + 1 == |v.elements| then Last(LaidOf(v.elements[k]), NOTHING, ']')
    else Comma(LaidOf(v.elements[k]), NOTHING, BLANK, ItemsOf(v, k + 1))
  }

  lemma {:induction false} LaidOfSpells(v: Value)
    ensures IsSpelling(LaidOf(v)) && TreeOf(LaidOf(v)) == v
    decreases v, 1
  {
    if v.Arr? {
      ItemsOfSpell(v, 0);
      assert v.elements[0..] == v.elements;
    } else {
      ScalarSpells(v);
    }
  }

  lemma {:induction false} ItemsOfSpell(v: Value, k: nat)
    requires v.Arr? && k <= |v.elements|
    ensures AreSpellings(ItemsOf(v, k)) && Trees(ItemsOf(v, k)) == v.elements[k..]
    decreases v, 0, |v.elements| - k
  {
    if k < |v.elements| {
      LaidOfSpells(v.elements[k]);
      ItemsOfSpell(v, k + 1);
      assert v.elements[k..] == [v.elements[k]] + v.elements[k + 1..];
    }
  }

  lemma PrefixTwice(s: string, t: string, c: Cursor)
    ensures Prefix(s, Prefix(t, c)) == Prefix(s + t, c)
    ensures Before(NOTHING, c) == Prefix("", c) == c && Before(BLANK, c) == Prefix(" ", c)
  {
    assert s + (t + c.rest) == s + t + c.rest;
    assert "" + c.rest == c.rest;
  }

  /** The text of a tree so laid out is the text the writer emits. */
  lemma {:induction false} LaidOfText(v: Value, post: Cursor)
    ensures Spell(LaidOf(v), post) == Prefix(Render(v), post)
    decreases v, 1
  {
    if v.Arr? {
      var from := SpellItems(ItemsOf(v, 0), post);
      ItemsOfText(v, 0, post);
      PrefixTwice("[", RenderFrom(v, 0) + "]", post);
      PrefixTwice("[", "", from);
      assert "[" + (RenderFrom(v, 0) + "]") == Render(v);
      hide SpellItems, RenderFrom;
    }
  }

  function Skipped(v: Value, k: nat): string
    requires v.Arr?
  {
    if 0 < k < |v.elements| then ", " else ""
  }

  lemma {:induction false} ItemsOfText(v: Value, k: nat, post: Cursor)
    requires v.Arr? && k <= |v.elements|
    ensures Prefix(Skipped(v, k), SpellItems(ItemsOf(v, k), post)) == Prefix(RenderFrom(v, k) + "]", post)
    decreases v, 0, |v.elements| - k
  {
    if k == |v.elements| {
      PrefixTwice("", "]", post);
    } else {
      var e, behind := v.elements[k], Prefix(RenderFrom(v, k + 1) + "]", post);
      ItemsOfText(v, k + 1, post);
      BehindElement(v, k, post);
      LaidOfText(e, behind);
      PrefixTwice(Render(e), RenderFrom(v, k + 1) + "]", post);
      PrefixTwice(Skipped(v, k), Render(e) + (RenderFrom(v, k + 1) + "]"), post);
      assert Skipped(v, k) + (Render(e) + (RenderFrom(v, k + 1) + "]")) == RenderFrom(v, k) + "]";
      hide Spell, Render, RenderFrom, Prefix;
    }
  }

  lemma BehindElement(v: Value, k: nat, post: Cursor)
    requires v.Arr? && k < |v.elements|
    requires Prefix(Skipped(v, k + 1), SpellItems(ItemsOf(v, k + 1), post)) == Prefix(RenderFrom(v, k + 1) + "]", post)
    ensures SpellItems(ItemsOf(v, k), post) == Spell(LaidOf(v.elements[k]), Prefix(RenderFrom(v, k + 1) + "]", post))
  {
    hide Spell, RenderFrom, LaidOf;
    if k + 1 < |v.elements| {
      var next := SpellItems(ItemsOf(v, k + 1), post);
      PrefixTwice(",", " ", next);
      assert "," + " " == ", ";
      PrefixTwice("", "", Prefix(",", Before(BLANK, next)));
    } else {
      PrefixTwice("", "", Prefix("]", post));
    }
  }

  /** Parsing what the writer emits for an array tree gives the tree back and consumes exactly that text,
      if and only if the tree is homogeneous; a tree that is not is refused. */
  lemma RoundTrip(v: Value, post: Cursor)
    requires v.Arr?
    ensures Prefix(Render(v), post).rest != ""
    ensures var p := ParseArray(Prefix(Render(v), post));
            if Homogeneous(v) then p == Parsed(v, post) else p.Failed?
  {
    hide Spell, Render, ParseArray, IsSpelling, IsLoose, TreeOf;
    LaidOfSpells(v);
    SpellingIsLoose(LaidOf(v), post);
    LaidOfText(v, post);
    ReadsArray(LaidOf(v), post);
  }

  /** A comma and a blank stand between elements. */
  lemma WrittenArray()
    ensures Render(Arr([Int(-7), Bool(true)])) == "[-7, true]"
  {
    var v := Arr([Int(-7), Bool(true)]);
    assert RenderFrom(v, 2) == "" && Render(v.elements[1]) == "true";
    assert RenderFrom(v, 1) == ", true";
    assert Decimal(7) == "7" && Render(v.elements[0]) == "-7";
    assert RenderFrom(v, 0) == "-7, true";
  }

  /** A quote, a line feed and a backslash are escaped. */
  lemma WrittenString()
    ensures Render(Str("a\"\n\\")) == "\"a\\\"\\n\\\\\""
  {
    var s := "a\"\n\\";
    assert s[1..] == "\"\n\\" && s[1..][1..] == "\n\\" && s[1..][1..][1..] == "\\" && s[1..][1..][1..][1..] == "";
  }
}
