/** What each kind of atom, each repeat and putting one behind the other means, from the text of a pattern. */
module RegexLaws {
  import opened Options
  import opened RegexSpec

  /** A text is a pattern, and that the pattern matches the string w is as good as a condition. */
  ghost predicate MatchesIff(text: string, w: string, condition: bool) {
    Parse(text).Some? && (Matches(Parse(text).value.items, w) <==> condition)
  }

  lemma ReadsItem(item: Item)
    requires WellFormedItem(item)
    ensures Parse(RenderItem(item)) == Some(Pattern(false, [item], false))
  {
    var p := Pattern(false, [item], false);
    assert [item][1..] == [] && RenderTail([item][1..], false) == "";
    hide Parse, WellFormedItem, RenderItem;
    assert Render(p) == RenderItem(item);
    ParseReads(p);
  }

  lemma MatchesItem(item: Item, w: string)
    ensures Matches([item], w) <==> Allows(item.repeat, |w|) && AtomMatchesAll(item, w)
  {
    hide AtomMatchesAll, Allows;
    assert [item][1..] == [];
    if Matches([item], w) {
      var n: nat :| n <= |w| && Allows(item.repeat, n) && AtomMatchesAll(item, w[..n]) && Matches([item][1..], w[n..]);
      assert w[..n] == w;
    }
    if Allows(item.repeat, |w|) && AtomMatchesAll(item, w) {
      assert w[..|w|] == w && w[|w|..] == "";
    }
  }

  lemma OfItem(item: Item, w: string)
    requires WellFormedItem(item)
    ensures MatchesIff(RenderItem(item), w, Allows(item.repeat, |w|) && AtomMatchesAll(item, w))
  {
    hide Parse, Matches, Allows, AtomMatchesAll, WellFormedItem, RenderItem;
    ReadsItem(item);
    MatchesItem(item, w);
  }

  function AtomText(escaped: bool, c: char): string {
    if escaped then ['\\', c] else [c]
  }

  /** What a text of one atom without a repeat matches. */
  lemma OfAtom(escaped: bool, c: char, w: string)
    requires WellFormedItem(Item(escaped, c, Once))
    ensures MatchesIff(AtomText(escaped, c), w, |w| == 1 && AtomMatchesChar(escaped, c, w[0]))
  {
    hide AtomMatchesChar, WellFormedItem, Parse, Matches;
    OfItem(Item(escaped, c, Once), w);
    assert AtomText(escaped, c) + "" == AtomText(escaped, c);
  }

  // ----- unescaped atoms -----

  /** The dot matches any character but a line feed. */
  lemma DotMatches(w: string)
    ensures MatchesIff(".", w, |w| == 1 && w[0] != '\n')
  {
    hide Parse, Matches;
    OfAtom(false, '.', w);
    assert AtomText(false, '.') == ".";
  }

  /** Any other character matches itself. */
  lemma PlainMatches(c: char, w: string)
    requires c != '\0' && c !in "\\^$.?*+()[]{}|"
    ensures MatchesIff([c], w, w == [c])
  {
    hide Parse, Matches;
    OfAtom(false, c, w);
  }

  // ----- escapes -----

  lemma OfEscape(c: char, w: string)
    requires CanBeEscaped(c)
    ensures MatchesIff(['\\', c], w, |w| == 1 && AtomMatchesChar(true, c, w[0]))
  {
    hide Parse, Matches, AtomMatchesChar, CanBeEscaped;
    OfAtom(true, c, w);
  }

  lemma CanEscapeLetter(c: char)
    requires c in "dDfnrsStvwW"
    ensures CanBeEscaped(c)
  {
  }

  lemma DigitMatches(w: string)
    ensures MatchesIff("\\d", w, |w| == 1 && '0' <= w[0] <= '9')
    ensures MatchesIff("\\D", w, |w| == 1 && !('0' <= w[0] <= '9'))
  {
    hide Parse, Matches, CanBeEscaped;
    CanEscapeLetter('d');
    CanEscapeLetter('D');
    OfEscape('d', w);
    OfEscape('D', w);
    assert ['\\', 'd'] == "\\d" && ['\\', 'D'] == "\\D";
  }

  predicate IsBlankChar(ch: char) {
    ch in {' ', '\t', '\n', '\U{0B}', '\U{0C}', '\r'}
  }

  lemma BlankMatches(w: string)
    ensures MatchesIff("\\s", w, |w| == 1 && IsBlankChar(w[0]))
    ensures MatchesIff("\\S", w, |w| == 1 && !IsBlankChar(w[0]))
  {
    hide Parse, Matches, CanBeEscaped;
    CanEscapeLetter('s');
    CanEscapeLetter('S');
    OfEscape('s', w);
    OfEscape('S', w);
    assert ['\\', 's'] == "\\s" && ['\\', 'S'] == "\\S";
    if |w| == 1 {
      BlankIs(w[0]);
    }
    hide BLANKS, IsBlankChar;
  }

  lemma BlankIs(ch: char)
    ensures IsBlankChar(ch) <==> ch in BLANKS
  {
  }

  predicate IsLetterDigitOrUnderscore(ch: char) {
    'a' <= ch <= 'z' || 'A' <= ch <= 'Z' || '0' <= ch <= '9' || ch == '_'
  }

  lemma WordMatches(w: string)
    ensures MatchesIff("\\w", w, |w| == 1 && IsLetterDigitOrUnderscore(w[0]))
    ensures MatchesIff("\\W", w, |w| == 1 && !IsLetterDigitOrUnderscore(w[0]))
  {
    hide Parse, Matches, CanBeEscaped;
    CanEscapeLetter('w');
    CanEscapeLetter('W');
    OfEscape('w', w);
    OfEscape('W', w);
    assert ['\\', 'w'] == "\\w" && ['\\', 'W'] == "\\W";
    if |w| == 1 {
      WordCharIs(w[0]);
    }
    hide IsWordChar, IsLetterDigitOrUnderscore;
  }

  lemma WordCharIs(ch: char)
    ensures IsWordChar(ch) <==> IsLetterDigitOrUnderscore(ch)
  {
    SmallIs(ch);
    CapitalIs(ch);
    hide CAPITALS, SMALL_LETTERS;
  }

  lemma SmallIs(ch: char)
    ensures ch in SMALL_LETTERS <==> 'a' <= ch <= 'z'
  {
  }

  lemma CapitalIs(ch: char)
    ensures ch in CAPITALS <==> 'A' <= ch <= 'Z'
  {
  }

  /** The escapes of special characters. */
  lemma SpecialMatches(w: string)
    ensures MatchesIff("\\n", w, w == "\n") && MatchesIff("\\t", w, w == "\t") && MatchesIff("\\r", w, w == "\r")
    ensures MatchesIff("\\f", w, w == "\U{0C}") && MatchesIff("\\v", w, w == "\U{0B}")
  {
    hide Parse, Matches;
    OfSpecial('n', '\n', w);
    OfSpecial('t', '\t', w);
    OfSpecial('r', '\r', w);
    OfSpecial('f', '\U{0C}', w);
    OfSpecial('v', '\U{0B}', w);
    assert ['\\', 'n'] == "\\n" && ['\\', 't'] == "\\t" && ['\\', 'r'] == "\\r";
    assert ['\\', 'f'] == "\\f" && ['\\', 'v'] == "\\v";
  }

  lemma OfSpecial(c: char, ch: char, w: string)
    requires c in "fnrtv" && forall x :: AtomMatchesChar(true, c, x) <==> x == ch
    ensures MatchesIff(['\\', c], w, w == [ch])
  {
    hide Parse, Matches, CanBeEscaped, AtomMatchesChar;
    CanEscapeLetter(c);
    OfEscape(c, w);
  }

  predicate IsPunctuation(c: char) {
    '!' <= c <= '/' || ':' <= c <= '@' || '[' <= c <= '`' || '{' <= c <= '~'
  }

  lemma PunctuationIs(c: char)
    ensures c in PUNCTUATION <==> IsPunctuation(c)
  {
  }

  /** Escaped punctuation matches itself. */
  lemma PunctuationMatches(c: char, w: string)
    requires IsPunctuation(c)
    ensures MatchesIff(['\\', c], w, w == [c])
  {
    hide Parse, Matches, PUNCTUATION;
    PunctuationIs(c);
    OfEscape(c, w);
  }

  /** Nothing else can be escaped. */
  lemma EscapesParse(c: char)
    ensures Parse(['\\', c]).Some? <==> IsPunctuation(c) || c in "dDfnrsStvwW"
  {
    PunctuationIs(c);
    hide PUNCTUATION, IsPunctuation;
    var s := ['\\', c];
    assert s[2..] == "" && s != "$";
    assert ParseTail("") == Some(Tail([], false));
  }

  /** A single character is a pattern, unless it is a backslash, a repeat or an operator. */
  lemma SingleParses(c: char)
    ensures Parse([c]).Some? <==> c != '\0' && c !in "\\?*+()[]{}|"
  {
    assert [c][1..] == "" && ParseTail("") == Some(Tail([], false));
    assert [c] == "$" <==> c == '$';
  }

  // ----- repeats -----

  predicate AllMatch(escaped: bool, c: char, w: string) {
    forall k | 0 <= k < |w| :: AtomMatchesChar(escaped, c, w[k])
  }

  /** A question mark makes an atom optional, a star repeats it at will, and a plus at least once. */
  lemma RepeatMatches(escaped: bool, c: char, w: string)
    requires if escaped then CanBeEscaped(c) else StandsForItself(c)
    ensures MatchesIff(AtomText(escaped, c) + "?", w, |w| <= 1 && AllMatch(escaped, c, w))
    ensures MatchesIff(AtomText(escaped, c) + "*", w, AllMatch(escaped, c, w))
    ensures MatchesIff(AtomText(escaped, c) + "+", w, |w| >= 1 && AllMatch(escaped, c, w))
  {
    hide Parse, Matches, AtomMatchesChar, CanBeEscaped, StandsForItself;
    OfItem(Item(escaped, c, Optional), w);
    OfItem(Item(escaped, c, Star), w);
    OfItem(Item(escaped, c, Plus), w);
  }

  // ----- one behind the other -----

  /** What matches two lists of items one behind the other is what matches the first, and then the second. */
  lemma {:induction false} JoinedMatch(a: seq<Item>, b: seq<Item>, w: string)
    ensures Matches(a + b, w) <==> exists n: nat {:trigger w[n..]} ::
              n <= |w| && Matches(a, w[..n]) && Matches(b, w[n..])
    decreases |a|, 1
  {
    if a == [] {
      assert a + b == b && w[..0] == "" && w[0..] == w;
    } else {
      if Matches(a + b, w) {
        JoinedSplits(a, b, w);
      }
      if n: nat :| n <= |w| && Matches(a, w[..n]) && Matches(b, w[n..]) {
        SplitJoins(a, b, w, n);
      }
    }
  }

  lemma {:induction false} JoinedSplits(a: seq<Item>, b: seq<Item>, w: string)
    requires a != [] && Matches(a + b, w)
    ensures exists n: nat {:trigger w[n..]} :: n <= |w| && Matches(a, w[..n]) && Matches(b, w[n..])
    decreases |a|, 0
  {
    hide Allows, AtomMatchesAll, Matches;
    assert (a + b)[1..] == a[1..] + b && (a + b)[0] == a[0];
    var n := FirstPart(a + b, w);
    var v := w[n..];
    JoinedMatch(a[1..], b, v);
    var m: nat :| m <= |v| && Matches(a[1..], v[..m]) && Matches(b, v[m..]);
    assert w[..n + m][..n] == w[..n] && w[..n + m][n..] == v[..m] && v[m..] == w[n + m..];
    FirstThenRest(a, w[..n + m], n);
  }

  lemma FirstPart(a: seq<Item>, w: string) returns (n: nat)
    requires a != [] && Matches(a, w)
    ensures n <= |w| && Allows(a[0].repeat, n) && AtomMatchesAll(a[0], w[..n]) && Matches(a[1..], w[n..])
  {
    hide Allows, AtomMatchesAll;
    n :| n <= |w| && Allows(a[0].repeat, n) && AtomMatchesAll(a[0], w[..n]) && Matches(a[1..], w[n..]);
  }

  lemma FirstThenRest(a: seq<Item>, w: string, n: nat)
    requires a != [] && n <= |w| && Allows(a[0].repeat, n) && AtomMatchesAll(a[0], w[..n]) && Matches(a[1..], w[n..])
    ensures Matches(a, w)
  {
    hide Allows, AtomMatchesAll;
  }

  lemma {:induction false} SplitJoins(a: seq<Item>, b: seq<Item>, w: string, n: nat)
    requires a != [] && n <= |w| && Matches(a, w[..n]) && Matches(b, w[n..])
    ensures Matches(a + b, w)
    decreases |a|, 0
  {
    hide Allows, AtomMatchesAll, Matches;
    var u := w[..n];
    var m := FirstPart(a, u);
    var v := w[m..];
    assert u[..m] == w[..m] && u[m..] == v[..n - m] && v[n - m..] == w[n..];
    JoinedMatch(a[1..], b, v);
    assert (a + b)[1..] == a[1..] + b;
    FirstThenRest(a + b, w, m);
  }

  // ----- anchors -----

  /** A caret in front and a dollar at the end are anchors. */
  lemma AnchorsRead(p: Pattern)
    requires WellFormed(p.items) && !p.caret && !p.dollar
    ensures Parse("^" + Render(p)) == Some(p.(caret := true))
    ensures Parse(Render(p) + "$") == Some(p.(dollar := true))
  {
    hide Parse, WellFormed;
    ParseReads(p.(caret := true));
    ParseReads(p.(dollar := true));
    TailGrows(p.items);
    hide RenderTail;
    assert "" + RenderTail(p.items, false) == Render(p) == RenderTail(p.items, false);
    assert Render(p.(dollar := true)) == Render(p) + "$";
    assert Render(p.(caret := true)) == "^" + Render(p);
  }

  lemma {:induction false} TailGrows(items: seq<Item>)
    ensures RenderTail(items, true) == RenderTail(items, false) + "$"
  {
    hide RenderItem;
    if items != [] {
      TailGrows(items[1..]);
    }
  }
}
