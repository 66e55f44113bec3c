/** The simple regular expressions of the test framework: their syntax as trees and what they match. */
module RegexSpec {
  import opened Options

  /** The characters of a C string, without the terminating NUL. */
  type CString = s: string | '\0' !in s

  /** The character at an offset, where the terminating NUL can be read. */
  function At(s: CString, i: nat): char
    requires i <= |s|
  {
    if i < |s| then s[i] else '\0'
  }

  // ----- character classes -----

  const DIGITS: string := "0123456789"
  const BLANKS: string := "\t\n\U{0B}\U{0C}\r "
  const CAPITALS: string := "ABCDEFGHIJKLMNOPQRSTUVWXYZ"
  const SMALL_LETTERS: string := "abcdefghijklmnopqrstuvwxyz"
  const PUNCTUATION: string := "!\"#$%&'()*+,-./:;<=>?@[\\]^_`{|}~"

  predicate IsWordChar(ch: char) {
    ch in DIGITS || ch in CAPITALS || ch in SMALL_LETTERS || ch == '_'
  }

  /** What an atom means: c, or \c when escaped, matches ch. */
  predicate AtomMatchesChar(escaped: bool, c: char, ch: char) {
    if !escaped then if c == '.' then ch != '\n' else ch == c
    else
      match c
      case 'd' => ch in DIGITS
      case 'D' => ch !in DIGITS
      case 'f' => ch == '\U{0C}'
      case 'n' => ch == '\n'
      case 'r' => ch == '\r'
      case 's' => ch in BLANKS
      case 'S' => ch !in BLANKS
      case 't' => ch == '\t'
      case 'v' => ch == '\U{0B}'
      case 'w' => IsWordChar(ch)
      case 'W' => !IsWordChar(ch)
      case _ => c in PUNCTUATION && ch == c
  }

  // ----- syntax -----

  datatype Repeat = Once | Optional | Star | Plus

  datatype Item = Item(escaped: bool, c: char, repeat: Repeat)

  /** An optional leading ^, items, an optional trailing $. */
  datatype Pattern = Pattern(caret: bool, items: seq<Item>, dollar: bool)

  /** Any character but the anchors, the repeats, the backslash and the unsupported operators stands
      for itself. */
  predicate StandsForItself(c: char) {
    c != '\0' && c !in "\\^$?*+()[]{}|"
  }

  /** Punctuation, and letters for classes and special characters, can be escaped. */
  predicate CanBeEscaped(c: char) {
    c in PUNCTUATION || c in "dDfnrsStvwW"
  }

  predicate WellFormedItem(item: Item) {
    if item.escaped then CanBeEscaped(item.c) else StandsForItself(item.c)
  }

  predicate WellFormed(items: seq<Item>) {
    forall i | 0 <= i < |items| :: WellFormedItem(items[i])
  }

  function RenderItem(item: Item): string {
    (if item.escaped then ['\\', item.c] else [item.c])
    + (match item.repeat case Once => "" case Optional => "?" case Star => "*" case Plus => "+")
  }

  function RenderTail(items: seq<Item>, dollar: bool): string {
    if items == [] then if dollar then "$" else ""
    else RenderItem(items[0]) + RenderTail(items[1..], dollar)
  }

  function Render(p: Pattern): string {
    (if p.caret then "^" else "") + RenderTail(p.items, p.dollar)
  }

  /** The strings that are simple regular expressions. */
  ghost predicate IsSimpleRegex(s: string) {
    exists p: Pattern :: WellFormed(p.items) && Render(p) == s
  }

  // ----- meaning -----

  predicate Allows(repeat: Repeat, n: nat) {
    match repeat
    case Once => n == 1
    case Optional => n <= 1
    case Star => true
    case Plus => n >= 1
  }

  predicate AtomMatchesAll(item: Item, w: string) {
    forall i | 0 <= i < |w| :: AtomMatchesChar(item.escaped, item.c, w[i])
  }

  /** The word w is in the language of the items, in sequence. */
  ghost predicate Matches(items: seq<Item>, w: string) {
    if items == [] then w == ""
    else
      exists n: nat {:trigger w[n..]} ::
        n <= |w| && Allows(items[0].repeat, n) && AtomMatchesAll(items[0], w[..n]) && Matches(items[1..], w[n..])
  }

  /** Some prefix of str matches; all of str if a $ follows. */
  ghost predicate MatchesHead(items: seq<Item>, dollar: bool, str: string) {
    exists n: nat {:trigger str[..n]} :: n <= |str| && Matches(items, str[..n]) && (dollar ==> n == |str|)
  }

  /** Some part of str matches, respecting the anchors. */
  ghost predicate Found(p: Pattern, str: string) {
    exists i: nat, j: nat {:trigger str[i..j]} ::
      i <= j <= |str| && Matches(p.items, str[i..j]) && (p.caret ==> i == 0) && (p.dollar ==> j == |str|)
  }

  // ----- reading a pattern back -----

  datatype Tail = Tail(items: seq<Item>, dollar: bool)

  function RepeatOf(ch: char): Repeat {
    if ch == '?' then Optional else if ch == '*' then Star else if ch == '+' then Plus else Once
  }

  /** The first item of a string and how many characters it takes. */
  function FirstItem(s: string): Option<(Item, nat)> {
    if s == "" then None
    else if s[0] == '\\' then
      if |s| == 1 || !CanBeEscaped(s[1]) then None
      else
        var repeat := if |s| > 2 then RepeatOf(s[2]) else Once;
        Some((Item(true, s[1], repeat), if repeat == Once then 2 else 3))
    else if StandsForItself(s[0]) then
      var repeat := if |s| > 1 then RepeatOf(s[1]) else Once;
      Some((Item(false, s[0], repeat), if repeat == Once then 1 else 2))
    else None
  }

  function ParseTail(s: string): Option<Tail>
    decreases |s|
  {
    if s == "" then Some(Tail([], false))
    else if s == "$" then Some(Tail([], true))
    else
      match FirstItem(s)
      case None => None
      case Some((item, n)) =>
        match ParseTail(s[n..])
        case None => None
        case Some(tail) => Some(Tail([item] + tail.items, tail.dollar))
  }

  function Parse(s: string): Option<Pattern> {
    var caret := s != "" && s[0] == '^';
    match ParseTail(if caret then s[1..] else s)
    case None => None
    case Some(tail) => Some(Pattern(caret, tail.items, tail.dollar))
  }

  lemma FirstItemRenders(s: string)
    ensures FirstItem(s).Some? ==>
              var (item, n) := FirstItem(s).value;
              n <= |s| && WellFormedItem(item) && RenderItem(item) == s[..n]
  {
  }

  lemma {:induction false} ParseTailRenders(s: string)
    requires ParseTail(s).Some?
    ensures var tail := ParseTail(s).value; WellFormed(tail.items) && RenderTail(tail.items, tail.dollar) == s
    decreases |s|
  {
    if s != "" && s != "$" {
      var (item, n) := FirstItem(s).value;
      FirstItemRenders(s);
      ParseTailRenders(s[n..]);
      var tail := ParseTail(s).value;
      assert tail.items[1..] == ParseTail(s[n..]).value.items;
      assert s == s[..n] + s[n..];
    }
  }

  lemma TailStarts(items: seq<Item>, dollar: bool)
    requires WellFormed(items)
    ensures var s := RenderTail(items, dollar); s != "" ==> RepeatOf(s[0]) == Once && s[0] != '^'
  {
    if items != [] {
      assert WellFormedItem(items[0]);
    }
  }

  lemma FirstItemReads(item: Item, rest: string)
    requires WellFormedItem(item) && (rest != "" ==> RepeatOf(rest[0]) == Once)
    ensures FirstItem(RenderItem(item) + rest) == Some((item, |RenderItem(item)|))
    ensures RenderItem(item) + rest != "" && RenderItem(item) + rest != "$"
  {
  }

  lemma {:induction false} ParseTailReads(items: seq<Item>, dollar: bool)
    requires WellFormed(items)
    ensures ParseTail(RenderTail(items, dollar)) == Some(Tail(items, dollar))
  {
    if items != [] {
      var rest := RenderTail(items[1..], dollar);
      TailStarts(items[1..], dollar);
      FirstItemReads(items[0], rest);
      ParseTailReads(items[1..], dollar);
      assert RenderTail(items, dollar)[|RenderItem(items[0])|..] == rest;
      assert items == [items[0]] + items[1..];
    }
  }

  /** A pattern reads back from its text, so its text determines it. */
  lemma ParseReads(p: Pattern)
    requires WellFormed(p.items)
    ensures Parse(Render(p)) == Some(p)
  {
    ParseTailReads(p.items, p.dollar);
    TailStarts(p.items, p.dollar);
    if p.caret {
      assert Render(p)[1..] == RenderTail(p.items, p.dollar);
    } else {
      assert Render(p) == RenderTail(p.items, p.dollar);
    }
  }

  lemma ParseRenders(s: string)
    requires Parse(s).Some?
    ensures var p := Parse(s).value; WellFormed(p.items) && Render(p) == s
  {
    var p := Parse(s).value;
    ParseTailRenders(if p.caret then s[1..] else s);
  }

  lemma SimpleIffParses(s: string)
    ensures IsSimpleRegex(s) <==> Parse(s).Some?
  {
    if IsSimpleRegex(s) {
      var p: Pattern :| WellFormed(p.items) && Render(p) == s;
      ParseReads(p);
    }
    if Parse(s).Some? {
      ParseRenders(s);
    }
  }
}
