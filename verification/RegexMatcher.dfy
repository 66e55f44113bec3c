/** The validator and the backtracking matcher for simple regular expressions, and the class RE. */
module RegexMatcher {
  import opened Options
  import opened RegexSpec

  // ----- the code's own classes of characters -----

  predicate IsInSet(ch: char, chars: string) {
    ch != '\0' && ch in chars
  }

  predicate IsAsciiDigit(ch: char) {
    '0' <= ch <= '9'
  }

  predicate IsAsciiPunct(ch: char) {
    IsInSet(ch, "^-!\"#$%&'()*+,./:;<=>?@[\\]_`{|}~")
  }

  predicate IsRepeat(ch: char) {
    IsInSet(ch, "?*+")
  }

  predicate IsAsciiWhiteSpace(ch: char) {
    IsInSet(ch, " \U{0C}\n\r\t\U{0B}")
  }

  predicate IsAsciiWordChar(ch: char) {
    'a' <= ch <= 'z' || 'A' <= ch <= 'Z' || '0' <= ch <= '9' || ch == '_'
  }

  predicate IsValidEscape(c: char) {
    IsAsciiPunct(c) || IsInSet(c, "dDfnrsStvwW")
  }

  /** The code's test of an atom. */
  predicate TestsAtom(escaped: bool, c: char, ch: char) {
    if escaped then
      match c
      case 'd' => IsAsciiDigit(ch)
      case 'D' => !IsAsciiDigit(ch)
      case 'f' => ch == '\U{0C}'
      case 'n' => ch == '\n'
      case 'r' => ch == '\r'
      case 's' => IsAsciiWhiteSpace(ch)
      case 'S' => !IsAsciiWhiteSpace(ch)
      case 't' => ch == '\t'
      case 'v' => ch == '\U{0B}'
      case 'w' => IsAsciiWordChar(ch)
      case 'W' => !IsAsciiWordChar(ch)
      case _ => IsAsciiPunct(c) && c == ch
    else
      (c == '.' && ch != '\n') || c == ch
  }

  lemma ClassesAgree(ch: char)
    ensures IsAsciiDigit(ch) <==> ch in DIGITS
    ensures IsAsciiWhiteSpace(ch) <==> ch in BLANKS
    ensures IsAsciiWordChar(ch) <==> IsWordChar(ch)
    ensures IsAsciiPunct(ch) <==> ch in PUNCTUATION
    ensures IsValidEscape(ch) <==> CanBeEscaped(ch)
  {
    hide *;
    PunctuationAgrees(ch);
    EscapesAgree(ch);
    DigitsAgree(ch);
    BlanksAgree(ch);
    WordAgrees(ch);
  }

  lemma DigitsAgree(ch: char)
    ensures IsAsciiDigit(ch) <==> ch in DIGITS
  {
  }

  lemma BlanksAgree(ch: char)
    ensures IsAsciiWhiteSpace(ch) <==> ch in BLANKS
  {
  }

  lemma CapitalsAgree(ch: char)
    ensures 'A' <= ch <= 'Z' <==> ch in CAPITALS
  {
  }

  lemma SmallLettersAgree(ch: char)
    ensures 'a' <= ch <= 'z' <==> ch in SMALL_LETTERS
  {
  }

  lemma WordAgrees(ch: char)
    ensures IsAsciiWordChar(ch) <==> IsWordChar(ch)
  {
    DigitsAgree(ch);
    CapitalsAgree(ch);
    SmallLettersAgree(ch);
    hide DIGITS, CAPITALS, SMALL_LETTERS;
  }

  lemma PunctuationAgrees(ch: char)
    ensures IsAsciiPunct(ch) <==> ch in PUNCTUATION
  {
  }

  lemma EscapesAgree(ch: char)
    ensures IsValidEscape(ch) <==> CanBeEscaped(ch)
  {
    PunctuationAgrees(ch);
    hide IsAsciiPunct;
  }

  /** The code tests an atom as it is meant, if the atom is valid. */
  lemma TestsAsMeant(escaped: bool, c: char, ch: char)
    requires ch != '\0'
    ensures TestsAtom(escaped, c, ch) <==> AtomMatchesChar(escaped, c, ch)
  {
    ClassesAgree(ch);
    ClassesAgree(c);
    hide IsAsciiDigit, IsAsciiWhiteSpace, IsAsciiWordChar, IsAsciiPunct, IsWordChar;
    hide DIGITS, BLANKS, PUNCTUATION, CanBeEscaped, IsValidEscape;
  }

  lemma PlainAgrees(c: char)
    requires c != '\0'
    ensures StandsForItself(c) <==> c != '\\' && c != '^' && c != '$' && !IsInSet(c, "()[]{}|") && !IsRepeat(c)
    ensures IsInSet(c, "^$?*+") <==> c == '^' || c == '$' || IsRepeat(c)
    ensures IsRepeat(c) <==> RepeatOf(c) != Once
    ensures IsRepeat(c) ==> !IsInSet(c, "()[]{}|") && c != '$' && c != '^' && c != '\\'
    ensures c == '$' || c == '^' || c == '\\' ==> !IsInSet(c, "()[]{}|") && !IsRepeat(c) && !StandsForItself(c)
  {
  }

  // ----- validation -----

  /** What the validator's loop still accepts, by the flag that says whether a repeat may follow. */
  predicate Accepts(s: CString, repeatable: bool)
    decreases |s|
  {
    if s == "" then true
    else if s[0] == '\\' then |s| > 1 && IsValidEscape(s[1]) && Accepts(s[2..], true)
    else
      var ch := s[0];
      && ch != '^'
      && (ch == '$' ==> |s| == 1)
      && !IsInSet(ch, "()[]{}|")
      && (IsRepeat(ch) ==> repeatable)
      && Accepts(s[1..], !IsInSet(ch, "^$?*+"))
  }

  lemma {:induction false} AcceptsIffParses(s: CString)
    ensures Accepts(s, false) <==> ParseTail(s).Some?
    ensures Accepts(s, true) <==> if s != "" && IsRepeat(s[0]) then ParseTail(s[1..]).Some? else ParseTail(s).Some?
    decreases |s|
  {
    hide StandsForItself, CanBeEscaped, IsValidEscape, IsRepeat, IsInSet;
    if |s| > 0 {
      PlainAgrees(s[0]);
    }
    if |s| > 1 {
      PlainAgrees(s[1]);
      EscapesAgree(s[1]);
    }
    if |s| > 2 {
      PlainAgrees(s[2]);
    }
    if s == "" || s == "$" {
    } else if s[0] == '\\' {
      if |s| > 1 {
        AcceptsIffParses(s[2..]);
        if |s| > 2 {
          assert s[2..][1..] == s[3..];
        }
      }
    } else {
      AcceptsIffParses(s[1..]);
      if |s| > 1 {
        assert s[1..][1..] == s[2..];
      }
    }
  }

  lemma AcceptsStart(s: CString)
    ensures IsSimpleRegex(s) <==> Accepts(if s != "" && s[0] == '^' then s[1..] else s, false)
  {
    SimpleIffParses(s);
    AcceptsIffParses(if s != "" && s[0] == '^' then s[1..] else s);
  }

  /** Accepts exactly the simple regular expressions; null is none. */
  method ValidateRegex(regex: Option<CString>) returns (valid: bool)
    ensures valid <==> regex.Some? && IsSimpleRegex(regex.value)
  {
    if regex.None? {
      return false;
    }
    var s := regex.value;
    AcceptsStart(s);
    valid := true;
    var prevRepeatable := false;
    var i := 0;
    while At(s, i) != '\0'
      invariant i <= |s|
      invariant i == 0 ==> valid && !prevRepeatable
      invariant i > 0 ==> (IsSimpleRegex(s) <==> valid && Accepts(s[i..], prevRepeatable))
      decreases |s| - i
    {
      ghost var start, rest := i, s[i..];
      if At(s, i) == '\\' {
        i := i + 1;
        if At(s, i) == '\0' {
          return false;
        }
        assert rest[1] == s[i];
        if !IsValidEscape(At(s, i)) {
          valid := false;
        }
        prevRepeatable := true;
      } else {
        var ch := At(s, i);
        if ch == '^' && i > 0 {
          valid := false;
        } else if ch == '$' && At(s, i + 1) != '\0' {
          valid := false;
        } else if IsInSet(ch, "()[]{}|") {
          valid := false;
        } else if IsRepeat(ch) && !prevRepeatable {
          valid := false;
        }
        prevRepeatable := !IsInSet(ch, "^$?*+");
      }
      i := i + 1;
      assert s[i..] == rest[i - start..];
    }
  }

  // ----- matching -----

  /** To match an item and more is to match the item some allowed number of times and then the rest. */
  lemma HeadCons(item: Item, items: seq<Item>, dollar: bool, str: string)
    ensures MatchesHead([item] + items, dollar, str)
       <==> exists n: nat {:trigger str[n..]} ::
              n <= |str| && Allows(item.repeat, n) && AtomMatchesAll(item, str[..n])
              && MatchesHead(items, dollar, str[n..])
  {
    assert ([item] + items)[1..] == items;
    if MatchesHead([item] + items, dollar, str) {
      var m: nat :| m <= |str| && Matches([item] + items, str[..m]) && (dollar ==> m == |str|);
      var w := str[..m];
      var n: nat :| n <= |w| && Allows(item.repeat, n) && AtomMatchesAll(item, w[..n]) && Matches(items, w[n..]);
      assert w[..n] == str[..n] && w[n..] == str[n..][..m - n];
      assert MatchesHead(items, dollar, str[n..]);
    }
    if n: nat :| n <= |str| && Allows(item.repeat, n) && AtomMatchesAll(item, str[..n])
                 && MatchesHead(items, dollar, str[n..])
    {
      var k: nat :| k <= |str[n..]| && Matches(items, str[n..][..k]) && (dollar ==> k == |str[n..]|);
      var w := str[..n + k];
      assert w[..n] == str[..n] && w[n..] == str[n..][..k];
      assert Matches([item] + items, w);
    }
  }

  /** Matches a repeated atom followed by the rest of a pattern. */
  method MatchRepetitionAndRegexAtHead(escaped: bool, c: char, repeat: char, regex: CString, str: CString)
    returns (found: bool)
    requires IsRepeat(repeat) && ParseTail(regex).Some?
    requires |str| <= 0xFFFF_FFFF_FFFF_FFFE
    ensures var tail := ParseTail(regex).value;
            found <==> MatchesHead([Item(escaped, c, RepeatOf(repeat))] + tail.items, tail.dollar, str)
    decreases |regex|, 1
  {
    ghost var tail, item := ParseTail(regex).value, Item(escaped, c, RepeatOf(repeat));
    HeadCons(item, tail.items, tail.dollar, str);
    var minCount := if repeat == '+' then 1 else 0;
    var maxCount := if repeat == '?' then 1 else 0xFFFF_FFFF_FFFF_FFFE;
    var i := 0;
    while i <= maxCount
      invariant i <= |str| && AtomMatchesAll(item, str[..i])
      invariant forall n | 0 <= n < i :: Allows(item.repeat, n) ==> !MatchesHead(tail.items, tail.dollar, str[n..])
    {
      if i >= minCount {
        var rest := MatchRegexAtHead(regex, str[i..]);
        if rest {
          return true;
        }
      }
      if i < |str| {
        TestsAsMeant(escaped, c, str[i]);
      }
      if At(str, i) == '\0' || !TestsAtom(escaped, c, str[i]) {
        forall n: nat | i < n <= |str| ensures !AtomMatchesAll(item, str[..n]) {
          assert str[..n][i] == str[i];
        }
        return false;
      }
      i := i + 1;
    }
    return false;
  }

  /** An item without a repeat takes one character, if it takes that. */
  lemma OnceAtHead(item: Item, str: string)
    requires item.repeat == Once
    ensures forall n: nat | n <= |str| && Allows(item.repeat, n) :: n == 1
    ensures str != "" ==> (AtomMatchesAll(item, str[..1]) <==> AtomMatchesChar(item.escaped, item.c, str[0]))
  {
    hide AtomMatchesChar;
    assert str != "" ==> str[..1] == [str[0]];
  }

  /** The first atom of a regex, with its repeat, and what follows. */
  lemma HeadOf(regex: CString, escaped: bool, atom: CString)
    requires ParseTail(regex).Some? && regex != "" && regex != "$" && escaped == (regex[0] == '\\')
    requires atom == if escaped then regex[1..] else regex
    ensures atom != "" && regex[0] != '$'
    ensures var n := if |atom| > 1 && IsRepeat(atom[1]) then 2 else 1;
            var repeat := if |atom| > 1 && IsRepeat(atom[1]) then RepeatOf(atom[1]) else Once;
            && ParseTail(atom[n..]).Some?
            && var rest := ParseTail(atom[n..]).value;
            ParseTail(regex).value == Tail([Item(escaped, atom[0], repeat)] + rest.items, rest.dollar)
  {
    PlainAgrees(regex[0]);
    if |atom| > 1 {
      PlainAgrees(atom[1]);
    }
    var (_, n) := FirstItem(regex).value;
    hide StandsForItself, CanBeEscaped, IsRepeat, IsInSet;
    assert escaped ==> regex[n..] == atom[n - 1..];
  }

  /** Whether the regex, which must be valid and not start with ^, matches a prefix of str. */
  method MatchRegexAtHead(regex: CString, str: CString) returns (found: bool)
    requires ParseTail(regex).Some?
    requires |str| <= 0xFFFF_FFFF_FFFF_FFFE
    ensures var tail := ParseTail(regex).value; found <==> MatchesHead(tail.items, tail.dollar, str)
    decreases |regex|, 0
  {
    if At(regex, 0) == '\0' {
      assert Matches([], str[..0]);
      return true;
    }
    if At(regex, 0) == '$' {
      OnlyDollar(regex);
      assert Matches([], str[..0]);
      return At(str, 0) == '\0';
    }
    var escaped := At(regex, 0) == '\\';
    var atom := if escaped then regex[1..] else regex;
    HeadOf(regex, escaped, atom);
    hide ParseTail, AtomMatchesChar, TestsAtom, MatchesHead, IsRepeat;
    if IsRepeat(At(atom, 1)) {
      found := MatchRepetitionAndRegexAtHead(escaped, atom[0], atom[1], atom[2..], str);
    } else {
      ghost var item, rest := Item(escaped, atom[0], Once), ParseTail(atom[1..]).value;
      HeadCons(item, rest.items, rest.dollar, str);
      OnceAtHead(item, str);
      if str != "" {
        TestsAsMeant(escaped, atom[0], str[0]);
      }
      if At(str, 0) != '\0' && TestsAtom(escaped, atom[0], At(str, 0)) {
        found := MatchRegexAtHead(atom[1..], str[1..]);
      } else {
        found := false;
      }
    }
  }

  lemma OnlyDollar(regex: CString)
    requires regex != "" && regex[0] == '$' && ParseTail(regex).Some?
    ensures regex == "$"
  {
    PlainAgrees('$');
    hide StandsForItself;
  }

  /** Matches anywhere in str, unless the regex starts with ^. Null never matches. */
  method MatchRegexAnywhere(regex: Option<CString>, str: Option<CString>) returns (found: bool)
    requires regex.Some? ==> Parse(regex.value).Some?
    requires str.Some? ==> |str.value| <= 0xFFFF_FFFF_FFFF_FFFE
    ensures found <==> regex.Some? && str.Some? && Found(Parse(regex.value).value, str.value)
  {
    if regex.None? || str.None? {
      return false;
    }
    var r, s := regex.value, str.value;
    ghost var p := Parse(r).value;
    FoundIffHead(p, s);
    if At(r, 0) == '^' {
      found := MatchRegexAtHead(r[1..], s);
      assert s[0..] == s;
      return;
    }
    var i := 0;
    found := MatchRegexAtHead(r, s[i..]);
    while !found && At(s, i) != '\0'
      invariant i <= |s|
      invariant found <==> MatchesHead(p.items, p.dollar, s[i..])
      invariant forall j | 0 <= j < i :: !MatchesHead(p.items, p.dollar, s[j..])
      decreases |s| - i
    {
      i := i + 1;
      found := MatchRegexAtHead(r, s[i..]);
    }
  }

  lemma FoundIffHead(p: Pattern, s: string)
    ensures Found(p, s) <==>
              exists i: nat {:trigger s[i..]} ::
                i <= |s| && (p.caret ==> i == 0) && MatchesHead(p.items, p.dollar, s[i..])
  {
    if Found(p, s) {
      var i: nat, j: nat :| i <= j <= |s| && Matches(p.items, s[i..j]) && (p.caret ==> i == 0)
                            && (p.dollar ==> j == |s|);
      assert s[i..][..j - i] == s[i..j];
    }
    if i: nat :| i <= |s| && (p.caret ==> i == 0) && MatchesHead(p.items, p.dollar, s[i..]) {
      var n: nat :| n <= |s[i..]| && Matches(p.items, s[i..][..n]) && (p.dollar ==> n == |s[i..]|);
      assert s[i..][..n] == s[i..i + n];
    }
  }

  // ----- the class RE -----

  /** The pattern ends in an escaped $, which the code takes for an anchor. */
  predicate EndsInEscapedDollar(p: Pattern) {
    !p.dollar && p.items != [] && p.items[|p.items| - 1] == Item(true, '$', Once)
  }

  /** The pattern that Init builds for full matches. */
  function FullPattern(p: Pattern): Pattern {
    Pattern(true, p.items, !EndsInEscapedDollar(p))
  }

  lemma TailEmpty(items: seq<Item>, dollar: bool)
    ensures RenderTail(items, dollar) == "" <==> items == [] && !dollar
  {
  }

  lemma {:induction false} TailEnds(items: seq<Item>, dollar: bool)
    requires WellFormed(items)
    ensures var s := RenderTail(items, dollar);
            s != "" && s[|s| - 1] == '$' <==> dollar || EndsInEscapedDollar(Pattern(false, items, false))
  {
    if items != [] {
      TailEnds(items[1..], dollar);
      assert WellFormedItem(items[0]);
      TailEmpty(items[1..], dollar);
    }
  }

  lemma {:induction false} TailWithDollar(items: seq<Item>)
    ensures RenderTail(items, false) + "$" == RenderTail(items, true)
  {
    if items != [] {
      TailWithDollar(items[1..]);
      assert RenderItem(items[0]) + RenderTail(items[1..], false) + "$"
          == RenderItem(items[0]) + (RenderTail(items[1..], false) + "$");
    }
  }

  /** The text that Init assembles: a ^ in front unless there is one, a $ at the end unless there is
      one. */
  function FullText(regex: string): string {
    (if regex != "" && regex[0] == '^' then "" else "^") + regex
    + (if regex != "" && regex[|regex| - 1] == '$' then "" else "$")
  }

  lemma FullTextOf(caret: bool, tail: string)
    requires tail != "" ==> tail[0] != '^'
    ensures var ends := tail != "" && tail[|tail| - 1] == '$';
            FullText((if caret then "^" else "") + tail) == "^" + (if ends then tail else tail + "$")
  {
    var regex := (if caret then "^" else "") + tail;
    if caret {
      assert regex == "^" + tail;
      assert tail != "" ==> regex[|regex| - 1] == tail[|tail| - 1];
    } else {
      assert regex == tail;
    }
  }

  lemma FullTextRenders(p: Pattern)
    requires WellFormed(p.items)
    ensures FullText(Render(p)) == Render(FullPattern(p))
  {
    TailStarts(p.items, p.dollar);
    TailEnds(p.items, p.dollar);
    TailWithDollar(p.items);
    hide RenderTail, FullText;
    FullTextOf(p.caret, RenderTail(p.items, p.dollar));
  }

  lemma FullTextParses(regex: string)
    requires Parse(regex).Some?
    ensures Parse(FullText(regex)) == Some(FullPattern(Parse(regex).value))
  {
    var p := Parse(regex).value;
    ParseRenders(regex);
    FullTextRenders(p);
    ParseReads(FullPattern(p));
  }

  method BuildFullPattern(regex: CString) returns (buffer: CString)
    ensures buffer == FullText(regex)
  {
    var len := |regex|;
    buffer := "";
    if At(regex, 0) != '^' {
      buffer := buffer + "^";
    }
    buffer := buffer + regex;
    if len == 0 || regex[len - 1] != '$' {
      buffer := buffer + "$";
    }
  }

  class RE {
    var pattern: Option<CString>
    var fullPattern: Option<CString>
    var isValid: bool

    ghost predicate Valid()
      reads this
    {
      && (isValid <==> pattern.Some? && IsSimpleRegex(pattern.value))
      && (isValid ==> Parse(pattern.value).Some? && fullPattern.Some?
                      && Parse(fullPattern.value) == Some(FullPattern(Parse(pattern.value).value)))
    }

    constructor (regex: Option<CString>)
      ensures Valid() && pattern == regex
    {
      hide Parse, FullText, FullPattern;
      pattern, fullPattern := regex, None;
      var valid := ValidateRegex(regex);
      isValid := valid;
      if valid {
        SimpleIffParses(regex.value);
        FullTextParses(regex.value);
        var buffer := BuildFullPattern(regex.value);
        fullPattern := Some(buffer);
      }
    }

    /** Some part of str matches the pattern. */
    method PartialMatch(str: CString) returns (found: bool)
      requires Valid() && |str| <= 0xFFFF_FFFF_FFFF_FFFE
      ensures found <==> isValid && Found(Parse(pattern.value).value, str)
    {
      if isValid {
        found := MatchRegexAnywhere(pattern, Some(str));
      } else {
        found := false;
      }
    }

    /** All of str matches the pattern's items; but when the pattern ends in an escaped $, it is
        enough that a prefix does. */
    method FullMatch(str: CString) returns (found: bool)
      requires Valid() && |str| <= 0xFFFF_FFFF_FFFF_FFFE
      ensures found <==> isValid && FullMatches(Parse(pattern.value).value, str)
    {
      if isValid {
        found := MatchRegexAnywhere(fullPattern, Some(str));
        FullPatternFound(Parse(pattern.value).value, str);
      } else {
        found := false;
      }
    }
  }

  /** What FullMatch computes. */
  ghost predicate FullMatches(p: Pattern, str: string) {
    if EndsInEscapedDollar(p) then MatchesHead(p.items, false, str) else Matches(p.items, str)
  }

  lemma FullPatternFound(p: Pattern, str: string)
    ensures Found(FullPattern(p), str) <==> FullMatches(p, str)
  {
    assert str[0..|str|] == str;
    forall j: nat | j <= |str| ensures str[0..j] == str[..j] {
    }
    if MatchesHead(p.items, false, str) {
      var n: nat :| n <= |str| && Matches(p.items, str[..n]);
      assert str[0..n] == str[..n];
    }
  }

  // ----- when a full match is a match of the whole string -----

  /** A character that the atom matches. */
  function Sample(escaped: bool, c: char): char {
    if escaped then
      match c
      case 'd' => '0'
      case 'D' => 'a'
      case 'f' => '\U{0C}'
      case 'n' => '\n'
      case 'r' => '\r'
      case 's' => ' '
      case 'S' => 'a'
      case 't' => '\t'
      case 'v' => '\U{0B}'
      case 'w' => 'a'
      case 'W' => ' '
      case _ => c
    else c
  }

  lemma SampleClasses()
    ensures '0' in DIGITS && ' ' in BLANKS && IsWordChar('a')
    ensures 'a' !in DIGITS && 'a' !in BLANKS && !IsWordChar(' ')
  {
    ClassesAgree('0');
    ClassesAgree('a');
    ClassesAgree(' ');
    hide DIGITS, BLANKS, IsWordChar;
  }

  lemma SampleMatches(item: Item)
    requires WellFormedItem(item)
    ensures AtomMatchesChar(item.escaped, item.c, Sample(item.escaped, item.c))
  {
    SampleClasses();
    hide DIGITS, BLANKS, IsWordChar, PUNCTUATION, StandsForItself;
  }

  function Samples(items: seq<Item>): string {
    if items == [] then "" else [Sample(items[0].escaped, items[0].c)] + Samples(items[1..])
  }

  lemma {:induction false} SamplesMatch(items: seq<Item>)
    requires WellFormed(items)
    ensures Matches(items, Samples(items))
  {
    if items != [] {
      SampleMatches(items[0]);
      SamplesMatch(items[1..]);
      assert Samples(items)[..1] == [Sample(items[0].escaped, items[0].c)];
      assert Samples(items)[1..] == Samples(items[1..]);
    }
  }

  /** A word in the language ends with what the last item matches, when that item is a single atom. */
  lemma {:induction false} LastItemMatchesLast(items: seq<Item>, w: string)
    requires items != [] && items[|items| - 1].repeat == Once && Matches(items, w)
    ensures w != "" && AtomMatchesChar(items[|items| - 1].escaped, items[|items| - 1].c, w[|w| - 1])
  {
    var n: nat :| n <= |w| && Allows(items[0].repeat, n) && AtomMatchesAll(items[0], w[..n])
                  && Matches(items[1..], w[n..]);
    if |items| == 1 {
      assert w[n..] == "";
      assert w[..n] == w;
    } else {
      LastItemMatchesLast(items[1..], w[n..]);
    }
  }

  /** FullMatch means that the whole string matches, for every string, exactly when the pattern does
      not end in an escaped $. */
  lemma FullMatchIsWholeMatch(p: Pattern)
    requires WellFormed(p.items)
    ensures (forall str :: FullMatches(p, str) <==> Matches(p.items, str)) <==> !EndsInEscapedDollar(p)
  {
    if EndsInEscapedDollar(p) {
      var good := Samples(p.items);
      var bad := good + "x";
      SamplesMatch(p.items);
      assert bad[..|good|] == good;
      assert FullMatches(p, bad);
      if Matches(p.items, bad) {
        LastItemMatchesLast(p.items, bad);
        assert false;
      }
    }
  }

  function DollarItems(): seq<Item> {
    [Item(false, 'a', Once), Item(true, '$', Once)]
  }

  lemma DollarParses()
    ensures Parse("a\\$") == Some(Pattern(false, DollarItems(), false))
  {
    var p := Pattern(false, DollarItems(), false);
    assert DollarItems()[1..] == [Item(true, '$', Once)] && DollarItems()[1..][1..] == [];
    assert RenderTail(DollarItems()[1..], false) == "\\$";
    assert Render(p) == "a\\$";
    hide Parse, Render, RenderTail;
    DollarIsWellFormed();
    hide WellFormed;
    ParseReads(p);
  }

  lemma DollarIsWellFormed()
    ensures WellFormed(DollarItems())
  {
    hide CanBeEscaped, StandsForItself;
    DollarEscapes();
    LetterStands();
  }

  lemma DollarEscapes()
    ensures CanBeEscaped('$')
  {
    assert PUNCTUATION[3] == '$';
  }

  lemma LetterStands()
    ensures StandsForItself('a')
  {
  }

  lemma DollarSamples()
    ensures Samples(DollarItems()) == "a$"
  {
    assert DollarItems()[1..] == [Item(true, '$', Once)] && DollarItems()[1..][1..] == [];
  }

  /** The pattern a\$ does not match the string a$x, but a full match of it is found. */
  lemma EscapedDollarMatchesFront()
    ensures var p := Pattern(false, DollarItems(), false);
            Parse("a\\$") == Some(p) && FullMatches(p, "a$x") && !Matches(p.items, "a$x")
  {
    var p := Pattern(false, DollarItems(), false);
    DollarParses();
    DollarSamples();
    SamplesMatch(p.items);
    hide Parse, Matches, Samples;
    assert "a$x"[..2] == "a$";
    if Matches(p.items, "a$x") {
      LastItemMatchesLast(p.items, "a$x");
      assert false;
    }
  }
}
