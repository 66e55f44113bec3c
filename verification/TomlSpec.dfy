/** TOML array trees, the text they are written as, and what the parser makes of a text. */
module TomlSpec {
  import opened Options
  import opened Texts

  type int64 = i: int | -0x8000_0000_0000_0000 <= i < 0x8000_0000_0000_0000

  /** The values an array tree is made of. */
  datatype Value = Str(s: string) | Int(i: int64) | Bool(b: bool) | Arr(elements: seq<Value>)

  predicate SameType(v: Value, w: Value) {
    v.Str? == w.Str? && v.Int? == w.Int? && v.Bool? == w.Bool? && v.Arr? == w.Arr?
  }

  /** The elements of every array are of one type; arrays inside an array may differ among themselves. */
  predicate Homogeneous(v: Value) {
    v.Arr? ==> forall k | 0 <= k < |v.elements| :: SameType(v.elements[0], v.elements[k]) && Homogeneous(v.elements[k])
  }

  /** Two elements of an array are both strings, both integers, both booleans or both arrays. */
  lemma HomogeneousPair(v: Value, w: Value)
    ensures Homogeneous(Arr([v, w])) <==>
            && Homogeneous(v) && Homogeneous(w)
            && ((v.Str? && w.Str?) || (v.Int? && w.Int?) || (v.Bool? && w.Bool?) || (v.Arr? && w.Arr?))
  {
    assert [v, w][0] == v && [v, w][1] == w;
  }

  // ----- writing -----

  function EscapedChar(c: char): string {
    if c == '\\' then "\\\\" else if c == '"' then "\\\"" else if c == '\n' then "\\n" else [c]
  }

  function Escaped(s: string): string {
    if s == "" then "" else EscapedChar(s[0]) + Escaped(s[1..])
  }

  function DecimalInt(i: int): string {
    if i < 0 then "-" + Decimal(-i) else Decimal(i)
  }

  function Render(v: Value): string
    decreases v, 1
  {
    match v
    case Str(s) => "\"" + Escaped(s) + "\""
    case Int(i) => DecimalInt(i)
    case Bool(b) => if b then "true" else "false"
    case Arr(a) => "[" + RenderFrom(v, 0) + "]"
  }

  /** The elements of an array from the k-th on, with a separator before each but the first of all. */
  function RenderFrom(v: Value, k: nat): string
    requires v.Arr? && k <= |v.elements|
    decreases v, 0, |v.elements| - k
  {
    if k == |v.elements| then ""
    else (if k > 0 then ", " else "") + Render(v.elements[k]) + RenderFrom(v, k + 1)
  }

  // ----- parsing -----

  /** Where a parser stands: the rest of its line and the lines it has not read yet. */
  datatype Cursor = Cursor(rest: string, lines: seq<string>) {
    function Size(): nat { |rest| + LinesSize(lines) }
  }

  function LinesSize(lines: seq<string>): nat {
    if lines == [] then 0 else 1 + |lines[0]| + LinesSize(lines[1..])
  }

  datatype Error =
    | UnclosedArray | UnterminatedArray | UnexpectedCharacter | MixedTypes | NoValueType
    | InvalidEscape | UnterminatedString | MalformedNumber | InvalidBool
    | Unmodelled // a date, a float, an inline table or a string over several lines begins here

  /** What parsing makes of a text: a value and the place behind it, or an error. */
  datatype Parsed<T> = Parsed(value: T, at: Cursor) | Failed(error: Error)

  predicate IsBlank(c: char) {
    c == ' ' || c == '\t'
  }

  function SkipBlanks(s: string): (r: string)
    ensures |r| <= |s| && (r != "" ==> !IsBlank(r[0]))
  {
    if s != "" && IsBlank(s[0]) then SkipBlanks(s[1..]) else s
  }

  /** Over blanks, comments and line ends to the next character that counts. */
  function SkipToToken(c: Cursor): (p: Parsed<()>)
    ensures p.Parsed? ==> p.at.Size() <= c.Size() && p.at.rest != "" && !IsBlank(p.at.rest[0]) && p.at.rest[0] != '#'
    decreases |c.lines|
  {
    var rest := SkipBlanks(c.rest);
    if rest != "" && rest[0] != '#' then Parsed((), Cursor(rest, c.lines))
    else if c.lines == [] then Failed(UnclosedArray)
    else SkipToToken(Cursor(c.lines[0], c.lines[1..]))
  }

  datatype Type = StringType | DateType | IntType | FloatType | BoolType | ArrayType | InlineTableType | NoType

  predicate IsDateChar(c: char) {
    IsNumber(c) || c == 'T' || c == 'Z' || c == ':' || c == '-' || c == '+' || c == '.'
  }

  /** Whether the library is built with regular expressions. It is either way, so what is proved is proved of
      both builds. */
  const HAS_STD_REGEX: bool

  /** Digits where the shape has zeros, and the same characters elsewhere. */
  predicate HasShape(s: string, shape: string) {
    |s| == |shape| && forall k | 0 <= k < |s| :: if shape[k] == '0' then IsNumber(s[k]) else s[k] == shape[k]
  }

  /** The length of a point and digits, or 0. */
  function FractionLength(s: string): (n: nat)
    ensures n <= |s|
  {
    if s == "" || s[0] != '.' || Front(s[1..], IsNumber) == 0 then 0 else 1 + Front(s[1..], IsNumber)
  }

  /** The whole text matches the date pattern: date and time, perhaps a fraction, and a zone. */
  predicate MatchesDate(t: string) {
    && |t| >= 20 && HasShape(t[..19], "0000-00-00T00:00:00")
    && var zone := t[19..][FractionLength(t[19..])..];
    && (zone == "Z" || (zone != "" && IsSign(zone[0]) && HasShape(zone[1..], "00:00")))
  }

  /** The look-ahead of a build without regular expressions. */
  predicate LooksLikeDate(t: string) {
    |t| >= 20 && t[4] == '-' && t[7] == '-' && t[10] == 'T' && t[13] == ':' && t[16] == ':'
  }

  predicate IsDate(s: string) {
    var t := s[..Front(s, IsDateChar)];
    if HAS_STD_REGEX then MatchesDate(t) else LooksLikeDate(t)
  }

  function NumberType(s: string): (t: Type)
    ensures t == FloatType || t == IntType
  {
    var digits := s[SignLength(s)..];
    var n := Front(digits, IsNumber);
    if n < |digits| && digits[n] == '.' then FloatType else IntType
  }

  /** The type of value that begins at c, seen no further than its text. */
  function ValueType(c: char, text: string): Type {
    if c == '"' || c == '\'' then StringType
    else if IsDate(text) then DateType
    else if IsNumber(c) || IsSign(c) then NumberType(text)
    else if c == 't' || c == 'f' then BoolType
    else if c == '[' then ArrayType
    else if c == '{' then InlineTableType
    else NoType
  }

  // ----- scalars -----

  /** What the character after a backslash stands for. */
  function EscapeCode(c: char): Option<char> {
    match c
    case 'b' => Some(8 as char)
    case 't' => Some('\t')
    case 'n' => Some('\n')
    case 'f' => Some(12 as char)
    case 'r' => Some('\r')
    case '"' => Some('"')
    case '\\' => Some('\\')
    case _ => None
  }

  /** The rest of a string behind its opening delimiter, read so far as val. */
  function StringLiteral(c: Cursor, delim: char, val: string): (p: Parsed<string>)
    ensures p.Parsed? ==> p.at.Size() <= c.Size()
    decreases |c.rest|
  {
    if c.rest == "" then Failed(UnterminatedString)
    else if delim == '"' && c.rest[0] == '\\' then
      if |c.rest| == 1 then Failed(InvalidEscape)
      else
        match EscapeCode(c.rest[1])
        case None => Failed(InvalidEscape)
        case Some(e) => StringLiteral(Cursor(c.rest[2..], c.lines), delim, val + [e])
    else if c.rest[0] == delim then Parsed(val, Cursor(SkipBlanks(c.rest[1..]), c.lines))
    else StringLiteral(Cursor(c.rest[1..], c.lines), delim, val + [c.rest[0]])
  }

  function ParseString(c: Cursor): (p: Parsed<Value>)
    requires c.rest != ""
    ensures p.Parsed? ==> p.value.Str? && p.at.Size() <= c.Size()
  {
    var delim := c.rest[0];
    if |c.rest| >= 3 && c.rest[1] == delim && c.rest[2] == delim then Failed(Unmodelled)
    else
      match StringLiteral(Cursor(c.rest[1..], c.lines), delim, "")
      case Parsed(s, at) => Parsed(Str(s), at)
      case Failed(e) => Failed(e)
  }

  /** How many characters are digits with single underscores between them; none if an underscore is misplaced. */
  function EatNumbers(s: string): (n: Option<nat>)
    ensures n.Some? ==> n.value <= |s|
  {
    if s == "" || !IsNumber(s[0]) then Some(0)
    else if |s| > 1 && s[1] == '_' && (|s| == 2 || !IsNumber(s[2])) then None
    else
      var step := if |s| > 1 && s[1] == '_' then 2 else 1;
      match EatNumbers(s[step..])
      case None => None
      case Some(n) => Some(step + n)
  }

  function WithoutUnderscores(s: string): string {
    if s == "" then "" else (if s[0] == '_' then "" else [s[0]]) + WithoutUnderscores(s[1..])
  }

  /** The number a sign and digits stand for. */
  function SignedValue(s: string): int {
    var digits := DecimalValue(s[SignLength(s)..]);
    if s != "" && s[0] == '-' then -digits else digits
  }

  function ParseInt(s: string, at: Cursor): (p: Parsed<Value>)
    ensures p.Parsed? ==> p.value.Int? && p.at == at
  {
    var i := SignedValue(WithoutUnderscores(s));
    if -0x8000_0000_0000_0000 <= i < 0x8000_0000_0000_0000 then Parsed(Int(i), at) else Failed(MalformedNumber)
  }

  predicate IsFloatMark(c: char) {
    c == '.' || c == 'e' || c == 'E'
  }

  function ParseNumber(c: Cursor): (p: Parsed<Value>)
    ensures p.Parsed? ==> p.value.Int? && p.at.Size() <= c.Size()
  {
    var sign := SignLength(c.rest);
    match EatNumbers(c.rest[sign..])
    case None => Failed(MalformedNumber)
    case Some(n) =>
      var end := sign + n;
      if n == 0 then Failed(MalformedNumber)
      else if end < |c.rest| && IsFloatMark(c.rest[end]) then Failed(Unmodelled)
      else ParseInt(c.rest[..end], Cursor(c.rest[end..], c.lines))
  }

  predicate InBool(c: char) {
    c != ' ' && c != '\t' && c != '#' && c != ',' && c != ']'
  }

  function ParseBool(c: Cursor): (p: Parsed<Value>)
    ensures p.Parsed? ==> p.value.Bool? && p.at.Size() <= c.Size()
  {
    var n := Front(c.rest, InBool);
    var v := c.rest[..n];
    if v == "true" then Parsed(Bool(true), Cursor(c.rest[n..], c.lines))
    else if v == "false" then Parsed(Bool(false), Cursor(c.rest[n..], c.lines))
    else Failed(InvalidBool)
  }

  // ----- values and arrays -----

  function ParseValue(c: Cursor): (p: Parsed<Value>)
    requires c.rest != ""
    ensures p.Parsed? ==> p.at.Size() <= c.Size()
    decreases c.Size(), 2
  {
    match ValueType(c.rest[0], c.rest)
    case StringType => ParseString(c)
    case IntType => ParseNumber(c)
    case FloatType => ParseNumber(c)
    case BoolType => ParseBool(c)
    case ArrayType => ParseArray(c)
    case NoType => Failed(NoValueType)
    case _ => Failed(Unmodelled)
  }

  predicate InFirstValue(c: char) {
    c != ',' && c != ']' && c != '#'
  }

  function ParseArray(c: Cursor): (p: Parsed<Value>)
    requires c.rest != ""
    ensures p.Parsed? ==> p.value.Arr? && p.at.Size() < c.Size()
    decreases c.Size(), 1
  {
    match SkipToToken(Cursor(c.rest[1..], c.lines))
    case Failed(e) => Failed(e)
    case Parsed(_, d) =>
      if d.rest[0] == ']' then Parsed(Arr([]), Cursor(d.rest[1..], d.lines))
      else
        match ValueType(d.rest[0], d.rest[..Front(d.rest, InFirstValue)])
        case StringType => ParseValueArray(StringType, d, [])
        case IntType => ParseValueArray(IntType, d, [])
        case BoolType => ParseValueArray(BoolType, d, [])
        case ArrayType => ParseObjectArray(d, [])
        case NoType => Failed(NoValueType)
        case _ => Failed(Unmodelled)
  }

  predicate HasType(v: Value, t: Type) {
    (t == StringType && v.Str?) || (t == IntType && v.Int?) || (t == BoolType && v.Bool?)
  }

  /** The rest of an array of strings, integers or booleans whose elements so far are arr. */
  function ParseValueArray(t: Type, c: Cursor, arr: seq<Value>): (p: Parsed<Value>)
    ensures p.Parsed? ==> p.value.Arr? && p.at.Size() <= c.Size()
    decreases c.Size(), 3
  {
    if c.rest == "" then Parsed(Arr(arr), c)
    else if c.rest[0] == ']' then Parsed(Arr(arr), Cursor(c.rest[1..], c.lines))
    else
      match ParseValue(c)
      case Failed(e) => Failed(e)
      case Parsed(v, d) =>
        if !HasType(v, t) then Failed(MixedTypes)
        else
          match Separator(d)
          case Failed(e) => Failed(e)
          case Parsed(more, f) =>
            if more then ParseValueArray(t, f, arr + [v])
            else Parsed(Arr(arr + [v]), Cursor(f.rest[1..], f.lines))
  }

  /** The rest of an array of arrays. */
  function ParseObjectArray(c: Cursor, arr: seq<Value>): (p: Parsed<Value>)
    ensures p.Parsed? ==> p.value.Arr? && p.at.Size() <= c.Size()
    decreases c.Size(), 3
  {
    if c.rest == "" then Failed(UnterminatedArray)
    else if c.rest[0] == ']' then Parsed(Arr(arr), Cursor(c.rest[1..], c.lines))
    else if c.rest[0] != '[' then Failed(UnexpectedCharacter)
    else
      match ParseArray(c)
      case Failed(e) => Failed(e)
      case Parsed(v, d) =>
        match Separator(d)
        case Failed(e) => Failed(e)
        case Parsed(more, f) =>
          if more then ParseObjectArray(f, arr + [v])
          else if f.rest[0] != ']' then Failed(UnterminatedArray)
          else Parsed(Arr(arr + [v]), Cursor(f.rest[1..], f.lines))
  }

  /** To what stands behind an element; over the comma to the next element, if there is a comma. */
  function Separator(c: Cursor): (p: Parsed<bool>)
    ensures p.Parsed? ==> p.at.rest != ""
    ensures p.Parsed? ==> if p.value then p.at.Size() < c.Size() else p.at.Size() <= c.Size()
  {
    match SkipToToken(c)
    case Failed(e) => Failed(e)
    case Parsed(_, e) =>
      if e.rest[0] != ',' then Parsed(false, e)
      else
        match SkipToToken(Cursor(e.rest[1..], e.lines))
        case Failed(f) => Failed(f)
        case Parsed(_, f) => Parsed(true, f)
  }
}
