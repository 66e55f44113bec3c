/** The TOML parser on arrays: it moves along a line, fetches further lines, and fills arrays in loops. */
module TomlParser {
  import opened Options
  import opened Texts
  import opened TomlSpec

  /** A parsing method agrees with what the text means: the same value and the same place behind it, or
      the same error. */
  ghost predicate Agrees<T>(p: Parsed<T>, r: Result<T, Error>, here: Cursor) {
    match p
    case Parsed(v, at) => r == Ok(v) && here == at
    case Failed(e) => r == Err(e)
  }

  /** A number of characters, so many further on. */
  function Further(k: nat, n: Option<nat>): Option<nat> {
    match n
    case None => None
    case Some(m) => Some(k + m)
  }

  lemma EatStep(line: string, at: nat)
    requires at < |line| && IsNumber(line[at])
    ensures EatNumbers(line[at..]) == if at + 1 == |line| || line[at + 1] != '_' then
                                         Further(1, EatNumbers(line[at + 1..]))
                                      else if at + 2 == |line| || !IsNumber(line[at + 2]) then None
                                      else Further(2, EatNumbers(line[at + 2..]))
  {
    Slices(line, at, 1);
    if at + 2 <= |line| {
      Slices(line, at, 2);
    }
  }

  /** Over one more digit, and the underscore behind it. */
  lemma EatMore(line: string, from: nat, check: nat)
    requires from <= check < |line| && IsNumber(line[check])
    requires EatNumbers(line[from..]) == Further(check - from, EatNumbers(line[check..]))
    ensures check + 1 == |line| || line[check + 1] != '_'
            ==> EatNumbers(line[from..]) == Further(check + 1 - from, EatNumbers(line[check + 1..]))
    ensures check + 1 < |line| && line[check + 1] == '_' ==>
              EatNumbers(line[from..]) == if check + 2 == |line| || !IsNumber(line[check + 2]) then None
                                          else Further(check + 2 - from, EatNumbers(line[check + 2..]))
  {
    EatStep(line, check);
    hide EatNumbers, IsNumber;
  }

  lemma EatsNoMore(line: string, from: nat, check: nat)
    requires from <= check <= |line| && (check < |line| ==> !IsNumber(line[check]))
    requires EatNumbers(line[from..]) == Further(check - from, EatNumbers(line[check..]))
    ensures EatNumbers(line[from..]) == Some(check - from)
  {
  }

  lemma LiteralEnds(line: string, lines: seq<string>, delim: char, val: string)
    ensures StringLiteral(Cursor(line[|line|..], lines), delim, val) == Failed(UnterminatedString)
  {
  }

  lemma LiteralStep(line: string, at: nat, lines: seq<string>, delim: char, val: string)
    requires at < |line|
    ensures StringLiteral(Cursor(line[at..], lines), delim, val)
            == if delim == '"' && line[at] == '\\' then
                 if at + 1 == |line| || EscapeCode(line[at + 1]).None? then Failed(InvalidEscape)
                 else StringLiteral(Cursor(line[at + 2..], lines), delim, val + [EscapeCode(line[at + 1]).value])
               else if line[at] == delim then Parsed(val, Cursor(SkipBlanks(line[at + 1..]), lines))
               else StringLiteral(Cursor(line[at + 1..], lines), delim, val + [line[at]])
  {
    Slices(line, at, 1);
    if at + 2 <= |line| {
      Slices(line, at, 2);
    }
    hide EscapeCode, SkipBlanks;
  }

  lemma NumberStep(line: string, at: nat, lines: seq<string>)
    requires at <= |line|
    ensures var check := at + SignLength(line[at..]);
            ParseNumber(Cursor(line[at..], lines)) ==
            match EatNumbers(line[check..])
            case None => Failed(MalformedNumber)
            case Some(n) =>
              if n == 0 then Failed(MalformedNumber)
              else if check + n < |line| && IsFloatMark(line[check + n]) then Failed(Unmodelled)
              else ParseInt(line[at..check + n], Cursor(line[check + n..], lines))
  {
    hide EatNumbers, ParseInt;
    var check := at + SignLength(line[at..]);
    Slices(line, at, check - at);
    if EatNumbers(line[check..]).Some? {
      Slices(line, at, check - at + EatNumbers(line[check..]).value);
    }
  }

  class Parser {
    var line: string
    var it: nat
    var input: seq<string>

    ghost predicate Valid()
      reads this
    {
      it <= |line|
    }

    /** Where the parser stands. */
    ghost function Here(): Cursor
      requires Valid()
      reads this
    {
      Cursor(line[it..], input)
    }

    /** Reads the first line of some input. */
    constructor (line: string, input: seq<string>)
      ensures Valid() && Here() == Cursor(line, input)
    {
      this.line, this.it, this.input := line, 0, input;
    }

    method ConsumeWhitespace()
      requires Valid()
      modifies `it
      ensures Valid() && Here() == Cursor(SkipBlanks(old(line[it..])), input)
    {
      while it < |line| && (line[it] == ' ' || line[it] == '\t')
        invariant Valid() && SkipBlanks(line[it..]) == SkipBlanks(old(line[it..]))
      {
        Slices(line, it, 1);
        it := it + 1;
      }
    }

    method SkipWhitespaceAndComments() returns (r: Result<(), Error>)
      requires Valid()
      modifies this
      ensures Valid() && Agrees(SkipToToken(old(Here())), r, Here())
    {
      ConsumeWhitespace();
      while it == |line| || line[it] == '#'
        invariant Valid() && SkipBlanks(line[it..]) == line[it..]
        invariant SkipToToken(Here()) == SkipToToken(old(Here()))
        decreases |input|
      {
        if input == [] {
          return Err(UnclosedArray);
        }
        line, input, it := input[0], input[1..], 0;
        ConsumeWhitespace();
      }
      return Ok(());
    }

    /** To what stands behind an element, and over a comma to the next element. */
    method SkipSeparator() returns (r: Result<bool, Error>)
      requires Valid()
      modifies this
      ensures Valid() && Agrees(Separator(old(Here())), r, Here())
    {
      var s := SkipWhitespaceAndComments();
      if s.Err? {
        return Err(s.error);
      }
      if line[it] != ',' {
        return Ok(false);
      }
      Slices(line, it, 1);
      it := it + 1;
      s := SkipWhitespaceAndComments();
      if s.Err? {
        return Err(s.error);
      }
      return Ok(true);
    }

    /** The type of the value that begins here, looking no further than end. */
    method DetermineValueType(end: nat) returns (t: Type)
      requires Valid() && it <= end <= |line| && it < |line|
      ensures t == ValueType(line[it], line[it..end])
    {
      hide IsDate, NumberType;
      if line[it] == '"' || line[it] == '\'' {
        return StringType;
      } else if IsDate(line[it..end]) {
        return DateType;
      } else if IsNumber(line[it]) || line[it] == '-' || line[it] == '+' {
        t := DetermineNumberType(end);
      } else if line[it] == 't' || line[it] == 'f' {
        return BoolType;
      } else if line[it] == '[' {
        return ArrayType;
      } else if line[it] == '{' {
        return InlineTableType;
      } else {
        return NoType;
      }
    }

    method DetermineNumberType(end: nat) returns (t: Type)
      requires Valid() && it <= end <= |line|
      ensures t == NumberType(line[it..end])
    {
      var text := line[it..end];
      var check := it;
      if check < end && (line[check] == '-' || line[check] == '+') {
        check := check + 1;
      }
      assert text[SignLength(text)..] == line[check..end];
      ghost var start := check;
      while check < end && IsNumber(line[check])
        invariant start <= check <= end
        invariant Front(line[start..end], IsNumber) == check - start + Front(line[check..end], IsNumber)
      {
        assert line[check..end][1..] == line[check + 1..end];
        check := check + 1;
      }
      if check < end && line[check] == '.' {
        t := FloatType;
      } else {
        t := IntType;
      }
    }

    method ParseEscapeCode() returns (r: Result<char, Error>)
      requires Valid() && it < |line|
      modifies `it
      ensures Valid() && it >= old(it)
      ensures r == if |line| - old(it) == 1 || EscapeCode(line[old(it) + 1]).None? then Err(InvalidEscape)
                   else Ok(EscapeCode(line[old(it) + 1]).value)
      ensures r.Ok? ==> it == old(it) + 2
    {
      it := it + 1;
      if it == |line| {
        return Err(InvalidEscape);
      }
      var value: char;
      if line[it] == 'b' {
        value := 8 as char;
      } else if line[it] == 't' {
        value := '\t';
      } else if line[it] == 'n' {
        value := '\n';
      } else if line[it] == 'f' {
        value := 12 as char;
      } else if line[it] == 'r' {
        value := '\r';
      } else if line[it] == '"' {
        value := '"';
      } else if line[it] == '\\' {
        value := '\\';
      } else {
        return Err(InvalidEscape);
      }
      it := it + 1;
      return Ok(value);
    }

    method ReadStringLiteral(delim: char) returns (r: Result<string, Error>)
      requires Valid() && it < |line|
      modifies `it
      ensures Valid()
      ensures Agrees(StringLiteral(Cursor(old(line[it + 1..]), input), delim, ""), r, Here())
    {
      hide StringLiteral, EscapeCode, SkipBlanks;
      it := it + 1;
      var val := "";
      ghost var p := StringLiteral(Here(), delim, "");
      while it < |line|
        invariant Valid() && StringLiteral(Here(), delim, val) == p
        decreases |line| - it
      {
        LiteralStep(line, it, input, delim, val);
        if delim == '"' && line[it] == '\\' {
          var c := ParseEscapeCode();
          if c.Err? {
            return Err(c.error);
          }
          val := val + [c.value];
        } else if line[it] == delim {
          it := it + 1;
          ConsumeWhitespace();
          return Ok(val);
        } else {
          val := val + [line[it]];
          it := it + 1;
        }
      }
      LiteralEnds(line, input, delim, val);
      return Err(UnterminatedString);
    }

    method ReadString() returns (r: Result<Value, Error>)
      requires Valid() && it < |line| && (line[it] == '"' || line[it] == '\'')
      modifies `it
      ensures Valid() && Agrees(ParseString(old(Here())), r, Here())
    {
      hide StringLiteral;
      var delim := line[it];
      Slices(line, it, 1);
      var check := it + 1;
      if check < |line| && line[check] == delim {
        check := check + 1;
        if check < |line| && line[check] == delim {
          return Err(Unmodelled);
        }
      }
      var s := ReadStringLiteral(delim);
      if s.Err? {
        return Err(s.error);
      }
      return Ok(Str(s.value));
    }

    /** Over digits with single underscores between them, from a position on. */
    method EatDigits(from: nat) returns (r: Result<nat, Error>)
      requires from <= |line|
      ensures match EatNumbers(line[from..])
              case None => r == Err(MalformedNumber)
              case Some(n) => r == if n == 0 then Err(MalformedNumber) else Ok(from + n)
    {
      hide EatNumbers, IsNumber;
      var check := from;
      while check < |line| && IsNumber(line[check])
        invariant from <= check <= |line|
        invariant EatNumbers(line[from..]) == Further(check - from, EatNumbers(line[check..]))
      {
        hide Further;
        EatMore(line, from, check);
        check := check + 1;
        if check < |line| && line[check] == '_' {
          check := check + 1;
          if check == |line| || !IsNumber(line[check]) {
            return Err(MalformedNumber);
          }
        }
      }
      EatsNoMore(line, from, check);
      if check == from {
        return Err(MalformedNumber);
      }
      return Ok(check);
    }

    method ReadNumber() returns (r: Result<Value, Error>)
      requires Valid()
      modifies `it
      ensures Valid() && Agrees(ParseNumber(old(Here())), r, Here())
    {
      hide EatNumbers, ParseInt, ParseNumber;
      NumberStep(line, it, input);
      var check := it;
      if check < |line| && (line[check] == '-' || line[check] == '+') {
        check := check + 1;
      }
      assert check == it + SignLength(line[it..]);
      var end := EatDigits(check);
      if end.Err? {
        return Err(end.error);
      }
      if end.value < |line| && (line[end.value] == '.' || line[end.value] == 'e' || line[end.value] == 'E') {
        return Err(Unmodelled);
      }
      r := ReadInt(end.value);
    }

    method ReadInt(end: nat) returns (r: Result<Value, Error>)
      requires Valid() && it <= end <= |line|
      modifies `it
      ensures Valid() && Agrees(ParseInt(old(line[it..end]), Cursor(line[end..], input)), r, Here())
    {
      hide SignedValue;
      var v := WithoutUnderscores(line[it..end]);
      it := end;
      var i := SignedValue(v);
      if -0x8000_0000_0000_0000 <= i < 0x8000_0000_0000_0000 {
        return Ok(Int(i));
      }
      return Err(MalformedNumber);
    }

    method ReadBool() returns (r: Result<Value, Error>)
      requires Valid()
      modifies `it
      ensures Valid() && Agrees(ParseBool(old(Here())), r, Here())
    {
      hide Front;
      var n := Front(line[it..], InBool);
      Slices(line, it, n);
      var v := line[it..it + n];
      it := it + n;
      if v == "true" {
        return Ok(Bool(true));
      } else if v == "false" {
        return Ok(Bool(false));
      }
      return Err(InvalidBool);
    }

    method ReadValue() returns (r: Result<Value, Error>)
      requires Valid() && it < |line|
      modifies this
      ensures Valid() && Agrees(ParseValue(old(Here())), r, Here())
      decreases Here().Size(), 2
    {
      hide ParseString, ParseNumber, ParseBool, ParseArray, IsDate, NumberType;
      assert line[it..|line|] == line[it..];
      var t := DetermineValueType(|line|);
      match t
      case StringType => r := ReadString();
      case IntType => r := ReadNumber();
      case FloatType => r := ReadNumber();
      case BoolType => r := ReadBool();
      case ArrayType => r := ReadArray();
      case NoType => r := Err(NoValueType);
      case _ => r := Err(Unmodelled);
    }

    method ReadArray() returns (r: Result<Value, Error>)
      requires Valid() && it < |line|
      modifies this
      ensures Valid() && Agrees(ParseArray(old(Here())), r, Here())
      decreases Here().Size(), 1
    {
      hide SkipToToken, ValueType, Front, ParseValueArray, ParseObjectArray;
      Slices(line, it, 1);
      it := it + 1;
      var s := SkipWhitespaceAndComments();
      if s.Err? {
        return Err(s.error);
      }
      if line[it] == ']' {
        Slices(line, it, 1);
        it := it + 1;
        return Ok(Arr([]));
      }
      var n := Front(line[it..], InFirstValue);
      Slices(line, it, n);
      var t := DetermineValueType(it + n);
      match t
      case StringType => r := ReadValueArray(StringType);
      case IntType => r := ReadValueArray(IntType);
      case BoolType => r := ReadValueArray(BoolType);
      case ArrayType => r := ReadObjectArray();
      case NoType => r := Err(NoValueType);
      case _ => r := Err(Unmodelled);
    }

    method ReadValueArray(t: Type) returns (r: Result<Value, Error>)
      requires Valid()
      modifies this
      ensures Valid() && Agrees(ParseValueArray(t, old(Here()), []), r, Here())
      decreases Here().Size(), 3
    {
      hide ParseValue, Separator, HasType, SkipToToken, LinesSize;
      var arr: seq<Value> := [];
      ghost var p := ParseValueArray(t, Here(), []);
      while it < |line| && line[it] != ']'
        invariant Valid() && Here().Size() <= old(Here().Size())
        invariant ParseValueArray(t, Here(), arr) == p
        decreases Here().Size()
      {
        var v := ReadValue();
        if v.Err? {
          return Err(v.error);
        }
        if !HasType(v.value, t) {
          return Err(MixedTypes);
        }
        arr := arr + [v.value];
        var more := SkipSeparator();
        if more.Err? {
          return Err(more.error);
        }
        if !more.value {
          Slices(line, it, 1);
          it := it + 1;
          return Ok(Arr(arr));
        }
      }
      if it < |line| {
        Slices(line, it, 1);
        it := it + 1;
      }
      return Ok(Arr(arr));
    }

    method ReadObjectArray() returns (r: Result<Value, Error>)
      requires Valid()
      modifies this
      ensures Valid() && Agrees(ParseObjectArray(old(Here()), []), r, Here())
      decreases Here().Size(), 3
    {
      hide ParseArray, Separator, LinesSize;
      var arr: seq<Value> := [];
      ghost var p := ParseObjectArray(Here(), []);
      while it < |line| && line[it] != ']'
        invariant Valid() && Here().Size() <= old(Here().Size())
        invariant ParseObjectArray(Here(), arr) == p
        decreases Here().Size()
      {
        if line[it] != '[' {
          return Err(UnexpectedCharacter);
        }
        var v := ReadArray();
        if v.Err? {
          return Err(v.error);
        }
        arr := arr + [v.value];
        var more := SkipSeparator();
        if more.Err? {
          return Err(more.error);
        }
        if !more.value {
          if line[it] != ']' {
            return Err(UnterminatedArray);
          }
          Slices(line, it, 1);
          it := it + 1;
          return Ok(Arr(arr));
        }
      }
      if it == |line| {
        return Err(UnterminatedArray);
      }
      Slices(line, it, 1);
      it := it + 1;
      return Ok(Arr(arr));
    }
  }
}
