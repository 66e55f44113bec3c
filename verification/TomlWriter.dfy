/** The TOML writer on arrays, and what reading its output gives back. */
module TomlWriter {
  import opened Options
  import opened TomlSpec
  import opened TomlParser
  import opened TomlGrammar
  import opened TomlRoundTrip

  lemma EscapedAppend(s: string, t: string)
    ensures Escaped(s + t) == Escaped(s) + Escaped(t)
  {
    if s == "" {
      assert s + t == t;
    } else {
      assert (s + t)[1..] == s[1..] + t;
      EscapedAppend(s[1..], t);
    }
  }

  lemma OneElement(a: Value, i: nat, before: string, all: string)
    requires a.Arr? && i < |a.elements| && before + RenderFrom(a, i) == all
    ensures before + (if i > 0 then ", " else "") + Render(a.elements[i]) + RenderFrom(a, i + 1) == all
  {
    hide Render;
  }

  class Writer {
    var stream: string
    var hasNakedEndline: bool

    constructor ()
      ensures stream == ""
    {
      stream, hasNakedEndline := "", false;
    }

    method Write(text: string)
      modifies this
      ensures stream == old(stream) + text && !hasNakedEndline
    {
      stream := stream + text;
      hasNakedEndline := false;
    }

    static method EscapeString(str: string) returns (res: string)
      ensures res == Escaped(str)
    {
      res := "";
      for k := 0 to |str|
        invariant res == Escaped(str[..k])
      {
        EscapedAppend(str[..k], [str[k]]);
        assert str[..k + 1] == str[..k] + [str[k]];
        if str[k] == '\\' {
          res := res + "\\\\";
        } else if str[k] == '"' {
          res := res + "\\\"";
        } else if str[k] == '\n' {
          res := res + "\\n";
        } else {
          res := res + [str[k]];
        }
      }
      assert str[..|str|] == str;
    }

    method WriteString(s: string)
      modifies this
      ensures stream == old(stream) + Render(Str(s))
    {
      Write("\"");
      var escaped := EscapeString(s);
      Write(escaped);
      Write("\"");
    }

    method VisitScalar(v: Value)
      requires !v.Arr?
      modifies this
      ensures stream == old(stream) + Render(v)
    {
      match v
      case Str(s) => WriteString(s);
      case Int(i) => Write(DecimalInt(i));
      case Bool(b) => Write(if b then "true" else "false");
    }

    method VisitArray(a: Value)
      requires a.Arr?
      modifies this
      ensures stream == old(stream) + Render(a)
      decreases a
    {
      ghost var all := stream + "[" + RenderFrom(a, 0);
      Write("[");
      for i := 0 to |a.elements|
        invariant stream + RenderFrom(a, i) == all
      {
        hide Render, RenderFrom;
        ghost var before := stream;
        OneElement(a, i, stream, all);
        if i > 0 {
          Write(", ");
        }
        assert stream == before + (if i > 0 then ", " else "");
        if a.elements[i].Arr? {
          VisitArray(a.elements[i]);
        } else {
          VisitScalar(a.elements[i]);
        }
      }
      assert stream == all;
      Write("]");
      assert old(stream) + "[" + RenderFrom(a, 0) + "]" == old(stream) + Render(a);
    }
  }

  /** Writing an array tree and parsing the text gives the tree back, with nothing of the text left over,
      exactly when the tree is homogeneous. */
  method WriteAndRead(v: Value, post: string, lines: seq<string>)
    returns (r: Result<Value, Error>, rest: string, unread: seq<string>)
    requires v.Arr?
    ensures if Homogeneous(v) then r == Ok(v) && rest == post && unread == lines else r.Err?
  {
    hide Render, Homogeneous, ParseArray;
    var writer := new Writer();
    writer.VisitArray(v);
    RoundTrip(v, Cursor(post, lines));
    assert "" + Render(v) == Render(v);
    var parser := new Parser(writer.stream + post, lines);
    r := parser.ReadArray();
    rest, unread := parser.line[parser.it..], parser.input;
  }

  /** What the parsing class takes for a spelling of an array tree, it reads as the tree, and stands behind
      it then; the text may go on over further lines. */
  method ReadSpelling(text: string, lines: seq<string>, ghost l: Laid, ghost post: Cursor)
    returns (r: Result<Value, Error>, rest: string, unread: seq<string>)
    requires l.Array? && IsLoose(l, post) && Spell(l, post) == Cursor(text, lines)
    ensures if Homogeneous(TreeOf(l)) then r == Ok(TreeOf(l)) && rest == post.rest && unread == post.lines else r.Err?
  {
    hide Spell, Homogeneous, ParseArray, TreeOf, IsLoose;
    TomlGrammar.ReadsArray(l, post);
    var parser := new Parser(text, lines);
    r := parser.ReadArray();
    rest, unread := parser.line[parser.it..], parser.input;
  }
}
