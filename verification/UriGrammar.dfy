/** The texts that stand for a WebSocket URI, piece by piece, and that parsing reads exactly these. */
module UriGrammar {
  import opened Options
  import opened Texts
  import opened Uri

  /** A host that holds no colon and no slash and does not begin with a bracket, or any text but a closing bracket
      between brackets. */
  predicate IsHostText(t: string, host: string) {
    || (t == host && ':' !in host && '/' !in host && (host != "" ==> host[0] != '['))
    || (t == "[" + host + "]" && ']' !in host)
  }

  /** Nothing or a colon for the default port, or a colon and what the C library reads as a number in range. */
  predicate IsPortText(t: string, secure: bool, port: nat) {
    || ((t == "" || t == ":") && port == if secure then 443 else 80)
    || (|t| > 1 && t[0] == ':' && '/' !in t && 1 <= port <= 65535 && Atoi(t[1..]) % 0x1_0000_0000 == port)
  }

  /** Nothing, for the root, or a path that begins with a slash. */
  predicate IsResourceText(t: string, resource: string) {
    if t == "" then resource == "/" else t[0] == '/' && resource == t
  }

  predicate ArePieces(s: string, u: Uri, host: string, port: string, resource: string) {
    && s == u.scheme + "://" + host + port + resource
    && (if u.secure then u.scheme == "wss" || u.scheme == "https" else u.scheme == "ws" || u.scheme == "http")
    && IsHostText(host, u.host) && IsPortText(port, u.secure, u.port) && IsResourceText(resource, u.resource)
  }

  predicate IsWhite(c: char) {
    c in {' ', '\t', '\n', '\U{0B}', '\U{0C}', '\r'}
  }

  predicate IsDigit(c: char) {
    c in "0123456789"
  }

  lemma WhiteIsSpace(c: char)
    ensures IsWhite(c) <==> IsSpace(c)
  {
  }

  lemma DigitIsNumber(c: char)
    ensures IsDigit(c) <==> IsNumber(c)
    ensures IsDigit(c) ==> !IsWhite(c) && c != '-' && c != '+'
  {
  }

  lemma AllDigits(digits: string, rest: string)
    requires forall k | 0 <= k < |digits| :: IsDigit(digits[k])
    requires rest != "" ==> !IsDigit(rest[0])
    ensures var t := digits + rest; Front(t, IsNumber) == |digits| && t[..|digits|] == digits
  {
    hide IsDigit, IsNumber;
    var t := digits + rest;
    forall k | 0 <= k < |digits| ensures IsNumber(t[k]) {
      DigitIsNumber(digits[k]);
    }
    if rest != "" {
      DigitIsNumber(rest[0]);
    }
    FrontIs(t, IsNumber, |digits|);
  }

  lemma SkipsWhite(spaces: string, t: string)
    requires forall k | 0 <= k < |spaces| :: IsWhite(spaces[k])
    requires t != "" && !IsWhite(t[0])
    ensures var s := spaces + t; Front(s, IsSpace) == |spaces| && s[|spaces|..] == t
  {
    hide IsWhite, IsSpace;
    var s := spaces + t;
    forall k | 0 <= k < |spaces| ensures IsSpace(s[k]) {
      WhiteIsSpace(spaces[k]);
    }
    WhiteIsSpace(t[0]);
    FrontIs(s, IsSpace, |spaces|);
  }

  /** The C library skips white space, takes a sign, and reads the digits up to any other character. */
  lemma AtoiIs(spaces: string, sign: string, digits: string, rest: string)
    requires forall k | 0 <= k < |spaces| :: IsWhite(spaces[k])
    requires sign == "" || sign == "-" || sign == "+"
    requires digits != "" && forall k | 0 <= k < |digits| :: IsDigit(digits[k])
    requires rest != "" ==> !IsDigit(rest[0])
    ensures Atoi(spaces + (sign + (digits + rest)))
            == if sign == "-" then -DecimalValue(digits) else DecimalValue(digits)
  {
    hide DecimalValue, IsSpace, IsNumber, Front, IsWhite, IsDigit;
    DigitIsNumber(digits[0]);
    AllDigits(digits, rest);
    var t := sign + (digits + rest);
    assert t != "" && t[0] == if sign == "" then digits[0] else sign[0];
    SignIsNoWhite();
    SkipsWhite(spaces, t);
    assert SignLength(t) == |sign|;
    assert t[|sign|..] == digits + rest;
    AtoiOf(spaces + t, t, digits + rest, digits);
  }

  lemma SignIsNoWhite()
    ensures !IsWhite('-') && !IsWhite('+')
  {
  }

  lemma AtoiOf(s: string, t: string, u: string, digits: string)
    requires t == s[Front(s, IsSpace)..] && u == t[SignLength(t)..] && digits == u[..Front(u, IsNumber)]
    ensures Atoi(s) == if t != "" && t[0] == '-' then -DecimalValue(digits) else DecimalValue(digits)
  {
    hide Front, SignLength, DecimalValue;
  }

  // ----- reading pieces -----

  lemma ReadsPortPiece(scheme: string, secure: bool, host: string, u: Uri, p: string, r: string)
    requires u.scheme == scheme && u.secure == secure && u.host == host
    requires IsPortText(p, secure, u.port) && IsResourceText(r, u.resource)
    ensures ParseBehindHost(scheme, secure, host, p + r) == Some(u)
  {
    hide ParsePort, Atoi, Finish;
    ResourcePiece(r, u.resource);
    if p == "" {
      assert p + r == r;
      FinishIs(scheme, secure, host, "", u, if r == "" then "" else r[1..]);
    } else {
      assert (p + r)[1..] == p[1..] + r;
      ReadsDigits(scheme, secure, host, p[1..], r);
      FinishIs(scheme, secure, host, p[1..], u, if r == "" then "" else r[1..]);
    }
  }

  lemma ResourcePiece(r: string, resource: string)
    requires IsResourceText(r, resource)
    ensures resource == "/" + if r == "" then "" else r[1..]
  {
  }

  lemma FinishIs(scheme: string, secure: bool, host: string, d: string, u: Uri, rest: string)
    requires u.scheme == scheme && u.secure == secure && u.host == host && u.resource == "/" + rest
    requires IsPortText(if d == "" then "" else ":" + d, secure, u.port)
    ensures Finish(scheme, secure, host, d, rest) == Some(u)
  {
    hide Atoi;
    assert d != "" ==> (":" + d)[1..] == d;
  }

  lemma ReadsDigits(scheme: string, secure: bool, host: string, d: string, r: string)
    requires '/' !in d && (r == "" || r[0] == '/')
    ensures ParsePort(scheme, secure, host, d + r) == Finish(scheme, secure, host, d, if r == "" then "" else r[1..])
  {
    hide Finish;
    var t := d + r;
    FrontIs(t, InPort, |d|);
    assert t[..|d|] == d && (r != "" ==> t[|d| + 1..] == r[1..]);
    hide Front;
  }

  lemma ReadsHostPiece(scheme: string, secure: bool, u: Uri, h: string, rest: string)
    requires IsHostText(h, u.host) && (rest == "" || rest[0] == ':' || rest[0] == '/')
    ensures ParseHost(scheme, secure, h + rest) == ParseBehindHost(scheme, secure, u.host, rest)
  {
    hide ParseBehindHost;
    var t := h + rest;
    if h == "[" + u.host + "]" && ']' !in u.host {
      assert t[1..] == u.host + "]" + rest;
      FrontIs(t[1..], InLiteral, |u.host|);
      assert t[1..][..|u.host|] == u.host && t[1..][|u.host| + 1..] == rest;
    } else {
      FrontIs(t, InHost, |h|);
      assert t[..|h|] == h && t[|h|..] == rest;
      assert t != "" ==> t[0] == if h == "" then rest[0] else h[0];
    }
    hide Front;
  }

  lemma PiecesAreRead(s: string, u: Uri, h: string, p: string, r: string)
    requires ArePieces(s, u, h, p, r)
    ensures Parse(s) == Some(u)
  {
    hide ParseHost, ParseBehindHost, SchemeOf, IsPortText, IsHostText;
    var t := h + (p + r);
    assert s == u.scheme + "://" + t;
    SchemeReads(u.scheme, u.secure, t);
    assert BehindScheme(s, u.scheme) == t;
    PortPieceBegins(p, r, u);
    ReadsHostPiece(u.scheme, u.secure, u, h, p + r);
    ReadsPortPiece(u.scheme, u.secure, u.host, u, p, r);
  }

  lemma PortPieceBegins(p: string, r: string, u: Uri)
    requires IsPortText(p, u.secure, u.port) && IsResourceText(r, u.resource)
    ensures var t := p + r; t == "" || t[0] == ':' || t[0] == '/'
  {
    hide Atoi;
  }

  // ----- finding pieces -----

  lemma PortPieceFound(scheme: string, secure: bool, host: string, t: string) returns (p: string, r: string)
    requires ParseBehindHost(scheme, secure, host, t).Some?
    ensures var u := ParseBehindHost(scheme, secure, host, t).value;
            && t == p + r && u.scheme == scheme && u.secure == secure && u.host == host
            && IsPortText(p, secure, u.port) && IsResourceText(r, u.resource)
  {
    hide Atoi, Front;
    if t == "" || t[0] == '/' {
      p, r := "", t;
      assert t != "" ==> "/" + t[1..] == t;
    } else {
      var n := Front(t[1..], InPort);
      p, r := t[..n + 1], t[n + 1..];
      assert p[1..] == t[1..][..n];
      assert forall k | 1 <= k < |p| :: p[k] == t[1..][k - 1];
      if n < |t[1..]| {
        assert r[0] == t[1..][n];
        assert r == "/" + t[1..][n + 1..];
      }
    }
  }

  lemma HostPieceFound(scheme: string, secure: bool, t: string) returns (h: string, rest: string)
    requires ParseHost(scheme, secure, t).Some?
    ensures var u := ParseHost(scheme, secure, t).value;
            t == h + rest && IsHostText(h, u.host) && ParseBehindHost(scheme, secure, u.host, rest) == Some(u)
  {
    hide ParseBehindHost, Front;
    if IsBracketed(t) {
      var b := t[1..];
      var n := Front(b, InLiteral);
      h, rest := t[..n + 2], b[n + 1..];
      assert forall k | 0 <= k < |b[..n]| :: b[..n][k] == b[k];
      assert h == "[" + b[..n] + "]";
    } else {
      var n := Front(t, InHost);
      h, rest := t[..n], t[n..];
      assert forall k | 0 <= k < |h| :: h[k] == t[k];
    }
  }

  /** Parsing yields a URI if and only if the text is the scheme, the host, the port and the resource of that URI,
      in their pieces. */
  lemma ParsesExactly(s: string, u: Uri)
    ensures Parse(s) == Some(u) <==>
            exists host: string, port: string, resource: string :: ArePieces(s, u, host, port, resource)
  {
    hide ArePieces, Parse;
    if Parse(s) == Some(u) {
      var h, p, r := PiecesFound(s, u);
    }
    if h: string, p: string, r: string :| ArePieces(s, u, h, p, r) {
      PiecesAreRead(s, u, h, p, r);
    }
  }

  lemma PiecesFound(s: string, u: Uri) returns (h: string, p: string, r: string)
    requires Parse(s) == Some(u)
    ensures ArePieces(s, u, h, p, r)
  {
    hide ParseHost, ParseBehindHost, IsHostText, IsPortText, IsResourceText;
    var (scheme, secure) := SchemeOf(s).value;
    hide SchemeOf;
    var t := BehindScheme(s, scheme);
    var rest;
    h, rest := HostPieceFound(scheme, secure, t);
    p, r := PortPieceFound(scheme, secure, u.host, rest);
    assert s == scheme + "://" + t;
    assert scheme + "://" + (h + (p + r)) == scheme + "://" + h + p + r;
  }
}
