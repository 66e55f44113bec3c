/** WebSocket URIs: parsing them from text and writing them out. */
module Uri {
  import opened Options
  import opened Texts

  datatype Uri = Uri(scheme: string, secure: bool, host: string, port: nat, resource: string)

  const DEFAULT_PORT := 80
  const DEFAULT_SECURE_PORT := 443

  function DefaultPort(secure: bool): nat {
    if secure then DEFAULT_SECURE_PORT else DEFAULT_PORT
  }

  // ----- ports -----

  predicate IsSpace(c: char) {
    c == ' ' || '\t' <= c <= '\r'
  }

  /** The C library's reading of a number at the front of a text. */
  function Atoi(s: string): int {
    var t := s[Front(s, IsSpace)..];
    var digits := t[SignLength(t)..];
    var value := DecimalValue(digits[..Front(digits, IsNumber)]);
    if t != "" && t[0] == '-' then -value else value
  }

  /** The port a text stands for; none if it is out of range. */
  function PortOf(text: string, secure: bool): (port: Option<nat>)
    ensures port.Some? ==> 0 < port.value <= 65535
  {
    if text == "" then Some(DefaultPort(secure))
    else
      var t := Atoi(text) % 0x1_0000_0000;
      if t > 65535 || t == 0 then None else Some(t)
  }

  // ----- parsing -----

  predicate IsScheme(scheme: string, secure: bool) {
    if secure then scheme == "wss" || scheme == "https" else scheme == "ws" || scheme == "http"
  }

  function SchemeOf(s: string): (r: Option<(string, bool)>)
    ensures r.Some? ==> IsScheme(r.value.0, r.value.1) && r.value.0 + "://" <= s
  {
    if "wss://" <= s then Some(("wss", true))
    else if "ws://" <= s then Some(("ws", false))
    else if "http://" <= s then Some(("http", false))
    else if "https://" <= s then Some(("https", true))
    else None
  }

  predicate InLiteral(c: char) {
    c != ']'
  }

  predicate InHost(c: char) {
    c != ':' && c != '/'
  }

  predicate InPort(c: char) {
    c != '/'
  }

  predicate HasParts(u: Uri, scheme: string, secure: bool) {
    u.scheme == scheme && u.secure == secure && 0 < u.port <= 65535 && u.resource != "" && u.resource[0] == '/'
  }

  function Finish(scheme: string, secure: bool, host: string, port: string, rest: string): (u: Option<Uri>)
    ensures u.Some? ==> HasParts(u.value, scheme, secure) && u.value.host == host
  {
    match PortOf(port, secure)
    case None => None
    case Some(p) => Some(Uri(scheme, secure, host, p, "/" + rest))
  }

  /** A port and perhaps a resource. */
  function ParsePort(scheme: string, secure: bool, host: string, t: string): (u: Option<Uri>)
    ensures u.Some? ==> HasParts(u.value, scheme, secure) && u.value.host == host
  {
    var n := Front(t, InPort);
    Finish(scheme, secure, host, t[..n], if n == |t| then "" else t[n + 1..])
  }

  /** What stands behind the host: nothing, a resource, or a port and perhaps a resource. */
  function ParseBehindHost(scheme: string, secure: bool, host: string, t: string): (u: Option<Uri>)
    ensures u.Some? ==> HasParts(u.value, scheme, secure) && u.value.host == host
  {
    if t == "" then Finish(scheme, secure, host, "", "")
    else if t[0] == '/' then Finish(scheme, secure, host, "", t[1..])
    else if t[0] == ':' then ParsePort(scheme, secure, host, t[1..])
    else None
  }

  predicate IsBracketed(t: string) {
    t != "" && t[0] == '['
  }

  function ParseHost(scheme: string, secure: bool, t: string): (u: Option<Uri>)
    ensures u.Some? ==> HasParts(u.value, scheme, secure)
  {
    if IsBracketed(t) then
      var n := Front(t[1..], InLiteral);
      if n == |t[1..]| then None else ParseBehindHost(scheme, secure, t[1..][..n], t[1..][n + 1..])
    else
      var n := Front(t, InHost);
      ParseBehindHost(scheme, secure, t[..n], t[n..])
  }

  function BehindScheme(s: string, scheme: string): string
    requires scheme + "://" <= s
  {
    s[|scheme| + 3..]
  }

  /** The URI that a text stands for. */
  function Parse(s: string): Option<Uri> {
    match SchemeOf(s)
    case None => None
    case Some((scheme, secure)) => ParseHost(scheme, secure, BehindScheme(s, scheme))
  }

  // ----- writing -----

  function PortText(u: Uri): string {
    if u.port != DefaultPort(u.secure) then ":" + Decimal(u.port) else ""
  }

  function Text(u: Uri): string {
    u.scheme + "://" + u.host + PortText(u) + u.resource
  }

  /** The URIs that parsing yields and that the other constructors are called for. */
  predicate WellFormed(u: Uri) {
    IsScheme(u.scheme, u.secure) && HasParts(u, u.scheme, u.secure)
  }

  /** A host that reads as a host wherever it stands, which an IPv6 address does not. */
  predicate IsPlain(host: string) {
    (forall k | 0 <= k < |host| :: InHost(host[k])) && !IsBracketed(host)
  }

  lemma ParsedIsWellFormed(s: string)
    ensures Parse(s).Some? ==> WellFormed(Parse(s).value)
  {
    hide ParseHost;
  }

  /** Digits are read back by the C library. */
  lemma AtoiReads(n: nat)
    ensures Atoi(Decimal(n)) == n
  {
    var s := Decimal(n);
    DecimalReads(n);
    hide Decimal, DecimalValue;
    FrontIs(s, IsSpace, 0);
    assert s[0..] == s;
    FrontIs(s, IsNumber, |s|);
    assert s[..|s|] == s;
    assert IsNumber(s[0]);
  }

  /** The port text of a port in range is read back. */
  lemma PortReads(port: nat, secure: bool)
    requires 0 < port <= 65535
    ensures PortOf(Decimal(port), secure) == Some(port)
  {
    AtoiReads(port);
    hide Atoi, Decimal;
  }

  lemma PortFront(d: string, resource: string)
    requires AllNumbers(d) && resource != "" && resource[0] == '/'
    ensures var t := d + resource; Front(t, InPort) == |d| && t[..|d|] == d && t[|d| + 1..] == resource[1..]
  {
    FrontIs(d + resource, InPort, |d|);
  }

  lemma ReadsPort(u: Uri)
    requires WellFormed(u)
    ensures ParsePort(u.scheme, u.secure, u.host, Decimal(u.port) + u.resource) == Some(u)
  {
    PortReads(u.port, u.secure);
    DecimalReads(u.port);
    hide Decimal, DecimalValue, PortOf, Front;
    PortFront(Decimal(u.port), u.resource);
    assert u.resource == "/" + u.resource[1..];
  }

  lemma ResourceReads(u: Uri)
    requires WellFormed(u) && u.port == DefaultPort(u.secure)
    ensures ParseBehindHost(u.scheme, u.secure, u.host, u.resource) == Some(u)
  {
    hide Front, Atoi;
    assert u.resource == "/" + u.resource[1..];
  }

  /** The port and resource of a URI are read back behind its host. */
  lemma ReadsBehindHost(u: Uri)
    requires WellFormed(u)
    ensures ParseBehindHost(u.scheme, u.secure, u.host, PortText(u) + u.resource) == Some(u)
  {
    hide Decimal, ParsePort, Finish;
    if u.port == DefaultPort(u.secure) {
      ResourceReads(u);
      assert PortText(u) + u.resource == u.resource;
    } else {
      ReadsPort(u);
      assert (PortText(u) + u.resource)[1..] == Decimal(u.port) + u.resource;
    }
  }

  lemma SchemeReads(scheme: string, secure: bool, rest: string)
    requires IsScheme(scheme, secure)
    ensures SchemeOf(scheme + "://" + rest) == Some((scheme, secure))
  {
    var s := scheme + "://" + rest;
    assert s[|scheme|] == ':' && s[0] == scheme[0];
  }

  lemma ReadsScheme(u: Uri)
    requires WellFormed(u)
    ensures Parse(Text(u)) == ParseHost(u.scheme, u.secure, u.host + PortText(u) + u.resource)
  {
    hide PortText, ParseHost, SchemeOf;
    var s, t := Text(u), u.host + PortText(u) + u.resource;
    assert s == u.scheme + "://" + t;
    SchemeReads(u.scheme, u.secure, t);
    assert BehindScheme(s, u.scheme) == t;
  }

  // ----- the round trip -----

  lemma BehindHostBegins(u: Uri)
    requires WellFormed(u)
    ensures var t := PortText(u) + u.resource; t != "" && (t[0] == ':' || t[0] == '/')
  {
    hide Decimal;
  }

  lemma PlainReads(u: Uri)
    requires WellFormed(u) && IsPlain(u.host)
    ensures ParseHost(u.scheme, u.secure, u.host + PortText(u) + u.resource) == Some(u)
  {
    hide PortText, ParseBehindHost, Front;
    var behind := PortText(u) + u.resource;
    var t := u.host + PortText(u) + u.resource;
    assert t == u.host + behind;
    BehindHostBegins(u);
    FrontIs(t, InHost, |u.host|);
    ReadsBehindHost(u);
    assert t[..|u.host|] == u.host && t[|u.host|..] == behind;
  }

  /** A text that equals its own beginning after one character is dropped repeats that character. */
  lemma {:induction false} AllTheSame(host: string, behind: string, k: nat)
    requires k < |host| && behind != "" && host <= host[1..] + behind
    ensures host[k] == behind[0]
    decreases |host| - k
  {
    var t := host[1..] + behind;
    assert host[k] == t[k];
    if k + 1 < |host| {
      AllTheSame(host, behind, k + 1);
    }
  }

  /** A host that looks like a bracketed address is never read back: what is found up to the bracket
      is another host. */
  lemma BracketedHost(u: Uri, behind: string)
    requires IsBracketed(u.host) && behind != "" && (behind[0] == ':' || behind[0] == '/')
    ensures ParseHost(u.scheme, u.secure, u.host + behind) != Some(u)
  {
    hide ParseBehindHost;
    var t := u.host + behind;
    var n := Front(t[1..], InLiteral);
    assert t[1..] == u.host[1..] + behind;
    if n < |t[1..]| && t[1..][..n] == u.host {
      AllTheSame(u.host, behind, 0);
    }
  }

  /** A host with a colon or a slash is read only as far as that. */
  lemma CutHost(u: Uri, behind: string, k: nat)
    requires !IsBracketed(u.host) && k < |u.host| && !InHost(u.host[k])
    ensures ParseHost(u.scheme, u.secure, u.host + behind) != Some(u)
  {
    hide ParseBehindHost;
    var t := u.host + behind;
    assert t[0] == u.host[0] && t[k] == u.host[k];
    assert Front(t, InHost) <= k;
  }

  lemma OtherHost(u: Uri)
    requires WellFormed(u) && !IsPlain(u.host)
    ensures ParseHost(u.scheme, u.secure, u.host + PortText(u) + u.resource) != Some(u)
  {
    hide PortText, ParseHost, InHost;
    var behind := PortText(u) + u.resource;
    assert u.host + PortText(u) + u.resource == u.host + behind;
    BehindHostBegins(u);
    if IsBracketed(u.host) {
      BracketedHost(u, behind);
    } else {
      var k :| 0 <= k < |u.host| && !InHost(u.host[k]);
      CutHost(u, behind, k);
    }
  }

  lemma WellFormedRoundTrip(u: Uri)
    requires WellFormed(u)
    ensures Parse(Text(u)) == Some(u) <==> IsPlain(u.host)
  {
    hide Parse, Text, ParseHost, PortText, IsPlain;
    ReadsScheme(u);
    if IsPlain(u.host) {
      PlainReads(u);
    } else {
      OtherHost(u);
    }
  }

  /** Writing a URI and parsing the text gives the URI back if and only if it is well-formed and its host
      is plain, whichever constructor made it. */
  lemma RoundTrip(u: Uri)
    ensures Parse(Text(u)) == Some(u) <==> WellFormed(u) && IsPlain(u.host)
  {
    hide Parse, Text, WellFormed, IsPlain;
    ParsedIsWellFormed(Text(u));
    if WellFormed(u) {
      WellFormedRoundTrip(u);
    }
  }

  /** A valid text stands for the same URI as the text its URI is written as if and only if the host that
      was read is plain. */
  lemma TextRoundTrip(s: string)
    requires Parse(s).Some?
    ensures Parse(Text(Parse(s).value)) == Parse(s) <==> IsPlain(Parse(s).value.host)
  {
    hide Parse, Text, WellFormed, IsPlain;
    ParsedIsWellFormed(s);
    RoundTrip(Parse(s).value);
  }

  /** Every valid text without a bracketed address survives. */
  lemma WithoutBracketRoundTrip(s: string)
    requires Parse(s).Some? && !IsBracketed(BehindScheme(s, Parse(s).value.scheme))
    ensures Parse(Text(Parse(s).value)) == Parse(s)
  {
    hide ParseBehindHost, Text, SchemeOf, WellFormed;
    TextRoundTrip(s);
  }

  lemma SlashOnly()
    ensures ParseBehindHost("ws", false, "::1", "/") == Some(Uri("ws", false, "::1", 80, "/"))
  {
    hide Front, Atoi;
    assert "/"[1..] == "";
    assert "/" + "" == "/";
  }

  lemma AddressParses()
    ensures ParseHost("ws", false, "[::1]/") == Some(Uri("ws", false, "::1", 80, "/"))
  {
    var t, address := "[::1]/", "::1]/";
    assert t[1..] == address;
    assert address[0] == ':' && address[1] == ':' && address[2] == '1' && address[3] == ']' && address[4] == '/';
    FrontIs(address, InLiteral, 3);
    hide Front, ParseBehindHost;
    assert address[..3] == "::1";
    assert address[4..] == "/";
    SlashOnly();
  }

  /** A URI with an IPv6 address is valid, and is not read back from the text it is written as. */
  lemma AddressIsLost()
    ensures var u := Uri("ws", false, "::1", 80, "/");
            Parse("ws://[::1]/") == Some(u) && Parse(Text(u)) != Some(u)
  {
    hide SchemeOf, ParseHost, Text, WellFormed;
    var s := "ws" + "://" + "[::1]/";
    assert s == "ws://[::1]/";
    SchemeReads("ws", false, "[::1]/");
    assert BehindScheme(s, "ws") == "[::1]/";
    AddressParses();
    RoundTrip(Uri("ws", false, "::1", 80, "/"));
    assert !InHost("::1"[0]);
  }

  // ----- the parsing constructor -----

  /** Where parsing stands behind the host: in a port, or in the resource. */
  datatype State = InHostState | InPortState | InResourceState

  /** What the rest of a text makes of a URI whose host is known. */
  function ParseState(scheme: string, secure: bool, host: string, state: State, rest: string): Option<Uri> {
    match state
    case InHostState => None
    case InPortState => ParsePort(scheme, secure, host, rest)
    case InResourceState => Finish(scheme, secure, host, "", rest)
  }

  /** The state and place that the character behind a host leads to. */
  predicate StandsBehind(text: string, end: nat, state: State, it: nat)
    requires end <= |text|
  {
    match state
    case InHostState => it == end
    case InPortState => end < |text| && it == end + 1 && text[end] == ':'
    case InResourceState => if end == |text| then it == end else it == end + 1 && text[end] == '/'
  }

  lemma StateBehind(scheme: string, secure: bool, host: string, text: string, end: nat, state: State, it: nat)
    requires end <= |text| && StandsBehind(text, end, state, it) && state != InHostState
    ensures it <= |text|
    ensures ParseState(scheme, secure, host, state, text[it..]) == ParseBehindHost(scheme, secure, host, text[end..])
  {
    hide Finish, ParsePort;
    if end < |text| {
      Slices(text, end, 1);
    }
  }

  class ParsedUri {
    var valid: bool
    var secure: bool
    var scheme: string
    var host: string
    var port: nat
    var resource: string

    ghost function Value(): Uri
      reads this
    {
      Uri(scheme, secure, host, port, resource)
    }

    /** Valid exactly for the texts that stand for a URI, and then that URI. */
    constructor (text: string)
      ensures valid <==> Parse(text).Some?
      ensures valid ==> Value() == Parse(text).value
    {
      hide ParseHost, Finish;
      valid, secure, scheme, host, port, resource := false, false, "", "", 0, "";
      new;
      var it := 0;
      if "wss://" <= text {
        secure, scheme, it := true, "wss", 6;
      } else if "ws://" <= text {
        secure, scheme, it := false, "ws", 5;
      } else if "http://" <= text {
        secure, scheme, it := false, "http", 7;
      } else if "https://" <= text {
        secure, scheme, it := true, "https", 8;
      } else {
        return;
      }
      assert text[it..] == BehindScheme(text, scheme);
      var state;
      state, it := ReadHost(text, it);
      if state == InHostState {
        return;
      }
      ReadPortAndResource(text, it, state);
    }

    /** Reads the host, bracketed or not. The result is InHostState where the constructor gives up. */
    method ReadHost(text: string, from: nat) returns (state: State, it: nat)
      requires from <= |text| && host == ""
      modifies `host
      ensures it <= |text|
      ensures ParseHost(scheme, secure, text[from..]) == ParseState(scheme, secure, host, state, text[it..])
    {
      hide Finish, ParsePort, ParseBehindHost;
      if from < |text| && text[from] == '[' {
        state, it := ReadBracketed(text, from + 1);
        assert text[from..][1..] == text[from + 1..];
      } else {
        state, it := ReadUnbracketed(text, from);
      }
    }

    method ReadBracketed(text: string, from: nat) returns (state: State, it: nat)
      requires from <= |text| && host == ""
      modifies `host
      ensures it <= |text|
      ensures var t := text[from..];
              var n := Front(t, InLiteral);
              ParseState(scheme, secure, host, state, text[it..])
              == if n == |t| then None else ParseBehindHost(scheme, secure, t[..n], t[n + 1..])
    {
      hide ParseBehindHost, Front;
      var temp := FindBracket(text, from);
      if temp == |text| {
        return InHostState, temp;
      }
      Slices(text, from, temp - from);
      Slices(text, from, temp + 1 - from);
      host := host + text[from..temp];
      assert host == text[from..temp];
      state, it := BehindBracket(text, temp + 1);
    }

    static method FindBracket(text: string, from: nat) returns (temp: nat)
      requires from <= |text|
      ensures from <= temp <= |text| && Front(text[from..], InLiteral) == temp - from
    {
      temp := from;
      while temp < |text| && text[temp] != ']'
        invariant from <= temp <= |text|
        invariant forall k | 0 <= k < temp - from :: InLiteral(text[from..][k])
      {
        temp := temp + 1;
      }
      FrontIs(text[from..], InLiteral, temp - from);
    }

    method BehindBracket(text: string, from: nat) returns (state: State, it: nat)
      requires from <= |text|
      ensures it <= |text|
      ensures ParseState(scheme, secure, host, state, text[it..]) == ParseBehindHost(scheme, secure, host, text[from..])
    {
      hide Finish, ParsePort;
      it := from;
      if it == |text| {
        return InResourceState, it;
      }
      Slices(text, it, 1);
      if text[it] == '/' {
        return InResourceState, it + 1;
      } else if text[it] == ':' {
        return InPortState, it + 1;
      } else {
        return InHostState, it;
      }
    }

    method ReadUnbracketed(text: string, from: nat) returns (state: State, it: nat)
      requires from <= |text| && host == ""
      modifies `host
      ensures it <= |text| && state != InHostState
      ensures var t := text[from..];
              var n := Front(t, InHost);
              ParseState(scheme, secure, host, state, text[it..]) == ParseBehindHost(scheme, secure, t[..n], t[n..])
    {
      hide ParseState, ParseBehindHost, Front;
      ghost var end := from;
      state, it := InHostState, from;
      while state == InHostState
        invariant from <= end <= it <= |text|
        invariant forall k | 0 <= k < end - from :: InHost(text[from..][k])
        invariant host == text[from..end]
        invariant StandsBehind(text, end, state, it)
        decreases |text| - it, state == InHostState
      {
        if it == |text| {
          state := InResourceState;
          break;
        } else if text[it] == '/' {
          state := InResourceState;
        } else if text[it] == ':' {
          state := InPortState;
        } else {
          host := host + [text[it]];
          end := end + 1;
        }
        it := it + 1;
      }
      FrontIs(text[from..], InHost, end - from);
      Slices(text, from, end - from);
      StateBehind(scheme, secure, host, text, end, state, it);
    }

    method ReadPortAndResource(text: string, from: nat, behindHost: State)
      requires from <= |text| && behindHost != InHostState
      modifies this
      ensures host == old(host) && scheme == old(scheme) && secure == old(secure)
      ensures var u := ParseState(scheme, secure, host, behindHost, text[from..]);
              && (valid <==> u.Some?)
              && (valid ==> Value() == u.value)
    {
      hide Atoi;
      valid := false;
      var it := from;
      var portText := "";
      if behindHost == InPortState {
        portText, it := ReadPort(text, from);
      }
      var p := GetPortFromString(portText);
      if p.None? {
        return;
      }
      port := p.value;
      resource := "/";
      resource := resource + text[it..];
      valid := true;
    }

    /** The text of the port, and the place behind it and the slash that ends it. */
    method ReadPort(text: string, from: nat) returns (portText: string, it: nat)
      requires from <= |text|
      ensures it <= |text|
      ensures var t := text[from..];
              var n := Front(t, InPort);
              portText == t[..n] && text[it..] == if n == |t| then "" else t[n + 1..]
    {
      ghost var t := text[from..];
      portText, it := "", from;
      while it < |text| && text[it] != '/'
        invariant from <= it <= |text| && portText == text[from..it]
        invariant forall k | 0 <= k < it - from :: InPort(t[k])
      {
        portText := portText + [text[it]];
        it := it + 1;
      }
      FrontIs(t, InPort, it - from);
      Slices(text, from, it - from);
      if it < |text| {
        Slices(text, from, it + 1 - from);
        it := it + 1;
      }
    }

    method GetPortFromString(text: string) returns (p: Option<nat>)
      ensures p == PortOf(text, secure)
    {
      hide Atoi;
      if text == "" {
        return Some(if secure then DEFAULT_SECURE_PORT else DEFAULT_PORT);
      }
      var t := Atoi(text) % 0x1_0000_0000;
      if t > 65535 {
        return None;
      }
      if t == 0 {
        return None;
      }
      return Some(t);
    }

    method Str() returns (s: string)
      ensures s == Text(Value())
    {
      hide Decimal;
      s := scheme + "://" + host;
      if port != (if secure then DEFAULT_SECURE_PORT else DEFAULT_PORT) {
        s := s + ":" + Decimal(port);
      }
      s := s + resource;
    }
  }

  /** Parsing a text, writing the URI and parsing again gives the same URI exactly when the host is
      plain. */
  method ParseTwice(text: string) returns (first: ParsedUri, second: ParsedUri)
    ensures first.valid <==> Parse(text).Some?
    ensures first.valid ==> first.Value() == Parse(text).value
    ensures first.valid ==> (second.valid && second.Value() == first.Value() <==> IsPlain(first.host))
  {
    hide Parse, Text, IsPlain;
    first := new ParsedUri(text);
    var s := first.Str();
    second := new ParsedUri(s);
    if first.valid {
      TextRoundTrip(text);
    }
  }
}
