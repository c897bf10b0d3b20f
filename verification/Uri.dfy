/** Parsing and printing in websocketpp/uri.hpp: the URIs of section 3 of RFC 6455. */
module Uri {

  // ---- Numbers as text ----

  predicate IsDigit(c: char) { '0' <= c <= '9' }

  function DigitChar(d: nat): (c: char)
    requires d < 10
    ensures IsDigit(c)
  {
    ('0' as int + d) as char
  }

  /** A number as operator<< prints it. */
  function Decimal(n: nat): (s: string)
    ensures s != [] && forall i :: 0 <= i < |s| ==> IsDigit(s[i])
  {
    if n < 10 then [DigitChar(n)] else Decimal(n / 10) + [DigitChar(n % 10)]
  }

  function DigitCount(s: string): (n: nat)
    ensures n <= |s| && forall i :: 0 <= i < n ==> IsDigit(s[i])
  {
    if s == [] || !IsDigit(s[0]) then 0 else 1 + DigitCount(s[1..])
  }

  function DigitValue(c: char): nat
    requires IsDigit(c)
  {
    c as int - '0' as int
  }

  function Number(s: string): nat
    requires forall i :: 0 <= i < |s| ==> IsDigit(s[i])
  {
    if s == [] then 0 else 10 * Number(s[..|s| - 1]) + DigitValue(s[|s| - 1])
  }

  function SkipSpace(s: string): string {
    if s != [] && (s[0] == ' ' || 9 <= s[0] as int <= 13) then SkipSpace(s[1..]) else s
  }

  /** What a number is to a 32-bit int; beyond its range atoi promises nothing, and wild is what it returns. */
  function ToInt(n: int, wild: int): int {
    if -0x8000_0000 <= n < 0x8000_0000 then n else wild
  }

  function Atoi(s: string, wild: int): int {
    var t := SkipSpace(s);
    var u := if t != [] && (t[0] == '-' || t[0] == '+') then t[1..] else t;
    var n: int := Number(u[..DigitCount(u)]);
    ToInt(if t != [] && t[0] == '-' then -n else n, wild)
  }

  lemma {:induction false} NumberOfDecimal(n: nat)
    ensures Number(Decimal(n)) == n
  {
    if n >= 10 {
      NumberOfDecimal(n / 10);
      assert Decimal(n)[..|Decimal(n)| - 1] == Decimal(n / 10);
    } else {
      assert [DigitChar(n)][..0] == [];
    }
  }

  lemma {:induction false} DigitCountOfDigits(s: string)
    requires forall i :: 0 <= i < |s| ==> IsDigit(s[i])
    ensures DigitCount(s) == |s|
  {
    if s != [] {
      DigitCountOfDigits(s[1..]);
    }
  }

  /** The last digit printed is the last digit of the number, and there are no leading zeros. */
  lemma DecimalAppend(n: nat, d: nat)
    requires d < 10
    ensures Decimal(d) == [('0' as int + d) as char]
    ensures n > 0 ==> Decimal(10 * n + d) == Decimal(n) + [('0' as int + d) as char]
  {
    assert (10 * n + d) / 10 == n && (10 * n + d) % 10 == d;
  }

  lemma AtoiOfDecimal(n: nat, wild: int)
    requires n < 0x8000_0000
    ensures Atoi(Decimal(n), wild) == n
  {
    var s := Decimal(n);
    assert IsDigit(s[0]);
    DigitCountOfDigits(s);
    assert s[..|s|] == s;
    NumberOfDecimal(n);
  }

  // ---- The value of a URI ----

  datatype Parsed = Invalid | Parsed(scheme: string, secure: bool, host: string, port: nat, resource: string)

  function DefaultPort(secure: bool): nat {
    if secure then 443 else 80
  }

  /** get_port_from_string: None is the error. */
  function PortFromString(port: string, secure: bool, wild: int): (p: int)
    ensures p == -1 || 0 < p <= 65535
  {
    if port == [] then DefaultPort(secure)
    else
      var t := Atoi(port, wild) % 0x1_0000_0000;
      if t > 65535 || t == 0 then -1 else t
  }

  const HOST_END: set<char> := {':', '/'}
  const SLASH: set<char> := {'/'}
  const BRACKET: set<char> := {']'}

  predicate NoneOf(s: string, stop: set<char>) {
    forall i :: 0 <= i < |s| ==> s[i] !in stop
  }

  /** The length of the text before the first character of stop, or all of it. */
  function Until(s: string, stop: set<char>): (n: nat)
    ensures n <= |s| && NoneOf(s[..n], stop) && (n < |s| ==> s[n] in stop)
  {
    if s == [] || s[0] in stop then 0
    else
      var n := Until(s[1..], stop);
      assert s[..1 + n] == [s[0]] + s[1..][..n];
      1 + n
  }

  datatype Authority = NoHost | Authority(host: string, port: string, path: string)

  /** A port and perhaps a path. */
  function WithPort(host: string, s: string): Authority {
    var n := Until(s, SLASH);
    Authority(host, s[..n], if n == |s| then [] else s[n + 1..])
  }

  /** From after a host: nothing, a slash and a path, or a colon and a port. */
  function AfterHost(host: string, s: string): Authority {
    if s == [] then Authority(host, [], [])
    else if s[0] == '/' then Authority(host, [], s[1..])
    else if s[0] == ':' then WithPort(host, s[1..])
    else NoHost
  }

  function ParseAuthority(s: string): Authority {
    if s != [] && s[0] == '[' then
      var t := s[1..];
      var n := Until(t, BRACKET);
      if n == |t| then NoHost else AfterHost(t[..n], t[n + 1..])
    else
      var n := Until(s, HOST_END);
      AfterHost(s[..n], s[n..])
  }

  const SCHEMES: seq<string> := ["wss", "ws", "http", "https"]

  predicate IsSecure(scheme: string) {
    scheme == "wss" || scheme == "https"
  }

  function ParseAfterScheme(scheme: string, s: string, wild: int): Parsed {
    match ParseAuthority(s)
    case NoHost => Invalid
    case Authority(host, port, path) =>
      var p := PortFromString(port, IsSecure(scheme), wild);
      if p == -1 then Invalid else Parsed(scheme, IsSecure(scheme), host, p, "/" + path)
  }

  predicate HasScheme(s: string, scheme: string) {
    |s| > |scheme| + 3 && scheme + "://" <= s
  }

  function Parse(s: string, wild: int): Parsed {
    if HasScheme(s, "wss") then ParseAfterScheme("wss", s[6..], wild)
    else if HasScheme(s, "ws") then ParseAfterScheme("ws", s[5..], wild)
    else if HasScheme(s, "http") then ParseAfterScheme("http", s[7..], wild)
    else if HasScheme(s, "https") then ParseAfterScheme("https", s[8..], wild)
    else Invalid
  }

  /** What a valid URI has. */
  predicate WellFormed(u: Parsed) {
    && u.Parsed?
    && u.scheme in SCHEMES
    && u.secure == IsSecure(u.scheme)
    && 0 < u.port <= 65535
    && u.resource != [] && u.resource[0] == '/'
  }

  lemma ParsedIsWellFormed(s: string, wild: int)
    ensures Parse(s, wild).Parsed? ==> WellFormed(Parse(s, wild)) && Parse(s, wild).scheme + "://" <= s
  {
    SchemeList();
  }

  lemma SchemeList()
    ensures forall scheme ::
      scheme in SCHEMES <==> scheme == "wss" || scheme == "ws" || scheme == "http" || scheme == "https"
  {
    assert SCHEMES[0] == "wss" && SCHEMES[1] == "ws" && SCHEMES[2] == "http" && SCHEMES[3] == "https";
  }

  /** What str prints after the host. */
  function Tail(u: Parsed): string
    requires u.Parsed?
  {
    (if u.port != DefaultPort(u.secure) then ":" + Decimal(u.port) else "") + u.resource
  }

  /** str. */
  function Str(u: Parsed): string
    requires u.Parsed?
  {
    u.scheme + "://" + u.host + Tail(u)
  }

  // ---- Print and parse ----

  predicate PlainHost(host: string) {
    NoneOf(host, HOST_END) && (host != [] ==> host[0] != '[')
  }

  /** Ports 80 and 443 are left out of the schemes they belong to, and of those only. */
  lemma DefaultPortsLeftOut(u: Parsed)
    requires WellFormed(u)
    ensures var plain := u.scheme == "ws" || u.scheme == "http";
      Str(u) == u.scheme + "://" + u.host +
        ((if (plain && u.port == 80) || (!plain && u.port == 443) then "" else ":" + Decimal(u.port)) + u.resource)
  {
    SchemeList();
  }

  lemma {:induction false} UntilThen(a: string, b: string, stop: set<char>)
    requires NoneOf(a, stop)
    requires b == [] || b[0] in stop
    ensures Until(a + b, stop) == |a|
  {
    if a == [] {
      assert a + b == b;
    } else {
      assert (a + b)[1..] == a[1..] + b;
      UntilThen(a[1..], b, stop);
    }
  }

  lemma TailAuthority(u: Parsed)
    requires WellFormed(u)
    ensures AfterHost(u.host, Tail(u)) ==
      Authority(u.host, if u.port != DefaultPort(u.secure) then Decimal(u.port) else [], u.resource[1..])
    ensures Tail(u) != [] && Tail(u)[0] in HOST_END
  {
    if u.port != DefaultPort(u.secure) {
      var port := Decimal(u.port);
      assert Tail(u)[1..] == port + u.resource;
      UntilThen(port, u.resource, SLASH);
      assert (port + u.resource)[..|port|] == port;
      assert (port + u.resource)[|port| + 1..] == u.resource[1..];
    } else {
      assert Tail(u) == u.resource;
    }
  }

  lemma PortRoundTrip(u: Parsed, wild: int)
    requires WellFormed(u)
    ensures PortFromString(if u.port != DefaultPort(u.secure) then Decimal(u.port) else [], u.secure, wild) == u.port
  {
    AtoiOfDecimal(u.port, wild);
  }

  /** A host that keeps a bracket, a colon or a slash is not read back. */
  lemma OtherHostsDiffer(u: Parsed)
    requires WellFormed(u) && !PlainHost(u.host)
    ensures var a := ParseAuthority(u.host + Tail(u)); a.Authority? ==> a.host != u.host
  {
    TailAuthority(u);
    hide AfterHost, Tail, NoneOf;
    var host, tail := u.host, Tail(u);
    if host != [] && host[0] == '[' {
      BracketedHost(host, tail);
    } else {
      NamedHost(host, tail);
    }
  }

  lemma HostKept(host: string, s: string)
    ensures AfterHost(host, s).Authority? ==> AfterHost(host, s).host == host
  {
  }

  lemma BracketedHost(host: string, tail: string)
    requires host != [] && host[0] == '[' && tail != [] && tail[0] in HOST_END
    ensures var a := ParseAuthority(host + tail); a.Authority? ==> a.host != host
  {
    hide AfterHost;
    var t := (host + tail)[1..];
    var n := Until(t, BRACKET);
    if n < |t| {
      HostKept(t[..n], t[n + 1..]);
      if t[..n] == host {
        AllBrackets(host, tail);
      }
    }
  }

  lemma NamedHost(host: string, tail: string)
    requires !NoneOf(host, HOST_END) && host[0] != '['
    ensures var a := ParseAuthority(host + tail); a.Authority? ==> a.host != host
  {
    hide AfterHost;
    var s := host + tail;
    assert s[0] == host[0];
    var n := Until(s, HOST_END);
    HostKept(s[..n], s[n..]);
  }

  lemma AllBrackets(host: string, tail: string)
    requires host != [] && host[0] == '[' && tail != [] && tail[0] != '['
    ensures (host + tail)[1..][..|host|] != host
  {
    var s := host + tail;
    if s[1..][..|host|] == host {
      var i := 0;
      while i < |host|
        invariant 0 <= i <= |host| && s[i] == '['
      {
        assert s[1..][..|host|][i] == s[i + 1] == host[i];
        i := i + 1;
      }
    }
  }

  lemma SchemeSplits(u: Parsed, wild: int)
    requires WellFormed(u)
    ensures Parse(Str(u), wild) == ParseAfterScheme(u.scheme, u.host + Tail(u), wild)
  {
    TailAuthority(u);
    assert Str(u) == u.scheme + "://" + (u.host + Tail(u));
    SchemeRecognised(u.scheme, u.host + Tail(u), wild);
  }

  lemma SchemeRecognised(scheme: string, rest: string, wild: int)
    requires scheme in SCHEMES && rest != []
    ensures Parse(scheme + "://" + rest, wild) == ParseAfterScheme(scheme, rest, wild)
  {
    SchemeList();
    var s := scheme + "://" + rest;
    var n := |scheme| + 3;
    assert s[n..] == rest;
    assert s[..n] == scheme + "://";
    hide ParseAfterScheme;
    if scheme == "wss" {
      assert HasScheme(s, "wss");
    } else if scheme == "ws" {
      assert s[2] == ':';
      assert !HasScheme(s, "wss") && HasScheme(s, "ws");
    } else if scheme == "http" {
      assert s[0] == 'h' && HasScheme(s, "http");
      NotWs(s);
    } else {
      assert s[0] == 'h' && s[4] == 's' && HasScheme(s, "https");
      NotWs(s);
      assert ("http" + "://")[4] == ':';
    }
  }

  lemma NotWs(s: string)
    requires s != [] && s[0] == 'h'
    ensures !HasScheme(s, "wss") && !HasScheme(s, "ws")
  {
    assert ("wss" + "://")[0] == 'w' && ("ws" + "://")[0] == 'w';
  }

  /**
   Printing a well-formed URI and parsing it gives back the scheme, the secure flag, the host,
   the port, with its default left out or not, and the resource exactly when the host has no
   colon or slash and no bracket in front, which str does not put back.
   */
  lemma PrintThenParseExactly(u: Parsed, wild: int)
    requires WellFormed(u)
    ensures Parse(Str(u), wild) == u <==> PlainHost(u.host)
  {
    hide Parse, ParseAuthority, Tail, PortFromString, AfterHost, PlainHost;
    SchemeSplits(u, wild);
    TailAuthority(u);
    if PlainHost(u.host) {
      HostEnds(u.host, Tail(u));
      PortRoundTrip(u, wild);
      assert "/" + u.resource[1..] == u.resource;
    } else {
      OtherHostsDiffer(u);
    }
  }

  /**
   For every valid string: parsing, printing and parsing again gives the same URI exactly when its
   host is such a one.
   */
  lemma ParsePrintParseExactly(s: string, wild: int)
    requires Parse(s, wild).Parsed?
    ensures Parse(Str(Parse(s, wild)), wild) == Parse(s, wild) <==> PlainHost(Parse(s, wild).host)
  {
    ParsedIsWellFormed(s, wild);
    hide Parse, PlainHost;
    PrintThenParseExactly(Parse(s, wild), wild);
  }

  /**
   Every bracketed host with a colon in it, so every IPv6 address, is read without its brackets and
   then lost in print.
   */
  lemma BracketedHostIsLost(scheme: string, host: string, path: string, wild: int)
    requires scheme in SCHEMES && NoneOf(host, BRACKET) && ':' in host
    ensures var s := scheme + "://" + ("[" + (host + ("]/" + path)));
      && Parse(s, wild) == Parsed(scheme, IsSecure(scheme), host, DefaultPort(IsSecure(scheme)), "/" + path)
      && Parse(Str(Parse(s, wild)), wild) != Parse(s, wild)
  {
    var rest := "[" + (host + ("]/" + path));
    SchemeRecognised(scheme, rest, wild);
    BracketsRead(host, path);
    var i :| 0 <= i < |host| && host[i] == ':';
    assert host[i] in HOST_END;
    assert !PlainHost(host);
    hide Parse, ParseAuthority;
    ParsePrintParseExactly(scheme + "://" + rest, wild);
  }

  /** A bracket has to be closed, and what follows it has to be nothing, a path or a port. */
  lemma BracketsRefused(scheme: string, host: string, rest: string, wild: int)
    requires scheme in SCHEMES && NoneOf(host, BRACKET)
    requires rest == [] || (rest[0] == ']' && |rest| > 1 && rest[1] != '/' && rest[1] != ':')
    ensures Parse(scheme + "://" + ("[" + (host + rest)), wild) == Invalid
  {
    var t := host + rest;
    SchemeRecognised(scheme, "[" + t, wild);
    assert ("[" + t)[1..] == t;
    UntilThen(host, rest, BRACKET);
    if rest != [] {
      assert t[|host| + 1..] == rest[1..];
    }
    hide Parse;
  }

  lemma BracketsRead(host: string, path: string)
    requires NoneOf(host, BRACKET)
    ensures ParseAuthority("[" + (host + ("]/" + path))) == Authority(host, [], path)
  {
    var t := host + ("]/" + path);
    assert ("[" + t)[1..] == t;
    UntilThen(host, "]/" + path, BRACKET);
    assert t[..|host|] == host && t[|host| + 1..] == "/" + path;
    assert ("/" + path)[1..] == path;
  }

  /** The loopback address, for one. */
  lemma LoopbackIsLost(wild: int)
    ensures Parse("ws://[::1]/", wild) == Parsed("ws", false, "::1", 80, "/")
    ensures Parse(Str(Parsed("ws", false, "::1", 80, "/")), wild) != Parsed("ws", false, "::1", 80, "/")
  {
    hide Parse, Str;
    LoopbackText();
    BracketedHostIsLost("ws", "::1", "", wild);
  }

  lemma LoopbackText()
    ensures "ws" in SCHEMES && NoneOf("::1", BRACKET) && ':' in "::1"
    ensures "ws" + "://" + ("[" + ("::1" + ("]/" + ""))) == "ws://[::1]/"
    ensures "/" + "" == "/" && IsSecure("ws") == false && DefaultPort(IsSecure("ws")) == 80
  {
    SchemeList();
    assert "::1"[0] == ':';
  }

  /** A string that is valid and has no bracketed host always survives. */
  lemma UnbracketedRoundTrip(s: string, wild: int)
    requires Parse(s, wild).Parsed?
    requires forall scheme :: scheme in SCHEMES && HasScheme(s, scheme) ==> s[|scheme| + 3] != '['
    ensures Parse(Str(Parse(s, wild)), wild) == Parse(s, wild)
  {
    ParsedIsWellFormed(s, wild);
    var u := Parse(s, wild);
    UnbracketedIsPlain(s, wild);
    hide Parse, PlainHost;
    PrintThenParseExactly(u, wild);
  }

  lemma UnbracketedIsPlain(s: string, wild: int)
    requires Parse(s, wild).Parsed?
    requires forall scheme :: scheme in SCHEMES && HasScheme(s, scheme) ==> s[|scheme| + 3] != '['
    ensures PlainHost(Parse(s, wild).host)
  {
    hide Parse, ParseAuthority, PlainHost, PortFromString, HasScheme, SCHEMES;
    var u := Parse(s, wild);
    SchemeRead(s, wild);
    UnbracketedHost(s[|u.scheme| + 3..]);
  }

  lemma SchemeRead(s: string, wild: int)
    requires Parse(s, wild).Parsed?
    ensures var scheme := Parse(s, wild).scheme;
      && scheme in SCHEMES && HasScheme(s, scheme) && |s| > |scheme| + 3
      && Parse(s, wild) == ParseAfterScheme(scheme, s[|scheme| + 3..], wild)
  {
    hide ParseAuthority, PortFromString;
    SchemeList();
  }

  lemma UnbracketedHost(s: string)
    requires s == [] || s[0] != '['
    ensures ParseAuthority(s).Authority? ==> PlainHost(ParseAuthority(s).host)
  {
    hide AfterHost;
    var n := Until(s, HOST_END);
    HostKept(s[..n], s[n..]);
    assert n > 0 ==> s[..n][0] == s[0];
  }

  // ---- The grammar ----

  datatype Port = Unwritten | Written(port: nat)

  function PortText(port: Port): string {
    if port.Unwritten? then "" else ":" + Decimal(port.port)
  }

  /** Section 3 of RFC 6455: scheme, host, perhaps a port, and a path that is empty or begins with a slash. */
  function UriText(scheme: string, host: string, port: Port, path: string): string {
    scheme + "://" + (host + (PortText(port) + path))
  }

  /**
   Everything the grammar can write is read as what it says: the port written, or 80 or 443 as
   the scheme is plain or secure, and "/" for an empty path; and a written port is refused exactly
   when it is zero or above 65535.
   */
  lemma GrammarParses(scheme: string, host: string, port: Port, path: string, wild: int)
    requires scheme in SCHEMES && PlainHost(host) && (path == [] || path[0] == '/')
    requires |UriText(scheme, host, port, path)| > |scheme| + 3
    requires port.Written? ==> port.port < 0x8000_0000
    ensures Parse(UriText(scheme, host, port, path), wild) ==
      if port.Written? && !(0 < port.port <= 65535) then Invalid
      else Parsed(scheme, scheme == "wss" || scheme == "https", host,
                  if port.Written? then port.port else if scheme == "wss" || scheme == "https" then 443 else 80,
                  if path == [] then "/" else path)
  {
    hide Parse, ParseAuthority, PlainHost, Atoi, Decimal;
    SchemeRecognised(scheme, host + (PortText(port) + path), wild);
    TailParses(host, port, path);
    hide PortText;
    if port.Written? {
      AtoiOfDecimal(port.port, wild);
    }
    assert path != [] ==> "/" + path[1..] == path;
  }

  lemma TailParses(host: string, port: Port, path: string)
    requires PlainHost(host) && (path == [] || path[0] == '/')
    ensures ParseAuthority(host + (PortText(port) + path)) ==
      Authority(host, if port.Written? then Decimal(port.port) else [], if path == [] then [] else path[1..])
  {
    hide ParseAuthority, PlainHost, AfterHost, PortText;
    match port
    case Unwritten =>
      PathOnly(port, path);
      HostEnds(host, path);
      PathEnds(host, path);
    case Written(n) =>
      var digits := Decimal(n);
      PortThenPath(port, path);
      HostEnds(host, ":" + (digits + path));
      PortEnds(host, digits, path);
  }

  lemma PathOnly(port: Port, path: string)
    requires port.Unwritten?
    ensures PortText(port) + path == path
  {
  }

  lemma PortThenPath(port: Port, path: string)
    requires port.Written?
    ensures PortText(port) + path == ":" + (Decimal(port.port) + path)
  {
    hide Decimal;
  }

  lemma PathEnds(host: string, path: string)
    requires path == [] || path[0] == '/'
    ensures AfterHost(host, path) == Authority(host, [], if path == [] then [] else path[1..])
  {
  }

  lemma PortEnds(host: string, digits: string, path: string)
    requires (forall i :: 0 <= i < |digits| ==> IsDigit(digits[i])) && (path == [] || path[0] == '/')
    ensures AfterHost(host, ":" + (digits + path)) == Authority(host, digits, if path == [] then [] else path[1..])
  {
    var s := digits + path;
    assert (":" + s)[1..] == s;
    UntilThen(digits, path, SLASH);
    assert s[..|digits|] == digits;
    assert path != [] ==> s[|digits| + 1..] == path[1..];
  }

  lemma HostEnds(host: string, tail: string)
    requires PlainHost(host) && (tail == [] || tail[0] in HOST_END)
    ensures ParseAuthority(host + tail) == AfterHost(host, tail)
  {
    var s := host + tail;
    UntilThen(host, tail, HOST_END);
    assert s[..|host|] == host && s[|host|..] == tail;
    assert s != [] ==> s[0] == if host == [] then tail[0] else host[0];
  }

  // ---- The class ----

  lemma UntilStops(s: string, n: nat, stop: set<char>)
    requires n <= |s| && NoneOf(s[..n], stop) && (n < |s| ==> s[n] in stop)
    ensures Until(s, stop) == n
  {
    UntilThen(s[..n], s[n..], stop);
    assert s[..n] + s[n..] == s;
  }

  /** A host was read, and then in state 1 a port or in state 2 none. */
  function Reached(host: string, state: nat, s: string): Authority {
    if state == 1 then WithPort(host, s) else Authority(host, [], s)
  }

  lemma NothingBefore()
    ensures NoneOf("", HOST_END)
  {
  }

  lemma OneMore(s: string, from: nat, it: nat, stop: set<char>)
    requires from <= it < |s| && NoneOf(s[from..it], stop) && s[it] !in stop
    ensures s[from..it + 1] == s[from..it] + [s[it]] && NoneOf(s[from..it + 1], stop)
  {
  }

  lemma ReachedEnd(host: string, s: string)
    ensures Reached(host, 2, s[|s|..]) == Authority(host, [], [])
  {
  }

  lemma BracketAuthority(s: string, from: nat, temp: nat)
    requires from < |s| && s[from] == '[' && from < temp <= |s|
    requires NoneOf(s[from + 1..temp], BRACKET) && (temp < |s| ==> s[temp] in BRACKET)
    ensures ParseAuthority(s[from..]) ==
      if temp == |s| then NoHost else AfterHost(s[from + 1..temp], s[temp + 1..])
  {
    hide AfterHost;
    var t := s[from + 1..];
    assert s[from..][1..] == t;
    assert t[..temp - from - 1] == s[from + 1..temp];
    UntilStops(t, temp - from - 1, BRACKET);
    if temp < |s| {
      assert t[temp - from..] == s[temp + 1..];
    }
  }

  lemma PortAt(name: string, s: string, from: nat, it: nat)
    requires from <= it <= |s| && NoneOf(s[from..it], SLASH) && (it < |s| ==> s[it] in SLASH)
    ensures WithPort(name, s[from..]) == Authority(name, s[from..it], if it == |s| then [] else s[it + 1..])
  {
    var t := s[from..];
    assert t[..it - from] == s[from..it];
    UntilStops(t, it - from, SLASH);
    if it < |s| {
      assert t[it - from + 1..] == s[it + 1..];
    }
  }

  lemma NamedAuthority(s: string, from: nat, it: nat)
    requires from <= it <= |s| && from < |s| && s[from] != '['
    requires NoneOf(s[from..it], HOST_END) && (it < |s| ==> s[it] in HOST_END)
    ensures ParseAuthority(s[from..]) ==
      if it == |s| then Authority(s[from..it], [], [])
      else Reached(s[from..it], if s[it] == ':' then 1 else 2, s[it + 1..])
  {
    var t := s[from..];
    assert t[..it - from] == s[from..it] && t[it - from..] == s[it..];
    UntilStops(t, it - from, HOST_END);
    if it < |s| {
      assert s[it..][1..] == s[it + 1..];
    }
  }

  lemma SchemeAt(s: string, scheme: string)
    ensures HasScheme(s, scheme) <==> |s| >= |scheme| + 4 && s[..|scheme| + 3] == scheme + "://"
  {
  }

  class Uri {
    var scheme: string
    var host: string
    var resource: string
    var port: nat
    var secure: bool
    var valid: bool

    ghost function Value(): Parsed
      reads this
    {
      if valid then Parsed(scheme, secure, host, port, resource) else Invalid
    }

    /** The parsing constructor; wild is what atoi makes of a number no int can hold. */
    constructor (s: string, wild: int)
      ensures Value() == Parse(s, wild)
    {
      hide ParseAfterScheme, HasScheme;
      scheme, host, resource, port, secure, valid := "", "", "", 0, false, false;
      new;
      SchemeAt(s, "wss");
      SchemeAt(s, "ws");
      SchemeAt(s, "http");
      SchemeAt(s, "https");
      if |s| >= 7 && s[..6] == "wss://" {
        ParseRest("wss", true, s, 6, wild);
      } else if |s| >= 6 && s[..5] == "ws://" {
        ParseRest("ws", false, s, 5, wild);
      } else if |s| >= 8 && s[..7] == "http://" {
        ParseRest("http", false, s, 7, wild);
      } else if |s| >= 9 && s[..8] == "https://" {
        ParseRest("https", true, s, 8, wild);
      }
    }

    /** Everything after the scheme. */
    method ParseRest(name: string, isSecure: bool, s: string, from: nat, wild: int)
      requires from < |s| && isSecure == IsSecure(name) && !valid && host == ""
      modifies this
      ensures Value() == ParseAfterScheme(name, s[from..], wild)
    {
      hide ParseAuthority, WithPort, PortFromString;
      scheme, secure := name, isSecure;
      var ok, it, state := ParseHost(s, from);
      if !ok {
        return;
      }
      var portText;
      portText, it := ParsePort(s, it, state, host);
      var p := PortFromString(portText, secure, wild);
      if p == -1 {
        return;
      }
      port := p;
      resource := "/";
      resource := resource + s[it..];
      valid := true;
    }

    /** The host, and the state the parser is in after it: 1 where a port follows, 2 where none does. */
    method ParseHost(s: string, from: nat) returns (ok: bool, it: nat, state: nat)
      requires from < |s| && host == ""
      modifies this`host
      ensures from <= it <= |s| && (ok ==> state == 1 || state == 2)
      ensures ParseAuthority(s[from..]) == if ok then Reached(host, state, s[it..]) else NoHost
    {
      hide ParseAuthority, AfterHost;
      if s[from] == '[' {
        ok, it, state := ParseBracketed(s, from);
      } else {
        it, state := ParseNamed(s, from);
        ok := true;
      }
    }

    method ParseBracketed(s: string, from: nat) returns (ok: bool, it: nat, state: nat)
      requires from < |s| && host == "" && s[from] == '['
      modifies this`host
      ensures from <= it <= |s| && (ok ==> state == 1 || state == 2)
      ensures ParseAuthority(s[from..]) == if ok then Reached(host, state, s[it..]) else NoHost
    {
      hide WithPort, ParseAuthority;
      it, state := from + 1, 0;
      var temp := it;
      while temp != |s| && s[temp] != ']'
        invariant it <= temp <= |s| && NoneOf(s[it..temp], BRACKET)
      {
        assert s[it..temp + 1] == s[it..temp] + [s[temp]];
        temp := temp + 1;
      }
      BracketAuthority(s, from, temp);
      if temp == |s| {
        return false, it, state;
      }
      host := host + s[it..temp];
      assert host == s[from + 1..temp];
      it := temp + 1;
      if it == |s| {
        assert s[it..] == [];
        return true, it, 2;
      }
      assert s[it..][1..] == s[it + 1..];
      if s[it] == '/' {
        return true, it + 1, 2;
      } else if s[it] == ':' {
        return true, it + 1, 1;
      }
      return false, it, state;
    }

    method ParseNamed(s: string, from: nat) returns (it: nat, state: nat)
      requires from < |s| && host == "" && s[from] != '['
      modifies this`host
      ensures from <= it <= |s| && (state == 1 || state == 2)
      ensures ParseAuthority(s[from..]) == Reached(host, state, s[it..])
    {
      hide ParseAuthority, Reached, NoneOf;
      NothingBefore();
      it, state := from, 0;
      while state == 0
        invariant from <= it <= |s| && state <= 2
        invariant state == 0 ==> host == s[from..it] && NoneOf(host, HOST_END)
        invariant state != 0 ==> ParseAuthority(s[from..]) == Reached(host, state, s[it..])
        decreases |s| - it, if state == 0 then 1 else 0
      {
        if it == |s| {
          NamedAuthority(s, from, it);
          ReachedEnd(host, s);
          state := 2;
          break;
        } else if s[it] == '/' {
          NamedAuthority(s, from, it);
          state := 2;
        } else if s[it] == ':' {
          NamedAuthority(s, from, it);
          state := 1;
        } else {
          OneMore(s, from, it, HOST_END);
          host := host + [s[it]];
        }
        it := it + 1;
      }
    }

    /** The port, and where the path begins. */
    method ParsePort(s: string, from: nat, start: nat, ghost name: string) returns (portText: string, it: nat)
      requires from <= |s|
      ensures from <= it <= |s|
      ensures start != 1 ==> portText == [] && it == from
      ensures start == 1 ==> WithPort(name, s[from..]) == Authority(name, portText, s[it..])
    {
      hide WithPort;
      portText, it := "", from;
      var state := start;
      while state == 1
        invariant from <= it <= |s|
        invariant start != 1 ==> state == start && it == from && portText == []
        invariant start == 1 && state == 1 ==> portText == s[from..it] && NoneOf(portText, SLASH)
        invariant start == 1 && state != 1 ==> WithPort(name, s[from..]) == Authority(name, portText, s[it..])
        decreases |s| - it
      {
        if it == |s| {
          PortAt(name, s, from, it);
          break;
        } else if s[it] == '/' {
          PortAt(name, s, from, it);
          state := 3;
        } else {
          assert s[from..it + 1] == s[from..it] + [s[it]];
          portText := portText + [s[it]];
        }
        it := it + 1;
      }
    }
  }
}
