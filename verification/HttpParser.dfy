/**
 The cursor parsers of websocketpp/http/parser.hpp for tokens, quoted strings, linear white space
 and parameter lists: sections 2.2 and 3.6 of RFC 2616. A character is one octet.
 */
module HttpParser {
  import opened Bytes

  // ---- Characters ----

  /** The rows of header_token that are not all zero. */
  const ROW_20: seq<nat> := [0,1,0,1,1,1,1,1,0,0,1,1,0,1,1,0]
  const ROW_30: seq<nat> := [1,1,1,1,1,1,1,1,1,1,0,0,0,0,0,0]
  const ROW_40: seq<nat> := [0,1,1,1,1,1,1,1,1,1,1,1,1,1,1,1]
  const ROW_50: seq<nat> := [1,1,1,1,1,1,1,1,1,1,1,0,0,0,1,1]
  const ROW_60: seq<nat> := [1,1,1,1,1,1,1,1,1,1,1,1,1,1,1,1]
  const ROW_70: seq<nat> := [1,1,1,1,1,1,1,1,1,1,1,0,1,0,1,0]

  predicate IsTokenChar(c: char) {
    var n := c as int;
    if n < 0x20 then false else if n < 0x30 then ROW_20[n - 0x20] == 1 else if n < 0x40 then ROW_30[n - 0x30] == 1
    else if n < 0x50 then ROW_40[n - 0x40] == 1 else if n < 0x60 then ROW_50[n - 0x50] == 1
    else if n < 0x70 then ROW_60[n - 0x60] == 1 else if n < 0x80 then ROW_70[n - 0x70] == 1 else false
  }

  const SEPARATORS: set<char> := {
    '(', ')', '<', '>', '@', ',', ';', ':', '\\', '"', '/', '[', ']', '?', '=', '{', '}', ' ', '\t'
  }

  /** The table is exactly section 2.2: any US-ASCII character that is no control and no separator. */
  lemma TokenCharExactly(c: char)
    ensures IsTokenChar(c) <==> 32 <= c as int < 127 && c !in SEPARATORS
  {
  }

  predicate IsWhitespace(c: char) { c as int == 9 || c as int == 32 }

  // ---- What the extractors return: the value read and the rest of the range ----

  function TokenLength(s: string): (n: nat)
    ensures n <= |s| && (forall i :: 0 <= i < n ==> IsTokenChar(s[i])) && (n < |s| ==> !IsTokenChar(s[n]))
  {
    if s == [] || !IsTokenChar(s[0]) then 0 else 1 + TokenLength(s[1..])
  }

  function Token(s: string): (r: (string, string))
    ensures |r.0| + |r.1| == |s|
  {
    (s[..TokenLength(s)], s[TokenLength(s)..])
  }

  function SkipWhitespace(s: string): (r: string)
    ensures |r| <= |s|
  {
    if s == [] || !IsWhitespace(s[0]) then s else SkipWhitespace(s[1..])
  }

  function AfterFold(s: string): (r: string)
    ensures |r| <= |s|
  {
    if |s| > 2 && s[0] == '\r' && s[1] == '\n' && IsWhitespace(s[2]) then s[3..] else s
  }

  function Lws(s: string): (r: string)
    ensures |r| <= |s|
  {
    SkipWhitespace(AfterFold(s))
  }

  function AllLws(s: string): (r: string)
    ensures |r| <= |s|
    decreases |s|
  {
    var t := Lws(s);
    if t == [] || |t| == |s| then t else AllLws(t)
  }

  datatype Quote = NotQuoted | Quote(value: string, rest: string)

  /** The text of a quoted string after its opening quote: a quote ends it unless a backslash is just before. */
  function Unquote(s: string): (q: Quote)
    ensures q.Quote? ==> |q.rest| < |s|
  {
    if s == [] then NotQuoted
    else if s[0] == '"' then Quote([], s[1..])
    else if s[0] == '\\' && |s| > 1 && s[1] == '"' then Prepend('"', Unquote(s[2..]))
    else Prepend(s[0], Unquote(s[1..]))
  }

  function Prepend(c: char, q: Quote): Quote {
    if q.NotQuoted? then q else Quote([c] + q.value, q.rest)
  }

  function QuotedString(s: string): (q: Quote)
    ensures q.Quote? ==> |q.rest| < |s|
  {
    if s == [] || s[0] != '"' then NotQuoted else Unquote(s[1..])
  }

  /** One pass of the loop of extract_attributes. */
  datatype Pass = Stop(rest: string) | Error | Attribute(name: string, value: string, rest: string)

  function AttributeValue(name: string, s: string): (p: Pass)
    ensures p.Attribute? ==> |p.rest| <= |s|
  {
    var d := AllLws(s);
    if d == [] || d[0] != '=' then Attribute(name, "", d)
    else
      var e := AllLws(d[1..]);
      if e == [] then Error
      else
        var q := QuotedString(e);
        if q.Quote? then Attribute(name, q.value, q.rest)
        else if Token(e).0 == [] then Error
        else Attribute(name, Token(e).0, Token(e).1)
  }

  function AttributePass(s: string, first: bool): (p: Pass)
    ensures p.Attribute? ==> |p.rest| < |s|
    ensures p.Stop? ==> |p.rest| <= |s| && (first && s != [] ==> |p.rest| < |s|)
  {
    var a := AllLws(s);
    if a == [] then Stop(a)
    else if !first && a[0] != ';' then Stop(a)
    else
      var b := AllLws(if first then a else a[1..]);
      if Token(b).0 == [] then Error else AttributeValue(Token(b).0, Token(b).1)
  }

  /** A list, and where reading it stopped; or what was read of it where the source returns begin. */
  datatype Reading<+T> = Read(value: T, rest: string) | Broken(value: T)

  function Attributes(s: string, first: bool, attributes: map<string, string>): (r: Reading<map<string, string>>)
    ensures r.Read? ==> |r.rest| <= |s| && (first && s != [] ==> |r.rest| < |s|)
    decreases |s|
  {
    if s == [] then Read(attributes, s)
    else
      match AttributePass(s, first)
      case Stop(rest) => Read(attributes, rest)
      case Error => Broken(attributes)
      case Attribute(name, value, rest) => Attributes(rest, false, attributes[name := value])
  }

  type Parameter = (string, map<string, string>)

  /** One pass of the loop of extract_parameters. */
  datatype ParameterPass = NoMore(rest: string) | Malformed | Last(parameter: Parameter, rest: string)
    | Dangling(parameter: Parameter) | Another(parameter: Parameter, rest: string)

  function AfterParameter(parameter: Parameter, s: string): (p: ParameterPass)
    ensures p.Another? ==> |p.rest| < |s|
    ensures p.Last? ==> |p.rest| <= |s|
  {
    var d := AllLws(s);
    if d == [] || d[0] != ',' then Last(parameter, d)
    else if |d| == 1 then Dangling(parameter)
    else Another(parameter, d[1..])
  }

  function ParameterOf(s: string): (p: ParameterPass)
    ensures p.Another? ==> |p.rest| < |s|
    ensures p.Last? || p.NoMore? ==> |p.rest| <= |s|
  {
    var a := AllLws(s);
    if a == [] then NoMore(a)
    else if Token(a).0 == [] then Malformed
    else
      var c := AllLws(Token(a).1);
      if c == [] then Last((Token(a).0, map[]), c)
      else if c[0] == ';' then
        var r := Attributes(c[1..], true, map[]);
        if r.Broken? || |r.rest| == |c[1..]| then Malformed else AfterParameter((Token(a).0, r.value), r.rest)
      else AfterParameter((Token(a).0, map[]), c)
  }

  function Parameters(s: string, parameters: seq<Parameter>): (r: Reading<seq<Parameter>>)
    ensures r.Read? ==> |r.rest| <= |s|
    decreases |s|
  {
    if s == [] then Read(parameters, s)
    else
      match ParameterOf(s)
      case NoMore(rest) => Read(parameters, rest)
      case Malformed => Broken(parameters)
      case Dangling(p) => Broken(parameters + [p])
      case Last(p, rest) => Read(parameters + [p], rest)
      case Another(p, rest) => Parameters(rest, parameters + [p])
  }

  // ---- Quoting ----

  function Escape(v: string): string {
    if v == [] then [] else (if v[0] == '"' then "\\\"" else [v[0]]) + Escape(v[1..])
  }

  predicate EndsInBackslash(v: string) {
    v != [] && v[|v| - 1] == '\\'
  }

  lemma EscapeStep(c: char, v: string, rest: string)
    ensures Escape([c] + v) + rest == (if c == '"' then "\\\"" else [c]) + (Escape(v) + rest)
  {
    assert ([c] + v)[1..] == v;
  }

  lemma EscapedStart(v: string, rest: string)
    ensures v != [] ==> Escape(v) + rest != [] && (Escape(v) + rest)[0] != '"'
  {
  }

  /** Reading one escaped character, unless it is a backslash right before a quote. */
  lemma UnquoteStep(c: char, t: string)
    requires c == '\\' ==> t == [] || t[0] != '"'
    ensures Unquote((if c == '"' then "\\\"" else [c]) + t) == Prepend(c, Unquote(t))
  {
    if c == '"' {
      assert ("\\\"" + t)[2..] == t;
    } else {
      assert ([c] + t)[1..] == t;
    }
  }

  lemma {:induction false} UnquoteEscape(v: string, rest: string)
    requires !EndsInBackslash(v)
    ensures Unquote(Escape(v) + ("\"" + rest)) == Quote(v, rest)
  {
    var tail := "\"" + rest;
    if v == [] {
      assert [] + tail == tail && tail[1..] == rest;
    } else {
      hide Unquote, Escape;
      assert [v[0]] + v[1..] == v;
      EscapeStep(v[0], v[1..], tail);
      UnquoteEscape(v[1..], rest);
      EscapedStart(v[1..], tail);
      UnquoteStep(v[0], Escape(v[1..]) + tail);
    }
  }

  /** With a backslash at the end the closing quote is taken for an escaped one, and reading runs on. */
  lemma {:induction false} UnquoteRunsOn(v: string, rest: string)
    requires EndsInBackslash(v)
    ensures var q := Unquote(Escape(v) + ("\"" + rest)); q.Quote? ==> |q.rest| < |rest|
  {
    var tail := "\"" + rest;
    if |v| == 1 {
      assert v == ['\\'] && Escape(v) == ['\\'];
      assert (['\\'] + tail)[2..] == rest;
    } else {
      hide Unquote, Escape;
      assert [v[0]] + v[1..] == v;
      EscapeStep(v[0], v[1..], tail);
      UnquoteRunsOn(v[1..], rest);
      EscapedStart(v[1..], tail);
      UnquoteStep(v[0], Escape(v[1..]) + tail);
    }
  }

  function Quoted(v: string): string {
    "\"" + Escape(v) + "\""
  }

  /**
   A quoted value reads back as itself, with everything after it left alone, exactly when it does not
   end in a backslash.
   */
  lemma QuotedStringExactly(v: string, rest: string)
    ensures QuotedString(Quoted(v) + rest) == Quote(v, rest) <==> !EndsInBackslash(v)
  {
    var inner := Escape(v) + ("\"" + rest);
    assert Quoted(v) + rest == "\"" + inner;
    assert ("\"" + inner)[1..] == inner;
    if EndsInBackslash(v) {
      UnquoteRunsOn(v, rest);
    } else {
      UnquoteEscape(v, rest);
    }
  }

  /** The one-character value that is a backslash: written in quotes, it is not read at all. */
  lemma LoneBackslashIsLost()
    ensures QuotedString(Quoted("\\")) == NotQuoted
  {
    UnquoteRunsOn("\\", "");
    assert Quoted("\\") == "\"" + (Escape("\\") + ("\"" + ""));
    assert ("\"" + (Escape("\\") + ("\"" + "")))[1..] == Escape("\\") + ("\"" + "");
  }

  // ---- White space ----

  /** Any mixture of spaces, tabs and folded lines. */
  predicate Blank(w: string)
    decreases |w|
  {
    || w == []
    || (IsWhitespace(w[0]) && Blank(w[1..]))
    || (|w| > 2 && w[0] == '\r' && w[1] == '\n' && IsWhitespace(w[2]) && Blank(w[3..]))
  }

  /** Text that does not begin with white space of any kind. */
  predicate Solid(s: string) {
    s == [] || (!IsWhitespace(s[0]) && s[0] != '\r')
  }

  lemma {:induction false} SkipInBlank(w: string, s: string) returns (w': string)
    requires Blank(w) && Solid(s)
    ensures SkipWhitespace(w + s) == w' + s && Blank(w') && |w'| <= |w|
    ensures w != [] && IsWhitespace(w[0]) ==> |w'| < |w|
  {
    if w == [] {
      w' := [];
      assert w + s == s && [] + s == s;
    } else if IsWhitespace(w[0]) {
      assert (w + s)[1..] == w[1..] + s;
      w' := SkipInBlank(w[1..], s);
    } else {
      w' := w;
    }
  }

  lemma LwsInBlank(w: string, s: string) returns (w': string)
    requires Blank(w) && w != [] && Solid(s)
    ensures Lws(w + s) == w' + s && Blank(w') && |w'| < |w|
  {
    hide SkipWhitespace;
    if IsWhitespace(w[0]) {
      assert (w + s)[0] == w[0];
      w' := SkipInBlank(w, s);
    } else {
      assert (w + s)[0] == w[0] && (w + s)[1] == w[1] && (w + s)[2] == w[2];
      assert (w + s)[3..] == w[3..] + s;
      w' := SkipInBlank(w[3..], s);
    }
  }

  lemma LwsOfSolid(s: string)
    requires Solid(s)
    ensures Lws(s) == s
  {
  }

  /** All of a blank is skipped, and nothing more. */
  lemma {:induction false} AllLwsOfBlank(w: string, s: string)
    requires Blank(w) && Solid(s)
    ensures AllLws(w + s) == s
    decreases |w|
  {
    hide Lws, Blank;
    if w == [] {
      assert w + s == s;
      LwsOfSolid(s);
    } else {
      var w' := LwsInBlank(w, s);
      AllLwsOfBlank(w', s);
    }
  }

  lemma {:induction false} BlankAppend(a: string, b: string)
    requires Blank(a) && Blank(b)
    ensures Blank(a + b)
    decreases |a|
  {
    if a == [] {
      assert a + b == b;
    } else if IsWhitespace(a[0]) {
      assert (a + b)[1..] == a[1..] + b;
      BlankAppend(a[1..], b);
    } else {
      assert (a + b)[3..] == a[3..] + b;
      BlankAppend(a[3..], b);
    }
  }

  predicate IsToken(t: string) {
    t != [] && forall i :: 0 <= i < |t| ==> IsTokenChar(t[i])
  }

  lemma {:induction false} TokenThen(t: string, rest: string)
    requires forall i :: 0 <= i < |t| ==> IsTokenChar(t[i])
    requires rest == [] || !IsTokenChar(rest[0])
    ensures Token(t + rest) == (t, rest)
  {
    TokenLengthThen(t, rest);
    assert (t + rest)[..|t|] == t && (t + rest)[|t|..] == rest;
  }

  lemma {:induction false} TokenLengthThen(t: string, rest: string)
    requires forall i :: 0 <= i < |t| ==> IsTokenChar(t[i])
    requires rest == [] || !IsTokenChar(rest[0])
    ensures TokenLength(t + rest) == |t|
  {
    if t == [] {
      assert t + rest == rest;
    } else {
      assert (t + rest)[1..] == t[1..] + rest;
      TokenLengthThen(t[1..], rest);
    }
  }

  // ---- Rendering ----

  /** How the value of an attribute is written, with the white space after the equals sign. */
  datatype Form = Absent | Bare(blank: string, token: string) | InQuotes(blank: string, value: string)

  /**
   An attribute as written: white space, a semicolon unless it is the first, white space, the name,
   white space, the value.
   */
  datatype Attr = Attr(before: string, blank: string, name: string, after: string, form: Form)

  /** A parameter as written, with white space before and after the name and at the end. */
  datatype Param = Param(before: string, name: string, after: string, attrs: seq<Attr>, last: string)

  predicate GoodForm(f: Form) {
    match f
    case Absent => true
    case Bare(blank, token) => Blank(blank) && IsToken(token)
    case InQuotes(blank, value) => Blank(blank) && !EndsInBackslash(value)
  }

  predicate GoodAttr(a: Attr) {
    Blank(a.before) && Blank(a.blank) && IsToken(a.name) && Blank(a.after) && GoodForm(a.form)
  }

  predicate GoodAttrs(attrs: seq<Attr>) {
    forall i :: 0 <= i < |attrs| ==> GoodAttr(attrs[i])
  }

  predicate GoodParam(p: Param) {
    Blank(p.before) && IsToken(p.name) && Blank(p.after) && GoodAttrs(p.attrs) && Blank(p.last)
  }

  function ShowForm(f: Form): string {
    match f
    case Absent => []
    case Bare(blank, token) => "=" + (blank + token)
    case InQuotes(blank, value) => "=" + (blank + Quoted(value))
  }

  function FormValue(f: Form): string {
    match f
    case Absent => []
    case Bare(_, token) => token
    case InQuotes(_, value) => value
  }

  /** An attribute, and after it the rest of the text. */
  function ShowAttr(a: Attr, first: bool, rest: string): string {
    a.before + ((if first then [] else ";") + (a.blank + (a.name + (a.after + (ShowForm(a.form) + rest)))))
  }

  function ShowAttrs(attrs: seq<Attr>, first: bool, rest: string): string {
    if attrs == [] then rest else ShowAttr(attrs[0], first, ShowAttrs(attrs[1..], false, rest))
  }

  function AttrsValue(attrs: seq<Attr>, start: map<string, string>): map<string, string>
    decreases |attrs|
  {
    if attrs == [] then start else AttrsValue(attrs[1..], start[attrs[0].name := FormValue(attrs[0].form)])
  }

  function ShowParam(p: Param, rest: string): string {
    p.before + (p.name + (p.after +
      if p.attrs == [] then p.last + rest else ";" + ShowAttrs(p.attrs, true, p.last + rest)))
  }

  function ShowParams(ps: seq<Param>): string {
    if ps == [] then []
    else ShowParam(ps[0], if |ps| == 1 then [] else "," + ShowParams(ps[1..]))
  }

  function ParamsValue(ps: seq<Param>): seq<Parameter> {
    if ps == [] then [] else [(ps[0].name, AttrsValue(ps[0].attrs, map[]))] + ParamsValue(ps[1..])
  }

  // ---- Reading what was rendered ----

  /** Text that cannot go on a token. */
  predicate Ends(s: string) {
    s == [] || !IsTokenChar(s[0])
  }

  /** Text that begins with one of the marks between tokens, or is at its end. */
  predicate Mark(s: string) {
    s == [] || s[0] == ';' || s[0] == ',' || s[0] == '='
  }

  /** A blank and then a mark. */
  lemma BlankMark(w: string, rest: string)
    requires Blank(w) && Mark(rest)
    ensures AllLws(w + rest) == rest && Ends(w + rest)
  {
    AllLwsOfBlank(w, rest);
    TokenCharExactly((w + rest + ";")[0]);
  }

  /** A blank and then a token. */
  lemma BlankToken(w: string, t: string, rest: string)
    requires Blank(w) && IsToken(t) && Ends(rest)
    ensures AllLws(w + (t + rest)) == t + rest && Token(t + rest) == (t, rest)
    ensures QuotedString(t + rest) == NotQuoted
  {
    TokenCharExactly(t[0]);
    assert (t + rest)[0] == t[0];
    AllLwsOfBlank(w, t + rest);
    TokenThen(t, rest);
  }

  lemma BareValue(name: string, after: string, blank: string, token: string, tail: string)
    requires Blank(after) && Blank(blank) && IsToken(token) && Ends(tail)
    ensures AttributeValue(name, after + ("=" + (blank + (token + tail)))) == Attribute(name, token, tail)
    ensures Ends(after + ("=" + (blank + (token + tail))))
  {
    hide Blank, AllLws, Token, TokenLength, QuotedString, Unquote, Ends;
    var body := blank + (token + tail);
    BlankMark(after, "=" + body);
    assert ("=" + body)[1..] == body;
    BlankToken(blank, token, tail);
    assert token + tail != [];
  }

  lemma QuotedValue(name: string, after: string, blank: string, value: string, tail: string)
    requires Blank(after) && Blank(blank) && !EndsInBackslash(value)
    ensures AttributeValue(name, after + ("=" + (blank + (Quoted(value) + tail)))) == Attribute(name, value, tail)
    ensures Ends(after + ("=" + (blank + (Quoted(value) + tail))))
  {
    hide Blank, AllLws, Token, TokenLength, QuotedString, Unquote, Ends, Escape;
    var text := Quoted(value) + tail;
    assert text[0] == '"';
    BlankMark(after, "=" + (blank + text));
    assert ("=" + (blank + text))[1..] == blank + text;
    AllLwsOfBlank(blank, text);
    QuotedStringExactly(value, tail);
  }

  lemma AttributeValueOf(name: string, after: string, form: Form, w: string, rest: string)
    requires Blank(after) && GoodForm(form) && Blank(w) && Mark(rest) && (rest != [] ==> rest[0] != '=')
    ensures AttributeValue(name, after + (ShowForm(form) + (w + rest))) ==
      Attribute(name, FormValue(form), if form.Absent? then rest else w + rest)
    ensures Ends(after + (ShowForm(form) + (w + rest)))
  {
    hide Blank, AllLws, Quoted, Ends, AttributeValue;
    match form
    case Absent => AbsentValue(name, after, w, rest);
    case Bare(blank, token) =>
      Associate("=", blank + token, w + rest);
      Associate(blank, token, w + rest);
      BlankMark(w, rest);
      BareValue(name, after, blank, token, w + rest);
    case InQuotes(blank, value) =>
      Associate("=", blank + Quoted(value), w + rest);
      Associate(blank, Quoted(value), w + rest);
      QuotedValue(name, after, blank, value, w + rest);
  }

  lemma AbsentValue(name: string, after: string, w: string, rest: string)
    requires Blank(after) && Blank(w) && Mark(rest) && (rest != [] ==> rest[0] != '=')
    ensures AttributeValue(name, after + ("" + (w + rest))) == Attribute(name, "", rest)
    ensures Ends(after + ("" + (w + rest)))
  {
    hide Blank, AllLws, Ends, Mark, Token, QuotedString;
    BlankAppend(after, w);
    assert "" + (w + rest) == w + rest;
    Associate(after, w, rest);
    BlankMark(after + w, rest);
  }

  /** One pass over text that begins, after white space, with a name. */
  lemma PassReads(s: string, first: bool, name: string, value: string)
    requires IsToken(name) && Token(name + value) == (name, value)
    requires var a := AllLws(s);
      a != [] && if first then AllLws(a) == name + value else a[0] == ';' && AllLws(a[1..]) == name + value
    ensures AttributePass(s, first) == AttributeValue(name, value)
  {
    hide AllLws, Token, AttributeValue;
  }

  lemma AttributePassOf(a: Attr, first: bool, w: string, rest: string)
    requires GoodAttr(a) && Blank(w) && Mark(rest) && (rest != [] ==> rest[0] != '=')
    ensures AttributePass(ShowAttr(a, first, w + rest), first) ==
      Attribute(a.name, FormValue(a.form), if a.form.Absent? then rest else w + rest)
  {
    hide Blank, AllLws, Token, TokenLength, AttributeValue, ShowForm, AttributePass, Ends, IsToken;
    var value := a.after + (ShowForm(a.form) + (w + rest));
    AttributeValueOf(a.name, a.after, a.form, w, rest);
    if first {
      NamedFirst(a.before, a.blank, a.name, value);
    } else {
      NamedNext(a.before, a.blank, a.name, value);
    }
  }

  lemma NamedFirst(before: string, blank: string, name: string, value: string)
    requires Blank(before) && Blank(blank) && IsToken(name) && Ends(value)
    ensures AttributePass(before + ("" + (blank + (name + value))), true) == AttributeValue(name, value)
  {
    hide Blank, AllLws, Token, TokenLength, AttributeValue, AttributePass, Ends;
    BlankAppend(before, blank);
    BlankToken(before + blank, name, value);
    BlankToken([], name, value);
    assert [] + (name + value) == name + value != [];
    assert before + ("" + (blank + (name + value))) == before + blank + (name + value);
    PassReads(before + blank + (name + value), true, name, value);
  }

  lemma NamedNext(before: string, blank: string, name: string, value: string)
    requires Blank(before) && Blank(blank) && IsToken(name) && Ends(value)
    ensures AttributePass(before + (";" + (blank + (name + value))), false) == AttributeValue(name, value)
  {
    hide Blank, AllLws, Token, TokenLength, AttributeValue, AttributePass, Ends;
    var body := blank + (name + value);
    BlankToken(blank, name, value);
    BlankMark(before, ";" + body);
    assert (";" + body)[1..] == body;
    PassReads(before + (";" + body), false, name, value);
  }

  /** White space before a semicolon, a comma or the end makes no difference to the loop. */
  lemma AttributesAfterBlank(w: string, rest: string, m: map<string, string>)
    requires Blank(w) && Mark(rest)
    ensures Attributes(w + rest, false, m) == Attributes(rest, false, m)
  {
    hide Blank, AllLws, AttributeValue;
    BlankMark(w, rest);
    BlankMark([], rest);
    BlankMark([], []);
    assert [] + rest == rest && "" + "" == "";
  }

  /** What follows the first attribute: white space and a mark. */
  lemma AttrsBegin(attrs: seq<Attr>, w: string, rest: string) returns (w': string, rest': string)
    requires GoodAttrs(attrs) && Blank(w) && (rest == [] || rest[0] == ',')
    ensures ShowAttrs(attrs, false, w + rest) == w' + rest'
    ensures Blank(w') && Mark(rest') && (rest' != [] ==> rest'[0] != '=')
  {
    if attrs == [] {
      w', rest' := w, rest;
    } else {
      w' := attrs[0].before;
      rest' := ShowAttrs(attrs, false, w + rest)[|w'|..];
    }
  }

  lemma {:induction false} AttributesOf(attrs: seq<Attr>, first: bool, w: string, rest: string, m: map<string, string>)
    requires GoodAttrs(attrs) && Blank(w) && (rest == [] || rest[0] == ',') && (first ==> attrs != [])
    ensures Attributes(ShowAttrs(attrs, first, w + rest), first, m) == Read(AttrsValue(attrs, m), rest)
    decreases |attrs|
  {
    hide Blank, AllLws, AttributePass, ShowAttr;
    if attrs == [] {
      AttributesAfterBlank(w, rest, m);
      AttributesStop(rest, m);
    } else {
      var a := attrs[0];
      var w', rest' := AttrsBegin(attrs[1..], w, rest);
      AttributePassOf(a, first, w', rest');
      AttributesAfterBlank(w', rest', m[a.name := FormValue(a.form)]);
      AttributesOf(attrs[1..], false, w, rest, m[a.name := FormValue(a.form)]);
      ShowAttrNonEmpty(a, first, w' + rest');
    }
  }

  lemma ShowAttrNonEmpty(a: Attr, first: bool, rest: string)
    requires GoodAttr(a)
    ensures |ShowAttr(a, first, rest)| > |rest|
  {
  }

  lemma AttributesStop(rest: string, m: map<string, string>)
    requires rest == [] || rest[0] == ','
    ensures Attributes(rest, false, m) == Read(m, rest)
  {
    BlankMark([], rest);
    assert [] + rest == rest;
  }

  lemma {:induction false} ShowAttrsLonger(attrs: seq<Attr>, first: bool, rest: string)
    requires GoodAttrs(attrs)
    ensures |ShowAttrs(attrs, first, rest)| >= |rest|
    ensures attrs != [] ==> |ShowAttrs(attrs, first, rest)| > |rest|
    decreases |attrs|
  {
    hide ShowAttr;
    if attrs != [] {
      ShowAttrsLonger(attrs[1..], false, rest);
      ShowAttrNonEmpty(attrs[0], first, ShowAttrs(attrs[1..], false, rest));
    }
  }

  /** What a rendered parameter and the comma or end after it are read as. */
  function Expected(p: Param, rest: string): ParameterPass
    requires rest == [] || rest[0] == ','
  {
    var parameter := (p.name, AttrsValue(p.attrs, map[]));
    if rest == [] then Last(parameter, [])
    else if |rest| == 1 then Dangling(parameter)
    else Another(parameter, rest[1..])
  }

  lemma ParameterOfShown(p: Param, rest: string)
    requires GoodParam(p) && (rest == [] || rest[0] == ',')
    ensures ParameterOf(ShowParam(p, rest)) == Expected(p, rest)
  {
    hide Blank, AllLws, TokenLength, Attributes, ShowAttrs;
    BlankMark([], rest);
    assert [] + rest == rest;
    if p.attrs == [] {
      var tail := p.after + (p.last + rest);
      BlankAppend(p.after, p.last);
      assert tail == p.after + p.last + rest;
      BlankMark(p.after + p.last, rest);
      BlankToken(p.before, p.name, tail);
      assert p.name + tail != [];
    } else {
      var body := ShowAttrs(p.attrs, true, p.last + rest);
      var tail := p.after + (";" + body);
      BlankMark(p.after, ";" + body);
      assert (";" + body)[1..] == body;
      BlankToken(p.before, p.name, tail);
      assert p.name + tail != [];
      AttributesOf(p.attrs, true, p.last, rest, map[]);
      ShowAttrsLonger(p.attrs, true, p.last + rest);
    }
  }

  /**
   Any list of parameters with attributes, written with any white space and folded lines at every
   place the grammar allows them, with bare, quoted or absent values: reading it to the end gives
   the list back.
   */
  lemma {:induction false} ParametersRoundTrip(ps: seq<Param>, read: seq<Parameter>)
    requires ps != [] && forall i :: 0 <= i < |ps| ==> GoodParam(ps[i])
    ensures Parameters(ShowParams(ps), read) == Read(read + ParamsValue(ps), [])
    decreases |ps|
  {
    hide ParameterOf, ShowParam;
    var p := ps[0];
    var parameter := (p.name, AttrsValue(p.attrs, map[]));
    if |ps| == 1 {
      ParameterOfShown(p, []);
      ShowParamNonEmpty(p, []);
      assert ParamsValue(ps) == [parameter] + ParamsValue([]);
      assert [parameter] + [] == [parameter];
    } else {
      var more := ShowParams(ps[1..]);
      ShowParamNonEmpty(ps[1], if |ps| == 2 then [] else "," + ShowParams(ps[1..][1..]));
      ParameterOfShown(p, "," + more);
      ShowParamNonEmpty(p, "," + more);
      assert ("," + more)[1..] == more;
      ParametersRoundTrip(ps[1..], read + [parameter]);
      assert read + [parameter] + ParamsValue(ps[1..]) == read + ([parameter] + ParamsValue(ps[1..]));
    }
  }

  lemma ShowParamNonEmpty(p: Param, rest: string)
    requires GoodParam(p)
    ensures ShowParam(p, rest) != []
  {
  }

  // ---- What is refused ----

  /** Where a name has to be: something else. */
  predicate NoName(s: string) {
    Solid(s) && Ends(s)
  }

  /** Where a value has to be: nothing, or neither a token nor a whole quoted string. */
  predicate NoValue(s: string) {
    Solid(s) && Ends(s) && QuotedString(s) == NotQuoted
  }

  lemma NoNameHere(w: string, s: string)
    requires Blank(w) && NoName(s)
    ensures AllLws(w + s) == s && Token(s).0 == []
  {
    AllLwsOfBlank(w, s);
  }

  /** An equals sign with no value behind it breaks the list, wherever the attribute stands. */
  lemma MissingValue(a: Attr, first: bool, gap: string, rest: string, m: map<string, string>)
    requires GoodAttr(a) && Blank(gap) && NoValue(rest)
    ensures var value := a.after + ("=" + (gap + rest));
      Attributes(a.before + ((if first then [] else ";") + (a.blank + (a.name + value))), first, m) == Broken(m)
  {
    hide Blank, AllLws, Token, TokenLength, QuotedString, Unquote, AttributePass, IsToken, Ends;
    var body := gap + rest;
    var value := a.after + ("=" + body);
    BlankMark(a.after, "=" + body);
    assert ("=" + body)[1..] == body;
    NoNameHere(gap, rest);
    assert AttributeValue(a.name, value) == Error;
    if first {
      NamedFirst(a.before, a.blank, a.name, value);
    } else {
      NamedNext(a.before, a.blank, a.name, value);
    }
  }

  /** So does a semicolon with no name behind it. */
  lemma MissingName(before: string, blank: string, rest: string, m: map<string, string>)
    requires Blank(before) && Blank(blank) && NoName(rest)
    ensures Attributes(before + (";" + (blank + rest)), false, m) == Broken(m)
  {
    hide Blank, AllLws, Token, TokenLength, AttributeValue, NoName;
    var body := blank + rest;
    BlankMark(before, ";" + body);
    assert (";" + body)[1..] == body;
    NoNameHere(blank, rest);
  }

  /** A comma with nothing behind it: the parameter before it is kept, and the list is broken. */
  lemma TrailingComma(p: Param, read: seq<Parameter>)
    requires GoodParam(p)
    ensures Parameters(ShowParam(p, ","), read) == Broken(read + [(p.name, AttrsValue(p.attrs, map[]))])
  {
    hide ParameterOf, ShowParam;
    ParameterOfShown(p, ",");
    ShowParamNonEmpty(p, ",");
  }

  /** Text that is no parameter breaks the list, and so does a parameter with a broken list of attributes. */
  lemma BrokenParameter(w: string, rest: string, name: string, after: string, attrs: string, read: seq<Parameter>)
    requires Blank(w) && IsToken(name) && Blank(after)
    ensures NoName(rest) && rest != [] ==> Parameters(w + rest, read) == Broken(read)
    ensures Attributes(attrs, true, map[]).Broken? ==>
      Parameters(w + (name + (after + (";" + attrs))), read) == Broken(read)
  {
    hide Blank, AllLws, Token, TokenLength, Attributes, IsToken, NoName;
    if NoName(rest) {
      NoNameHere(w, rest);
    }
    var tail := after + (";" + attrs);
    BlankMark(after, ";" + attrs);
    assert (";" + attrs)[1..] == attrs;
    BlankToken(w, name, tail);
    NonEmptyToken(name);
    assert name + tail != [];
  }

  lemma NonEmptyToken(name: string)
    requires IsToken(name)
    ensures name != []
  {
  }

  // ---- The extractors: a cursor over a range, and end is |input| ----

  method ExtractToken(input: string, begin: nat) returns (token: string, it: nat)
    requires begin <= |input|
    ensures begin <= it <= |input|
    ensures (token, input[it..]) == Token(input[begin..])
  {
    it := begin;
    while it < |input| && IsTokenChar(input[it])
      invariant begin <= it <= |input|
      invariant forall i :: begin <= i < it ==> IsTokenChar(input[i])
    {
      it := it + 1;
    }
    token := input[begin..it];
    assert input[begin..] == token + input[it..];
    TokenThen(token, input[it..]);
  }

  /** std::find of a quote. */
  method FindQuote(input: string, from: nat) returns (it: nat)
    requires from <= |input|
    ensures from <= it <= |input| && '"' !in input[from..it] && (it < |input| ==> input[it] == '"')
  {
    it := from;
    while it < |input| && input[it] != '"'
      invariant from <= it <= |input| && '"' !in input[from..it]
    {
      assert input[from..it + 1] == input[from..it] + [input[it]];
      it := it + 1;
    }
  }

  function PrependAll(s: string, q: Quote): Quote {
    if q.NotQuoted? then q else Quote(s + q.value, q.rest)
  }

  lemma PrependAllTwice(a: string, b: string, q: Quote)
    ensures PrependAll(a, PrependAll(b, q)) == PrependAll(a + b, q)
  {
    if q.Quote? {
      assert a + (b + q.value) == a + b + q.value;
    }
  }

  /** A character that neither ends the string nor escapes a quote. */
  lemma UnquotePlain(s: string)
    requires s != [] && s[0] != '"' && (|s| > 1 && s[0] == '\\' ==> s[1] != '"')
    ensures Unquote(s) == PrependAll([s[0]], Unquote(s[1..]))
  {
  }

  lemma UnquoteEnds(rest: string)
    ensures Unquote("") == NotQuoted && Unquote("\\") == NotQuoted
    ensures Unquote("\"" + rest) == Quote("", rest)
    ensures Unquote(['\\'] + ("\"" + rest)) == PrependAll("\"", Unquote(rest))
  {
    assert ("\"" + rest)[1..] == rest && (['\\'] + ("\"" + rest))[2..] == rest && "\\"[1..] == "";
  }

  /** A stretch without quotes, up to the end, to a quote behind a backslash, or to a closing quote. */
  lemma {:induction false} UnquoteStretch(t: string, rest: string)
    requires '"' !in t
    ensures Unquote(t) == NotQuoted
    ensures EndsInBackslash(t) ==> Unquote(t + ("\"" + rest)) == PrependAll(t[..|t| - 1] + "\"", Unquote(rest))
    ensures !EndsInBackslash(t) ==> Unquote(t + ("\"" + rest)) == Quote(t, rest)
  {
    hide Unquote;
    var tail := "\"" + rest;
    UnquoteEnds(rest);
    if t == [] {
      assert t + tail == tail;
    } else if |t| == 1 && t[0] == '\\' {
      assert t[..0] + "\"" == "\"" && t == ['\\'];
    } else {
      UnquoteStretch(t[1..], rest);
      assert (t + tail)[1..] == t[1..] + tail;
      assert t[0] != '"';
      UnquotePlain(t + tail);
      UnquotePlain(t);
      if EndsInBackslash(t) {
        assert t[..|t| - 1] + "\"" == [t[0]] + (t[1..][..|t| - 2] + "\"");
        PrependAllTwice([t[0]], t[1..][..|t| - 2] + "\"", Unquote(rest));
      } else {
        assert [t[0]] + t[1..] == t;
      }
    }
  }

  /** The next quote met at cursor, with s read before marker: read on after a backslash, or the string is whole. */
  lemma QuoteMet(input: string, marker: nat, cursor: nat, s: string)
    requires marker <= cursor < |input| && '"' !in input[marker..cursor] && input[cursor] == '"'
    ensures var q := PrependAll(s, Unquote(input[marker..]));
      if cursor > marker && input[cursor - 1] == '\\'
      then q == PrependAll(s + input[marker..cursor - 1] + "\"", Unquote(input[cursor + 1..]))
      else q == Quote(s + input[marker..cursor], input[cursor + 1..])
  {
    var t, rest := input[marker..cursor], input[cursor + 1..];
    assert input[marker..] == t + ("\"" + rest);
    UnquoteStretch(t, rest);
    hide Unquote;
    if EndsInBackslash(t) {
      var kept := t[..|t| - 1];
      assert kept == input[marker..cursor - 1];
      Associate(s, kept, "\"");
      PrependAllTwice(s, kept + "\"", Unquote(rest));
    }
  }

  /** No more quotes: there is no quoted string. */
  lemma NoQuoteMet(input: string, marker: nat)
    requires marker <= |input| && '"' !in input[marker..|input|]
    ensures Unquote(input[marker..]) == NotQuoted
  {
    assert input[marker..|input|] == input[marker..];
    UnquoteStretch(input[marker..], "");
  }

  method ExtractQuotedString(input: string, begin: nat) returns (value: string, it: nat)
    requires begin <= |input|
    ensures begin <= it <= |input|
    ensures it == begin ==> QuotedString(input[begin..]) == NotQuoted && value == ""
    ensures it > begin ==> QuotedString(input[begin..]) == Quote(value, input[it..])
  {
    hide Unquote;
    if begin == |input| || input[begin] != '"' {
      return "", begin;
    }
    var s := "";
    var cursor := begin + 1;
    var marker := cursor;
    assert input[begin..][1..] == input[marker..];
    PrependNothing(Unquote(input[marker..]));
    hide QuotedString, PrependAll;
    cursor := FindQuote(input, cursor);
    while cursor != |input|
      invariant begin < marker <= cursor <= |input| && input[marker - 1] == '"'
      invariant '"' !in input[marker..cursor] && (cursor < |input| ==> input[cursor] == '"')
      invariant QuotedString(input[begin..]) == PrependAll(s, Unquote(input[marker..]))
      decreases |input| - cursor
    {
      QuoteMet(input, marker, cursor, s);
      if input[cursor - 1] == '\\' {
        s := s + input[marker..cursor - 1];
        s := s + "\"";
        cursor := cursor + 1;
        marker := cursor;
      } else {
        s := s + input[marker..cursor];
        return s, cursor + 1;
      }
      cursor := FindQuote(input, cursor);
    }
    NoQuoteMet(input, marker);
    PrependToNone(s);
    return "", begin;
  }

  lemma PrependNothing(q: Quote)
    ensures PrependAll("", q) == q
  {
    if q.Quote? {
      assert "" + q.value == q.value;
    }
  }

  lemma PrependToNone(s: string)
    ensures PrependAll(s, NotQuoted) == NotQuoted
  {
  }

  method ExtractLws(input: string, begin: nat) returns (it: nat)
    requires begin <= |input|
    ensures begin <= it <= |input| && input[it..] == Lws(input[begin..])
  {
    it := begin;
    if |input| - begin > 2 && input[begin] == '\r' && input[begin + 1] == '\n' && IsWhitespace(input[begin + 2]) {
      it := it + 3;
    }
    assert input[it..] == AfterFold(input[begin..]);
    while it < |input| && IsWhitespace(input[it])
      invariant begin <= it <= |input| && SkipWhitespace(input[it..]) == Lws(input[begin..])
    {
      assert input[it..][1..] == input[it + 1..];
      it := it + 1;
    }
  }

  method ExtractAllLws(input: string, begin: nat) returns (newIt: nat)
    requires begin <= |input|
    ensures begin <= newIt <= |input| && input[newIt..] == AllLws(input[begin..])
  {
    hide Lws;
    var oldIt := begin;
    newIt := ExtractLws(input, oldIt);
    while newIt != |input| && oldIt != newIt
      invariant begin <= oldIt <= newIt <= |input|
      invariant input[newIt..] == Lws(input[oldIt..]) && AllLws(input[oldIt..]) == AllLws(input[begin..])
      decreases |input| - oldIt
    {
      oldIt := newIt;
      newIt := ExtractLws(input, oldIt);
    }
  }

  /** From after an attribute's name: an equals sign and a value, or neither. */
  method ExtractValue(input: string, begin: nat, ghost name: string) returns (ok: bool, value: string, it: nat)
    requires begin <= |input|
    ensures begin <= it <= |input|
    ensures AttributeValue(name, input[begin..]) == if ok then Attribute(name, value, input[it..]) else Error
  {
    hide AllLws, Token, QuotedString;
    var cursor := ExtractAllLws(input, begin);
    if cursor == |input| || input[cursor] != '=' {
      return true, "", cursor;
    }
    assert input[cursor..][1..] == input[cursor + 1..];
    cursor := cursor + 1;
    cursor := ExtractAllLws(input, cursor);
    if cursor == |input| {
      return false, "", begin;
    }
    value, it := ExtractQuotedString(input, cursor);
    if it != cursor {
      return true, value, it;
    }
    value, it := ExtractToken(input, cursor);
    ok := value != "";
  }

  /** After white space and, unless it is the first, a semicolon: the name and the value. */
  method ExtractNamed(input: string, begin: nat) returns (ok: bool, name: string, value: string, it: nat)
    requires begin <= |input|
    ensures begin <= it <= |input|
    ensures var b := AllLws(input[begin..]);
      (if Token(b).0 == [] then Error else AttributeValue(Token(b).0, Token(b).1))
        == if ok then Attribute(name, value, input[it..]) else Error
  {
    hide AllLws, Token, AttributeValue;
    var cursor := ExtractAllLws(input, begin);
    name, cursor := ExtractToken(input, cursor);
    if name == "" {
      return false, "", "", begin;
    }
    ok, value, it := ExtractValue(input, cursor, name);
  }

  method ExtractAttributes(input: string, begin: nat, start: map<string, string>)
    returns (it: nat, attributes: map<string, string>)
    requires begin <= |input|
    ensures begin <= it <= |input|
    ensures var r := Attributes(input[begin..], true, start);
      attributes == r.value && if r.Read? then input[it..] == r.rest else it == begin
  {
    hide AllLws, Token, AttributeValue;
    attributes := start;
    if begin == |input| {
      return begin, attributes;
    }
    var first := true;
    var cursor := begin;
    while cursor != |input|
      invariant begin <= cursor <= |input|
      invariant Attributes(input[cursor..], first, attributes) == Attributes(input[begin..], true, start)
      decreases |input| - cursor
    {
      ghost var pass := AttributePass(input[cursor..], first);
      var next := ExtractAllLws(input, cursor);
      if next == |input| {
        return next, attributes;
      }
      if first {
        first := false;
      } else if input[next] == ';' {
        assert input[next..][1..] == input[next + 1..];
        next := next + 1;
      } else {
        return next, attributes;
      }
      var ok, name, value;
      ok, name, value, next := ExtractNamed(input, next);
      if !ok {
        return begin, attributes;
      }
      assert pass == Attribute(name, value, input[next..]);
      attributes := attributes[name := value];
      cursor := next;
    }
    it := cursor;
  }

  /** After a parameter: a comma with something behind it, a comma at the end, or neither. */
  method ExtractComma(input: string, begin: nat, ghost parameter: Parameter)
    returns (more: bool, dangling: bool, it: nat)
    requires begin <= |input|
    ensures begin <= it <= |input| && (more && !dangling ==> begin < it < |input|)
    ensures AfterParameter(parameter, input[begin..]) ==
      if !more then Last(parameter, input[it..])
      else if dangling then Dangling(parameter)
      else Another(parameter, input[it..])
  {
    hide AllLws;
    it := ExtractAllLws(input, begin);
    if it == |input| || input[it] != ',' {
      return false, false, it;
    }
    assert input[it..][1..] == input[it + 1..];
    it := it + 1;
    return true, it == |input|, it;
  }

  method ExtractParameters(input: string, begin: nat, start: seq<Parameter>)
    returns (it: nat, parameters: seq<Parameter>)
    requires begin <= |input|
    ensures begin <= it <= |input|
    ensures var r := Parameters(input[begin..], start);
      parameters == r.value && if r.Read? then input[it..] == r.rest else it == begin
  {
    hide AllLws, Token, Attributes, AfterParameter;
    parameters := start;
    if begin == |input| {
      return begin, parameters;
    }
    var cursor := begin;
    while cursor != |input|
      invariant begin <= cursor <= |input|
      invariant Parameters(input[cursor..], parameters) == Parameters(input[begin..], start)
      decreases |input| - cursor
    {
      ghost var pass := ParameterOf(input[cursor..]);
      var next := ExtractAllLws(input, cursor);
      if next == |input| {
        return next, parameters;
      }
      var name;
      name, next := ExtractToken(input, next);
      if name == "" {
        return begin, parameters;
      }
      next := ExtractAllLws(input, next);
      if next == |input| {
        return next, parameters + [(name, map[])];
      }
      var attributes: map<string, string> := map[];
      if input[next] == ';' {
        assert input[next..][1..] == input[next + 1..];
        next := next + 1;
        var acursor;
        acursor, attributes := ExtractAttributes(input, next, attributes);
        if acursor == next {
          return begin, parameters;
        }
        next := acursor;
      }
      assert pass == AfterParameter((name, attributes), input[next..]);
      parameters := parameters + [(name, attributes)];
      var more, dangling;
      more, dangling, next := ExtractComma(input, next, (name, attributes));
      if !more {
        return next, parameters;
      }
      if dangling {
        return begin, parameters;
      }
      cursor := next;
    }
    it := cursor;
  }
}
