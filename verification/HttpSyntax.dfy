/** What HttpContext::parseRequest computes, as a function of the bytes waiting in
    the input buffer, and the request text it inverts. */
module HttpSyntax {
  import opened Integers
  import opened Buffers

  type Text = seq<Byte>

  datatype Method = Invalid | Get | Post | Head | Put | Delete

  datatype Version = Unknown | Http10 | Http11

  datatype Request = Request(
    method_: Method, version: Version, receiveTime: int, path: Text, query: Text, body: Text,
    headers: map<Text, Text>)

  datatype ParseState = ExpectRequestLine | ExpectHeaders | ExpectBody | GotAll

  datatype Context = Context(request: Request, state: ParseState)

  /** Thrown: the line ends before a version, and building a string from a negative
      range throws. */
  datatype LineResult = Parsed | Rejected | Thrown

  const EMPTY_REQUEST := Request(Invalid, Unknown, 0, [], [], [], map[])
  const FRESH := Context(EMPTY_REQUEST, ExpectRequestLine)
  const CRLF: Text := ['\r', '\n']

  function MethodOf(s: Text): Method {
    if s == "GET" then Get
    else if s == "POST" then Post
    else if s == "HEAD" then Head
    else if s == "PUT" then Put
    else if s == "DELETE" then Delete
    else Invalid
  }

  predicate IsSpace(c: char) { c in {' ', '\t', '\n', '\r', 11 as char, 12 as char} }

  function TrimLeft(s: Text): Text { if s != [] && IsSpace(s[0]) then TrimLeft(s[1..]) else s }

  function TrimRight(s: Text): Text {
    if s != [] && IsSpace(s[|s| - 1]) then TrimRight(s[..|s| - 1]) else s
  }

  function Trim(s: Text): Text { TrimRight(TrimLeft(s)) }

  function VersionOf(c: char): Version { if c == '0' then Http10 else if c == '1' then Http11 else Unknown }

  /** parseRequestLine: a rejected line may already have set some parts. */
  function ParseLine(r: Request, line: Text): (LineResult, Request) {
    var n := |line|;
    var space := Find(line, ' ', 0, n);
    if space == n then (Rejected, r)
    else
      var r1 := r.(method_ := MethodOf(line[..space]));
      if r1.method_ == Invalid then (Rejected, r1)
      else
        var target := space + 1;
        var space2 := Find(line, ' ', target, n);
        var r2 := if space2 == n then r1 else SetTarget(r1, line[target..space2]);
        if space2 + 2 > n then (Thrown, r2)
        else
          var v := line[space2 + 1..];
          if |v| == 8 && v[..7] == "HTTP/1." && VersionOf(v[7]) != Unknown
          then (Parsed, r2.(version := VersionOf(v[7]))) else (Rejected, r2)
  }

  function SetTarget(r: Request, target: Text): Request {
    var question := Find(target, '?', 0, |target|);
    if question < |target| then r.(query := target[question + 1..], path := target[..question])
    else r.(path := target[..question])
  }

  function AddHeader(r: Request, line: Text, colon: nat): Request
    requires colon < |line|
  {
    r.(headers := r.headers[line[..colon] := Trim(line[colon + 1..])])
  }

  function Rank(s: ParseState): nat {
    match s case ExpectRequestLine => 3 case ExpectHeaders => 2 case ExpectBody => 1 case GotAll => 0
  }

  /** The result, the context and the bytes left in the buffer. */
  function Parse(c: Context, s: Text, now: int): (LineResult, Context, Text)
    requires c.state != GotAll
    decreases |s|, Rank(c.state)
  {
    match c.state
    case ExpectRequestLine =>
      (match FindCRLF(s, 0)
       case Missing => (Rejected, c, s)
       case At(k) =>
         var (ok, r) := ParseLine(c.request, s[..k]);
         if ok == Parsed then Parse(Context(r.(receiveTime := now), ExpectHeaders), s[k + 2..], now)
         else (ok, Context(r, ExpectRequestLine), s))
    case ExpectHeaders =>
      (match FindCRLF(s, 0)
       case Missing => (Parsed, c, s)
       case At(k) =>
         var colon := Find(s, ':', 0, k);
         if colon < k then Parse(Context(AddHeader(c.request, s[..k], colon), ExpectHeaders), s[k + 2..], now)
         else Parse(c.(state := ExpectBody), s[k + 2..], now))
    case ExpectBody => (Parsed, Context(c.request.(body := s), GotAll), [])
  }

  lemma CRLFStable(a: Text, b: Text)
    requires FindCRLF(a, 0).At?
    ensures FindCRLF(a + b, 0) == FindCRLF(a, 0)
  {
    var k, r := FindCRLF(a, 0).index, FindCRLF(a + b, 0);
    FindCRLFFirst(a, 0);
    FindCRLFFirst(a + b, 0);
    assert CRLFAt(a + b, k);
    if r.At? && r.index < k { assert CRLFAt(a, r.index); }
  }

  lemma {:induction false} FindStable(a: Text, b: Text, c: char, from: nat, end: nat)
    requires from <= end <= |a|
    ensures Find(a + b, c, from, end) == Find(a, c, from, end)
    decreases end - from
  {
    if from == end || a[from] == c {
    } else {
      FindStable(a, b, c, from + 1, end);
    }
  }

  /** One line of the header section. */
  lemma {:induction false} HeaderStep(r: Request, s: Text, now: int)
    requires FindCRLF(s, 0).At?
    ensures var k := FindCRLF(s, 0).index; var colon := Find(s, ':', 0, k);
            Parse(Context(r, ExpectHeaders), s, now) ==
              if colon < k then Parse(Context(AddHeader(r, s[..k], colon), ExpectHeaders), s[k + 2..], now)
              else (Parsed, Context(r.(body := s[k + 2..]), GotAll), [])
  {}

  /** The request line. */
  lemma RequestLineStep(r: Request, s: Text, now: int)
    requires FindCRLF(s, 0).At?
    ensures var k := FindCRLF(s, 0).index; var (ok, r') := ParseLine(r, s[..k]);
            Parse(Context(r, ExpectRequestLine), s, now) ==
              if ok == Parsed then Parse(Context(r'.(receiveTime := now), ExpectHeaders), s[k + 2..], now)
              else (ok, Context(r', ExpectRequestLine), s)
  {}

  /** More input does not change the first line. */
  lemma FirstLineStable(a: Text, b: Text)
    requires FindCRLF(a, 0).At?
    ensures var k := FindCRLF(a, 0).index;
            FindCRLF(a + b, 0) == At(k) && Find(a + b, ':', 0, k) == Find(a, ':', 0, k) &&
            (a + b)[..k] == a[..k] && (a + b)[k + 2..] == a[k + 2..] + b
  {
    CRLFStable(a, b);
    FindStable(a, b, ':', 0, FindCRLF(a, 0).index);
  }

  /** A header line in front of the cut is read alike with and without what follows. */
  lemma {:induction false} ChunkStep(r: Request, a: Text, b: Text, k: nat, now: int)
    requires FindCRLF(a, 0) == At(k) && Find(a, ':', 0, k) < k
    ensures var r' := AddHeader(r, a[..k], Find(a, ':', 0, k));
            Parse(Context(r, ExpectHeaders), a, now) == Parse(Context(r', ExpectHeaders), a[k + 2..], now) &&
            Parse(Context(r, ExpectHeaders), a + b, now) == Parse(Context(r', ExpectHeaders), a[k + 2..] + b, now)
  {
    HeaderStep(r, a, now);
    FirstLineStable(a, b);
    HeaderStep(r, a + b, now);
  }

  lemma HeadersContinue(r: Request, a: Text, k: nat, now: int)
    requires FindCRLF(a, 0) == At(k) && Parse(Context(r, ExpectHeaders), a, now).1.state == ExpectHeaders
    ensures Find(a, ':', 0, k) < k
  {
    HeaderStep(r, a, now);
  }

  lemma {:induction false} ChunkedHeaders(r: Request, a: Text, b: Text, now: int)
    requires Parse(Context(r, ExpectHeaders), a, now).1.state == ExpectHeaders
    ensures Parse(Context(r, ExpectHeaders), a + b, now) ==
            Parse(Parse(Context(r, ExpectHeaders), a, now).1, Parse(Context(r, ExpectHeaders), a, now).2 + b, now)
    decreases |a|
  {
    if FindCRLF(a, 0).Missing? {
    } else {
      var k := FindCRLF(a, 0).index;
      HeadersContinue(r, a, k, now);
      ChunkStep(r, a, b, k, now);
      ChunkedHeaders(AddHeader(r, a[..k], Find(a, ':', 0, k)), a[k + 2..], b, now);
    }
  }

  /** The request line in front of the cut is read alike with and without what follows. */
  lemma {:induction false} ChunkLine(r: Request, a: Text, b: Text, k: nat, now: int)
    requires FindCRLF(a, 0) == At(k) && ParseLine(r, a[..k]).0 == Parsed
    ensures var r' := ParseLine(r, a[..k]).1.(receiveTime := now);
            Parse(Context(r, ExpectRequestLine), a, now) == Parse(Context(r', ExpectHeaders), a[k + 2..], now) &&
            Parse(Context(r, ExpectRequestLine), a + b, now) == Parse(Context(r', ExpectHeaders), a[k + 2..] + b, now)
  {
    RequestLineStep(r, a, now);
    FirstLineStable(a, b);
    RequestLineStep(r, a + b, now);
  }

  lemma {:induction false} LineParsed(r: Request, a: Text, now: int)
    requires Parse(Context(r, ExpectRequestLine), a, now).1.state == ExpectHeaders
    ensures FindCRLF(a, 0).At? && ParseLine(r, a[..FindCRLF(a, 0).index]).0 == Parsed
  {
    if FindCRLF(a, 0).At? { RequestLineStep(r, a, now); }
  }

  /** Input that stops inside the header section can be parsed in two pieces. */
  lemma {:induction false} Chunked(c: Context, a: Text, b: Text, now: int)
    requires c.state == ExpectRequestLine || c.state == ExpectHeaders
    requires Parse(c, a, now).1.state == ExpectHeaders
    ensures Parse(c, a + b, now) == Parse(Parse(c, a, now).1, Parse(c, a, now).2 + b, now)
  {
    if c.state == ExpectHeaders {
      ChunkedHeaders(c.request, a, b, now);
    } else {
      LineParsed(c.request, a, now);
      var k := FindCRLF(a, 0).index;
      ChunkLine(c.request, a, b, k, now);
      ChunkedHeaders(ParseLine(c.request, a[..k]).1.(receiveTime := now), a[k + 2..], b, now);
    }
  }

  lemma ChunkedText(c: Context, a: Text, b: Text, whole: Text, now: int)
    requires (c.state == ExpectRequestLine || c.state == ExpectHeaders) && whole == a + b
    requires Parse(c, a, now).1.state == ExpectHeaders
    ensures Parse(Parse(c, a, now).1, Parse(c, a, now).2 + b, now) == Parse(c, whole, now)
  {
    Chunked(c, a, b, now);
  }

  /** A field line: name ":" blanks value blanks. */
  datatype Field = Field(name: Text, before: Text, value: Text, after: Text)

  datatype Target = Path(path: Text) | PathQuery(path: Text, query: Text)

  datatype Message = Message(method_: Method, target: Target, version: Version, fields: seq<Field>, body: Text)

  function MethodText(m: Method): Text
    requires m != Invalid
  {
    match m case Get => "GET" case Post => "POST" case Head => "HEAD" case Put => "PUT" case Delete => "DELETE"
  }

  function VersionChar(v: Version): Byte
    requires v != Unknown
  {
    if v == Http10 then '0' else '1'
  }

  function VersionText(v: Version): Text
    requires v != Unknown
  {
    "HTTP/1." + [VersionChar(v)]
  }

  function TargetText(t: Target): Text {
    match t case Path(p) => p case PathQuery(p, q) => p + ['?'] + q
  }

  function RequestLine(m: Message): Text
    requires m.method_ != Invalid && m.version != Unknown
  {
    MethodText(m.method_) + [' '] + TargetText(m.target) + [' '] + VersionText(m.version)
  }

  function FieldLine(f: Field): Text { f.name + [':'] + f.before + f.value + f.after }

  function FieldLines(fields: seq<Field>): Text {
    if fields == [] then [] else FieldLine(fields[0]) + CRLF + FieldLines(fields[1..])
  }

  function Render(m: Message): Text
    requires m.method_ != Invalid && m.version != Unknown
  {
    RequestLine(m) + CRLF + (FieldLines(m.fields) + CRLF + m.body)
  }

  ghost predicate NoCRLF(s: Text) { forall i :: 0 <= i < |s| - 1 ==> !(s[i] == '\r' && s[i + 1] == '\n') }

  ghost predicate Blank(s: Text) { forall i :: 0 <= i < |s| ==> IsSpace(s[i]) }

  ghost predicate FieldOk(f: Field) {
    ':' !in f.name && NoCRLF(FieldLine(f)) && Blank(f.before) && Blank(f.after) &&
    (f.value != [] ==> !IsSpace(f.value[0]) && !IsSpace(f.value[|f.value| - 1]))
  }

  ghost predicate WellFormed(m: Message) {
    m.method_ != Invalid && m.version != Unknown && NoCRLF(RequestLine(m)) &&
    ' ' !in TargetText(m.target) && '?' !in m.target.path &&
    forall f :: f in m.fields ==> FieldOk(f)
  }

  /** The header map that the fields denote; a repeated name keeps its last value. */
  function HeaderMap(h: map<Text, Text>, fields: seq<Field>): map<Text, Text>
    decreases |fields|
  {
    if fields == [] then h else HeaderMap(h[fields[0].name := fields[0].value], fields[1..])
  }

  function Query(t: Target): Text { if t.Path? then [] else t.query }

  lemma LineEnd(line: Text, rest: Text)
    requires NoCRLF(line)
    ensures FindCRLF(line + CRLF + rest, 0) == At(|line|)
  {
    var s := line + CRLF + rest;
    FindCRLFFirst(s, 0);
    assert CRLFAt(s, |line|);
    forall i: nat | i < |line| ensures !CRLFAt(s, i) {
      assert s[i] == line[i] && (i + 1 < |line| ==> s[i + 1] == line[i + 1]);
    }
  }

  lemma FindAt(s: Text, c: char, from: nat, k: nat, end: nat)
    requires from <= k < end <= |s| && s[k] == c && forall j :: from <= j < k ==> s[j] != c
    ensures Find(s, c, from, end) == k
  {
    FindFirst(s, c, from, end);
  }

  lemma FindNone(s: Text, c: char)
    requires c !in s
    ensures Find(s, c, 0, |s|) == |s|
  {
    FindFirst(s, c, 0, |s|);
  }

  lemma TrimBlank(before: Text, value: Text, after: Text)
    requires Blank(before) && Blank(after)
    requires value != [] ==> !IsSpace(value[0]) && !IsSpace(value[|value| - 1])
    ensures Trim(before + value + after) == value
  {
    TrimLeftBlank(before, value + after);
    assert before + value + after == before + (value + after);
    if value == [] {
      TrimLeftBlank(after, []);
      assert after + [] == after && value + after == after;
    } else {
      TrimRightBlank(value, after);
    }
  }

  lemma {:induction false} TrimLeftBlank(blank: Text, rest: Text)
    requires Blank(blank)
    ensures TrimLeft(blank + rest) == TrimLeft(rest)
  {
    if blank == [] {
      assert blank + rest == rest;
    } else {
      TrimLeftBlank(blank[1..], rest);
      assert (blank + rest)[1..] == blank[1..] + rest;
    }
  }

  lemma {:induction false} TrimRightBlank(value: Text, blank: Text)
    requires Blank(blank) && value != [] && !IsSpace(value[|value| - 1])
    ensures TrimRight(value + blank) == value
  {
    if blank == [] {
      assert value + blank == value;
    } else {
      var b := blank[..|blank| - 1];
      TrimRightBlank(value, b);
      assert (value + blank)[..|value + blank| - 1] == value + b;
    }
  }

  lemma ParseField(f: Field)
    requires FieldOk(f)
    ensures var line := FieldLine(f);
            Find(line, ':', 0, |line|) == |f.name| < |line| &&
            forall r :: AddHeader(r, line, |f.name|) == r.(headers := r.headers[f.name := f.value])
  {
    var line := FieldLine(f);
    FindAt(line, ':', 0, |f.name|, |line|);
    assert line[..|f.name|] == f.name && line[|f.name| + 1..] == f.before + f.value + f.after;
    TrimBlank(f.before, f.value, f.after);
  }

  lemma FieldStep(r: Request, f: Field, rest: Text, now: int)
    requires FieldOk(f)
    ensures Parse(Context(r, ExpectHeaders), FieldLine(f) + CRLF + rest, now)
            == Parse(Context(r.(headers := r.headers[f.name := f.value]), ExpectHeaders), rest, now)
  {
    var line := FieldLine(f);
    var s := line + CRLF + rest;
    LineEnd(line, rest);
    ParseField(f);
    assert s == line + (CRLF + rest);
    FindStable(line, CRLF + rest, ':', 0, |line|);
    HeaderStep(r, s, now);
    assert s[..|line|] == line && s[|line| + 2..] == rest;
  }

  /** The header section and the body after it are read back. */
  lemma {:induction false} ParseFields(r: Request, fields: seq<Field>, body: Text, now: int)
    requires forall f :: f in fields ==> FieldOk(f)
    ensures Parse(Context(r, ExpectHeaders), FieldLines(fields) + CRLF + body, now)
            == (Parsed, Context(r.(headers := HeaderMap(r.headers, fields), body := body), GotAll), [])
    decreases |fields|
  {
    var s := FieldLines(fields) + CRLF + body;
    if fields == [] {
      assert s == [] + CRLF + body;
      LineEnd([], body);
      HeaderStep(r, s, now);
      assert s[2..] == body;
    } else {
      var f, rest := fields[0], FieldLines(fields[1..]) + CRLF + body;
      assert f in fields;
      assert s == FieldLine(f) + CRLF + rest;
      FieldStep(r, f, rest, now);
      ParseFields(r.(headers := r.headers[f.name := f.value]), fields[1..], body, now);
    }
  }

  /** What the request line of a message leaves in the request. */
  function LineParts(m: Message): Request {
    EMPTY_REQUEST.(method_ := m.method_, version := m.version, path := m.target.path, query := Query(m.target))
  }

  /** A target without a query leaves the query as it was. */
  lemma ParseTarget(r: Request, t: Target)
    requires '?' !in t.path
    ensures SetTarget(r, TargetText(t)) == r.(path := t.path, query := if t.PathQuery? then t.query else r.query)
  {
    var s := TargetText(t);
    if t.PathQuery? {
      FindAt(s, '?', 0, |t.path|, |s|);
      assert s[..|t.path|] == t.path && s[|t.path| + 1..] == t.query;
    } else {
      FindNone(s, '?');
      assert s[..|s|] == s;
    }
  }

  lemma MethodRoundTrip(m: Method)
    requires m != Invalid
    ensures MethodOf(MethodText(m)) == m && ' ' !in MethodText(m)
  {}

  /** The two spaces of a request line, and what lies between and after them. */
  lemma LineSpaces(first: Text, second: Text, third: Text)
    requires ' ' !in first && ' ' !in second
    ensures var line := first + [' '] + second + [' '] + third;
            var target := |first| + 1; var space2 := target + |second|;
            Find(line, ' ', 0, |line|) == |first| && Find(line, ' ', target, |line|) == space2 &&
            line[..|first|] == first && line[target..space2] == second && line[space2 + 1..] == third
  {
    var line := first + [' '] + second + [' '] + third;
    FindAt(line, ' ', 0, |first|, |line|);
    var target := |first| + 1;
    assert forall j :: target <= j < target + |second| ==> line[j] == second[j - target];
    FindAt(line, ' ', target, target + |second|, |line|);
  }

  /** What a well-formed request line sets in a request. */
  function LineSet(r: Request, m: Message): Request {
    r.(method_ := m.method_, version := m.version, path := m.target.path,
       query := if m.target.PathQuery? then m.target.query else r.query)
  }

  lemma ParseRequestLine(r: Request, m: Message)
    requires WellFormed(m)
    ensures ParseLine(r, RequestLine(m)) == (Parsed, LineSet(r, m))
  {
    MethodRoundTrip(m.method_);
    VersionRoundTrip(m.version);
    ParseParts(r, MethodText(m.method_), TargetText(m.target), VersionText(m.version));
    ParseTarget(r.(method_ := m.method_), m.target);
  }

  lemma ParseParts(r: Request, first: Text, second: Text, third: Text)
    requires ' ' !in first && ' ' !in second && MethodOf(first) != Invalid
    requires |third| == 8 && third[..7] == "HTTP/1." && VersionOf(third[7]) != Unknown
    ensures ParseLine(r, first + [' '] + second + [' '] + third) ==
            (Parsed, SetTarget(r.(method_ := MethodOf(first)), second).(version := VersionOf(third[7])))
  {
    LineSpaces(first, second, third);
  }

  lemma VersionRoundTrip(v: Version)
    requires v != Unknown
    ensures var t := VersionText(v); |t| == 8 && t[..7] == "HTTP/1." && VersionOf(t[7]) == v
  {}

  lemma AfterRequestLine(r: Request, m: Message, tail: Text, now: int)
    requires WellFormed(m)
    ensures Parse(Context(r, ExpectRequestLine), RequestLine(m) + CRLF + tail, now)
            == Parse(Context(LineSet(r, m).(receiveTime := now), ExpectHeaders), tail, now)
  {
    var line := RequestLine(m);
    var s := line + CRLF + tail;
    LineEnd(line, tail);
    ParseRequestLine(r, m);
    RequestLineStep(r, s, now);
    assert s[..|line|] == line && s[|line| + 2..] == tail;
  }

  /** Parsing inverts rendering: every well-formed request is read back whole. */
  lemma ParseInvertsRender(m: Message, now: int)
    requires WellFormed(m)
    ensures Parse(FRESH, Render(m), now) ==
              (Parsed, Context(LineParts(m).(receiveTime := now, headers := HeaderMap(map[], m.fields), body := m.body), GotAll), [])
  {
    AfterRequestLine(EMPTY_REQUEST, m, FieldLines(m.fields) + CRLF + m.body, now);
    ParseFields(LineParts(m).(receiveTime := now), m.fields, m.body, now);
  }

  lemma NoLineYet(line: Text, rest: Text, q: nat)
    requires NoCRLF(line) && q < |line| + 2
    ensures FindCRLF((line + CRLF + rest)[..q], 0) == Missing
  {
    var s := line + CRLF + rest;
    var r := FindCRLF(s[..q], 0);
    if r.At? {
      CRLFStable(s[..q], s[q..]);
      assert s[..q] + s[q..] == s;
      LineEnd(line, rest);
    }
  }

  /** A header section cut before the end of its blank line is not yet complete. */
  lemma {:induction false} CutHeaders(r: Request, fields: seq<Field>, body: Text, q: nat, now: int)
    requires (forall f :: f in fields ==> FieldOk(f)) && q < |FieldLines(fields)| + 2
    ensures var (ok, c, _) := Parse(Context(r, ExpectHeaders), (FieldLines(fields) + CRLF + body)[..q], now);
            ok == Parsed && c.state == ExpectHeaders
    decreases |fields|
  {
    var s := FieldLines(fields) + CRLF + body;
    if fields == [] {
      assert s == [] + CRLF + body;
      NoLineYet([], body, q);
    } else {
      var f, rest := fields[0], FieldLines(fields[1..]) + CRLF + body;
      var line := FieldLine(f);
      assert f in fields;
      assert s == line + CRLF + rest;
      if q < |line| + 2 {
        NoLineYet(line, rest, q);
      } else {
        var q' := q - |line| - 2;
        assert s[..q] == line + CRLF + rest[..q'];
        FieldStep(r, f, rest[..q'], now);
        CutHeaders(r.(headers := r.headers[f.name := f.value]), fields[1..], body, q', now);
      }
    }
  }

  lemma {:induction false} FirstPiece(m: Message, q: nat, text: Text, now: int)
    requires WellFormed(m) && q < |FieldLines(m.fields)| + 2
    requires text == RequestLine(m) + CRLF + (FieldLines(m.fields) + CRLF + m.body)[..q]
    ensures Parse(FRESH, text, now).0 == Parsed && Parse(FRESH, text, now).1.state == ExpectHeaders
  {
    var tail := FieldLines(m.fields) + CRLF + m.body;
    AfterRequestLine(EMPTY_REQUEST, m, tail[..q], now);
    CutHeaders(LineParts(m).(receiveTime := now), m.fields, m.body, q, now);
  }

  lemma {:induction false} CutRender(m: Message, cut: nat)
    requires m.method_ != Invalid && m.version != Unknown
    requires |RequestLine(m)| + 2 <= cut <= |Render(m)|
    ensures var tail := FieldLines(m.fields) + CRLF + m.body;
            Render(m)[..cut] == RequestLine(m) + CRLF + tail[..cut - |RequestLine(m)| - 2]
  {}

  /** Where the body of a rendered message begins. */
  function BodyStart(m: Message): nat
    requires m.method_ != Invalid && m.version != Unknown
  {
    |RequestLine(m)| + 2 + |FieldLines(m.fields)| + 2
  }

  /** The request that a message denotes, with this much of its body. */
  function Denoted(m: Message, body: Text, now: int): Request {
    LineParts(m).(receiveTime := now, headers := HeaderMap(map[], m.fields), body := body)
  }

  /** Input that ends inside the request line is an error and changes nothing. */
  lemma CutInLine(m: Message, cut: nat, now: int)
    requires WellFormed(m) && cut < |RequestLine(m)| + 2
    ensures cut <= |Render(m)| && Parse(FRESH, Render(m)[..cut], now) == (Rejected, FRESH, Render(m)[..cut])
  {
    NoLineYet(RequestLine(m), FieldLines(m.fields) + CRLF + m.body, cut);
  }

  /** Input that ends after the blank line is taken for the whole request. */
  lemma CutInBody(m: Message, cut: nat, now: int)
    requires WellFormed(m) && BodyStart(m) <= cut <= |Render(m)|
    ensures cut - BodyStart(m) <= |m.body|
    ensures Parse(FRESH, Render(m)[..cut], now) ==
              (Parsed, Context(Denoted(m, m.body[..cut - BodyStart(m)], now), GotAll), [])
  {
    var short := m.(body := m.body[..cut - BodyStart(m)]);
    assert Render(m)[..cut] == Render(short);
    ParseInvertsRender(short, now);
  }

  lemma {:induction false} CutInHeaders(m: Message, cut: nat, now: int)
    requires WellFormed(m) && |RequestLine(m)| + 2 <= cut < BodyStart(m)
    ensures cut <= |Render(m)|
    ensures Parse(FRESH, Render(m)[..cut], now).0 == Parsed
    ensures Parse(FRESH, Render(m)[..cut], now).1.state == ExpectHeaders
  {
    CutRender(m, cut);
    FirstPiece(m, cut - |RequestLine(m)| - 2, Render(m)[..cut], now);
  }

  /** A request that arrives in two pieces, cut anywhere between its request line
      and the end of its blank line, is read back whole too. */
  lemma ParseInTwoPieces(m: Message, cut: nat, now: int)
    requires WellFormed(m) && |RequestLine(m)| + 2 <= cut < BodyStart(m)
    ensures cut <= |Render(m)|
    ensures var first := Parse(FRESH, Render(m)[..cut], now);
            first.0 == Parsed && first.1.state == ExpectHeaders &&
            Parse(first.1, first.2 + Render(m)[cut..], now) == Parse(FRESH, Render(m), now)
  {
    CutInHeaders(m, cut, now);
    JoinedText(Render(m), cut, now);
  }

  lemma JoinedText(s: Text, cut: nat, now: int)
    requires cut <= |s| && Parse(FRESH, s[..cut], now).1.state == ExpectHeaders
    ensures var first := Parse(FRESH, s[..cut], now);
            Parse(first.1, first.2 + s[cut..], now) == Parse(FRESH, s, now)
  {
    assert s[..cut] + s[cut..] == s;
    ChunkedText(FRESH, s[..cut], s[cut..], s, now);
  }

  /** The parser waits for more exactly inside the header section, and has the whole
      request exactly at the end. */
  lemma CutIff(m: Message, cut: nat, now: int)
    requires WellFormed(m) && cut <= |Render(m)|
    ensures Parse(FRESH, Render(m)[..cut], now).1.state == ExpectHeaders <==> |RequestLine(m)| + 2 <= cut < BodyStart(m)
    ensures Parse(FRESH, Render(m)[..cut], now) == Parse(FRESH, Render(m), now) <==> cut == |Render(m)|
  {
    ParseInvertsRender(m, now);
    if cut < |RequestLine(m)| + 2 {
      CutInLine(m, cut, now);
    } else if cut < BodyStart(m) {
      CutInHeaders(m, cut, now);
    } else {
      CutInBody(m, cut, now);
      assert Render(m)[..|Render(m)|] == Render(m);
    }
  }

  function Concat(pieces: seq<Text>): Text {
    if pieces == [] then [] else Concat(pieces[..|pieces| - 1]) + pieces[|pieces| - 1]
  }

  /** Parsing after every arrival, until the request is complete or in error. */
  function Receive(c: Context, left: Text, pieces: seq<Text>, now: int): (LineResult, Context, Text)
    requires c.state != GotAll && pieces != []
    decreases |pieces|
  {
    var (ok, c1, rest) := Parse(c, left + pieces[0], now);
    if |pieces| == 1 || c1.state != ExpectHeaders then (ok, c1, rest) else Receive(c1, rest, pieces[1..], now)
  }

  /** The state of receiving after i pieces: over with the result, or still to give it. */
  ghost predicate Receiving(ok: LineResult, c: Context, left: Text, pieces: seq<Text>, i: nat, now: int)
    requires 0 < i <= |pieces|
  {
    if i == |pieces| || c.state != ExpectHeaders then (ok, c, left) == Receive(FRESH, [], pieces, now)
    else Receive(c, left, pieces[i..], now) == Receive(FRESH, [], pieces, now)
  }

  lemma ReceivingStep(ok: LineResult, c: Context, left: Text, pieces: seq<Text>, i: nat, now: int)
    requires 0 < i < |pieces| && c.state == ExpectHeaders && Receiving(ok, c, left, pieces, i, now)
    ensures var (ok', c', left') := Parse(c, left + pieces[i], now); Receiving(ok', c', left', pieces, i + 1, now)
  {
    assert pieces[i..][0] == pieces[i] && pieces[i..][1..] == pieces[i + 1..];
  }

  /** The parser is still reading headers after each of the first k pieces but the last. */
  ghost predicate StillHeaders(c: Context, left: Text, pieces: seq<Text>, k: nat, now: int)
    requires c.state != GotAll && k <= |pieces|
  {
    forall i :: 0 < i < k ==> Parse(c, left + Concat(pieces[..i]), now).1.state == ExpectHeaders
  }

  lemma {:induction false} ConcatCons(piece: Text, pieces: seq<Text>)
    ensures Concat([piece] + pieces) == piece + Concat(pieces)
  {
    if pieces == [] {
      assert [piece][..0] == [];
    } else {
      var n := |pieces| - 1;
      ConcatCons(piece, pieces[..n]);
      assert ([piece] + pieces)[..n + 1] == [piece] + pieces[..n];
    }
  }

  lemma SplitPieces(left: Text, pieces: seq<Text>, i: nat)
    requires 0 < i < |pieces|
    ensures left + Concat(pieces[..i + 1]) == (left + pieces[0]) + Concat(pieces[1..][..i])
  {
    ConcatCons(pieces[0], pieces[1..][..i]);
    assert pieces[..i + 1] == [pieces[0]] + pieces[1..][..i];
  }

  /** What was read and what is left carry on where the whole input would. */
  lemma Resumes(c: Context, left: Text, pieces: seq<Text>, i: nat, now: int)
    requires (c.state == ExpectRequestLine || c.state == ExpectHeaders) && 0 < i < |pieces|
    requires Parse(c, left + pieces[0], now).1.state == ExpectHeaders
    ensures var first := Parse(c, left + pieces[0], now);
            Parse(first.1, first.2 + Concat(pieces[1..][..i]), now) == Parse(c, left + Concat(pieces[..i + 1]), now)
  {
    SplitPieces(left, pieces, i);
    ChunkedText(c, left + pieces[0], Concat(pieces[1..][..i]), left + Concat(pieces[..i + 1]), now);
  }

  /** Receiving stops with the first k pieces that leave the header section, or with all
      of them, and gives what those pieces would give in one. */
  lemma {:induction false} ReceivesPrefix(c: Context, left: Text, pieces: seq<Text>, k: nat, now: int)
    requires (c.state == ExpectRequestLine || c.state == ExpectHeaders) && 0 < k <= |pieces|
    requires StillHeaders(c, left, pieces, k, now)
    requires k == |pieces| || Parse(c, left + Concat(pieces[..k]), now).1.state != ExpectHeaders
    ensures Receive(c, left, pieces, now) == Parse(c, left + Concat(pieces[..k]), now)
    decreases |pieces|
  {
    FirstPieces(pieces);
    if k == 1 {
    } else {
      var first := Parse(c, left + pieces[0], now);
      assert Parse(c, left + Concat(pieces[..1]), now).1.state == ExpectHeaders;
      StillHeadersAfter(c, left, pieces, k, now);
      Resumes(c, left, pieces, k - 1, now);
      ReceivesPrefix(first.1, first.2, pieces[1..], k - 1, now);
    }
  }

  lemma StillHeadersAfter(c: Context, left: Text, pieces: seq<Text>, k: nat, now: int)
    requires (c.state == ExpectRequestLine || c.state == ExpectHeaders) && 1 < k <= |pieces|
    requires StillHeaders(c, left, pieces, k, now) && Parse(c, left + pieces[0], now).1.state == ExpectHeaders
    ensures var first := Parse(c, left + pieces[0], now);
            StillHeaders(first.1, first.2, pieces[1..], k - 1, now)
  {
    forall i | 0 < i < k - 1
      ensures var first := Parse(c, left + pieces[0], now);
              Parse(first.1, first.2 + Concat(pieces[1..][..i]), now).1.state == ExpectHeaders
    {
      Resumes(c, left, pieces, i, now);
    }
  }

  lemma FirstPieces(pieces: seq<Text>)
    requires pieces != []
    ensures Concat(pieces[..1]) == pieces[0]
  {
    assert pieces[..1][..0] == [];
  }

  /** A cut is harmless inside the header section and after the last byte. */
  predicate Harmless(m: Message, cut: nat)
    requires m.method_ != Invalid && m.version != Unknown
  {
    |RequestLine(m)| + 2 <= cut < BodyStart(m) || cut == |Render(m)|
  }

  /** The first index from k on where p fails, or n. */
  ghost function FirstNot(p: nat -> bool, k: nat, n: nat): (r: nat)
    requires k <= n
    ensures k <= r <= n && (forall i: nat :: k <= i < r ==> p(i)) && (r == n || !p(r))
    decreases n - k
  {
    if k == n || !p(k) then k else FirstNot(p, k + 1, n)
  }

  ghost predicate InHeaders(c: Context, left: Text, pieces: seq<Text>, i: nat, now: int)
    requires c.state != GotAll
  {
    i <= |pieces| && Parse(c, left + Concat(pieces[..i]), now).1.state == ExpectHeaders
  }

  /** The number of pieces that receiving takes. */
  lemma TakenPieces(c: Context, left: Text, pieces: seq<Text>, now: int) returns (k: nat)
    requires c.state != GotAll && pieces != []
    ensures 0 < k <= |pieces| && StillHeaders(c, left, pieces, k, now)
    ensures k == |pieces| || Parse(c, left + Concat(pieces[..k]), now).1.state != ExpectHeaders
  {
    var p := (i: nat) => InHeaders(c, left, pieces, i, now);
    k := FirstNot(p, 1, |pieces|);
    forall i | 0 < i < k ensures Parse(c, left + Concat(pieces[..i]), now).1.state == ExpectHeaders {
      assert p(i);
      assert InHeaders(c, left, pieces, i, now);
    }
    assert k == |pieces| || !p(k);
  }

  lemma {:induction false} ConcatPrefix(pieces: seq<Text>, i: nat, j: nat)
    requires i <= j <= |pieces|
    ensures |Concat(pieces[..i])| <= |Concat(pieces[..j])|
    ensures Concat(pieces[..j])[..|Concat(pieces[..i])|] == Concat(pieces[..i])
    decreases j - i
  {
    if i == j {
    } else {
      ConcatPrefix(pieces, i, j - 1);
      assert pieces[..j][..j - 1] == pieces[..j - 1];
      assert Concat(pieces[..j])[..|Concat(pieces[..j - 1])|] == Concat(pieces[..j - 1]);
    }
  }

  /** What the pieces up to i give, by where they end. */
  lemma PrefixIff(m: Message, pieces: seq<Text>, i: nat, now: int)
    requires WellFormed(m) && Concat(pieces) == Render(m) && i <= |pieces|
    ensures var cut := |Concat(pieces[..i])|;
            cut <= |Render(m)| &&
            (Parse(FRESH, [] + Concat(pieces[..i]), now).1.state == ExpectHeaders
             <==> |RequestLine(m)| + 2 <= cut < BodyStart(m)) &&
            (Parse(FRESH, [] + Concat(pieces[..i]), now) == Parse(FRESH, Render(m), now) <==> cut == |Render(m)|)
  {
    ConcatPrefix(pieces, i, |pieces|);
    assert pieces[..|pieces|] == pieces;
    assert [] + Concat(pieces[..i]) == Render(m)[..|Concat(pieces[..i])|];
    CutIff(m, |Concat(pieces[..i])|, now);
  }

  /** A request that arrives in any number of pieces is read back whole exactly if every
      cut is inside the header section or after the last byte. */
  lemma ReceivedWholeIff(m: Message, pieces: seq<Text>, now: int)
    requires WellFormed(m) && pieces != [] && Concat(pieces) == Render(m)
    ensures Receive(FRESH, [], pieces, now) == Parse(FRESH, Render(m), now) <==>
            forall i :: 0 < i < |pieces| ==> Harmless(m, |Concat(pieces[..i])|)
  {
    var k := TakenPieces(FRESH, [], pieces, now);
    ReceivesPrefix(FRESH, [], pieces, k, now);
    PrefixIff(m, pieces, k, now);
    assert pieces[..|pieces|] == pieces;
    if |Concat(pieces[..k])| == |Render(m)| {
      forall i | 0 < i < |pieces| ensures Harmless(m, |Concat(pieces[..i])|) {
        PrefixIff(m, pieces, i, now);
        if k <= i { ConcatPrefix(pieces, k, i); }
      }
    }
  }

  /** Two arrivals, by where the first one ends. */
  lemma TwoPiecesIff(m: Message, cut: nat, now: int)
    requires WellFormed(m) && cut <= |Render(m)|
    ensures Receive(FRESH, [], [Render(m)[..cut], Render(m)[cut..]], now) == Parse(FRESH, Render(m), now) <==>
            Harmless(m, cut)
  {
    var a, b := Render(m)[..cut], Render(m)[cut..];
    FirstPieces([a, b]);
    assert [a, b][..1] == [a] && Concat([a, b]) == a + b == Render(m);
    ReceivedWholeIff(m, [a, b], now);
  }

  /** A first arrival that ends inside the request line: rejected, whatever follows. */
  lemma CutLineRejected(m: Message, cut: nat, now: int)
    requires WellFormed(m) && cut < |RequestLine(m)| + 2
    ensures cut <= |Render(m)|
    ensures Receive(FRESH, [], [Render(m)[..cut], Render(m)[cut..]], now) == (Rejected, FRESH, Render(m)[..cut])
  {
    CutInLine(m, cut, now);
    assert [] + Render(m)[..cut] == Render(m)[..cut];
  }

  /** A line that ends where the version should begin: a known method and a space, then no
      further space, or one with nothing after it. */
  ghost predicate NoVersion(line: Text) {
    exists m, rest :: m != Invalid && line == MethodText(m) + [' '] + rest && EndsEarly(rest)
  }

  predicate EndsEarly(rest: Text) { ' ' !in rest || (rest[|rest| - 1] == ' ' && ' ' !in rest[..|rest| - 1]) }

  lemma MethodOfText(s: Text)
    requires MethodOf(s) != Invalid
    ensures MethodText(MethodOf(s)) == s
  {}

  /** Exactly those lines make parseRequestLine throw. */
  lemma ThrowsIff(r: Request, line: Text)
    ensures ParseLine(r, line).0 == Thrown <==> NoVersion(line)
  {
    if ParseLine(r, line).0 == Thrown { ThrownHasNoVersion(r, line); }
    if NoVersion(line) {
      var m, rest :| m != Invalid && line == MethodText(m) + [' '] + rest && EndsEarly(rest);
      NoVersionThrows(r, m, rest);
    }
  }

  lemma ThrownHasNoVersion(r: Request, line: Text)
    requires ParseLine(r, line).0 == Thrown
    ensures NoVersion(line)
  {
    var n := |line|;
    var space := Find(line, ' ', 0, n);
    FindFirst(line, ' ', 0, n);
    var m, rest := MethodOf(line[..space]), line[space + 1..];
    MethodOfText(line[..space]);
    assert line == line[..space] + [' '] + rest;
    LastSpace(line, space + 1);
  }

  lemma LastSpace(line: Text, start: nat)
    requires start <= |line| && Find(line, ' ', start, |line|) + 2 > |line|
    ensures EndsEarly(line[start..])
  {
    FindFirst(line, ' ', start, |line|);
    var rest := line[start..];
    assert forall i :: 0 <= i < |rest| ==> rest[i] == line[start + i];
  }

  lemma NoVersionThrows(r: Request, m: Method, rest: Text)
    requires m != Invalid && EndsEarly(rest)
    ensures ParseLine(r, MethodText(m) + [' '] + rest).0 == Thrown
  {
    var line, start := MethodText(m) + [' '] + rest, |MethodText(m)| + 1;
    MethodRoundTrip(m);
    FindAt(line, ' ', 0, start - 1, |line|);
    assert line[..start - 1] == MethodText(m) && line[start..] == rest;
    NoMiddleSpace(line, start);
  }

  lemma NoMiddleSpace(line: Text, start: nat)
    requires start <= |line| && EndsEarly(line[start..])
    ensures Find(line, ' ', start, |line|) + 2 > |line|
  {
    FindFirst(line, ' ', start, |line|);
    var rest := line[start..];
    assert forall i :: 0 <= i < |rest| ==> rest[i] == line[start + i];
  }

  /** "GET /x" throws; "GET /x H" is only rejected. */
  lemma ShortLines(r: Request, m: Method, target: Text, version: Text)
    requires m != Invalid && ' ' !in target && 0 < |version| != 8
    ensures ParseLine(r, MethodText(m) + [' '] + target).0 == Thrown
    ensures ParseLine(r, MethodText(m) + [' '] + target + [' '] + version).0 == Rejected
  {
    NoVersionThrows(r, m, target);
    MethodRoundTrip(m);
    LineSpaces(MethodText(m), target, version);
  }

  /** What reset() leaves of a request: swap() exchanges neither query nor body. */
  function AfterReset(r: Request): Request { EMPTY_REQUEST.(query := r.query, body := r.body) }

  /** reset() restores a fresh context exactly if nothing has been parsed, and so never
      after a complete request: it leaves the parse state alone. */
  lemma ResetIff(c: Context)
    ensures Context(AfterReset(c.request), c.state) == FRESH <==>
            c.state == ExpectRequestLine && c.request.query == [] && c.request.body == []
  {}

  /** Even with the state put back, a second request is read as itself exactly if it has a
      query or the first had none: otherwise it inherits the first one's query. */
  lemma SecondRequestIff(r: Request, m: Message, now: int)
    requires WellFormed(m)
    ensures Parse(Context(AfterReset(r), ExpectRequestLine), Render(m), now).1 == Context(Denoted(m, m.body, now), GotAll) <==>
            m.target.PathQuery? || r.query == []
  {
    AfterRequestLine(AfterReset(r), m, FieldLines(m.fields) + CRLF + m.body, now);
    ParseFields(LineSet(AfterReset(r), m).(receiveTime := now), m.fields, m.body, now);
  }

  lemma MethodNames()
    ensures MethodText(Get) == "GET" && MethodText(Post) == "POST" && MethodText(Head) == "HEAD"
    ensures MethodText(Put) == "PUT" && MethodText(Delete) == "DELETE"
    ensures VersionChar(Http10) == '0' && VersionChar(Http11) == '1'
  {}

  /** A line is a method name, a target without spaces and HTTP/1.0 or HTTP/1.1, with single
      spaces between them. */
  ghost predicate IsRequestLine(line: Text) { exists m, target, v :: Spells(line, m, target, v) }

  predicate Spells(line: Text, m: Method, target: Text, v: Version) {
    m != Invalid && ' ' !in target && v != Unknown &&
    line == MethodText(m) + [' '] + target + [' '] + ("HTTP/1." + [VersionChar(v)])
  }

  /** Exactly those lines are parsed. */
  lemma ParsedIff(r: Request, line: Text)
    ensures ParseLine(r, line).0 == Parsed <==> IsRequestLine(line)
  {
    if ParseLine(r, line).0 == Parsed { ParsedHasParts(r, line); }
    if m, target, v :| Spells(line, m, target, v) { SpelledParses(r, line, m, target, v); }
  }

  lemma SpelledParses(r: Request, line: Text, m: Method, target: Text, v: Version)
    requires Spells(line, m, target, v)
    ensures ParseLine(r, line).0 == Parsed
  {
    MethodRoundTrip(m);
    VersionRoundTrip(v);
    ParseParts(r, MethodText(m), target, VersionText(v));
  }

  lemma ParsedHasParts(r: Request, line: Text)
    requires ParseLine(r, line).0 == Parsed
    ensures IsRequestLine(line)
  {
    var n := |line|;
    var space := Find(line, ' ', 0, n);
    var space2 := Find(line, ' ', space + 1, n);
    SplitAtSpaces(line, space, space2);
    MethodOfText(line[..space]);
    VersionOfText(line[space2 + 1..]);
    assert Spells(line, MethodOf(line[..space]), line[space + 1..space2], VersionOf(line[space2 + 1..][7]));
  }

  lemma SplitAtSpaces(line: Text, space: nat, space2: nat)
    requires space == Find(line, ' ', 0, |line|) < |line|
    requires space2 == Find(line, ' ', space + 1, |line|) < |line|
    ensures line == line[..space] + [' '] + line[space + 1..space2] + [' '] + line[space2 + 1..]
    ensures ' ' !in line[space + 1..space2]
  {
    FindFirst(line, ' ', 0, |line|);
    FindFirst(line, ' ', space + 1, |line|);
    var target := line[space + 1..space2];
    assert forall i :: 0 <= i < |target| ==> target[i] == line[space + 1 + i];
  }

  lemma VersionOfText(t: Text)
    requires |t| == 8 && t[..7] == "HTTP/1." && VersionOf(t[7]) != Unknown
    ensures t == "HTTP/1." + [VersionChar(VersionOf(t[7]))]
  {
    assert t == t[..7] + [t[7]];
  }

  /** Spaces and tabs around a value are trimmed; the other blanks of the C locale are too. */
  lemma TrimLiteral(before: Text, value: Text, after: Text)
    requires forall c :: c in before + after ==> c == ' ' || c == '\t'
    requires value != [] ==> value[0] as int !in {32, 9, 10, 11, 12, 13} && value[|value| - 1] as int !in {32, 9, 10, 11, 12, 13}
    ensures Trim(before + value + after) == value
  {
    assert forall i :: 0 <= i < |before| ==> before[i] in before + after;
    assert forall i :: 0 <= i < |after| ==> after[i] in before + after;
    TrimBlank(before, value, after);
  }
}
