/** HttpRequest and HttpContext: the incremental parser that consumes a Buffer. */
module HttpContexts {
  import opened Integers
  import opened Buffers
  import opened HttpSyntax

  class HttpRequest {
    var method_: Method
    var version: Version
    var receiveTime: int
    var path: Text
    var query: Text
    var body: Text
    var headers: map<Text, Text>

    ghost function R(): Request
      reads this
    {
      Request(method_, version, receiveTime, path, query, body, headers)
    }

    constructor ()
      ensures R() == EMPTY_REQUEST
    {
      method_, version, receiveTime := Invalid, Unknown, 0;
      path, query, body, headers := [], [], [], map[];
    }

    /** The source asserts that no method has been set yet. */
    method SetMethod(m: Text) returns (ok: bool)
      requires method_ == Invalid
      modifies this`method_
      ensures method_ == MethodOf(m) && ok == (method_ != Invalid)
    {
      if m == "GET" {
        method_ := Get;
      } else if m == "POST" {
        method_ := Post;
      } else if m == "HEAD" {
        method_ := Head;
      } else if m == "PUT" {
        method_ := Put;
      } else if m == "DELETE" {
        method_ := Delete;
      } else {
        method_ := Invalid;
      }
      ok := method_ != Invalid;
    }

    /** query_ and body_ are not exchanged. */
    method Swap(that: HttpRequest)
      modifies this, that
      ensures R() == old(that.R()).(query := old(query), body := old(body))
      ensures this != that ==> that.R() == old(R()).(query := old(that.query), body := old(that.body))
    {
      method_, that.method_ := that.method_, method_;
      version, that.version := that.version, version;
      path, that.path := that.path, path;
      receiveTime, that.receiveTime := that.receiveTime, receiveTime;
      headers, that.headers := that.headers, headers;
    }

    method AddHeaderLine(line: Text, colon: nat)
      requires colon < |line|
      modifies this`headers
      ensures R() == AddHeader(old(R()), line, colon)
    {
      var cur, end := colon, |line|;
      var field := line[..cur];
      cur := cur + 1;
      while cur < end && IsSpace(line[cur])
        invariant colon < cur <= end
        invariant TrimLeft(line[cur..]) == TrimLeft(line[colon + 1..])
      {
        assert line[cur..][1..] == line[cur + 1..];
        cur := cur + 1;
      }
      var value := line[cur..];
      while value != [] && IsSpace(value[|value| - 1])
        invariant TrimRight(value) == TrimRight(line[cur..])
      {
        value := value[..|value| - 1];
      }
      headers := headers[field := value];
    }
  }

  class HttpContext {
    const request: HttpRequest
    var parseState: ParseState

    ghost function C(): Context
      reads this, request
    {
      Context(request.R(), parseState)
    }

    constructor ()
      ensures C() == FRESH && fresh(request)
    {
      request := new HttpRequest();
      parseState := ExpectRequestLine;
    }

    method Reset()
      modifies request
      ensures C() == Context(AfterReset(old(request.R())), parseState)
    {
      var dummy := new HttpRequest();
      request.Swap(dummy);
    }

    method ParseRequestLine(line: Text) returns (result: LineResult)
      requires request.method_ == Invalid
      modifies request
      ensures (result, request.R()) == ParseLine(old(request.R()), line)
    {
      var end := |line|;
      var space := Find(line, ' ', 0, end);
      if space == end { return Rejected; }
      var known := request.SetMethod(line[..space]);
      if !known { return Rejected; }
      var start := space + 1;
      space := Find(line, ' ', start, end);
      if space != end {
        var target := line[start..space];
        var question := Find(target, '?', 0, |target|);
        if question != |target| { request.query := target[question + 1..]; }
        request.path := target[..question];
      }
      start := space + 1;
      if start > end - 1 { return Thrown; }
      var v := line[start..];
      if |v| != 8 || v[..7] != "HTTP/1." { return Rejected; }
      if v[7] == '0' {
        request.version := Http10;
      } else if v[7] == '1' {
        request.version := Http11;
      } else {
        return Rejected;
      }
      result := Parsed;
    }

    /** What one round of the loop leaves: either the parse is over, or the rest of
        it gives the same as the whole. */
    ghost predicate Continues(input: Buffer, before: Context, text: Text, now: int, result: LineResult, more: bool)
      requires before.state != GotAll && input.Valid()
      reads this, request, input
    {
      if more then result == Parsed && parseState != GotAll && Parse(C(), input.Contents(), now) == Parse(before, text, now)
      else (result, C(), input.Contents()) == Parse(before, text, now)
    }

    /** The round that reads the request line. */
    method RequestLineRound(input: Buffer, now: int) returns (result: LineResult, more: bool)
      requires input.Valid() && parseState == ExpectRequestLine && request.method_ == Invalid
      modifies this, request, input
      ensures input.Valid() && Continues(input, old(C()), old(input.Contents()), now, result, more)
      ensures more ==> parseState == ExpectHeaders && |input.Contents()| < |old(input.Contents())|
    {
      var text := input.buffer[input.readIndex..input.writeIndex];
      var crlf := FindCRLF(text, 0);
      if crlf.Missing? { return Rejected, false; }
      RequestLineStep(request.R(), text, now);
      result := ParseRequestLine(text[..crlf.index]);
      more := result == Parsed;
      if more {
        request.receiveTime := now;
        input.Retrieve(crlf.index + 2);
        parseState := ExpectHeaders;
      }
    }

    /** The round that reads a header line or the blank line. */
    method HeaderRound(input: Buffer, now: int) returns (more: bool)
      requires input.Valid() && parseState == ExpectHeaders
      modifies this, request, input
      ensures input.Valid() && Continues(input, old(C()), old(input.Contents()), now, Parsed, more)
      ensures more ==> parseState != ExpectRequestLine && |input.Contents()| < |old(input.Contents())|
    {
      var text := input.buffer[input.readIndex..input.writeIndex];
      var crlf := FindCRLF(text, 0);
      more := crlf.At?;
      if more {
        var colon := Find(text, ':', 0, crlf.index);
        if colon != crlf.index {
          request.AddHeaderLine(text[..crlf.index], colon);
        } else {
          parseState := ExpectBody;
        }
        input.Retrieve(crlf.index + 2);
      }
    }

    /** Parses what the buffer holds. Entered after everything has been got, the
        loop of the source makes no progress. */
    method ParseRequest(input: Buffer, now: int) returns (result: LineResult)
      requires input.Valid() && parseState != GotAll
      requires parseState == ExpectRequestLine ==> request.method_ == Invalid
      modifies this, request, input
      ensures input.Valid()
      ensures (result, C(), input.Contents()) == Parse(old(C()), old(input.Contents()), now)
    {
      var hasMore := true;
      result := Parsed;
      while hasMore
        invariant input.Valid() && Continues(input, old(C()), old(input.Contents()), now, result, hasMore)
        invariant hasMore && parseState == ExpectRequestLine ==> request.method_ == Invalid
        decreases hasMore, |input.Contents()|, Rank(parseState)
      {
        if parseState == ExpectRequestLine {
          result, hasMore := RequestLineRound(input, now);
        } else if parseState == ExpectHeaders {
          hasMore := HeaderRound(input, now);
        } else {
          request.body := input.RetrieveAllAsString();
          hasMore := false;
          parseState := GotAll;
        }
      }
    }
  }

  /** A whole request, fed through one context, gives back its parts. */
  method ReceiveWhole(m: Message, now: int) returns (c: HttpContext, ok: LineResult)
    requires WellFormed(m)
    ensures fresh(c) && fresh(c.request)
    ensures ok == Parsed && c.parseState == GotAll
    ensures c.request.R() == Denoted(m, m.body, now)
  {
    c := new HttpContext();
    var input := new Buffer();
    input.Append(Render(m));
    assert input.Contents() == Render(m);
    ParseInvertsRender(m, now);
    ok := c.ParseRequest(input, now);
  }

  /** One arrival: append and parse. */
  method Arrive(c: HttpContext, input: Buffer, piece: Text, now: int) returns (ok: LineResult)
    requires input.Valid() && c.parseState != GotAll
    requires c.parseState == ExpectRequestLine ==> c.request.method_ == Invalid
    modifies c, c.request, input
    ensures input.Valid() && (ok, c.C(), input.Contents()) == Parse(old(c.C()), old(input.Contents()) + piece, now)
  {
    input.Append(piece);
    ok := c.ParseRequest(input, now);
  }

  /** The same request in any number of arrivals through one context and buffer, parsed
      after each: it is read back whole as long as every cut is harmless. */
  method ReceiveInPieces(m: Message, pieces: seq<Text>, now: int) returns (c: HttpContext, ok: LineResult)
    requires WellFormed(m) && pieces != [] && Concat(pieces) == Render(m)
    ensures fresh(c) && fresh(c.request)
    ensures (forall i :: 0 < i < |pieces| ==> Harmless(m, |Concat(pieces[..i])|)) ==>
              ok == Parsed && c.parseState == GotAll && c.request.R() == Denoted(m, m.body, now)
  {
    c := new HttpContext();
    var input := new Buffer();
    ok := Arrive(c, input, pieces[0], now);
    var i := 1;
    while i < |pieces| && c.parseState == ExpectHeaders
      invariant fresh(c) && fresh(c.request) && fresh(input) && input.Valid() && 1 <= i <= |pieces|
      invariant Receiving(ok, c.C(), input.Contents(), pieces, i, now)
    {
      ReceivingStep(ok, c.C(), input.Contents(), pieces, i, now);
      ok := Arrive(c, input, pieces[i], now);
      i := i + 1;
    }
    ReceivedWholeIff(m, pieces, now);
    ParseInvertsRender(m, now);
  }

  /** In two arrivals, cut inside the header section. */
  method ReceiveInTwoPieces(m: Message, cut: nat, now: int) returns (c: HttpContext, ok: LineResult)
    requires WellFormed(m)
    requires |RequestLine(m)| + 2 <= cut < |RequestLine(m)| + 2 + |FieldLines(m.fields)| + 2
    ensures ok == Parsed && c.parseState == GotAll && c.request.R() == Denoted(m, m.body, now)
  {
    var pieces := [Render(m)[..cut], Render(m)[cut..]];
    FirstPieces(pieces);
    assert pieces[..1] == [pieces[0]] && Concat(pieces) == pieces[0] + pieces[1] == Render(m);
    c, ok := ReceiveInPieces(m, pieces, now);
  }

  /** After a complete request and reset() the context still expects nothing more, and the
      query and body of the request are still there. */
  method ResetExample(m: Message, now: int) returns (c: HttpContext)
    requires WellFormed(m)
    ensures c.parseState == GotAll && c.request.R() == EMPTY_REQUEST.(query := Query(m.target), body := m.body)
  {
    var ok;
    c, ok := ReceiveWhole(m, now);
    c.Reset();
  }
}
