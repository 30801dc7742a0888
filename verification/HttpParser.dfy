/**
 The incremental HTTP response parser of service-provider/httpparser/httpresponseparser.h.

 Step says what one byte does to the parser and the response; Run is the loop of consume over a
 text. The class HttpResponseParser has the fields and the switch of the source, and its Parse is
 proved to do what Run says.
 */
module HttpParser {
  import opened CText

  datatype State =
    | ResponseStatusStart
    | HttpVersion_ht | HttpVersion_htt | HttpVersion_http | HttpVersion_slash
    | HttpVersion_majorStart | HttpVersion_major | HttpVersion_minorStart | HttpVersion_minor
    | StatusCodeStart | StatusCode | StatusTextStart | StatusText | StatusNewLine
    | HeaderLineStart | HeaderLws | HeaderName | SpaceBeforeHeaderValue | HeaderValue
    | ExpectingNewline_2 | ExpectingNewline_3
    | Post
    | ChunkSize | ChunkExtensionName | ChunkExtensionValue
    | ChunkSizeNewLine | ChunkSizeNewLine_2 | ChunkSizeNewLine_3
    | ChunkTrailerName | ChunkTrailerValue
    | ChunkDataNewLine_1 | ChunkDataNewLine_2 | ChunkData

  // LengthError stands for the std::length_error thrown by reserving more than PTRDIFF_MAX bytes.
  datatype ParseResult = ParsingCompleted | ParsingIncompleted | ParsingError | LengthError

  datatype Header = Header(name: string, value: string)

  datatype Response = Response(
    versionMajor: int, versionMinor: int, headers: seq<Header>, content: string,
    keepAlive: bool, statusCode: nat, status: string)

  // Parser and response together.
  datatype Machine = Machine(
    state: State, contentSize: nat, chunkSizeStr: string, chunkSize: nat, chunked: bool,
    resp: Response)

  const INIT := Machine(ResponseStatusStart, 0, "", 0, false, Response(0, 0, [], "", false, 0, ""))

  // --- character classes ------------------------------------------------------------------

  predicate IsChar(c: char) {
    c as int <= 127
  }

  predicate IsControl(c: char) {
    c as int <= 31 || c as int == 127
  }

  predicate IsSpecial(c: char) {
    c in "()<>@,;:\\\"/[]?={} \t"
  }

  // What a header name is made of.
  predicate IsToken(c: char) {
    IsChar(c) && !IsControl(c) && !IsSpecial(c)
  }

  // What a chunk extension or a trailer value is made of.
  predicate IsWord(c: char) {
    IsAlnum(c) || c == ' '
  }

  // The classes by the codes of ASCII; the specials are those of section 2.2 of RFC 2616.
  lemma CharClasses(c: char)
    ensures IsChar(c) <==> c as int < 128
    ensures IsControl(c) <==> c as int < 32 || c as int == 127
    ensures IsSpecial(c) <==>
            c as int in {9, 32, 34, 40, 41, 44, 47, 58, 59, 60, 61, 62, 63, 64, 91, 92, 93, 123, 125}
  {
  }

  // --- header fields ----------------------------------------------------------------------

  predicate IsContentLength(h: Header) {
    EqualNoCase(h.name, "Content-Length")
  }

  predicate IsChunkedEncoding(h: Header) {
    EqualNoCase(h.name, "Transfer-Encoding") && EqualNoCase(h.value, "chunked")
  }

  // size_t contentSize = atoi(...)
  function LengthOf(value: string): (n: nat)
    ensures n < TWO_64
  {
    Atoi(value) % TWO_64
  }

  // The effect of the '\r' that ends a line of the header h.
  function EndOfValue(m: Machine, h: Header): (Machine, ParseResult) {
    if IsContentLength(h) then
      if LengthOf(h.value) > LONG_MAX then (m.(contentSize := LengthOf(h.value)), LengthError)
      else (m.(contentSize := LengthOf(h.value), state := ExpectingNewline_2), ParsingIncompleted)
    else
      (m.(chunked := m.chunked || IsChunkedEncoding(h), state := ExpectingNewline_2), ParsingIncompleted)
  }

  // The value of the first Connection header.
  function Connection(hs: seq<Header>): Option<string> {
    if hs == [] then None
    else if EqualNoCase(hs[0].name, "Connection") then Some(hs[0].value)
    else Connection(hs[1..])
  }

  function KeepAlive(r: Response): bool {
    match Connection(r.headers)
    case Some(v) => EqualNoCase(v, "Keep-Alive")
    case None => r.keepAlive || r.versionMajor > 1 || (r.versionMajor == 1 && r.versionMinor == 1)
  }

  // headers.back(), which every state that uses it has (see HasHeader)
  function Last(r: Response): Header {
    if r.headers == [] then Header("", "") else r.headers[|r.headers| - 1]
  }

  function WithLast(r: Response, h: Header): Response {
    if r.headers == [] then r else r.(headers := r.headers[..|r.headers| - 1] + [h])
  }

  // --- one byte -----------------------------------------------------------------------------

  function Go(m: Machine, st: State): (Machine, ParseResult) {
    (m.(state := st), ParsingIncompleted)
  }

  function Expect(m: Machine, c: char, wanted: char, st: State): (Machine, ParseResult) {
    if c == wanted then Go(m, st) else (m, ParsingError)
  }

  predicate InStatusLine(st: State) {
    st.ResponseStatusStart? || st.HttpVersion_ht? || st.HttpVersion_htt? || st.HttpVersion_http?
    || st.HttpVersion_slash? || st.HttpVersion_majorStart? || st.HttpVersion_major?
    || st.HttpVersion_minorStart? || st.HttpVersion_minor? || st.StatusCodeStart? || st.StatusCode?
    || st.StatusTextStart? || st.StatusText? || st.StatusNewLine?
  }

  predicate InHeaders(st: State) {
    st.HeaderLineStart? || st.HeaderLws? || st.HeaderName? || st.SpaceBeforeHeaderValue?
    || st.HeaderValue? || st.ExpectingNewline_2? || st.ExpectingNewline_3?
  }

  function StatusLineStep(m: Machine, c: char): (Machine, ParseResult)
    requires InStatusLine(m.state)
  {
    var r := m.resp;
    match m.state
    case ResponseStatusStart => Expect(m, c, 'H', HttpVersion_ht)
    case HttpVersion_ht => Expect(m, c, 'T', HttpVersion_htt)
    case HttpVersion_htt => Expect(m, c, 'T', HttpVersion_http)
    case HttpVersion_http => Expect(m, c, 'P', HttpVersion_slash)
    case HttpVersion_slash =>
      if c == '/' then Go(m.(resp := r.(versionMajor := 0, versionMinor := 0)), HttpVersion_majorStart)
      else (m, ParsingError)
    case HttpVersion_majorStart =>
      if IsDigit(c) then Go(m.(resp := r.(versionMajor := DigitValue(c))), HttpVersion_major)
      else (m, ParsingError)
    case HttpVersion_major =>
      if c == '.' then Go(m, HttpVersion_minorStart)
      else if IsDigit(c) then
        Go(m.(resp := r.(versionMajor := Int32(r.versionMajor * 10 + DigitValue(c)))), HttpVersion_major)
      else (m, ParsingError)
    case HttpVersion_minorStart =>
      if IsDigit(c) then Go(m.(resp := r.(versionMinor := DigitValue(c))), HttpVersion_minor)
      else (m, ParsingError)
    case HttpVersion_minor =>
      if c == ' ' then Go(m.(resp := r.(statusCode := 0)), StatusCodeStart)
      else if IsDigit(c) then
        Go(m.(resp := r.(versionMinor := Int32(r.versionMinor * 10 + DigitValue(c)))), HttpVersion_minor)
      else (m, ParsingError)
    case StatusCodeStart =>
      if IsDigit(c) then Go(m.(resp := r.(statusCode := DigitValue(c))), StatusCode)
      else (m, ParsingError)
    case StatusCode =>
      if IsDigit(c) then
        Go(m.(resp := r.(statusCode := (r.statusCode * 10 + DigitValue(c)) % TWO_32)), StatusCode)
      else if r.statusCode < 100 || r.statusCode > 999 then (m, ParsingError)
      else Expect(m, c, ' ', StatusTextStart)
    case StatusTextStart =>
      if IsChar(c) then Go(m.(resp := r.(status := r.status + [c])), StatusText)
      else (m, ParsingError)
    case StatusText =>
      if c == '\r' then Go(m, StatusNewLine)
      else if IsChar(c) then Go(m.(resp := r.(status := r.status + [c])), StatusText)
      else (m, ParsingError)
    case StatusNewLine => Expect(m, c, '\n', HeaderLineStart)
  }

  function HeaderStep(m: Machine, c: char): (Machine, ParseResult)
    requires InHeaders(m.state)
  {
    var r := m.resp;
    var h := Last(r);
    match m.state
    case HeaderLineStart =>
      if c == '\r' then Go(m, ExpectingNewline_3)
      else if r.headers != [] && (c == ' ' || c == '\t') then Go(m, HeaderLws)
      else if !IsToken(c) then (m, ParsingError)
      else Go(m.(resp := r.(headers := r.headers + [Header([c], "")])), HeaderName)
    case HeaderLws =>
      if c == '\r' then Go(m, ExpectingNewline_2)
      else if c == ' ' || c == '\t' then Go(m, HeaderLws)
      else if IsControl(c) then (m, ParsingError)
      else Go(m.(resp := WithLast(r, h.(value := h.value + [c]))), HeaderValue)
    case HeaderName =>
      if c == ':' then Go(m, SpaceBeforeHeaderValue)
      else if !IsToken(c) then (m, ParsingError)
      else Go(m.(resp := WithLast(r, h.(name := h.name + [c]))), HeaderName)
    case SpaceBeforeHeaderValue => Expect(m, c, ' ', HeaderValue)
    case HeaderValue =>
      if c == '\r' then EndOfValue(m, h)
      else if IsControl(c) then (m, ParsingError)
      else Go(m.(resp := WithLast(r, h.(value := h.value + [c]))), HeaderValue)
    case ExpectingNewline_2 => Expect(m, c, '\n', HeaderLineStart)
    case ExpectingNewline_3 =>
      var m' := m.(resp := r.(keepAlive := KeepAlive(r)));
      if m.chunked then Go(m', ChunkSize)
      else if m.contentSize == 0 then (m', if c == '\n' then ParsingCompleted else ParsingError)
      else Go(m', Post)
  }

  function BodyStep(m: Machine, c: char): (Machine, ParseResult)
    requires !InStatusLine(m.state) && !InHeaders(m.state)
  {
    var r := m.resp;
    var pushed := m.(resp := r.(content := r.content + [c]));
    match m.state
    case Post =>
      var left := if m.contentSize == 0 then TWO_64 - 1 else m.contentSize - 1;
      (pushed.(contentSize := left), if left == 0 then ParsingCompleted else ParsingIncompleted)
    case ChunkSize =>
      if IsAlnum(c) then Go(m.(chunkSizeStr := m.chunkSizeStr + [c]), ChunkSize)
      else if c == ';' then Go(m, ChunkExtensionName)
      else Expect(m, c, '\r', ChunkSizeNewLine)
    case ChunkExtensionName =>
      if IsWord(c) then Go(m, ChunkExtensionName)
      else if c == '=' then Go(m, ChunkExtensionValue)
      else Expect(m, c, '\r', ChunkSizeNewLine)
    case ChunkExtensionValue =>
      if IsWord(c) then Go(m, ChunkExtensionValue)
      else Expect(m, c, '\r', ChunkSizeNewLine)
    case ChunkSizeNewLine =>
      if c == '\n' then
        var size := StrtolHex(m.chunkSizeStr);
        var m' := m.(chunkSize := size, chunkSizeStr := "");
        if |r.content| + size > LONG_MAX then (m', LengthError)
        else Go(m', if size == 0 then ChunkSizeNewLine_2 else ChunkData)
      else (m, ParsingError)
    case ChunkSizeNewLine_2 =>
      if c == '\r' then Go(m, ChunkSizeNewLine_3)
      else if IsAlpha(c) then Go(m, ChunkTrailerName)
      else (m, ParsingError)
    case ChunkSizeNewLine_3 => (m, if c == '\n' then ParsingCompleted else ParsingError)
    case ChunkTrailerName =>
      if IsAlnum(c) then Go(m, ChunkTrailerName)
      else Expect(m, c, ':', ChunkTrailerValue)
    case ChunkTrailerValue =>
      if IsWord(c) then Go(m, ChunkTrailerValue)
      else Expect(m, c, '\r', ChunkSizeNewLine)
    case ChunkData =>
      var left := if m.chunkSize == 0 then TWO_64 - 1 else m.chunkSize - 1;
      Go(pushed.(chunkSize := left), if left == 0 then ChunkDataNewLine_1 else ChunkData)
    case ChunkDataNewLine_1 => Expect(m, c, '\r', ChunkDataNewLine_2)
    case ChunkDataNewLine_2 => Expect(m, c, '\n', ChunkSize)
  }

  function Step(m: Machine, c: char): (Machine, ParseResult) {
    if InStatusLine(m.state) then StatusLineStep(m, c)
    else if InHeaders(m.state) then HeaderStep(m, c)
    else BodyStep(m, c)
  }

  // The loop of consume: bytes until the first terminal verdict.
  function Run(m: Machine, s: string): (Machine, ParseResult)
    decreases s
  {
    if s == "" then (m, ParsingIncompleted)
    else
      var (m', r) := Step(m, s[0]);
      if r.ParsingIncompleted? then Run(m', s[1..]) else (m', r)
  }

  // The states in which headers.back() is used or about to be used.
  predicate HasHeader(m: Machine) {
    (m.state.HeaderLws? || m.state.HeaderName? || m.state.SpaceBeforeHeaderValue?
     || m.state.HeaderValue? || m.state.ExpectingNewline_2?) ==> m.resp.headers != []
  }

  // --- the class ----------------------------------------------------------------------------

  class ResponseObject {
    var versionMajor: int
    var versionMinor: int
    var headers: seq<Header>
    var content: string
    var keepAlive: bool
    var statusCode: nat
    var status: string

    constructor ()
      ensures Value() == INIT.resp
    {
      versionMajor, versionMinor := 0, 0;
      headers, content, keepAlive, statusCode, status := [], "", false, 0, "";
    }

    function Value(): Response
      reads this
    {
      Response(versionMajor, versionMinor, headers, content, keepAlive, statusCode, status)
    }
  }

  class HttpResponseParser {
    var state: State
    var contentSize: nat
    var chunkSizeStr: string
    var chunkSize: nat
    var chunked: bool

    constructor ()
      ensures forall r: ResponseObject :: r.Value() == INIT.resp ==> MachineOf(r) == INIT
    {
      state, contentSize, chunkSizeStr, chunkSize, chunked := ResponseStatusStart, 0, "", 0, false;
    }

    function MachineOf(resp: ResponseObject): Machine
      reads this, resp
    {
      Machine(state, contentSize, chunkSizeStr, chunkSize, chunked, resp.Value())
    }

    method StatusLineByte(resp: ResponseObject, input: char) returns (r: ParseResult)
      requires InStatusLine(state)
      modifies this, resp
      ensures (MachineOf(resp), r) == StatusLineStep(old(MachineOf(resp)), input)
    {
      r := ParsingIncompleted;
      match state {
        case ResponseStatusStart =>
          if input != 'H' { return ParsingError; }
          state := HttpVersion_ht;
        case HttpVersion_ht =>
          if input != 'T' { return ParsingError; }
          state := HttpVersion_htt;
        case HttpVersion_htt =>
          if input != 'T' { return ParsingError; }
          state := HttpVersion_http;
        case HttpVersion_http =>
          if input != 'P' { return ParsingError; }
          state := HttpVersion_slash;
        case HttpVersion_slash =>
          if input != '/' { return ParsingError; }
          resp.versionMajor := 0;
          resp.versionMinor := 0;
          state := HttpVersion_majorStart;
        case HttpVersion_majorStart =>
          if !IsDigit(input) { return ParsingError; }
          resp.versionMajor := DigitValue(input);
          state := HttpVersion_major;
        case HttpVersion_major =>
          if input == '.' {
            state := HttpVersion_minorStart;
          } else if IsDigit(input) {
            resp.versionMajor := Int32(resp.versionMajor * 10 + DigitValue(input));
          } else {
            return ParsingError;
          }
        case HttpVersion_minorStart =>
          if !IsDigit(input) { return ParsingError; }
          resp.versionMinor := DigitValue(input);
          state := HttpVersion_minor;
        case HttpVersion_minor =>
          if input == ' ' {
            state := StatusCodeStart;
            resp.statusCode := 0;
          } else if IsDigit(input) {
            resp.versionMinor := Int32(resp.versionMinor * 10 + DigitValue(input));
          } else {
            return ParsingError;
          }
        case StatusCodeStart =>
          if !IsDigit(input) { return ParsingError; }
          resp.statusCode := DigitValue(input);
          state := StatusCode;
        case StatusCode =>
          if IsDigit(input) {
            resp.statusCode := (resp.statusCode * 10 + DigitValue(input)) % TWO_32;
          } else if resp.statusCode < 100 || resp.statusCode > 999 {
            return ParsingError;
          } else if input == ' ' {
            state := StatusTextStart;
          } else {
            return ParsingError;
          }
        case StatusTextStart =>
          if !IsChar(input) { return ParsingError; }
          resp.status := resp.status + [input];
          state := StatusText;
        case StatusText =>
          if input == '\r' {
            state := StatusNewLine;
          } else if IsChar(input) {
            resp.status := resp.status + [input];
          } else {
            return ParsingError;
          }
        case StatusNewLine =>
          if input != '\n' { return ParsingError; }
          state := HeaderLineStart;
      }
    }

    method HeaderByte(resp: ResponseObject, input: char) returns (r: ParseResult)
      requires InHeaders(state) && HasHeader(MachineOf(resp))
      modifies this, resp
      ensures (MachineOf(resp), r) == HeaderStep(old(MachineOf(resp)), input)
    {
      hide KeepAlive, EqualNoCase, Atoi, IsChar, IsControl, IsSpecial;
      r := ParsingIncompleted;
      var back := |resp.headers| - 1;
      match state {
        case HeaderLineStart =>
          if input == '\r' {
            state := ExpectingNewline_3;
          } else if resp.headers != [] && (input == ' ' || input == '\t') {
            state := HeaderLws;
          } else if !IsChar(input) || IsControl(input) || IsSpecial(input) {
            return ParsingError;
          } else {
            resp.headers := resp.headers + [Header([input], "")];
            state := HeaderName;
          }
        case HeaderLws =>
          if input == '\r' {
            state := ExpectingNewline_2;
          } else if input == ' ' || input == '\t' {
          } else if IsControl(input) {
            return ParsingError;
          } else {
            state := HeaderValue;
            var h := resp.headers[back];
            resp.headers := resp.headers[..back] + [h.(value := h.value + [input])];
          }
        case HeaderName =>
          if input == ':' {
            state := SpaceBeforeHeaderValue;
          } else if !IsChar(input) || IsControl(input) || IsSpecial(input) {
            return ParsingError;
          } else {
            var h := resp.headers[back];
            resp.headers := resp.headers[..back] + [h.(name := h.name + [input])];
          }
        case SpaceBeforeHeaderValue =>
          if input != ' ' { return ParsingError; }
          state := HeaderValue;
        case HeaderValue =>
          var h := resp.headers[back];
          if input == '\r' {
            if EqualNoCase(h.name, "Content-Length") {
              contentSize := Atoi(h.value) % TWO_64;
              if contentSize > LONG_MAX { return LengthError; }
            } else if EqualNoCase(h.name, "Transfer-Encoding") {
              if EqualNoCase(h.value, "chunked") {
                chunked := true;
              }
            }
            state := ExpectingNewline_2;
          } else if IsControl(input) {
            return ParsingError;
          } else {
            resp.headers := resp.headers[..back] + [h.(value := h.value + [input])];
          }
        case ExpectingNewline_2 =>
          if input != '\n' { return ParsingError; }
          state := HeaderLineStart;
        case ExpectingNewline_3 =>
          resp.keepAlive := ConnectionKept(resp);
          if chunked {
            state := ChunkSize;
          } else if contentSize == 0 {
            return if input == '\n' then ParsingCompleted else ParsingError;
          } else {
            state := Post;
          }
      }
    }

    method ConnectionKept(resp: ResponseObject) returns (keep: bool)
      ensures keep == KeepAlive(resp.Value())
    {
      var connection := FindConnection(resp.headers);
      keep := resp.keepAlive;
      if connection.Some? {
        keep := EqualNoCase(connection.value, "Keep-Alive");
      } else if resp.versionMajor > 1 || (resp.versionMajor == 1 && resp.versionMinor == 1) {
        keep := true;
      }
    }

    // find_if(..., checkIfConnection)
    method FindConnection(headers: seq<Header>) returns (v: Option<string>)
      ensures v == Connection(headers)
    {
      assert headers[0..] == headers;
      for i := 0 to |headers|
        invariant Connection(headers[i..]) == Connection(headers)
      {
        assert headers[i..][1..] == headers[i + 1..];
        if EqualNoCase(headers[i].name, "Connection") {
          return Some(headers[i].value);
        }
      }
      v := None;
    }

    method BodyByte(resp: ResponseObject, input: char) returns (r: ParseResult)
      requires !InStatusLine(state) && !InHeaders(state)
      modifies this, resp
      ensures (MachineOf(resp), r) == BodyStep(old(MachineOf(resp)), input)
    {
      r := ParsingIncompleted;
      match state {
        case Post =>
          contentSize := if contentSize == 0 then TWO_64 - 1 else contentSize - 1;
          resp.content := resp.content + [input];
          if contentSize == 0 { return ParsingCompleted; }
        case ChunkSize =>
          if IsAlnum(input) {
            chunkSizeStr := chunkSizeStr + [input];
          } else if input == ';' {
            state := ChunkExtensionName;
          } else if input == '\r' {
            state := ChunkSizeNewLine;
          } else {
            return ParsingError;
          }
        case ChunkExtensionName =>
          if IsAlnum(input) || input == ' ' {
          } else if input == '=' {
            state := ChunkExtensionValue;
          } else if input == '\r' {
            state := ChunkSizeNewLine;
          } else {
            return ParsingError;
          }
        case ChunkExtensionValue =>
          if IsAlnum(input) || input == ' ' {
          } else if input == '\r' {
            state := ChunkSizeNewLine;
          } else {
            return ParsingError;
          }
        case ChunkSizeNewLine =>
          if input != '\n' { return ParsingError; }
          chunkSize := StrtolHex(chunkSizeStr);
          chunkSizeStr := "";
          if |resp.content| + chunkSize > LONG_MAX { return LengthError; }
          state := if chunkSize == 0 then ChunkSizeNewLine_2 else ChunkData;
        case ChunkSizeNewLine_2 =>
          if input == '\r' {
            state := ChunkSizeNewLine_3;
          } else if IsAlpha(input) {
            state := ChunkTrailerName;
          } else {
            return ParsingError;
          }
        case ChunkSizeNewLine_3 =>
          return if input == '\n' then ParsingCompleted else ParsingError;
        case ChunkTrailerName =>
          if IsAlnum(input) {
          } else if input == ':' {
            state := ChunkTrailerValue;
          } else {
            return ParsingError;
          }
        case ChunkTrailerValue =>
          if IsAlnum(input) || input == ' ' {
          } else if input == '\r' {
            state := ChunkSizeNewLine;
          } else {
            return ParsingError;
          }
        case ChunkData =>
          resp.content := resp.content + [input];
          chunkSize := if chunkSize == 0 then TWO_64 - 1 else chunkSize - 1;
          if chunkSize == 0 {
            state := ChunkDataNewLine_1;
          }
        case ChunkDataNewLine_1 =>
          if input != '\r' { return ParsingError; }
          state := ChunkDataNewLine_2;
        case ChunkDataNewLine_2 =>
          if input != '\n' { return ParsingError; }
          state := ChunkSize;
      }
    }

    method Parse(resp: ResponseObject, input: string) returns (r: ParseResult)
      requires HasHeader(MachineOf(resp))
      modifies this, resp
      ensures (MachineOf(resp), r) == Run(old(MachineOf(resp)), input)
      ensures HasHeader(MachineOf(resp))
    {
      assert input[0..] == input;
      for i := 0 to |input|
        invariant HasHeader(MachineOf(resp))
        invariant Run(MachineOf(resp), input[i..]) == Run(old(MachineOf(resp)), input)
      {
        assert input[i..][0] == input[i] && input[i..][1..] == input[i + 1..];
        HasHeaderKept(MachineOf(resp), input[i]);
        if InStatusLine(state) {
          r := StatusLineByte(resp, input[i]);
        } else if InHeaders(state) {
          r := HeaderByte(resp, input[i]);
        } else {
          r := BodyByte(resp, input[i]);
        }
        if !r.ParsingIncompleted? {
          return;
        }
      }
      r := ParsingIncompleted;
    }
  }

  lemma HeaderStepKept(m: Machine, c: char)
    requires InHeaders(m.state) && HasHeader(m)
    ensures HasHeader(HeaderStep(m, c).0)
  {
    hide LengthOf, EqualNoCase, KeepAlive, IsToken, IsControl;
  }

  // headers.back() is never used on an empty list, whatever the bytes.
  lemma HasHeaderKept(m: Machine, c: char)
    requires HasHeader(m)
    ensures HasHeader(Step(m, c).0)
  {
    hide HeaderStep, StrtolHex, Int32, IsAlnum, IsAlpha, DigitValue;
    if InHeaders(m.state) {
      HeaderStepKept(m, c);
    }
  }
}
