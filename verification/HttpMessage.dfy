/**
 Writing HTTP responses, and reading them back with the parser.

 A Message is the concrete syntax of a response in the parser's own grammar: one space stands after the
 colon of a header field, which may be folded over several lines; a body comes with a length or in
 chunks with a simple extension and trailers. Printed writes it down and Meaning is the response the
 parser makes of it. HttpReply has the responses of RFC 7230.
 */
module HttpMessage {
  import opened CText
  import opened HttpParser
  import opened HttpTheorems

  // A continuation line: white space, then more of the value.
  datatype Fold = Fold(white: string, text: string)

  datatype Field = Field(name: string, value: string, folds: seq<Fold>)

  datatype Chunk = Chunk(size: string, extension: string, data: string)

  datatype Trailer = Trailer(name: string, value: string)

  datatype Body =
    | Sized(data: string)
    | Chunked(chunks: seq<Chunk>, lastSize: string, lastExtension: string, trailers: seq<Trailer>)

  datatype Message = Message(major: nat, minor: nat, code: nat, reason: string, fields: seq<Field>, body: Body)

  // --- printing -----------------------------------------------------------------------------

  function PrintedFolds(fs: seq<Fold>): string {
    if fs == [] then "" else fs[0].white + (fs[0].text + ("\r\n" + PrintedFolds(fs[1..])))
  }

  function PrintedField(f: Field): string {
    f.name + (": " + (f.value + ("\r\n" + PrintedFolds(f.folds))))
  }

  function PrintedFields(fs: seq<Field>): string {
    if fs == [] then "" else PrintedField(fs[0]) + PrintedFields(fs[1..])
  }

  function PrintedChunks(cs: seq<Chunk>): string {
    if cs == [] then ""
    else (cs[0].size + (cs[0].extension + ("\r\n" + (cs[0].data + "\r\n")))) + PrintedChunks(cs[1..])
  }

  function PrintedTrailers(ts: seq<Trailer>): string {
    if ts == [] then "" else (ts[0].name + (":" + (ts[0].value + "\r\n"))) + PrintedTrailers(ts[1..])
  }

  function PrintedBody(b: Body): string {
    match b
    case Sized(data) => data
    case Chunked(chunks, size, extension, trailers) =>
      PrintedChunks(chunks) + ((size + (extension + "\r\n")) + (PrintedTrailers(trailers) + "\r\n"))
  }

  function StatusLine(major: string, minor: string, code: string, reason: string): string {
    "HTTP/" + (major + ("." + (minor + (" " + (code + (" " + (reason + "\r\n")))))))
  }

  function PrintedStatus(m: Message): string {
    StatusLine(Decimal(m.major), Decimal(m.minor), Decimal(m.code), m.reason)
  }

  function Printed(m: Message): string {
    PrintedStatus(m) + (PrintedFields(m.fields) + ("\r\n" + PrintedBody(m.body)))
  }

  // --- meaning ------------------------------------------------------------------------------

  function Texts(fs: seq<Fold>): string {
    if fs == [] then "" else fs[0].text + Texts(fs[1..])
  }

  function HeaderOf(f: Field): Header {
    Header(f.name, f.value + Texts(f.folds))
  }

  function HeadersOf(fs: seq<Field>): (hs: seq<Header>)
    ensures |hs| == |fs|
  {
    seq(|fs|, i requires 0 <= i < |fs| => HeaderOf(fs[i]))
  }

  function Datas(cs: seq<Chunk>): string {
    if cs == [] then "" else cs[0].data + Datas(cs[1..])
  }

  function ContentOf(b: Body): string {
    match b
    case Sized(data) => data
    case Chunked(chunks, _, _, _) => Datas(chunks)
  }

  function Meaning(m: Message): Response {
    var r := Response(m.major, m.minor, HeadersOf(m.fields), ContentOf(m.body), false, m.code, m.reason);
    r.(keepAlive := KeepAlive(r))
  }

  // --- which messages -----------------------------------------------------------------------

  predicate LegalFold(f: Fold) {
    && f.white != "" && (forall i :: 0 <= i < |f.white| ==> f.white[i] == ' ' || f.white[i] == '\t')
    && NoControl(f.text) && (f.text == "" || f.text[0] != ' ')
  }

  // The header as it stands at the end of each of the field's lines.
  function LineValues(h: Header, fs: seq<Fold>): seq<Header>
    decreases fs
  {
    if fs == [] then [h] else [h] + LineValues(h.(value := h.value + fs[0].text), fs[1..])
  }

  predicate LegalField(f: Field) {
    && LegalHeader(Header(f.name, f.value))
    && (forall i :: 0 <= i < |f.folds| ==> LegalFold(f.folds[i]))
    && (IsContentLength(HeaderOf(f)) ==>
          forall h :: h in LineValues(Header(f.name, f.value), f.folds) ==> LengthOf(h.value) <= LONG_MAX)
  }

  // The parser turns to chunks if the value is "chunked" at the end of any of the lines.
  predicate SaysChunked(f: Field) {
    exists h :: h in LineValues(Header(f.name, f.value), f.folds) && IsChunkedEncoding(h)
  }

  predicate IsWords(s: string) {
    forall i :: 0 <= i < |s| ==> IsWord(s[i])
  }

  predicate ExtensionAt(e: string, k: nat)
    requires 1 <= k <= |e|
  {
    IsWords(e[1..k]) && (k < |e| ==> e[k] == '=' && IsWords(e[k + 1..]))
  }

  // Nothing, or a semicolon and a name, with an equals sign and a value or without.
  predicate LegalExtension(e: string) {
    e == "" || (e[0] == ';' && exists k :: 1 <= k <= |e| && ExtensionAt(e, k))
  }

  predicate LegalChunk(c: Chunk) {
    c.data != "" && AllAlnum(c.size) && StrtolHex(c.size) == |c.data| && LegalExtension(c.extension)
  }

  predicate LegalTrailer(t: Trailer) {
    t.name != "" && IsAlpha(t.name[0]) && AllAlnum(t.name) && IsWords(t.value)
  }

  predicate LegalBody(fields: seq<Field>, b: Body) {
    match b
    case Sized(data) =>
      && (forall i :: 0 <= i < |fields| ==> !SaysChunked(fields[i]))
      && DeclaredLength(HeadersOf(fields)) == |data|
    case Chunked(chunks, size, extension, trailers) =>
      && (exists i :: 0 <= i < |fields| && SaysChunked(fields[i]))
      && (forall i :: 0 <= i < |chunks| ==> LegalChunk(chunks[i]))
      && |Datas(chunks)| <= LONG_MAX
      && AllAlnum(size) && StrtolHex(size) == 0 && LegalExtension(extension)
      && (forall i :: 0 <= i < |trailers| ==> LegalTrailer(trailers[i]))
  }

  predicate LegalReason(reason: string) {
    forall i :: 0 <= i < |reason| ==> IsChar(reason[i]) && (i > 0 ==> reason[i] != '\r')
  }

  predicate Legal(m: Message) {
    && m.major <= INT_MAX && m.minor <= INT_MAX && 100 <= m.code <= 999 && LegalReason(m.reason)
    && (forall i :: 0 <= i < |m.fields| ==> LegalField(m.fields[i]))
    && LegalBody(m.fields, m.body)
  }

  // --- runs that stay incomplete --------------------------------------------------------------

  predicate Leads(m: Machine, s: string, m': Machine) {
    Run(m, s) == (m', ParsingIncompleted)
  }

  lemma LeadsStep(m: Machine, c: char, m': Machine)
    requires Step(m, c) == (m', ParsingIncompleted)
    ensures Leads(m, [c], m')
  {
    hide Step;
    assert [c][1..] == "" && Run(m', "") == (m', ParsingIncompleted);
  }

  lemma LeadsOn(m: Machine, a: string, m': Machine, b: string, m'': Machine)
    requires Leads(m, a, m') && Leads(m', b, m'')
    ensures Leads(m, a + b, m'')
  {
    hide Run;
    RunConcat(m, a, b);
  }

  lemma LeadsCrLf(m: Machine, m': Machine, m'': Machine)
    requires Step(m, '\r') == (m', ParsingIncompleted) && Step(m', '\n') == (m'', ParsingIncompleted)
    ensures Leads(m, "\r\n", m'')
  {
    hide Step;
    LeadsStep(m, '\r', m');
    LeadsStep(m', '\n', m'');
    LeadsOn(m, ['\r'], m', ['\n'], m'');
    assert "\r\n" == ['\r'] + ['\n'];
  }

  // --- the status line ------------------------------------------------------------------------

  predicate IsNumber(s: string) {
    s != "" && AllDigits(s)
  }

  // What the parser makes of the digits of a version, and of a status code.
  function VersionOf(digits: string): int
    requires AllDigits(digits)
  {
    Int32(DecimalValue(digits))
  }

  function CodeOf(digits: string): nat
    requires AllDigits(digits)
  {
    DecimalValue(digits) % TWO_32
  }

  lemma Wrapped(a: int, k: int)
    ensures (a + k * TWO_32) % TWO_32 == a % TWO_32
  {
    var q := a / TWO_32;
    assert a + k * TWO_32 == (q + k) * TWO_32 + a % TWO_32;
  }

  lemma OneMoreDigit(n: nat, d: nat)
    ensures Int32(Int32(n) * 10 + d) == Int32(n * 10 + d)
    ensures (n % TWO_32 * 10 + d) % TWO_32 == (n * 10 + d) % TWO_32
  {
    var q := (n + 0x8000_0000) / TWO_32;
    assert Int32(n) * 10 + d + 0x8000_0000 == (n * 10 + d + 0x8000_0000) + (-10 * q) * TWO_32;
    Wrapped(n * 10 + d + 0x8000_0000, -10 * q);
    var p := n / TWO_32;
    assert n % TWO_32 * 10 + d == (n * 10 + d) + (-10 * p) * TWO_32;
    Wrapped(n * 10 + d, -10 * p);
  }

  // A number is its digits but the last, and the last.
  lemma LastDigit(digits: string)
    requires |digits| > 1 && AllDigits(digits)
    ensures var front, c := digits[..|digits| - 1], digits[|digits| - 1];
            && IsNumber(front) && IsDigit(c) && digits == front + [c]
            && VersionOf(digits) == Int32(VersionOf(front) * 10 + DigitValue(c))
            && CodeOf(digits) == (CodeOf(front) * 10 + DigitValue(c)) % TWO_32
  {
    var front, c := digits[..|digits| - 1], digits[|digits| - 1];
    assert IsDigit(c);
    OneMoreDigit(DecimalValue(front), DigitValue(c));
  }

  lemma OneDigit(digits: string)
    requires |digits| == 1 && AllDigits(digits)
    ensures IsDigit(digits[0]) && VersionOf(digits) == DigitValue(digits[0]) == CodeOf(digits)
    ensures digits == [digits[0]]
  {
    assert digits[..|digits| - 1] == "";
    assert DecimalValue(digits) == DigitValue(digits[0]);
  }

  function AtMajor(n: int): Machine {
    INIT.(state := HttpVersion_major, resp := INIT.resp.(versionMajor := n))
  }

  lemma {:induction false} LeadsMajor(digits: string)
    requires IsNumber(digits)
    ensures Leads(INIT.(state := HttpVersion_majorStart), digits, AtMajor(VersionOf(digits)))
    decreases digits
  {
    hide Leads, Int32, DecimalValue, AllDigits;
    var m := INIT.(state := HttpVersion_majorStart);
    if |digits| == 1 {
      OneDigit(digits);
      LeadsStep(m, digits[0], AtMajor(VersionOf(digits)));
    } else {
      LastDigit(digits);
      var front, c := digits[..|digits| - 1], digits[|digits| - 1];
      LeadsMajor(front);
      LeadsStep(AtMajor(VersionOf(front)), c, AtMajor(VersionOf(digits)));
      LeadsOn(m, front, AtMajor(VersionOf(front)), [c], AtMajor(VersionOf(digits)));
    }
  }

  function AtMinor(major: int, n: int): Machine {
    AtMajor(major).(state := HttpVersion_minor, resp := AtMajor(major).resp.(versionMinor := n))
  }

  lemma {:induction false} LeadsMinor(major: int, digits: string)
    requires IsNumber(digits)
    ensures Leads(AtMajor(major).(state := HttpVersion_minorStart), digits, AtMinor(major, VersionOf(digits)))
    decreases digits
  {
    hide Leads, Int32, DecimalValue, AllDigits;
    var m := AtMajor(major).(state := HttpVersion_minorStart);
    if |digits| == 1 {
      OneDigit(digits);
      LeadsStep(m, digits[0], AtMinor(major, VersionOf(digits)));
    } else {
      LastDigit(digits);
      var front, c := digits[..|digits| - 1], digits[|digits| - 1];
      LeadsMinor(major, front);
      LeadsStep(AtMinor(major, VersionOf(front)), c, AtMinor(major, VersionOf(digits)));
      LeadsOn(m, front, AtMinor(major, VersionOf(front)), [c], AtMinor(major, VersionOf(digits)));
    }
  }

  function AtCode(major: int, minor: int, n: nat): Machine {
    var m := AtMinor(major, minor);
    m.(state := StatusCode, resp := m.resp.(statusCode := n))
  }

  lemma {:induction false} LeadsCode(major: int, minor: int, digits: string)
    requires IsNumber(digits)
    ensures Leads(AtMinor(major, minor).(state := StatusCodeStart), digits, AtCode(major, minor, CodeOf(digits)))
    decreases digits
  {
    hide Leads, DecimalValue, AllDigits;
    var m := AtMinor(major, minor).(state := StatusCodeStart);
    if |digits| == 1 {
      OneDigit(digits);
      LeadsStep(m, digits[0], AtCode(major, minor, CodeOf(digits)));
    } else {
      LastDigit(digits);
      var front, c := digits[..|digits| - 1], digits[|digits| - 1];
      LeadsCode(major, minor, front);
      LeadsStep(AtCode(major, minor, CodeOf(front)), c, AtCode(major, minor, CodeOf(digits)));
      LeadsOn(m, front, AtCode(major, minor, CodeOf(front)), [c], AtCode(major, minor, CodeOf(digits)));
    }
  }

  lemma {:induction false} LeadsReason(m: Machine, text: string)
    requires m.state.StatusText? && LegalReason(text) && (text != "" ==> text[0] != '\r')
    ensures Leads(m, text, m.(resp := m.resp.(status := m.resp.status + text)))
    decreases text
  {
    if text == "" {
      assert m.resp.status + "" == m.resp.status;
    } else {
      var m' := m.(resp := m.resp.(status := m.resp.status + [text[0]]));
      LeadsReason(m', text[1..]);
      assert m.resp.status + text == m'.resp.status + text[1..];
    }
  }

  // The parser at the start of the header block, with nothing but the status line read.
  function AtHeaders(major: int, minor: int, code: nat, reason: string): Machine {
    INIT.(state := HeaderLineStart, resp := Response(major, minor, [], "", false, code, reason))
  }

  lemma LeadsVersionStart()
    ensures Leads(INIT, "HTTP/", INIT.(state := HttpVersion_majorStart))
  {
    hide Leads;
    var h, ht, htt := INIT.(state := HttpVersion_ht), INIT.(state := HttpVersion_htt), INIT.(state := HttpVersion_http);
    var http, end := INIT.(state := HttpVersion_slash), INIT.(state := HttpVersion_majorStart);
    LeadsStep(INIT, 'H', h);
    LeadsStep(h, 'T', ht);
    LeadsStep(ht, 'T', htt);
    LeadsStep(htt, 'P', http);
    LeadsStep(http, '/', end);
    hide INIT, Step;
    LeadsOn(INIT, "H", h, "T", ht);
    LeadsOn(INIT, "H" + "T", ht, "T", htt);
    LeadsOn(INIT, "H" + "T" + "T", htt, "P", http);
    LeadsOn(INIT, "H" + "T" + "T" + "P", http, "/", end);
    assert "H" + "T" + "T" + "P" + "/" == "HTTP/";
  }

  // The single bytes between the parts of the status line.
  lemma StatusSeparators(major: int, minor: int, code: nat)
    requires 100 <= code <= 999
    ensures Leads(AtMajor(major), ".", AtMajor(major).(state := HttpVersion_minorStart))
    ensures Leads(AtMinor(major, minor), " ", AtMinor(major, minor).(state := StatusCodeStart))
    ensures Leads(AtCode(major, minor, code), " ", AtCode(major, minor, code).(state := StatusTextStart))
  {
    hide Leads;
    LeadsStep(AtMajor(major), '.', AtMajor(major).(state := HttpVersion_minorStart));
    LeadsStep(AtMinor(major, minor), ' ', AtMinor(major, minor).(state := StatusCodeStart));
    LeadsStep(AtCode(major, minor, code), ' ', AtCode(major, minor, code).(state := StatusTextStart));
  }

  // The parser takes any digits for a number and goes on where the value of the code is right.
  lemma LeadsStatusLine(major: string, minor: string, code: string, reason: string)
    requires IsNumber(major) && IsNumber(minor) && IsNumber(code) && 100 <= CodeOf(code) <= 999
    requires reason != "" && LegalReason(reason)
    ensures Leads(INIT, StatusLine(major, minor, code, reason),
                  AtHeaders(VersionOf(major), VersionOf(minor), CodeOf(code), reason))
  {
    hide Leads, StatusLine, VersionOf, CodeOf, AllDigits, LegalReason;
    var coded := AtCode(VersionOf(major), VersionOf(minor), CodeOf(code));
    var done := coded.(state := StatusText, resp := coded.resp.(status := reason));
    var end := AtHeaders(VersionOf(major), VersionOf(minor), CodeOf(code), reason);
    assert Step(done, '\r') == (done.(state := StatusNewLine), ParsingIncompleted);
    assert Step(done.(state := StatusNewLine), '\n') == (done.(state := HeaderLineStart), ParsingIncompleted);
    assert done.(state := HeaderLineStart) == end;
    LeadsCrLf(done, done.(state := StatusNewLine), end);
    LeadsReasonText(coded, reason);
    StatusSeparators(VersionOf(major), VersionOf(minor), CodeOf(code));
    LeadsCode(VersionOf(major), VersionOf(minor), code);
    LeadsMinor(VersionOf(major), minor);
    LeadsMajor(major);
    LeadsVersionStart();
    ChainStatus(major, minor, code, reason, VersionOf(major), VersionOf(minor), coded, done, end);
  }

  lemma LeadsStatus(major: nat, minor: nat, code: nat, reason: string)
    requires major <= INT_MAX && minor <= INT_MAX && 100 <= code <= 999 && reason != "" && LegalReason(reason)
    ensures Leads(INIT, StatusLine(Decimal(major), Decimal(minor), Decimal(code), reason),
                  AtHeaders(major, minor, code, reason))
  {
    hide Leads, Decimal, StatusLine, LegalReason;
    DecimalRoundTrip(major);
    DecimalRoundTrip(minor);
    DecimalRoundTrip(code);
    LeadsStatusLine(Decimal(major), Decimal(minor), Decimal(code), reason);
  }

  lemma LeadsReasonText(coded: Machine, reason: string)
    requires coded.state.StatusCode? && coded.resp.status == "" && LegalReason(reason) && reason != ""
    ensures Leads(coded.(state := StatusTextStart), reason,
                  coded.(state := StatusText, resp := coded.resp.(status := reason)))
  {
    var text := coded.(state := StatusText, resp := coded.resp.(status := [reason[0]]));
    assert "" + [reason[0]] == [reason[0]];
    LeadsStep(coded.(state := StatusTextStart), reason[0], text);
    assert reason[1..] != "" ==> reason[1..][0] == reason[1];
    LeadsReason(text, reason[1..]);
    assert [reason[0]] + reason[1..] == reason;
    LeadsOn(coded.(state := StatusTextStart), [reason[0]], text, reason[1..],
            coded.(state := StatusText, resp := coded.resp.(status := reason)));
  }

  lemma ChainStatus(major: string, minor: string, code: string, reason: string, v: int, w: int, coded: Machine,
                    done: Machine, end: Machine)
    requires Leads(INIT, "HTTP/", INIT.(state := HttpVersion_majorStart))
    requires Leads(INIT.(state := HttpVersion_majorStart), major, AtMajor(v))
    requires Leads(AtMajor(v), ".", AtMajor(v).(state := HttpVersion_minorStart))
    requires Leads(AtMajor(v).(state := HttpVersion_minorStart), minor, AtMinor(v, w))
    requires Leads(AtMinor(v, w), " ", AtMinor(v, w).(state := StatusCodeStart))
    requires Leads(AtMinor(v, w).(state := StatusCodeStart), code, coded)
    requires Leads(coded, " ", coded.(state := StatusTextStart))
    requires Leads(coded.(state := StatusTextStart), reason, done)
    requires Leads(done, "\r\n", end)
    ensures Leads(INIT, StatusLine(major, minor, code, reason), end)
  {
    hide Leads, AtMajor, AtMinor, INIT;
    var a := INIT.(state := HttpVersion_majorStart);
    var b := AtMajor(v).(state := HttpVersion_minorStart);
    var c := AtMinor(v, w).(state := StatusCodeStart);
    var t1 := reason + "\r\n";
    LeadsOn(coded.(state := StatusTextStart), reason, done, "\r\n", end);
    LeadsOn(coded, " ", coded.(state := StatusTextStart), t1, end);
    LeadsOn(c, code, coded, " " + t1, end);
    var t2 := code + (" " + t1);
    LeadsOn(AtMinor(v, w), " ", c, t2, end);
    LeadsOn(b, minor, AtMinor(v, w), " " + t2, end);
    var t3 := minor + (" " + t2);
    LeadsOn(AtMajor(v), ".", b, t3, end);
    LeadsOn(a, major, AtMajor(v), "." + t3, end);
    LeadsOn(INIT, "HTTP/", a, major + ("." + t3), end);
  }

  // --- one header field -----------------------------------------------------------------------

  // m with one more header h, in state st.
  function With(m: Machine, h: Header, st: State): Machine {
    m.(state := st, resp := m.resp.(headers := m.resp.headers + [h]))
  }

  lemma WithLastOf(m: Machine, h: Header, h': Header, st: State)
    ensures Last(With(m, h, st).resp) == h
    ensures WithLast(With(m, h, st).resp, h') == With(m, h', st).resp
  {
    assert (m.resp.headers + [h])[..|m.resp.headers|] == m.resp.headers;
  }

  lemma {:induction false} LeadsName(m: Machine, h: Header, text: string)
    requires forall i :: 0 <= i < |text| ==> IsToken(text[i])
    ensures Leads(With(m, h, HeaderName), text, With(m, h.(name := h.name + text), HeaderName))
    decreases text
  {
    if text == "" {
      assert h.name + "" == h.name;
    } else {
      hide IsToken, With, Run, WithLast;
      var h' := h.(name := h.name + [text[0]]);
      NameStep(m, h, text[0]);
      LeadsStep(With(m, h, HeaderName), text[0], With(m, h', HeaderName));
      LeadsName(m, h', text[1..]);
      assert h'.name + text[1..] == h.name + text;
      LeadsOn(With(m, h, HeaderName), [text[0]], With(m, h', HeaderName), text[1..],
              With(m, h.(name := h.name + text), HeaderName));
      assert [text[0]] + text[1..] == text;
    }
  }

  lemma NameStep(m: Machine, h: Header, c: char)
    requires IsToken(c)
    ensures Step(With(m, h, HeaderName), c) == (With(m, h.(name := h.name + [c]), HeaderName), ParsingIncompleted)
  {
    hide WithLast;
    WithLastOf(m, h, h.(name := h.name + [c]), HeaderName);
  }

  lemma ValueStep(m: Machine, h: Header, c: char)
    requires !IsControl(c)
    ensures Step(With(m, h, HeaderValue), c) == (With(m, h.(value := h.value + [c]), HeaderValue), ParsingIncompleted)
    ensures c != ' ' ==>
              Step(With(m, h, HeaderLws), c) == (With(m, h.(value := h.value + [c]), HeaderValue), ParsingIncompleted)
  {
    hide WithLast;
    WithLastOf(m, h, h.(value := h.value + [c]), HeaderValue);
    WithLastOf(m, h, h.(value := h.value + [c]), HeaderLws);
  }

  lemma {:induction false} LeadsValue(m: Machine, h: Header, text: string)
    requires NoControl(text)
    ensures Leads(With(m, h, HeaderValue), text, With(m, h.(value := h.value + text), HeaderValue))
    decreases text
  {
    if text == "" {
      assert h.value + "" == h.value;
    } else {
      hide IsControl, With, Run;
      var h' := h.(value := h.value + [text[0]]);
      ValueStep(m, h, text[0]);
      LeadsStep(With(m, h, HeaderValue), text[0], With(m, h', HeaderValue));
      LeadsValue(m, h', text[1..]);
      assert h'.value + text[1..] == h.value + text;
      LeadsOn(With(m, h, HeaderValue), [text[0]], With(m, h', HeaderValue), text[1..],
              With(m, h.(value := h.value + text), HeaderValue));
      assert [text[0]] + text[1..] == text;
    }
  }

  // What the end of a line of header h records about the body.
  function Noted(m: Machine, h: Header): Machine {
    if IsContentLength(h) then m.(contentSize := LengthOf(h.value))
    else m.(chunked := m.chunked || IsChunkedEncoding(h))
  }

  lemma LeadsLineEnd(m: Machine, h: Header)
    requires IsContentLength(h) ==> LengthOf(h.value) <= LONG_MAX
    ensures Leads(With(m, h, HeaderValue), "\r\n", With(Noted(m, h), h, HeaderLineStart))
  {
    hide IsContentLength, IsChunkedEncoding, LengthOf, WithLast;
    WithLastOf(m, h, h, HeaderValue);
    LeadsCrLf(With(m, h, HeaderValue), With(Noted(m, h), h, ExpectingNewline_2), With(Noted(m, h), h, HeaderLineStart));
  }

  lemma {:induction false} LeadsWhite(m: Machine, h: Header, white: string)
    requires forall i :: 0 <= i < |white| ==> white[i] == ' ' || white[i] == '\t'
    ensures Leads(With(m, h, HeaderLws), white, With(m, h, HeaderLws))
    decreases white
  {
    if white != "" {
      LeadsWhite(m, h, white[1..]);
    }
  }

  lemma LeadsFoldStart(m: Machine, h: Header, white: string)
    requires white != "" && forall i :: 0 <= i < |white| ==> white[i] == ' ' || white[i] == '\t'
    ensures Leads(With(m, h, HeaderLineStart), white, With(m, h, HeaderLws))
  {
    hide Leads;
    LeadsStep(With(m, h, HeaderLineStart), white[0], With(m, h, HeaderLws));
    LeadsWhite(m, h, white[1..]);
    LeadsOn(With(m, h, HeaderLineStart), [white[0]], With(m, h, HeaderLws), white[1..], With(m, h, HeaderLws));
    assert [white[0]] + white[1..] == white;
  }

  lemma LeadsFoldText(m: Machine, h: Header, text: string)
    requires NoControl(text) && text != "" && text[0] != ' '
    ensures Leads(With(m, h, HeaderLws), text, With(m, h.(value := h.value + text), HeaderValue))
  {
    hide Leads, Step, With;
    var h1 := h.(value := h.value + [text[0]]);
    var lws, end := With(m, h, HeaderLws), With(m, h.(value := h.value + text), HeaderValue);
    ValueStep(m, h, text[0]);
    LeadsStep(lws, text[0], With(m, h1, HeaderValue));
    LeadsValue(m, h1, text[1..]);
    assert h1.value + text[1..] == h.value + text;
    LeadsOn(lws, [text[0]], With(m, h1, HeaderValue), text[1..], end);
    assert [text[0]] + text[1..] == text;
  }

  // One continuation line; m has already noted h.
  lemma LeadsFold(m: Machine, h: Header, f: Fold)
    requires LegalFold(f) && Noted(m, h) == m
    requires var h' := h.(value := h.value + f.text); IsContentLength(h') ==> LengthOf(h'.value) <= LONG_MAX
    ensures var h' := h.(value := h.value + f.text);
            Leads(With(m, h, HeaderLineStart), f.white + (f.text + "\r\n"), With(Noted(m, h'), h', HeaderLineStart))
  {
    var h' := h.(value := h.value + f.text);
    var start, lws, end := With(m, h, HeaderLineStart), With(m, h, HeaderLws), With(Noted(m, h'), h', HeaderLineStart);
    LeadsFoldStart(m, h, f.white);
    if f.text == "" {
      assert h' == h && f.text + "\r\n" == "\r\n" by { assert h.value + "" == h.value; }
      LeadsCrLf(lws, With(m, h, ExpectingNewline_2), With(m, h, HeaderLineStart));
    } else {
      hide Leads, Noted, IsControl, Step, With, LengthOf;
      LeadsFoldText(m, h, f.text);
      LeadsLineEnd(m, h');
      LeadsOn(lws, f.text, With(m, h', HeaderValue), "\r\n", end);
    }
    LeadsOn(start, f.white, lws, f.text + "\r\n", end);
  }

  // --- the header block -----------------------------------------------------------------------

  function NotedAll(m: Machine, h: Header, fs: seq<Fold>): Machine
    decreases fs
  {
    if fs == [] then m
    else
      var h' := h.(value := h.value + fs[0].text);
      NotedAll(Noted(m, h'), h', fs[1..])
  }

  lemma {:induction false} LeadsFolds(m: Machine, h: Header, fs: seq<Fold>)
    requires (forall i :: 0 <= i < |fs| ==> LegalFold(fs[i])) && Noted(m, h) == m
    requires IsContentLength(h) ==> forall h' :: h' in LineValues(h, fs) ==> LengthOf(h'.value) <= LONG_MAX
    ensures Leads(With(m, h, HeaderLineStart), PrintedFolds(fs),
                  With(NotedAll(m, h, fs), h.(value := h.value + Texts(fs)), HeaderLineStart))
    decreases fs
  {
    if fs == [] {
      assert h.value + "" == h.value;
    } else {
      hide Leads, LegalFold, LengthOf, With, EqualNoCase, PrintedFolds, Texts;
      var h' := h.(value := h.value + fs[0].text);
      assert h' in LineValues(h', fs[1..]);
      FirstFold(h.value, fs);
      LeadsFold(m, h, fs[0]);
      LeadsFolds(Noted(m, h'), h', fs[1..]);
      hide LineValues, Noted;
      LeadsOn(With(m, h, HeaderLineStart), fs[0].white + (fs[0].text + "\r\n"), With(Noted(m, h'), h', HeaderLineStart),
              PrintedFolds(fs[1..]), With(NotedAll(m, h, fs), h.(value := h.value + Texts(fs)), HeaderLineStart));
    }
  }

  lemma FirstFold(value: string, fs: seq<Fold>)
    requires fs != []
    ensures PrintedFolds(fs) == (fs[0].white + (fs[0].text + "\r\n")) + PrintedFolds(fs[1..])
    ensures (value + fs[0].text) + Texts(fs[1..]) == value + Texts(fs)
  {
    var white, text, rest := fs[0].white, fs[0].text, PrintedFolds(fs[1..]);
    assert white + (text + ("\r\n" + rest)) == (white + (text + "\r\n")) + rest;
  }

  // What all the lines of a field record: its final length, and chunks if any line said so.
  lemma {:induction false} NotedAllMeans(m: Machine, h: Header, fs: seq<Fold>)
    ensures var last := h.(value := h.value + Texts(fs));
            NotedAll(Noted(m, h), h, fs) ==
            (if IsContentLength(last) then m.(contentSize := LengthOf(last.value))
             else m.(chunked := m.chunked || exists h' :: h' in LineValues(h, fs) && IsChunkedEncoding(h')))
    decreases fs
  {
    if fs == [] {
      assert h.value + "" == h.value;
    } else {
      hide EqualNoCase, LengthOf;
      var h' := h.(value := h.value + fs[0].text);
      NotedAllMeans(Noted(m, h), h', fs[1..]);
      assert h'.value + Texts(fs[1..]) == h.value + Texts(fs);
    }
  }

  function AfterField(m: Machine, f: Field): Machine {
    var m' := if IsContentLength(HeaderOf(f)) then m.(contentSize := LengthOf(HeaderOf(f).value))
              else m.(chunked := m.chunked || SaysChunked(f));
    With(m', HeaderOf(f), HeaderLineStart)
  }

  lemma LeadsField(m: Machine, f: Field)
    requires m.state.HeaderLineStart? && LegalField(f)
    ensures Leads(m, PrintedField(f), AfterField(m, f))
  {
    var h := Header(f.name, f.value);
    LeadsFirstLine(m, h);
    assert IsContentLength(h) ==> LengthOf(h.value) <= LONG_MAX by { assert h in LineValues(h, f.folds); }
    LeadsFolds(Noted(m, h), h, f.folds);
    NotedAllMeans(m, h, f.folds);
    hide Leads, With;
    var first := f.name + (": " + (f.value + "\r\n"));
    LeadsOn(m, first, With(Noted(m, h), h, HeaderLineStart), PrintedFolds(f.folds), AfterField(m, f));
    assert first + PrintedFolds(f.folds) == PrintedField(f);
  }

  lemma LeadsNamePart(m: Machine, name: string)
    requires m.state.HeaderLineStart? && LegalHeader(Header(name, ""))
    ensures Leads(m, name + ": ", With(m, Header(name, ""), HeaderValue))
  {
    hide Leads;
    assert IsToken(name[0]);
    var n := [name[0]];
    var named := With(m, Header(name, ""), HeaderName);
    var spaced := With(m, Header(name, ""), SpaceBeforeHeaderValue);
    var valued := With(m, Header(name, ""), HeaderValue);
    LeadsStep(m, name[0], With(m, Header(n, ""), HeaderName));
    LeadsName(m, Header(n, ""), name[1..]);
    assert n + name[1..] == name;
    LeadsStep(named, ':', spaced);
    LeadsStep(spaced, ' ', valued);
    hide With;
    LeadsOn(m, n, With(m, Header(n, ""), HeaderName), name[1..], named);
    LeadsOn(named, ":", spaced, " ", valued);
    LeadsOn(m, name, named, ":" + " ", valued);
    assert ":" + " " == ": ";
  }

  lemma LeadsFirstLine(m: Machine, h: Header)
    requires m.state.HeaderLineStart? && LegalHeader(h) && (IsContentLength(h) ==> LengthOf(h.value) <= LONG_MAX)
    ensures Leads(m, h.name + (": " + (h.value + "\r\n")), With(Noted(m, h), h, HeaderLineStart))
  {
    hide Noted, LengthOf, EqualNoCase, Leads, With, IsToken;
    var valued := With(m, Header(h.name, ""), HeaderValue);
    var end := With(Noted(m, h), h, HeaderLineStart);
    LeadsNamePart(m, h.name);
    assert "" + h.value == h.value;
    LeadsValue(m, Header(h.name, ""), h.value);
    LeadsLineEnd(m, h);
    LeadsOn(valued, h.value, With(m, h, HeaderValue), "\r\n", end);
    LeadsOn(m, h.name + ": ", valued, h.value + "\r\n", end);
    assert h.name + ": " + (h.value + "\r\n") == h.name + (": " + (h.value + "\r\n"));
  }

  // The parser after the fields fs, its contentSize and chunked as the fields say.
  function AfterFields(m: Machine, fs: seq<Field>): Machine {
    var hs := m.resp.headers + HeadersOf(fs);
    m.(contentSize := DeclaredLength(hs),
       chunked := m.chunked || exists i :: 0 <= i < |fs| && SaysChunked(fs[i]),
       resp := m.resp.(headers := hs))
  }

  // A Content-Length field is no Transfer-Encoding field.
  lemma NotBoth(f: Field)
    ensures IsContentLength(HeaderOf(f)) ==> !SaysChunked(f)
  {
    if IsContentLength(HeaderOf(f)) {
      forall h | h in LineValues(Header(f.name, f.value), f.folds) ensures !IsChunkedEncoding(h) {
        LineValuesName(Header(f.name, f.value), f.folds, h);
        assert |h.name| == |Lower(h.name)| == |Lower("Content-Length")| != |Lower("Transfer-Encoding")|;
      }
    }
  }

  lemma {:induction false} LineValuesName(h: Header, fs: seq<Fold>, h': Header)
    requires h' in LineValues(h, fs)
    ensures h'.name == h.name
    decreases fs
  {
    if fs != [] && h' != h {
      LineValuesName(h.(value := h.value + fs[0].text), fs[1..], h');
    }
  }

  lemma SomeChunked(fs: seq<Field>)
    requires fs != []
    ensures (exists i :: 0 <= i < |fs| && SaysChunked(fs[i])) <==>
            SaysChunked(fs[0]) || exists i :: 0 <= i < |fs[1..]| && SaysChunked(fs[1..][i])
  {
    hide SaysChunked;
    if i :| 0 <= i < |fs| && SaysChunked(fs[i]) {
      if i > 0 {
        assert SaysChunked(fs[1..][i - 1]);
      }
    }
    if i :| 0 <= i < |fs[1..]| && SaysChunked(fs[1..][i]) {
      assert SaysChunked(fs[i + 1]);
    }
  }

  lemma AfterFieldFirst(m: Machine, fs: seq<Field>)
    requires fs != [] && m.state.HeaderLineStart? && m.contentSize == DeclaredLength(m.resp.headers)
    ensures var m' := AfterField(m, fs[0]);
            && m'.state.HeaderLineStart? && m'.contentSize == DeclaredLength(m'.resp.headers)
            && AfterFields(m', fs[1..]) == AfterFields(m, fs)
  {
    hide SaysChunked, IsContentLength, LengthOf, DeclaredLength, HeaderOf;
    NotBoth(fs[0]);
    var m' := AfterField(m, fs[0]);
    DeclaredLengthPush(m.resp.headers, HeaderOf(fs[0]));
    assert m'.resp.headers + HeadersOf(fs[1..]) == m.resp.headers + HeadersOf(fs);
    SomeChunked(fs);
  }

  lemma {:induction false} LeadsFields(m: Machine, fs: seq<Field>)
    requires m.state.HeaderLineStart? && m.contentSize == DeclaredLength(m.resp.headers)
    requires forall i :: 0 <= i < |fs| ==> LegalField(fs[i])
    ensures Leads(m, PrintedFields(fs), AfterFields(m, fs))
    decreases fs
  {
    if fs == [] {
      assert m.resp.headers + HeadersOf(fs) == m.resp.headers;
    } else {
      hide Leads, AfterField, AfterFields, PrintedField, LegalField;
      LeadsField(m, fs[0]);
      AfterFieldFirst(m, fs);
      LeadsFields(AfterField(m, fs[0]), fs[1..]);
      LeadsOn(m, PrintedField(fs[0]), AfterField(m, fs[0]), PrintedFields(fs[1..]), AfterFields(m, fs));
    }
  }

  // --- the body ---------------------------------------------------------------------------------

  // Verdict, response and how many bytes were looked at.
  function Outcome(m: Machine, s: string): (ParseResult, Response, nat) {
    (Run(m, s).1, Run(m, s).0.resp, Consumed(m, s))
  }

  // s completes the response, and no shorter or longer part of it does.
  predicate Finishes(m: Machine, s: string, r: Response) {
    Outcome(m, s) == (ParsingCompleted, r, |s|)
  }

  lemma FinishStep(m: Machine, c: char, m': Machine)
    requires Step(m, c) == (m', ParsingCompleted)
    ensures Finishes(m, [c], m'.resp)
  {
    hide Step;
  }

  // What is read before m' decides nothing.
  lemma {:induction false} FinishesAfter(m: Machine, a: string, m': Machine, b: string, r: Response)
    requires Leads(m, a, m')
    ensures Finishes(m, a + b, r) <==> Finishes(m', b, r)
    decreases a
  {
    if a == "" {
      assert a + b == b;
    } else {
      hide Step;
      assert (a + b)[1..] == a[1..] + b && (a + b)[0] == a[0];
      FinishesAfter(Step(m, a[0]).0, a[1..], m', b, r);
    }
  }

  lemma LeadsFinish(m: Machine, a: string, m': Machine, b: string, r: Response)
    requires Leads(m, a, m') && Finishes(m', b, r)
    ensures Finishes(m, a + b, r)
  {
    hide Finishes, Leads;
    FinishesAfter(m, a, m', b, r);
  }

  lemma {:induction false} FinishesSized(m: Machine, data: string)
    requires m.state.Post? && data != "" && m.contentSize == |data|
    ensures Finishes(m, data, m.resp.(content := m.resp.content + data))
    decreases data
  {
    var m' := m.(contentSize := |data| - 1, resp := m.resp.(content := m.resp.content + [data[0]]));
    if |data| == 1 {
      FinishStep(m, data[0], m');
      assert [data[0]] == data;
    } else {
      LeadsStep(m, data[0], m');
      FinishesSized(m', data[1..]);
      assert m'.resp.content + data[1..] == m.resp.content + data;
      LeadsFinish(m, [data[0]], m', data[1..], m.resp.(content := m.resp.content + data));
      assert [data[0]] + data[1..] == data;
    }
  }

  // A body is complete after as many bytes as were announced.
  lemma {:induction false} PostExactly(m: Machine, data: string, r: Response)
    requires m.state.Post? && m.contentSize > 0 && Finishes(m, data, r)
    ensures |data| == m.contentSize
    decreases data
  {
    if data != "" {
      var (m', v) := Step(m, data[0]);
      if v.ParsingIncompleted? {
        PostExactly(m', data[1..], r);
      }
    }
  }

  predicate SkipsWords(st: State) {
    st.ChunkExtensionName? || st.ChunkExtensionValue? || st.ChunkTrailerValue?
  }

  lemma {:induction false} LeadsWords(m: Machine, w: string)
    requires SkipsWords(m.state) && IsWords(w)
    ensures Leads(m, w, m)
    decreases w
  {
    if w != "" {
      hide IsWord, Run;
      assert IsWord(w[0]);
      WordStep(m, w[0]);
      LeadsStep(m, w[0], m);
      LeadsWords(m, w[1..]);
      LeadsOn(m, [w[0]], m, w[1..], m);
      assert [w[0]] + w[1..] == w;
    } else {
      assert Run(m, "") == (m, ParsingIncompleted);
    }
  }

  lemma WordStep(m: Machine, c: char)
    requires SkipsWords(m.state) && IsWord(c)
    ensures Step(m, c) == (m, ParsingIncompleted)
  {
  }

  lemma {:induction false} LeadsTrailerName(m: Machine, name: string)
    requires m.state.ChunkTrailerName? && AllAlnum(name)
    ensures Leads(m, name, m)
    decreases name
  {
    if name != "" {
      LeadsTrailerName(m, name[1..]);
    }
  }

  lemma {:induction false} LeadsSize(m: Machine, size: string)
    requires m.state.ChunkSize? && AllAlnum(size)
    ensures Leads(m, size, m.(chunkSizeStr := m.chunkSizeStr + size))
    decreases size
  {
    if size == "" {
      assert m.chunkSizeStr + "" == m.chunkSizeStr;
    } else {
      var m' := m.(chunkSizeStr := m.chunkSizeStr + [size[0]]);
      LeadsSize(m', size[1..]);
      assert m'.chunkSizeStr + size[1..] == m.chunkSizeStr + size;
    }
  }

  lemma LeadsExtension(m: Machine, e: string)
    requires m.state.ChunkSize? && LegalExtension(e)
    ensures Leads(m, e + "\r", m.(state := ChunkSizeNewLine))
  {
    var end := m.(state := ChunkSizeNewLine);
    if e == "" {
      LeadsStep(m, '\r', end);
      assert e + "\r" == "\r";
    } else {
      hide Leads, IsWords;
      var k :| 1 <= k <= |e| && ExtensionAt(e, k);
      var named, valued := m.(state := ChunkExtensionName), m.(state := ChunkExtensionValue);
      LeadsStep(m, ';', named);
      LeadsWords(named, e[1..k]);
      LeadsOn(m, ";", named, e[1..k], named);
      if k == |e| {
        LeadsStep(named, '\r', end);
        LeadsOn(m, ";" + e[1..k], named, "\r", end);
        assert ";" + e[1..k] == e;
      } else {
        LeadsStep(named, '=', valued);
        LeadsOn(m, ";" + e[1..k], named, "=", valued);
        LeadsExtensionValue(m, ";" + e[1..k] + "=", e[k + 1..]);
        ExtensionParts(e, k);
      }
    }
  }

  lemma ExtensionParts(e: string, k: nat)
    requires 1 <= k < |e| && e[0] == ';' && e[k] == '='
    ensures ";" + e[1..k] + "=" + e[k + 1..] == e
  {
  }

  lemma LeadsExtensionValue(m: Machine, before: string, value: string)
    requires Leads(m, before, m.(state := ChunkExtensionValue)) && IsWords(value)
    ensures Leads(m, before + value + "\r", m.(state := ChunkSizeNewLine))
  {
    hide Leads, IsWords;
    var valued := m.(state := ChunkExtensionValue);
    LeadsWords(valued, value);
    LeadsStep(valued, '\r', m.(state := ChunkSizeNewLine));
    LeadsOn(m, before, valued, value, valued);
    LeadsOn(m, before + value, valued, "\r", m.(state := ChunkSizeNewLine));
  }

  // After the line that announces n bytes.
  function Sizing(m: Machine, n: nat): Machine {
    m.(chunkSize := n, state := if n == 0 then ChunkSizeNewLine_2 else ChunkData)
  }

  lemma LeadsSizeLine(m: Machine, size: string, e: string)
    requires m.state.ChunkSize? && m.chunkSizeStr == "" && AllAlnum(size) && LegalExtension(e)
    requires |m.resp.content| + StrtolHex(size) <= LONG_MAX
    ensures Leads(m, size + (e + "\r\n"), Sizing(m, StrtolHex(size)))
  {
    hide Leads, StrtolHex, LegalExtension;
    var sized := m.(chunkSizeStr := size);
    var end := Sizing(m, StrtolHex(size));
    LeadsSize(m, size);
    assert "" + size == size;
    LeadsExtension(sized, e);
    LeadsStep(sized.(state := ChunkSizeNewLine), '\n', end);
    LeadsOn(sized, e + "\r", sized.(state := ChunkSizeNewLine), "\n", end);
    LeadsOn(m, size, sized, e + "\r" + "\n", end);
    assert e + "\r" + "\n" == e + "\r\n";
  }

  lemma {:induction false} LeadsChunkData(m: Machine, data: string)
    requires m.state.ChunkData? && data != "" && m.chunkSize == |data|
    ensures Leads(m, data, m.(state := ChunkDataNewLine_1, chunkSize := 0,
                              resp := m.resp.(content := m.resp.content + data)))
    decreases data
  {
    var m' := Step(m, data[0]).0;
    var end := m.(state := ChunkDataNewLine_1, chunkSize := 0, resp := m.resp.(content := m.resp.content + data));
    if |data| == 1 {
      assert [data[0]] == data;
      LeadsStep(m, data[0], end);
    } else {
      LeadsChunkData(m', data[1..]);
      assert m.resp.content + [data[0]] + data[1..] == m.resp.content + data;
    }
  }

  // Between chunks.
  ghost predicate AtChunk(m: Machine) {
    m.state.ChunkSize? && m.chunkSizeStr == "" && m.chunkSize == 0
  }

  function WithContent(m: Machine, data: string): Machine {
    m.(resp := m.resp.(content := m.resp.content + data))
  }

  lemma LeadsChunk(m: Machine, c: Chunk)
    requires AtChunk(m) && LegalChunk(c) && |m.resp.content| + |c.data| <= LONG_MAX
    ensures Leads(m, c.size + (c.extension + ("\r\n" + (c.data + "\r\n"))), WithContent(m, c.data))
  {
    hide Leads, StrtolHex, LegalExtension;
    var sizing := Sizing(m, |c.data|);
    var read := WithContent(m, c.data).(state := ChunkDataNewLine_1);
    var end := WithContent(m, c.data);
    LeadsSizeLine(m, c.size, c.extension);
    LeadsChunkData(sizing, c.data);
    LeadsCrLf(read, read.(state := ChunkDataNewLine_2), end);
    LeadsOn(sizing, c.data, read, "\r\n", end);
    LeadsOn(m, c.size + (c.extension + "\r\n"), sizing, c.data + "\r\n", end);
    assert c.size + (c.extension + "\r\n") + (c.data + "\r\n") == c.size + (c.extension + ("\r\n" + (c.data + "\r\n")));
  }

  lemma ContentJoin(m: Machine, a: string, b: string)
    ensures WithContent(WithContent(m, a), b) == WithContent(m, a + b)
  {
    assert m.resp.content + a + b == m.resp.content + (a + b);
  }

  lemma {:induction false} LeadsChunks(m: Machine, cs: seq<Chunk>)
    requires AtChunk(m) && (forall i :: 0 <= i < |cs| ==> LegalChunk(cs[i]))
    requires |m.resp.content| + |Datas(cs)| <= LONG_MAX
    ensures Leads(m, PrintedChunks(cs), WithContent(m, Datas(cs)))
    decreases cs
  {
    if cs == [] {
      assert m.resp.content + "" == m.resp.content;
    } else {
      hide Leads, LegalChunk;
      var m' := WithContent(m, cs[0].data);
      assert |Datas(cs)| == |cs[0].data| + |Datas(cs[1..])|;
      LeadsChunk(m, cs[0]);
      LeadsChunks(m', cs[1..]);
      ContentJoin(m, cs[0].data, Datas(cs[1..]));
      LeadsOn(m, cs[0].size + (cs[0].extension + ("\r\n" + (cs[0].data + "\r\n"))), m', PrintedChunks(cs[1..]),
              WithContent(m, Datas(cs)));
    }
  }

  lemma LeadsTrailer(m: Machine, t: Trailer)
    requires m.state.ChunkSizeNewLine_2? && m.chunkSizeStr == "" && m.chunkSize == 0
    requires |m.resp.content| <= LONG_MAX && LegalTrailer(t)
    ensures Leads(m, t.name + (":" + (t.value + "\r\n")), m)
  {
    hide Leads, IsWords, AllAlnum;
    var named, valued := m.(state := ChunkTrailerName), m.(state := ChunkTrailerValue);
    LeadsStep(m, t.name[0], named);
    assert AllAlnum(t.name[1..]) by { AlnumTail(t.name); }
    LeadsTrailerName(named, t.name[1..]);
    LeadsOn(m, [t.name[0]], named, t.name[1..], named);
    assert [t.name[0]] + t.name[1..] == t.name;
    LeadsStep(named, ':', valued);
    LeadsWords(valued, t.value);
    LeadsTrailerEnd(m);
    hide Step, LegalTrailer;
    LeadsOn(valued, t.value, valued, "\r\n", m);
    LeadsOn(named, ":", valued, t.value + "\r\n", m);
    LeadsOn(m, t.name, named, ":" + (t.value + "\r\n"), m);
  }

  lemma AlnumTail(s: string)
    requires AllAlnum(s) && s != ""
    ensures AllAlnum(s[1..])
  {
  }

  // The line of a trailer is taken for a size line without a size.
  lemma LeadsTrailerEnd(m: Machine)
    requires m.state.ChunkSizeNewLine_2? && m.chunkSizeStr == "" && m.chunkSize == 0 && |m.resp.content| <= LONG_MAX
    ensures Leads(m.(state := ChunkTrailerValue), "\r\n", m)
  {
    LeadsCrLf(m.(state := ChunkTrailerValue), m.(state := ChunkSizeNewLine), m);
  }

  lemma {:induction false} LeadsTrailers(m: Machine, ts: seq<Trailer>)
    requires m.state.ChunkSizeNewLine_2? && m.chunkSizeStr == "" && m.chunkSize == 0
    requires |m.resp.content| <= LONG_MAX && forall i :: 0 <= i < |ts| ==> LegalTrailer(ts[i])
    ensures Leads(m, PrintedTrailers(ts), m)
    decreases ts
  {
    if ts == [] {
      assert Run(m, "") == (m, ParsingIncompleted);
    } else {
      hide Leads, LegalTrailer;
      LeadsTrailer(m, ts[0]);
      LeadsTrailers(m, ts[1..]);
      LeadsOn(m, ts[0].name + (":" + (ts[0].value + "\r\n")), m, PrintedTrailers(ts[1..]), m);
    }
  }

  // The parser right after the '\r' of the empty line. It looks at the byte that follows only where there
  // is no body.
  lemma FinishesBody(m: Machine, fields: seq<Field>, end: char, b: Body)
    requires m.state.ExpectingNewline_3? && m.resp.content == "" && m.chunkSizeStr == "" && m.chunkSize == 0
    requires LegalBody(fields, b) && (b == Sized("") ==> end == '\n')
    requires m.contentSize == DeclaredLength(HeadersOf(fields))
    requires m.chunked <==> exists i :: 0 <= i < |fields| && SaysChunked(fields[i])
    ensures Finishes(m, [end] + PrintedBody(b), m.resp.(keepAlive := KeepAlive(m.resp), content := ContentOf(b)))
  {
    hide KeepAlive, SaysChunked, DeclaredLength, Leads, Finishes, LegalChunk, LegalExtension, LegalTrailer, AllAlnum,
      StrtolHex, PrintedChunks, PrintedTrailers;
    var m' := m.(resp := m.resp.(keepAlive := KeepAlive(m.resp)));
    var r := m'.resp.(content := ContentOf(b));
    match b
    case Sized(data) =>
      assert !m.chunked;
      FinishesBodySized(m, m', end, data);
    case Chunked(chunks, size, extension, trailers) =>
      var start := m'.(state := ChunkSize);
      assert "" + Datas(chunks) == Datas(chunks);
      LeadsStep(m, end, start);
      FinishesChunked(start, chunks, size, extension, trailers);
      LeadsFinish(m, [end], start, PrintedBody(b), r);
  }

  lemma FinishesBodySized(m: Machine, m': Machine, end: char, data: string)
    requires m.state.ExpectingNewline_3? && m.resp.content == "" && !m.chunked && m.contentSize == |data|
    requires m' == m.(resp := m.resp.(keepAlive := KeepAlive(m.resp))) && (data == "" ==> end == '\n')
    ensures Finishes(m, [end] + data, m'.resp.(content := data))
  {
    hide KeepAlive, Leads, Finishes;
    if data == "" {
      FinishStep(m, '\n', m');
      assert [end] + data == ['\n'];
    } else {
      LeadsStep(m, end, m'.(state := Post));
      FinishesSized(m'.(state := Post), data);
      assert "" + data == data;
      LeadsFinish(m, [end], m'.(state := Post), data, m'.resp.(content := data));
    }
  }

  lemma FinishesChunked(m: Machine, chunks: seq<Chunk>, size: string, extension: string, trailers: seq<Trailer>)
    requires AtChunk(m) && m.resp.content == ""
    requires (forall i :: 0 <= i < |chunks| ==> LegalChunk(chunks[i])) && |Datas(chunks)| <= LONG_MAX
    requires AllAlnum(size) && StrtolHex(size) == 0 && LegalExtension(extension)
    requires forall i :: 0 <= i < |trailers| ==> LegalTrailer(trailers[i])
    ensures Finishes(m, PrintedChunks(chunks) + ((size + (extension + "\r\n")) + (PrintedTrailers(trailers) + "\r\n")),
                     WithContent(m, Datas(chunks)).resp)
  {
    hide Leads, Finishes, LegalChunk, LegalTrailer, LegalExtension, StrtolHex;
    var read := WithContent(m, Datas(chunks));
    var last := Sizing(read, 0);
    LeadsChunks(m, chunks);
    LeadsSizeLine(read, size, extension);
    LeadsTrailers(last, trailers);
    LeadsStep(last, '\r', last.(state := ChunkSizeNewLine_3));
    FinishStep(last.(state := ChunkSizeNewLine_3), '\n', last.(state := ChunkSizeNewLine_3));
    LeadsFinish(last, "\r", last.(state := ChunkSizeNewLine_3), "\n", read.resp);
    assert "\r" + "\n" == "\r\n";
    LeadsFinish(last, PrintedTrailers(trailers), last, "\r\n", read.resp);
    LeadsFinish(read, size + (extension + "\r\n"), last, PrintedTrailers(trailers) + "\r\n", read.resp);
    LeadsFinish(m, PrintedChunks(chunks), read,
                (size + (extension + "\r\n")) + (PrintedTrailers(trailers) + "\r\n"), read.resp);
  }

  // --- main results -----------------------------------------------------------------------------

  // From the start of the header block on.
  lemma FinishesHeaders(start: Machine, fields: seq<Field>, end: char, b: Body)
    requires start.state.HeaderLineStart? && start.resp.headers == [] && start.contentSize == 0 && !start.chunked
    requires start.resp.content == "" && start.chunkSizeStr == "" && start.chunkSize == 0
    requires (forall i :: 0 <= i < |fields| ==> LegalField(fields[i])) && LegalBody(fields, b)
    requires b == Sized("") ==> end == '\n'
    ensures var r := start.resp.(headers := HeadersOf(fields), content := ContentOf(b));
            Finishes(start, PrintedFields(fields) + ("\r" + ([end] + PrintedBody(b))), r.(keepAlive := KeepAlive(r)))
  {
    hide Leads, Finishes, LegalBody, PrintedBody, PrintedFields, SaysChunked, DeclaredLength, KeepAlive, LegalField;
    var fielded := AfterFields(start, fields);
    var ended := fielded.(state := ExpectingNewline_3);
    var r := start.resp.(headers := HeadersOf(fields), content := ContentOf(b));
    assert [] + HeadersOf(fields) == HeadersOf(fields);
    EmptyLength();
    LeadsFields(start, fields);
    LeadsStep(fielded, '\r', ended);
    FinishesBody(ended, fields, end, b);
    KeepAliveAnyContent(ended.resp, ContentOf(b));
    var done := r.(keepAlive := KeepAlive(r));
    LeadsFinish(fielded, "\r", ended, [end] + PrintedBody(b), done);
    LeadsFinish(start, PrintedFields(fields), fielded, "\r" + ([end] + PrintedBody(b)), done);
  }

  lemma KeepAliveAnyContent(r: Response, content: string)
    ensures KeepAlive(r.(content := content)) == KeepAlive(r)
  {
  }

  lemma EmptyLength()
    ensures DeclaredLength([]) == 0
  {
  }
}
