/**
 The responses of RFC 7230 as text, and their place among the texts of the parser's grammar.

 A Reply is the concrete syntax of a response by RFC 7230, sections 3.1.2, 3.2, 3.3.3 and 4.1, with
 header fields on one line each (section 3.2.4 forbids a sender to fold them). PrintedReply writes
 it down and MeaningOf is the response it stands for: white space around a field's value is no part
 of it. A readable one is a text of the parser's grammar, and one text in both has a readable reply.
 */
module HttpReply {
  import opened CText
  import opened HttpParser
  import opened HttpTheorems
  import opened HttpMessage
  import opened HttpRoundTrip
  import opened HttpGrammar
  import opened HttpReading

  // A header field: optional white space stands before and after the value.
  datatype Line = Line(name: string, before: string, value: string, after: string)

  datatype Payload =
    | Whole(data: string)
    | InChunks(chunks: seq<Chunk>, lastSize: string, lastExtension: string, trailers: seq<Line>)

  datatype Reply = Reply(major: nat, minor: nat, code: nat, reason: string, lines: seq<Line>, body: Payload)

  // --- printing -----------------------------------------------------------------------------

  function PrintedLine(l: Line): string {
    l.name + (":" + (l.before + (l.value + (l.after + "\r\n"))))
  }

  function PrintedLines(ls: seq<Line>): string {
    if ls == [] then "" else PrintedLine(ls[0]) + PrintedLines(ls[1..])
  }

  function PrintedPayload(b: Payload): string {
    match b
    case Whole(data) => data
    case InChunks(chunks, size, extension, trailers) =>
      PrintedChunks(chunks) + ((size + (extension + "\r\n")) + (PrintedLines(trailers) + "\r\n"))
  }

  function PrintedStart(m: Reply): string {
    StatusLine(Decimal(m.major), Decimal(m.minor), Decimal(m.code), m.reason)
  }

  function PrintedReply(m: Reply): string {
    PrintedStart(m) + (PrintedLines(m.lines) + ("\r\n" + PrintedPayload(m.body)))
  }

  // --- meaning ------------------------------------------------------------------------------

  function HeadOf(l: Line): Header {
    Header(l.name, l.value)
  }

  function HeadsOf(ls: seq<Line>): (hs: seq<Header>)
    ensures |hs| == |ls|
  {
    seq(|ls|, i requires 0 <= i < |ls| => HeadOf(ls[i]))
  }

  function DataOf(b: Payload): string {
    match b
    case Whole(data) => data
    case InChunks(chunks, _, _, _) => Datas(chunks)
  }

  // A field of this name, in any case of letters.
  predicate Named(l: Line, name: string) {
    SameLetters(l.name, name)
  }

  // The parser's rule for persistence: the first Connection field decides, and else the version.
  predicate Persists(m: Reply) {
    if exists i :: 0 <= i < |m.lines| && Named(m.lines[i], "Connection") then
      exists i :: 0 <= i < |m.lines| && Named(m.lines[i], "Connection") && SameLetters(m.lines[i].value, "Keep-Alive")
        && forall j :: 0 <= j < i ==> !Named(m.lines[j], "Connection")
    else m.major > 1 || (m.major == 1 && m.minor == 1)
  }

  function MeaningOf(m: Reply): Response {
    Response(m.major, m.minor, HeadsOf(m.lines), DataOf(m.body), Persists(m), m.code, m.reason)
  }

  // --- which replies ------------------------------------------------------------------------

  predicate AllWhite(s: string) {
    forall i :: 0 <= i < |s| ==> IsWhite(s[i])
  }

  // Spaces, tabs, visible characters and bytes above 127.
  predicate IsText(c: char) {
    c == '\t' || (32 <= c as int && c as int != 127)
  }

  predicate AllText(s: string) {
    forall i :: 0 <= i < |s| ==> IsText(s[i])
  }

  // A character of a token (section 3.2.6).
  predicate IsTchar(c: char) {
    || 48 <= c as int <= 57 || 65 <= c as int <= 90 || 97 <= c as int <= 122
    || c in "!#$%&'*+-.^_`|~"
  }

  predicate LegalName(name: string) {
    name != "" && forall i :: 0 <= i < |name| ==> IsTchar(name[i])
  }

  predicate LegalLine(l: Line) {
    && LegalName(l.name) && AllWhite(l.before) && AllWhite(l.after) && AllText(l.value)
    && (if l.value == "" then l.after == "" else !IsWhite(l.value[0]) && !IsWhite(l.value[|l.value| - 1]))
  }

  predicate IsNumeral(v: string, n: nat) {
    v != "" && AllDigits(v) && DecimalValue(v) == n
  }

  predicate IsLength(l: Line) {
    Named(l, "Content-Length")
  }

  // Every Content-Length says n.
  predicate LengthsSay(ls: seq<Line>, n: nat) {
    forall i :: 0 <= i < |ls| && IsLength(ls[i]) ==> IsNumeral(ls[i].value, n)
  }

  predicate HasLength(ls: seq<Line>) {
    exists i :: 0 <= i < |ls| && IsLength(ls[i])
  }

  predicate IsTransfer(l: Line) {
    Named(l, "Transfer-Encoding")
  }

  // What stands before the last coding of a list: nothing, or a comma and white space.
  predicate BeforeCoding(s: string) {
    s == "" || s[|s| - 1] == ',' || (IsWhite(s[|s| - 1]) && BeforeCoding(s[..|s| - 1]))
  }

  // A list of transfer codings of which the last is chunked.
  predicate EndsChunked(v: string) {
    |v| >= 7 && SameLetters(v[|v| - 7..], "chunked") && BeforeCoding(v[..|v| - 7])
  }

  // The last Transfer-Encoding field ends with chunked.
  predicate FramedByChunks(ls: seq<Line>) {
    exists i :: 0 <= i < |ls| && IsTransfer(ls[i]) && EndsChunked(ls[i].value)
      && forall j :: i < j < |ls| ==> !IsTransfer(ls[j])
  }

  // 1xx, 204 and 304: the response ends with its header block, whatever the fields say.
  predicate NoBody(code: nat) {
    code < 200 || code == 204 || code == 304
  }

  // Nothing, or text that a semicolon opens.
  predicate LegalExtensions(e: string) {
    e != "" ==> e[0] == ';' && AllText(e)
  }

  predicate LegalSize(size: string, n: nat) {
    size != "" && AllHex(size) && HexNumber(size) == n
  }

  predicate LegalPart(c: Chunk) {
    c.data != "" && LegalSize(c.size, |c.data|) && LegalExtensions(c.extension)
  }

  // No text is longer than LONG_MAX, the most a std::string can hold.
  ghost predicate LegalPayload(m: Reply) {
    if NoBody(m.code) then
      m.body == Whole("") && exists n: nat :: LengthsSay(m.lines, n)
    else
      match m.body
      case Whole(data) =>
        && (forall i :: 0 <= i < |m.lines| ==> !IsTransfer(m.lines[i]))
        && LengthsSay(m.lines, |data|) && |data| <= LONG_MAX && (data != "" ==> HasLength(m.lines))
      case InChunks(chunks, size, extension, trailers) =>
        && FramedByChunks(m.lines) && !HasLength(m.lines)
        && (forall i :: 0 <= i < |chunks| ==> LegalPart(chunks[i])) && |Datas(chunks)| <= LONG_MAX
        && LegalSize(size, 0) && LegalExtensions(extension)
        && (forall i :: 0 <= i < |trailers| ==> LegalLine(trailers[i]))
  }

  ghost predicate LegalReply(m: Reply) {
    && m.major <= INT_MAX && m.minor <= INT_MAX && 100 <= m.code <= 999 && AllText(m.reason)
    && (forall i :: 0 <= i < |m.lines| ==> LegalLine(m.lines[i]))
    && LegalPayload(m)
  }

  // --- which replies are read -----------------------------------------------------------------

  predicate AllChar(s: string) {
    forall i :: 0 <= i < |s| ==> s[i] as int < 128
  }

  // One space before the value, nothing after it and no tab inside.
  predicate ReadableLine(l: Line) {
    l.before == " " && l.after == "" && '\t' !in l.value
  }

  // A field with chunked as its whole value.
  predicate IsChunked(l: Line) {
    IsTransfer(l) && SameLetters(l.value, "chunked")
  }

  predicate SaysChunks(ls: seq<Line>) {
    exists i :: 0 <= i < |ls| && IsChunked(ls[i])
  }

  // What a 32-bit int keeps of the number is n.
  predicate TakenFor(v: string, n: nat) {
    AllDigits(v) && DecimalValue(v) <= LONG_MAX && DecimalValue(v) % TWO_32 == n <= INT_MAX
  }

  // Letters and digits for a name, with a letter in front, and no more than spaces beside them after it.
  predicate ReadableTrailer(l: Line) {
    l.name != "" && IsAlpha(l.name[0]) && AllAlnum(l.name) && IsWords(l.before + (l.value + l.after))
  }

  predicate ReadablePayload(m: Reply) {
    match m.body
    case Whole(data) =>
      && !SaysChunks(m.lines)
      && forall i :: 0 <= i < |m.lines| && IsLength(m.lines[i]) ==> TakenFor(m.lines[i].value, |data|)
    case InChunks(chunks, _, extension, trailers) =>
      && SaysChunks(m.lines)
      && (forall i :: 0 <= i < |chunks| ==> LegalExtension(chunks[i].extension))
      && LegalExtension(extension)
      && (forall i :: 0 <= i < |trailers| ==> ReadableTrailer(trailers[i]))
  }

  predicate Readable(m: Reply) {
    && m.reason != "" && AllChar(m.reason)
    && (forall i :: 0 <= i < |m.lines| ==> ReadableLine(m.lines[i]))
    && ReadablePayload(m)
  }

  // --- the replies of the parser's own grammar ----------------------------------------------

  function PlainFields(ls: seq<Line>): (fs: seq<Field>)
    ensures |fs| == |ls|
  {
    seq(|ls|, i requires 0 <= i < |ls| => Field(ls[i].name, ls[i].value, []))
  }

  function PlainTrailers(ls: seq<Line>): (ts: seq<Trailer>)
    ensures |ts| == |ls|
  {
    seq(|ls|, i requires 0 <= i < |ls| => Trailer(ls[i].name, ls[i].before + (ls[i].value + ls[i].after)))
  }

  function PlainBody(b: Payload): Body {
    match b
    case Whole(data) => Sized(data)
    case InChunks(chunks, size, extension, trailers) => Chunked(chunks, size, extension, PlainTrailers(trailers))
  }

  // m with one space before every value and nothing after it.
  function Plain(m: Reply): Message {
    Message(m.major, m.minor, m.code, m.reason, PlainFields(m.lines), PlainBody(m.body))
  }

  lemma PlainHeaders(ls: seq<Line>)
    ensures HeadersOf(PlainFields(ls)) == HeadsOf(ls)
  {
    forall i | 0 <= i < |ls| ensures HeaderOf(PlainFields(ls)[i]) == HeadOf(ls[i]) {
      assert ls[i].value + Texts([]) == ls[i].value;
    }
  }

  // The first Connection field.
  lemma {:induction false} FirstConnection(ls: seq<Line>)
    ensures match Connection(HeadsOf(ls))
            case None => forall i :: 0 <= i < |ls| ==> !Named(ls[i], "Connection")
            case Some(v) =>
              exists i :: 0 <= i < |ls| && Named(ls[i], "Connection") && ls[i].value == v
                && (forall j :: 0 <= j < i ==> !Named(ls[j], "Connection"))
  {
    if ls != [] {
      EqualNoCaseExactly(ls[0].name, "Connection");
      hide EqualNoCase, SameLetters;
      var hs, rest := HeadsOf(ls), ls[1..];
      assert hs[0] == HeadOf(ls[0]) && hs[1..] == HeadsOf(rest);
      if !Named(ls[0], "Connection") {
        FirstConnection(rest);
        assert Connection(hs) == Connection(HeadsOf(rest));
        assert forall i :: 0 < i < |ls| ==> ls[i] == rest[i - 1];
        if Connection(hs).Some? {
          var i :| 0 <= i < |rest| && Named(rest[i], "Connection") && rest[i].value == Connection(hs).value
            && forall j :: 0 <= j < i ==> !Named(rest[j], "Connection");
          assert Named(ls[i + 1], "Connection");
        }
      }
    }
  }

  lemma PersistsExactly(m: Reply, r: Response)
    requires r.headers == HeadsOf(m.lines) && !r.keepAlive && r.versionMajor == m.major && r.versionMinor == m.minor
    ensures KeepAlive(r) == Persists(m)
  {
    FirstConnection(m.lines);
    hide EqualNoCase, SameLetters, Connection;
    if Connection(r.headers).Some? {
      EqualNoCaseExactly(Connection(r.headers).value, "Keep-Alive");
    }
  }

  lemma PlainMeans(m: Reply)
    ensures Meaning(Plain(m)) == MeaningOf(m)
  {
    hide KeepAlive, HeadersOf, HeadsOf, Persists;
    PlainHeaders(m.lines);
    PersistsExactly(m, Response(m.major, m.minor, HeadsOf(m.lines), DataOf(m.body), false, m.code, m.reason));
  }

  lemma LinePrinted(l: Line)
    requires ReadableLine(l)
    ensures PrintedField(Field(l.name, l.value, [])) == PrintedLine(l)
  {
    var v, e := l.value, "\r\n";
    assert ":" + (" " + (v + ("" + e))) == ": " + (v + e);
    assert e + PrintedFolds([]) == e;
  }

  lemma {:induction false} LinesPrinted(ls: seq<Line>)
    requires forall i :: 0 <= i < |ls| ==> ReadableLine(ls[i])
    ensures PrintedFields(PlainFields(ls)) == PrintedLines(ls)
  {
    if ls != [] {
      hide PrintedField, PrintedLine, ReadableLine;
      LinePrinted(ls[0]);
      LinesPrinted(ls[1..]);
      assert PlainFields(ls)[1..] == PlainFields(ls[1..]);
    }
  }

  lemma TrailerPrinted(name: string, a: string, b: string, c: string, e: string)
    ensures name + (":" + ((a + (b + c)) + e)) == name + (":" + (a + (b + (c + e))))
  {
    assert (a + (b + c)) + e == a + (b + (c + e));
  }

  lemma {:induction false} TrailersPrinted(ls: seq<Line>)
    ensures PrintedTrailers(PlainTrailers(ls)) == PrintedLines(ls)
  {
    if ls != [] {
      TrailerPrinted(ls[0].name, ls[0].before, ls[0].value, ls[0].after, "\r\n");
      TrailersPrinted(ls[1..]);
      assert PlainTrailers(ls)[1..] == PlainTrailers(ls[1..]);
    }
  }

  lemma PlainPrinted(m: Reply)
    requires forall i :: 0 <= i < |m.lines| ==> ReadableLine(m.lines[i])
    ensures Printed(Plain(m)) == PrintedReply(m)
  {
    hide PrintedFields, PrintedTrailers, PrintedLines, PrintedChunks, ReadableLine, Decimal;
    LinesPrinted(m.lines);
    if m.body.InChunks? {
      TrailersPrinted(m.body.trailers);
    }
  }

  // --- lengths ------------------------------------------------------------------------------

  // The parser knows the fields by the same names.
  lemma LengthNamed(l: Line)
    ensures IsLength(l) <==> IsContentLength(HeadOf(l))
  {
    EqualNoCaseExactly(l.name, "Content-Length");
  }

  lemma ChunkedNamed(l: Line)
    ensures IsChunked(l) <==> IsChunkedEncoding(HeadOf(l))
  {
    EqualNoCaseExactly(l.name, "Transfer-Encoding");
    EqualNoCaseExactly(l.value, "chunked");
  }

  // The token characters are those the parser takes for a name.
  lemma TcharExactly(c: char)
    ensures IsTchar(c) <==> IsToken(c)
  {
    PunctuationCodes(c);
    SpecialCodes(c);
    hide IsSpecial;
  }

  lemma PunctuationCodes(c: char)
    ensures c in "!#$%&'*+-.^_`|~" <==>
            c as int == 33 || 35 <= c as int <= 39 || c as int == 42 || c as int == 43 || c as int == 45
            || c as int == 46 || 94 <= c as int <= 96 || c as int == 124 || c as int == 126
  {
  }

  lemma SpecialCodes(c: char)
    ensures IsSpecial(c) <==>
            c as int == 9 || c as int == 32 || c as int == 34 || c as int == 40 || c as int == 41 || c as int == 44
            || c as int == 47 || 58 <= c as int <= 64 || 91 <= c as int <= 93 || c as int == 123 || c as int == 125
  {
  }

  // What size_t makes of what int makes of what long makes of n.
  lemma NumberTaken(n: nat, k: nat)
    requires k <= LONG_MAX
    ensures var a := Int32(Clamp(n));
            (if a < 0 then a + TWO_64 else a) == k <==> n <= LONG_MAX && n % TWO_32 == k <= INT_MAX
  {
  }

  lemma AtoiOfNumeral(v: string, n: nat)
    requires IsNumeral(v, n)
    ensures Atoi(v) == Int32(Clamp(n))
    ensures LengthOf(v) == if Atoi(v) < 0 then Atoi(v) + TWO_64 else Atoi(v)
  {
    hide SignedPrefix, Int32, Clamp;
    SignedPrefixOfDigits(v);
    DigitsOfDigits(v, 1);
  }

  // Where all announced lengths are taken as n, so is the last.
  lemma {:induction false} AllDeclare(ls: seq<Line>, n: nat)
    requires forall i :: 0 <= i < |ls| && IsLength(ls[i]) ==> LengthOf(ls[i].value) == n
    ensures DeclaredLength(HeadsOf(ls)) == if HasLength(ls) then n else 0
  {
    if ls != [] {
      hide IsContentLength, LengthOf, IsLength;
      var k := |ls| - 1;
      LengthNamed(ls[k]);
      assert HeadsOf(ls)[..k] == HeadsOf(ls[..k]);
      if !IsLength(ls[k]) {
        AllDeclare(ls[..k], n);
        HasLengthBefore(ls);
      }
    }
  }

  lemma HasLengthBefore(ls: seq<Line>)
    requires ls != [] && !IsLength(ls[|ls| - 1])
    ensures HasLength(ls[..|ls| - 1]) == HasLength(ls)
  {
    hide IsLength;
    var k := |ls| - 1;
    if i :| 0 <= i < |ls| && IsLength(ls[i]) {
      assert ls[..k][i] == ls[i];
    }
    if i :| 0 <= i < k && IsLength(ls[..k][i]) {
      assert ls[i] == ls[..k][i];
    }
  }

  // --- readable replies are read ------------------------------------------------------------

  lemma LineOfField(l: Line)
    ensures SaysChunked(Field(l.name, l.value, [])) <==> IsChunked(l)
    ensures LineValues(HeadOf(l), []) == [HeadOf(l)]
  {
    ChunkedNamed(l);
    hide IsChunkedEncoding, IsChunked;
    assert LineValues(HeadOf(l), []) == [HeadOf(l)];
    assert HeadOf(l) in [HeadOf(l)];
  }

  lemma LineLegal(l: Line)
    requires LegalLine(l) && ReadableLine(l) && (IsLength(l) ==> LengthOf(l.value) <= LONG_MAX)
    ensures LegalField(Field(l.name, l.value, []))
  {
    hide IsContentLength, LengthOf, IsToken, IsTchar, IsLength;
    LineOfField(l);
    LengthNamed(l);
    assert l.value + Texts([]) == l.value;
    forall i | 0 <= i < |l.name| ensures IsToken(l.name[i]) {
      TcharExactly(l.name[i]);
    }
    forall i | 0 <= i < |l.value| ensures !IsControl(l.value[i]) {
      assert l.value[i] != '\t';
    }
  }

  lemma PartLegal(c: Chunk)
    requires LegalPart(c) && |c.data| <= LONG_MAX && LegalExtension(c.extension)
    ensures LegalChunk(c)
  {
    SizeRead(c.size, |c.data|);
  }

  lemma SizeRead(size: string, n: nat)
    requires LegalSize(size, n) && n <= LONG_MAX
    ensures AllAlnum(size) && StrtolHex(size) == n
  {
    hide HexNumber;
    assert forall i :: 0 <= i < |size| ==> IsHex(size[i]);
    HexPrefixOfHex(size);
  }

  // The parser turns to chunks as the plain fields say.
  lemma PlainChunked(ls: seq<Line>)
    ensures SaysChunks(ls) <==> exists i :: 0 <= i < |PlainFields(ls)| && SaysChunked(PlainFields(ls)[i])
  {
    hide SaysChunked, IsChunked;
    var fs := PlainFields(ls);
    forall i | 0 <= i < |ls| ensures SaysChunked(fs[i]) <==> IsChunked(ls[i]) {
      LineOfField(ls[i]);
    }
    if i :| 0 <= i < |ls| && IsChunked(ls[i]) {
      assert SaysChunked(fs[i]);
    }
  }

  // What a Content-Length of a readable reply with a whole body is taken for.
  lemma LengthTaken(m: Reply, i: nat)
    requires LegalReply(m) && m.body.Whole? && i < |m.lines| && IsLength(m.lines[i])
    ensures LengthOf(m.lines[i].value) == |m.body.data| <==> TakenFor(m.lines[i].value, |m.body.data|)
    ensures |m.body.data| <= LONG_MAX
  {
    hide IsLength, LengthOf, Atoi, Int32, Clamp, LegalLine;
    var v := m.lines[i].value;
    var n: nat := |m.body.data|;
    if NoBody(m.code) {
      n :| LengthsSay(m.lines, n);
    }
    AtoiOfNumeral(v, n);
    NumberTaken(n, |m.body.data|);
  }

  lemma WholeLegal(m: Reply)
    requires LegalReply(m) && Readable(m) && m.body.Whole?
    ensures Legal(Plain(m))
  {
    hide IsLength, LengthOf, TakenFor, LegalLine, SaysChunked, LegalField, SaysChunks, DeclaredLength, HeadsOf,
      IsTransfer;
    var n: nat := |m.body.data|;
    forall i | 0 <= i < |m.lines| && IsLength(m.lines[i])
      ensures LengthOf(m.lines[i].value) == n <= LONG_MAX
    {
      LengthTaken(m, i);
    }
    AllDeclare(m.lines, n);
    PlainHeaders(m.lines);
    PlainChunked(m.lines);
    forall i | 0 <= i < |m.lines| ensures LegalField(PlainFields(m.lines)[i]) {
      LineLegal(m.lines[i]);
    }
  }

  lemma ChunksLegal(m: Reply)
    requires LegalReply(m) && Readable(m) && m.body.InChunks?
    ensures Legal(Plain(m))
  {
    hide IsLength, LengthOf, LegalLine, SaysChunked, LegalField, SaysChunks, HeadsOf, StrtolHex, AllAlnum,
      FramedByChunks, LegalPart, LegalChunk, LegalExtension, LegalExtensions, LegalSize, ReadableTrailer;
    PlainChunked(m.lines);
    forall i | 0 <= i < |m.lines| ensures LegalField(PlainFields(m.lines)[i]) {
      LineLegal(m.lines[i]);
    }
    forall i | 0 <= i < |m.body.chunks| ensures LegalChunk(m.body.chunks[i]) {
      DataWithin(m.body.chunks, i);
      PartLegal(m.body.chunks[i]);
    }
    SizeRead(m.body.lastSize, 0);
    forall i | 0 <= i < |m.body.trailers| ensures LegalTrailer(PlainTrailers(m.body.trailers)[i]) {
      TrailerLegal(m.body.trailers[i]);
    }
  }

  lemma {:induction false} DataWithin(cs: seq<Chunk>, i: nat)
    requires i < |cs|
    ensures |cs[i].data| <= |Datas(cs)|
  {
    if i > 0 {
      DataWithin(cs[1..], i - 1);
    }
  }

  lemma TrailerLegal(l: Line)
    requires ReadableTrailer(l)
    ensures LegalTrailer(Trailer(l.name, l.before + (l.value + l.after)))
  {
    hide IsWords, AllAlnum, IsAlpha;
  }

  lemma ReadableReads(m: Reply)
    requires LegalReply(m) && Readable(m)
    ensures Finishes(INIT, PrintedReply(m), MeaningOf(m))
  {
    if m.body.Whole? {
      WholeLegal(m);
    } else {
      ChunksLegal(m);
    }
    PlainPrinted(m);
    PlainMeans(m);
    hide Finishes, Legal, Printed, Meaning, PrintedReply, MeaningOf;
    RoundTrip(Plain(m));
  }

  // --- two ways of writing one text -----------------------------------------------------------

  // Where x stands first.
  lemma SameSplit(a: string, u: string, b: string, v: string, x: char)
    requires a + ([x] + u) == b + ([x] + v) && x !in a && x !in b
    ensures a == b && u == v
  {
    var whole := a + ([x] + u);
    assert whole[|a|] == x && whole[|b|] == x;
    assert a == whole[..|a|] && b == whole[..|b|];
    assert forall k :: 0 <= k < |a| || 0 <= k < |b| ==> whole[k] != x;
    SameTail(a, [x] + u, b, [x] + v);
    SameTail([x], u, [x], v);
  }

  lemma SameTail(a: string, u: string, b: string, v: string)
    requires a + u == b + v && |a| == |b|
    ensures a == b && u == v
  {
    assert a == (a + u)[..|a|] && b == (b + v)[..|b|];
    assert u == (a + u)[|a|..] && v == (b + v)[|b|..];
  }

  lemma FirstOf(a: string, b: string)
    ensures a != "" ==> (a + b)[0] == a[0]
  {
  }

  // Where the letters and digits end.
  lemma SameRun(a: string, u: string, b: string, v: string)
    requires a + u == b + v && AllAlnum(a) && AllAlnum(b)
    requires u != "" && v != "" && !IsAlnum(u[0]) && !IsAlnum(v[0])
    ensures a == b && u == v
  {
    var whole := a + u;
    assert whole[|a|] == u[0] && whole[|b|] == v[0];
    assert a == whole[..|a|] && b == whole[..|b|];
    assert forall k :: 0 <= k < |a| || 0 <= k < |b| ==> IsAlnum(whole[k]);
    SameTail(a, u, b, v);
  }

  lemma NotInDigits(digits: string, c: char)
    requires AllDigits(digits) && !IsDigit(c)
    ensures c !in digits
  {
  }

  lemma StatusSame(major: string, minor: string, code: string, major': string, minor': string, code': string,
                   reason: string, u: string, v: string)
    requires IsNumber(major) && IsNumber(minor) && IsNumber(code)
    requires IsNumber(major') && IsNumber(minor') && IsNumber(code')
    requires StatusLine(major, minor, code, reason) + u == StatusLine(major', minor', code', reason) + v
    ensures u == v
  {
    StatusJoin(major, minor, code, reason, u);
    StatusJoin(major', minor', code', reason, v);
    forall d | d == major || d == minor || d == code || d == major' || d == minor' || d == code'
      ensures '.' !in d && ' ' !in d
    {
      NotInDigits(d, '.');
      NotInDigits(d, ' ');
    }
    hide StatusLine, IsNumber;
    var t1, w1 := reason + ("\r\n" + u), reason + ("\r\n" + v);
    var t2, w2 := code + (" " + t1), code' + (" " + w1);
    var t3, w3 := minor + (" " + t2), minor' + (" " + w2);
    SameTail("HTTP/", major + ("." + t3), "HTTP/", major' + ("." + w3));
    SameSplit(major, t3, major', w3, '.');
    SameSplit(minor, t2, minor', w2, ' ');
    SameSplit(code, t1, code', w1, ' ');
    SameTail(reason, "\r\n" + u, reason, "\r\n" + v);
    SameTail("\r\n", u, "\r\n", v);
  }

  // --- lines ----------------------------------------------------------------------------------

  predicate StartsLine(s: string) {
    s != "" && (s[0] == '\r' || IsTchar(s[0]))
  }

  // The bytes of a legal line hold no line end.
  lemma LineText(l: Line)
    requires LegalLine(l)
    ensures ':' !in l.name && '\r' !in l.before + (l.value + l.after)
  {
    forall i | 0 <= i < |l.name| ensures l.name[i] != ':' {
      assert IsTchar(l.name[i]);
    }
    var t := l.before + (l.value + l.after);
    forall i | 0 <= i < |t| ensures t[i] != '\r' {
      if i < |l.before| {
        assert IsWhite(l.before[i]);
      } else if i < |l.before| + |l.value| {
        assert t[i] == l.value[i - |l.before|];
      } else {
        assert t[i] == l.after[i - |l.before| - |l.value|];
      }
    }
  }

  lemma NoLineEnds(l: Line)
    requires LegalLine(l)
    ensures var t := l.name + (":" + (l.before + (l.value + l.after))); '\r' !in t && '\n' !in t
  {
    forall i | 0 <= i < |l.name| ensures l.name[i] != '\r' && l.name[i] != '\n' {
      assert IsTchar(l.name[i]);
    }
    forall i | 0 <= i < |l.before| ensures l.before[i] != '\r' && l.before[i] != '\n' {
      assert IsWhite(l.before[i]);
    }
    forall i | 0 <= i < |l.value| ensures l.value[i] != '\r' && l.value[i] != '\n' {
      assert IsText(l.value[i]);
    }
    forall i | 0 <= i < |l.after| ensures l.after[i] != '\r' && l.after[i] != '\n' {
      assert IsWhite(l.after[i]);
    }
  }

  lemma FieldText(f: Field)
    requires LegalField(f)
    ensures NoControl(f.value) && '\r' !in " " + f.value
    ensures f.folds != [] ==> PrintedFolds(f.folds) != "" && IsWhite(PrintedFolds(f.folds)[0])
  {
    hide LengthOf, IsContentLength, IsToken, LineValues;
    forall i | 0 <= i < |f.value| ensures f.value[i] != '\r' {
      assert !IsControl(f.value[i]);
    }
    if f.folds != [] {
      assert LegalFold(f.folds[0]);
      assert PrintedFolds(f.folds)[0] == f.folds[0].white[0];
    }
  }

  lemma LineJoin(l: Line, u: string)
    ensures PrintedLine(l) + u == l.name + (":" + ((l.before + (l.value + l.after)) + ("\r" + ("\n" + u))))
  {
    var b, v, a := l.before, l.value, l.after;
    assert (":" + (b + (v + (a + "\r\n")))) + u == ":" + ((b + (v + a)) + ("\r" + ("\n" + u)));
  }

  lemma PlainJoin(f: Field, u: string)
    ensures PrintedField(f) + u == f.name + (":" + ((" " + f.value) + ("\r" + ("\n" + (PrintedFolds(f.folds) + u)))))
  {
    FieldJoin(f, u);
    var v, t := f.value, PrintedFolds(f.folds) + u;
    assert " " + (v + ("\r\n" + t)) == (" " + v) + ("\r" + ("\n" + t));
  }

  // A space and the value are all of a line only if the space is what stands before the value.
  lemma OneSpace(l: Line)
    requires LegalLine(l) && l.before + (l.value + l.after) == " " + l.value
    ensures l.before == " " && l.after == ""
  {
    var whole := l.before + (l.value + l.after);
    assert |whole| == |l.before| + |l.value| + |l.after| == 1 + |l.value|;
    FirstOf(l.before, l.value + l.after);
    FirstOf(l.value, l.after);
    FirstOf(" ", l.value);
    assert l.before == "" ==> whole == l.value + l.after;
  }

  lemma LineSame(l: Line, u: string, f: Field, v: string)
    requires LegalLine(l) && LegalField(f) && HeaderOf(f) == HeadOf(l) && StartsLine(u)
    requires PrintedLine(l) + u == PrintedField(f) + v
    ensures ReadableLine(l) && f == Field(l.name, l.value, []) && u == v
  {
    hide LegalLine, LegalField, PrintedLine, PrintedField, PrintedFolds, NoControl, IsTchar;
    LineText(l);
    FieldText(f);
    LineJoin(l, u);
    PlainJoin(f, v);
    var text, folds := l.before + (l.value + l.after), PrintedFolds(f.folds);
    var s1, s2 := text + ("\r" + ("\n" + u)), (" " + f.value) + ("\r" + ("\n" + (folds + v)));
    SameTail(l.name, ":" + s1, f.name, ":" + s2);
    SameTail(":", s1, ":", s2);
    SameSplit(text, "\n" + u, " " + f.value, "\n" + (folds + v), '\r');
    SameTail("\n", u, "\n", folds + v);
    NoFold(u, f, v);
    assert f.value + Texts([]) == f.value;
    OneSpace(l);
    NoTab(l.value);
  }

  lemma NoFold(u: string, f: Field, v: string)
    requires StartsLine(u) && u == PrintedFolds(f.folds) + v
    requires f.folds != [] ==> PrintedFolds(f.folds) != "" && IsWhite(PrintedFolds(f.folds)[0])
    ensures f.folds == [] && u == v
  {
    hide IsTchar;
    assert IsWhite(u[0]) ==> !IsTchar(u[0]) by { WhiteNoToken(u[0]); }
    FirstOf(PrintedFolds(f.folds), v);
    assert "" + v == v;
  }

  lemma WhiteNoToken(c: char)
    ensures IsWhite(c) ==> !IsTchar(c)
  {
  }

  lemma NoTab(v: string)
    requires NoControl(v)
    ensures '\t' !in v
  {
  }

  lemma LinesJoin(ls: seq<Line>, u: string)
    requires ls != []
    ensures PrintedLines(ls) + u == PrintedLine(ls[0]) + (PrintedLines(ls[1..]) + u)
  {
    hide PrintedLine;
  }

  lemma LinesStart(ls: seq<Line>, u: string)
    requires forall i :: 0 <= i < |ls| ==> LegalLine(ls[i])
    ensures StartsLine(PrintedLines(ls) + ("\r" + u))
  {
    hide PrintedLine, IsTchar;
    if ls == [] {
      assert PrintedLines(ls) + ("\r" + u) == "\r" + u;
    } else {
      var rest := PrintedLines(ls[1..]) + ("\r" + u);
      LinesJoin(ls, "\r" + u);
      LineJoin(ls[0], rest);
      assert LegalLine(ls[0]) && IsTchar(ls[0].name[0]);
    }
  }

  lemma FirstHeads(ls: seq<Line>, fs: seq<Field>)
    requires ls != [] && HeadsOf(ls) == HeadersOf(fs)
    ensures fs != [] && HeaderOf(fs[0]) == HeadOf(ls[0]) && HeadsOf(ls[1..]) == HeadersOf(fs[1..])
  {
    hide HeaderOf;
    assert |HeadsOf(ls)| == |ls| && |HeadersOf(fs)| == |fs|;
    assert HeadOf(ls[0]) == HeadsOf(ls)[0] && HeaderOf(fs[0]) == HeadersOf(fs)[0];
    assert HeadsOf(ls[1..]) == HeadsOf(ls)[1..] && HeadersOf(fs[1..]) == HeadersOf(fs)[1..];
  }

  lemma PlainFirst(ls: seq<Line>)
    requires ls != []
    ensures PlainFields(ls) == [Field(ls[0].name, ls[0].value, [])] + PlainFields(ls[1..])
  {
  }

  // Lines that are also fields of the parser's grammar, with the same headers.
  lemma {:induction false} LinesSame(ls: seq<Line>, u: string, fs: seq<Field>, v: string)
    requires (forall i :: 0 <= i < |ls| ==> LegalLine(ls[i])) && (forall i :: 0 <= i < |fs| ==> LegalField(fs[i]))
    requires PrintedLines(ls) + ("\r" + u) == PrintedFields(fs) + ("\r" + v) && HeadsOf(ls) == HeadersOf(fs)
    ensures (forall i :: 0 <= i < |ls| ==> ReadableLine(ls[i])) && fs == PlainFields(ls) && u == v
    decreases ls
  {
    if ls == [] {
      assert |HeadersOf(fs)| == |HeadsOf(ls)|;
      assert "" + ("\r" + u) == "\r" + u && "" + ("\r" + v) == "\r" + v;
      SameTail("\r", u, "\r", v);
    } else {
      hide LegalLine, LegalField, PrintedLine, PrintedField, PrintedFields, PrintedLines, StartsLine, ReadableLine,
        HeadsOf, HeadersOf, PlainFields, HeaderOf;
      FirstHeads(ls, fs);
      LinesJoin(ls, "\r" + u);
      FieldsFirst(fs, "\r" + v);
      LinesStart(ls[1..], u);
      LineSame(ls[0], PrintedLines(ls[1..]) + ("\r" + u), fs[0], PrintedFields(fs[1..]) + ("\r" + v));
      LinesSame(ls[1..], u, fs[1..], v);
      PlainFirst(ls);
    }
  }

  lemma FieldsFirst(fs: seq<Field>, v: string)
    requires fs != []
    ensures PrintedFields(fs) + v == PrintedField(fs[0]) + (PrintedFields(fs[1..]) + v)
  {
    hide PrintedField;
  }

  // --- a whole body ---------------------------------------------------------------------------

  // All lengths of a legal reply are taken for the same number.
  lemma SameLength(m: Reply, i: nat, j: nat)
    requires LegalReply(m) && m.body.Whole? && i < |m.lines| && j < |m.lines|
    requires IsLength(m.lines[i]) && IsLength(m.lines[j])
    ensures LengthOf(m.lines[i].value) == LengthOf(m.lines[j].value)
  {
    hide IsLength, LengthOf, Atoi, LegalLine, FramedByChunks, LegalPart;
    var n: nat := |m.body.data|;
    if NoBody(m.code) {
      n :| LengthsSay(m.lines, n);
    }
    AtoiOfNumeral(m.lines[i].value, n);
    AtoiOfNumeral(m.lines[j].value, n);
  }

  lemma WholeReadable(m: Reply)
    requires LegalReply(m) && m.body.Whole? && LegalBody(PlainFields(m.lines), Sized(m.body.data))
    ensures ReadablePayload(m)
  {
    hide LegalLine, SaysChunked, IsLength, LengthOf, TakenFor, DeclaredLength, HeadsOf, HeadersOf, SaysChunks,
      IsTransfer;
    PlainChunked(m.lines);
    PlainHeaders(m.lines);
    forall i | 0 <= i < |m.lines| && IsLength(m.lines[i])
      ensures TakenFor(m.lines[i].value, |m.body.data|)
    {
      forall j | 0 <= j < |m.lines| && IsLength(m.lines[j])
        ensures LengthOf(m.lines[j].value) == LengthOf(m.lines[i].value)
      {
        SameLength(m, i, j);
      }
      AllDeclare(m.lines, LengthOf(m.lines[i].value));
      LengthTaken(m, i);
    }
  }

  // --- chunks and trailers --------------------------------------------------------------------

  predicate StartsExtension(e: string) {
    '\r' !in e && (e != "" ==> e[0] == ';')
  }

  lemma ExtensionStarts(e: string)
    requires LegalExtensions(e) || LegalExtension(e)
    ensures StartsExtension(e)
  {
    if LegalExtension(e) && e != "" {
      var k :| 1 <= k <= |e| && ExtensionAt(e, k);
      forall i | 0 <= i < |e| ensures e[i] != '\r' {
        if 1 <= i < k {
          assert IsWord(e[1..k][i - 1]);
        } else if k < i {
          assert IsWord(e[k + 1..][i - k - 1]);
        }
      }
    }
  }

  lemma SizeLineSame(size: string, e: string, u: string, size': string, e': string, v: string)
    requires size + (e + ("\r\n" + u)) == size' + (e' + ("\r\n" + v))
    requires AllAlnum(size) && AllAlnum(size') && StartsExtension(e) && StartsExtension(e')
    ensures size == size' && e == e' && u == v
  {
    assert e + ("\r\n" + u) == e + ("\r" + ("\n" + u)) && e' + ("\r\n" + v) == e' + ("\r" + ("\n" + v));
    ExtensionEnds(e, u);
    ExtensionEnds(e', v);
    SameRun(size, e + ("\r\n" + u), size', e' + ("\r\n" + v));
    SameSplit(e, "\n" + u, e', "\n" + v, '\r');
    SameTail("\n", u, "\n", v);
  }

  lemma ExtensionEnds(e: string, u: string)
    requires StartsExtension(e)
    ensures e + ("\r\n" + u) != "" && !IsAlnum((e + ("\r\n" + u))[0])
  {
  }

  lemma TrailerText(t: Trailer)
    requires LegalTrailer(t)
    ensures ':' !in t.name && '\r' !in t.value
  {
    forall i | 0 <= i < |t.name| ensures t.name[i] != ':' {
      assert IsAlnum(t.name[i]);
    }
    forall i | 0 <= i < |t.value| ensures t.value[i] != '\r' {
      assert IsWord(t.value[i]);
    }
  }

  lemma TrailerSame(l: Line, u: string, t: Trailer, v: string)
    requires LegalLine(l) && LegalTrailer(t) && PrintedLine(l) + u == t.name + (":" + (t.value + ("\r\n" + v)))
    ensures ReadableTrailer(l) && u == v
  {
    hide LegalLine, LegalTrailer, PrintedLine;
    LineText(l);
    TrailerText(t);
    LineJoin(l, u);
    var text := l.before + (l.value + l.after);
    assert t.value + ("\r\n" + v) == t.value + ("\r" + ("\n" + v));
    SameSplit(l.name, text + ("\r" + ("\n" + u)), t.name, t.value + ("\r" + ("\n" + v)), ':');
    SameSplit(text, "\n" + u, t.value, "\n" + v, '\r');
    SameTail("\n", u, "\n", v);
    assert ReadableTrailer(l) by { TrailerReadable(l, t); }
  }

  lemma TrailerReadable(l: Line, t: Trailer)
    requires LegalTrailer(t) && t.name == l.name && t.value == l.before + (l.value + l.after)
    ensures ReadableTrailer(l)
  {
    hide IsWords, AllAlnum, IsAlpha;
  }

  lemma {:induction false} TrailersSame(ls: seq<Line>, ts: seq<Trailer>)
    requires (forall i :: 0 <= i < |ls| ==> LegalLine(ls[i])) && (forall i :: 0 <= i < |ts| ==> LegalTrailer(ts[i]))
    requires PrintedLines(ls) + "\r\n" == PrintedTrailers(ts) + "\r\n"
    ensures forall i :: 0 <= i < |ls| ==> ReadableTrailer(ls[i])
    decreases ls
  {
    if ls != [] {
      hide LegalLine, LegalTrailer, PrintedLine, PrintedLines, PrintedTrailers, ReadableTrailer;
      LinesJoin(ls, "\r\n");
      assert ts != [] by { SomeTrailer(ls, ts); }
      assert ts == [ts[0]] + ts[1..];
      TrailersJoin(ts[0], ts[1..], "\r\n");
      TrailerSame(ls[0], PrintedLines(ls[1..]) + "\r\n", ts[0], PrintedTrailers(ts[1..]) + "\r\n");
      TrailersSame(ls[1..], ts[1..]);
    }
  }

  lemma SomeTrailer(ls: seq<Line>, ts: seq<Trailer>)
    requires ls != [] && PrintedLines(ls) + "\r\n" == PrintedTrailers(ts) + "\r\n"
    ensures ts != []
  {
    hide PrintedTrailers;
    assert |PrintedLine(ls[0])| > 0;
    assert |PrintedLines(ls)| > 0;
    assert |PrintedTrailers(ts)| > 0;
    assert PrintedTrailers([]) == "" by { NoTrailers(); }
  }

  lemma NoTrailers()
    ensures PrintedTrailers([]) == ""
  {
  }

  lemma {:induction false} PayloadSame(b: Payload, b': Body)
    requires b.InChunks? && b'.Chunked? && PrintedPayload(b) == PrintedBody(b')
    requires (forall i :: 0 <= i < |b.chunks| ==> LegalPart(b.chunks[i])) && |Datas(b.chunks)| <= LONG_MAX
    requires LegalSize(b.lastSize, 0) && LegalExtensions(b.lastExtension)
    requires forall i :: 0 <= i < |b.trailers| ==> LegalLine(b.trailers[i])
    requires (forall i :: 0 <= i < |b'.chunks| ==> LegalChunk(b'.chunks[i]))
    requires AllAlnum(b'.lastSize) && StrtolHex(b'.lastSize) == 0 && LegalExtension(b'.lastExtension)
    requires forall i :: 0 <= i < |b'.trailers| ==> LegalTrailer(b'.trailers[i])
    ensures (forall i :: 0 <= i < |b.chunks| ==> LegalExtension(b.chunks[i].extension))
    ensures LegalExtension(b.lastExtension) && forall i :: 0 <= i < |b.trailers| ==> ReadableTrailer(b.trailers[i])
    decreases |b.chunks|
  {
    hide LegalSize, LegalExtensions, LegalExtension, LegalLine, LegalTrailer, AllAlnum, StrtolHex, PrintedPayload,
      PrintedBody, PrintedChunks, ReadableTrailer, StartsExtension;
    var (size, e, u) := PayloadFirst(b);
    var (size', e', v) := BodyFirst(b');
    PayloadStarts(b);
    BodyStarts(b');
    SizeLineSame(size, e, u, size', e', v);
    if b.chunks == [] {
      assert b'.chunks == [];
      TrailersSame(b.trailers, b'.trailers);
    } else {
      assert b'.chunks != [];
      var data, later := b.chunks[0].data, b.(chunks := b.chunks[1..]);
      var data', later' := b'.chunks[0].data, b'.(chunks := b'.chunks[1..]);
      SameTail(data, "\r\n" + PrintedPayload(later), data', "\r\n" + PrintedBody(later'));
      SameTail("\r\n", PrintedPayload(later), "\r\n", PrintedBody(later'));
      PayloadSame(later, later');
    }
  }

  // The first size, its extension and what is behind its line.
  function PayloadFirst(b: Payload): (string, string, string)
    requires b.InChunks?
  {
    if b.chunks == [] then (b.lastSize, b.lastExtension, PrintedLines(b.trailers) + "\r\n")
    else (b.chunks[0].size, b.chunks[0].extension,
          b.chunks[0].data + ("\r\n" + PrintedPayload(b.(chunks := b.chunks[1..]))))
  }

  function BodyFirst(b: Body): (string, string, string)
    requires b.Chunked?
  {
    if b.chunks == [] then (b.lastSize, b.lastExtension, PrintedTrailers(b.trailers) + "\r\n")
    else (b.chunks[0].size, b.chunks[0].extension,
          b.chunks[0].data + ("\r\n" + PrintedBody(b.(chunks := b.chunks[1..]))))
  }

  lemma PayloadStarts(b: Payload)
    requires b.InChunks? && |Datas(b.chunks)| <= LONG_MAX
    requires (forall i :: 0 <= i < |b.chunks| ==> LegalPart(b.chunks[i]))
    requires LegalSize(b.lastSize, 0) && LegalExtensions(b.lastExtension)
    ensures var (size, e, u) := PayloadFirst(b);
            && PrintedPayload(b) == size + (e + ("\r\n" + u)) && AllAlnum(size) && StartsExtension(e)
            && StrtolHex(size) == if b.chunks == [] then 0 else |b.chunks[0].data|
    ensures b.chunks != [] ==> b.chunks[0].data != "" && |Datas(b.chunks[1..])| <= LONG_MAX
  {
    hide LegalSize, LegalExtensions, StartsExtension, AllAlnum, StrtolHex, PrintedLines;
    var tail := (b.lastSize + (b.lastExtension + "\r\n")) + (PrintedLines(b.trailers) + "\r\n");
    if b.chunks == [] {
      SizeRead(b.lastSize, 0);
      ExtensionStarts(b.lastExtension);
      assert PrintedChunks([]) + tail == tail;
      LastSplit(b.lastSize, b.lastExtension, "\r\n", PrintedLines(b.trailers) + "\r\n");
    } else {
      var c := b.chunks[0];
      SizeRead(c.size, |c.data|);
      ExtensionStarts(c.extension);
      ChunkJoin(c.size, c.extension, c.data, "\r\n", PrintedChunks(b.chunks[1..]), tail);
    }
  }

  lemma LastSplit(size: string, e: string, crlf: string, tail: string)
    ensures (size + (e + crlf)) + tail == size + (e + (crlf + tail))
  {
  }

  lemma BodyStarts(b: Body)
    requires b.Chunked? && (forall i :: 0 <= i < |b.chunks| ==> LegalChunk(b.chunks[i]))
    requires AllAlnum(b.lastSize) && StrtolHex(b.lastSize) == 0 && LegalExtension(b.lastExtension)
    ensures var (size, e, u) := BodyFirst(b);
            && PrintedBody(b) == size + (e + ("\r\n" + u)) && AllAlnum(size) && StartsExtension(e) && LegalExtension(e)
            && StrtolHex(size) == if b.chunks == [] then 0 else |b.chunks[0].data|
    ensures b.chunks != [] ==> b.chunks[0].data != ""
  {
    hide LegalExtension, StartsExtension, AllAlnum, StrtolHex, PrintedBody;
    if b.chunks == [] {
      ExtensionStarts(b.lastExtension);
      LastJoin(b);
    } else {
      ExtensionStarts(b.chunks[0].extension);
      assert b.chunks == [b.chunks[0]] + b.chunks[1..];
      ChunksJoin(b.chunks[0], b.(chunks := b.chunks[1..]));
    }
  }

  // --- main results -----------------------------------------------------------------------------

  // The content of a body in chunks is shorter than the body.
  lemma {:induction false} ShorterContent(cs: seq<Chunk>)
    ensures |Datas(cs)| <= |PrintedChunks(cs)|
  {
    if cs != [] {
      ShorterContent(cs[1..]);
    }
  }

  lemma SameFraming(b: Payload, b': Body)
    requires PrintedPayload(b) == PrintedBody(b') && DataOf(b) == ContentOf(b')
    ensures b.Whole? <==> b'.Sized?
  {
    hide PrintedChunks, PrintedLines, PrintedTrailers, Datas;
    if b.InChunks? {
      ShorterContent(b.chunks);
    }
    if b'.Chunked? {
      ShorterContent(b'.chunks);
    }
  }

  // One and the same text as a reply and in the parser's grammar, with one meaning.
  lemma SameReadable(m: Reply, t: Text)
    requires LegalReply(m) && WellFormed(t) && Written(t) == PrintedReply(m) && ReadAs(t) == MeaningOf(m)
    ensures Readable(m)
  {
    hide LegalLine, LegalField, PrintedLines, PrintedFields, PrintedPayload, PrintedBody, HeadsOf, HeadersOf,
      KeepAlive, IsNumber, VersionOf, CodeOf, ReadableLine, ReadablePayload, LegalPayload, LegalBody, DataOf,
      ContentOf, StatusLine, Decimal;
    var u, v := "\n" + PrintedPayload(m.body), [t.end] + PrintedBody(t.body);
    NumbersPrinted(m);
    assert "\r\n" + PrintedPayload(m.body) == "\r" + u;
    StatusSame(Decimal(m.major), Decimal(m.minor), Decimal(m.code), t.major, t.minor, t.code, m.reason,
               PrintedLines(m.lines) + ("\r" + u), PrintedFields(t.fields) + ("\r" + v));
    LinesSame(m.lines, u, t.fields, v);
    SameTail("\n", PrintedPayload(m.body), [t.end], PrintedBody(t.body));
    SameFraming(m.body, t.body);
    SamePayload(m, t.body);
  }

  lemma NumbersPrinted(m: Reply)
    ensures IsNumber(Decimal(m.major)) && IsNumber(Decimal(m.minor)) && IsNumber(Decimal(m.code))
  {
  }

  lemma SamePayload(m: Reply, b: Body)
    requires LegalReply(m) && LegalBody(PlainFields(m.lines), b) && (m.body.Whole? <==> b.Sized?)
    requires PrintedPayload(m.body) == PrintedBody(b)
    ensures ReadablePayload(m)
  {
    hide LegalReply, LegalBody, ReadablePayload, PrintedPayload, PrintedBody, PlainFields;
    if m.body.Whole? {
      assert b == Sized(m.body.data) by { WholeSame(m.body, b); }
      WholeReadable(m);
    } else {
      InChunksReadable(m, b);
    }
  }

  lemma WholeSame(b: Payload, b': Body)
    requires b.Whole? && b'.Sized? && PrintedPayload(b) == PrintedBody(b')
    ensures b' == Sized(b.data)
  {
  }

  lemma InChunksReadable(m: Reply, b: Body)
    requires LegalReply(m) && LegalBody(PlainFields(m.lines), b) && m.body.InChunks? && b.Chunked?
    requires PrintedPayload(m.body) == PrintedBody(b)
    ensures ReadablePayload(m)
  {
    hide LegalLine, LegalPart, SaysChunked, SaysChunks, LegalExtension, LegalExtensions, LegalTrailer, LegalChunk,
      LegalSize, ReadableTrailer, PrintedPayload, PrintedBody, AllAlnum, StrtolHex, FramedByChunks, HasLength,
      LengthsSay, AllText, PlainFields, DeclaredLength, IsTransfer;
    PlainChunked(m.lines);
    assert !NoBody(m.code);
    PayloadSame(m.body, b);
  }
}
