/**
 Feeding, reachable states and length accounting of the HTTP response parser.
 */
module HttpTheorems {
  import opened CText
  import opened HttpParser

  // --- how the bytes are fed ----------------------------------------------------------------

  lemma {:induction false} RunConcat(m: Machine, a: string, b: string)
    ensures Run(m, a + b) ==
            (if Run(m, a).1.ParsingIncompleted? then Run(Run(m, a).0, b) else Run(m, a))
    decreases a
  {
    if a == "" {
      assert a + b == b;
    } else {
      hide Step;
      assert (a + b)[1..] == a[1..] + b;
      var (m', r) := Step(m, a[0]);
      if r.ParsingIncompleted? {
        RunConcat(m', a[1..], b);
      }
    }
  }

  // Calling parse on one piece after another, up to the first terminal verdict.
  function Feed(m: Machine, pieces: seq<string>): (Machine, ParseResult)
    decreases pieces
  {
    if pieces == [] then (m, ParsingIncompleted)
    else
      var (m', r) := Run(m, pieces[0]);
      if r.ParsingIncompleted? then Feed(m', pieces[1..]) else (m', r)
  }

  // However the bytes are cut, parser, response and verdict are those of one call.
  lemma {:induction false} FeedIndependence(m: Machine, pieces: seq<string>)
    ensures Feed(m, pieces) == Run(m, Flatten(pieces))
    decreases pieces
  {
    if pieces != [] {
      hide Run;
      RunConcat(m, pieces[0], Flatten(pieces[1..]));
      FeedIndependence(Run(m, pieces[0]).0, pieces[1..]);
    } else {
      assert Run(m, "") == (m, ParsingIncompleted);
    }
  }

  // How many bytes consume looks at.
  function Consumed(m: Machine, s: string): (n: nat)
    ensures n <= |s|
    decreases s
  {
    if s == "" then 0
    else
      var (m', r) := Step(m, s[0]);
      if r.ParsingIncompleted? then 1 + Consumed(m', s[1..]) else 1
  }

  // Every shorter prefix of what is consumed is incomplete; the consumed part alone decides.
  lemma {:induction false} PrefixIncomplete(m: Machine, s: string, k: nat)
    requires k <= |s|
    ensures k < Consumed(m, s) ==> Run(m, s[..k]).1.ParsingIncompleted?
    ensures Consumed(m, s) <= k ==> Run(m, s[..k]) == Run(m, s)
    decreases s
  {
    hide Step;
    if k > 0 {
      var (m', r) := Step(m, s[0]);
      assert s[..k][0] == s[0] && s[..k][1..] == s[1..][..k - 1];
      if r.ParsingIncompleted? {
        PrefixIncomplete(m', s[1..], k - 1);
      }
    }
  }

  // --- reachable states ---------------------------------------------------------------------

  // The length the last complete Content-Length field announces, 0 without one.
  function DeclaredLength(hs: seq<Header>): nat {
    if hs == [] then 0
    else if IsContentLength(hs[|hs| - 1]) then LengthOf(hs[|hs| - 1].value)
    else DeclaredLength(hs[..|hs| - 1])
  }

  predicate LegalHeader(h: Header) {
    h.name != "" && (forall i :: 0 <= i < |h.name| ==> IsToken(h.name[i])) && NoControl(h.value)
  }

  predicate AllLegal(hs: seq<Header>) {
    forall i :: 0 <= i < |hs| ==> LegalHeader(hs[i])
  }

  predicate NoControl(v: string) {
    forall i :: 0 <= i < |v| ==> !IsControl(v[i])
  }

  predicate AfterStatusCode(st: State) {
    !InStatusLine(st) || st.StatusTextStart? || st.StatusText? || st.StatusNewLine?
  }

  predicate InChunks(st: State) {
    !InStatusLine(st) && !InHeaders(st) && !st.Post?
  }

  predicate ReadingSize(st: State) {
    st.ChunkSize? || st.ChunkExtensionName? || st.ChunkExtensionValue? || st.ChunkSizeNewLine?
  }

  // The header fields as far as contentSize reflects them.
  ghost predicate SizeFits(m: Machine) {
    var hs := m.resp.headers;
    if m.state.HeaderName? || m.state.SpaceBeforeHeaderValue? then
      hs != [] && m.contentSize == DeclaredLength(hs[..|hs| - 1])
    else if m.state.HeaderValue? then
      hs != [] && (!IsContentLength(hs[|hs| - 1]) ==> m.contentSize == DeclaredLength(hs[..|hs| - 1]))
    else
      m.contentSize == DeclaredLength(hs)
  }

  // What holds between any two bytes of any input.
  ghost predicate Inv(m: Machine) {
    && HasHeader(m)
    && m.chunkSize <= LONG_MAX && m.contentSize < TWO_64
    && (AfterStatusCode(m.state) ==> 100 <= m.resp.statusCode <= 999)
    && ((!InStatusLine(m.state) || m.state.StatusText? || m.state.StatusNewLine?) ==> m.resp.status != "")
    && AllLegal(m.resp.headers)
    && (InStatusLine(m.state) ==>
          m.resp.headers == [] && m.contentSize == 0 && !m.chunked && !m.resp.keepAlive)
    && (InStatusLine(m.state) || InHeaders(m.state) ==> m.resp.content == "" && m.chunkSize == 0)
    && (InHeaders(m.state) ==> SizeFits(m))
    && (m.state.Post? ==>
          !m.chunked && m.contentSize > 0 && |m.resp.content| + m.contentSize == DeclaredLength(m.resp.headers))
    && (InChunks(m.state) ==> m.chunked)
    && (m.state.ChunkData? <==> m.chunkSize > 0)
    && (!ReadingSize(m.state) ==> m.chunkSizeStr == "")
    && AllAlnum(m.chunkSizeStr)
  }

  // What holds when the parser reports completion.
  ghost predicate CompletedOk(m: Machine) {
    && 100 <= m.resp.statusCode <= 999 && m.resp.status != ""
    && AllLegal(m.resp.headers)
    && (!m.chunked ==> |m.resp.content| == DeclaredLength(m.resp.headers))
  }

  lemma StatusLineInv(m: Machine, c: char)
    requires Inv(m) && InStatusLine(m.state) && StatusLineStep(m, c).1.ParsingIncompleted?
    ensures Inv(StatusLineStep(m, c).0)
  {
    hide Int32, AllLegal, AllAlnum, IsChar, DigitValue;
  }

  lemma DeclaredLengthPush(hs: seq<Header>, h: Header)
    ensures DeclaredLength(hs + [h]) == if IsContentLength(h) then LengthOf(h.value) else DeclaredLength(hs)
  {
    assert (hs + [h])[..|hs|] == hs;
  }

  lemma ReplaceLast(hs: seq<Header>, h: Header)
    requires hs != [] && AllLegal(hs) && LegalHeader(h)
    ensures var hs' := hs[..|hs| - 1] + [h];
            && AllLegal(hs') && hs'[..|hs'| - 1] == hs[..|hs| - 1] && hs'[|hs'| - 1] == h
            && DeclaredLength(hs') == if IsContentLength(h) then LengthOf(h.value) else DeclaredLength(hs[..|hs| - 1])
  {
    hide LegalHeader, LengthOf, IsContentLength;
    DeclaredLengthPush(hs[..|hs| - 1], h);
  }

  // One more character on the last header's name or value.
  lemma GrownHeaderInv(m: Machine, h: Header, st: State)
    requires Inv(m) && InHeaders(m.state) && m.resp.headers != [] && LegalHeader(h)
    requires st == HeaderName || st == HeaderValue
    requires m.state.HeaderName? || m.state.HeaderValue? || m.state.HeaderLws?
    requires st == HeaderName <==> m.state.HeaderName?
    requires st == HeaderValue ==> IsContentLength(h) == IsContentLength(Last(m.resp))
    ensures Inv(m.(resp := WithLast(m.resp, h), state := st))
  {
    hide LegalHeader, LengthOf, IsContentLength;
    ReplaceLast(m.resp.headers, h);
  }

  lemma LegalPush(hs: seq<Header>, h: Header)
    requires AllLegal(hs) && LegalHeader(h)
    ensures AllLegal(hs + [h])
  {
    hide LegalHeader;
  }

  lemma NewHeaderInv(m: Machine, h: Header)
    requires Inv(m) && m.state.HeaderLineStart? && LegalHeader(h)
    ensures Inv(m.(resp := m.resp.(headers := m.resp.headers + [h]), state := HeaderName))
  {
    hide LegalHeader, LengthOf, IsContentLength, DeclaredLength, AllLegal, AllAlnum;
    var hs := m.resp.headers + [h];
    LegalPush(m.resp.headers, h);
    PushedFront(m.resp.headers, h);
    var m' := m.(resp := m.resp.(headers := hs), state := HeaderName);
    assert SizeFits(m');
    hide SizeFits;
  }

  lemma PushedFront(hs: seq<Header>, h: Header)
    ensures (hs + [h])[..|hs + [h]| - 1] == hs
  {
  }

  // The bytes of the header block that only change the state.
  lemma HeaderMoveInv(m: Machine, c: char)
    requires Inv(m) && InHeaders(m.state) && HeaderStep(m, c).1.ParsingIncompleted?
    requires var st := HeaderStep(m, c).0.state;
             !st.HeaderName? && (st.HeaderValue? ==> m.state.SpaceBeforeHeaderValue?)
    ensures Inv(HeaderStep(m, c).0)
  {
    hide HeaderStep, Inv;
    if m.state.HeaderValue? {
      ValueEndInv(m, c);
    } else if m.state.ExpectingNewline_3? {
      BlockEndInv(m, c);
    } else {
      OtherMoveInv(m, c);
    }
  }

  // The end of a header line.
  lemma ValueEndInv(m: Machine, c: char)
    requires Inv(m) && m.state.HeaderValue? && HeaderStep(m, c).1.ParsingIncompleted?
    requires !HeaderStep(m, c).0.state.HeaderValue?
    ensures Inv(HeaderStep(m, c).0)
  {
    LastPushed(m.resp);
    hide LengthOf, KeepAlive, IsContentLength, IsChunkedEncoding, IsToken, IsControl, WithLast, AllLegal, AllAlnum,
      DeclaredLength;
  }

  // The end of the header block.
  lemma BlockEndInv(m: Machine, c: char)
    requires Inv(m) && m.state.ExpectingNewline_3? && HeaderStep(m, c).1.ParsingIncompleted?
    ensures Inv(HeaderStep(m, c).0)
  {
    hide LengthOf, KeepAlive, IsContentLength, IsChunkedEncoding, IsToken, IsControl, WithLast, AllLegal, AllAlnum,
      DeclaredLength;
  }

  lemma OtherMoveInv(m: Machine, c: char)
    requires Inv(m) && InHeaders(m.state) && HeaderStep(m, c).1.ParsingIncompleted?
    requires !m.state.HeaderValue? && !m.state.ExpectingNewline_3?
    requires var st := HeaderStep(m, c).0.state;
             !st.HeaderName? && (st.HeaderValue? ==> m.state.SpaceBeforeHeaderValue?)
    ensures Inv(HeaderStep(m, c).0)
  {
    LastPushed(m.resp);
    hide LengthOf, KeepAlive, IsContentLength, IsChunkedEncoding, IsToken, IsControl, WithLast, AllLegal, AllAlnum,
      DeclaredLength;
  }

  lemma LastPushed(r: Response)
    ensures r.headers != [] ==>
              var last := r.headers[|r.headers| - 1];
              DeclaredLength(r.headers) ==
              if IsContentLength(last) then LengthOf(last.value) else DeclaredLength(r.headers[..|r.headers| - 1])
  {
  }

  lemma HeaderInv(m: Machine, c: char)
    requires Inv(m) && InHeaders(m.state) && HeaderStep(m, c).1.ParsingIncompleted?
    ensures Inv(HeaderStep(m, c).0)
  {
    hide LengthOf, KeepAlive, EqualNoCase, IsToken, IsControl, WithLast, DeclaredLength;
    var m' := HeaderStep(m, c).0;
    if m'.state.HeaderName? || (m'.state.HeaderValue? && !m.state.SpaceBeforeHeaderValue?) {
      if m.state.HeaderLineStart? {
        NewHeaderInv(m, Header([c], ""));
      } else {
        var h := Last(m.resp);
        var h' := if m'.state.HeaderName? then h.(name := h.name + [c]) else h.(value := h.value + [c]);
        assert LegalHeader(h);
        GrownHeaderInv(m, h', m'.state);
      }
    } else {
      HeaderMoveInv(m, c);
    }
  }

  lemma BodyInv(m: Machine, c: char)
    requires Inv(m) && !InStatusLine(m.state) && !InHeaders(m.state) && BodyStep(m, c).1.ParsingIncompleted?
    ensures Inv(BodyStep(m, c).0)
  {
    hide StrtolHex, DeclaredLength, AllLegal;
  }

  lemma StepInv(m: Machine, c: char)
    requires Inv(m)
    ensures Step(m, c).1.ParsingIncompleted? ==> Inv(Step(m, c).0)
    ensures Step(m, c).1.ParsingCompleted? ==> CompletedOk(Step(m, c).0)
  {
    hide AllLegal, DeclaredLength, KeepAlive, LengthOf, StrtolHex, Int32;
    if Step(m, c).1.ParsingIncompleted? {
      if InStatusLine(m.state) {
        StatusLineInv(m, c);
      } else if InHeaders(m.state) {
        HeaderInv(m, c);
      } else {
        BodyInv(m, c);
      }
    }
  }

  // Every state reached on any input satisfies Inv; completion delivers what was declared.
  lemma {:induction false} RunInv(m: Machine, s: string)
    requires Inv(m)
    ensures Run(m, s).1.ParsingIncompleted? ==> Inv(Run(m, s).0)
    ensures Run(m, s).1.ParsingCompleted? ==> CompletedOk(Run(m, s).0)
    decreases s
  {
    if s != "" {
      hide Step, Inv, CompletedOk;
      StepInv(m, s[0]);
      var (m', r) := Step(m, s[0]);
      if r.ParsingIncompleted? {
        RunInv(m', s[1..]);
      }
    }
  }

  // --- length accounting --------------------------------------------------------------------

  // Body bytes still to come for what was announced.
  function Owed(m: Machine): nat {
    if m.state.Post? then m.contentSize else if m.state.ChunkData? then m.chunkSize else 0
  }

  // Body bytes the byte c announces: a chunk's size line, or the end of a sized header block.
  function Announce(m: Machine, c: char): nat {
    if m.state.ChunkSizeNewLine? && c == '\n' then StrtolHex(m.chunkSizeStr)
    else if m.state.ExpectingNewline_3? && !m.chunked then m.contentSize
    else 0
  }

  // The sum of all announcements while s is parsed.
  function Announced(m: Machine, s: string): nat
    decreases s
  {
    if s == "" then 0
    else
      var (m', r) := Step(m, s[0]);
      Announce(m, s[0]) + if r.ParsingIncompleted? then Announced(m', s[1..]) else 0
  }

  lemma StatusLineConserves(m: Machine, c: char)
    requires InStatusLine(m.state)
    ensures var m' := StatusLineStep(m, c).0;
            |m'.resp.content| + Owed(m') == |m.resp.content| + Owed(m) + Announce(m, c)
  {
    hide Int32, IsChar, DigitValue, IsDigit;
  }

  lemma HeaderConserves(m: Machine, c: char)
    requires InHeaders(m.state) && (HeaderStep(m, c).1.ParsingIncompleted? || HeaderStep(m, c).1.ParsingCompleted?)
    ensures var m' := HeaderStep(m, c).0;
            |m'.resp.content| + Owed(m') == |m.resp.content| + Owed(m) + Announce(m, c)
  {
    hide KeepAlive, LengthOf, IsContentLength, IsChunkedEncoding, IsToken, IsControl;
  }

  lemma BodyConserves(m: Machine, c: char)
    requires Inv(m) && !InStatusLine(m.state) && !InHeaders(m.state)
    requires BodyStep(m, c).1.ParsingIncompleted? || BodyStep(m, c).1.ParsingCompleted?
    ensures var m' := BodyStep(m, c).0;
            |m'.resp.content| + Owed(m') == |m.resp.content| + Owed(m) + Announce(m, c)
  {
    hide AllLegal, DeclaredLength, StrtolHex, AllAlnum, IsAlnum, IsAlpha;
  }

  lemma StepConserves(m: Machine, c: char)
    requires Inv(m) && (Step(m, c).1.ParsingIncompleted? || Step(m, c).1.ParsingCompleted?)
    ensures var m' := Step(m, c).0;
            |m'.resp.content| + Owed(m') == |m.resp.content| + Owed(m) + Announce(m, c)
  {
    hide Inv, StatusLineStep, HeaderStep, BodyStep;
    if InStatusLine(m.state) {
      StatusLineConserves(m, c);
    } else if InHeaders(m.state) {
      HeaderConserves(m, c);
    } else {
      BodyConserves(m, c);
    }
  }

  // Received and owed body bytes always add up to what was announced.
  lemma {:induction false} RunConserves(m: Machine, s: string)
    requires Inv(m) && (Run(m, s).1.ParsingIncompleted? || Run(m, s).1.ParsingCompleted?)
    ensures var m' := Run(m, s).0;
            |m'.resp.content| + Owed(m') == |m.resp.content| + Owed(m) + Announced(m, s)
    decreases s
  {
    if s != "" {
      hide Step, Inv, Owed, Announce;
      StepConserves(m, s[0]);
      StepInv(m, s[0]);
      var (m', r) := Step(m, s[0]);
      if r.ParsingIncompleted? {
        RunConserves(m', s[1..]);
      }
    }
  }
}
