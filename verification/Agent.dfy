/**
 From the bytes libcurl delivers to the answer a request gets: AgentCurl::request in
 service-provider/agent_curl.cpp, with the header tracker and the response parser together.
 */
module Agent {
  import opened CText
  import opened HeaderBlocks
  import opened HttpGrammar
  import opened HttpMessage
  import opened HttpParser
  import HttpReply
  import HttpRfc
  import opened HttpTheorems
  import opened Ias

  // What a request makes of the text from header_pos on; None where the parser's exception, which
  // nobody catches, ends the program.
  function AnswerOf(text: string): Option<Answer> {
    var (m, result) := Run(INIT, text);
    match result
    case ParsingCompleted => Some(Reply(m.resp.statusCode, m.resp.headers, m.resp.content))
    case LengthError => None
    case _ => Some(Unreachable)
  }

  // The transfer and then the parse.
  method Perform(agent: AgentCurl, lines: seq<string>, pieces: seq<string>) returns (a: Option<Answer>)
    requires agent.Tracks([]) && agent.sresponse == ""
    modifies agent
    ensures a == AnswerOf(Flatten(lines[LastBlock(lines)..]) + Flatten(pieces))
  {
    agent.Transfer(lines, pieces);
    var response := new ResponseObject();
    var parser := new HttpResponseParser();
    var result := parser.Parse(response, agent.sresponse[agent.headerPos..]);
    match result
    case ParsingCompleted => a := Some(Reply(response.statusCode, response.headers, response.content));
    case LengthError => a := None;
    case _ => a := Some(Unreachable);
  }

  // A header line as libcurl delivers it, and the empty line that ends a block.
  ghost predicate IsHeaderLine(line: string) {
    exists t :: t != "" && '\r' !in t && '\n' !in t && (line == t + "\r\n" || line == t + "\n")
  }

  predicate IsEmptyLine(line: string) {
    line == "\r\n" || line == "\n"
  }

  lemma LinesBlank(line: string)
    ensures IsHeaderLine(line) ==> !IsBlank(line)
    ensures IsEmptyLine(line) ==> IsBlank(line)
  {
    if t :| t != "" && '\r' !in t && '\n' !in t && (line == t + "\r\n" || line == t + "\n") {
      assert line[0] == t[0] && t[0] in t;
    }
  }

  // Behind any header blocks of proxies, each with its empty lines, and however the body is cut: the
  // request is answered exactly if the last block and the body start with a text of the parser's grammar,
  // and then with its code, headers and content.
  lemma AnswerOfResponse(front: seq<string>, block: seq<string>, ends: seq<string>, pieces: seq<string>)
    requires forall i :: 0 <= i < |front| ==> IsHeaderLine(front[i]) || IsEmptyLine(front[i])
    requires front == [] || IsEmptyLine(front[|front| - 1])
    requires block != [] && forall i :: 0 <= i < |block| ==> IsHeaderLine(block[i])
    requires forall i :: 0 <= i < |ends| ==> IsEmptyLine(ends[i])
    ensures var lines := front + block + ends;
            var a := AnswerOf(Flatten(lines[LastBlock(lines)..]) + Flatten(pieces));
            var text := Flatten(block + ends) + Flatten(pieces);
            && (a.Some? && a.value.Reply? <==> exists t :: WellFormed(t) && Written(t) <= text)
            && forall t :: WellFormed(t) && Written(t) <= text ==>
                 a == Some(Reply(CodeOf(t.code), HeadersOf(t.fields), ContentOf(t.body)))
  {
    LastOfLines(front, block, ends);
    hide Run, LegalBody, LegalField, LegalReason, Written, Flatten, LastBlock, HttpParser.Step, CodeOf, HeadersOf,
      ContentOf, IsHeaderLine, IsEmptyLine;
    var text := Flatten(block + ends) + Flatten(pieces);
    CompletesExactly(text);
    forall t | WellFormed(t) && Written(t) <= text
      ensures AnswerOf(text) == Some(Reply(CodeOf(t.code), HeadersOf(t.fields), ContentOf(t.body)))
    {
      StartsWithText(text, t);
      Parts(t);
    }
  }

  lemma LastOfLines(front: seq<string>, block: seq<string>, ends: seq<string>)
    requires front == [] || IsEmptyLine(front[|front| - 1])
    requires block != [] && forall i :: 0 <= i < |block| ==> IsHeaderLine(block[i])
    requires forall i :: 0 <= i < |ends| ==> IsEmptyLine(ends[i])
    ensures var lines := front + block + ends; lines[LastBlock(lines)..] == block + ends
  {
    hide IsHeaderLine, IsEmptyLine, IsBlank, LastBlock;
    if front != [] {
      LinesBlank(front[|front| - 1]);
    }
    forall i | 0 <= i < |block| ensures !IsBlank(block[i]) {
      LinesBlank(block[i]);
    }
    forall i | 0 <= i < |ends| ensures IsBlank(ends[i]) {
      LinesBlank(ends[i]);
    }
    LastOfBlocks(front, block, ends);
  }

  lemma Parts(t: Text)
    requires WellFormed(t)
    ensures ReadAs(t).statusCode == CodeOf(t.code) && ReadAs(t).headers == HeadersOf(t.fields)
    ensures ReadAs(t).content == ContentOf(t.body)
  {
    hide KeepAlive, LegalBody, LegalField, LegalReason, CodeOf, VersionOf;
  }

  // --- replies of RFC 7230 ----------------------------------------------------------------------

  function FieldLines(ls: seq<HttpReply.Line>): (lines: seq<string>)
    ensures |lines| == |ls|
  {
    seq(|ls|, i requires 0 <= i < |ls| => HttpReply.PrintedLine(ls[i]))
  }

  // The lines of a reply's header block, up to the empty one.
  function HeadLines(m: HttpReply.Reply): seq<string> {
    [HttpReply.PrintedStart(m)] + FieldLines(m.lines)
  }

  lemma {:induction false} LinesFlat(ls: seq<HttpReply.Line>)
    ensures Flatten(FieldLines(ls)) == HttpReply.PrintedLines(ls)
  {
    if ls != [] {
      LinesFlat(ls[1..]);
      hide HttpReply.PrintedLine;
      assert FieldLines(ls)[1..] == FieldLines(ls[1..]);
    }
  }

  lemma HeadFlat(m: HttpReply.Reply)
    ensures Flatten(HeadLines(m)) == HttpReply.PrintedStart(m) + HttpReply.PrintedLines(m.lines)
  {
    LinesFlat(m.lines);
    hide HttpReply.PrintedStart, FieldLines, HttpReply.PrintedLines;
    assert HeadLines(m)[1..] == FieldLines(m.lines);
  }

  lemma StartIsLine(m: HttpReply.Reply)
    requires HttpReply.AllText(m.reason)
    ensures IsHeaderLine(HttpReply.PrintedStart(m))
  {
    var a, b, c := Decimal(m.major), Decimal(m.minor), Decimal(m.code);
    var t := "HTTP/" + (a + ("." + (b + (" " + (c + (" " + m.reason))))));
    hide Decimal;
    forall d | d == a || d == b || d == c ensures '\r' !in d && '\n' !in d {
      assert AllDigits(d);
    }
    assert HttpReply.PrintedStart(m) == t + "\r\n";
  }

  lemma FieldIsLine(l: HttpReply.Line)
    requires HttpReply.LegalLine(l)
    ensures IsHeaderLine(HttpReply.PrintedLine(l))
  {
    var t := l.name + (":" + (l.before + (l.value + l.after)));
    HttpReply.NoLineEnds(l);
    hide HttpReply.LegalLine;
    LineText(l.name, l.before, l.value, l.after, "\r\n");
    assert HttpReply.PrintedLine(l) == t + "\r\n" && t != "";
  }

  lemma LineText(name: string, a: string, b: string, c: string, end: string)
    ensures name + (":" + (a + (b + (c + end)))) == (name + (":" + (a + (b + c)))) + end
  {
    assert a + (b + (c + end)) == (a + (b + c)) + end;
  }

  // A readable reply of the RFC, behind any header blocks of proxies and with its body in any pieces, is the
  // answer to the request.
  lemma ReplyIsAnswered(front: seq<string>, m: HttpReply.Reply, pieces: seq<string>)
    requires forall i :: 0 <= i < |front| ==> IsHeaderLine(front[i]) || IsEmptyLine(front[i])
    requires front == [] || IsEmptyLine(front[|front| - 1])
    requires HttpReply.LegalReply(m) && HttpReply.Readable(m) && Flatten(pieces) == HttpReply.PrintedPayload(m.body)
    ensures var lines := front + HeadLines(m) + ["\r\n"];
            AnswerOf(Flatten(lines[LastBlock(lines)..]) + Flatten(pieces)) ==
            Some(Reply(m.code, HttpReply.HeadsOf(m.lines), HttpReply.DataOf(m.body)))
  {
    StartIsLine(m);
    forall i | 0 <= i < |m.lines| ensures IsHeaderLine(HttpReply.PrintedLine(m.lines[i])) {
      FieldIsLine(m.lines[i]);
    }
    HeadsAreLines(m);
    hide IsHeaderLine, LastBlock, HeadLines, HttpReply.PrintedLine, HttpReply.PrintedStart, AnswerOf, Flatten,
      HttpReply.LegalReply, HttpReply.Readable, HttpReply.PrintedPayload, HttpReply.HeadsOf, HttpReply.DataOf;
    LastOfLines(front, HeadLines(m), ["\r\n"]);
    ReplyText(m, pieces);
    AnswerOfReply(m);
  }

  lemma ReplyText(m: HttpReply.Reply, pieces: seq<string>)
    requires Flatten(pieces) == HttpReply.PrintedPayload(m.body)
    ensures Flatten(HeadLines(m) + ["\r\n"]) + Flatten(pieces) == HttpReply.PrintedReply(m)
  {
    HeadFlat(m);
    FlattenPush(HeadLines(m), "\r\n");
    hide Flatten, HttpReply.PrintedStart, HttpReply.PrintedLines, HttpReply.PrintedPayload, HeadLines;
    var start, lines := HttpReply.PrintedStart(m), HttpReply.PrintedLines(m.lines);
    var body := HttpReply.PrintedPayload(m.body);
    assert ((start + lines) + "\r\n") + body == start + (lines + ("\r\n" + body));
  }

  lemma AnswerOfReply(m: HttpReply.Reply)
    requires HttpReply.LegalReply(m) && HttpReply.Readable(m)
    ensures AnswerOf(HttpReply.PrintedReply(m)) ==
            Some(Reply(m.code, HttpReply.HeadsOf(m.lines), HttpReply.DataOf(m.body)))
  {
    HttpRfc.ReadExactly(m);
    hide Run, Consumed, HttpReply.PrintedReply, HttpReply.LegalReply, HttpReply.Readable, HttpReply.HeadsOf,
      HttpReply.DataOf, HttpReply.Persists;
  }

  lemma HeadsAreLines(m: HttpReply.Reply)
    requires IsHeaderLine(HttpReply.PrintedStart(m))
    requires forall i :: 0 <= i < |m.lines| ==> IsHeaderLine(HttpReply.PrintedLine(m.lines[i]))
    ensures forall i :: 0 <= i < |HeadLines(m)| ==> IsHeaderLine(HeadLines(m)[i])
  {
    hide IsHeaderLine, HttpReply.PrintedStart, HttpReply.PrintedLine;
  }
}
