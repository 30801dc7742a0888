/**
 What the sessions of a run read. rbuffer stays when a client goes, so that what one client sends
 beyond its messages is where the next one's messages are looked for.
 */
module SessionReads {
  import opened CText
  import opened Attestation
  import opened Crypto
  import opened Framing
  import opened MsgIO
  import opened Session
  import opened SessionTheorems

  // The frames with their terminators, and then the rest.
  ghost predicate Framed(text: string, frames: seq<string>, rest: string)
    decreases frames
  {
    if frames == [] then text == rest
    else exists tail :: Terminated(text, frames[0], tail) && Framed(tail, frames[1..], rest)
  }

  predicate Terminated(text: string, frame: string, tail: string) {
    text == frame + ("\n" + tail) || text == frame + ("\r\n" + tail)
  }

  lemma {:induction false} FramedMore(text: string, frames: seq<string>, rest: string, more: string)
    requires Framed(text, frames, rest)
    ensures Framed(text + more, frames, rest + more)
    decreases frames
  {
    if frames != [] {
      var tail :| Terminated(text, frames[0], tail) && Framed(tail, frames[1..], rest);
      FramedMore(tail, frames[1..], rest, more);
      TerminatedMore(text, frames[0], tail, more);
    }
  }

  lemma TerminatedMore(text: string, frame: string, tail: string, more: string)
    requires Terminated(text, frame, tail)
    ensures Terminated(text + more, frame, tail + more)
  {
    if text == frame + ("\n" + tail) {
      assert text + more == frame + ("\n" + (tail + more));
    } else {
      assert text + more == frame + ("\r\n" + (tail + more));
    }
  }

  lemma {:induction false} FramedJoin(text: string, frames: seq<string>, middle: string, frames': seq<string>,
                                      rest: string)
    requires Framed(text, frames, middle) && Framed(middle, frames', rest)
    ensures Framed(text, frames + frames', rest)
    decreases frames
  {
    if frames == [] {
      assert [] + frames' == frames';
    } else {
      var tail :| Terminated(text, frames[0], tail) && Framed(tail, frames[1..], middle);
      FramedJoin(tail, frames[1..], middle, frames', rest);
      assert (frames + frames')[1..] == frames[1..] + frames';
    }
  }

  // Two stretches of reading, the second starting from what the first leaves.
  lemma FramedOn(first: string, got: string, frames: seq<string>, middle: string, more: string, frames': seq<string>,
                 rest: string)
    requires Framed(first + got, frames, middle) && Framed(middle + more, frames', rest)
    ensures Framed(first + (got + more), frames + frames', rest)
  {
    hide Framed;
    FramedMore(first + got, frames, middle, more);
    FramedJoin((first + got) + more, frames, middle + more, frames', rest);
    Associative(first, got, more);
  }

  // --- one read ---------------------------------------------------------------------------------------

  // What arrives while incoming is used up to left.
  function Arrived(incoming: seq<RecvEvent>, left: seq<RecvEvent>): string {
    if |left| <= |incoming| then Bytes(incoming[..|incoming| - |left|]) else ""
  }

  lemma {:induction false} ReadSuffix(rbuffer: string, incoming: seq<RecvEvent>)
    ensures var left := ReadOutcome(rbuffer, incoming).2;
            |left| <= |incoming| && left == incoming[|incoming| - |left|..]
    decreases incoming
  {
    hide LineEnd, TakeLine;
    if incoming != [] {
      var later := incoming[1..];
      ReadSuffix(rbuffer, later);
      if incoming[0].Fragment? {
        ReadSuffix(rbuffer + incoming[0].data, later);
      }
    }
  }

  lemma {:induction false} BytesConcat(a: seq<RecvEvent>, b: seq<RecvEvent>)
    ensures Bytes(a + b) == Bytes(a) + Bytes(b)
  {
    if a == [] {
      assert a + b == b && "" + Bytes(b) == Bytes(b);
    } else {
      BytesConcat(a[1..], b);
      assert (a + b)[1..] == a[1..] + b && (a + b)[0] == a[0];
      var first := match a[0] case Fragment(data) => data case _ => "";
      Associative(first, Bytes(a[1..]), Bytes(b));
    }
  }

  function FrameOf(r: ReadResult): seq<string> {
    if r.Frame? then [r.text] else []
  }

  // A read takes its frame off what was buffered and what arrives, and the rest is buffered.
  lemma ReadFrames(rbuffer: string, incoming: seq<RecvEvent>)
    ensures var (r, rbuffer', incoming') := ReadOutcome(rbuffer, incoming);
            Framed(rbuffer + Arrived(incoming, incoming'), FrameOf(r), rbuffer')
  {
    ReadConserves(rbuffer, incoming);
    ReadSuffix(rbuffer, incoming);
    hide ReadOutcome, Bytes;
    var (r, rbuffer', incoming') := ReadOutcome(rbuffer, incoming);
    var n := |incoming| - |incoming'|;
    BytesConcat(incoming[..n], incoming[n..]);
    assert incoming == incoming[..n] + incoming[n..];
    var got, later := Arrived(incoming, incoming'), Bytes(incoming');
    if r.Frame? {
      assert FrameOf(r)[1..] == [];
      if rbuffer + Bytes(incoming) == r.text + ("\n" + (rbuffer' + later)) {
        Cancelled(rbuffer, got, later, r.text + ("\n" + rbuffer'));
        assert r.text + ("\n" + (rbuffer' + later)) == (r.text + ("\n" + rbuffer')) + later;
      } else {
        Cancelled(rbuffer, got, later, r.text + ("\r\n" + rbuffer'));
        assert r.text + ("\r\n" + (rbuffer' + later)) == (r.text + ("\r\n" + rbuffer')) + later;
      }
      assert Terminated(rbuffer + got, r.text, rbuffer');
      assert Framed(rbuffer', FrameOf(r)[1..], rbuffer');
    } else {
      Cancelled(rbuffer, got, later, rbuffer');
    }
  }

  lemma Cancelled(a: string, b: string, later: string, whole: string)
    ensures a + (b + later) == whole + later ==> a + b == whole
  {
    if a + (b + later) == whole + later {
      assert a + b == (a + (b + later))[..|a| + |b|];
      assert whole == (whole + later)[..|whole|];
      assert |a| + |b| == |whole|;
    }
  }

  // --- a session and a run --------------------------------------------------------------------------------

  function FramesOf(r: Record): seq<string> {
    FrameOf(r.first) + if r.third.Some? then FrameOf(r.third.value) else []
  }

  // All that arrives from a session's client.
  function ArrivedIn(s: Server, cl: Client, r: Record): string {
    var (_, rbuffer1, incoming1) := ReadOutcome(s.rbuffer, cl.incoming);
    if r.third.None? then Arrived(cl.incoming, incoming1)
    else Arrived(cl.incoming, incoming1) + Arrived(incoming1, ReadOutcome(rbuffer1, incoming1).2)
  }

  lemma SessionOfReads(c: Primitives, cfg: Config, s: Server, cl: Client)
    ensures var r := SessionOf(c, cfg, s, cl);
            var (r1, rbuffer1, incoming1) := ReadOutcome(s.rbuffer, cl.incoming);
            var (r3, rbuffer3, _) := ReadOutcome(rbuffer1, incoming1);
            && r.first == r1
            && (r.third.None? ==> r.after.rbuffer == rbuffer1)
            && (r.third.Some? ==> r.third.value == r3 && r.after.rbuffer == rbuffer3)
  {
    hide ReadOutcome, Opening, Quote, Conclusion, VerdictOf, SendOutcome, Msg2Text, Msg4, IsTrusted, Ciphertext,
      Fetch, Drop, SigrlQueries, ReportQuery;
  }

  lemma SessionFrames(c: Primitives, cfg: Config, s: Server, cl: Client)
    ensures var r := SessionOf(c, cfg, s, cl);
            Framed(s.rbuffer + ArrivedIn(s, cl, r), FramesOf(r), r.after.rbuffer)
  {
    SessionOfReads(c, cfg, s, cl);
    hide SessionOf, ReadOutcome, Framed, Arrived, FrameOf;
    var r := SessionOf(c, cfg, s, cl);
    var (r1, rbuffer1, incoming1) := ReadOutcome(s.rbuffer, cl.incoming);
    ReadFrames(s.rbuffer, cl.incoming);
    if r.third.None? {
      assert FramesOf(r) == FrameOf(r1);
    } else {
      ReadFrames(rbuffer1, incoming1);
      var got1, got3 := Arrived(cl.incoming, incoming1), Arrived(incoming1, ReadOutcome(rbuffer1, incoming1).2);
      FramedOn(s.rbuffer, got1, FrameOf(r1), rbuffer1, got3, FrameOf(r.third.value), r.after.rbuffer);
    }
  }

  function ArrivedOver(c: Primitives, cfg: Config, s: Server, clients: seq<Client>): string
    decreases clients
  {
    if clients == [] then ""
    else
      var r := SessionOf(c, cfg, s, clients[0]);
      ArrivedIn(s, clients[0], r) + if r.ending.Aborted? then "" else ArrivedOver(c, cfg, r.after, clients[1..])
  }

  function FramesOver(rs: seq<Record>): seq<string> {
    if rs == [] then [] else FramesOf(rs[0]) + FramesOver(rs[1..])
  }

  // Over a whole run: what was buffered at first and all that arrived is the frames the sessions read,
  // in order and each with its terminator, followed by what is buffered at the end.
  lemma {:induction false} RunReads(c: Primitives, cfg: Config, s: Server, clients: seq<Client>)
    ensures var rs := Run(c, cfg, s, clients);
            Framed(s.rbuffer + ArrivedOver(c, cfg, s, clients), FramesOver(rs), Final(s, rs).rbuffer)
    decreases clients
  {
    if clients == [] {
      assert s.rbuffer + "" == s.rbuffer;
    } else {
      hide SessionOf, ArrivedIn, FramesOf, Framed;
      var r := SessionOf(c, cfg, s, clients[0]);
      SessionFrames(c, cfg, s, clients[0]);
      var got := ArrivedIn(s, clients[0], r);
      var rs := Run(c, cfg, s, clients);
      if r.ending.Aborted? {
        assert got + "" == got && rs == [r];
        OneSession(r);
      } else {
        var rest := Run(c, cfg, r.after, clients[1..]);
        assert rs == [r] + rest;
        FinalAndFrames(s, r, rest);
        RunReads(c, cfg, r.after, clients[1..]);
        FramedOn(s.rbuffer, got, FramesOf(r), r.after.rbuffer, ArrivedOver(c, cfg, r.after, clients[1..]),
                 FramesOver(rest), Final(s, rs).rbuffer);
      }
    }
  }

  lemma OneSession(r: Record)
    ensures FramesOver([r]) == FramesOf(r)
  {
    hide FramesOf;
    assert [r][1..] == [] && FramesOf(r) + [] == FramesOf(r);
  }

  lemma FinalAndFrames(s: Server, r: Record, rest: seq<Record>)
    ensures Final(s, [r] + rest) == Final(r.after, rest)
    ensures FramesOver([r] + rest) == FramesOf(r) + FramesOver(rest)
  {
    hide FramesOf;
    assert ([r] + rest)[1..] == rest;
  }

  // --- what a client finds of an earlier one ----------------------------------------------------------------

  // The first frame is taken from what rbuffer held, and from what arrives only after it.
  lemma LeftoverFirst(c: Primitives, cfg: Config, s: Server, cl: Client)
    ensures var r := SessionOf(c, cfg, s, cl);
            r.first.Frame? ==>
              && r.first.text != "" && (r.first.text <= s.rbuffer || s.rbuffer <= r.first.text)
              && (s.rbuffer == "" ==> Framed(ArrivedIn(s, cl, r), FramesOf(r), r.after.rbuffer))
  {
    SessionFrames(c, cfg, s, cl);
    SessionOfReads(c, cfg, s, cl);
    ReadConserves(s.rbuffer, cl.incoming);
    hide SessionOf, ReadOutcome, ArrivedIn, Framed;
    var r := SessionOf(c, cfg, s, cl);
    assert "" + ArrivedIn(s, cl, r) == ArrivedIn(s, cl, r);
    if r.first.Frame? {
      var whole := s.rbuffer + Bytes(cl.incoming);
      assert r.first.text <= whole && s.rbuffer <= whole;
      BothPrefixes(r.first.text, s.rbuffer, whole);
    }
  }

  lemma BothPrefixes(a: string, b: string, whole: string)
    requires a <= whole && b <= whole
    ensures a <= b || b <= a
  {
    assert a == whole[..|a|] && b == whole[..|b|];
  }

  // Where all frames are hex digits, they are made of what the session's own client sends if and only if
  // rbuffer held nothing.
  lemma OwnFramesExactly(c: Primitives, cfg: Config, s: Server, cl: Client)
    requires forall i :: 0 <= i < |FramesOf(SessionOf(c, cfg, s, cl))| ==> AllHex(FramesOf(SessionOf(c, cfg, s, cl))[i])
    ensures var r := SessionOf(c, cfg, s, cl);
            Framed(ArrivedIn(s, cl, r), FramesOf(r), r.after.rbuffer) <==> s.rbuffer == ""
  {
    SessionFrames(c, cfg, s, cl);
    NoFrameEmpty(c, cfg, s, cl);
    hide SessionOf, ArrivedIn, FramesOf, Framed;
    var r := SessionOf(c, cfg, s, cl);
    var got := ArrivedIn(s, cl, r);
    assert "" + got == got;
    if Framed(got, FramesOf(r), r.after.rbuffer) {
      FramedOnce(s.rbuffer, got, FramesOf(r), r.after.rbuffer);
    }
  }

  lemma NoFrameEmpty(c: Primitives, cfg: Config, s: Server, cl: Client)
    ensures var fs := FramesOf(SessionOf(c, cfg, s, cl)); forall i :: 0 <= i < |fs| ==> fs[i] != ""
  {
    SessionOfReads(c, cfg, s, cl);
    hide SessionOf, ReadOutcome;
    var (_, rbuffer1, incoming1) := ReadOutcome(s.rbuffer, cl.incoming);
    ReadConserves(s.rbuffer, cl.incoming);
    ReadConserves(rbuffer1, incoming1);
  }

  function LineEnds(text: string): nat {
    multiset(text)['\n']
  }

  lemma NoEnds(frame: string)
    requires AllHex(frame)
    ensures LineEnds(frame) == 0 && '\r' !in frame
  {
    forall ch | ch in frame ensures ch != '\n' && ch != '\r' {
      assert exists i :: 0 <= i < |frame| && frame[i] == ch;
    }
  }

  lemma EndsAdd(a: string, b: string)
    ensures LineEnds(a + b) == LineEnds(a) + LineEnds(b)
  {
    assert multiset(a + b) == multiset(a) + multiset(b);
  }

  lemma TerminatorEnds()
    ensures LineEnds("\n") == 1 && LineEnds("\r\n") == 1
  {
    assert "\r\n" == ['\r', '\n'];
    assert multiset("\r\n") == multiset{'\r', '\n'};
  }

  // Every frame of hex digits ends one line.
  lemma {:induction false} FramedEnds(text: string, frames: seq<string>, rest: string)
    requires Framed(text, frames, rest) && forall i :: 0 <= i < |frames| ==> AllHex(frames[i])
    ensures LineEnds(text) == |frames| + LineEnds(rest)
    decreases frames
  {
    if frames != [] {
      hide AllHex, LineEnds;
      var tail :| Terminated(text, frames[0], tail) && Framed(tail, frames[1..], rest);
      FramedEnds(tail, frames[1..], rest);
      NoEnds(frames[0]);
      TerminatorEnds();
      EndsAdd(frames[0], "\n" + tail);
      EndsAdd(frames[0], "\r\n" + tail);
      EndsAdd("\n", tail);
      EndsAdd("\r\n", tail);
    }
  }

  // The same frames and rest in a text and in a part of it: nothing stands before the part.
  lemma FramedOnce(before: string, text: string, frames: seq<string>, rest: string)
    requires Framed(before + text, frames, rest) && Framed(text, frames, rest)
    requires forall i :: 0 <= i < |frames| ==> AllHex(frames[i]) && frames[i] != ""
    ensures before == ""
  {
    if frames == [] {
      assert |before + text| == |before| + |text|;
    } else {
      hide AllHex, LineEnds;
      FramedEnds(before + text, frames, rest);
      FramedEnds(text, frames, rest);
      EndsAdd(before, text);
      var tail1 :| Terminated(before + text, frames[0], tail1) && Framed(tail1, frames[1..], rest);
      var tail2 :| Terminated(text, frames[0], tail2) && Framed(tail2, frames[1..], rest);
      NoEnds(frames[0]);
      FirstOnce(before, text, frames[0], tail1, tail2);
    }
  }

  // What stands behind a frame.
  lemma BehindFrame(text: string, frame: string, tail: string)
    requires Terminated(text, frame, tail)
    ensures frame < text
    ensures text[|frame|] == '\n' || (|frame| + 1 < |text| && text[|frame|] == '\r' && text[|frame| + 1] == '\n')
  {
    if text == frame + ("\n" + tail) {
      assert text[|frame|] == ("\n" + tail)[0];
    } else {
      assert text[|frame|] == ("\r\n" + tail)[0] && text[|frame| + 1] == ("\r\n" + tail)[1];
    }
  }

  lemma FirstOnce(before: string, text: string, frame: string, tail1: string, tail2: string)
    requires Terminated(before + text, frame, tail1) && Terminated(text, frame, tail2)
    requires LineEnds(before) == 0 && LineEnds(frame) == 0 && '\r' !in frame && frame != ""
    ensures before == ""
  {
    var whole := before + text;
    BehindFrame(whole, frame, tail1);
    BehindFrame(text, frame, tail2);
    assert before <= whole;
    assert forall k :: |before| <= k < |whole| ==> whole[k] == text[k - |before|];
    assert forall k :: 0 <= k < |frame| ==> frame[k] == text[k];
    assert '\n' !in before && '\n' !in frame;
  }

  // Other frames can be made up from what was left as well as without it.
  lemma OwnFramesUnseen()
    ensures ReadOutcome("\r", [Fragment("\r\r\n")]) == (Frame("\r\r"), "", [])
    ensures Framed("\r\r\n", ["\r\r"], "")
  {
    var text := "\r\r\r\n";
    assert "\r" + "\r\r\n" == text;
    FindCrLfIs(text);
    assert text[2] == '\r' && text[3] == '\n';
    assert LineEnd(text) == Some((2, 2));
    assert text[..2] == "\r\r" && text[4..] == "";
    assert Terminated("\r\r\n", "\r\r", "");
    assert ["\r\r"][1..] == [] && Framed("", [], "");
  }

  // With an empty line left in rbuffer the session of the next client goes on with a message that was never
  // set, if that client delivers anything and ends its lines with '\n' alone. Nothing is known of what follows.
  lemma LeftoverEmptyLine(c: Primitives, cfg: Config, s: Server, cl: Client)
    requires "\n" <= s.rbuffer && '\r' !in s.rbuffer + Bytes(cl.incoming)
    requires NoneFails(cl.incoming) && Deliveries(cl.incoming) != []
    ensures SessionOf(c, cfg, s, cl).ending.Aborted?
  {
    DeliveriesDeliver(cl.incoming);
    ReadRetries(s.rbuffer, cl.incoming);
    var deliveries := Deliveries(cl.incoming);
    var data := deliveries[0].data;
    assert deliveries[0] == Fragment(data) && deliveries == [Fragment(data)] + deliveries[1..];
    BytesFirst(deliveries, data);
    EmptyLineStep(s.rbuffer, data, deliveries[1..]);
    assert FindCrLf(s.rbuffer + data).None? by {
      NoCr(s.rbuffer + data, s.rbuffer + Bytes(cl.incoming));
    }
    SessionOfReads(c, cfg, s, cl);
    hide ReadOutcome, FindCrLf;
    assert SessionOf(c, cfg, s, cl).first == EmptyLine;
    EmptyAborts(c, cfg, s, cl);
  }

  lemma NoCr(s: string, whole: string)
    requires '\r' !in whole && s <= whole
    ensures FindCrLf(s).None?
  {
    FindCrLfIs(s);
    assert forall i :: 0 <= i < |s| ==> s[i] == whole[i];
  }

  lemma EmptyAborts(c: Primitives, cfg: Config, s: Server, cl: Client)
    requires SessionOf(c, cfg, s, cl).first == EmptyLine
    ensures SessionOf(c, cfg, s, cl).ending.Aborted?
  {
    SessionOfReads(c, cfg, s, cl);
    hide ReadOutcome, Fetch, Quote, Conclusion, VerdictOf, SendOutcome;
  }
}
