/**
 Message framing of service-provider/msgio.cpp: frames of hex text ended by a newline, over a
 transport that takes and delivers bytes in pieces of its own choosing.

 A transport is the list of what its next calls will do. SendOutcome and ReadOutcome say what
 MsgIO::send and MsgIO::read do with it; the class MsgIO has the source's buffers and loops.
 */
module MsgIO {
  import opened CText
  import opened HexUtil

  // --- the transport ------------------------------------------------------------------------

  // What one ::send does: take up to so many bytes, be interrupted, or fail.
  datatype SendEvent = Short(limit: nat) | SendInterrupted | SendFailed

  // What one ::recv does; at the end of the list the peer has shut the connection down.
  datatype RecvEvent = Fragment(data: string) | RecvInterrupted | RecvFailed

  datatype SysResult = Count(n: nat) | Interrupted | Failed

  class Transport {
    var sent: string
    var plan: seq<SendEvent>
    var incoming: seq<RecvEvent>

    constructor (plan: seq<SendEvent>, incoming: seq<RecvEvent>)
      ensures this.plan == plan && this.incoming == incoming && sent == ""
    {
      this.plan, this.incoming, sent := plan, incoming, "";
    }

    // ::send; a transport without a plan takes everything
    method Send(data: string) returns (r: SysResult)
      modifies this
      ensures incoming == old(incoming)
      ensures plan == if old(plan) == [] then [] else old(plan)[1..]
      ensures r == SendResult(data, old(plan))
      ensures sent == old(sent) + if r.Count? then data[..r.n] else ""
    {
      r := SendResult(data, plan);
      if r.Count? {
        sent := sent + data[..r.n];
      }
      if plan != [] {
        plan := plan[1..];
      }
    }

    // ::recv; no bytes once the peer has shut down
    method Recv() returns (r: RecvEvent)
      modifies this
      ensures sent == old(sent) && plan == old(plan)
      ensures incoming == if old(incoming) == [] then [] else old(incoming)[1..]
      ensures r == if old(incoming) == [] then Fragment("") else old(incoming)[0]
    {
      if incoming == [] {
        return Fragment("");
      }
      r := incoming[0];
      incoming := incoming[1..];
    }
  }

  function SendResult(data: string, plan: seq<SendEvent>): (r: SysResult)
    ensures r.Count? ==> r.n <= |data|
  {
    if plan == [] then Count(|data|)
    else match plan[0]
      case Short(limit) => Count(if limit < |data| then limit else |data|)
      case SendInterrupted => Interrupted
      case SendFailed => Failed
  }

  // --- sending ------------------------------------------------------------------------------

  // What the loop of MsgIO::send puts on the wire, and what it leaves in wbuffer and the plan.
  function SendOutcome(wbuffer: string, plan: seq<SendEvent>): (string, string, seq<SendEvent>)
    decreases plan
  {
    if wbuffer == "" then ("", "", plan)
    else if plan == [] then (wbuffer, "", [])
    else match SendResult(wbuffer, plan)
      case Interrupted => SendOutcome(wbuffer, plan[1..])
      case Failed => ("", wbuffer, plan[1..])
      case Count(n) =>
        var (wire, rest, plan') := SendOutcome(wbuffer[n..], plan[1..]);
        (wbuffer[..n] + wire, rest, plan')
  }

  // Nothing is lost, repeated or reordered; without a failing call nothing is left behind.
  lemma {:induction false} SendConserves(wbuffer: string, plan: seq<SendEvent>)
    ensures var (wire, rest, _) := SendOutcome(wbuffer, plan);
            wire + rest == wbuffer && (rest != "" ==> SendFailed in plan)
    decreases plan
  {
    if wbuffer != "" && plan != [] {
      match SendResult(wbuffer, plan)
      case Interrupted => SendConserves(wbuffer, plan[1..]);
      case Failed =>
      case Count(n) =>
        SendConserves(wbuffer[n..], plan[1..]);
        var (wire, rest, _) := SendOutcome(wbuffer[n..], plan[1..]);
        assert wbuffer[..n] + wire + rest == wbuffer[..n] + (wire + rest) == wbuffer;
    }
  }

  // SendOutcome of what is left, after done went on the wire.
  ghost function OutcomeAfter(done: string, wbuffer: string, plan: seq<SendEvent>): (string, string, seq<SendEvent>) {
    var (wire, rest, plan') := SendOutcome(wbuffer, plan);
    (done + wire, rest, plan')
  }

  // One call of ::send.
  lemma SendStep(done: string, wbuffer: string, plan: seq<SendEvent>)
    requires wbuffer != ""
    ensures var plan' := if plan == [] then [] else plan[1..];
            OutcomeAfter(done, wbuffer, plan) ==
            match SendResult(wbuffer, plan)
            case Failed => (done, wbuffer, plan')
            case Interrupted => OutcomeAfter(done, wbuffer, plan')
            case Count(n) => OutcomeAfter(done + wbuffer[..n], wbuffer[n..], plan')
  {
    if plan == [] {
      assert done + wbuffer[..|wbuffer|] + "" == done + wbuffer;
    } else {
      match SendResult(wbuffer, plan)
      case Failed => assert done + "" == done;
      case Interrupted =>
      case Count(n) =>
        var wire := SendOutcome(wbuffer[n..], plan[1..]).0;
        assert done + wbuffer[..n] + wire == done + (wbuffer[..n] + wire);
    }
  }

  // --- receiving ----------------------------------------------------------------------------

  // rbuffer.find('\n')
  function FindLf(s: string): Option<nat> {
    if s == "" then None
    else if s[0] == '\n' then Some(0)
    else match FindLf(s[1..]) case Some(i) => Some(i + 1) case None => None
  }

  // rbuffer.find("\r\n")
  function FindCrLf(s: string): Option<nat> {
    if |s| < 2 then None
    else if s[0] == '\r' && s[1] == '\n' then Some(0)
    else match FindCrLf(s[1..]) case Some(i) => Some(i + 1) case None => None
  }

  lemma {:induction false} FindLfIs(s: string)
    ensures FindLf(s).None? ==> '\n' !in s
    ensures FindLf(s).Some? ==> var i := FindLf(s).value;
              i < |s| && s[i] == '\n' && forall j :: 0 <= j < i ==> s[j] != '\n'
  {
    if s != "" && s[0] != '\n' {
      FindLfIs(s[1..]);
      if FindLf(s).Some? {
        forall j | 0 < j < FindLf(s).value ensures s[j] != '\n' {
          assert s[j] == s[1..][j - 1];
        }
      }
    }
  }

  lemma {:induction false} FindCrLfIs(s: string)
    ensures FindCrLf(s).None? ==> forall i :: 0 <= i < |s| - 1 ==> !(s[i] == '\r' && s[i + 1] == '\n')
    ensures FindCrLf(s).Some? ==> var i := FindCrLf(s).value;
              && i + 1 < |s| && s[i] == '\r' && s[i + 1] == '\n'
              && forall j :: 0 <= j < i ==> !(s[j] == '\r' && s[j + 1] == '\n')
  {
    if |s| >= 2 && !(s[0] == '\r' && s[1] == '\n') {
      FindCrLfIs(s[1..]);
      var t := s[1..];
      forall i | 0 < i < |s| - 1 && (FindCrLf(s).Some? ==> i < FindCrLf(s).value)
        ensures !(s[i] == '\r' && s[i + 1] == '\n')
      {
        assert s[i] == t[i - 1] && s[i + 1] == t[i];
      }
    }
  }

  // Where the first line of the buffer ends, and how long its terminator is.
  function LineEnd(s: string): Option<(nat, nat)> {
    match FindCrLf(s)
    case Some(i) => Some((i, 2))
    case None => match FindLf(s) case Some(i) => Some((i, 1)) case None => None
  }

  lemma LineEndInside(s: string)
    ensures LineEnd(s).Some? ==> LineEnd(s).value.0 + LineEnd(s).value.1 <= |s|
    ensures LineEnd(s).None? ==> '\n' !in s
  {
    FindCrLfIs(s);
    FindLfIs(s);
  }

  // What read returns: -1, 0, 1 with nothing read (an empty line), or 1 with a frame.
  datatype ReadResult = SystemError | ProtocolError | EmptyLine | Frame(text: string)

  // What a complete first line makes of the buffer: the result and the new rbuffer.
  function TakeLine(rbuffer: string): (ReadResult, string)
    requires LineEnd(rbuffer).Some?
  {
    LineEndInside(rbuffer);
    var (idx, ws) := LineEnd(rbuffer).value;
    if idx == 0 then (EmptyLine, rbuffer)
    else if idx % 2 != 0 then (ProtocolError, rbuffer)
    else (Frame(rbuffer[..idx]), rbuffer[idx + ws..])
  }

  // The result of MsgIO::read, the new rbuffer, and the transport's remaining events.
  function ReadOutcome(rbuffer: string, incoming: seq<RecvEvent>): (o: (ReadResult, string, seq<RecvEvent>))
    ensures |o.2| <= |incoming| && (o.0.Frame? ==> |o.2| < |incoming|)
    decreases incoming
  {
    if incoming == [] then (ProtocolError, rbuffer, [])
    else match incoming[0]
      case RecvInterrupted => ReadOutcome(rbuffer, incoming[1..])
      case RecvFailed => (SystemError, rbuffer, incoming[1..])
      case Fragment(data) =>
        var buffer := rbuffer + data;
        if data == "" then (ProtocolError, rbuffer, incoming[1..])
        else if LineEnd(buffer).None? then ReadOutcome(buffer, incoming[1..])
        else (TakeLine(buffer).0, TakeLine(buffer).1, incoming[1..])
  }

  // All bytes still to be received.
  function Bytes(incoming: seq<RecvEvent>): string {
    if incoming == [] then ""
    else (match incoming[0] case Fragment(data) => data case _ => "") + Bytes(incoming[1..])
  }

  // Whatever arrives, what was buffered and received is the frame with its terminator followed by
  // what is buffered and still to come.
  lemma {:induction false} ReadConserves(rbuffer: string, incoming: seq<RecvEvent>)
    ensures var (r, rbuffer', incoming') := ReadOutcome(rbuffer, incoming);
            if r.Frame? then
              && r.text != "" && |r.text| % 2 == 0
              && (rbuffer + Bytes(incoming) == r.text + ("\n" + (rbuffer' + Bytes(incoming')))
                  || rbuffer + Bytes(incoming) == r.text + ("\r\n" + (rbuffer' + Bytes(incoming'))))
            else rbuffer + Bytes(incoming) == rbuffer' + Bytes(incoming')
    decreases incoming
  {
    if incoming != [] {
      assert rbuffer + ("" + Bytes(incoming[1..])) == rbuffer + Bytes(incoming[1..]);
      match incoming[0]
      case RecvInterrupted => ReadConserves(rbuffer, incoming[1..]);
      case RecvFailed =>
      case Fragment(data) =>
        var buffer, later := rbuffer + data, Bytes(incoming[1..]);
        assert rbuffer + (data + later) == buffer + later;
        if data != "" {
          if LineEnd(buffer).None? {
            ReadConserves(buffer, incoming[1..]);
          } else {
            TakeLineConserves(buffer, later);
          }
        }
    }
  }

  lemma TakeLineConserves(buffer: string, later: string)
    requires LineEnd(buffer).Some?
    ensures var (r, rest) := TakeLine(buffer);
            if r.Frame? then
              && r.text != "" && |r.text| % 2 == 0
              && (buffer + later == r.text + ("\n" + (rest + later))
                  || buffer + later == r.text + ("\r\n" + (rest + later)))
            else rest == buffer
  {
    FindCrLfIs(buffer);
    FindLfIs(buffer);
    LineEndInside(buffer);
    var (idx, ws) := LineEnd(buffer).value;
    hide FindCrLf, FindLf;
    if ws == 1 {
      assert buffer[idx..idx + 1] == [buffer[idx]] == "\n";
      SplitLine(buffer, idx, "\n", later);
    } else {
      assert buffer[idx..idx + 2] == [buffer[idx], buffer[idx + 1]] == "\r\n";
      SplitLine(buffer, idx, "\r\n", later);
    }
  }

  lemma SplitLine(buffer: string, idx: nat, term: string, later: string)
    requires idx + |term| <= |buffer| && buffer[idx..idx + |term|] == term
    ensures buffer + later == buffer[..idx] + (term + (buffer[idx + |term|..] + later))
  {
    assert buffer == buffer[..idx] + (term + buffer[idx + |term|..]);
  }

  lemma EncodedNoNul(src: seq<byte>)
    ensures '\0' !in Encode(src)
  {
    EncodeIsHex(src);
    hide Encode;
    assert forall i :: 0 <= i < |Encode(src)| ==> IsHex(Encode(src)[i]);
  }

  // --- the class ----------------------------------------------------------------------------

  class MsgIO {
    var wbuffer: string
    var rbuffer: string
    var net: Transport
    // hexstring's static buffer
    const hex: HexBuffer

    constructor (net: Transport)
      ensures this.net == net && wbuffer == "" && rbuffer == ""
      ensures fresh(hex) && fresh(hex.buffer) && hex.Valid()
    {
      this.net := net;
      wbuffer, rbuffer := "", "";
      hex := new HexBuffer();
    }

    // wbuffer.append(hexstring(src, sz))
    method SendPartial(src: seq<byte>)
      requires hex.Valid()
      modifies this`wbuffer, hex, hex.buffer
      ensures hex.Valid() && (hex.buffer == old(hex.buffer) || fresh(hex.buffer))
      ensures wbuffer == old(wbuffer) + Encode(src)
    {
      hex.Hexstring(src);
      var n := 2 * |src|;
      assert hex.buffer[..][..n] == hex.buffer[..n] && hex.buffer[..][n] == '\0';
      EncodedNoNul(src);
      CStrUpTo(hex.buffer[..], n);
      wbuffer := wbuffer + CStr(hex.buffer[..]);
    }

    // accept in server_loop: a client connects, and neither buffer is touched.
    method Accept(client: Transport)
      modifies this`net
      ensures net == client
    {
      net := client;
    }

    method Send(src: seq<byte>)
      requires hex.Valid()
      modifies this`wbuffer, net, hex, hex.buffer
      ensures hex.Valid() && (hex.buffer == old(hex.buffer) || fresh(hex.buffer))
      ensures var (wire, rest, plan) := SendOutcome(old(wbuffer) + (Encode(src) + "\n"), old(net.plan));
              net.sent == old(net.sent) + wire && wbuffer == rest && net.plan == plan
      ensures net.sent + wbuffer == old(net.sent) + (old(wbuffer) + (Encode(src) + "\n"))
      ensures net.incoming == old(net.incoming)
    {
      SendPartial(src);
      wbuffer := wbuffer + "\n";
      assert wbuffer == old(wbuffer) + (Encode(src) + "\n");
      Flush();
    }

    // The loop of MsgIO::send.
    method Flush()
      modifies this`wbuffer, net
      ensures var (wire, rest, plan) := SendOutcome(old(wbuffer), old(net.plan));
              net.sent == old(net.sent) + wire && wbuffer == rest && net.plan == plan
      ensures net.sent + wbuffer == old(net.sent) + old(wbuffer)
      ensures net.incoming == old(net.incoming)
    {
      ghost var done: string := "";
      ghost var total := SendOutcome(wbuffer, net.plan);
      SendConserves(wbuffer, net.plan);
      assert "" + total.0 == total.0 && old(net.sent) + "" == old(net.sent);
      hide SendResult;
      while wbuffer != ""
        invariant net.sent == old(net.sent) + done
        invariant OutcomeAfter(done, wbuffer, net.plan) == total
        invariant net.incoming == old(net.incoming)
        decreases |net.plan|, |wbuffer|
      {
        SendStep(done, wbuffer, net.plan);
        var bsent := net.Send(wbuffer);
        if bsent.Failed? {
          break;
        }
        if bsent.Count? {
          done := done + wbuffer[..bsent.n];
          wbuffer := wbuffer[bsent.n..];
        }
      }
      assert wbuffer == "" ==> done + "" == done;
      assert old(net.sent) + (total.0 + total.1) == net.sent + wbuffer;
    }

    // *sz is the length of a frame's text, 0 otherwise; dest is what the text decodes to.
    method Read() returns (r: ReadResult, sz: nat, dest: seq<byte>)
      modifies this`rbuffer, net
      ensures (r, rbuffer, net.incoming) == ReadOutcome(old(rbuffer), old(net.incoming))
      ensures r.Frame? ==> r.text != "" && |r.text| % 2 == 0
      ensures sz == if r.Frame? then |r.text| else 0
      ensures r.Frame? && AllHex(r.text) ==> dest == Decode(r.text) && 2 * |dest| == sz
      ensures net.sent == old(net.sent) && net.plan == old(net.plan)
    {
      sz, dest := 0, [];
      ReadConserves(rbuffer, net.incoming);
      while true
        invariant ReadOutcome(rbuffer, net.incoming) == ReadOutcome(old(rbuffer), old(net.incoming))
        invariant net.sent == old(net.sent) && net.plan == old(net.plan)
        decreases |net.incoming|
      {
        var bread := net.Recv();
        match bread
        case RecvInterrupted =>
        case RecvFailed => return SystemError, sz, dest;
        case Fragment(data) =>
          if data == "" {
            return ProtocolError, sz, dest;
          }
          rbuffer := rbuffer + data;
          var end := LineEnd(rbuffer);
          LineEndInside(rbuffer);
          if end.Some? {
            var (idx, ws) := end.value;
            if idx == 0 {
              return EmptyLine, sz, dest;
            } else if idx % 2 != 0 {
              return ProtocolError, sz, dest;
            }
            sz := idx;
            var text := rbuffer[..idx];
            var decoded := new byte[idx / 2];
            var _ := FromHexstring(decoded, rbuffer, idx / 2);
            assert rbuffer[..2 * (idx / 2)] == text;
            if AllHex(text) {
              ScannedHex(text);
              assert decoded[..idx / 2] == decoded[..];
            }
            dest := decoded[..];
            rbuffer := rbuffer[idx + ws..];
            return Frame(text), sz, dest;
          }
      }
    }
  }
}
