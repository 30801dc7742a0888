/**
 What sender and receiver of service-provider/msgio.cpp achieve together.
 */
module Framing {
  import opened CText
  import opened HexUtil
  import opened MsgIO

  // The two line terminators read understands.
  predicate IsTerminator(t: string) {
    t == "\n" || t == "\r\n"
  }

  // A frame as senders write it: hex digits, two for each byte, possibly none.
  predicate IsFrame(f: string) {
    |f| % 2 == 0 && AllHex(f)
  }

  // The stream of frames, each with its terminator.
  function Stream(frames: seq<string>, t: string): string {
    if frames == [] then "" else (frames[0] + t) + Stream(frames[1..], t)
  }

  // Recv calls that all deliver something.
  ghost predicate AllFragments(incoming: seq<RecvEvent>) {
    forall i :: 0 <= i < |incoming| ==> incoming[i].Fragment? && incoming[i].data != ""
  }

  // Recv calls that deliver something or are interrupted.
  ghost predicate NoneFails(incoming: seq<RecvEvent>) {
    forall i :: 0 <= i < |incoming| ==>
      incoming[i].RecvInterrupted? || (incoming[i].Fragment? && incoming[i].data != "")
  }

  // The calls that deliver something.
  function Deliveries(incoming: seq<RecvEvent>): seq<RecvEvent> {
    if incoming == [] then []
    else (if incoming[0].Fragment? then [incoming[0]] else []) + Deliveries(incoming[1..])
  }

  lemma {:induction false} DeliveriesDeliver(incoming: seq<RecvEvent>)
    requires NoneFails(incoming)
    ensures AllFragments(Deliveries(incoming)) && Bytes(Deliveries(incoming)) == Bytes(incoming)
  {
    if incoming != [] {
      DeliveriesDeliver(incoming[1..]);
      var rest := Deliveries(incoming[1..]);
      if incoming[0].Fragment? {
        assert ([incoming[0]] + rest)[1..] == rest;
      } else {
        assert [] + rest == rest && "" + Bytes(incoming[1..]) == Bytes(incoming[1..]);
      }
    }
  }

  // An interrupted call makes no difference.
  lemma {:induction false} ReadRetries(rbuffer: string, incoming: seq<RecvEvent>)
    requires NoneFails(incoming)
    ensures var (r, rbuffer', incoming') := ReadOutcome(rbuffer, incoming);
            && NoneFails(incoming')
            && ReadOutcome(rbuffer, Deliveries(incoming)) == (r, rbuffer', Deliveries(incoming'))
    decreases incoming
  {
    hide LineEnd, TakeLine;
    if incoming != [] {
      var later := incoming[1..];
      assert NoneFails(later);
      if incoming[0].RecvInterrupted? {
        ReadRetries(rbuffer, later);
        assert [] + Deliveries(later) == Deliveries(later);
      } else {
        var buffer := rbuffer + incoming[0].data;
        assert Deliveries(incoming)[1..] == Deliveries(later);
        if LineEnd(buffer).None? {
          ReadRetries(buffer, later);
        }
      }
    }
  }

  // --- one line -------------------------------------------------------------------------------

  // A buffer that starts a stream has a line end exactly if it holds the first frame with its
  // whole terminator, and the line end found is that one.
  lemma LineEndOfPrefix(f: string, t: string, rest: string, buffer: string, later: string)
    requires IsFrame(f) && IsTerminator(t) && buffer + later == (f + t) + rest
    requires t == "\n" ==> '\r' !in rest
    ensures |buffer| < |f| + |t| ==> LineEnd(buffer).None?
    ensures |buffer| >= |f| + |t| ==> LineEnd(buffer) == Some((|f|, |t|))
  {
    hide FindCrLf, FindLf;
    var whole := (f + t) + rest;
    var n := |f|;
    assert forall i :: 0 <= i < |buffer| ==> buffer[i] == whole[i];
    assert forall i :: 0 <= i < n ==> whole[i] == f[i] && IsHex(whole[i]);
    assert whole[n] == t[0];
    FindCrLfIs(buffer);
    FindLfIs(buffer);
    if t == "\n" {
      assert forall i :: 0 <= i < |whole| ==> whole[i] != '\r' by {
        forall i | 0 <= i < |whole| ensures whole[i] != '\r' {
          assert i > n ==> whole[i] == rest[i - n - 1];
        }
      }
      if |buffer| > n {
        assert buffer[n] == '\n';
      }
    } else {
      assert whole[n + 1] == '\n';
    }
  }

  lemma {:induction false} StreamNoCr(frames: seq<string>, t: string)
    requires t == "\n" && forall i :: 0 <= i < |frames| ==> IsFrame(frames[i])
    ensures '\r' !in Stream(frames, t)
  {
    if frames != [] {
      StreamNoCr(frames[1..], t);
      forall i | 0 <= i < |frames[0]| ensures frames[0][i] != '\r' {
        assert IsHex(frames[0][i]);
      }
    }
  }

  lemma StreamFirst(frames: seq<string>, t: string)
    requires frames != []
    ensures Stream(frames, t) == (frames[0] + t) + Stream(frames[1..], t)
  {
  }

  // --- one read -------------------------------------------------------------------------------

  ghost predicate AllFrames(frames: seq<string>) {
    forall i :: 0 <= i < |frames| ==> IsFrame(frames[i])
  }

  // What has been buffered and is still to come is exactly these frames.
  ghost predicate Carries(rbuffer: string, incoming: seq<RecvEvent>, frames: seq<string>, t: string) {
    && IsTerminator(t) && AllFrames(frames) && NoneFails(incoming)
    && rbuffer + Bytes(incoming) == Stream(frames, t)
  }

  // How many recv calls it takes, one at least, until the buffer holds need bytes.
  function Needed(have: nat, incoming: seq<RecvEvent>, need: nat): (j: nat)
    ensures j <= |incoming| && (incoming != [] ==> j > 0)
    decreases incoming
  {
    if incoming == [] then 0
    else
      var have' := have + |Bytes(incoming[..1])|;
      if have' >= need then 1 else 1 + Needed(have', incoming[1..], need)
  }

  // What the first line of a stream does to a buffer: nothing before it is complete, and then it is
  // taken, unless it is empty.
  lemma TakesLine(buffer: string, later: string, f: string, t: string, rest: string)
    requires IsFrame(f) && IsTerminator(t) && buffer + later == (f + t) + rest && (t == "\n" ==> '\r' !in rest)
    ensures |buffer| < |f| + |t| ==> LineEnd(buffer).None?
    ensures |buffer| >= |f| + |t| ==>
              && LineEnd(buffer).Some? && buffer[|f| + |t|..] + later == rest
              && TakeLine(buffer) == if f == "" then (EmptyLine, buffer) else (Frame(f), buffer[|f| + |t|..])
  {
    LineEndOfPrefix(f, t, rest, buffer, later);
    if |buffer| >= |f| + |t| {
      TakeFrame(f, t, rest, buffer, later);
    }
  }

  // A read waits for the first line of the stream to be complete. The peer having nothing more to
  // deliver, it gives up, whatever is buffered.
  lemma {:induction false} ReadOneLine(rbuffer: string, incoming: seq<RecvEvent>, f: string, t: string, rest: string)
    requires AllFragments(incoming) && IsFrame(f) && IsTerminator(t) && (t == "\n" ==> '\r' !in rest)
    requires rbuffer + Bytes(incoming) == (f + t) + rest
    ensures var (r, rbuffer', incoming') := ReadOutcome(rbuffer, incoming);
            var j := Needed(|rbuffer|, incoming, |f| + |t|);
            if incoming == [] then r == ProtocolError && rbuffer' == rbuffer && incoming' == []
            else
              && incoming' == incoming[j..]
              && if f == "" then r == EmptyLine
                 else r == Frame(f) && rbuffer' + Bytes(incoming') == rest
                      && |rbuffer'| + |f| + |t| == |rbuffer| + |Bytes(incoming[..j])|
    decreases incoming
  {
    if incoming != [] {
      hide LineEnd, TakeLine, IsFrame, IsTerminator;
      var data := incoming[0].data;
      assert incoming[0].Fragment? && data != "";
      var buffer, later := rbuffer + data, Bytes(incoming[1..]);
      BytesFirst(incoming, data);
      assert rbuffer + (data + later) == buffer + later;
      TakesLine(buffer, later, f, t, rest);
      if |buffer| < |f| + |t| {
        LongerLater(buffer, later, (f + t) + rest, incoming[1..]);
        ReadOneLine(buffer, incoming[1..], f, t, rest);
        ShiftFirst(incoming, data, Needed(|buffer|, incoming[1..], |f| + |t|));
      }
    }
  }

  lemma LongerLater(buffer: string, later: string, whole: string, incoming: seq<RecvEvent>)
    requires buffer + later == whole && |buffer| < |whole| && later == Bytes(incoming)
    ensures incoming != []
  {
  }

  lemma ShiftFirst(incoming: seq<RecvEvent>, data: string, j: nat)
    requires incoming != [] && incoming[0] == Fragment(data) && j < |incoming|
    ensures incoming[1..][j..] == incoming[j + 1..]
    ensures |Bytes(incoming[..j + 1])| == |data| + |Bytes(incoming[1..][..j])|
  {
    BytesFirst(incoming[..j + 1], data);
    assert incoming[..j + 1][1..] == incoming[1..][..j];
  }

  // A read gives the first frame.
  lemma ReadNext(rbuffer: string, incoming: seq<RecvEvent>, frames: seq<string>, t: string)
    requires Carries(rbuffer, incoming, frames, t) && AllFragments(incoming) && frames != []
    ensures var (r, rbuffer', incoming') := ReadOutcome(rbuffer, incoming);
            var need := |frames[0]| + |t|;
            var j := Needed(|rbuffer|, incoming, need);
            if incoming == [] then r == ProtocolError && rbuffer' == rbuffer && incoming' == []
            else
              && incoming' == incoming[j..] && AllFragments(incoming')
              && if frames[0] == "" then r == EmptyLine
                 else r == Frame(frames[0]) && Carries(rbuffer', incoming', frames[1..], t)
                      && |rbuffer'| + need == |rbuffer| + |Bytes(incoming[..j])|
  {
    hide IsFrame, IsTerminator, Stream, ReadOutcome, Needed, Bytes;
    var rest := Stream(frames[1..], t);
    StreamFirst(frames, t);
    if t == "\n" {
      StreamNoCr(frames[1..], t);
    }
    ReadOneLine(rbuffer, incoming, frames[0], t, rest);
  }

  lemma BytesFirst(incoming: seq<RecvEvent>, data: string)
    requires incoming != [] && incoming[0] == Fragment(data)
    ensures Bytes(incoming) == data + Bytes(incoming[1..])
    ensures Bytes(incoming[..1]) == data
  {
    assert incoming[..1][1..] == [] && data + "" == data;
  }

  lemma TakeFrame(f: string, t: string, rest: string, buffer: string, later: string)
    requires |f| % 2 == 0 && buffer + later == (f + t) + rest && |buffer| >= |f| + |t|
    requires LineEnd(buffer) == Some((|f|, |t|))
    ensures TakeLine(buffer) == if f == "" then (EmptyLine, buffer) else (Frame(f), buffer[|f| + |t|..])
    ensures buffer[|f| + |t|..] + later == rest
  {
    var n := |f| + |t|;
    assert buffer[..|f|] == (buffer + later)[..|f|] == f;
    assert buffer[n..] + later == (buffer + later)[n..] == rest;
  }

  // --- any number of reads --------------------------------------------------------------------

  // The frames that successive reads return, up to the first that returns none.
  function Drain(rbuffer: string, incoming: seq<RecvEvent>): seq<string>
    decreases |incoming|
  {
    var (r, rbuffer', incoming') := ReadOutcome(rbuffer, incoming);
    if r.Frame? then [r.text] + Drain(rbuffer', incoming') else []
  }

  // How many frames are complete, terminator included, in the first n bytes of their stream.
  function Complete(frames: seq<string>, t: string, n: nat): nat {
    if frames == [] || n < |frames[0]| + |t| then 0
    else 1 + Complete(frames[1..], t, n - |frames[0]| - |t|)
  }

  // After every delivery, no more frames are unfinished than deliveries are left.
  ghost predicate InTime(rbuffer: string, incoming: seq<RecvEvent>, frames: seq<string>, t: string) {
    Timely(rbuffer, Deliveries(incoming), frames, t)
  }

  ghost predicate Timely(rbuffer: string, incoming: seq<RecvEvent>, frames: seq<string>, t: string) {
    && |frames| <= |incoming|
    && forall i :: 1 <= i <= |incoming| ==> Unfinished(rbuffer, incoming, frames, t, i) <= |incoming| - i
  }

  ghost function Unfinished(rbuffer: string, incoming: seq<RecvEvent>, frames: seq<string>, t: string, i: nat): int
    requires i <= |incoming|
  {
    |frames| - Complete(frames, t, |rbuffer| + |Bytes(incoming[..i])|)
  }

  // The frames before the first empty one.
  function BeforeEmpty(frames: seq<string>): (fs: seq<string>)
    ensures fs <= frames && (fs == frames <==> "" !in frames)
  {
    if frames == [] || frames[0] == "" then [] else [frames[0]] + BeforeEmpty(frames[1..])
  }

  lemma {:induction false} DrainFragments(rbuffer: string, incoming: seq<RecvEvent>, frames: seq<string>, t: string)
    requires Carries(rbuffer, incoming, frames, t) && AllFragments(incoming)
    ensures Drain(rbuffer, incoming) <= BeforeEmpty(frames)
    decreases |incoming|
  {
    if frames == [] {
      NothingLeft(rbuffer, incoming, frames, t);
    } else {
      hide ReadOutcome, Carries;
      ReadNext(rbuffer, incoming, frames, t);
      if incoming != [] && frames[0] != "" {
        var (r, rbuffer', incoming') := ReadOutcome(rbuffer, incoming);
        DrainFragments(rbuffer', incoming', frames[1..], t);
      }
    }
  }

  // Reads are not affected by interrupted calls.
  lemma {:induction false} DrainRetries(rbuffer: string, incoming: seq<RecvEvent>)
    requires NoneFails(incoming)
    ensures Drain(rbuffer, incoming) == Drain(rbuffer, Deliveries(incoming))
    decreases |incoming|
  {
    hide ReadOutcome, NoneFails;
    ReadRetries(rbuffer, incoming);
    var (r, rbuffer', incoming') := ReadOutcome(rbuffer, incoming);
    if r.Frame? {
      DrainRetries(rbuffer', incoming');
    }
  }

  lemma CarriesDeliveries(rbuffer: string, incoming: seq<RecvEvent>, frames: seq<string>, t: string)
    requires Carries(rbuffer, incoming, frames, t)
    ensures AllFragments(Deliveries(incoming)) && Carries(rbuffer, Deliveries(incoming), frames, t)
  {
    hide Stream, IsTerminator, AllFrames;
    DeliveriesDeliver(incoming);
  }

  // Frames come out in order, none lost in between and none repeated, and none after an empty one.
  lemma DrainIsPrefix(rbuffer: string, incoming: seq<RecvEvent>, frames: seq<string>, t: string)
    requires Carries(rbuffer, incoming, frames, t)
    ensures Drain(rbuffer, incoming) <= BeforeEmpty(frames)
  {
    hide Drain;
    DrainRetries(rbuffer, incoming);
    CarriesDeliveries(rbuffer, incoming, frames, t);
    DrainFragments(rbuffer, Deliveries(incoming), frames, t);
  }

  lemma BytesPositive(incoming: seq<RecvEvent>)
    requires AllFragments(incoming) && incoming != []
    ensures Bytes(incoming) != ""
  {
    BytesFirst(incoming, incoming[0].data);
  }

  lemma NothingLeft(rbuffer: string, incoming: seq<RecvEvent>, frames: seq<string>, t: string)
    requires Carries(rbuffer, incoming, frames, t) && AllFragments(incoming) && frames == []
    ensures rbuffer == "" && incoming == []
  {
    assert |rbuffer + Bytes(incoming)| == 0;
    if incoming != [] {
      BytesPositive(incoming);
    }
  }

  lemma {:induction false} BytesSplit(incoming: seq<RecvEvent>, j: nat, i: nat)
    requires j <= i <= |incoming|
    ensures |Bytes(incoming[..i])| == |Bytes(incoming[..j])| + |Bytes(incoming[j..][..i - j])|
    decreases j
  {
    if j == 0 {
      assert incoming[0..][..i] == incoming[..i];
    } else {
      assert incoming[..i][1..] == incoming[1..][..i - 1];
      assert incoming[..j][1..] == incoming[1..][..j - 1];
      assert incoming[1..][j - 1..] == incoming[j..];
      BytesSplit(incoming[1..], j - 1, i - 1);
    }
  }

  // Before call j the buffer is too short, from call j on it is not.
  lemma {:induction false} NeededIs(have: nat, incoming: seq<RecvEvent>, need: nat, i: nat)
    requires 1 <= i <= |incoming|
    ensures i < Needed(have, incoming, need) ==> have + |Bytes(incoming[..i])| < need
    decreases incoming
  {
    if i == 1 {
    } else {
      var have' := have + |Bytes(incoming[..1])|;
      BytesSplit(incoming, 1, i);
      NeededIs(have', incoming[1..], need, i - 1);
    }
  }

  // What remains unfinished after the read that took j calls, seen before and after it.
  lemma UnfinishedShift(rbuffer: string, incoming: seq<RecvEvent>, frames: seq<string>, t: string,
                        rbuffer': string, j: nat, i: nat)
    requires frames != [] && 1 <= i <= |incoming| && 1 <= j <= |incoming|
    requires j == Needed(|rbuffer|, incoming, |frames[0]| + |t|)
    requires |rbuffer'| + |frames[0]| + |t| == |rbuffer| + |Bytes(incoming[..j])|
    ensures i < j ==> Unfinished(rbuffer, incoming, frames, t, i) == |frames|
    ensures i >= j ==> Unfinished(rbuffer, incoming, frames, t, i) ==
                       Unfinished(rbuffer', incoming[j..], frames[1..], t, i - j)
    ensures Unfinished(rbuffer, incoming, frames, t, j) <= |frames| - 1
  {
    hide Bytes, Needed;
    NeededIs(|rbuffer|, incoming, |frames[0]| + |t|, i);
    if i >= j {
      BytesSplit(incoming, j, i);
    }
    BytesSplit(incoming, j, j);
    assert incoming[j..][..0] == [] && |Bytes([])| == 0 by { NoBytes(); }
  }

  lemma NoBytes()
    ensures Bytes([]) == ""
  {
  }

  lemma TimelyStep(rbuffer: string, incoming: seq<RecvEvent>, frames: seq<string>, t: string, rbuffer': string, j: nat)
    requires frames != [] && 1 <= j <= |incoming|
    requires j == Needed(|rbuffer|, incoming, |frames[0]| + |t|)
    requires |rbuffer'| + |frames[0]| + |t| == |rbuffer| + |Bytes(incoming[..j])|
    ensures Timely(rbuffer, incoming, frames, t) <==> Timely(rbuffer', incoming[j..], frames[1..], t)
  {
    hide Unfinished, Needed, Bytes;
    var n := |incoming|;
    forall i | 1 <= i <= n
      ensures i < j ==> Unfinished(rbuffer, incoming, frames, t, i) == |frames|
      ensures i >= j ==>
                Unfinished(rbuffer, incoming, frames, t, i) ==
                Unfinished(rbuffer', incoming[j..], frames[1..], t, i - j)
    {
      UnfinishedShift(rbuffer, incoming, frames, t, rbuffer', j, i);
    }
    UnfinishedShift(rbuffer, incoming, frames, t, rbuffer', j, j);
    if Timely(rbuffer, incoming, frames, t) {
      assert j > 1 ==> Unfinished(rbuffer, incoming, frames, t, j - 1) <= n - (j - 1);
      forall i | 1 <= i <= n - j
        ensures Unfinished(rbuffer', incoming[j..], frames[1..], t, i) <= n - j - i
      {
        assert Unfinished(rbuffer, incoming, frames, t, i + j) <= n - (i + j);
      }
    }
    if Timely(rbuffer', incoming[j..], frames[1..], t) {
      forall i | 1 <= i <= n
        ensures Unfinished(rbuffer, incoming, frames, t, i) <= n - i
      {
        if i > j {
          assert Unfinished(rbuffer', incoming[j..], frames[1..], t, i - j) <= n - j - (i - j);
        }
      }
    }
  }

  lemma {:induction false} DrainTimely(rbuffer: string, incoming: seq<RecvEvent>, frames: seq<string>, t: string)
    requires Carries(rbuffer, incoming, frames, t) && AllFragments(incoming) && "" !in frames
    ensures Drain(rbuffer, incoming) == frames <==> Timely(rbuffer, incoming, frames, t)
    decreases |incoming|
  {
    if frames == [] {
      NothingLeft(rbuffer, incoming, frames, t);
    } else {
      hide ReadOutcome, Carries;
      ReadNext(rbuffer, incoming, frames, t);
      if incoming != [] {
        hide Timely, Needed;
        var (r, rbuffer', incoming') := ReadOutcome(rbuffer, incoming);
        var j := Needed(|rbuffer|, incoming, |frames[0]| + |t|);
        TimelyStep(rbuffer, incoming, frames, t, rbuffer', j);
        DrainTimely(rbuffer', incoming', frames[1..], t);
        assert frames == [frames[0]] + frames[1..];
        assert Drain(rbuffer, incoming)[1..] == Drain(rbuffer', incoming');
      }
    }
  }

  // All frames are returned exactly if none is empty and they arrive in time: since each read waits
  // for at least one more delivery, frames that arrive together need later deliveries to come out.
  lemma DrainExactly(rbuffer: string, incoming: seq<RecvEvent>, frames: seq<string>, t: string)
    requires Carries(rbuffer, incoming, frames, t)
    ensures Drain(rbuffer, incoming) == frames <==> "" !in frames && InTime(rbuffer, incoming, frames, t)
  {
    hide Drain, Timely, Carries;
    if "" in frames {
      DrainIsPrefix(rbuffer, incoming, frames, t);
    } else {
      CarriesNoneFails(rbuffer, incoming, frames, t);
      DrainRetries(rbuffer, incoming);
      CarriesDeliveries(rbuffer, incoming, frames, t);
      DrainTimely(rbuffer, Deliveries(incoming), frames, t);
    }
  }

  lemma CarriesNoneFails(rbuffer: string, incoming: seq<RecvEvent>, frames: seq<string>, t: string)
    requires Carries(rbuffer, incoming, frames, t)
    ensures NoneFails(incoming)
  {
  }

  // --- end to end -------------------------------------------------------------------------------

  function Concat(parts: seq<seq<byte>>): seq<byte> {
    if parts == [] then [] else parts[0] + Concat(parts[1..])
  }

  // wbuffer after send_partial of each of the parts.
  function Queued(wbuffer: string, parts: seq<seq<byte>>): string
    decreases parts
  {
    if parts == [] then wbuffer else Queued(wbuffer + Encode(parts[0]), parts[1..])
  }

  lemma {:induction false} QueuedIs(wbuffer: string, parts: seq<seq<byte>>)
    ensures Queued(wbuffer, parts) == wbuffer + Encode(Concat(parts))
    decreases parts
  {
    if parts == [] {
      assert wbuffer + Encode([]) == wbuffer;
    } else {
      hide Encode;
      var first, rest := Encode(parts[0]), Encode(Concat(parts[1..]));
      QueuedIs(wbuffer + first, parts[1..]);
      EncodeConcat(parts[0], Concat(parts[1..]));
      Associative(wbuffer, first, rest);
    }
  }

  lemma Associative(a: string, b: string, c: string)
    ensures a + b + c == a + (b + c)
  {
  }

  // Parts sent one by one over a transport whose calls do not fail, however short its writes and
  // however the bytes arrive, are read as one message, exactly if there is at least one byte.
  lemma EndToEnd(parts: seq<seq<byte>>, last: seq<byte>, plan: seq<SendEvent>, incoming: seq<RecvEvent>)
    requires SendFailed !in plan && NoneFails(incoming)
    requires Bytes(incoming) == SendOutcome(Queued("", parts) + (Encode(last) + "\n"), plan).0
    ensures SendOutcome(Queued("", parts) + (Encode(last) + "\n"), plan).1 == ""
    ensures var message := Concat(parts) + last;
            var (r, rbuffer, incoming') := ReadOutcome("", incoming);
            Deliveries(incoming') == [] &&
            if message != [] then
              && r == Frame(Encode(message)) && |r.text| == 2 * |message|
              && AllHex(r.text) && Decode(r.text) == message && rbuffer == ""
            else r == EmptyLine && rbuffer == "\n"
  {
    hide Encode, Decode, SendOutcome, ReadOutcome, Queued, Concat, NoneFails;
    var message := Concat(parts) + last;
    var queued := Queued("", parts) + (Encode(last) + "\n");
    SendConserves(queued, plan);
    assert SendOutcome(queued, plan).0 + "" == SendOutcome(queued, plan).0;
    QueuedIs("", parts);
    EncodeConcat(Concat(parts), last);
    assert queued == Encode(message) + "\n";
    DecodeEncode(message);
    EncodeEmpty();
    DeliveriesDeliver(incoming);
    ReadRetries("", incoming);
    OneLine(Deliveries(incoming), Encode(message));
  }

  // A single line that is all there is to receive.
  lemma OneLine(incoming: seq<RecvEvent>, f: string)
    requires AllFragments(incoming) && IsFrame(f) && Bytes(incoming) == f + "\n"
    ensures ReadOutcome("", incoming) == if f == "" then (EmptyLine, "\n", []) else (Frame(f), "", [])
  {
    hide IsFrame;
    if f == "" {
      LoneNewline(incoming);
    } else {
      var (r, rbuffer, incoming') := ReadOutcome("", incoming);
      assert "" + Bytes(incoming) == (f + "\n") + "";
      ReadOneLine("", incoming, f, "\n", "");
      assert incoming != [];
      if incoming' != [] {
        BytesPositive(incoming');
      }
    }
  }

  lemma LoneNewline(incoming: seq<RecvEvent>)
    requires AllFragments(incoming) && Bytes(incoming) == "\n"
    ensures ReadOutcome("", incoming) == (EmptyLine, "\n", [])
  {
    assert incoming != [];
    var data := incoming[0].data;
    BytesFirst(incoming, data);
    assert |data + Bytes(incoming[1..])| == 1;
    if incoming[1..] != [] {
      BytesPositive(incoming[1..]);
    }
    assert data + "" == data && "" + data == data;
    assert LineEnd("\n") == Some((0, 1));
  }

  // --- empty lines --------------------------------------------------------------------------------

  // What all the reads give that still find something to receive.
  function AllReads(rbuffer: string, incoming: seq<RecvEvent>): seq<ReadResult>
    decreases |incoming|
  {
    if incoming == [] then []
    else
      var (r, rbuffer', incoming') := ReadOutcome(rbuffer, incoming);
      ReadOutcomeProgress(rbuffer, incoming);
      [r] + AllReads(rbuffer', incoming')
  }

  lemma {:induction false} ReadOutcomeProgress(rbuffer: string, incoming: seq<RecvEvent>)
    requires incoming != []
    ensures |ReadOutcome(rbuffer, incoming).2| < |incoming|
    decreases incoming
  {
    hide LineEnd, TakeLine;
    if incoming[1..] != [] {
      ReadOutcomeProgress(rbuffer, incoming[1..]);
      if incoming[0].Fragment? {
        ReadOutcomeProgress(rbuffer + incoming[0].data, incoming[1..]);
      }
    }
  }

  predicate StartsEmpty(buffer: string) {
    "\n" <= buffer || "\r\n" <= buffer
  }

  // Searching for "\r\n" in a text and in a longer one.
  lemma {:induction false} FindCrLfPrefix(s: string, more: string)
    requires FindCrLf(s).Some?
    ensures FindCrLf(s + more) == FindCrLf(s)
  {
    assert (s + more)[0] == s[0] && (s + more)[1] == s[1];
    if !(s[0] == '\r' && s[1] == '\n') {
      assert (s + more)[1..] == s[1..] + more;
      FindCrLfPrefix(s[1..], more);
    }
  }

  // With an empty line in front, each read looks at one delivery more. It takes the line that the
  // first "\r\n" of the buffer ends, the empty line included, if its length allows, and nothing else.
  lemma EmptyLineStep(rbuffer: string, data: string, later: seq<RecvEvent>)
    requires StartsEmpty(rbuffer) && data != ""
    ensures var buffer := rbuffer + data;
            var (r, rbuffer', incoming') := ReadOutcome(rbuffer, [Fragment(data)] + later);
            && incoming' == later && StartsEmpty(buffer)
            && (r.Frame? <==> FindCrLf(buffer).Some? && FindCrLf(buffer).value > 0 && FindCrLf(buffer).value % 2 == 0)
            && (!r.Frame? ==> rbuffer' == buffer)
            && (FindCrLf(buffer).None? ==> r == EmptyLine)
  {
    var buffer := rbuffer + data;
    assert ([Fragment(data)] + later)[1..] == later;
    assert buffer[0] == rbuffer[0];
    FindCrLfIs(buffer);
    FindLfIs(buffer);
    if "\r\n" <= rbuffer {
      assert buffer[1] == rbuffer[1];
    }
  }

  // Interrupted calls change nothing about the frames that are read.
  lemma {:induction false} AllReadsRetry(rbuffer: string, incoming: seq<RecvEvent>)
    requires NoneFails(incoming)
    ensures forall r: ReadResult :: r.Frame? ==>
              (r in AllReads(rbuffer, incoming) <==> r in AllReads(rbuffer, Deliveries(incoming)))
    decreases |incoming|
  {
    if incoming != [] {
      ReadRetries(rbuffer, incoming);
      ReadOutcomeProgress(rbuffer, incoming);
      var deliveries := Deliveries(incoming);
      assert deliveries == [] ==> ReadOutcome(rbuffer, deliveries) == (ProtocolError, rbuffer, []);
      hide ReadOutcome, NoneFails, Deliveries;
      var (r, rbuffer', incoming') := ReadOutcome(rbuffer, incoming);
      AllReadsRetry(rbuffer', incoming');
      assert AllReads(rbuffer, incoming) == [r] + AllReads(rbuffer', incoming');
      if deliveries != [] {
        assert AllReads(rbuffer, deliveries) == [r] + AllReads(rbuffer', Deliveries(incoming'));
      }
    }
  }

  lemma {:induction false} FragmentsBlock(rbuffer: string, incoming: seq<RecvEvent>)
    requires StartsEmpty(rbuffer) && AllFragments(incoming)
    ensures (forall r :: r in AllReads(rbuffer, incoming) ==> !r.Frame?) <==>
            || incoming == []
            || match FindCrLf(rbuffer + Bytes(incoming)) case None => true case Some(i) => i == 0 || i % 2 == 1
    decreases |incoming|
  {
    if incoming != [] {
      hide ReadOutcome, FindCrLf, StartsEmpty;
      var data, later := incoming[0].data, incoming[1..];
      assert incoming[0] == Fragment(data) && incoming == [Fragment(data)] + later;
      var buffer := rbuffer + data;
      BytesFirst(incoming, data);
      assert rbuffer + (data + Bytes(later)) == buffer + Bytes(later);
      EmptyLineStep(rbuffer, data, later);
      if FindCrLf(buffer).Some? {
        FindCrLfPrefix(buffer, Bytes(later));
      }
      var (r, rbuffer', incoming') := ReadOutcome(rbuffer, incoming);
      assert AllReads(rbuffer, incoming) == [r] + AllReads(rbuffer', incoming');
      assert r in [r];
      if !r.Frame? {
        FragmentsBlock(buffer, later);
        assert buffer + "" == buffer;
      }
    }
  }

  // Once an empty line is in front, no read returns a frame, however many follow, exactly if nothing
  // more is delivered, or the first "\r\n" of all that is buffered and to come ends nothing that read
  // accepts as a line: there is none, or it stands in front itself, or at an odd place.
  lemma EmptyLineBlocks(rbuffer: string, incoming: seq<RecvEvent>)
    requires StartsEmpty(rbuffer) && NoneFails(incoming)
    ensures (forall r :: r in AllReads(rbuffer, incoming) ==> !r.Frame?) <==>
            || Deliveries(incoming) == []
            || match FindCrLf(rbuffer + Bytes(incoming)) case None => true case Some(i) => i == 0 || i % 2 == 1
  {
    hide AllReads, FindCrLf, StartsEmpty, Deliveries;
    DeliveriesDeliver(incoming);
    AllReadsRetry(rbuffer, incoming);
    FragmentsBlock(rbuffer, Deliveries(incoming));
  }
}
