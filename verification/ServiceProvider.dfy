/**
 The server of service-provider/sp.cpp as a program: its methods, with the state they change, do what
 Session says.
 */
module ServiceProvider {
  import opened CText
  import opened Attestation
  import opened Crypto
  import opened HexUtil
  import opened Ias
  import opened MsgIO
  import opened Session
  import opened SessionTheorems
  import opened SessionWires

  class Provider {
    const c: Primitives
    const cfg: Config
    const verbose: bool
    const io: MsgIO
    const ias: Connection

    ghost predicate Valid() {
      IsConfig(cfg) && ias.Valid()
    }

    // Ready to send: hexstring's buffer is in order.
    ghost predicate Ready()
      reads io.hex
    {
      Valid() && io.hex.Valid()
    }

    ghost function State(): Server
      reads io, ias
    {
      Server(io.wbuffer, io.rbuffer, ias.currentKeyID, ias.answers)
    }

    // Queries as they reach the service: each with the subscription key itself.
    ghost function Presented(qs: seq<Query>): seq<Request>
      requires Valid()
      reads ias.encrypted, ias.pads
    {
      seq(|qs|, i requires 0 <= i < |qs| reads ias.encrypted, ias.pads =>
        Request(ias.Key(qs[i].id), qs[i].path, qs[i].body))
    }

    constructor (c: Primitives, cfg: Config, verbose: bool, io: MsgIO, ias: Connection)
      requires IsConfig(cfg) && ias.Valid() && io.hex.Valid()
      ensures Ready() && this.c == c && this.cfg == cfg && this.io == io && this.ias == ias
    {
      this.c, this.cfg, this.verbose, this.io, this.ias := c, cfg, verbose, io, ias;
    }

    lemma PresentedConcat(a: seq<Query>, b: seq<Query>)
      requires Valid()
      ensures Presented(a + b) == Presented(a) + Presented(b)
    {
    }

    method GetSigrl(gid: bytes) returns (sigrl: Option<bytes>, ghost f: Fetched)
      requires Valid()
      modifies ias`currentKeyID, ias`requests, ias`answers
      ensures f == Fetch(c, old(ias.currentKeyID), old(ias.answers)) && sigrl == f.sigrl
      ensures ias.currentKeyID == f.id && ias.answers == Drop(old(ias.answers), |f.tried|)
      ensures ias.requests == old(ias.requests) + Presented(SigrlQueries(f.tried, cfg, gid))
    {
      ghost var tried: seq<KeyID> := [];
      ghost var before, answers := ias.requests, ias.answers;
      f := Fetch(c, ias.currentKeyID, ias.answers);
      NoneTried(before, gid);
      NoQueries(cfg, gid);
      After0(f);
      hide Drop, Fetch, After, Tried;
      while true
        invariant ias.requests == Tried(before, tried, gid) && ias.answers == Drop(answers, |tried|)
        invariant f == After(tried, Fetch(c, ias.currentKeyID, ias.answers))
        decreases if ias.currentKeyID.Primary? then 1 else 0
      {
        ghost var asked := tried;
        tried := tried + [ias.currentKeyID];
        var again;
        again, sigrl := TryKey(gid, before, asked, answers, f);
        if again {
          ias.currentKeyID := Secondary;
          continue;
        }
        break;
      }
      AllTried(before, tried, gid);
    }

    // One round of get_sigrl's loop, before it changes the key: whether it goes on, and else the list.
    method TryKey(gid: bytes, ghost before: seq<Request>, ghost tried: seq<KeyID>, ghost answers: seq<Answer>,
                  ghost f: Fetched)
      returns (again: bool, sigrl: Option<bytes>)
      requires Valid() && ias.requests == Tried(before, tried, gid) && ias.answers == Drop(answers, |tried|)
      requires f == After(tried, Fetch(c, ias.currentKeyID, ias.answers))
      modifies ias`requests, ias`answers
      ensures ias.requests == Tried(before, tried + [ias.currentKeyID], gid)
      ensures ias.answers == Drop(answers, |tried| + 1) && (again ==> ias.currentKeyID.Primary?)
      ensures f == if again then After(tried + [ias.currentKeyID], Fetch(c, Secondary, ias.answers))
                   else Fetched(sigrl, ias.currentKeyID, tried + [ias.currentKeyID])
    {
      hide Unsigned, SigrlPath, Drop, CStr, Fetch, After, Next, Later, Tried;
      OneMore(before, tried, ias.currentKeyID, gid);
      DropOne(answers, |tried|);
      FetchStep(c, ias.currentKeyID, ias.answers, tried);
      var ret, sigrlstr := ias.Sigrl(cfg.apiver, Unsigned(gid));
      again := ret == IAS_UNAUTHORIZED && ias.currentKeyID.Primary?;
      sigrl := if ret == IAS_OK then c.base64Decode(CStr(sigrlstr)) else None;
    }

    // The requests made once some keys have been tried.
    ghost function Tried(before: seq<Request>, tried: seq<KeyID>, gid: bytes): seq<Request>
      requires Valid()
      reads ias.encrypted, ias.pads
    {
      before + Presented(SigrlQueries(tried, cfg, gid))
    }

    lemma NoneTried(before: seq<Request>, gid: bytes)
      requires Valid()
      ensures Tried(before, [], gid) == before
    {
      PresentedNone();
      NoQueries(cfg, gid);
    }

    lemma AllTried(before: seq<Request>, tried: seq<KeyID>, gid: bytes)
      requires Valid()
      ensures Tried(before, tried, gid) == before + Presented(SigrlQueries(tried, cfg, gid))
    {
    }

    lemma OneMore(before: seq<Request>, tried: seq<KeyID>, id: KeyID, gid: bytes)
      requires Valid()
      ensures Tried(before, tried + [id], gid) ==
              Tried(before, tried, gid) + [Request(ias.Key(id), SigrlPath(cfg.apiver, Unsigned(gid)), "")]
    {
      var query := Query(id, SigrlPath(cfg.apiver, Unsigned(gid)), "");
      var request := Request(ias.Key(id), query.path, "");
      QueriesOneMore(tried, id, cfg, gid);
      hide UpToNul, SigrlPath, Unsigned, SigrlQueries;
      var asked := Presented(SigrlQueries(tried, cfg, gid));
      assert Presented(SigrlQueries(tried, cfg, gid) + [query]) == asked + [request];
      assert (before + asked) + [request] == before + (asked + [request]);
    }

    method ProcessMsg01(key: Option<bytes>)
      returns (st: Stage<(Keys, bytes, bytes)>, ghost first: ReadResult, ghost opening: Stage<Keys>,
               ghost fetched: Option<Fetched>)
      requires Valid()
      modifies io`rbuffer, io.net, ias`currentKeyID, ias`requests, ias`answers
      ensures (first, io.rbuffer, io.net.incoming) == ReadOutcome(old(io.rbuffer), old(io.net.incoming))
      ensures io.net.sent == old(io.net.sent) && io.net.plan == old(io.net.plan)
      ensures opening == Opening(c, key, first)
      ensures !opening.Pass? ==>
        && st == (if opening.Abort? then Abort else Refuse) && fetched.None? && ias.requests == old(ias.requests)
        && ias.currentKeyID == old(ias.currentKeyID) && ias.answers == old(ias.answers)
      ensures opening.Pass? ==>
        && fetched == Some(Fetch(c, old(ias.currentKeyID), old(ias.answers)))
        && var f, k := fetched.value, opening.value;
        && ias.currentKeyID == f.id && ias.answers == Drop(old(ias.answers), |f.tried|)
        && ias.requests == old(ias.requests) + Presented(SigrlQueries(f.tried, cfg, k.gid))
        && st == match f.sigrl case None => Refuse
                 case Some(sigrl) => Pass((k, Msg2(c, cfg, k, sigrl), sigrl))
    {
      fetched, opening := None, Refuse;
      var r, _, msg01 := io.Read();
      first := r;
      opening := Opening(c, key, first);
      if r.SystemError? || r.ProtocolError? {
        return Refuse, first, opening, fetched;
      }
      if !IsBytes(r) || |r.text| < 8 {
        return Abort, first, opening, fetched;
      }
      hide AllHex, Decode, Fetch, Presented, SigrlQueries, Drop, Msg2;
      if msg01[..4] != [0, 0, 0, 0] {
        return Refuse, first, opening, fetched;
      }
      if |msg01| < 72 {
        return Abort, first, opening, fetched;
      }
      var ga: Point, gid := msg01[4..68], msg01[68..72];
      if key.None? {
        return Refuse, first, opening, fetched;
      }
      var kdk := Kdk(c, key.value, ga);
      if kdk.None? {
        return Refuse, first, opening, fetched;
      }
      var k := Keys(ga, c.publicHalf(key.value), gid, kdk.value, c.cmac(kdk.value, SMK_LABEL));
      assert opening == Pass(k);
      var sigrl, f := GetSigrl(gid);
      fetched := Some(f);
      st := if sigrl.None? then Refuse else Pass((k, Msg2(c, cfg, k, sigrl.value), sigrl.value));
    }

    // Everything of process_msg3 before it answers: the outcome, msg3 as read, and the report.
    method CheckMsg3(k: Keys) returns (st: Stage<(TrustStatus, bytes)>, ghost third: ReadResult,
                                       ghost report: Option<Answer>)
      requires Valid()
      modifies io`rbuffer, io.net, ias`requests, ias`answers
      ensures (third, io.rbuffer, io.net.incoming) == ReadOutcome(old(io.rbuffer), old(io.net.incoming))
      ensures io.net.sent == old(io.net.sent) && io.net.plan == old(io.net.plan)
      ensures var quote := Quote(c, k, third);
              if !quote.Pass? then
                && st == (if quote.Abort? then Abort else Refuse) && report.None?
                && ias.requests == old(ias.requests) && ias.answers == old(ias.answers)
              else
                && report == Some(Next(old(ias.answers))) && ias.answers == Later(old(ias.answers))
                && ias.requests == old(ias.requests) + Presented([ReportQuery(ias.currentKeyID, c, cfg, quote.value)])
                && st == Conclusion(c, cfg, k, quote.value, VerdictOf(c, report.value, cfg.apiver, cfg.strictTrust))
    {
      report := None;
      var r, _, msg3 := io.Read();
      third := r;
      if r.SystemError? || r.ProtocolError? {
        return Refuse, third, report;
      }
      if !IsBytes(r) || |r.text| < 160 {
        return Abort, third, report;
      }
      hide AllHex, Decode, VerdictOf, Bound, Recognised, ReportPath;
      if msg3[16..80] != k.ga {
        return Refuse, third, report;
      }
      if |msg3| < 336 {
        return Abort, third, report;
      }
      var vrfymac := c.cmac(k.smk, msg3[16..]);
      if msg3[..16] != vrfymac {
        return Refuse, third, report;
      }
      if |msg3| < 344 {
        return Abort, third, report;
      }
      var q := msg3[336..];
      var b64quote := c.base64Encode(q);
      if msg3[340..344] != k.gid {
        return Refuse, third, report;
      }
      assert Quote(c, k, third) == Pass(q);
      report := Some(Next(ias.answers));
      var verdict := GetAttestationReport(ias, c, cfg.apiver, b64quote, cfg.strictTrust, verbose);
      if verdict.Rejected? {
        return Refuse, third, report;
      }
      if verdict.Crash? || |q| < 432 {
        return Abort, third, report;
      }
      if Bound(c, k) != q[368..432] {
        return Refuse, third, report;
      }
      var status := verdict.status;
      if !Recognised(cfg, q) {
        status := NotTrusted;
      }
      st := Pass((status, verdict.pib));
    }

    // The rest of process_msg3: msg4 is queued, and sent with the ciphertext to a trusted client.
    method AnswerMsg3(k: Keys, status: TrustStatus, pib: bytes) returns (ghost text: string)
      requires io.hex.Valid()
      modifies io`wbuffer, io.net, io.hex, io.hex.buffer
      ensures io.hex.Valid() && (io.hex.buffer == old(io.hex.buffer) || fresh(io.hex.buffer))
      ensures io.net.incoming == old(io.net.incoming)
      ensures if IsTrusted(status) then
                && text == Encode(Msg4(status, pib)) + (Encode(Ciphertext(c, k)) + "\n")
                && var (wire, rest, plan) := SendOutcome(old(io.wbuffer) + text, old(io.net.plan));
                io.net.sent == old(io.net.sent) + wire && io.wbuffer == rest && io.net.plan == plan
              else
                && text == Encode(Msg4(status, pib)) && io.wbuffer == old(io.wbuffer) + text
                && io.net.sent == old(io.net.sent) && io.net.plan == old(io.net.plan)
    {
      hide Encode, SendOutcome, Ciphertext, LittleEndian;
      ghost var before := io.wbuffer;
      var word := LittleEndian(StatusCode(status), 4);
      assert Encode(Msg4(status, pib)) == Encode(word) + Encode(pib) by { EncodeConcat(word, pib); }
      text := Encode(Msg4(status, pib));
      io.SendPartial(word);
      io.SendPartial(pib);
      assert io.wbuffer == before + text by {
        assert (before + Encode(word)) + Encode(pib) == before + (Encode(word) + Encode(pib));
      }
      if IsTrusted(status) {
        var ciphertext := Ciphertext(c, k);
        ghost var more := Encode(ciphertext) + "\n";
        assert (before + text) + more == before + (text + more);
        text := text + more;
        io.Send(ciphertext);
      }
    }

    // One round of main's loop.
    method Serve(client: Client) returns (wire: string, aborted: bool)
      requires Ready()
      modifies io, io.hex, io.hex.buffer, ias`currentKeyID, ias`requests, ias`answers
      ensures Ready() && (io.hex.buffer == old(io.hex.buffer) || fresh(io.hex.buffer))
      ensures var r := SessionOf(c, cfg, old(State()), client);
              && wire == r.wire && aborted == r.ending.Aborted? && State() == r.after
              && ias.requests == old(ias.requests) + Presented(r.queries)
    {
      hide Opening, Fetch, Quote, Conclusion, VerdictOf, Msg2, Msg4, Ciphertext, Encode, SendOutcome, ReadOutcome,
        IsTrusted, SigrlQueries, ReportQuery, Drop, Presented, SentSigrl;
      var net := new Transport(client.plan, client.incoming);
      io.Accept(net);
      PresentedNone();
      var started;
      ghost var first, opening, fetched;
      started, first, opening, fetched := ProcessMsg01(client.key);
      if !started.Pass? {
        return net.sent, started.Abort?;
      }
      var (k, msg2, sigrl) := started.value;
      ghost var text2 := Msg2Text(c, cfg, k, sigrl);
      ghost var before := io.wbuffer;
      io.SendPartial(msg2);
      assert (before + Encode(msg2)) + (Encode(SentSigrl(sigrl)) + "\n") == before + text2;
      io.Send(SentSigrl(sigrl));
      var checked;
      ghost var third, report;
      checked, third, report := CheckMsg3(k);
      if Quote(c, k, third).Pass? {
        ghost var sigrlQueries := SigrlQueries(fetched.value.tried, cfg, k.gid);
        ghost var query := ReportQuery(ias.currentKeyID, c, cfg, Quote(c, k, third).value);
        PresentedConcat(sigrlQueries, [query]);
        assert ias.requests == old(ias.requests) + (Presented(sigrlQueries) + Presented([query]));
      }
      if !checked.Pass? {
        return net.sent, checked.Abort?;
      }
      var (status, pib) := checked.value;
      ghost var text4 := AnswerMsg3(k, status, pib);
      return net.sent, false;
    }

    // main's loop: each client is served in turn, until the program ends or no more come.
    method ServerLoop(clients: seq<Client>) returns (wires: seq<string>, aborted: bool)
      requires Ready()
      modifies io, io.hex, io.hex.buffer, ias`currentKeyID, ias`requests, ias`answers
      ensures Ready() && (io.hex.buffer == old(io.hex.buffer) || fresh(io.hex.buffer))
      ensures var rs := Session.Run(c, cfg, old(State()), clients);
              && |wires| == |rs| && (forall i :: 0 <= i < |rs| ==> wires[i] == rs[i].wire)
              && State() == Final(old(State()), rs) && aborted == (rs != [] && rs[|rs| - 1].ending.Aborted?)
              && ias.requests == old(ias.requests) + Presented(Queries(rs))
              && (old(io.wbuffer) == "" && (forall j :: 0 <= j < |clients| ==> SendFailed !in clients[j].plan) ==>
                    forall i :: 0 <= i < |wires| ==>
                      (LinesEnded(wires[i]) == 2 <==>
                       exists m1, m3 :: Authorised(c, cfg, clients[i].key, rs[i], m1, m3)))
    {
      hide SessionOf, Presented, Session.Run, Queries, StillToRun, Final, LinesEnded, Authorised;
      wires, aborted := [], false;
      ghost var done: seq<Record> := [];
      ghost var start := State();
      PresentedNone();
      NothingRun(c, cfg, start, clients);
      SecondLines(c, cfg, start, clients);
      hide SecondLinesHold;
      for i := 0 to |clients|
        invariant Ready() && (io.hex.buffer == old(io.hex.buffer) || fresh(io.hex.buffer))
        invariant State() == Final(start, done)
        invariant Session.Run(c, cfg, start, clients) == done + StillToRun(c, cfg, aborted, State(), clients[i..])
        invariant |wires| == |done| && forall j :: 0 <= j < |done| ==> wires[j] == done[j].wire
        invariant aborted == (done != [] && done[|done| - 1].ending.Aborted?)
        invariant ias.requests == old(ias.requests) + Presented(Queries(done))
      {
        if aborted {
          RunOver(c, cfg, true, State(), clients[i..]);
          assert Session.Run(c, cfg, start, clients) == done;
          SecondLinesOf(c, cfg, start, clients, wires);
          return;
        }
        ghost var r := SessionOf(c, cfg, State(), clients[i]);
        RunStep(c, cfg, State(), clients, i, done);
        FinalPush(start, done, r);
        var wire;
        wire, aborted := Serve(clients[i]);
        wires := wires + [wire];
        QueriesPush(done, r);
        PresentedConcat(Queries(done), r.queries);
        done := done + [r];
      }
      RunOver(c, cfg, aborted, State(), clients[|clients|..]);
      assert Session.Run(c, cfg, start, clients) == done;
      SecondLinesOf(c, cfg, start, clients, wires);
    }

    lemma PresentedNone()
      requires Valid()
      ensures Presented([]) == []
    {
    }
  }

  // What get_sigrl comes to, with the keys tried before.
  ghost function After(tried: seq<KeyID>, f: Fetched): Fetched {
    f.(tried := tried + f.tried)
  }

  lemma After0(f: Fetched)
    ensures After([], f) == f
  {
    assert [] + f.tried == f.tried;
  }

  lemma FetchStep(c: Primitives, id: KeyID, answers: seq<Answer>, tried: seq<KeyID>)
    ensures After(tried, Fetch(c, id, answers)) ==
            if StatusOf(Next(answers)) == IAS_UNAUTHORIZED && id.Primary? then
              After(tried + [id], Fetch(c, Secondary, Later(answers)))
            else
              Fetched(if StatusOf(Next(answers)) == IAS_OK then c.base64Decode(CStr(Next(answers).content)) else None,
                      id, tried + [id])
  {
    var g := Fetch(c, Secondary, Later(answers));
    assert tried + ([id] + g.tried) == (tried + [id]) + g.tried;
  }

  lemma NoQueries(cfg: Config, gid: bytes)
    ensures SigrlQueries([], cfg, gid) == []
    ensures forall answers :: Drop(answers, 0) == answers
  {
  }

  lemma QueriesOneMore(tried: seq<KeyID>, id: KeyID, cfg: Config, gid: bytes)
    ensures SigrlQueries(tried + [id], cfg, gid) ==
            SigrlQueries(tried, cfg, gid) + [Query(id, SigrlPath(cfg.apiver, Unsigned(gid)), "")]
  {
    hide SigrlPath, Unsigned;
  }

  // Where no send fails: a client receives a second line exactly if its session is authorised.
  ghost predicate SecondLinesHold(c: Primitives, cfg: Config, s: Server, clients: seq<Client>) {
    var rs := Session.Run(c, cfg, s, clients);
    s.wbuffer == "" && (forall j :: 0 <= j < |clients| ==> SendFailed !in clients[j].plan) ==>
      forall i :: 0 <= i < |rs| ==>
        (LinesEnded(rs[i].wire) == 2 <==> exists m1, m3 :: Authorised(c, cfg, clients[i].key, rs[i], m1, m3))
  }

  lemma SecondLines(c: Primitives, cfg: Config, s: Server, clients: seq<Client>)
    requires IsConfig(cfg)
    ensures SecondLinesHold(c, cfg, s, clients)
  {
    var rs := Session.Run(c, cfg, s, clients);
    hide Session.Run, LinesEnded, Authorised;
    if s.wbuffer == "" && forall j :: 0 <= j < |clients| ==> SendFailed !in clients[j].plan {
      forall i | 0 <= i < |rs|
        ensures LinesEnded(rs[i].wire) == 2 <==> exists m1, m3 :: Authorised(c, cfg, clients[i].key, rs[i], m1, m3)
      {
        WholeRunWires(c, cfg, s, clients, i);
      }
    }
  }

  lemma SecondLinesOf(c: Primitives, cfg: Config, s: Server, clients: seq<Client>, wires: seq<string>)
    requires SecondLinesHold(c, cfg, s, clients) && |wires| == |Session.Run(c, cfg, s, clients)|
    requires forall i :: 0 <= i < |wires| ==> wires[i] == Session.Run(c, cfg, s, clients)[i].wire
    ensures var rs := Session.Run(c, cfg, s, clients);
            s.wbuffer == "" && (forall j :: 0 <= j < |clients| ==> SendFailed !in clients[j].plan) ==>
              forall i :: 0 <= i < |wires| ==>
                (LinesEnded(wires[i]) == 2 <==> exists m1, m3 :: Authorised(c, cfg, clients[i].key, rs[i], m1, m3))
  {
    hide Session.Run, LinesEnded, Authorised;
  }

  // What is left of a run from a given state.
  ghost function StillToRun(c: Primitives, cfg: Config, aborted: bool, s: Server, clients: seq<Client>): seq<Record> {
    if aborted then [] else Session.Run(c, cfg, s, clients)
  }

  lemma NothingRun(c: Primitives, cfg: Config, s: Server, clients: seq<Client>)
    ensures Session.Run(c, cfg, s, clients) == [] + StillToRun(c, cfg, false, s, clients[0..])
    ensures Queries([]) == [] && Final(s, []) == s
  {
    assert clients[0..] == clients;
  }

  lemma RunOver(c: Primitives, cfg: Config, aborted: bool, s: Server, clients: seq<Client>)
    requires aborted || clients == []
    ensures StillToRun(c, cfg, aborted, s, clients) == []
  {
  }

  lemma RunStep(c: Primitives, cfg: Config, s: Server, clients: seq<Client>, i: nat, done: seq<Record>)
    requires i < |clients|
    ensures var r := SessionOf(c, cfg, s, clients[i]);
            done + StillToRun(c, cfg, false, s, clients[i..]) ==
            (done + [r]) + StillToRun(c, cfg, r.ending.Aborted?, r.after, clients[i + 1..])
  {
    hide SessionOf;
    assert clients[i..][1..] == clients[i + 1..];
  }

  lemma FinalPush(s: Server, done: seq<Record>, r: Record)
    ensures Final(s, done + [r]) == r.after
  {
  }

  lemma {:induction false} QueriesPush(rs: seq<Record>, r: Record)
    ensures Queries(rs + [r]) == Queries(rs) + r.queries
  {
    if rs == [] {
      assert (rs + [r])[1..] == [];
    } else {
      assert (rs + [r])[1..] == rs[1..] + [r];
      QueriesPush(rs[1..], r);
    }
  }
}
