/**
 What an honest client can rely on: the protocol of Session seen from the other end of the wire.
 */
module HonestClient {
  import opened CText
  import opened Attestation
  import opened Crypto
  import opened Framing
  import opened HexUtil
  import opened Ias
  import opened MsgIO
  import opened Json
  import opened JsonParser
  import opened Session
  import opened SessionEnds
  import opened SessionTheorems
  import opened SessionWires

  // The client's Ga and group, and the secret it shares with the service.
  datatype Party = Party(ga: Point, gid: bytes, secret: bytes)

  function Message1(p: Party): (m: bytes)
    ensures |m| == 68 + |p.gid| && m[..4] == [0, 0, 0, 0] && m[4..68] == p.ga && m[68..] == p.gid
  {
    var m := [0, 0, 0, 0] + (p.ga + p.gid);
    assert m[4..] == p.ga + p.gid;
    m
  }

  function Message3(c: Primitives, p: Party, ps: bytes, quote: bytes): bytes {
    var body := p.ga + (ps + quote);
    c.cmac(Derived(c, p.secret, "SMK"), body) + body
  }

  lemma Message1Opens(c: Primitives, p: Party, key: bytes)
    requires |p.gid| == 4 && c.sharedSecret(key, p.ga) == Some(p.secret)
    ensures var m := Message1(p);
            Opened(c, Some(key), Frame(Encode(m)), m) && m[4..68] == p.ga && m[68..72] == p.gid
  {
    var m := Message1(p);
    hide Encode;
    assert m[68..72] == m[68..];
  }

  lemma Message3Sound(c: Primitives, p: Party, ps: bytes, quote: bytes)
    requires |ps| == 256 && |quote| >= 8 && quote[4..8] == p.gid
    ensures var m := Message3(c, p, ps, quote);
            Sound3(c, p.ga, Derived(c, p.secret, "SMK"), p.gid, Frame(Encode(m)), m) && m[336..] == quote
  {
    var body := p.ga + (ps + quote);
    var m := Message3(c, p, ps, quote);
    hide Encode, Derived;
    assert m[16..] == body && m[16..80] == p.ga && m[336..] == quote;
    assert m[340..344] == quote[4..8];
  }

  // Two frames that arrive in time are what two reads return, and nothing of them is left.
  lemma TwoReads(rbuffer: string, incoming: seq<RecvEvent>, f1: string, f2: string, t: string)
    requires Carries(rbuffer, incoming, [f1, f2], t) && InTime(rbuffer, incoming, [f1, f2], t) && f1 != "" && f2 != ""
    ensures var (r1, rbuffer1, incoming1) := ReadOutcome(rbuffer, incoming);
            var (r2, rbuffer2, _) := ReadOutcome(rbuffer1, incoming1);
            r1 == Frame(f1) && r2 == Frame(f2) && rbuffer2 == ""
  {
    var frames := [f1, f2];
    DrainExactly(rbuffer, incoming, frames, t);
    CarriesNoneFails(rbuffer, incoming, frames, t);
    DrainRetries(rbuffer, incoming);
    CarriesDeliveries(rbuffer, incoming, frames, t);
    ReadRetries(rbuffer, incoming);
    var (r1, rbuffer1, incoming1) := ReadOutcome(rbuffer, incoming);
    ReadRetries(rbuffer1, incoming1);
    BothRead(rbuffer, Deliveries(incoming), f1, f2, t);
  }

  lemma BothRead(rbuffer: string, incoming: seq<RecvEvent>, f1: string, f2: string, t: string)
    requires Carries(rbuffer, incoming, [f1, f2], t) && AllFragments(incoming) && f1 != "" && f2 != ""
    requires Drain(rbuffer, incoming) == [f1, f2]
    ensures var (r1, rbuffer1, incoming1) := ReadOutcome(rbuffer, incoming);
            var (r2, rbuffer2, _) := ReadOutcome(rbuffer1, incoming1);
            r1 == Frame(f1) && r2 == Frame(f2) && rbuffer2 == ""
  {
    hide ReadOutcome, Carries, Needed, AllFragments;
    var (r1, rbuffer1, incoming1) := ReadOutcome(rbuffer, incoming);
    var all := Drain(rbuffer, incoming);
    assert all[1..] == Drain(rbuffer1, incoming1) == [f2];
    ReadNext(rbuffer, incoming, [f1, f2], t);
    assert [f1, f2][1..] == [f2] && [f2][1..] == [];
    ReadNext(rbuffer1, incoming1, [f2], t);
    var (r2, rbuffer2, incoming2) := ReadOutcome(rbuffer1, incoming1);
    assert Drain(rbuffer1, incoming1)[0] == f2;
    NothingLeft(rbuffer2, incoming2, [], t);
  }

  // What a session makes of two messages: where its stages pass, all that follows.
  lemma StagesPass(c: Primitives, cfg: Config, s: Server, cl: Client)
    requires var (r1, rbuffer1, incoming1) := ReadOutcome(s.rbuffer, cl.incoming);
             && Opening(c, cl.key, r1).Pass?
             && Quote(c, Opening(c, cl.key, r1).value, ReadOutcome(rbuffer1, incoming1).0).Pass?
    requires Fetch(c, s.id, s.answers).sigrl.Some?
    ensures var r := SessionOf(c, cfg, s, cl);
            && r.fetched == Some(Fetch(c, s.id, s.answers)) && r.first == ReadOutcome(s.rbuffer, cl.incoming).0
            && var (_, rbuffer1, incoming1) := ReadOutcome(s.rbuffer, cl.incoming);
               && r.third == Some(ReadOutcome(rbuffer1, incoming1).0)
               && r.report == Some(Next(Drop(s.answers, |Fetch(c, s.id, s.answers).tried|)))
               && r.after.rbuffer == ReadOutcome(rbuffer1, incoming1).1
  {
    hide ReadOutcome, Opening, Quote, Conclusion, VerdictOf, SendOutcome, Msg2Text, Msg4, Encode, IsTrusted, Ciphertext,
      Fetch, Drop, SigrlQueries, ReportQuery;
  }

  // msg4 of a trusted client: the status, 3 or 2 for trusted with or without reservation, in four bytes,
  // and the report's PIB.
  ghost predicate IsMsg4(report: Json, m4: bytes) {
    && |m4| == 4 + 101 && m4[0] == (if QuoteStatusIs(report, "OK") then 3 else 2) && m4[1..4] == [0, 0, 0]
    && PibOf(Get(report, "platformInfoBlob")) == Some(m4[4..])
  }

  // A quote from the client's group, on the enclave asked for, whose report data binds the session.
  ghost predicate IsQuote(c: Primitives, cfg: Config, p: Party, gb: Point, quote: bytes) {
    && |quote| >= 432 && quote[4..8] == p.gid
    && quote[368..400] == c.sha256(p.ga + gb + Derived(c, p.secret, "VK")) && quote[400..432] == Zeros(32)
    && quote[176..208] == cfg.mrsigner
    && quote[304] as int + 256 * (quote[305] as int) == cfg.prodId
    && quote[306] as int + 256 * (quote[307] as int) >= cfg.minSvn
    && (cfg.allowDebug || quote[96] / 2 % 2 == 0)
  }

  // An honest client, whatever the fragments its two messages arrive in, whichever terminator it uses,
  // and even if the first of them is buffered already: where no send fails, it is sent on its own wire
  // msg2 with the SigRL and, on a line of its own, msg4 with the ciphertext under the SK it shares with
  // the service, and leaves nothing behind. For that the service has to supply a SigRL, and a report that
  // holds on a quote that binds the session and is from the enclave asked for.
  lemma HonestClientIsTrusted(c: Primitives, cfg: Config, s: Server, cl: Client, p: Party, ps: bytes, quote: bytes,
                              n: nat, sigrl: bytes, t: string)
    requires IsConfig(cfg) && SendFailed !in cl.plan
    requires |p.gid| == 4 && cl.key.Some? && c.sharedSecret(cl.key.value, p.ga) == Some(p.secret)
    requires SuppliedBy(c, s.id, s.answers, n, sigrl) && n + 1 < |s.answers| && ReportHolds(c, cfg, s.answers[n + 1])
    requires |ps| == 256 && IsQuote(c, cfg, p, c.publicHalf(cl.key.value), quote)
    requires var frames := [Encode(Message1(p)), Encode(Message3(c, p, ps, quote))];
             Carries(s.rbuffer, cl.incoming, frames, t) && InTime(s.rbuffer, cl.incoming, frames, t)
    ensures IsServed(c, cfg, cl.key.value, p, sigrl, s.answers[n + 1], s.wbuffer, SessionOf(c, cfg, s, cl))
  {
    var r, m1, m3 := SessionOf(c, cfg, s, cl), Message1(p), Message3(c, p, ps, quote);
    hide SessionOf, Carries, InTime, Message1, Message3, ReportHolds, Encode, SuppliedBy, Authorised, IsServed;
    HonestReads(c, cfg, s, cl, p, ps, quote, n, sigrl, t);
    HonestAuthorised(c, cfg, cl.key, p, ps, quote, r);
    HonestServed(c, cfg, s, cl, p, sigrl, m3);
  }

  lemma HonestAuthorised(c: Primitives, cfg: Config, key: Option<bytes>, p: Party, ps: bytes, quote: bytes, r: Record)
    requires |p.gid| == 4 && key.Some? && c.sharedSecret(key.value, p.ga) == Some(p.secret)
    requires |ps| == 256 && IsQuote(c, cfg, p, c.publicHalf(key.value), quote)
    requires r.first == Frame(Encode(Message1(p))) && r.third == Some(Frame(Encode(Message3(c, p, ps, quote))))
    requires r.fetched.Some? && r.fetched.value.sigrl.Some? && r.report.Some? && ReportHolds(c, cfg, r.report.value)
    ensures Authorised(c, cfg, key, r, Message1(p), Message3(c, p, ps, quote))
  {
    var m1, m3 := Message1(p), Message3(c, p, ps, quote);
    Message1Opens(c, p, key.value);
    Message3Sound(c, p, ps, quote);
    QuoteSlices(m3);
    hide Message1, Message3, ReportHolds, Encode, Opened, Derived, IsMessage;
    assert m3[336 + 4..336 + 8] == m3[340..344];
  }

  // What an authorised session's client is served.
  lemma HonestServed(c: Primitives, cfg: Config, s: Server, cl: Client, p: Party, sigrl: bytes, m3: bytes)
    requires IsConfig(cfg) && SendFailed !in cl.plan
    requires |p.gid| == 4 && cl.key.Some? && c.sharedSecret(cl.key.value, p.ga) == Some(p.secret)
    requires Authorised(c, cfg, cl.key, SessionOf(c, cfg, s, cl), Message1(p), m3)
    requires SessionOf(c, cfg, s, cl).after.rbuffer == "" && SessionOf(c, cfg, s, cl).fetched.value.sigrl == Some(sigrl)
    ensures IsServed(c, cfg, cl.key.value, p, sigrl, SessionOf(c, cfg, s, cl).report.value, s.wbuffer,
                     SessionOf(c, cfg, s, cl))
  {
    var r, m1 := SessionOf(c, cfg, s, cl), Message1(p);
    AuthorisedParts(c, cfg, cl.key, r, m1, m3);
    hide SessionOf, Encode, Authorised, Opened, IsMsg2, IsMsg4, Msg2Of, Msg4, Derived, ReportHolds, Message1;
    SessionRelease(c, cfg, s, cl, m1, m3);
    TrustedClientReceives(c, cfg, s, cl);
    ServedMsg4(c, cfg, s, cl);
    var m2 := ServedMsg2(c, cfg, cl, r, m1, sigrl);
    var m4 := Msg4(r.ending.status, r.ending.pib);
    assert IsMsg2(c, cfg, cl.key.value, m1, sigrl, m2) && IsMsg4(Loaded(r.report.value.content).value, m4);
  }

  lemma AuthorisedParts(c: Primitives, cfg: Config, key: Option<bytes>, r: Record, m1: bytes, m3: bytes)
    requires Authorised(c, cfg, key, r, m1, m3)
    ensures Opened(c, key, r.first, m1) && r.report.Some? && r.report.value.Reply? && Loaded(r.report.value.content).Ok?
  {
    hide Opened;
  }

  lemma ServedMsg4(c: Primitives, cfg: Config, s: Server, cl: Client)
    requires IsConfig(cfg) && SessionOf(c, cfg, s, cl).ending.Released?
    ensures var r := SessionOf(c, cfg, s, cl);
            && r.report.Some? && r.report.value.Reply? && Loaded(r.report.value.content).Ok?
            && IsMsg4(Loaded(r.report.value.content).value, Msg4(r.ending.status, r.ending.pib))
  {
    var r := SessionOf(c, cfg, s, cl);
    ToldExactly(c, cfg, s, cl);
    hide SessionOf, Concluded, Loaded, Get, PibOf, QuoteStatusIs, AsConfigured, Msg4;
    var m1, m3 :| Concluded(c, cfg, cl.key, r, m1, m3);
    Msg4Parts(r.ending.status, r.ending.pib);
  }

  lemma ServedMsg2(c: Primitives, cfg: Config, cl: Client, r: Record, m1: bytes, sigrl: bytes) returns (m2: bytes)
    requires IsConfig(cfg) && Opened(c, cl.key, r.first, m1) && r.fetched.Some? && r.fetched.value.sigrl == Some(sigrl)
    ensures |m1| >= 72 && cl.key.Some? && c.sharedSecret(cl.key.value, m1[4..68]).Some?
    ensures IsMsg2(c, cfg, cl.key.value, m1, sigrl, m2)
    ensures Msg2Of(c, cfg, cl, r) == Encode(m2 + sigrl[..|sigrl| % 0x1_0000_0000]) + "\n"
  {
    OpenedIsLong(c, cl.key, r.first, m1);
    OpenedKeys(c, cl.key, r.first, m1);
    hide Opened, Opening, Encode, Msg2, SentSigrl, Derived, IsMsg2;
    var k := Opening(c, cl.key, r.first).value;
    m2 := Msg2(c, cfg, k, sigrl);
    Msg2Parts(c, cfg, cl.key.value, m1, k, sigrl);
    SentExactly(sigrl);
    EncodeConcat(m2, SentSigrl(sigrl));
    Ended(Encode(m2), Encode(SentSigrl(sigrl)));
  }

  // What the client is sent, after what was left over, and what is left for others.
  ghost predicate IsServed(c: Primitives, cfg: Config, key: bytes, p: Party, sigrl: bytes, report: Answer,
                           before: string, r: Record)
  {
    && r.after.wbuffer == "" && r.after.rbuffer == "" && report.Reply? && Loaded(report.content).Ok?
    && c.sharedSecret(key, p.ga).Some? && |p.gid| == 4
    && exists m2, m4 ::
         && IsMsg2(c, cfg, key, Message1(p), sigrl, m2) && IsMsg4(Loaded(report.content).value, m4)
         && r.wire == (before + (Encode(m2 + sigrl[..|sigrl| % 0x1_0000_0000]) + "\n"))
                      + (Encode(m4 + c.encrypt(Derived(c, p.secret, "SK"), Ascii("Hello, Client! w"))) + "\n")
  }

  lemma HonestReads(c: Primitives, cfg: Config, s: Server, cl: Client, p: Party, ps: bytes, quote: bytes,
                    n: nat, sigrl: bytes, t: string)
    requires |p.gid| == 4 && cl.key.Some? && c.sharedSecret(cl.key.value, p.ga) == Some(p.secret)
    requires SuppliedBy(c, s.id, s.answers, n, sigrl) && n + 1 < |s.answers|
    requires |ps| == 256 && |quote| >= 8 && quote[4..8] == p.gid
    requires var frames := [Encode(Message1(p)), Encode(Message3(c, p, ps, quote))];
             Carries(s.rbuffer, cl.incoming, frames, t) && InTime(s.rbuffer, cl.incoming, frames, t)
    ensures var r := SessionOf(c, cfg, s, cl);
            && r.first == Frame(Encode(Message1(p))) && r.third == Some(Frame(Encode(Message3(c, p, ps, quote))))
            && r.fetched.Some? && r.fetched.value.sigrl == Some(sigrl)
            && r.report == Some(s.answers[n + 1]) && r.after.rbuffer == ""
  {
    var m1, m3 := Message1(p), Message3(c, p, ps, quote);
    MessagesNotEmpty(c, p, ps, quote);
    hide ReadOutcome, Carries, InTime, Opening, Quote, Encode, SessionOf, Fetch, Drop, Next, Message1, Message3,
      SuppliedBy, Opened, Sound3, Derived, SmkOf;
    TwoReads(s.rbuffer, cl.incoming, Encode(m1), Encode(m3), t);
    Message1Opens(c, p, cl.key.value);
    OpenedKeys(c, cl.key, Frame(Encode(m1)), m1);
    HonestSmk(c, p, cl.key.value);
    Message3Sound(c, p, ps, quote);
    QuoteExactly(c, Opening(c, cl.key, Frame(Encode(m1))).value, Frame(Encode(m3)));
    FetchExactly(c, s.id, s.answers, sigrl);
    DropExactly(s.answers, n + 1);
    StagesPass(c, cfg, s, cl);
  }

  lemma HonestSmk(c: Primitives, p: Party, key: bytes)
    requires |p.gid| == 4 && c.sharedSecret(key, p.ga) == Some(p.secret)
    ensures SmkOf(c, Some(key), Message1(p)) == Derived(c, p.secret, "SMK")
  {
    hide Derived;
  }

  lemma MessagesNotEmpty(c: Primitives, p: Party, ps: bytes, quote: bytes)
    ensures Encode(Message1(p)) != "" && Encode(Message3(c, p, ps, quote)) != ""
  {
  }
}
