/**
 The remote attestation server: main's loop, process_msg01, process_msg3 and get_sigrl in
 service-provider/sp.cpp.

 Messages are byte strings laid out as in the SGX SDK's structures. The key a session generates
 and everything clients and the attestation service do are given; cryptography is Primitives.
 */
module Session {
  import opened CText
  import opened Attestation
  import opened Crypto
  import opened HexUtil
  import opened Ias
  import opened MsgIO
  import opened RequestBody

  datatype Config = Config(
    spid: Block, quoteType: nat, apiver: nat, strictTrust: bool,
    mrsigner: Digest, prodId: nat, minSvn: nat, allowDebug: bool)

  predicate IsConfig(cfg: Config) {
    cfg.quoteType < 65536 && 3 <= cfg.apiver <= 4
  }

  // How a step of the protocol ends: the session is given up; the program is at its end, or beyond
  // what is modelled (see Verdict); or there is something to go on with.
  datatype Stage<+T> = Refuse | Abort | Pass(value: T)

  // What a session keeps of msg1 and its keys.
  datatype Keys = Keys(ga: Point, gb: Point, gid: bytes, kdk: Block, smk: Block)

  const ZERO_KEY: Block := Zeros(16)
  const SMK_LABEL: bytes := [1, 0x53, 0x4d, 0x4b, 0, 0x80, 0]
  const VK_LABEL: bytes := [1, 0x56, 0x4b, 0, 0x80, 0]
  const SK_LABEL: bytes := [1, 0x53, 0x4b, 0, 0x80, 0]

  // "Hello, Client! w", the one block of the plaintext that is encrypted
  const PLAINTEXT: Block :=
    [0x48, 0x65, 0x6c, 0x6c, 0x6f, 0x2c, 0x20, 0x43, 0x6c, 0x69, 0x65, 0x6e, 0x74, 0x21, 0x20, 0x77]

  // The bytes of a frame; frames of anything but hex digits leave uninitialised memory.
  predicate IsBytes(r: ReadResult) {
    r.Frame? && |r.text| % 2 == 0 && AllHex(r.text)
  }

  // --- msg0 || msg1 -------------------------------------------------------------------------------

  // derive_kdk
  function Kdk(c: Primitives, key: bytes, ga: Point): Option<Block> {
    match c.sharedSecret(key, ga)
    case None => None
    case Some(secret) => Some(c.cmac(ZERO_KEY, Reversed(secret)))
  }

  // process_msg01 up to the point where it asks for the SigRL.
  function Opening(c: Primitives, key: Option<bytes>, r: ReadResult): (s: Stage<Keys>)
    ensures s.Pass? ==> |s.value.gid| == 4
  {
    if r.SystemError? || r.ProtocolError? then Refuse
    else if !IsBytes(r) || |r.text| < 8 then Abort
    else
      var m := Decode(r.text);
      if m[..4] != [0, 0, 0, 0] then Refuse
      else if |m| < 72 then Abort
      else if key.None? || Kdk(c, key.value, m[4..68]).None? then Refuse
      else
        var kdk := Kdk(c, key.value, m[4..68]).value;
        Pass(Keys(m[4..68], c.publicHalf(key.value), m[68..72], kdk, c.cmac(kdk, SMK_LABEL)))
  }

  // What is left of the answers after n requests.
  function Drop(answers: seq<Answer>, n: nat): seq<Answer> {
    if n < |answers| then answers[n..] else []
  }

  lemma DropOne(answers: seq<Answer>, n: nat)
    ensures Later(Drop(answers, n)) == Drop(answers, n + 1)
  {
  }

  // The keys get_sigrl tries, the one it leaves selected, and the list it obtains.
  datatype Fetched = Fetched(sigrl: Option<bytes>, id: KeyID, tried: seq<KeyID>)

  function Fetch(c: Primitives, id: KeyID, answers: seq<Answer>): (f: Fetched)
    ensures f.tried == [f.id] || (id.Primary? && f.id.Secondary? && f.tried == [Primary, Secondary])
    ensures id.Secondary? ==> f.id.Secondary?
    decreases if id.Primary? then 1 else 0
  {
    var a := Next(answers);
    if StatusOf(a) == IAS_UNAUTHORIZED && id.Primary? then
      var f := Fetch(c, Secondary, Later(answers));
      f.(tried := [Primary] + f.tried)
    else
      Fetched(if StatusOf(a) == IAS_OK then c.base64Decode(CStr(a.content)) else None, id, [id])
  }

  // --- msg2 ---------------------------------------------------------------------------------------

  // Gb || SPID || TYPE || KDF-ID || SigSP(Gb || Ga)
  function PartA(c: Primitives, cfg: Config, k: Keys): (a: bytes)
    ensures |a| == 148
  {
    var (r, s) := c.sign(k.gb + k.ga);
    k.gb + (cfg.spid + (LittleEndian(cfg.quoteType, 2) + (LittleEndian(1, 2) + (Reversed(r) + Reversed(s)))))
  }

  // sig_rl_size is a 32-bit number.
  function SentSigrl(sigrl: bytes): bytes {
    sigrl[..|sigrl| % TWO_32]
  }

  function Msg2(c: Primitives, cfg: Config, k: Keys, sigrl: bytes): (m: bytes)
    ensures |m| == 168
  {
    PartA(c, cfg, k) + (c.cmac(k.smk, PartA(c, cfg, k)) + LittleEndian(|SentSigrl(sigrl)|, 4))
  }

  // What is queued for it: the fixed part, the list, and the end of the line.
  function Msg2Text(c: Primitives, cfg: Config, k: Keys, sigrl: bytes): string {
    Encode(Msg2(c, cfg, k, sigrl)) + (Encode(SentSigrl(sigrl)) + "\n")
  }

  // --- msg3 ---------------------------------------------------------------------------------------

  // process_msg3 up to the point where it asks for the report: the quote.
  function Quote(c: Primitives, k: Keys, r: ReadResult): Stage<bytes> {
    if r.SystemError? || r.ProtocolError? then Refuse
    else if !IsBytes(r) || |r.text| < 160 then Abort
    else
      var m := Decode(r.text);
      if m[16..80] != k.ga then Refuse
      else if |m| < 336 then Abort
      else if m[..16] != c.cmac(k.smk, m[16..]) then Refuse
      else if |m| < 344 then Abort
      else if m[340..344] != k.gid then Refuse
      else Pass(m[336..])
  }

  // verify_enclave_identity, on the report body of a quote
  predicate Recognised(cfg: Config, quote: bytes)
    requires |quote| >= 432
  {
    && (cfg.allowDebug || quote[96] / 2 % 2 == 0)
    && Unsigned(quote[304..306]) == cfg.prodId
    && Unsigned(quote[306..308]) >= cfg.minSvn
    && quote[176..208] == cfg.mrsigner
  }

  function Vk(c: Primitives, k: Keys): Block {
    c.cmac(k.kdk, VK_LABEL)
  }

  // What the report data of a quote has to be.
  function Bound(c: Primitives, k: Keys): bytes {
    c.sha256(k.ga + k.gb + Vk(c, k)) + Zeros(32)
  }

  // process_msg3 after get_attestation_report: status and PIB of msg4.
  function Conclusion(c: Primitives, cfg: Config, k: Keys, quote: bytes, v: Verdict): (s: Stage<(TrustStatus, bytes)>)
    ensures s.Pass? ==> v.Attested? && s.value.1 == v.pib
  {
    if v.Rejected? then Refuse
    else if v.Crash? || |quote| < 432 then Abort
    else if quote[368..432] != Bound(c, k) then Refuse
    else Pass((if Recognised(cfg, quote) then v.status else NotTrusted, v.pib))
  }

  function StatusCode(s: TrustStatus): nat {
    match s
    case NotTrusted => 0
    case NotTrustedItsComplicated => 1
    case TrustedItsComplicated => 2
    case Trusted => 3
  }

  // status and platformInfoBlob of msg4
  function Msg4(status: TrustStatus, pib: bytes): bytes {
    LittleEndian(StatusCode(status), 4) + pib
  }

  function Ciphertext(c: Primitives, k: Keys): Block {
    c.encrypt(c.cmac(k.kdk, SK_LABEL), PLAINTEXT)
  }

  // --- one session ---------------------------------------------------------------------------------

  // What stays when a client has gone.
  datatype Server = Server(wbuffer: string, rbuffer: string, id: KeyID, answers: seq<Answer>)

  // A client, and the key generated for it.
  datatype Client = Client(key: Option<bytes>, plan: seq<SendEvent>, incoming: seq<RecvEvent>)

  datatype Query = Query(id: KeyID, path: string, body: string)

  datatype Ending =
    | GivenUp
    | Aborted
    | Untrusted(status: TrustStatus, pib: bytes)
    | Released(status: TrustStatus, pib: bytes, ciphertext: Block)

  // The course of a session: what was read as msg0 || msg1 and as msg3, the keys tried for the SigRL
  // and what came of them, the report, all requests, all text queued for the client and the part of
  // it that was transmitted, and the server afterwards.
  datatype Record = Record(
    first: ReadResult, fetched: Option<Fetched>, third: Option<ReadResult>, report: Option<Answer>,
    queries: seq<Query>, ending: Ending, queued: string, wire: string, after: Server)

  function SigrlQueries(tried: seq<KeyID>, cfg: Config, gid: bytes): (qs: seq<Query>)
    ensures |qs| == |tried|
  {
    seq(|tried|, i requires 0 <= i < |tried| => Query(tried[i], SigrlPath(cfg.apiver, Unsigned(gid)), ""))
  }

  function ReportQuery(id: KeyID, c: Primitives, cfg: Config, quote: bytes): Query {
    Query(id, ReportPath(cfg.apiver), Body([Param("isvEnclaveQuote", c.base64Encode(quote))]))
  }

  function Stopped<T>(s: Stage<T>): Ending {
    if s.Abort? then Aborted else GivenUp
  }

  function SessionOf(c: Primitives, cfg: Config, s: Server, cl: Client): Record {
    var (r1, rbuffer1, incoming1) := ReadOutcome(s.rbuffer, cl.incoming);
    var opening := Opening(c, cl.key, r1);
    var s1 := s.(rbuffer := rbuffer1);
    if !opening.Pass? then Record(r1, None, None, None, [], Stopped(opening), "", "", s1)
    else
      var k := opening.value;
      var f := Fetch(c, s.id, s.answers);
      var s2 := s1.(id := f.id, answers := Drop(s.answers, |f.tried|));
      var queries := SigrlQueries(f.tried, cfg, k.gid);
      if f.sigrl.None? then Record(r1, Some(f), None, None, queries, GivenUp, "", "", s2)
      else
        var text2 := Msg2Text(c, cfg, k, f.sigrl.value);
        var (wire2, rest2, plan2) := SendOutcome(s.wbuffer + text2, cl.plan);
        var (r3, rbuffer3, _) := ReadOutcome(rbuffer1, incoming1);
        var s3 := s2.(wbuffer := rest2, rbuffer := rbuffer3);
        var quote := Quote(c, k, r3);
        if !quote.Pass? then Record(r1, Some(f), Some(r3), None, queries, Stopped(quote), text2, wire2, s3)
        else
          var report := Next(s3.answers);
          var s4 := s3.(answers := Later(s3.answers));
          var queries4 := queries + [ReportQuery(f.id, c, cfg, quote.value)];
          var end := Conclusion(c, cfg, k, quote.value, VerdictOf(c, report, cfg.apiver, cfg.strictTrust));
          if !end.Pass? then Record(r1, Some(f), Some(r3), Some(report), queries4, Stopped(end), text2, wire2, s4)
          else
            var (status, pib) := end.value;
            var text4 := Encode(Msg4(status, pib));
            if !IsTrusted(status) then
              Record(r1, Some(f), Some(r3), Some(report), queries4, Untrusted(status, pib), text2 + text4, wire2,
                     s4.(wbuffer := rest2 + text4))
            else
              var text5 := text4 + (Encode(Ciphertext(c, k)) + "\n");
              var (wire4, rest4, _) := SendOutcome(rest2 + text5, plan2);
              Record(r1, Some(f), Some(r3), Some(report), queries4, Released(status, pib, Ciphertext(c, k)),
                     text2 + text5, wire2 + wire4, s4.(wbuffer := rest4))
  }

  // --- all sessions ---------------------------------------------------------------------------------

  function Run(c: Primitives, cfg: Config, s: Server, clients: seq<Client>): (rs: seq<Record>)
    ensures |rs| <= |clients|
    decreases clients
  {
    if clients == [] then []
    else
      var r := SessionOf(c, cfg, s, clients[0]);
      if r.ending.Aborted? then [r] else [r] + Run(c, cfg, r.after, clients[1..])
  }

  function Final(s: Server, rs: seq<Record>): Server {
    if rs == [] then s else rs[|rs| - 1].after
  }

  function Queries(rs: seq<Record>): seq<Query> {
    if rs == [] then [] else rs[0].queries + Queries(rs[1..])
  }

  function Queued(rs: seq<Record>): string {
    if rs == [] then "" else rs[0].queued + Queued(rs[1..])
  }

  function Wires(rs: seq<Record>): string {
    if rs == [] then "" else rs[0].wire + Wires(rs[1..])
  }
}
