/**
 What holds over every run of the server, whatever its clients and the attestation service do.
 */
module SessionTheorems {
  import opened CText
  import opened Attestation
  import opened Crypto
  import opened HexUtil
  import opened Ias
  import opened Json
  import opened JsonParser
  import opened JsonTheorems
  import opened MsgIO
  import opened RequestBody
  import opened Session

  // --- who gets the ciphertext ----------------------------------------------------------------------

  // What was read is the message in hex digits, of either case.
  ghost predicate IsMessage(r: ReadResult, m: bytes) {
    r.Frame? && SameLetters(r.text, Encode(m))
  }

  lemma IsMessageExactly(r: ReadResult, m: bytes)
    ensures IsMessage(r, m) <==> IsBytes(r) && m == Decode(r.text)
  {
    if r.Frame? {
      EqualNoCaseExactly(r.text, Encode(m));
      DecodeEncode(m);
      hide Encode, Decode;
      LowerOfLower(Encode(m));
      if IsBytes(r) {
        EncodeDecode(r.text);
        LowerOfLower(r.text);
        if m == Decode(r.text) {
          assert Lower(Encode(m)) == Lower(r.text);
        }
      }
      if IsMessage(r, m) {
        HexOfEitherCase(r.text, Encode(m));
        EncodeDecode(Encode(m));
        EncodeDecode(r.text);
        DecodeEncode(Decode(r.text));
      }
    }
  }

  lemma LowerOfLower(s: string)
    ensures Lower(Lower(s)) == Lower(s)
  {
  }

  lemma HexOfEitherCase(a: string, b: string)
    requires SameLetters(a, b) && AllHex(b)
    ensures AllHex(a)
  {
  }

  ghost predicate TrustworthyStatus(quoteStatus: string, strict: bool) {
    || quoteStatus == "OK"
    || (!strict && (quoteStatus == "SW_HARDENING_NEEDED" || quoteStatus == "CONFIGURATION_AND_SW_HARDENING_NEEDED"))
  }

  // The report answers for the enclave: its signature verifies, and its version and quote status are
  // the ones asked for.
  ghost predicate ReportHolds(c: Primitives, cfg: Config, a: Answer) {
    && Genuine(c, a) && Loaded(a.content).Ok?
    && var report := Loaded(a.content).value;
    && (exists n :: Holds(report, "version", Integral(n)) && n % 0x1_0000_0000 == cfg.apiver)
    && (exists q :: Holds(report, "isvEnclaveQuoteStatus", Str(q)) && TrustworthyStatus(q, cfg.strictTrust))
    && PibOf(Get(report, "platformInfoBlob")).Some?
  }

  function Ascii(text: string): bytes {
    seq(|text|, i requires 0 <= i < |text| => text[i] as int % 256)
  }

  // What a key is derived with: a counter, the key's name, a zero, and its length in bits.
  function Label(name: string): bytes {
    [1] + (Ascii(name) + [0, 128, 0])
  }

  lemma ConstantsExactly()
    ensures ZERO_KEY == Zeros(16) && PLAINTEXT == Ascii("Hello, Client! w")
    ensures SMK_LABEL == Label("SMK") && VK_LABEL == Label("VK") && SK_LABEL == Label("SK")
  {
  }

  // A key derived from the secret of a session.
  function Derived(c: Primitives, secret: bytes, name: string): Block {
    c.cmac(c.cmac(Zeros(16), Reversed(secret)), Label(name))
  }

  // msg0's extended group id is zero, and Ga of msg1 is a point to agree on a secret with.
  ghost predicate Opened(c: Primitives, key: Option<bytes>, r: ReadResult, m1: bytes) {
    && IsMessage(r, m1) && |m1| >= 72 && m1[..4] == [0, 0, 0, 0]
    && key.Some? && c.sharedSecret(key.value, m1[4..68]).Some?
  }

  // All that has to hold for the ciphertext to be released, on the bytes of this session's messages:
  // m1 is msg0 || msg1, m3 is msg3, the quote in it starts at byte 336.
  ghost predicate Authorised(c: Primitives, cfg: Config, key: Option<bytes>, r: Record, m1: bytes, m3: bytes) {
    && Opened(c, key, r.first, m1)
    // the service supplied a SigRL
    && r.fetched.Some? && r.fetched.value.sigrl.Some?
    // msg3 repeats Ga, and its MAC under this session's SMK covers every byte after it
    && r.third.Some? && IsMessage(r.third.value, m3) && |m3| >= 336 + 432 && m3[16..80] == m1[4..68]
    && var secret := c.sharedSecret(key.value, m1[4..68]).value;
    && m3[..16] == c.cmac(Derived(c, secret, "SMK"), m3[16..])
    // the quote is from the group msg1 named
    && m3[336 + 4..336 + 8] == m1[68..72]
    // the report on it holds
    && r.report.Some? && ReportHolds(c, cfg, r.report.value)
    // its report data binds Ga, Gb and VK
    && m3[336 + 368..336 + 400] == c.sha256(m1[4..68] + c.publicHalf(key.value) + Derived(c, secret, "VK"))
    && m3[336 + 400..336 + 432] == Zeros(32)
    // the enclave has the signer and product asked for, at least the version, and no debug flag
    // unless that is allowed
    && m3[336 + 176..336 + 208] == cfg.mrsigner
    && m3[336 + 304] as int + 256 * (m3[336 + 305] as int) == cfg.prodId
    && m3[336 + 306] as int + 256 * (m3[336 + 307] as int) >= cfg.minSvn
    && (cfg.allowDebug || m3[336 + 96] / 2 % 2 == 0)
  }

  lemma RecognisedExactly(cfg: Config, quote: bytes)
    requires |quote| >= 432
    ensures Recognised(cfg, quote) <==>
            && quote[176..208] == cfg.mrsigner
            && quote[304] as int + 256 * (quote[305] as int) == cfg.prodId
            && quote[306] as int + 256 * (quote[307] as int) >= cfg.minSvn
            && (cfg.allowDebug || quote[96] / 2 % 2 == 0)
  {
    TwoBytes(quote[304..306]);
    TwoBytes(quote[306..308]);
    hide Unsigned;
  }

  lemma TwoBytes(b: bytes)
    requires |b| == 2
    ensures Unsigned(b) == b[0] as int + 256 * (b[1] as int)
  {
    assert Unsigned(b[1..]) == b[1] as int + 256 * Unsigned(b[1..][1..]) && b[1..][1..] == [];
  }

  lemma OpeningPasses(c: Primitives, key: Option<bytes>, r: ReadResult)
    ensures Opening(c, key, r).Pass? <==>
            IsBytes(r) && |r.text| >= 144 && Decode(r.text)[..4] == [0, 0, 0, 0]
            && key.Some? && c.sharedSecret(key.value, Decode(r.text)[4..68]).Some?
  {
    hide Decode, AllHex;
  }

  lemma QuotePasses(c: Primitives, k: Keys, r: ReadResult)
    ensures Quote(c, k, r).Pass? <==>
            IsBytes(r) && |r.text| >= 688
            && var m := Decode(r.text);
            m[16..80] == k.ga && m[..16] == c.cmac(k.smk, m[16..]) && m[340..344] == k.gid
    ensures Quote(c, k, r).Pass? ==> Quote(c, k, r).value == Decode(r.text)[336..]
  {
    hide Decode, AllHex;
  }

  lemma TrustExactly(text: string, strict: bool)
    ensures IsTrusted(TrustOf(text, strict)) <==> TrustworthyStatus(text, strict)
  {
    assert "GROUP_OUT_OF_DATE"[0] == 'G';
  }

  // A text that needs no escape is the escape of itself alone.
  lemma EscapesTo(q: string, text: string)
    requires forall i :: 0 <= i < |text| ==> 'A' <= text[i] <= 'Z' || text[i] == '_'
    ensures Escape(q) == text <==> q == text
  {
    PlainEscape(text);
    EscapeIsEscaped(q);
    EscapeIsEscaped(text);
  }

  lemma {:induction false} PlainEscape(text: string)
    requires forall i :: 0 <= i < |text| ==> 'A' <= text[i] <= 'Z' || text[i] == '_'
    ensures Escape(text) == text
  {
    if text != "" {
      PlainEscape(text[1..]);
    }
  }

  lemma StatusRead(q: string, strict: bool)
    ensures TrustworthyStatus(Escape(q), strict) <==> TrustworthyStatus(q, strict)
  {
    hide Escape;
    EscapesTo(q, "OK");
    EscapesTo(q, "SW_HARDENING_NEEDED");
    EscapesTo(q, "CONFIGURATION_AND_SW_HARDENING_NEEDED");
  }

  // A string or an integer that a lookup finds is one of the entries.
  lemma TextHeld(v: Json, k: string, p: string -> bool)
    requires v.Object? ==> Sorted(v.entries)
    ensures Get(v, k).Str? && p(Get(v, k).text) <==> exists q :: Holds(v, k, Str(q)) && p(q)
  {
    var t := Get(v, k);
    LookupExactly(v, k, t);
    hide Holds, HasKey, Get;
    if t.Str? && p(t.text) {
      assert t == Str(t.text);
    }
    if q :| Holds(v, k, Str(q)) && p(q) {
      LookupExactly(v, k, Str(q));
    }
  }

  lemma NumberHeld(v: Json, k: string, p: int -> bool)
    requires v.Object? ==> Sorted(v.entries)
    ensures Get(v, k).Integral? && p(Get(v, k).number) <==> exists n :: Holds(v, k, Integral(n)) && p(n)
    ensures !HasKey(v, k) ==> Get(v, k) == Null
  {
    var t := Get(v, k);
    LookupExactly(v, k, t);
    hide Holds, HasKey, Get;
    if t.Integral? && p(t.number) {
      assert t == Integral(t.number);
    }
    if n :| Holds(v, k, Integral(n)) && p(n) {
      LookupExactly(v, k, Integral(n));
    }
  }

  lemma WellFormedSorted(report: Json)
    requires WellFormed(report)
    ensures report.Object? ==> Sorted(report.entries)
  {
  }

  // The version and the quote status of a report, as its entries have them.
  lemma VersionRead(report: Json, version: nat)
    requires WellFormed(report) && 3 <= version <= 4
    ensures VersionAccepted(report, version) <==>
            exists n :: Holds(report, "version", Integral(n)) && n % 0x1_0000_0000 == version
  {
    var t := Get(report, "version");
    WellFormedSorted(report);
    ConversionsExactly(t);
    assert 0 % TWO_32 == 0 && version % TWO_32 == version;
    hide Holds, HasKey, Get, ToInt, WellFormed;
    VersionHeld(report, version);
  }

  lemma VersionHeld(report: Json, version: nat)
    requires report.Object? ==> Sorted(report.entries)
    ensures var t := Get(report, "version");
            t.Integral? && t.number % 0x1_0000_0000 == version <==>
            exists n :: Holds(report, "version", Integral(n)) && n % 0x1_0000_0000 == version
    ensures !HasKey(report, "version") ==> Get(report, "version") == Null
  {
    hide Holds, HasKey, Get;
    NumberHeld(report, "version", n => n % 0x1_0000_0000 == version);
  }

  lemma QuoteStatusRead(report: Json, strict: bool)
    requires WellFormed(report)
    ensures TrustworthyStatus(ToText(Get(report, "isvEnclaveQuoteStatus")), strict) <==>
            exists q :: Holds(report, "isvEnclaveQuoteStatus", Str(q)) && TrustworthyStatus(q, strict)
  {
    var t := Get(report, "isvEnclaveQuoteStatus");
    TextHeld(report, "isvEnclaveQuoteStatus", q => TrustworthyStatus(q, strict));
    ConversionsExactly(t);
    NoStatus(strict);
    hide Holds, HasKey, Get, ToText, Escape, WellFormed, TrustworthyStatus;
    if t.Str? {
      StatusRead(t.text, strict);
    }
  }

  lemma NoStatus(strict: bool)
    ensures !TrustworthyStatus("", strict)
  {
  }

  // The verdict is for trust exactly if the report holds.
  lemma VerdictExactly(c: Primitives, cfg: Config, a: Answer)
    requires IsConfig(cfg)
    ensures var v := VerdictOf(c, a, cfg.apiver, cfg.strictTrust);
            v.Attested? && IsTrusted(v.status) <==> ReportHolds(c, cfg, a)
  {
    hide Genuine, ReportStatus, Loaded, Get, HasKey, Holds, PibOf, TrustOf, TrustworthyStatus, ToText, VersionAccepted;
    ReportStatusExactly(c, a);
    if a.Reply? && Loaded(a.content).Ok? {
      var report := Loaded(a.content).value;
      LoadedWellFormed(a.content);
      VersionRead(report, cfg.apiver);
      QuoteStatusRead(report, cfg.strictTrust);
      TrustExactly(ToText(Get(report, "isvEnclaveQuoteStatus")), cfg.strictTrust);
    }
  }

  lemma LoadedWellFormed(s: string)
    ensures Loaded(s).Ok? ==> WellFormed(Loaded(s).value)
  {
    ParsedWellFormed(s, 0);
  }

  // Report data that is the expected digest, followed by zeros.
  lemma BoundParts(c: Primitives, k: Keys, quote: bytes)
    requires |quote| >= 432
    ensures quote[368..432] == Bound(c, k) <==>
            quote[368..400] == c.sha256(k.ga + k.gb + Vk(c, k)) && quote[400..432] == Zeros(32)
  {
    var d := c.sha256(k.ga + k.gb + Vk(c, k));
    assert quote[368..432] == quote[368..400] + quote[400..432];
    var b := Bound(c, k);
    assert b[..32] == d && b[32..] == Zeros(32);
    assert quote[368..432][..32] == quote[368..400] && quote[368..432][32..] == quote[400..432];
  }

  lemma ConclusionExactly(c: Primitives, cfg: Config, k: Keys, quote: bytes, a: Answer)
    requires IsConfig(cfg)
    ensures var s := Conclusion(c, cfg, k, quote, VerdictOf(c, a, cfg.apiver, cfg.strictTrust));
            s.Pass? && IsTrusted(s.value.0) <==>
            && ReportHolds(c, cfg, a) && |quote| >= 432 && quote[368..432] == Bound(c, k)
            && quote[176..208] == cfg.mrsigner
            && quote[304] as int + 256 * (quote[305] as int) == cfg.prodId
            && quote[306] as int + 256 * (quote[307] as int) >= cfg.minSvn
            && (cfg.allowDebug || quote[96] / 2 % 2 == 0)
  {
    hide ReportHolds, VerdictOf, Recognised, Bound;
    VerdictExactly(c, cfg, a);
    if |quote| >= 432 {
      RecognisedExactly(cfg, quote);
    }
  }

  // A session in stages: it releases the ciphertext exactly if every one of them passes.
  lemma ReleasedByStages(c: Primitives, cfg: Config, s: Server, cl: Client)
    ensures var r := SessionOf(c, cfg, s, cl);
            var opening := Opening(c, cl.key, r.first);
            r.ending.Released? <==>
              && opening.Pass? && r.fetched.Some? && r.fetched.value.sigrl.Some? && r.third.Some?
              && var quote := Quote(c, opening.value, r.third.value);
              && quote.Pass? && r.report.Some?
              && var end := Conclusion(c, cfg, opening.value, quote.value,
                                       VerdictOf(c, r.report.value, cfg.apiver, cfg.strictTrust));
              && end.Pass? && IsTrusted(end.value.0)
    ensures var r := SessionOf(c, cfg, s, cl);
            r.ending.Released? ==>
              && r.ending.ciphertext == Ciphertext(c, Opening(c, cl.key, r.first).value)
              && r.queries == SigrlQueries(r.fetched.value.tried, cfg, Opening(c, cl.key, r.first).value.gid)
                 + [ReportQuery(r.fetched.value.id, c, cfg,
                                Quote(c, Opening(c, cl.key, r.first).value, r.third.value).value)]
  {
    hide ReadOutcome, Opening, Quote, Conclusion, VerdictOf, Fetch, SendOutcome, Msg2, Msg4, Encode, Drop, IsTrusted,
      Ciphertext, SentSigrl, SigrlQueries, ReportQuery;
  }

  // Opening keeps Ga, the group id and the keys.
  lemma OpeningKeys(c: Primitives, key: Option<bytes>, r: ReadResult)
    requires Opening(c, key, r).Pass?
    ensures var m := Decode(r.text);
            IsBytes(r) && |m| >= 72 && key.Some? && c.sharedSecret(key.value, m[4..68]).Some?
            && var kdk := c.cmac(ZERO_KEY, Reversed(c.sharedSecret(key.value, m[4..68]).value));
            Opening(c, key, r).value == Keys(m[4..68], c.publicHalf(key.value), m[68..72], kdk, c.cmac(kdk, SMK_LABEL))
  {
    hide Decode, AllHex;
  }

  // One session: the ciphertext is released if and only if all the conditions hold.
  lemma SessionSafety(c: Primitives, cfg: Config, s: Server, cl: Client)
    requires IsConfig(cfg)
    ensures var r := SessionOf(c, cfg, s, cl);
            r.ending.Released? <==> exists m1, m3 :: Authorised(c, cfg, cl.key, r, m1, m3)
  {
    var r := SessionOf(c, cfg, s, cl);
    ReleasedByStages(c, cfg, s, cl);
    OpeningPasses(c, cl.key, r.first);
    ConstantsExactly();
    hide SessionOf, Opening, Quote, Conclusion, VerdictOf, ReportHolds, Recognised, Bound, Decode, AllHex, IsTrusted,
      Label, IsMessage;
    if r.ending.Released? {
      var k := Opening(c, cl.key, r.first).value;
      OpeningKeys(c, cl.key, r.first);
      QuotePasses(c, k, r.third.value);
      var m1, m3 := Decode(r.first.text), Decode(r.third.value.text);
      IsMessageExactly(r.first, m1);
      IsMessageExactly(r.third.value, m3);
      ConclusionExactly(c, cfg, k, m3[336..], r.report.value);
      BoundParts(c, k, m3[336..]);
      QuoteSlices(m3);
      assert Authorised(c, cfg, cl.key, r, m1, m3);
    }
    if m1, m3 :| Authorised(c, cfg, cl.key, r, m1, m3) {
      IsMessageExactly(r.first, m1);
      IsMessageExactly(r.third.value, m3);
      var k := Opening(c, cl.key, r.first).value;
      OpeningKeys(c, cl.key, r.first);
      QuotePasses(c, k, r.third.value);
      QuoteSlices(m3);
      BoundParts(c, k, m3[336..]);
      ConclusionExactly(c, cfg, k, m3[336..], r.report.value);
    }
  }

  lemma QuoteSlices(m: bytes)
    requires |m| >= 336 + 432
    ensures m[336..][368..400] == m[336 + 368..336 + 400] && m[336..][400..432] == m[336 + 400..336 + 432]
    ensures m[336..][176..208] == m[336 + 176..336 + 208] && m[336..][96] == m[336 + 96]
    ensures forall i :: 304 <= i < 308 ==> m[336..][i] == m[336 + i]
  {
  }

  // --- over whole runs --------------------------------------------------------------------------------

  function StateAt(s: Server, rs: seq<Record>, i: nat): Server
    requires i <= |rs|
  {
    if i == 0 then s else rs[i - 1].after
  }

  // Every record of a run is that of a session with its client, from where the one before ended;
  // only the last can have ended the program.
  lemma {:induction false} RunAt(c: Primitives, cfg: Config, s: Server, clients: seq<Client>, i: nat)
    requires i < |Run(c, cfg, s, clients)|
    ensures var rs := Run(c, cfg, s, clients);
            && rs[i] == SessionOf(c, cfg, StateAt(s, rs, i), clients[i])
            && (rs[i].ending.Aborted? ==> i == |rs| - 1)
    decreases clients
  {
    hide SessionOf;
    var r := SessionOf(c, cfg, s, clients[0]);
    if i > 0 {
      RunAt(c, cfg, r.after, clients[1..], i - 1);
    }
  }

  // In every run, over any messages and answers, a session comes to release the ciphertext if and only
  // if all the conditions hold of that same session's messages, key and report. SessionWires says on
  // whose wire it then goes.
  lemma WholeRunSafety(c: Primitives, cfg: Config, s: Server, clients: seq<Client>, i: nat)
    requires IsConfig(cfg) && i < |Run(c, cfg, s, clients)|
    ensures var r := Run(c, cfg, s, clients)[i];
            r.ending.Released? <==> exists m1, m3 :: Authorised(c, cfg, clients[i].key, r, m1, m3)
  {
    hide SessionOf, Authorised;
    var rs := Run(c, cfg, s, clients);
    RunAt(c, cfg, s, clients, i);
    SessionSafety(c, cfg, StateAt(s, rs, i), clients[i]);
  }

  // What is released is encrypted under the SK of the session's own secret, and the report it rests
  // on was asked for with the quote of that session's msg3.
  lemma WholeRunRelease(c: Primitives, cfg: Config, s: Server, clients: seq<Client>, i: nat, m1: bytes, m3: bytes)
    requires IsConfig(cfg) && i < |Run(c, cfg, s, clients)|
    requires Authorised(c, cfg, clients[i].key, Run(c, cfg, s, clients)[i], m1, m3)
    ensures Releases(c, cfg, clients[i].key, Run(c, cfg, s, clients)[i], m1, m3)
  {
    hide Run, SessionOf, Authorised, Releases;
    RunAt(c, cfg, s, clients, i);
    SessionRelease(c, cfg, StateAt(s, Run(c, cfg, s, clients), i), clients[i], m1, m3);
  }

  ghost predicate Releases(c: Primitives, cfg: Config, key: Option<bytes>, r: Record, m1: bytes, m3: bytes) {
    && key.Some? && |m1| >= 72 && c.sharedSecret(key.value, m1[4..68]).Some? && |m3| >= 336
    && r.ending.Released?
    && r.ending.ciphertext ==
       c.encrypt(Derived(c, c.sharedSecret(key.value, m1[4..68]).value, "SK"), Ascii("Hello, Client! w"))
    && r.queries != [] && r.queries[|r.queries| - 1] == ReportRequest(c, cfg, r.after.id, m3[336..])
  }

  // The request for the report on a quote.
  ghost function ReportRequest(c: Primitives, cfg: Config, id: KeyID, quote: bytes): Query {
    Query(id, if cfg.apiver == 3 then "3/report" else "4/report",
          "{\n\"" + ("isvEnclaveQuote" + ("\":\"" + (c.base64Encode(quote) + "\"\n}"))))
  }

  lemma SessionRelease(c: Primitives, cfg: Config, s: Server, cl: Client, m1: bytes, m3: bytes)
    requires IsConfig(cfg) && Authorised(c, cfg, cl.key, SessionOf(c, cfg, s, cl), m1, m3)
    ensures Releases(c, cfg, cl.key, SessionOf(c, cfg, s, cl), m1, m3)
  {
    SessionSafety(c, cfg, s, cl);
    ReleasedByStages(c, cfg, s, cl);
    SessionKeys(c, cfg, s, cl);
    var r := SessionOf(c, cfg, s, cl);
    hide SessionOf, Opening, Quote, Conclusion, VerdictOf, ReportHolds, Recognised, Decode, AllHex, IsTrusted,
      Body, SigrlQueries, IsMessage, ReportQuery, Label;
    OpeningKeys(c, cl.key, r.first);
    QuotePasses(c, Opening(c, cl.key, r.first).value, r.third.value);
    IsMessageExactly(r.first, m1);
    IsMessageExactly(r.third.value, m3);
    ConstantsExactly();
    ReportQueryExactly(r.after.id, c, cfg, m3[336..]);
  }

  lemma ReportQueryExactly(id: KeyID, c: Primitives, cfg: Config, quote: bytes)
    requires IsConfig(cfg)
    ensures ReportQuery(id, c, cfg, quote) == ReportRequest(c, cfg, id, quote)
  {
    ReportPathExactly(cfg.apiver);
    OneParamText(Param("isvEnclaveQuote", c.base64Encode(quote)));
    hide ReportPath, Body;
  }

  // --- which key ---------------------------------------------------------------------------------------

  predicate NeverBack(qs: seq<Query>) {
    forall i, j :: 0 <= i < j < |qs| && qs[i].id.Secondary? ==> qs[j].id.Secondary?
  }

  predicate AllUnder(qs: seq<Query>, id: KeyID) {
    forall i :: 0 <= i < |qs| ==> qs[i].id == id
  }

  predicate Unauthorized(a: Answer) {
    a.Reply? && a.statusCode == 401
  }

  // What is left once n answers have been taken.
  function LeftAfter(answers: seq<Answer>, n: nat): seq<Answer> {
    if n <= |answers| then answers[n..] else []
  }

  // A session asks at most twice for the SigRL and once for a report. The key changes exactly if the
  // first SigRL request, under the primary key, is answered with 401; each request takes one answer.
  lemma SessionKeys(c: Primitives, cfg: Config, s: Server, cl: Client)
    ensures var r := SessionOf(c, cfg, s, cl);
            && |r.queries| <= 3 && NeverBack(r.queries)
            && (r.fetched.Some? ==> 1 <= |r.fetched.value.tried| <= 2)
            && (s.id.Secondary? ==> AllUnder(r.queries, Secondary) && r.after.id.Secondary?)
            && (r.after.id.Primary? ==> AllUnder(r.queries, Primary))
            && (r.after.id != s.id <==>
                  s.id.Primary? && r.fetched.Some? && s.answers != [] && Unauthorized(s.answers[0]))
            && r.after.answers == LeftAfter(s.answers, |r.queries|)
            && (r.fetched.Some? ==> 1 <= |r.queries| && r.after.id == r.fetched.value.id)
            && (r.report.Some? ==>
                  r.fetched.Some? && r.report.value ==
                    if |r.queries| <= |s.answers| then s.answers[|r.queries| - 1] else Unreachable)
  {
    SessionAsks(c, cfg, s, cl);
    FetchTries(c, s.id, s.answers);
    var f, r := Fetch(c, s.id, s.answers), SessionOf(c, cfg, s, cl);
    DropExactly(s.answers, 0);
    DropExactly(s.answers, |f.tried|);
    DropExactly(s.answers, |f.tried| + 1);
    DropOne(s.answers, |f.tried|);
    hide SessionOf, Drop, LeftAfter, Later, Next, NeverBack, AllUnder, Opening, Quote, SigrlQueries, ReportQuery;
    NoneAsked(s);
    if r.fetched.Some? {
      KeysAsked(f.tried, cfg, Opening(c, cl.key, r.first).value.gid);
      if r.report.Some? {
        OneMoreKey(SigrlQueries(f.tried, cfg, Opening(c, cl.key, r.first).value.gid), r.queries[|r.queries| - 1]);
        ReportKey(f.id, c, cfg, Quote(c, Opening(c, cl.key, r.first).value, r.third.value).value);
      }
    }
    hide Fetch;
  }

  lemma ReportKey(id: KeyID, c: Primitives, cfg: Config, quote: bytes)
    ensures ReportQuery(id, c, cfg, quote).id == id
  {
  }

  lemma KeysAsked(tried: seq<KeyID>, cfg: Config, gid: bytes)
    requires |tried| == 1 || tried == [Primary, Secondary]
    ensures var qs := SigrlQueries(tried, cfg, gid);
            && |qs| == |tried| && NeverBack(qs) && (|tried| == 1 ==> AllUnder(qs, tried[0]))
  {
    hide SigrlPath;
  }

  lemma OneMoreKey(qs: seq<Query>, q: Query)
    requires NeverBack(qs) && (q.id.Primary? ==> AllUnder(qs, Primary))
    ensures NeverBack(qs + [q])
    ensures forall id :: AllUnder(qs, id) && q.id == id ==> AllUnder(qs + [q], id)
  {
  }

  // What a session asks of the service, and what it uses of the answers.
  lemma SessionAsks(c: Primitives, cfg: Config, s: Server, cl: Client)
    ensures var r := SessionOf(c, cfg, s, cl);
            var f := Fetch(c, s.id, s.answers);
            if r.fetched.None? then
              r.queries == [] && r.after.id == s.id && r.after.answers == s.answers && r.report.None?
            else
              && Opening(c, cl.key, r.first).Pass? && r.fetched == Some(f) && r.after.id == f.id
              && var asked := SigrlQueries(f.tried, cfg, Opening(c, cl.key, r.first).value.gid);
              if r.report.None? then r.queries == asked && r.after.answers == Drop(s.answers, |f.tried|)
              else
                && r.third.Some? && Quote(c, Opening(c, cl.key, r.first).value, r.third.value).Pass?
                && var quote := Quote(c, Opening(c, cl.key, r.first).value, r.third.value).value;
                && r.queries == asked + [ReportQuery(f.id, c, cfg, quote)]
                && r.report == Some(Next(Drop(s.answers, |f.tried|)))
                && r.after.answers == Later(Drop(s.answers, |f.tried|))
  {
    hide ReadOutcome, Opening, Quote, Conclusion, VerdictOf, SendOutcome, Msg2Text, Msg4, Encode, IsTrusted, Ciphertext,
      Fetch, Drop, SigrlQueries, ReportQuery;
  }

  lemma DropExactly(answers: seq<Answer>, n: nat)
    ensures Drop(answers, n) == LeftAfter(answers, n)
    ensures Next(Drop(answers, n)) == if n < |answers| then answers[n] else Unreachable
  {
  }

  // The answer that supplied the SigRL: the first, or the second if the first refused the primary key.
  ghost predicate SuppliedBy(c: Primitives, id: KeyID, answers: seq<Answer>, n: nat, sigrl: bytes) {
    && n < |answers| && answers[n].Reply? && answers[n].statusCode == 200
    && c.base64Decode(CStr(answers[n].content)) == Some(sigrl)
    && (n == 0 || (n == 1 && id.Primary? && Unauthorized(answers[0])))
  }

  lemma FetchExactly(c: Primitives, id: KeyID, answers: seq<Answer>, sigrl: bytes)
    ensures var f := Fetch(c, id, answers);
            f.sigrl == Some(sigrl) <==> SuppliedBy(c, id, answers, |f.tried| - 1, sigrl)
    ensures forall n :: SuppliedBy(c, id, answers, n, sigrl) ==>
              n <= 1 && Fetch(c, id, answers).tried == if n == 0 then [id] else [Primary, Secondary]
  {
    hide CStr;
    var a := Next(answers);
    if StatusOf(a) == IAS_UNAUTHORIZED && id.Primary? {
      assert Fetch(c, Secondary, Later(answers)).tried == [Secondary];
      assert Next(Later(answers)) == if 1 < |answers| then answers[1] else Unreachable;
    }
  }

  lemma FetchTries(c: Primitives, id: KeyID, answers: seq<Answer>)
    ensures Fetch(c, id, answers).id != id <==> id.Primary? && answers != [] && Unauthorized(answers[0])
    ensures Drop(answers, 0) == answers
  {
  }

  // Over a whole run the key goes from primary to secondary at most once and never back, and the
  // answers are used up one by one.
  lemma {:induction false} KeyFailover(c: Primitives, cfg: Config, s: Server, clients: seq<Client>)
    ensures var rs := Run(c, cfg, s, clients);
            var qs := Queries(rs);
            && NeverBack(qs) && (s.id.Secondary? ==> AllUnder(qs, Secondary) && Final(s, rs).id.Secondary?)
            && (Final(s, rs).id.Primary? ==> AllUnder(qs, Primary))
            && |qs| <= 3 * |rs|
            && Final(s, rs).answers == LeftAfter(s.answers, |qs|)
    decreases clients
  {
    if clients == [] {
      assert Queries([]) == [];
    } else {
  hide SessionOf, NeverBack, AllUnder, LeftAfter, Queries, Final;      var r := SessionOf(c, cfg, s, clients[0]);
      SessionKeys(c, cfg, s, clients[0]);
      var rest := if r.ending.Aborted? then [] else Run(c, cfg, r.after, clients[1..]);
      assert Run(c, cfg, s, clients) == [r] + rest;
      RunFirst(s, r, rest);
      if r.ending.Aborted? {
        NoneAsked(r.after);
      } else {
        KeyFailover(c, cfg, r.after, clients[1..]);
      }
      KeysJoin(s, r.after, Final(r.after, rest), r.queries, Queries(rest));
    }
  }

  // The requests of one session and of those after it.
  lemma KeysJoin(s: Server, middle: Server, final: Server, a: seq<Query>, b: seq<Query>)
    requires NeverBack(a) && NeverBack(b)
    requires s.id.Secondary? ==> AllUnder(a, Secondary) && middle.id.Secondary?
    requires middle.id.Primary? ==> AllUnder(a, Primary)
    requires middle.id.Secondary? ==> AllUnder(b, Secondary) && final.id.Secondary?
    requires final.id.Primary? ==> AllUnder(b, Primary)
    requires middle.answers == LeftAfter(s.answers, |a|) && final.answers == LeftAfter(middle.answers, |b|)
    ensures NeverBack(a + b) && (s.id.Secondary? ==> AllUnder(a + b, Secondary) && final.id.Secondary?)
    ensures final.id.Primary? ==> AllUnder(a + b, Primary)
    ensures final.answers == LeftAfter(s.answers, |a + b|)
  {
    Joining(a, b);
    hide NeverBack, AllUnder;
  }

  lemma RunFirst(s: Server, r: Record, rest: seq<Record>)
    ensures Queries([r] + rest) == r.queries + Queries(rest)
    ensures Final(s, [r] + rest) == Final(r.after, rest)
  {
    assert ([r] + rest)[1..] == rest;
  }

  lemma NoneAsked(s: Server)
    ensures Queries([]) == [] && NeverBack([]) && AllUnder([], Primary) && AllUnder([], Secondary)
    ensures LeftAfter(s.answers, 0) == s.answers && Final(s, []) == s
  {
  }

  lemma Joining(a: seq<Query>, b: seq<Query>)
    requires NeverBack(a) && NeverBack(b) && (AllUnder(a, Primary) || AllUnder(b, Secondary))
    ensures NeverBack(a + b)
    ensures forall id :: AllUnder(a, id) && AllUnder(b, id) ==> AllUnder(a + b, id)
  {
  }

  // --- what the clients receive --------------------------------------------------------------------------

  // What a session does to the connection: nothing before msg2; then msg2 is sent; then the start of
  // msg4 is queued for an untrusted client, and all of msg4 sent to a trusted one.
  lemma SessionSends(c: Primitives, cfg: Config, s: Server, cl: Client)
    ensures var r := SessionOf(c, cfg, s, cl);
            if r.third.None? then
              && r.queued == "" && r.wire == "" && r.after.wbuffer == s.wbuffer
              && !r.ending.Untrusted? && !r.ending.Released?
            else
              && Opening(c, cl.key, r.first).Pass? && r.fetched.Some? && r.fetched.value.sigrl.Some?
              && var text2 := Msg2Text(c, cfg, Opening(c, cl.key, r.first).value, r.fetched.value.sigrl.value);
              var (wire2, rest2, plan2) := SendOutcome(s.wbuffer + text2, cl.plan);
              match r.ending
              case Untrusted(status, pib) =>
                var text4 := Encode(Msg4(status, pib));
                r.queued == text2 + text4 && r.wire == wire2 && r.after.wbuffer == rest2 + text4
              case Released(status, pib, ciphertext) =>
                var text4 := Encode(Msg4(status, pib)) + (Encode(ciphertext) + "\n");
                var (wire4, rest4, _) := SendOutcome(rest2 + text4, plan2);
                r.queued == text2 + text4 && r.wire == wire2 + wire4 && r.after.wbuffer == rest4
              case _ => r.queued == text2 && r.wire == wire2 && r.after.wbuffer == rest2
  {
    hide ReadOutcome, Opening, Quote, Conclusion, VerdictOf, SendOutcome, Msg2Text, Msg4, Encode, IsTrusted, Ciphertext,
      Fetch, Drop, SigrlQueries, ReportQuery;
  }

  lemma Appended(wire: string, rest: string, before: string, text: string, more: string)
    requires wire + rest == before + text
    ensures wire + (rest + more) == before + (text + more)
  {
    assert wire + (rest + more) == (wire + rest) + more;
  }

  // In one session: what was transmitted and what is left in wbuffer are what was left before and
  // what was queued.
  lemma SessionConserves(c: Primitives, cfg: Config, s: Server, cl: Client)
    ensures var r := SessionOf(c, cfg, s, cl);
            r.wire + r.after.wbuffer == s.wbuffer + r.queued
  {
    SessionSends(c, cfg, s, cl);
    hide SessionOf, Opening, Msg2Text, Msg4, Encode, SendOutcome;
    var r := SessionOf(c, cfg, s, cl);
    if r.third.None? {
      assert "" + s.wbuffer == s.wbuffer == s.wbuffer + "";
    } else {
      var text2 := Msg2Text(c, cfg, Opening(c, cl.key, r.first).value, r.fetched.value.sigrl.value);
      SendConserves(s.wbuffer + text2, cl.plan);
      var (wire2, rest2, plan2) := SendOutcome(s.wbuffer + text2, cl.plan);
      match r.ending
      case Untrusted(status, pib) => Appended(wire2, rest2, s.wbuffer, text2, Encode(Msg4(status, pib)));
      case Released(status, pib, ciphertext) =>
        var text4 := Encode(Msg4(status, pib)) + (Encode(ciphertext) + "\n");
        SendConserves(rest2 + text4, plan2);
        Appended(wire2, rest2, s.wbuffer, text2, text4);
        Released2(wire2, SendOutcome(rest2 + text4, plan2).0, SendOutcome(rest2 + text4, plan2).1, rest2 + text4);
      case _ =>
    }
  }

  lemma Released2(a: string, b: string, rest: string, whole: string)
    requires b + rest == whole
    ensures (a + b) + rest == a + whole
  {
    assert (a + b) + rest == a + (b + rest);
  }

  lemma Chained(w1: string, w2: string, final: string, middle: string, before: string, q1: string, q2: string)
    requires w1 + middle == before + q1 && w2 + final == middle + q2
    ensures (w1 + w2) + final == before + (q1 + q2)
  {
    assert (w1 + w2) + final == w1 + (w2 + final) == (w1 + middle) + q2;
    assert (before + q1) + q2 == before + (q1 + q2);
  }

  // Without a failing call nothing is left behind, and no failing call is to come.
  lemma {:induction false} AllSent(wbuffer: string, plan: seq<SendEvent>)
    requires SendFailed !in plan
    ensures var (wire, rest, plan') := SendOutcome(wbuffer, plan);
            wire == wbuffer && rest == "" && SendFailed !in plan'
    decreases plan
  {
    SendConserves(wbuffer, plan);
    var (wire, rest, _) := SendOutcome(wbuffer, plan);
    assert wire + rest == wire + "" == wire;
    if wbuffer != "" && plan != [] {
      match SendResult(wbuffer, plan)
      case Interrupted => AllSent(wbuffer, plan[1..]);
      case Failed =>
      case Count(n) => AllSent(wbuffer[n..], plan[1..]);
    }
  }

  // What a session leaves in wbuffer, where no send fails: what it found there, if it did not get as
  // far as msg2; status and PIB, if it ended with an untrusted client; and nothing otherwise.
  lemma LeftBehind(c: Primitives, cfg: Config, s: Server, cl: Client)
    requires SendFailed !in cl.plan
    ensures var r := SessionOf(c, cfg, s, cl);
            r.after.wbuffer ==
            if r.third.None? then s.wbuffer
            else if r.ending.Untrusted? then Encode(Msg4(r.ending.status, r.ending.pib)) else ""
  {
    SessionSends(c, cfg, s, cl);
    hide SessionOf, Opening, Msg2Text, Msg4, Encode, SendOutcome;
    var r := SessionOf(c, cfg, s, cl);
    if r.third.Some? {
      AllSent(s.wbuffer + Msg2Of(c, cfg, cl, r), cl.plan);
      var plan2 := SendOutcome(s.wbuffer + Msg2Of(c, cfg, cl, r), cl.plan).2;
      match r.ending
      case Untrusted(status, pib) => assert "" + Encode(Msg4(status, pib)) == Encode(Msg4(status, pib));
      case Released(status, pib, ciphertext) =>
        AllSent("" + (Encode(Msg4(status, pib)) + (Encode(ciphertext) + "\n")), plan2);
      case _ =>
    }
  }

  // What a session's client receives, where no send fails.
  lemma Received(c: Primitives, cfg: Config, s: Server, cl: Client)
    requires SendFailed !in cl.plan
    ensures var r := SessionOf(c, cfg, s, cl);
            r.wire == if r.third.None? then ""
                      else s.wbuffer + if r.ending.Untrusted? then Msg2Of(c, cfg, cl, r) else r.queued
  {
    SessionSends(c, cfg, s, cl);
    hide SessionOf, Opening, Msg2Text, Msg4, Encode, SendOutcome;
    var r := SessionOf(c, cfg, s, cl);
    if r.third.Some? {
      var text2 := Msg2Of(c, cfg, cl, r);
      AllSent(s.wbuffer + text2, cl.plan);
      var (wire2, rest2, plan2) := SendOutcome(s.wbuffer + text2, cl.plan);
      if r.ending.Released? {
        var text4 := Encode(Msg4(r.ending.status, r.ending.pib)) + (Encode(r.ending.ciphertext) + "\n");
        assert "" + text4 == text4;
        AllSent(text4, plan2);
        assert (s.wbuffer + text2) + text4 == s.wbuffer + (text2 + text4);
      }
    }
  }

  // The text of the msg2 a session sent.
  ghost function Msg2Of(c: Primitives, cfg: Config, cl: Client, r: Record): string {
    var opening := Opening(c, cl.key, r.first);
    if opening.Pass? && r.fetched.Some? && r.fetched.value.sigrl.Some? then
      Msg2Text(c, cfg, opening.value, r.fetched.value.sigrl.value)
    else ""
  }

  // What is still to reach a client after some sessions: status and PIB of the last one that got as
  // far as msg2, if its client was not trusted.
  function Stale(rs: seq<Record>): bytes {
    if rs == [] then []
    else
      var last := rs[|rs| - 1];
      if last.third.None? then Stale(rs[..|rs| - 1])
      else if last.ending.Untrusted? then Msg4(last.ending.status, last.ending.pib)
      else []
  }

  lemma {:induction false} WbufferAt(c: Primitives, cfg: Config, s: Server, clients: seq<Client>, i: nat)
    requires s.wbuffer == "" && i <= |Run(c, cfg, s, clients)|
    requires forall j :: 0 <= j < |clients| ==> SendFailed !in clients[j].plan
    ensures var rs := Run(c, cfg, s, clients); StateAt(s, rs, i).wbuffer == Encode(Stale(rs[..i]))
    decreases i
  {
    var rs := Run(c, cfg, s, clients);
    hide Run, SessionOf, Stale, Encode;
    if i == 0 {
      NothingStale(rs[..0]);
    } else {
      WbufferAt(c, cfg, s, clients, i - 1);
      RunAt(c, cfg, s, clients, i - 1);
      WbufferStep(c, cfg, StateAt(s, rs, i - 1), clients[i - 1], rs[..i - 1]);
      Pushed(rs, i - 1);
    }
  }

  lemma NothingStale(rs: seq<Record>)
    requires rs == []
    ensures Encode(Stale(rs)) == ""
  {
  }

  lemma Pushed(rs: seq<Record>, i: nat)
    requires i < |rs|
    ensures rs[..i + 1] == rs[..i] + [rs[i]]
  {
  }

  lemma WbufferStep(c: Primitives, cfg: Config, s: Server, cl: Client, before: seq<Record>)
    requires s.wbuffer == Encode(Stale(before)) && SendFailed !in cl.plan
    ensures var r := SessionOf(c, cfg, s, cl); r.after.wbuffer == Encode(Stale(before + [r]))
  {
    hide SessionOf, Msg4, Stale, Encode;
    LeftBehind(c, cfg, s, cl);
    StalePush(before, SessionOf(c, cfg, s, cl));
    EncodeEmpty();
  }

  lemma StalePush(rs: seq<Record>, r: Record)
    ensures Stale(rs + [r]) ==
            if r.third.None? then Stale(rs) else if r.ending.Untrusted? then Msg4(r.ending.status, r.ending.pib) else []
  {
    hide Msg4;
    assert (rs + [r])[..|rs|] == rs;
  }

  lemma NoNewline(bs: bytes)
    ensures '\n' !in Encode(bs)
  {
    EncodeIsHex(bs);
    hide Encode;
    assert forall i :: 0 <= i < |Encode(bs)| ==> IsHex(Encode(bs)[i]);
  }

  // The first line on the wire.
  lemma FirstLine(stale: bytes, fixed: bytes, sigrl: bytes, tail: string)
    ensures var text := Encode(fixed) + (Encode(sigrl) + "\n");
            FirstLineIs(Encode(stale) + (text + tail), stale, fixed + sigrl, tail)
  {
    EncodeConcat(fixed, sigrl);
    EncodeConcat(stale, fixed + sigrl);
    NoNewline(stale + (fixed + sigrl));
    hide Encode;
    Ended(Encode(fixed), Encode(sigrl));
    LineFirst(Encode(stale), Encode(fixed + sigrl), tail);
  }

  lemma Ended(a: string, b: string)
    ensures a + (b + "\n") == (a + b) + "\n"
  {
  }

  lemma LineFirst(stale: string, line: string, tail: string)
    requires '\n' !in stale + line
    ensures var whole := stale + ((line + "\n") + tail);
            whole == (stale + line) + ("\n" + tail) && (line + "\n" <= whole <==> stale == "")
  {
    var whole := stale + ((line + "\n") + tail);
    assert whole == (stale + line) + ("\n" + tail);
    if stale == "" {
      assert whole == (line + "\n") + tail;
    } else {
      assert (line + "\n")[|line|] == '\n' && whole[|line|] == (stale + line)[|line|];
    }
  }

  // A wire starts with a line in hex digits, which is the message alone exactly if nothing is stale.
  ghost predicate FirstLineIs(wire: string, stale: bytes, message: bytes, tail: string) {
    && wire == Encode(stale + message) + ("\n" + tail)
    && (Encode(message) + "\n" <= wire <==> stale == [])
  }

  // The first line that a session's client receives is msg2 with the SigRL that the service supplied,
  // after what was stale.
  ghost predicate ReceivesMsg2(c: Primitives, cfg: Config, key: Option<bytes>, st: Server, stale: bytes, r: Record) {
    exists m1, n, sigrl, m2, tail ::
      && Opened(c, key, r.first, m1) && SuppliedBy(c, st.id, st.answers, n, sigrl)
      && IsMsg2(c, cfg, key.value, m1, sigrl, m2)
      && FirstLineIs(r.wire, stale, m2 + sigrl[..|sigrl| % 0x1_0000_0000], tail)
  }

  // As long as no send fails, the first line a client receives is its own msg2 with the SigRL that the
  // service supplied, exactly if nothing is stale; otherwise the answer to an earlier, untrusted client
  // stands in front of it.
  lemma FirstLineReceived(c: Primitives, cfg: Config, s: Server, clients: seq<Client>, i: nat)
    requires IsConfig(cfg) && s.wbuffer == "" && i < |Run(c, cfg, s, clients)|
    requires Run(c, cfg, s, clients)[i].third.Some?
    requires forall j :: 0 <= j < |clients| ==> SendFailed !in clients[j].plan
    ensures var rs := Run(c, cfg, s, clients);
            ReceivesMsg2(c, cfg, clients[i].key, StateAt(s, rs, i), Stale(rs[..i]), rs[i])
  {
    hide Run, SessionOf, Stale, ReceivesMsg2, Encode;
    RunAt(c, cfg, s, clients, i);
    WbufferAt(c, cfg, s, clients, i);
    var rs := Run(c, cfg, s, clients);
    SessionFirstLine(c, cfg, StateAt(s, rs, i), clients[i], Stale(rs[..i]));
  }

  lemma SessionFirstLine(c: Primitives, cfg: Config, s: Server, cl: Client, stale: bytes)
    requires IsConfig(cfg) && s.wbuffer == Encode(stale) && SendFailed !in cl.plan
    requires SessionOf(c, cfg, s, cl).third.Some?
    ensures ReceivesMsg2(c, cfg, cl.key, s, stale, SessionOf(c, cfg, s, cl))
  {
    var tail := WireStarts(c, cfg, s, cl);
    SessionSupplied(c, cfg, s, cl);
    hide SessionOf, Opening, Msg2Of, Encode, SuppliedBy, ReceivesMsg2;
    var r := SessionOf(c, cfg, s, cl);
    ReceivedLine(c, cfg, cl, s, stale, r, |r.fetched.value.tried| - 1, r.fetched.value.sigrl.value, tail);
  }

  // A session that gets as far as msg2 has been supplied with a SigRL.
  lemma SessionSupplied(c: Primitives, cfg: Config, s: Server, cl: Client)
    requires SessionOf(c, cfg, s, cl).third.Some?
    ensures var r := SessionOf(c, cfg, s, cl);
            && Opening(c, cl.key, r.first).Pass? && r.fetched.Some? && r.fetched.value.sigrl.Some?
            && SuppliedBy(c, s.id, s.answers, |r.fetched.value.tried| - 1, r.fetched.value.sigrl.value)
  {
    SessionSends(c, cfg, s, cl);
    SessionAsks(c, cfg, s, cl);
    hide SessionOf, Opening, Msg2Text, Msg4, SendOutcome, Encode, SuppliedBy, Fetch, Drop;
    FetchExactly(c, s.id, s.answers, Fetch(c, s.id, s.answers).sigrl.value);
  }

  lemma ReceivedLine(c: Primitives, cfg: Config, cl: Client, st: Server, stale: bytes, r: Record, n: nat, sigrl: bytes,
                     tail: string)
    requires IsConfig(cfg) && Opening(c, cl.key, r.first).Pass?
    requires r.fetched.Some? && r.fetched.value.sigrl == Some(sigrl) && SuppliedBy(c, st.id, st.answers, n, sigrl)
    requires r.wire == Encode(stale) + (Msg2Of(c, cfg, cl, r) + tail)
    ensures ReceivesMsg2(c, cfg, cl.key, st, stale, r)
  {
    hide Opening, Encode, SuppliedBy, Opened, Msg2, SentSigrl, IsMsg2, FirstLineIs, ReceivesMsg2, Derived;
    var k := Opening(c, cl.key, r.first).value;
    var m1 := OpeningDerives(c, cl.key, r.first);
    var m2 := Msg2(c, cfg, k, sigrl);
    Msg2Parts(c, cfg, cl.key.value, m1, k, sigrl);
    FirstLine(stale, m2, SentSigrl(sigrl), tail);
    SentExactly(sigrl);
    Msg2Received(c, cfg, cl.key, st, stale, r, m1, n, sigrl, m2, tail);
  }

  // Where no send fails, a client's wire starts with what was held and its msg2.
  lemma WireStarts(c: Primitives, cfg: Config, s: Server, cl: Client) returns (tail: string)
    requires SendFailed !in cl.plan && SessionOf(c, cfg, s, cl).third.Some?
    ensures var r := SessionOf(c, cfg, s, cl); r.wire == s.wbuffer + (Msg2Of(c, cfg, cl, r) + tail)
  {
    Received(c, cfg, s, cl);
    SessionSends(c, cfg, s, cl);
    hide SessionOf, Opening, Msg2Text, Msg4, Encode, SendOutcome;
    var r := SessionOf(c, cfg, s, cl);
    var text := Msg2Of(c, cfg, cl, r);
    tail := Tail(text, if r.ending.Untrusted? then text else r.queued);
  }

  lemma OpeningDerives(c: Primitives, key: Option<bytes>, r: ReadResult) returns (m1: bytes)
    requires Opening(c, key, r).Pass?
    ensures Opened(c, key, r, m1) && |m1| >= 72 && key.Some? && c.sharedSecret(key.value, m1[4..68]).Some?
    ensures var k := Opening(c, key, r).value;
            && k.ga == m1[4..68] && k.gb == c.publicHalf(key.value)
            && k.smk == Derived(c, c.sharedSecret(key.value, m1[4..68]).value, "SMK")
  {
    OpeningPasses(c, key, r);
    OpeningKeys(c, key, r);
    ConstantsExactly();
    hide Opening, Decode, AllHex, IsMessage, Label;
    m1 := Decode(r.text);
    IsMessageExactly(r, m1);
  }

  lemma Msg2Received(c: Primitives, cfg: Config, key: Option<bytes>, st: Server, stale: bytes, r: Record,
                     m1: bytes, n: nat, sigrl: bytes, m2: bytes, tail: string)
    requires Opened(c, key, r.first, m1) && SuppliedBy(c, st.id, st.answers, n, sigrl)
    requires IsMsg2(c, cfg, key.value, m1, sigrl, m2)
    requires FirstLineIs(r.wire, stale, m2 + sigrl[..|sigrl| % 0x1_0000_0000], tail)
    ensures ReceivesMsg2(c, cfg, key, st, stale, r)
  {
    hide SuppliedBy, IsMsg2, FirstLineIs, IsMessage;
  }

  lemma Tail(text: string, all: string) returns (tail: string)
    requires text <= all
    ensures all == text + tail
  {
    tail := all[|text|..];
  }

  // --- the client's side ---------------------------------------------------------------------------------

  // The fixed part of msg2 as a client reads it: Gb, the service's id, the quote type, key derivation 1,
  // the service's signature over Gb || Ga, the MAC of all that under the shared SMK, and the size of the
  // list that follows.
  ghost predicate IsMsg2(c: Primitives, cfg: Config, key: bytes, m1: bytes, sigrl: bytes, m: bytes)
    requires |m1| >= 72 && c.sharedSecret(key, m1[4..68]).Some?
  {
    && |m| == 168 && m[..64] == c.publicHalf(key) && m[64..80] == cfg.spid
    && m[80] as int + 256 * (m[81] as int) == cfg.quoteType && m[82] == 1 && m[83] == 0
    && (Reversed(m[84..116]), Reversed(m[116..148])) == c.sign(c.publicHalf(key) + m1[4..68])
    && m[148..164] == c.cmac(Derived(c, c.sharedSecret(key, m1[4..68]).value, "SMK"), m[..148])
    && m[164] as int + 256 * (m[165] as int) + 0x1_0000 * (m[166] as int + 256 * (m[167] as int))
       == |sigrl| % 0x1_0000_0000
  }

  lemma SentExactly(sigrl: bytes)
    ensures SentSigrl(sigrl) == sigrl[..|sigrl| % 0x1_0000_0000]
    ensures |sigrl| < 0x1_0000_0000 ==> SentSigrl(sigrl) == sigrl
  {
  }

  lemma FourBytes(b: bytes)
    requires |b| == 4
    ensures Unsigned(b) == b[0] as int + 256 * (b[1] as int) + 0x1_0000 * (b[2] as int + 256 * (b[3] as int))
  {
    TwoBytes(b[2..]);
    assert Unsigned(b) == b[0] as int + 256 * Unsigned(b[1..]);
    assert Unsigned(b[1..]) == b[1] as int + 256 * Unsigned(b[1..][1..]) && b[1..][1..] == b[2..];
  }

  // What the server sends is that, for a session with the key and with the messages read.
  lemma Msg2Parts(c: Primitives, cfg: Config, key: bytes, m1: bytes, k: Keys, sigrl: bytes)
    requires IsConfig(cfg) && |m1| >= 72 && c.sharedSecret(key, m1[4..68]).Some?
    requires k.ga == m1[4..68] && k.gb == c.publicHalf(key)
             && k.smk == Derived(c, c.sharedSecret(key, m1[4..68]).value, "SMK")
    ensures IsMsg2(c, cfg, key, m1, sigrl, Msg2(c, cfg, k, sigrl))
  {
    var m, a, n := Msg2(c, cfg, k, sigrl), PartA(c, cfg, k), |SentSigrl(sigrl)|;
    var mac, size := c.cmac(k.smk, a), LittleEndian(n, 4);
    assert m[..148] == a && m[148..164] == mac && m[164..168] == size by {
      assert m == a + (mac + size);
    }
    UnsignedOfLittleEndian(n, 4);
    UnsignedOfLittleEndian(cfg.quoteType, 2);
    UnsignedOfLittleEndian(1, 2);
    PartAParts(c, cfg, k);
    hide PartA, Reversed, LittleEndian, Unsigned, Power, Msg2, Derived;
    assert m[..64] == m[..148][..64] && m[64..80] == m[..148][64..80] && m[80..82] == m[..148][80..82]
      && m[82..84] == m[..148][82..84] && m[84..116] == m[..148][84..116] && m[116..148] == m[..148][116..148];
    FourBytes(m[164..168]);
    TwoBytes(m[80..82]);
    TwoBytes(m[82..84]);
  }

  lemma ReversedTwice(b: bytes)
    ensures Reversed(Reversed(b)) == b
  {
  }

  lemma PartAParts(c: Primitives, cfg: Config, k: Keys)
    ensures var a := PartA(c, cfg, k);
            && a[..64] == k.gb && a[64..80] == cfg.spid
            && a[80..82] == LittleEndian(cfg.quoteType, 2) && a[82..84] == LittleEndian(1, 2)
            && (Reversed(a[84..116]), Reversed(a[116..148])) == c.sign(k.gb + k.ga)
  {
    hide LittleEndian;
    var (r, s) := c.sign(k.gb + k.ga);
    var x, y := Reversed(r), Reversed(s);
    ReversedTwice(r);
    ReversedTwice(s);
    hide Reversed;
    var a := PartA(c, cfg, k);
    var rest1 := cfg.spid + (LittleEndian(cfg.quoteType, 2) + (LittleEndian(1, 2) + (x + y)));
    assert a[..64] == k.gb && a[64..] == rest1;
    var rest2 := LittleEndian(cfg.quoteType, 2) + (LittleEndian(1, 2) + (x + y));
    assert rest1[..16] == cfg.spid && rest1[16..] == rest2;
    assert rest2[..2] == LittleEndian(cfg.quoteType, 2) && rest2[2..] == LittleEndian(1, 2) + (x + y);
    assert a[80..] == rest2 && a[82..] == LittleEndian(1, 2) + (x + y) && a[84..] == x + y;
    assert a[64..80] == rest1[..16] && a[80..82] == rest2[..2] && a[84..116] == x && a[116..148] == y;
  }

  // What an honest client sends as msg3: its quote is accepted as it is.
  lemma HonestMsg3(c: Primitives, k: Keys, ps: bytes, quote: bytes)
    requires |ps| == 256 && |quote| >= 8 && quote[4..8] == k.gid
    ensures var body := k.ga + (ps + quote);
            Quote(c, k, Frame(Encode(c.cmac(k.smk, body) + body))) == Pass(quote)
  {
    var body := k.ga + (ps + quote);
    var m := c.cmac(k.smk, body) + body;
    DecodeEncode(m);
    hide Encode, Decode, AllHex;
    assert m[..16] == c.cmac(k.smk, body) && m[16..] == body && m[16..80] == k.ga && m[336..] == quote;
    assert m[340..344] == quote[4..8];
  }

  // What a client reads in msg4: the status as a number from 0 to 3 in four bytes, least significant
  // first, and the PIB. It is trusted exactly if the number is at least 2.
  lemma Msg4Parts(status: TrustStatus, pib: bytes)
    ensures var m := Msg4(status, pib);
            && |m| == 4 + |pib| && m[4..] == pib && m[1..4] == [0, 0, 0]
            && (m[0] == 0 <==> status == NotTrusted) && (m[0] == 1 <==> status == NotTrustedItsComplicated)
            && (m[0] == 2 <==> status == TrustedItsComplicated) && (m[0] == 3 <==> status == Trusted)
            && (m[0] >= 2 <==> IsTrusted(status))
  {
    var m, word := Msg4(status, pib), LittleEndian(StatusCode(status), 4);
    assert m[..4] == word && m[4..] == pib;
    UnsignedOfLittleEndian(StatusCode(status), 4);
    FourBytes(word);
    hide LittleEndian, Unsigned;
    assert m[1..4] == word[1..4];
  }

  // Where no send fails, a trusted client is sent what was left over with its msg2, and then on a line
  // of its own status, PIB and ciphertext.
  lemma TrustedClientReceives(c: Primitives, cfg: Config, s: Server, cl: Client)
    requires SendFailed !in cl.plan && SessionOf(c, cfg, s, cl).ending.Released?
    ensures var r := SessionOf(c, cfg, s, cl);
            && r.wire == (s.wbuffer + Msg2Of(c, cfg, cl, r))
                         + (Encode(Msg4(r.ending.status, r.ending.pib) + r.ending.ciphertext) + "\n")
            && r.after.wbuffer == ""
  {
    hide SessionOf, Opening, Msg2Text, Msg4, Encode, SendOutcome;
    SessionSends(c, cfg, s, cl);
    LeftBehind(c, cfg, s, cl);
    Received(c, cfg, s, cl);
    var r := SessionOf(c, cfg, s, cl);
    var m4, ct := Msg4(r.ending.status, r.ending.pib), r.ending.ciphertext;
    EncodeConcat(m4, ct);
    var text2, a, b := Msg2Of(c, cfg, cl, r), Encode(m4), Encode(ct);
    Regroup(s.wbuffer, text2, a, b, r.queued);
  }

  lemma Regroup(before: string, text2: string, a: string, b: string, queued: string)
    requires queued == text2 + (a + (b + "\n"))
    ensures before + queued == (before + text2) + ((a + b) + "\n")
  {
  }
}
