/**
 How a session ends, for every message, transport and answer: which clients are told that they are not
 trusted, with what status, and which sessions end the server.
 */
module SessionEnds {
  import opened CText
  import opened Attestation
  import opened Crypto
  import opened HexUtil
  import opened Ias
  import opened Json
  import opened JsonParser
  import opened JsonTheorems
  import opened MsgIO
  import opened Session
  import opened SessionTheorems

  // --- msg0 || msg1 ------------------------------------------------------------------------------------

  // What was read is no message, or one that ends before the server has what it looks at next.
  ghost predicate CutShort1(r: ReadResult) {
    && (r.EmptyLine? || r.Frame?)
    && forall m :: IsMessage(r, m) ==> |m| < 4 || (|m| < 72 && m[..4] == [0, 0, 0, 0])
  }

  lemma OneMessage(r: ReadResult)
    requires IsBytes(r)
    ensures forall m :: IsMessage(r, m) <==> m == Decode(r.text)
  {
    hide IsMessage;
    forall m ensures IsMessage(r, m) <==> m == Decode(r.text) {
      IsMessageExactly(r, m);
    }
  }

  lemma NoMessage(r: ReadResult)
    requires !IsBytes(r)
    ensures forall m :: !IsMessage(r, m)
  {
    hide IsMessage;
    forall m ensures !IsMessage(r, m) {
      IsMessageExactly(r, m);
    }
  }

  lemma OpeningExactly(c: Primitives, key: Option<bytes>, r: ReadResult)
    ensures Opening(c, key, r).Pass? <==> exists m1 :: Opened(c, key, r, m1)
    ensures Opening(c, key, r).Abort? <==> CutShort1(r)
  {
    hide Decode, AllHex, IsMessage, Kdk;
    OpeningPasses(c, key, r);
    if IsBytes(r) {
      OneMessage(r);
      assert IsMessage(r, Decode(r.text));
      assert Opening(c, key, r).Pass? ==> Opened(c, key, r, Decode(r.text));
    } else {
      NoMessage(r);
    }
  }

  // --- msg3 --------------------------------------------------------------------------------------------

  ghost predicate CutShort3(c: Primitives, ga: Point, smk: Block, r: ReadResult) {
    && (r.EmptyLine? || r.Frame?)
    && forall m :: IsMessage(r, m) ==>
         || |m| < 80
         || (m[16..80] == ga && (|m| < 336 || (|m| < 344 && m[..16] == c.cmac(smk, m[16..]))))
  }

  // msg3 up to the group id in its quote.
  ghost predicate Sound3(c: Primitives, ga: Point, smk: Block, gid: bytes, r: ReadResult, m3: bytes) {
    && IsMessage(r, m3) && |m3| >= 344
    && m3[16..80] == ga && m3[..16] == c.cmac(smk, m3[16..]) && m3[340..344] == gid
  }

  lemma QuoteExactly(c: Primitives, k: Keys, r: ReadResult)
    ensures Quote(c, k, r).Pass? <==> exists m3 :: Sound3(c, k.ga, k.smk, k.gid, r, m3)
    ensures forall m3 :: Sound3(c, k.ga, k.smk, k.gid, r, m3) ==> Quote(c, k, r) == Pass(m3[336..])
    ensures Quote(c, k, r).Abort? <==> CutShort3(c, k.ga, k.smk, r)
  {
    hide Decode, AllHex, IsMessage;
    QuotePasses(c, k, r);
    if IsBytes(r) {
      OneMessage(r);
      assert IsMessage(r, Decode(r.text));
      assert Quote(c, k, r).Pass? ==> Sound3(c, k.ga, k.smk, k.gid, r, Decode(r.text));
    } else {
      NoMessage(r);
    }
  }

  // --- the report --------------------------------------------------------------------------------------

  ghost predicate VersionIs(report: Json, version: nat) {
    exists n :: Holds(report, "version", Integral(n)) && n % 0x1_0000_0000 == version
  }

  ghost predicate QuoteStatusIs(report: Json, text: string) {
    Holds(report, "isvEnclaveQuoteStatus", Str(text))
  }

  // A genuine report in JSON of the version asked for.
  ghost predicate Usable(c: Primitives, cfg: Config, a: Answer) {
    Genuine(c, a) && Loaded(a.content).Ok? && VersionIs(Loaded(a.content).value, cfg.apiver)
  }

  // The status that the report on a recognised enclave stands for.
  ghost function StatusFor(report: Json, strict: bool): TrustStatus {
    if QuoteStatusIs(report, "OK") then Trusted
    else if QuoteStatusIs(report, "SW_HARDENING_NEEDED")
      || QuoteStatusIs(report, "CONFIGURATION_AND_SW_HARDENING_NEEDED")
    then if strict then NotTrustedItsComplicated else TrustedItsComplicated
    else if QuoteStatusIs(report, "GROUP_OUT_OF_DATE") then NotTrustedItsComplicated
    else NotTrusted
  }

  lemma QuoteStatusText(report: Json, text: string)
    requires WellFormed(report) && text != "" && forall i :: 0 <= i < |text| ==> 'A' <= text[i] <= 'Z' || text[i] == '_'
    ensures QuoteStatusIs(report, text) <==> ToText(Get(report, "isvEnclaveQuoteStatus")) == text
  {
    var t := Get(report, "isvEnclaveQuoteStatus");
    LookupExactly(report, "isvEnclaveQuoteStatus", Str(text));
    LookupExactly(report, "isvEnclaveQuoteStatus", t);
    ConversionsExactly(t);
    WellFormedSorted(report);
    hide Holds, HasKey, Get, ToText, Escape, WellFormed;
    if t.Str? {
      EscapesTo(t.text, text);
      assert t == Str(t.text);
    }
  }

  lemma StatusForExactly(report: Json, strict: bool)
    requires WellFormed(report)
    ensures TrustOf(ToText(Get(report, "isvEnclaveQuoteStatus")), strict) == StatusFor(report, strict)
  {
    hide Get, ToText, WellFormed, QuoteStatusIs;
    QuoteStatusText(report, "OK");
    QuoteStatusText(report, "SW_HARDENING_NEEDED");
    QuoteStatusText(report, "CONFIGURATION_AND_SW_HARDENING_NEEDED");
    QuoteStatusText(report, "GROUP_OUT_OF_DATE");
  }

  // What comes of an answer: it is rejected; or the server ends; or there are a status and a PIB.
  lemma VerdictCases(c: Primitives, cfg: Config, a: Answer)
    requires IsConfig(cfg)
    ensures var v := VerdictOf(c, a, cfg.apiver, cfg.strictTrust);
            && (v.Rejected? <==>
                  !Genuine(c, a) || (Loaded(a.content).Ok? && !VersionIs(Loaded(a.content).value, cfg.apiver)))
            && (v.Attested? <==> Usable(c, cfg, a) && PibOf(Get(Loaded(a.content).value, "platformInfoBlob")).Some?)
            && (v.Attested? ==>
                  && v.status == StatusFor(Loaded(a.content).value, cfg.strictTrust)
                  && PibOf(Get(Loaded(a.content).value, "platformInfoBlob")) == Some(v.pib))
  {
    hide Genuine, ReportStatus, Loaded, Get, HasKey, Holds, PibOf, TrustOf, StatusFor, ToText, VersionAccepted;
    ReportStatusExactly(c, a);
    if a.Reply? && Loaded(a.content).Ok? {
      var report := Loaded(a.content).value;
      LoadedWellFormed(a.content);
      VersionRead(report, cfg.apiver);
      StatusForExactly(report, cfg.strictTrust);
    }
  }

  // --- the enclave -------------------------------------------------------------------------------------

  // The enclave that a quote names: its signer, product, version and debug flag.
  ghost predicate AsConfigured(cfg: Config, quote: bytes)
    requires |quote| >= 432
  {
    && quote[176..208] == cfg.mrsigner
    && quote[304] as int + 256 * (quote[305] as int) == cfg.prodId
    && quote[306] as int + 256 * (quote[307] as int) >= cfg.minSvn
    && (cfg.allowDebug || quote[96] / 2 % 2 == 0)
  }

  // The report data of a quote binds Ga, Gb and the VK of the session.
  ghost predicate Binds(c: Primitives, ga: Point, gb: Point, secret: bytes, quote: bytes) {
    |quote| >= 432 && quote[368..400] == c.sha256(ga + gb + Derived(c, secret, "VK")) && quote[400..432] == Zeros(32)
  }

  // The report shows something that the server cannot go on with: no JSON, no PIB to be read from it, or
  // a quote that is too short.
  ghost predicate CutShortReport(c: Primitives, cfg: Config, a: Answer, quote: bytes) {
    && Genuine(c, a)
    && (!Loaded(a.content).Ok?
        || (Usable(c, cfg, a) && (PibOf(Get(Loaded(a.content).value, "platformInfoBlob")).None? || |quote| < 432)))
  }

  lemma ConclusionCases(c: Primitives, cfg: Config, k: Keys, secret: bytes, quote: bytes, a: Answer)
    requires IsConfig(cfg) && k.kdk == c.cmac(Zeros(16), Reversed(secret))
    ensures var s := Conclusion(c, cfg, k, quote, VerdictOf(c, a, cfg.apiver, cfg.strictTrust));
            && (s.Abort? <==> CutShortReport(c, cfg, a, quote))
            && (s.Pass? <==>
                  && Usable(c, cfg, a) && PibOf(Get(Loaded(a.content).value, "platformInfoBlob")).Some?
                  && Binds(c, k.ga, k.gb, secret, quote))
            && (s.Pass? ==>
                  && s.value.0 == (if AsConfigured(cfg, quote) then StatusFor(Loaded(a.content).value, cfg.strictTrust)
                                   else NotTrusted)
                  && PibOf(Get(Loaded(a.content).value, "platformInfoBlob")) == Some(s.value.1))
  {
    VerdictCases(c, cfg, a);
    ConstantsExactly();
    hide VerdictOf, Recognised, Bound, Usable, Genuine, Loaded, PibOf, Get, StatusFor, Label;
    if |quote| >= 432 {
      RecognisedExactly(cfg, quote);
      BoundParts(c, k, quote);
    }
  }

  // --- one session -------------------------------------------------------------------------------------

  function SmkOf(c: Primitives, key: Option<bytes>, m1: bytes): Block
    requires key.Some? && |m1| >= 68 && c.sharedSecret(key.value, m1[4..68]).Some?
  {
    Derived(c, c.sharedSecret(key.value, m1[4..68]).value, "SMK")
  }

  // The session is about the quote in m3, and the report on it can be used.
  ghost predicate Concluded(c: Primitives, cfg: Config, key: Option<bytes>, r: Record, m1: bytes, m3: bytes) {
    && Opened(c, key, r.first, m1)
    && r.third.Some? && Sound3(c, m1[4..68], SmkOf(c, key, m1), m1[68..72], r.third.value, m3)
    && r.report.Some? && Usable(c, cfg, r.report.value)
    && PibOf(Get(Loaded(r.report.value.content).value, "platformInfoBlob")).Some?
    && Binds(c, m1[4..68], c.publicHalf(key.value), c.sharedSecret(key.value, m1[4..68]).value, m3[336..])
  }

  // The status that goes into msg4.
  ghost function StatusGiven(cfg: Config, report: Json, quote: bytes): TrustStatus
    requires |quote| >= 432
  {
    if AsConfigured(cfg, quote) then StatusFor(report, cfg.strictTrust) else NotTrusted
  }

  // msg3, or the report on its quote, is one at which the server ends.
  ghost predicate CutShortLater(c: Primitives, cfg: Config, key: Option<bytes>, r: Record, m1: bytes) {
    && Opened(c, key, r.first, m1) && r.third.Some?
    && (CutShort3(c, m1[4..68], SmkOf(c, key, m1), r.third.value)
        || exists m3 ::
             && Sound3(c, m1[4..68], SmkOf(c, key, m1), m1[68..72], r.third.value, m3)
             && r.report.Some? && CutShortReport(c, cfg, r.report.value, m3[336..]))
  }

  // A session by its stages.
  lemma EndingByStages(c: Primitives, cfg: Config, s: Server, cl: Client)
    ensures var r := SessionOf(c, cfg, s, cl);
            var opening := Opening(c, cl.key, r.first);
            if !opening.Pass? then
              && r.ending == (if opening.Abort? then Aborted else GivenUp)
              && r.fetched.None? && r.third.None? && r.report.None?
            else
              && r.fetched.Some?
              && if r.fetched.value.sigrl.None? then r.ending == GivenUp && r.third.None? && r.report.None?
              else
                && r.third.Some?
                && var quote := Quote(c, opening.value, r.third.value);
                if !quote.Pass? then r.ending == (if quote.Abort? then Aborted else GivenUp) && r.report.None?
                else
                  && r.report.Some?
                  && var end := Conclusion(c, cfg, opening.value, quote.value,
                                           VerdictOf(c, r.report.value, cfg.apiver, cfg.strictTrust));
                  r.ending ==
                    if !end.Pass? then if end.Abort? then Aborted else GivenUp
                    else if IsTrusted(end.value.0) then
                      Released(end.value.0, end.value.1, Ciphertext(c, opening.value))
                    else Untrusted(end.value.0, end.value.1)
  {
    hide ReadOutcome, Opening, Quote, Conclusion, VerdictOf, Fetch, SendOutcome, Msg2Text, Msg4, Encode, Drop,
      IsTrusted, Ciphertext, SigrlQueries, ReportQuery;
  }

  // What opening a session keeps.
  lemma OpenedKeys(c: Primitives, key: Option<bytes>, r: ReadResult, m1: bytes)
    requires Opened(c, key, r, m1)
    ensures Opening(c, key, r).Pass?
    ensures var k := Opening(c, key, r).value;
            && k.ga == m1[4..68] && k.gb == c.publicHalf(key.value) && k.gid == m1[68..72]
            && k.smk == SmkOf(c, key, m1)
            && k.kdk == c.cmac(Zeros(16), Reversed(c.sharedSecret(key.value, m1[4..68]).value))
  {
    IsMessageExactly(r, m1);
    OpeningPasses(c, key, r);
    OpeningKeys(c, key, r);
    ConstantsExactly();
    hide Opening, Decode, AllHex, IsMessage, Label;
  }

  // How far a session gets: there is a request for the SigRL exactly if msg1 opens the session, and msg2
  // exactly if then there is a SigRL.
  lemma SessionReaches(c: Primitives, cfg: Config, s: Server, cl: Client)
    ensures var r := SessionOf(c, cfg, s, cl);
            && (r.fetched.Some? <==> exists m1 :: Opened(c, cl.key, r.first, m1))
            && (r.third.Some? <==> r.fetched.Some? && r.fetched.value.sigrl.Some?)
  {
    hide SessionOf, Opening, Opened;
    EndingByStages(c, cfg, s, cl);
    OpeningExactly(c, cl.key, SessionOf(c, cfg, s, cl).first);
  }

  // The server ends in a session exactly if msg1, msg3 or the report is cut short.
  lemma AbortedExactly(c: Primitives, cfg: Config, s: Server, cl: Client)
    requires IsConfig(cfg)
    ensures var r := SessionOf(c, cfg, s, cl);
            r.ending.Aborted? <==> CutShort1(r.first) || exists m1 :: CutShortLater(c, cfg, cl.key, r, m1)
  {
    var r := SessionOf(c, cfg, s, cl);
    EndingByStages(c, cfg, s, cl);
    OpeningExactly(c, cl.key, r.first);
    hide SessionOf, Opening, Opened, Quote, Conclusion, VerdictOf, Sound3, CutShort1, CutShort3, CutShortReport, SmkOf;
    if m1 :| Opened(c, cl.key, r.first, m1) {
      AbortedLater(c, cfg, s, cl, m1);
      forall m | Opened(c, cl.key, r.first, m) ensures m == m1 {
        OneOpening(c, cl.key, r.first, m, m1);
      }
    }
  }

  lemma OneOpening(c: Primitives, key: Option<bytes>, r: ReadResult, m: bytes, m': bytes)
    requires Opened(c, key, r, m) && Opened(c, key, r, m')
    ensures m == m'
  {
    IsMessageExactly(r, m);
    IsMessageExactly(r, m');
    hide IsMessage, Decode, AllHex;
  }

  lemma AbortedLater(c: Primitives, cfg: Config, s: Server, cl: Client, m1: bytes)
    requires IsConfig(cfg) && Opened(c, cl.key, SessionOf(c, cfg, s, cl).first, m1)
    ensures var r := SessionOf(c, cfg, s, cl); r.ending.Aborted? <==> CutShortLater(c, cfg, cl.key, r, m1)
  {
    var r := SessionOf(c, cfg, s, cl);
    EndingByStages(c, cfg, s, cl);
    OpenedKeys(c, cl.key, r.first, m1);
    var k := Opening(c, cl.key, r.first).value;
    hide SessionOf, Opening, Quote, Conclusion, VerdictOf, Sound3, CutShort3, CutShortReport, SmkOf, IsMessage, Usable,
      Binds, Loaded, PibOf, Get, AsConfigured, StatusFor, IsTrusted;
    if r.third.Some? {
      QuoteExactly(c, k, r.third.value);
      if m3 :| Sound3(c, k.ga, k.smk, k.gid, r.third.value, m3) {
        SoundIsLong(c, k, r.third.value, m3);
        ConclusionCases(c, cfg, k, c.sharedSecret(cl.key.value, m1[4..68]).value, m3[336..], r.report.value);
        forall m | Sound3(c, k.ga, k.smk, k.gid, r.third.value, m) ensures m == m3 {
          OneThird(c, k, r.third.value, m, m3);
        }
      }
    }
  }

  lemma SoundIsLong(c: Primitives, k: Keys, r: ReadResult, m: bytes)
    requires Sound3(c, k.ga, k.smk, k.gid, r, m)
    ensures |m| >= 344
  {
  }

  lemma OneThird(c: Primitives, k: Keys, r: ReadResult, m: bytes, m': bytes)
    requires Sound3(c, k.ga, k.smk, k.gid, r, m) && Sound3(c, k.ga, k.smk, k.gid, r, m')
    ensures m == m'
  {
    IsMessageExactly(r, m);
    IsMessageExactly(r, m');
    hide IsMessage, Decode, AllHex;
  }

  // A client is told a status exactly if the session comes to a conclusion; then the status is the one
  // for the report on its quote, and the PIB is the report's.
  lemma ToldExactly(c: Primitives, cfg: Config, s: Server, cl: Client)
    requires IsConfig(cfg)
    ensures var r := SessionOf(c, cfg, s, cl);
            r.ending.Untrusted? || r.ending.Released? <==> exists m1, m3 :: Concluded(c, cfg, cl.key, r, m1, m3)
    ensures var r := SessionOf(c, cfg, s, cl);
            forall m1, m3 :: Concluded(c, cfg, cl.key, r, m1, m3) ==> IsTold(cfg, r, m3)
  {
    var r := SessionOf(c, cfg, s, cl);
    hide SessionOf, Concluded, IsTold;
    if r.ending.Untrusted? || r.ending.Released? {
      var m1, m3 := ToldMessages(c, cfg, s, cl);
    }
    forall m1, m3 | Concluded(c, cfg, cl.key, r, m1, m3)
      ensures IsTold(cfg, r, m3) && (r.ending.Untrusted? || r.ending.Released?)
    {
      ConcludedTold(c, cfg, s, cl, m1, m3);
    }
  }

  ghost predicate IsTold(cfg: Config, r: Record, m3: bytes) {
    && |m3| >= 336 + 432 && r.report.Some? && r.report.value.Reply? && Loaded(r.report.value.content).Ok?
    && (r.ending.Untrusted? || r.ending.Released?)
    && var report := Loaded(r.report.value.content).value;
    && r.ending.status == StatusGiven(cfg, report, m3[336..])
    && PibOf(Get(report, "platformInfoBlob")) == Some(r.ending.pib)
    && (r.ending.Released? <==> r.ending.status == Trusted || r.ending.status == TrustedItsComplicated)
  }

  // Of a concluded session, its stages up to the report.
  lemma StagesConcluded(c: Primitives, cfg: Config, s: Server, cl: Client, m1: bytes, m3: bytes)
    requires Concluded(c, cfg, cl.key, SessionOf(c, cfg, s, cl), m1, m3)
    ensures var r := SessionOf(c, cfg, s, cl);
            && Opening(c, cl.key, r.first).Pass? && |m3| >= 344 && r.report.Some?
            && var end := Conclusion(c, cfg, Opening(c, cl.key, r.first).value, m3[336..],
                                     VerdictOf(c, r.report.value, cfg.apiver, cfg.strictTrust));
            r.ending ==
              if !end.Pass? then if end.Abort? then Aborted else GivenUp
              else if IsTrusted(end.value.0) then
                Released(end.value.0, end.value.1, Ciphertext(c, Opening(c, cl.key, r.first).value))
              else Untrusted(end.value.0, end.value.1)
  {
    var r := SessionOf(c, cfg, s, cl);
    EndingByStages(c, cfg, s, cl);
    OpenedKeys(c, cl.key, r.first, m1);
    var k := Opening(c, cl.key, r.first).value;
    hide SessionOf, Opening, Opened, Quote, Conclusion, VerdictOf, SmkOf, Sound3, Usable, Binds,
      Loaded, PibOf, Get, Ciphertext, IsTrusted;
    QuoteExactly(c, k, r.third.value);
    SoundIsLong(c, k, r.third.value, m3);
  }

  lemma ConcludedTold(c: Primitives, cfg: Config, s: Server, cl: Client, m1: bytes, m3: bytes)
    requires IsConfig(cfg) && Concluded(c, cfg, cl.key, SessionOf(c, cfg, s, cl), m1, m3)
    ensures var r := SessionOf(c, cfg, s, cl); IsTold(cfg, r, m3) && (r.ending.Untrusted? || r.ending.Released?)
  {
    var r := SessionOf(c, cfg, s, cl);
    StagesConcluded(c, cfg, s, cl, m1, m3);
    OpenedKeys(c, cl.key, r.first, m1);
    var k := Opening(c, cl.key, r.first).value;
    hide SessionOf, Opening, Opened, Quote, Conclusion, VerdictOf, SmkOf, Sound3, Usable, Binds,
      Loaded, PibOf, Get, AsConfigured, StatusFor, Ciphertext;
    OpenedIsLong(c, cl.key, r.first, m1);
    var secret := c.sharedSecret(cl.key.value, m1[4..68]).value;
    UsableParts(c, cfg, r.report.value, k, secret, m3[336..]);
    ConclusionCases(c, cfg, k, secret, m3[336..], r.report.value);
    hide IsTold, StatusGiven, IsTrusted;
    TellsIt(cfg, r, m3);
  }

  lemma TellsIt(cfg: Config, r: Record, m3: bytes)
    requires |m3| >= 336 + 432 && r.report.Some? && r.report.value.Reply? && Loaded(r.report.value.content).Ok?
    requires r.ending.Released? || r.ending.Untrusted?
    requires r.ending.Released? <==> IsTrusted(r.ending.status)
    requires var report := Loaded(r.report.value.content).value;
             && r.ending.status ==
                (if AsConfigured(cfg, m3[336..]) then StatusFor(report, cfg.strictTrust) else NotTrusted)
             && PibOf(Get(report, "platformInfoBlob")) == Some(r.ending.pib)
    ensures IsTold(cfg, r, m3)
  {
    hide AsConfigured, StatusFor, PibOf, Get, Loaded;
  }

  lemma UsableParts(c: Primitives, cfg: Config, a: Answer, k: Keys, secret: bytes, quote: bytes)
    ensures Usable(c, cfg, a) ==> a.Reply? && Loaded(a.content).Ok?
    ensures Binds(c, k.ga, k.gb, secret, quote) ==> |quote| >= 432
  {
  }

  lemma ToldMessages(c: Primitives, cfg: Config, s: Server, cl: Client) returns (m1: bytes, m3: bytes)
    requires IsConfig(cfg)
    requires SessionOf(c, cfg, s, cl).ending.Untrusted? || SessionOf(c, cfg, s, cl).ending.Released?
    ensures Concluded(c, cfg, cl.key, SessionOf(c, cfg, s, cl), m1, m3)
  {
    var r := SessionOf(c, cfg, s, cl);
    EndingByStages(c, cfg, s, cl);
    OpeningExactly(c, cl.key, r.first);
    hide SessionOf, Opening, Quote, Conclusion, VerdictOf, SmkOf, IsMessage, Usable, Binds, Opened, Sound3,
      Loaded, PibOf, Get, AsConfigured, StatusFor, Ciphertext, IsTrusted;
    m1 :| Opened(c, cl.key, r.first, m1);
    OpenedKeys(c, cl.key, r.first, m1);
    var k := Opening(c, cl.key, r.first).value;
    QuoteExactly(c, k, r.third.value);
    m3 :| Sound3(c, k.ga, k.smk, k.gid, r.third.value, m3);
    SoundIsLong(c, k, r.third.value, m3);
    OpenedIsLong(c, cl.key, r.first, m1);
    ConclusionCases(c, cfg, k, c.sharedSecret(cl.key.value, m1[4..68]).value, m3[336..], r.report.value);
  }

  lemma OpenedIsLong(c: Primitives, key: Option<bytes>, r: ReadResult, m1: bytes)
    requires Opened(c, key, r, m1)
    ensures |m1| >= 72 && key.Some? && c.sharedSecret(key.value, m1[4..68]).Some?
  {
  }

  // The requests for the SigRL of the group that msg1 names, its id as a hexadecimal number: one under
  // each key tried.
  ghost function SigrlRequests(cfg: Config, tried: seq<KeyID>, m1: bytes): seq<Query>
    requires |m1| >= 72
  {
    seq(|tried|, i requires 0 <= i < |tried| =>
      Query(tried[i], (if cfg.apiver == 3 then "3" else "4") + ("/sigrl/" + Encode([m1[71], m1[70], m1[69], m1[68]])),
            ""))
  }

  // What a session asks the service for.
  ghost predicate Asks(c: Primitives, cfg: Config, key: Option<bytes>, r: Record, m1: bytes)
    requires key.Some? && |m1| >= 72 && c.sharedSecret(key.value, m1[4..68]).Some?
  {
    && r.fetched.Some?
    && var sigrls := SigrlRequests(cfg, r.fetched.value.tried, m1);
    if r.report.None? then r.queries == sigrls
    else
      exists m3 ::
        && r.third.Some? && Sound3(c, m1[4..68], SmkOf(c, key, m1), m1[68..72], r.third.value, m3)
        && r.queries == sigrls + [ReportRequest(c, cfg, r.after.id, m3[336..])]
  }

  lemma RequestsExactly(c: Primitives, cfg: Config, s: Server, cl: Client, m1: bytes)
    requires IsConfig(cfg) && Opened(c, cl.key, SessionOf(c, cfg, s, cl).first, m1)
    ensures Asks(c, cfg, cl.key, SessionOf(c, cfg, s, cl), m1)
  {
    var r := SessionOf(c, cfg, s, cl);
    SessionAsks(c, cfg, s, cl);
    EndingByStages(c, cfg, s, cl);
    OpenedKeys(c, cl.key, r.first, m1);
    OpenedIsLong(c, cl.key, r.first, m1);
    var k := Opening(c, cl.key, r.first).value;
    hide SessionOf, Opening, Opened, Quote, Conclusion, VerdictOf, Fetch, SigrlQueries, ReportQuery, Ciphertext, Drop,
      IsTrusted, Sound3, SmkOf, SigrlRequests;
    SigrlQueriesExactly(r.fetched.value.tried, cfg, m1);
    if r.report.Some? {
      QuoteExactly(c, k, r.third.value);
      var m3 :| Sound3(c, k.ga, k.smk, k.gid, r.third.value, m3);
      SoundIsLong(c, k, r.third.value, m3);
      ReportQueryExactly(r.after.id, c, cfg, m3[336..]);
    }
  }

  lemma SigrlQueriesExactly(tried: seq<KeyID>, cfg: Config, m1: bytes)
    requires IsConfig(cfg) && |m1| >= 72
    ensures SigrlQueries(tried, cfg, m1[68..72]) == SigrlRequests(cfg, tried, m1)
  {
    hide Encode, SigrlPath, Unsigned;
    SigrlPathExactly(cfg.apiver, m1[68..72]);
  }

  // --- whole runs --------------------------------------------------------------------------------------

  // In every run, over any messages, transports and answers: which clients are told a status, and which;
  // and the server is still there for every client that comes after, unless a session was cut short.
  lemma WholeRunEndings(c: Primitives, cfg: Config, s: Server, clients: seq<Client>)
    requires IsConfig(cfg)
    ensures var rs := Run(c, cfg, s, clients);
            forall i :: 0 <= i < |rs| ==>
              && (rs[i].ending.Untrusted? || rs[i].ending.Released? <==>
                    exists m1, m3 :: Concluded(c, cfg, clients[i].key, rs[i], m1, m3))
              && (forall m1, m3 :: Concluded(c, cfg, clients[i].key, rs[i], m1, m3) ==> IsTold(cfg, rs[i], m3))
              && (rs[i].ending.Aborted? <==>
                    CutShort1(rs[i].first) || exists m1 :: CutShortLater(c, cfg, clients[i].key, rs[i], m1))
    ensures var rs := Run(c, cfg, s, clients);
            && (forall i :: 0 <= i < |rs| && rs[i].ending.Aborted? ==> i == |rs| - 1)
            && (|rs| < |clients| ==> rs != [] && rs[|rs| - 1].ending.Aborted?)
  {
    var rs := Run(c, cfg, s, clients);
    hide Run, SessionOf, Concluded, IsTold, CutShort1, CutShortLater;
    forall i | 0 <= i < |rs|
      ensures rs[i] == SessionOf(c, cfg, StateAt(s, rs, i), clients[i])
      ensures rs[i].ending.Aborted? ==> i == |rs| - 1
    {
      RunAt(c, cfg, s, clients, i);
    }
    forall i | 0 <= i < |rs|
      ensures
        && (rs[i].ending.Untrusted? || rs[i].ending.Released? <==>
              exists m1, m3 :: Concluded(c, cfg, clients[i].key, rs[i], m1, m3))
        && (forall m1, m3 :: Concluded(c, cfg, clients[i].key, rs[i], m1, m3) ==> IsTold(cfg, rs[i], m3))
        && (rs[i].ending.Aborted? <==>
              CutShort1(rs[i].first) || exists m1 :: CutShortLater(c, cfg, clients[i].key, rs[i], m1))
    {
      ToldExactly(c, cfg, StateAt(s, rs, i), clients[i]);
      AbortedExactly(c, cfg, StateAt(s, rs, i), clients[i]);
    }
    RunLength(c, cfg, s, clients);
  }

  // In every run: what each session that msg1 opens asks the service for. No other asks for anything.
  lemma WholeRunRequests(c: Primitives, cfg: Config, s: Server, clients: seq<Client>, i: nat)
    requires IsConfig(cfg) && i < |Run(c, cfg, s, clients)|
    ensures var r, key := Run(c, cfg, s, clients)[i], clients[i].key;
            && (forall m1 :: Opened(c, key, r.first, m1) ==> Asks(c, cfg, key, r, m1))
            && (r.queries != [] ==> exists m1 :: Opened(c, key, r.first, m1))
  {
    var rs := Run(c, cfg, s, clients);
    RunAt(c, cfg, s, clients, i);
    var cl, st := clients[i], StateAt(s, rs, i);
    hide Run, SessionOf, Asks;
    SessionReaches(c, cfg, st, cl);
    SessionAsks(c, cfg, st, cl);
    forall m1 | Opened(c, cl.key, rs[i].first, m1) ensures Asks(c, cfg, cl.key, rs[i], m1) {
      RequestsExactly(c, cfg, st, cl, m1);
    }
  }

  lemma {:induction false} RunLength(c: Primitives, cfg: Config, s: Server, clients: seq<Client>)
    ensures var rs := Run(c, cfg, s, clients);
            |rs| < |clients| ==> rs != [] && rs[|rs| - 1].ending.Aborted?
    decreases clients
  {
    hide SessionOf;
    if clients != [] {
      RunLength(c, cfg, SessionOf(c, cfg, s, clients[0]).after, clients[1..]);
    }
  }
}
