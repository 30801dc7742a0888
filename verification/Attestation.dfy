/**
 What the server makes of an attestation report: get_attestation_report in service-provider/sp.cpp.
 */
module Attestation {
  import opened CText
  import opened Crypto
  import opened HexUtil
  import opened Ias
  import opened Json
  import opened JsonParser
  import opened RequestBody

  datatype TrustStatus = NotTrusted | NotTrustedItsComplicated | TrustedItsComplicated | Trusted

  // What get_attestation_report comes to: 0; 1 with msg4 filled in; or what is not modelled further:
  // an exception that nobody catches, an access outside an object, a PIB of which scanf reads
  // something other than digit pairs.
  datatype Verdict = Rejected | Attested(status: TrustStatus, pib: bytes) | Crash

  const PIB_SIZE := 101

  // The member of msg4 behind the PIB, which is written before it is sent.
  const CIPHERTEXT_SIZE := 16

  // --- the decision, as a table over the report ---------------------------------------------------

  function TrustOf(quoteStatus: string, strict: bool): TrustStatus {
    if quoteStatus == "OK" then Trusted
    else if quoteStatus == "SW_HARDENING_NEEDED" || quoteStatus == "CONFIGURATION_AND_SW_HARDENING_NEEDED" then
      if strict then NotTrustedItsComplicated else TrustedItsComplicated
    else if quoteStatus == "GROUP_OUT_OF_DATE" then NotTrustedItsComplicated
    else NotTrusted
  }

  // The two versions are compared as unsigned int; from version 3 on a report has to have one.
  predicate VersionAccepted(report: Json, version: nat) {
    if HasKey(report, "version") then ToInt(Get(report, "version")) % TWO_32 == version % TWO_32 else version < 3
  }

  // The policy as the comment at service-provider/sp.cpp:1616-1636 has it, and README-old.md:435.
  function DocumentedTrust(quoteStatus: string, strict: bool): TrustStatus {
    if quoteStatus == "OK" then Trusted
    else if quoteStatus == "CONFIGURATION_NEEDED" || quoteStatus == "SW_HARDENING_NEEDED"
            || quoteStatus == "CONFIGURATION_AND_SW_HARDENING_NEEDED"
    then if strict then NotTrustedItsComplicated else TrustedItsComplicated
    else NotTrusted
  }

  // The code departs from it on two quote statuses: the branch for CONFIGURATION_NEEDED is commented
  // out, and there is one for GROUP_OUT_OF_DATE. Whether the client is trusted comes out differently
  // for the first of them only, and only without strict trust.
  lemma TrustAsDocumented(quoteStatus: string, strict: bool)
    ensures TrustOf(quoteStatus, strict) == DocumentedTrust(quoteStatus, strict) <==>
            quoteStatus != "CONFIGURATION_NEEDED" && quoteStatus != "GROUP_OUT_OF_DATE"
    ensures IsTrusted(TrustOf(quoteStatus, strict)) == IsTrusted(DocumentedTrust(quoteStatus, strict)) <==>
            quoteStatus != "CONFIGURATION_NEEDED" || strict
    ensures TrustOf("CONFIGURATION_NEEDED", strict) == NotTrusted
    ensures TrustOf("GROUP_OUT_OF_DATE", strict) == NotTrustedItsComplicated
  {
    var conf, group := "CONFIGURATION_NEEDED", "GROUP_OUT_OF_DATE";
    assert |"OK"| == 2 && |"SW_HARDENING_NEEDED"| == 19 && |"CONFIGURATION_AND_SW_HARDENING_NEEDED"| == 37;
    assert |conf| == 20 && |group| == 17;
  }

  // The digits of a platformInfoBlob after its TLV header, in whole bytes.
  function PibDigits(text: string): (digits: string)
    requires |text| >= 8
    ensures |digits| % 2 == 0
  {
    var digits := text[8..];
    digits[..2 * (|digits| / 2)]
  }

  // The PIB member after front has been written from its first byte on.
  function Filled(front: bytes): (pib: bytes)
    ensures |pib| == PIB_SIZE
    ensures forall i :: 0 <= i < PIB_SIZE ==> pib[i] == if i < |front| then front[i] else 0
  {
    if |front| < PIB_SIZE then front + Zeros(PIB_SIZE - |front|) else front[..PIB_SIZE]
  }

  // The PIB member of msg4: the bytes from_hexstring reads, the rest zero; what does not fit lands in
  // the ciphertext. None where the text is shorter than a header, the bytes go beyond the ciphertext,
  // or scanf reads something other than digit pairs.
  function PibOf(blob: Json): (r: Option<bytes>)
    ensures r.Some? ==> |r.value| == PIB_SIZE
  {
    if blob.Null? then Some(Zeros(PIB_SIZE))
    else if |ToText(blob)| < 8 then None
    else
      match Scanned(PibDigits(ToText(blob)))
      case None => None
      case Some(front) =>
        if |front| > PIB_SIZE + CIPHERTEXT_SIZE then None else Some(Filled(front))
  }

  lemma {:induction false} EscapeOfHex(t: string)
    requires AllHex(t)
    ensures Escape(t) == t
  {
    if t != "" {
      assert IsHex(t[0]);
      EscapeOfHex(t[1..]);
    }
  }

  // A blob of hex digits, as the service sends it: the bytes after the four of the TLV header fill the 101
  // of the member. The server ends for one without a whole header, or with more than 117 bytes after it.
  lemma PibOfHex(text: string)
    requires AllHex(text)
    ensures PibOf(Str(text)) ==
            if |text| < 8 || |text| - 8 >= 2 * 118 then None
            else Some(Filled(Decode(text[8..8 + 2 * ((|text| - 8) / 2)])))
    ensures PibOf(Null) == Some(Zeros(101))
  {
    EscapeOfHex(text);
    StrToText(text);
    if |text| >= 8 {
      var digits := PibDigits(text);
      assert digits == text[8..8 + 2 * ((|text| - 8) / 2)];
      HexPart(text, digits);
      PibOfDigits(Str(text), digits);
    }
  }

  lemma HexPart(text: string, digits: string)
    requires AllHex(text) && |text| >= 8 && digits == text[8..8 + 2 * ((|text| - 8) / 2)]
    ensures AllHex(digits)
  {
    hide IsHex;
  }

  lemma StrToText(t: string)
    ensures ToText(Str(t)) == Escape(t)
  {
  }

  lemma PibOfDigits(blob: Json, digits: string)
    requires !blob.Null? && |ToText(blob)| >= 8 && PibDigits(ToText(blob)) == digits && AllHex(digits)
    ensures PibOf(blob) == if |digits| >= 2 * 118 then None else Some(Filled(Decode(digits)))
  {
    ScannedHex(digits);
    hide ToText, PibDigits, AllHex, Decode, Scanned;
  }

  function Decide(report: Json, version: nat, strict: bool): Verdict {
    if !VersionAccepted(report, version) then Rejected
    else
      match PibOf(Get(report, "platformInfoBlob"))
      case None => Crash
      case Some(pib) => Attested(TrustOf(ToText(Get(report, "isvEnclaveQuoteStatus")), strict), pib)
  }

  function VerdictOf(c: Primitives, a: Answer, version: nat, strict: bool): Verdict {
    if ReportStatus(c, a) != IAS_OK then Rejected
    else
      match Loaded(a.content)
      case Ok(report, _) => Decide(report, version, strict)
      case _ => Crash
  }

  predicate IsTrusted(s: TrustStatus) {
    s.Trusted? || s.TrustedItsComplicated?
  }

  // --- lookups that write -------------------------------------------------------------------------

  lemma {:induction false} FindInsertMissing(es: seq<Entry>, k: string, k': string)
    requires Find(es, k).None?
    ensures Find(Insert(es, k, Null), k') == if k' == k then Some(Null) else Find(es, k')
  {
    if es != [] {
      if Less(k, es[0].key) {
        assert ([Entry(k, Null)] + es)[1..] == es;
      } else {
        FindInsertMissing(es[1..], k, k');
        assert Insert(es, k, Null)[1..] == Insert(es[1..], k, Null);
      }
    }
  }

  // operator[] may insert a Null or make an object of another value; every lookup sees the same
  // afterwards, and one more key is there.
  lemma TouchChangesNoLookup(v: Json, key: string, k: string)
    ensures Get(Touch(v, key), k) == Get(v, k)
    ensures HasKey(Touch(v, key), k) <==> HasKey(v, k) || k == key
  {
    var es := AsObject(v).entries;
    if Find(es, key).None? {
      FindInsertMissing(es, key, k);
    }
  }

  class ReportObject {
    var value: Json

    constructor (value: Json)
      ensures this.value == value
    {
      this.value := value;
    }

    // JSON::operator[](key)
    method At(key: string) returns (v: Json)
      modifies this
      ensures value == Touch(old(value), key) && v == Get(old(value), key)
      ensures forall k :: Get(value, k) == Get(old(value), k)
      ensures forall k :: HasKey(value, k) <==> HasKey(old(value), k) || k == key
    {
      forall k
        ensures Get(Touch(value, key), k) == Get(value, k)
        ensures HasKey(Touch(value, key), k) <==> HasKey(value, k) || k == key
      {
        TouchChangesNoLookup(value, key, k);
      }
      assert Get(Touch(value, key), key) == Get(value, key);
      value := Touch(value, key);
      v := Get(value, key);
    }

    // The lookups that only the verbose server makes, in their order.
    method Verbose(version: nat)
      modifies this
      ensures forall k :: Get(value, k) == Get(old(value), k)
      ensures HasKey(value, "version") <==> HasKey(old(value), "version") || version >= 3
    {
      hide Get, HasKey, Touch;
      if version >= 3 {
        var _ := At("version");
      }
      ghost var before := value;
      var required := ["id", "timestamp", "isvEnclaveQuoteStatus", "isvEnclaveQuoteBody", "platformInfoBlob",
        "revocationReason", "pseManifestStatus", "pseManifestHash", "nonce", "epidPseudonym"];
      assert forall i :: 0 <= i < |required| ==> required[i] != "version";
      for i := 0 to |required|
        invariant forall k :: Get(value, k) == Get(before, k)
        invariant HasKey(value, "version") <==> HasKey(before, "version")
      {
        var _ := At(required[i]);
      }
      if version >= 4 {
        var _ := At("advisoryURL");
        var ids := At("advisoryIDs");
        for i := 0 to if ids.Array? then |ids.items| else 0
          invariant forall k :: Get(value, k) == Get(before, k)
          invariant HasKey(value, "version") <==> HasKey(before, "version")
        {
          var _ := At("advisoryIDs");
        }
      }
    }
  }

  // The platformInfoBlob's bytes in msg4.
  method FillPib(blob: Json) returns (r: Option<bytes>)
    requires !blob.Null?
    ensures r == PibOf(blob)
  {
    var pibBuff := ToText(blob);
    if |pibBuff| < 8 {
      return None;
    }
    pibBuff := pibBuff[8..];
    var len := |pibBuff| / 2;
    var front := Scanned(pibBuff[..2 * len]);
    if front.None? || |front.value| > PIB_SIZE + CIPHERTEXT_SIZE {
      return None;
    }
    hide Scanned;
    // msg4 from the member on, which memset has cleared
    var memory := new byte[PIB_SIZE + len](_ => 0);
    ghost var zeros := memory[|front.value|..];
    var _ := FromHexstring(memory, pibBuff, len);
    var n := |front.value|;
    assert memory[n..] == zeros;
    assert memory[..PIB_SIZE] == Filled(front.value) by {
      forall i | 0 <= i < PIB_SIZE ensures memory[i] == if i < n then front.value[i] else 0 {
        if i < n {
          assert memory[i] == memory[..n][i];
        } else {
          assert memory[i] == memory[n..][i - n] == zeros[i - n];
        }
      }
    }
    r := Some(memory[..PIB_SIZE]);
  }

  // The same verdict with verbose on and off, and the one the table gives.
  method DecideReport(reportObj: ReportObject, version: nat, strictTrust: bool, verbose: bool) returns (r: Verdict)
    requires version <= INT_MAX
    modifies reportObj
    ensures r == Decide(old(reportObj.value), version, strictTrust)
  {
    hide Get, HasKey, Touch, PibOf, TrustOf, ToText, ToInt;
    NullVersion(reportObj.value, version);
    if verbose {
      reportObj.Verbose(version);
    }
    if HasKey(reportObj.value, "version") {
      var v := reportObj.At("version");
      if version % TWO_32 != ToInt(v) % TWO_32 {
        return Rejected;
      }
    } else if version >= 3 {
      return Rejected;
    }
    var quoteStatus := reportObj.At("isvEnclaveQuoteStatus");
    var status := TrustOf(ToText(quoteStatus), strictTrust);
    var blob := reportObj.At("platformInfoBlob");
    var pib := Some(Zeros(PIB_SIZE));
    if blob.Null? {
      NoPib();
    } else {
      pib := FillPib(blob);
    }
    r := if pib.None? then Crash else Attested(status, pib.value);
  }

  lemma NoPib()
    ensures PibOf(Null) == Some(Zeros(PIB_SIZE))
  {
  }

  // A version the verbose server's lookup put in is 0.
  lemma NullVersion(report: Json, version: nat)
    ensures !HasKey(report, "version") ==> ToInt(Get(report, "version")) == 0
  {
  }

  // get_attestation_report
  method GetAttestationReport(ias: Connection, c: Primitives, version: nat, b64quote: string, strictTrust: bool,
                              verbose: bool) returns (r: Verdict)
    requires ias.Valid() && version <= INT_MAX
    modifies ias`requests, ias`answers
    ensures r == VerdictOf(c, Next(old(ias.answers)), version, strictTrust)
    ensures ias.requests == old(ias.requests) +
      [Request(ias.Key(ias.currentKeyID), ReportPath(version), Body([Param("isvEnclaveQuote", b64quote)]))]
    ensures ias.answers == Later(old(ias.answers))
  {
    hide ReportStatus, Loaded, Decide, Body, ReportPath;
    var status, content := ias.Report(c, version, [Param("isvEnclaveQuote", b64quote)]);
    if status != IAS_OK {
      return Rejected;
    }
    var report := Load(content);
    if !report.Ok? {
      return Crash;
    }
    var reportObj := new ReportObject(report.value);
    r := DecideReport(reportObj, version, strictTrust, verbose);
  }
}
