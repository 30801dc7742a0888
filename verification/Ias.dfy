/**
 The connection to the attestation service and its requests: service-provider/iasrequest.cpp.
 */
module Ias {
  import opened CText
  import opened CertChain
  import opened Crypto
  import opened HexUtil
  import opened HttpParser
  import opened RequestBody

  const IAS_QUERY_FAILED := 0
  const IAS_OK := 200
  const IAS_UNAUTHORIZED := 401
  const IAS_INTERNAL_ERROR := 1000
  const IAS_BAD_CERTIFICATE := 1001
  const IAS_BAD_SIGNATURE := 1002

  // --- subscription keys ------------------------------------------------------------------------

  const KEY_SIZE := 32

  datatype KeyID = Primary | Secondary

  function Row(id: KeyID): nat {
    if id.Primary? then 0 else 1
  }

  // A character array as a C string: what comes before its first NUL.
  function UpToNul(s: seq<bv8>): (t: seq<bv8>)
    ensures |t| <= |s| && t == s[..|t|] && 0 !in t
    ensures |t| < |s| ==> s[|t|] == 0
  {
    if s == [] || s[0] == 0 then [] else [s[0]] + UpToNul(s[1..])
  }

  lemma {:induction false} UpToNulWhole(s: seq<bv8>)
    requires 0 !in s
    ensures UpToNul(s) == s
  {
    if s != [] {
      UpToNulWhole(s[1..]);
    }
  }

  lemma {:induction false} UpToNulPadded(s: seq<bv8>)
    ensures UpToNul(s + [0]) == UpToNul(s)
  {
    if s == [] {
      assert s + [0] == [0];
    } else {
      assert (s + [0])[1..] == s[1..] + [0];
      UpToNulPadded(s[1..]);
    }
  }

  // --- what is asked and answered ----------------------------------------------------------------

  // One request: the key it presents, the path, and the body posted ("" for none).
  datatype Request = Request(key: seq<bv8>, path: string, body: string)

  // What Agent::request makes of it: nothing, or a complete HTTP response.
  datatype Answer = Unreachable | Reply(statusCode: nat, headers: seq<Header>, content: string)

  // Response::headers_as_string
  function HeadersAsString(hs: seq<Header>, name: string): string {
    if hs == [] then ""
    else (if EqualNoCase(hs[0].name, name) then hs[0].value + "\n" else "") + HeadersAsString(hs[1..], name)
  }

  // One line for every header of the name, in their order.
  lemma {:induction false} HeadersPush(hs: seq<Header>, h: Header, name: string)
    ensures HeadersAsString(hs + [h], name) ==
            HeadersAsString(hs, name) + if SameLetters(h.name, name) then h.value + "\n" else ""
  {
    EqualNoCaseExactly(h.name, name);
    hide EqualNoCase, SameLetters;
    if hs == [] {
      assert (hs + [h])[1..] == [] && HeadersAsString([], name) == "";
      assert h.value + "\n" + "" == h.value + "\n";
    } else {
      assert (hs + [h])[1..] == hs[1..] + [h];
      HeadersPush(hs[1..], h, name);
    }
  }

  method HeadersText(headers: seq<Header>, name: string) returns (text: string)
    ensures text == HeadersAsString(headers, name)
  {
    text := "";
    assert headers[..0] == [] && headers[..|headers|] == headers;
    for i := 0 to |headers|
      invariant text == HeadersAsString(headers[..i], name)
    {
      assert headers[..i + 1] == headers[..i] + [headers[i]];
      HeadersPush(headers[..i], headers[i], name);
      EqualNoCaseExactly(headers[i].name, name);
      if EqualNoCase(headers[i].name, name) {
        text := text + (headers[i].value + "\n");
      }
    }
  }

  // No text means that no header has the name.
  lemma {:induction false} HeaderMissing(hs: seq<Header>, name: string)
    ensures HeadersAsString(hs, name) == "" <==> forall i :: 0 <= i < |hs| ==> !EqualNoCase(hs[i].name, name)
  {
    if hs != [] {
      HeaderMissing(hs[1..], name);
      hide EqualNoCase;
      if HeadersAsString(hs, name) == "" {
        assert !EqualNoCase(hs[0].name, name);
        forall i | 0 <= i < |hs| ensures !EqualNoCase(hs[i].name, name) {
          assert i > 0 ==> hs[i] == hs[1..][i - 1];
        }
      } else if !EqualNoCase(hs[0].name, name) {
        assert HeadersAsString(hs[1..], name) != "";
        var i :| 0 <= i < |hs[1..]| && EqualNoCase(hs[1..][i].name, name);
        assert hs[i + 1] == hs[1..][i];
      }
    }
  }

  function StatusOf(a: Answer): nat {
    if a.Unreachable? then IAS_QUERY_FAILED else a.statusCode
  }

  function Next(answers: seq<Answer>): Answer {
    if answers == [] then Unreachable else answers[0]
  }

  function Later(answers: seq<Answer>): seq<Answer> {
    if answers == [] then [] else answers[1..]
  }

  // "%08x"
  function EightHex(n: nat): string {
    var digits := HexNumeral(n);
    seq(if |digits| < 8 then 8 - |digits| else 0, _ => '0') + digits
  }

  function SigrlPath(version: nat, gid: nat): string {
    Decimal(version % 65536) + ("/sigrl/" + EightHex(gid))
  }

  function ReportPath(version: nat): string {
    Decimal(version % 65536) + "/report"
  }

  // The k lowest hex digits of n, and what is left without them.
  function LowHex(n: nat, k: nat): (s: string)
    ensures |s| == k
    decreases k
  {
    if k == 0 then "" else LowHex(n / 16, k - 1) + [HexChar(n % 16)]
  }

  function Shifted(n: nat, k: nat): nat
    decreases k
  {
    if k == 0 then n else Shifted(n / 16, k - 1)
  }

  lemma {:induction false} NoDigits(k: nat)
    ensures LowHex(0, k) == seq(k, _ => '0')
    decreases k
  {
    if k > 0 {
      NoDigits(k - 1);
    }
  }

  lemma {:induction false} PaddedNumeral(n: nat, k: nat)
    requires k > 0 && Shifted(n, k) == 0
    ensures |HexNumeral(n)| <= k && seq(k - |HexNumeral(n)|, _ => '0') + HexNumeral(n) == LowHex(n, k)
    decreases k
  {
    if n < 16 {
      NoDigits(k - 1);
    } else {
      assert k > 1;
      PaddedNumeral(n / 16, k - 1);
    }
  }

  lemma LowHexTwice(n: nat, b: nat, k: nat)
    requires b < 256
    ensures var m := b + 256 * n;
            && LowHex(m, k + 2) == LowHex(n, k) + [HexChar(b / 16), HexChar(b % 16)]
            && Shifted(m, k + 2) == Shifted(n, k)
  {
    var m := b + 256 * n;
    ByteDigits(n, b);
    hide HexChar, LowHex, Shifted;
    LowHexStep(m, k + 1);
    LowHexStep(m / 16, k);
  }

  lemma ByteDigits(n: nat, b: nat)
    requires b < 256
    ensures var m := b + 256 * n; m / 16 / 16 == n && m / 16 % 16 == b / 16 && m % 16 == b % 16
  {
    var m := b + 256 * n;
    assert m / 16 == b / 16 + 16 * n && m % 16 == b % 16;
  }

  lemma LowHexStep(n: nat, k: nat)
    ensures LowHex(n, k + 1) == LowHex(n / 16, k) + [HexChar(n % 16)] && Shifted(n, k + 1) == Shifted(n / 16, k)
  {
    hide HexChar;
  }

  lemma FirstByte(g: bytes)
    requires g != []
    ensures Unsigned(g) == g[0] + 256 * Unsigned(g[1..]) && Reversed(g) == Reversed(g[1..]) + [g[0]]
  {
    hide Unsigned;
    assert Unsigned(g) == g[0] + 256 * Unsigned(g[1..]) by { UnsignedFirst(g); }
  }

  lemma UnsignedFirst(g: bytes)
    requires g != []
    ensures Unsigned(g) == g[0] + 256 * Unsigned(g[1..])
  {
  }

  lemma NoBytes()
    ensures LowHex(Unsigned([]), 0) == Encode(Reversed([])) && Shifted(Unsigned([]), 0) == 0
  {
    assert Reversed([]) == [];
  }

  // A number in bytes, least significant first, has its hex digits in the other order.
  lemma {:induction false} LowHexOfBytes(g: bytes)
    ensures LowHex(Unsigned(g), 2 * |g|) == Encode(Reversed(g)) && Shifted(Unsigned(g), 2 * |g|) == 0
  {
    hide *;
    if g != [] {
      LowHexOfBytes(g[1..]);
      FirstByte(g);
      EncodePush(Reversed(g[1..]), g[0]);
      LowHexTwice(Unsigned(g[1..]), g[0], 2 * |g| - 2);
    } else {
      NoBytes();
    }
  }

  lemma EightHexOfBytes(gid: bytes)
    requires |gid| == 4
    ensures EightHex(Unsigned(gid)) == Encode([gid[3], gid[2], gid[1], gid[0]])
  {
    LowHexOfBytes(gid);
    assert Reversed(gid) == [gid[3], gid[2], gid[1], gid[0]];
    hide Encode, Unsigned, Reversed, Shifted, LowHex, HexNumeral;
    PaddedNumeral(Unsigned(gid), 8);
  }

  lemma OneDigit(n: nat)
    requires n == 3 || n == 4
    ensures Decimal(n % 65536) == if n == 3 then "3" else "4"
  {
    assert n % 65536 == n;
  }

  lemma ReportPathExactly(version: nat)
    requires 3 <= version <= 4
    ensures ReportPath(version) == if version == 3 then "3/report" else "4/report"
  {
    OneDigit(version);
    hide Decimal;
    assert "3" + "/report" == "3/report" && "4" + "/report" == "4/report";
  }

  // The path for the SigRL, for the group in the four bytes of msg1; the API version has 16 bits.
  lemma SigrlPathExactly(version: nat, gid: bytes)
    requires |gid| == 4
    ensures SigrlPath(version, Unsigned(gid)) ==
            Decimal(version % 0x1_0000) + ("/sigrl/" + Encode([gid[3], gid[2], gid[1], gid[0]]))
    ensures ReportPath(version) == Decimal(version % 0x1_0000) + "/report"
    ensures 3 <= version <= 4 ==> Decimal(version % 0x1_0000) == if version == 3 then "3" else "4"
  {
    EightHexOfBytes(gid);
    if 3 <= version <= 4 {
      OneDigit(version);
    }
    hide Encode, Unsigned, EightHex, Decimal;
  }

  // --- the report's signature ---------------------------------------------------------------------

  const CERTIFICATE_HEADER := "X-IASReport-Signing-Certificate"
  const SIGNATURE_HEADER := "X-IASReport-Signature"

  predicate AllLoad(c: Primitives, pieces: seq<string>) {
    forall i :: 0 <= i < |pieces| ==> c.certLoads(CStr(pieces[i]))
  }

  // What IAS_Request::report returns for an answer.
  function ReportStatus(c: Primitives, a: Answer): nat {
    if StatusOf(a) != IAS_OK then StatusOf(a)
    else if HeadersAsString(a.headers, CERTIFICATE_HEADER) == "" then IAS_BAD_CERTIFICATE
    else
      match UrlDecoded(HeadersAsString(a.headers, CERTIFICATE_HEADER))
      case None => IAS_BAD_CERTIFICATE
      case Some(chain) =>
        var pieces := Pieces(chain);
        if !AllLoad(c, pieces) || !c.chainVerifies(pieces) then IAS_BAD_CERTIFICATE
        else SignatureStatus(c, a, pieces[0])
  }

  function SignatureStatus(c: Primitives, a: Answer, signer: string): nat
    requires a.Reply?
  {
    var sigstr := HeadersAsString(a.headers, SIGNATURE_HEADER);
    var sig := c.base64Decode(CStr(sigstr));
    if sigstr == "" || sig.None? then IAS_BAD_SIGNATURE
    else if c.publicKey(signer).None? then IAS_INTERNAL_ERROR
    else if c.verifies(c.publicKey(signer).value, a.content, sig.value) then IAS_OK
    else IAS_BAD_SIGNATURE
  }

  // A report that can be relied on: the chain in its header splits into certificates that lead up to
  // the signing CA, and the first one's key verifies the signature over exactly the content.
  ghost predicate Genuine(c: Primitives, a: Answer) {
    && a.Reply? && a.statusCode == 200
    && HeadersAsString(a.headers, "X-IASReport-Signing-Certificate") != ""
    && (exists chain, pieces, key, sig ::
         && UrlDecoded(HeadersAsString(a.headers, "X-IASReport-Signing-Certificate")) == Some(chain)
         && IsSplit(chain, pieces) && AllLoad(c, pieces) && c.chainVerifies(pieces)
         && HeadersAsString(a.headers, "X-IASReport-Signature") != ""
         && c.base64Decode(CStr(HeadersAsString(a.headers, "X-IASReport-Signature"))) == Some(sig)
         && c.publicKey(pieces[0]) == Some(key) && c.verifies(key, a.content, sig))
  }

  lemma ReportStatusExactly(c: Primitives, a: Answer)
    ensures ReportStatus(c, a) == IAS_OK <==> Genuine(c, a)
    ensures Genuine(c, a) ==> a.Reply?
  {
    hide UrlDecoded, HeadersAsString, AllLoad, CStr, Flatten, BeginsAt;
    if Genuine(c, a) {
      var chain, pieces, key, sig :|
        && UrlDecoded(HeadersAsString(a.headers, CERTIFICATE_HEADER)) == Some(chain)
        && IsSplit(chain, pieces) && AllLoad(c, pieces) && c.chainVerifies(pieces)
        && HeadersAsString(a.headers, SIGNATURE_HEADER) != ""
        && c.base64Decode(CStr(HeadersAsString(a.headers, SIGNATURE_HEADER))) == Some(sig)
        && c.publicKey(pieces[0]) == Some(key) && c.verifies(key, a.content, sig);
      DecodedNotEmpty(HeadersAsString(a.headers, CERTIFICATE_HEADER));
      SplitUnique(chain, pieces, Pieces(chain));
    }
    if ReportStatus(c, a) == IAS_OK {
      var chain := UrlDecoded(HeadersAsString(a.headers, CERTIFICATE_HEADER)).value;
      var pieces := Pieces(chain);
      assert c.publicKey(pieces[0]).Some? && c.base64Decode(CStr(HeadersAsString(a.headers, SIGNATURE_HEADER))).Some?;
    }
  }

  // The certificates that come with an answer: the chain in its header, in pieces that all load and lead
  // up to the signing CA.
  ghost predicate HasChain(c: Primitives, a: Answer, pieces: seq<string>)
    requires a.Reply?
  {
    && HeadersAsString(a.headers, "X-IASReport-Signing-Certificate") != ""
    && (exists chain :: UrlDecoded(HeadersAsString(a.headers, "X-IASReport-Signing-Certificate")) == Some(chain)
                        && IsSplit(chain, pieces))
    && AllLoad(c, pieces) && c.chainVerifies(pieces)
  }

  // The status of any other answer.
  lemma ReportStatusOtherwise(c: Primitives, a: Answer)
    ensures a.Unreachable? ==> ReportStatus(c, a) == 0
    ensures a.Reply? && a.statusCode != 200 ==> ReportStatus(c, a) == a.statusCode
    ensures a.Reply? && a.statusCode == 200 ==>
              (ReportStatus(c, a) == 1001 <==> forall pieces :: !HasChain(c, a, pieces))
    ensures a.Reply? && a.statusCode == 200 ==>
              forall pieces :: HasChain(c, a, pieces) ==>
                var signature := HeadersAsString(a.headers, "X-IASReport-Signature");
                var sig := c.base64Decode(CStr(signature));
                && pieces != []
                && (ReportStatus(c, a) == 1000 <==> signature != "" && sig.Some? && c.publicKey(pieces[0]).None?)
                && (ReportStatus(c, a) == 1002 <==>
                      || signature == "" || sig.None?
                      || (c.publicKey(pieces[0]).Some?
                          && !c.verifies(c.publicKey(pieces[0]).value, a.content, sig.value)))
  {
    hide UrlDecoded, HeadersAsString, AllLoad, CStr, IsSplit;
    if a.Reply? && a.statusCode == 200 {
      var certificates := HeadersAsString(a.headers, CERTIFICATE_HEADER);
      forall pieces | HasChain(c, a, pieces) ensures pieces != [] && UrlDecoded(certificates).Some?
        && pieces == Pieces(UrlDecoded(certificates).value)
      {
        var chain :| UrlDecoded(certificates) == Some(chain) && IsSplit(chain, pieces);
        DecodedNotEmpty(certificates);
        SplitUnique(chain, pieces, Pieces(chain));
        SplitNotEmpty(chain, pieces);
      }
      if ReportStatus(c, a) != 1001 {
        assert HasChain(c, a, Pieces(UrlDecoded(certificates).value));
      }
    }
  }

  lemma DecodedNotEmpty(s: string)
    requires s != ""
    ensures UrlDecoded(s) != Some("")
  {
  }

  lemma SplitNotEmpty(chain: string, pieces: seq<string>)
    requires IsSplit(chain, pieces)
    ensures pieces != []
  {
  }

  // --- the connection ------------------------------------------------------------------------------

  class Connection {
    const encrypted: array2<bv8>
    const pads: array2<bv8>
    var currentKeyID: KeyID
    // The service as the connection sees it: what it has been asked, and what it is going to answer.
    var requests: seq<Request>
    var answers: seq<Answer>

    ghost predicate Valid() {
      && encrypted.Length0 == 2 && encrypted.Length1 == KEY_SIZE
      && pads.Length0 == 2 && pads.Length1 == KEY_SIZE && encrypted != pads
    }

    ghost function Stored(id: KeyID): (s: seq<bv8>)
      requires Valid()
      reads encrypted, pads
      ensures |s| == KEY_SIZE
    {
      seq(KEY_SIZE, j requires 0 <= j < KEY_SIZE reads encrypted, pads =>
        encrypted[Row(id), j] ^ pads[Row(id), j])
    }

    ghost function Key(id: KeyID): seq<bv8>
      requires Valid()
      reads encrypted, pads
    {
      UpToNul(Stored(id))
    }

    constructor (pri: array?<bv8>, sec: array?<bv8>, priPad: seq<bv8>, secPad: seq<bv8>, answers: seq<Answer>)
      requires pri != null ==> 0 in pri[..]
      requires sec != null ==> 0 in sec[..]
      requires |priPad| == KEY_SIZE && |secPad| == KEY_SIZE && (pri == null || pri != sec)
      modifies pri, sec
      ensures Valid() && fresh(encrypted) && fresh(pads)
      ensures currentKeyID == Primary && requests == [] && this.answers == answers
      ensures Key(Primary) ==
        if pri != null && |UpToNul(old(pri[..]))| == 32 then old(pri[..])[..32] else []
      ensures Key(Secondary) ==
        if sec != null && |UpToNul(old(sec[..]))| == 32 then old(sec[..])[..32] else []
    {
      encrypted := new bv8[2, KEY_SIZE];
      pads := new bv8[2, KEY_SIZE];
      currentKeyID, requests := Primary, [];
      this.answers := answers;
      new;
      var _ := SetSubscriptionKey(Primary, pri, priPad);
      var _ := SetSubscriptionKey(Secondary, sec, secPad);
    }

    // Whatever the pad, a text of 32 characters before its NUL is the key that can be read back, what is
    // kept is text and pad in exclusive or, and the caller's copy is wiped. Other text leaves no key. The
    // other key stays as it is.
    method SetSubscriptionKey(id: KeyID, plain: array?<bv8>, pad: seq<bv8>) returns (ok: bool)
      requires Valid() && |pad| == KEY_SIZE && (plain != null ==> 0 in plain[..])
      modifies encrypted, pads, plain
      ensures ok <==> plain != null && |UpToNul(old(plain[..]))| == 32
      ensures Key(id) == if ok then old(plain[..])[..32] else []
      ensures ok ==> forall j :: 0 <= j < 32 ==>
        pads[Row(id), j] == pad[j] && encrypted[Row(id), j] == old(plain[j]) ^ pad[j]
      ensures ok ==> (forall j :: 0 <= j < 32 ==> plain[j] == 0) && plain[32..] == old(plain[32..])
      ensures plain != null && !ok ==> plain[..] == old(plain[..])
      ensures forall other :: other != id ==> Stored(other) == old(Stored(other)) && Key(other) == old(Key(other))
    {
      hide UpToNul;
      Clear(id);
      if plain == null || |UpToNul(plain[..])| != KEY_SIZE {
        return false;
      }
      ghost var was := plain[..];
      Encrypt(id, plain[..KEY_SIZE], pad);
      assert was[..KEY_SIZE] == UpToNul(was);
      UpToNulWhole(UpToNul(was));
      Wipe(plain);
      ok := true;
    }

    // The two memsets.
    method Clear(id: KeyID)
      requires Valid()
      modifies encrypted, pads
      ensures Key(id) == []
      ensures forall other :: other != id ==> Stored(other) == old(Stored(other)) && Key(other) == old(Key(other))
    {
      forall j | 0 <= j < KEY_SIZE {
        encrypted[Row(id), j] := 0;
      }
      forall j | 0 <= j < KEY_SIZE {
        pads[Row(id), j] := 0;
      }
      assert Stored(id)[0] == 0;
      forall other | other != id ensures Stored(other) == old(Stored(other)) {
        assert Row(other) != Row(id);
        assert forall j :: 0 <= j < KEY_SIZE ==> Stored(other)[j] == old(Stored(other)[j]);
      }
    }

    // The one-time pad.
    method Encrypt(id: KeyID, text: seq<bv8>, pad: seq<bv8>)
      requires Valid() && |text| == |pad| == KEY_SIZE
      modifies encrypted, pads
      ensures Stored(id) == text
      ensures forall j :: 0 <= j < KEY_SIZE ==>
        pads[Row(id), j] == pad[j] && encrypted[Row(id), j] == text[j] ^ pad[j]
      ensures forall other :: other != id ==> Stored(other) == old(Stored(other)) && Key(other) == old(Key(other))
    {
      forall j | 0 <= j < KEY_SIZE {
        pads[Row(id), j] := pad[j];
      }
      for i := 0 to KEY_SIZE
        modifies encrypted
        invariant forall j :: 0 <= j < i ==> encrypted[Row(id), j] == text[j] ^ pad[j]
        invariant forall other, j :: other != id && 0 <= j < KEY_SIZE ==>
          encrypted[Row(other), j] == old(encrypted[Row(other), j])
      {
        encrypted[Row(id), i] := text[i] ^ pads[Row(id), i];
      }
      forall j | 0 <= j < KEY_SIZE ensures Stored(id)[j] == text[j] {
        XorTwice(text[j], pad[j]);
      }
      forall other | other != id ensures Stored(other) == old(Stored(other)) {
        assert forall j :: 0 <= j < KEY_SIZE ==> Stored(other)[j] == old(Stored(other)[j]);
      }
    }

    lemma XorTwice(a: bv8, b: bv8)
      ensures (a ^ b) ^ b == a
    {
    }

    method GetSubscriptionKey() returns (key: seq<bv8>)
      requires Valid()
      ensures key == Key(currentKeyID)
    {
      var keyBuff := new bv8[KEY_SIZE + 1](_ => 0);
      for i := 0 to KEY_SIZE
        invariant keyBuff[..i] == Stored(currentKeyID)[..i] && forall j :: i <= j <= KEY_SIZE ==> keyBuff[j] == 0
      {
        keyBuff[i] := encrypted[Row(currentKeyID), i] ^ pads[Row(currentKeyID), i];
      }
      assert keyBuff[..] == Stored(currentKeyID) + [0];
      UpToNulPadded(Stored(currentKeyID));
      key := UpToNul(keyBuff[..]);
    }

    // AgentCurl::request, seen from outside: the current key goes out with every request.
    method Perform(path: string, body: string) returns (a: Answer)
      requires Valid()
      modifies `requests, `answers
      ensures requests == old(requests) + [Request(Key(currentKeyID), path, body)]
      ensures a == Next(old(answers)) && answers == Later(old(answers))
    {
      var key := GetSubscriptionKey();
      requests := requests + [Request(key, path, body)];
      a := Next(answers);
      answers := Later(answers);
    }

    // IAS_Request::sigrl
    method Sigrl(version: nat, gid: nat) returns (status: nat, sigrl: string)
      requires Valid()
      modifies `requests, `answers
      ensures requests == old(requests) + [Request(Key(currentKeyID), SigrlPath(version, gid), "")]
      ensures answers == Later(old(answers))
      ensures status == if Next(old(answers)).Unreachable? then 0 else Next(old(answers)).statusCode
      ensures status == 200 ==> sigrl == Next(old(answers)).content
    {
      var a := Perform(SigrlPath(version, gid), "");
      status := StatusOf(a);
      sigrl := if status == IAS_OK then a.content else "";
    }

    // The loop of cert_load.
    method LoadCertificates(c: Primitives, certvec: seq<string>) returns (ok: bool)
      ensures ok == AllLoad(c, certvec)
    {
      hide CStr;
      for i := 0 to |certvec|
        invariant forall j :: 0 <= j < i ==> c.certLoads(CStr(certvec[j]))
      {
        if !c.certLoads(CStr(certvec[i])) {
          return false;
        }
      }
      ok := true;
    }

    // IAS_Request::report
    method Report(c: Primitives, version: nat, payload: seq<Param>) returns (status: nat, content: string)
      requires Valid()
      modifies `requests, `answers
      ensures requests == old(requests) + [Request(Key(currentKeyID), ReportPath(version), Body(payload))]
      ensures answers == Later(old(answers)) && status == ReportStatus(c, Next(old(answers)))
      ensures status == IAS_OK ==> content == Next(old(answers)).content
    {
      hide UrlDecoded, HeadersAsString, CStr, IsSplit, AllLoad, ReportPath, Body;
      var body := BuildBody(payload);
      var a := Perform(ReportPath(version), body);
      content := "";
      if StatusOf(a) != IAS_OK {
        return StatusOf(a), content;
      }
      var certchain := HeadersText(a.headers, CERTIFICATE_HEADER);
      if certchain == "" {
        return IAS_BAD_CERTIFICATE, content;
      }
      var decoded := UrlDecode(certchain);
      if decoded.None? {
        return IAS_BAD_CERTIFICATE, content;
      }
      DecodedNotEmpty(certchain);
      var certvec := SplitChain(decoded.value);
      SplitUnique(decoded.value, certvec, Pieces(decoded.value));
      var allLoad := LoadCertificates(c, certvec);
      if !allLoad {
        return IAS_BAD_CERTIFICATE, content;
      }
      if !c.chainVerifies(certvec) {
        return IAS_BAD_CERTIFICATE, content;
      }
      SplitNotEmpty(decoded.value, certvec);
      var sigstr := HeadersText(a.headers, SIGNATURE_HEADER);
      if sigstr == "" {
        return IAS_BAD_SIGNATURE, content;
      }
      var sig := c.base64Decode(CStr(sigstr));
      if sig.None? {
        return IAS_BAD_SIGNATURE, content;
      }
      var pkey := c.publicKey(certvec[0]);
      if pkey.None? {
        return IAS_INTERNAL_ERROR, content;
      }
      content := a.content;
      status := if c.verifies(pkey.value, content, sig.value) then IAS_OK else IAS_BAD_SIGNATURE;
    }
  }

  method Wipe(plain: array<bv8>)
    requires plain.Length >= KEY_SIZE
    modifies plain
    ensures forall j :: 0 <= j < KEY_SIZE ==> plain[j] == 0
    ensures plain[KEY_SIZE..] == old(plain[KEY_SIZE..])
  {
    for i := 0 to KEY_SIZE
      invariant forall j :: 0 <= j < i ==> plain[j] == 0
      invariant forall j :: i <= j < plain.Length ==> plain[j] == old(plain[j])
    {
      plain[i] := 0;
    }
  }
}
