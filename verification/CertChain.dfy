/**
 The certificate chain header of a report, in service-provider/iasrequest.cpp: URL decoding, and
 splitting the text into certificates.
 */
module CertChain {
  import opened CText

  // --- url_decode -------------------------------------------------------------------------------

  // strtoul of a two-character text in base 16 and a cast to char, None where not all of it is
  // converted. strtoul also takes white space or a sign before a digit, and stops at a NUL.
  function HexPair(a: char, b: char): Option<char> {
    if a == '\0' then Some('\0')
    else if b == '\0' then if IsHex(a) then Some(HexValue(a) as char) else None
    else if !IsHex(b) then None
    else if IsHex(a) then Some((HexValue(a) * 16 + HexValue(b)) as char)
    else if IsSpace(a) || a == '+' then Some(HexValue(b) as char)
    else if a == '-' then Some(((256 - HexValue(b)) % 256) as char)
    else None
  }

  // strtoul of a whole text in base 16, cast to char: None where something is left that is not converted.
  function WholeHex(s: string): Option<char> {
    var t := SkipSpace(s);
    var digits := if t != "" && (t[0] == '+' || t[0] == '-') then t[1..] else t;
    if s == "" then Some('\0')
    else if digits == "" || !AllHex(digits) then None
    else
      var n: int := HexNumber(digits);
      Some(((if t[0] == '-' then -n else n) % 256) as char)
  }

  // The table above is that, on the C string of the two characters.
  lemma HexPairExactly(a: char, b: char)
    ensures HexPair(a, b) == WholeHex(CStr([a, b]))
  {
    hide WholeHex, CStr;
    if a == '\0' {
      EmptyPair(a, b);
    } else if b == '\0' {
      CStrUpTo([a, b], 1);
      assert [a, b][..1] == [a];
      SingleHex(a);
    } else {
      NoNul(a, b);
      TwoHex(a, b);
    }
  }

  lemma EmptyPair(a: char, b: char)
    requires a == '\0'
    ensures WholeHex(CStr([a, b])) == Some('\0')
  {
  }

  lemma NoNul(a: char, b: char)
    requires a != '\0' && b != '\0'
    ensures CStr([a, b]) == [a, b]
  {
    hide CStr;
    var s := [a, b];
    assert s[0] == a && s[1] == b;
    assert |CStr(s)| == 2 && s[..2] == s;
  }

  lemma SingleHex(c: char)
    ensures WholeHex([c]) == if IsHex(c) then Some(HexValue(c) as char) else None
  {
    hide *;
    SkippedOne(c);
    AfterSpace([c], c);
  }

  // The cases of a text without a sign and of one with it.
  lemma WithoutSign(s: string, t: string)
    requires s != "" && SkipSpace(s) == t && (t == "" || (t[0] != '+' && t[0] != '-'))
    ensures WholeHex(s) == if t == "" || !AllHex(t) then None else Some((HexNumber(t) % 256) as char)
  {
    hide SkipSpace, AllHex, HexNumber;
  }

  lemma WithSign(s: string, t: string, digits: string)
    requires s != "" && SkipSpace(s) == t && t != "" && (t[0] == '+' || t[0] == '-') && t[1..] == digits
    ensures WholeHex(s) ==
            if digits == "" || !AllHex(digits) then None
            else var n: int := HexNumber(digits); Some(((if t[0] == '-' then -n else n) % 256) as char)
  {
    hide SkipSpace, AllHex, HexNumber;
  }

  lemma SkippedOne(c: char)
    ensures SkipSpace([c]) == if IsSpace(c) then "" else [c]
  {
    assert [c][1..] == "";
  }

  lemma Classes(c: char)
    ensures IsSpace(c) || c == '+' || c == '-' ==> !IsHex(c)
    ensures c == '+' || c == '-' ==> !IsSpace(c)
    ensures IsHex(c) ==> HexValue(c) % 256 == HexValue(c)
  {
  }

  lemma OneHex(c: char)
    ensures AllHex([c]) <==> IsHex(c)
    ensures IsHex(c) ==> HexNumber([c]) == HexValue(c)
  {
    hide HexValue, IsHex, HexNumber;
    assert [c][0] == c;
    if IsHex(c) {
      HexNumberPush([], c);
      NoHexDigits();
      assert [] + [c] == [c];
    }
  }

  lemma NoHexDigits()
    ensures HexNumber([]) == 0
  {
  }

  lemma HexNumberPush(s: string, c: char)
    requires AllHex(s) && IsHex(c)
    ensures AllHex(s + [c]) && HexNumber(s + [c]) == HexNumber(s) * 16 + HexValue(c)
  {
    hide HexValue, IsHex;
    assert (s + [c])[..|s|] == s;
  }

  lemma TwoHex(a: char, b: char)
    requires a != '\0' && b != '\0'
    ensures WholeHex([a, b]) == HexPair(a, b)
  {
    hide *;
    HexPairCases(a, b);
    Classes(a);
    if a == '+' || a == '-' {
      SignedTwo(a, b);
    } else if !IsSpace(a) {
      PlainTwo(a, b);
    } else {
      SkippedTwo(a, b);
      SkippedOne(b);
      AfterSpace([a, b], b);
    }
  }

  lemma SignedTwo(a: char, b: char)
    requires a == '+' || a == '-'
    ensures WholeHex([a, b]) ==
            if !IsHex(b) then None
            else Some((if a == '-' then (256 - HexValue(b)) % 256 else HexValue(b)) as char)
  {
    hide *;
    var s, t := [a, b], [b];
    assert s[1..] == t && s[0] == a;
    SkippedTwo(a, b);
    Classes(a);
    Classes(b);
    WithSign(s, s, t);
    OneHex(b);
    if IsHex(b) {
      Negated(HexValue(b));
    }
  }

  lemma PlainTwo(a: char, b: char)
    requires !IsSpace(a) && a != '+' && a != '-'
    ensures WholeHex([a, b]) ==
            if IsHex(a) && IsHex(b) then Some((HexValue(a) * 16 + HexValue(b)) as char) else None
  {
    hide *;
    var s := [a, b];
    assert s[0] == a;
    SkippedTwo(a, b);
    WithoutSign(s, s);
    BothHex(a, b);
  }

  lemma Negated(n: int)
    requires 0 <= n < 16
    ensures -n % 256 == (256 - n) % 256
  {
  }

  lemma AfterSpace(s: string, b: char)
    requires s != "" && SkipSpace(s) == if IsSpace(b) then "" else [b]
    ensures WholeHex(s) == if IsHex(b) then Some(HexValue(b) as char) else None
  {
    hide *;
    var t := [b];
    assert t[1..] == "" && t[0] == b && t != "";
    Classes(b);
    if IsSpace(b) {
      WithoutSign(s, "");
    } else if b == '+' || b == '-' {
      WithSign(s, t, "");
    } else {
      WithoutSign(s, t);
      OneHex(b);
    }
  }

  lemma HexPairCases(a: char, b: char)
    requires a != '\0' && b != '\0'
    ensures HexPair(a, b) ==
            if !IsHex(b) then None
            else if IsHex(a) then Some((HexValue(a) * 16 + HexValue(b)) as char)
            else if IsSpace(a) || a == '+' then Some(HexValue(b) as char)
            else if a == '-' then Some(((256 - HexValue(b)) % 256) as char)
            else None
  {
  }

  lemma BothHex(a: char, b: char)
    ensures AllHex([a, b]) <==> IsHex(a) && IsHex(b)
    ensures IsHex(a) && IsHex(b) ==> HexNumber([a, b]) == HexValue(a) * 16 + HexValue(b)
    ensures IsHex(a) && IsHex(b) ==> (HexValue(a) * 16 + HexValue(b)) % 256 == HexValue(a) * 16 + HexValue(b)
  {
    hide HexNumber, HexValue, IsHex;
    OneHex(a);
    assert [a, b][0] == a && [a, b][1] == b;
    if IsHex(a) && IsHex(b) {
      HexNumberPush([a], b);
      assert [a] + [b] == [a, b];
    }
  }

  lemma SkippedTwo(a: char, b: char)
    ensures SkipSpace([a, b]) == if IsSpace(a) then SkipSpace([b]) else [a, b]
  {
    assert [a, b][1..] == [b];
  }

  // The decoded text; None for the exceptions at a bad or cut-off escape.
  function UrlDecoded(s: string): Option<string> {
    if s == "" then Some("")
    else if s[0] == '%' then
      if |s| < 3 then None
      else
        match (HexPair(s[1], s[2]), UrlDecoded(s[3..]))
        case (Some(c), Some(rest)) => Some([c] + rest)
        case _ => None
    else
      match UrlDecoded(s[1..])
      case Some(rest) => Some([if s[0] == '+' then ' ' else s[0]] + rest)
      case None => None
  }

  // The decoding of a text whose front decodes to front.
  function Prefixed(front: string, rest: Option<string>): Option<string> {
    match rest case Some(r) => Some(front + r) case None => None
  }

  lemma PrefixedStep(front: string, c: char, rest: Option<string>)
    ensures Prefixed(front, Prefixed([c], rest)) == Prefixed(front + [c], rest)
  {
    if rest.Some? {
      assert front + ([c] + rest.value) == (front + [c]) + rest.value;
    }
  }

  method UrlDecode(str: string) returns (r: Option<string>)
    ensures r == UrlDecoded(str)
  {
    hide HexPair;
    var decoded := "";
    var i := 0;
    assert str[0..] == str;
    assert UrlDecoded(str).Some? ==> "" + UrlDecoded(str).value == UrlDecoded(str).value;
    while i < |str|
      invariant i <= |str|
      invariant UrlDecoded(str) == Prefixed(decoded, UrlDecoded(str[i..]))
    {
      ghost var rest := str[i..];
      if str[i] == '+' {
        PrefixedStep(decoded, ' ', UrlDecoded(rest[1..]));
        decoded := decoded + [' '];
      } else if str[i] == '%' {
        if i + 3 > |str| {
          return None;
        }
        var v := HexPair(str[i + 1], str[i + 2]);
        assert rest[1] == str[i + 1] && rest[2] == str[i + 2];
        if v.None? {
          return None;
        }
        PrefixedStep(decoded, v.value, UrlDecoded(rest[3..]));
        assert rest[3..] == str[i + 3..];
        decoded := decoded + [v.value];
        i := i + 2;
      } else {
        PrefixedStep(decoded, str[i], UrlDecoded(rest[1..]));
        decoded := decoded + [str[i]];
      }
      i := i + 1;
      assert rest[0] != '%' ==> rest[1..] == str[i..];
    }
    assert str[i..] == "" && decoded + "" == decoded;
    r := Some(decoded);
  }

  // Percent-encoding: a character as it is, a plus sign for a space, or two hex digits
  // (RFC 3986, section 2.1).
  datatype Token = Plain(c: char) | Plus | Percent(hi: char, lo: char)

  predicate LegalToken(t: Token) {
    match t
    case Plain(c) => c != '+' && c != '%'
    case Plus => true
    case Percent(hi, lo) => IsHex(hi) && IsHex(lo)
  }

  function Written(ts: seq<Token>): string {
    if ts == [] then ""
    else (match ts[0] case Plain(c) => [c] case Plus => "+" case Percent(hi, lo) => ['%', hi, lo]) + Written(ts[1..])
  }

  function TokenChar(t: Token): char
    requires LegalToken(t)
  {
    match t
    case Plain(c) => c
    case Plus => ' '
    case Percent(hi, lo) => (HexValue(hi) * 16 + HexValue(lo)) as char
  }

  function Meant(ts: seq<Token>): string
    requires forall i :: 0 <= i < |ts| ==> LegalToken(ts[i])
  {
    if ts == [] then "" else [TokenChar(ts[0])] + Meant(ts[1..])
  }

  // Whichever characters an encoder chooses to escape, in whichever case, decoding gives them back.
  lemma {:induction false} DecodeOfEncoding(ts: seq<Token>)
    requires forall i :: 0 <= i < |ts| ==> LegalToken(ts[i])
    ensures UrlDecoded(Written(ts)) == Some(Meant(ts))
  {
    if ts != [] {
      DecodeOfEncoding(ts[1..]);
      var s := Written(ts);
      match ts[0]
      case Plain(c) => assert s[1..] == Written(ts[1..]);
      case Plus => assert s[1..] == Written(ts[1..]);
      case Percent(hi, lo) => assert s[3..] == Written(ts[1..]);
    }
  }

  // The escape of any byte.
  function Escaped(c: char): Token
    requires c as int < 256
  {
    Percent(HexChar(c as int / 16), HexChar(c as int % 16))
  }

  function EscapedAll(s: string): (ts: seq<Token>)
    requires forall i :: 0 <= i < |s| ==> s[i] as int < 256
    ensures forall i :: 0 <= i < |ts| ==> LegalToken(ts[i])
  {
    if s == "" then [] else [Escaped(s[0])] + EscapedAll(s[1..])
  }

  // Every byte string has an encoding that decodes to it.
  lemma {:induction false} EveryTextEncodable(s: string)
    requires forall i :: 0 <= i < |s| ==> s[i] as int < 256
    ensures UrlDecoded(Written(EscapedAll(s))) == Some(s)
  {
    DecodeOfEncoding(EscapedAll(s));
    MeantOfEscaped(s);
  }

  lemma {:induction false} MeantOfEscaped(s: string)
    requires forall i :: 0 <= i < |s| ==> s[i] as int < 256
    ensures Meant(EscapedAll(s)) == s
  {
    if s != "" {
      MeantOfEscaped(s[1..]);
      var n := s[0] as int;
      assert HexValue(HexChar(n / 16)) * 16 + HexValue(HexChar(n % 16)) == n;
      assert s == [s[0]] + s[1..];
    }
  }

  // --- splitting --------------------------------------------------------------------------------

  const BEGIN := "-----BEGIN"

  predicate BeginsAt(s: string, i: nat): (begins: bool)
    ensures begins <==> i + 10 <= |s| && s[i..i + 10] == "-----BEGIN"
  {
    i + |BEGIN| <= |s| && s[i..i + |BEGIN|] == BEGIN
  }

  // certchain.find("-----BEGIN", from)
  function FindBegin(s: string, from: nat): (r: Option<nat>)
    ensures r.Some? ==> from <= r.value && BeginsAt(s, r.value) && forall i :: from <= i < r.value ==> !BeginsAt(s, i)
    ensures r.None? ==> forall i :: from <= i ==> !BeginsAt(s, i)
    decreases |s| - from
  {
    if from >= |s| then None else if BeginsAt(s, from) then Some(from) else FindBegin(s, from + 1)
  }

  // A cut of the chain at every certificate's beginning, and nowhere else.
  ghost predicate IsSplit(chain: string, pieces: seq<string>) {
    && pieces != [] && Flatten(pieces) == chain && (chain != "" ==> pieces[0] != "")
    && (forall i :: 0 < i < |pieces| ==> BeginsAt(pieces[i], 0))
    && (forall i, k :: 0 <= i < |pieces| && 0 < k < |pieces[i]| ==> !BeginsAt(pieces[i], k))
  }

  // The split, one piece after another.
  function Pieces(chain: string): (pieces: seq<string>)
    ensures IsSplit(chain, pieces)
    ensures BeginsAt(chain, 0) ==> BeginsAt(pieces[0], 0)
    decreases |chain|
  {
    var next := FindBegin(chain, 1);
    if next.None? then
      assert chain + "" == chain;
      [chain]
    else
      var rest := Pieces(chain[next.value..]);
      PieceOf(chain, 0, next.value, chain[..next.value]);
      assert BeginsAt(chain[next.value..], 0) by { InSlice(chain, next.value, |chain|, 0); }
      assert chain[..next.value] + chain[next.value..] == chain;
      [chain[..next.value]] + rest
  }

  method SplitChain(certchain: string) returns (pieces: seq<string>)
    ensures IsSplit(certchain, pieces)
  {
    pieces := [];
    var cstart := 0;
    while true
      invariant cstart <= |certchain| && Flatten(pieces) == certchain[..cstart]
      invariant pieces != [] ==> BeginsAt(certchain, cstart) && pieces[0] != ""
      invariant forall i :: 0 < i < |pieces| ==> BeginsAt(pieces[i], 0)
      invariant forall i, k :: 0 <= i < |pieces| && 0 < k < |pieces[i]| ==> !BeginsAt(pieces[i], k)
      decreases |certchain| - cstart
    {
      var cend := FindBegin(certchain, cstart + 1);
      var stop := if cend.None? then |certchain| else cend.value;
      var piece := certchain[cstart..stop];
      PieceOf(certchain, cstart, stop, piece);
      FlattenPush(pieces, piece);
      pieces := pieces + [piece];
      if cend.None? {
        return;
      }
      cstart := cend.value;
    }
  }

  lemma BeginChar(s: string, i: nat, j: nat)
    requires j < |BEGIN| && BeginsAt(s, i)
    ensures s[i + j] == BEGIN[j]
  {
    assert s[i + j] == s[i..i + |BEGIN|][j];
  }

  // Two occurrences never overlap.
  lemma NoOverlap(s: string, i: nat, k: nat)
    requires BeginsAt(s, i) && i < k < i + |BEGIN|
    ensures !BeginsAt(s, k)
  {
    // a place where the later occurrence would have a dash and the earlier one has a letter
    var at := if k < i + 5 then i + 5 else k;
    BeginChar(s, i, at - i);
    if BeginsAt(s, k) {
      BeginChar(s, k, at - k);
    }
  }

  // An occurrence is one in any slice that covers it.
  lemma InSlice(s: string, from: nat, to: nat, k: nat)
    requires from <= to <= |s| && from + k + |BEGIN| <= to
    ensures BeginsAt(s[from..to], k) == BeginsAt(s, from + k)
  {
    var p := s[from..to];
    var a, b := p[k..k + |BEGIN|], s[from + k..from + k + |BEGIN|];
    assert |a| == |b| && forall j :: 0 <= j < |a| ==> a[j] == p[k + j] == b[j];
    assert a == b;
  }

  // A piece that ends before the next occurrence holds none but the one it starts with.
  lemma PieceOf(s: string, from: nat, to: nat, piece: string)
    requires from <= to <= |s| && piece == s[from..to]
    requires forall k :: from < k < to ==> !BeginsAt(s, k)
    requires to == |s| || BeginsAt(s, to)
    ensures forall k :: 0 < k < |piece| ==> !BeginsAt(piece, k)
    ensures BeginsAt(s, from) && from < to ==> BeginsAt(piece, 0)
    ensures s[..from] + piece == s[..to]
  {
    forall k | 0 < k < |piece| ensures !BeginsAt(piece, k) {
      if k + |BEGIN| <= |piece| {
        InSlice(s, from, to, k);
      }
    }
    if BeginsAt(s, from) && from < to {
      if to < from + |BEGIN| {
        NoOverlap(s, from, to);
      }
      InSlice(s, from, to, 0);
    }
  }

  // The first piece of a split reaches up to the next occurrence, if there is one.
  lemma FirstPiece(chain: string, pieces: seq<string>)
    requires IsSplit(chain, pieces) && chain != ""
    ensures pieces[0] <= chain
    ensures FindBegin(chain, 1) == if |pieces| == 1 then None else Some(|pieces[0]|)
    ensures chain[|pieces[0]|..] == Flatten(pieces[1..])
  {
    var n := |pieces[0]|;
    var rest := Flatten(pieces[1..]);
    assert chain == pieces[0] + rest;
    if |pieces| > 1 {
      assert rest == pieces[1] + Flatten(pieces[2..]) by {
        assert pieces[1..][1..] == pieces[2..];
      }
      assert BeginsAt(pieces[1], 0);
      assert chain[n..n + |BEGIN|] == rest[..|BEGIN|] == pieces[1][..|BEGIN|];
    }
    forall k | 0 < k < n ensures !BeginsAt(chain, k) {
      if BeginsAt(chain, k) {
        if |pieces| > 1 && n < k + |BEGIN| {
          NoOverlap(chain, k, n);
        }
        assert chain[k..k + |BEGIN|] == pieces[0][k..k + |BEGIN|];
        assert BeginsAt(pieces[0], k);
      }
    }
    FindBeginIs(chain, 1, if |pieces| == 1 then None else Some(n));
  }

  lemma FindBeginIs(s: string, from: nat, r: Option<nat>)
    requires r.Some? ==> from <= r.value && BeginsAt(s, r.value) && forall i :: from <= i < r.value ==> !BeginsAt(s, i)
    requires r.None? ==> forall i :: from <= i < |s| ==> !BeginsAt(s, i)
    ensures FindBegin(s, from) == r
  {
  }

  // There is one way to cut a chain, so the split is determined by the text alone.
  lemma {:induction false} SplitUnique(chain: string, p: seq<string>, q: seq<string>)
    requires IsSplit(chain, p) && IsSplit(chain, q) && chain != ""
    ensures p == q
    decreases |p|
  {
    FirstPiece(chain, p);
    FirstPiece(chain, q);
    assert (|p| == 1) == (|q| == 1);
    if |p| > 1 {
      assert p[0] == q[0];
      TailSplit(chain, p);
      TailSplit(chain, q);
      SplitUnique(Flatten(p[1..]), p[1..], q[1..]);
    } else {
      assert p[1..] == [] && q[1..] == [];
      assert p[0] + "" == p[0] && q[0] + "" == q[0];
    }
    assert p == [p[0]] + p[1..] && q == [q[0]] + q[1..];
  }

  // Certificates in PEM: the body has no dash.
  function Pem(body: string): string {
    "-----BEGIN CERTIFICATE-----\n" + (body + "\n-----END CERTIFICATE-----\n")
  }

  function Pems(bodies: seq<string>): (ps: seq<string>)
    ensures |ps| == |bodies| && forall i :: 0 <= i < |bodies| ==> ps[i] == Pem(bodies[i])
  {
    seq(|bodies|, i requires 0 <= i < |bodies| => Pem(bodies[i]))
  }

  // A chain of them is split into just them.
  lemma PemChainSplits(bodies: seq<string>)
    requires bodies != [] && forall i :: 0 <= i < |bodies| ==> '-' !in bodies[i]
    ensures Pieces(Flatten(Pems(bodies))) == Pems(bodies)
  {
    var ps := Pems(bodies);
    forall i | 0 <= i < |ps| ensures BeginsAt(ps[i], 0) && forall k :: 0 < k < |ps[i]| ==> !BeginsAt(ps[i], k) {
      OnePem(bodies[i]);
    }
    assert Flatten(ps) != "" by { assert ps[0] != ""; }
    assert IsSplit(Flatten(ps), ps);
    SplitUnique(Flatten(ps), Pieces(Flatten(ps)), ps);
  }

  lemma OnePem(body: string)
    requires '-' !in body
    ensures BeginsAt(Pem(body), 0) && forall k :: 0 < k < |Pem(body)| ==> !BeginsAt(Pem(body), k)
  {
    var s, n := Pem(body), 28 + |body|;
    PemChars(body);
    assert s[..10] == "-----BEGIN";
    forall k | 0 < k < |s| ensures !BeginsAt(s, k) {
      if BeginsAt(s, k) {
        hide BeginsAt, Pem;
        BeginChar(s, k, 0);
        BeginChar(s, k, 4);
        BeginChar(s, k, 5);
      }
    }
  }

  // Where the dashes are.
  lemma PemChars(body: string)
    requires '-' !in body
    ensures var s, n := Pem(body), 28 + |body|;
            && |s| == n + 27 && s[..10] == "-----BEGIN" && s[27] == '\n' && s[n + 6] == 'E'
            && forall i :: 0 <= i < |s| ==>
                 (s[i] == '-' <==> i < 5 || 22 <= i < 27 || n + 1 <= i < n + 6 || n + 21 <= i < n + 26)
  {
    var s, n, head, tail := Pem(body), 28 + |body|, "-----BEGIN CERTIFICATE-----\n", "\n-----END CERTIFICATE-----\n";
    assert s[..10] == head[..10] == "-----BEGIN";
    HeadDashes(head);
    TailDashes(tail);
    forall i | 0 <= i < |s|
      ensures s[i] == '-' <==> i < 5 || 22 <= i < 27 || n + 1 <= i < n + 6 || n + 21 <= i < n + 26
    {
      assert s[i] == if i < 28 then head[i] else if i < n then body[i - 28] else tail[i - n];
    }
  }

  lemma HeadDashes(head: string)
    requires head == "-----BEGIN CERTIFICATE-----\n"
    ensures |head| == 28 && forall i :: 0 <= i < 28 ==> (head[i] == '-' <==> i < 5 || 22 <= i < 27)
  {
  }

  lemma TailDashes(tail: string)
    requires tail == "\n-----END CERTIFICATE-----\n"
    ensures |tail| == 27 && forall i :: 0 <= i < 27 ==> (tail[i] == '-' <==> 1 <= i < 6 || 21 <= i < 26)
  {
  }

  lemma TailSplit(chain: string, p: seq<string>)
    requires IsSplit(chain, p) && |p| > 1
    ensures IsSplit(Flatten(p[1..]), p[1..]) && Flatten(p[1..]) != ""
  {
    var t := p[1..];
    assert forall i :: 0 <= i < |t| ==> t[i] == p[i + 1];
  }
}
