/**
 The base16 codec of service-provider/hexutil.c.
 */
module HexUtil {
  import opened CText

  type byte = x: int | 0 <= x < 256

  function Encode(bs: seq<byte>): (s: string)
    ensures |s| == 2 * |bs|
  {
    if bs == [] then "" else [HexChar(bs[0] / 16), HexChar(bs[0] % 16)] + Encode(bs[1..])
  }

  function Decode(s: string): (bs: seq<byte>)
    requires AllHex(s) && |s| % 2 == 0
    ensures |bs| == |s| / 2
  {
    if s == "" then [] else [HexValue(s[0]) * 16 + HexValue(s[1])] + Decode(s[2..])
  }

  lemma {:induction false} EncodeIsHex(bs: seq<byte>)
    ensures AllHex(Encode(bs))
  {
    if bs != [] {
      EncodeIsHex(bs[1..]);
    }
  }

  // Two digits for each byte, the upper four bits first.
  lemma {:induction false} EncodeAt(bs: seq<byte>, i: nat)
    requires i < |bs|
    ensures Encode(bs)[2 * i] == "0123456789abcdef"[bs[i] / 16]
    ensures Encode(bs)[2 * i + 1] == "0123456789abcdef"[bs[i] % 16]
  {
    EncodeStep(bs);
    hide Encode;
    if i > 0 {
      EncodeAt(bs[1..], i - 1);
      assert Encode(bs)[2 * i] == Encode(bs[1..])[2 * i - 2] && Encode(bs)[2 * i + 1] == Encode(bs[1..])[2 * i - 1];
    }
  }

  lemma EncodeStep(bs: seq<byte>)
    requires bs != []
    ensures Encode(bs) == ["0123456789abcdef"[bs[0] / 16], "0123456789abcdef"[bs[0] % 16]] + Encode(bs[1..])
  {
  }

  lemma {:induction false} DecodeEncode(bs: seq<byte>)
    ensures AllHex(Encode(bs)) && Decode(Encode(bs)) == bs
  {
    EncodeIsHex(bs);
    if bs != [] {
      DecodeEncode(bs[1..]);
      EncodeFirst(bs);
      hide Encode, HexChar, HexValue;
      assert bs == [bs[0]] + bs[1..];
    }
  }

  lemma EncodeFirst(bs: seq<byte>)
    requires bs != []
    ensures var s := Encode(bs);
            && s[2..] == Encode(bs[1..]) && IsHex(s[0]) && IsHex(s[1]) && HexValue(s[0]) * 16 + HexValue(s[1]) == bs[0]
  {
    hide HexChar, HexValue, IsHex;
  }

  lemma {:induction false} EncodeDecode(s: string)
    requires AllHex(s) && |s| % 2 == 0
    ensures Encode(Decode(s)) == Lower(s)
  {
    if s == "" {
      assert Lower(s) == "";
    } else {
      assert AllHex(s[2..]);
      DecodeFirst(s);
      EncodeDecode(s[2..]);
      EncodeOne(s[0], s[1]);
      LowerFirst(s);
      hide Decode, Encode, HexValue, AllHex, Lower;
      EncodeConcat([HexValue(s[0]) * 16 + HexValue(s[1])], Decode(s[2..]));
    }
  }

  lemma DecodeFirst(s: string)
    requires AllHex(s) && |s| % 2 == 0 && s != ""
    ensures AllHex(s[2..]) && Decode(s) == [HexValue(s[0]) * 16 + HexValue(s[1])] + Decode(s[2..])
  {
    hide HexValue;
  }

  lemma LowerFirst(s: string)
    requires |s| >= 2
    ensures Lower(s) == [ToLower(s[0]), ToLower(s[1])] + Lower(s[2..])
  {
  }

  lemma DigitCase(c: char)
    requires IsHex(c)
    ensures HexChar(HexValue(c)) == ToLower(c)
  {
  }

  lemma EncodeEmpty()
    ensures Encode([]) == ""
  {
  }

  lemma EncodeSingle(b: byte)
    ensures Encode([b]) == [HexChar(b / 16), HexChar(b % 16)]
  {
    hide HexChar;
    assert Encode([b][1..]) == "";
  }

  lemma EncodeOne(hi: char, lo: char)
    requires IsHex(hi) && IsHex(lo)
    ensures Encode([HexValue(hi) * 16 + HexValue(lo)]) == [ToLower(hi), ToLower(lo)]
  {
    hide *;
    DigitCase(hi);
    DigitCase(lo);
    var h, l := HexValue(hi), HexValue(lo);
    Nibbles(h, l);
    EncodeSingle(h * 16 + l);
  }

  lemma Nibbles(h: nat, l: nat)
    requires h < 16 && l < 16
    ensures (h * 16 + l) / 16 == h && (h * 16 + l) % 16 == l && h * 16 + l < 256
  {
  }

  lemma {:induction false} EncodeConcat(a: seq<byte>, b: seq<byte>)
    ensures Encode(a + b) == Encode(a) + Encode(b)
  {
    if a == [] {
      assert a + b == b;
    } else {
      assert (a + b)[1..] == a[1..] + b;
      EncodeConcat(a[1..], b);
    }
  }

  lemma EncodePush(bs: seq<byte>, b: byte)
    ensures Encode(bs + [b]) == Encode(bs) + [HexChar(b / 16), HexChar(b % 16)]
  {
    EncodeConcat(bs, [b]);
    EncodeSingle(b);
  }

  // The least multiple of 1024 that is not below bsz.
  function WholeBlocks(bsz: nat): (n: nat)
    ensures bsz <= n < bsz + 1024 && n % 1024 == 0
  {
    1024 * (bsz / 1024) + if bsz % 1024 != 0 then 1024 else 0
  }

  // The static buffer hexstring returns a pointer to.
  class HexBuffer {
    var buffer: array<char>
    var size: nat

    ghost predicate Valid()
      reads this
    {
      buffer.Length == size
    }

    constructor ()
      ensures Valid() && size == 0 && fresh(buffer)
    {
      buffer := new char[0];
      size := 0;
    }

    // hexstring(src, len): the text up to the NUL is the encoding of src.
    method Hexstring(src: seq<byte>)
      requires Valid()
      modifies this, buffer
      ensures Valid() && (buffer == old(buffer) || fresh(buffer))
      ensures size > 2 * |src| && buffer[..2 * |src|] == Encode(src) && buffer[2 * |src|] == '\0'
      ensures size >= old(size) && (size != old(size) ==> size % 1024 == 0)
    {
      hide Encode, HexChar, WholeBlocks, IsHex, IsDigit, HexValue;
      var bsz := |src| * 2 + 1;
      if bsz >= size {
        var newsz := WholeBlocks(bsz);
        size := newsz;
        buffer := new char[newsz];
      }
      assert src[..0] == [] && Encode([]) == "" by { EncodeEmpty(); }
      for i := 0 to |src|
        invariant Valid() && size >= bsz
        invariant buffer == old(buffer) || fresh(buffer)
        invariant buffer[..2 * i] == Encode(src[..i])
        invariant size >= old(size) && (size != old(size) ==> size % 1024 == 0)
      {
        ghost var before := buffer[..2 * i];
        EncodePush(src[..i], src[i]);
        var hi, lo := HexChar(src[i] / 16), HexChar(src[i] % 16);
        assert src[..i + 1] == src[..i] + [src[i]];
        buffer[2 * i] := hi;
        buffer[2 * i + 1] := lo;
        assert buffer[..2 * i] == before;
        assert buffer[..2 * i + 2] == before + [hi, lo];
      }
      assert src[..|src|] == src;
      buffer[|src| * 2] := '\0';
    }
  }

  // A character at which sscanf("%2x") converts nothing.
  predicate Unreadable(c: char) {
    !IsHex(c) && !IsSpace(c) && c != '+' && c != '-' && c != '\0'
  }

  // The bytes of the digit pairs of s up to one of which sscanf reads nothing; None where it reads
  // something other than two digits.
  function Scanned(s: string): (r: Option<seq<byte>>)
    ensures r.Some? ==> 2 * |r.value| <= |s|
  {
    if |s| < 2 then Some([])
    else if IsHex(s[0]) && IsHex(s[1]) then Before(HexValue(s[0]) * 16 + HexValue(s[1]), Scanned(s[2..]))
    else if Unreadable(s[0]) then Some([])
    else None
  }

  function Before(b: byte, rest: Option<seq<byte>>): Option<seq<byte>> {
    match rest case Some(bs) => Some([b] + bs) case None => None
  }

  lemma {:induction false} ScannedHex(s: string)
    requires AllHex(s) && |s| % 2 == 0
    ensures Scanned(s) == Some(Decode(s))
  {
    if s != "" {
      ScannedHex(s[2..]);
    }
  }

  // Digit pairs are read up to one that starts with a character at which sscanf converts nothing. Where
  // one of any other characters comes first, what is read is not modelled.
  lemma {:induction false} ScannedExactly(digits: string, rest: string)
    requires AllHex(digits) && |digits| % 2 == 0 && (|rest| >= 2 ==> !IsHex(rest[0]) || !IsHex(rest[1]))
    ensures Scanned(digits + rest) ==
            if |rest| < 2 || (!IsHex(rest[0]) && !IsSpace(rest[0]) && rest[0] !in "+-\0") then Some(Decode(digits))
            else None
  {
    if digits == "" {
      assert digits + rest == rest;
    } else {
      assert (digits + rest)[2..] == digits[2..] + rest;
      ScannedExactly(digits[2..], rest);
    }
  }

  // from_hexstring: dest receives the bytes read, up to the first pair of which nothing is read.
  method FromHexstring(dest: array<byte>, src: string, len: nat) returns (ok: bool)
    requires len <= dest.Length && 2 * len <= |src|
    modifies dest
    ensures dest[len..] == old(dest[len..])
    ensures match Scanned(src[..2 * len])
            case Some(front) =>
              && ok == (|front| == len) && dest[..|front|] == front && dest[|front|..] == old(dest[|front|..])
            case None => true
  {
    ghost var all := Scanned(src[..2 * len]);
    ghost var done: seq<byte> := [];
    ghost var rest := src[..2 * len];
    NothingRead(all);
    hide HexValue, IsHex, IsSpace, Scanned, Unreadable, AfterBytes;
    for i := 0 to len
      invariant |done| == i && |rest| == 2 * (len - i)
      invariant forall k :: 0 <= k < |rest| ==> rest[k] == src[2 * i + k]
      invariant all == AfterBytes(done, Scanned(rest))
      invariant dest[..i] == done
      invariant forall k :: i <= k < dest.Length ==> dest[k] == old(dest[k])
    {
      var hi, lo := src[2 * i], src[2 * i + 1];
      assert rest[0] == hi && rest[1] == lo;
      ScannedStep(done, rest);
      if !IsHex(hi) || !IsHex(lo) {
        return false;
      }
      var b := HexValue(hi) * 16 + HexValue(lo);
      rest := rest[2..];
      done := done + [b];
      dest[i] := b;
      assert dest[..i + 1] == dest[..i] + [b];
    }
    ScannedEnd(done, rest);
    ok := true;
  }

  // What has been read and what is still to be.
  ghost function AfterBytes(done: seq<byte>, rest: Option<seq<byte>>): Option<seq<byte>> {
    match rest case Some(bs) => Some(done + bs) case None => None
  }

  lemma NothingRead(rest: Option<seq<byte>>)
    ensures AfterBytes([], rest) == rest
  {
    assert rest.Some? ==> [] + rest.value == rest.value;
  }

  lemma ScannedStep(done: seq<byte>, s: string)
    requires |s| >= 2
    ensures AfterBytes(done, Scanned(s)) ==
            if IsHex(s[0]) && IsHex(s[1]) then
              AfterBytes(done + [HexValue(s[0]) * 16 + HexValue(s[1])], Scanned(s[2..]))
            else if Unreadable(s[0]) then Some(done)
            else None
  {
    hide HexValue, IsHex, Unreadable;
    if IsHex(s[0]) && IsHex(s[1]) {
      OneByteMore(done, HexValue(s[0]) * 16 + HexValue(s[1]), Scanned(s[2..]));
    } else {
      assert done + [] == done;
    }
  }

  lemma OneByteMore(done: seq<byte>, b: byte, rest: Option<seq<byte>>)
    ensures AfterBytes(done, Before(b, rest)) == AfterBytes(done + [b], rest)
  {
    if rest.Some? {
      assert done + ([b] + rest.value) == (done + [b]) + rest.value;
    }
  }

  lemma ScannedEnd(done: seq<byte>, rest: string)
    requires rest == ""
    ensures AfterBytes(done, Scanned(rest)) == Some(done)
  {
    assert done + [] == done;
  }
}
