/**
 The two ways of sending one body: with a Content-Length, or in chunks.
 */
module HttpFramings {
  import opened CText
  import opened HttpParser
  import opened HttpTheorems
  import opened HttpMessage
  import opened HttpRoundTrip

  // The chunks that carry the given pieces, without extensions.
  function Cut(pieces: seq<string>): (cs: seq<Chunk>)
    ensures |cs| == |pieces|
  {
    seq(|pieces|, i requires 0 <= i < |pieces| => Chunk(HexNumeral(|pieces[i]|), "", pieces[i]))
  }

  // However a body is cut into non-empty pieces, the pieces can be sent as chunks.
  lemma {:induction false} CutIsLegal(pieces: seq<string>)
    requires forall i :: 0 <= i < |pieces| ==> pieces[i] != ""
    requires |Flatten(pieces)| <= LONG_MAX
    ensures forall i :: 0 <= i < |pieces| ==> LegalChunk(Cut(pieces)[i])
    ensures Datas(Cut(pieces)) == Flatten(pieces)
  {
    hide StrtolHex, HexNumeral;
    if pieces != [] {
      CutIsLegal(pieces[1..]);
      StrtolHexOfNumeral(|pieces[0]|);
      var cs := Cut(pieces);
      assert cs[1..] == Cut(pieces[1..]);
      forall i | 0 <= i < |pieces| ensures LegalChunk(cs[i]) {
        if i > 0 {
          assert cs[i] == cs[1..][i - 1];
        }
      }
    }
  }

  // Fields that leave the framing of the body open.
  predicate LeaveOpen(fields: seq<Field>) {
    forall i :: 0 <= i < |fields| ==>
      LegalField(fields[i]) && !IsContentLength(HeaderOf(fields[i])) && !SaysChunked(fields[i])
  }

  function LengthField(n: nat): Field {
    Field("Content-Length", Decimal(n), [])
  }

  const CHUNKED_FIELD := Field("Transfer-Encoding", "chunked", [])

  // A field on one line.
  lemma PlainField(name: string, value: string)
    requires LegalHeader(Header(name, value)) && LengthOf(value) <= LONG_MAX
    ensures var f := Field(name, value, []);
            LegalField(f) && HeaderOf(f) == Header(name, value)
              && (SaysChunked(f) <==> IsChunkedEncoding(Header(name, value)))
  {
    hide LegalHeader, LengthOf, IsContentLength, IsChunkedEncoding;
    var f := Field(name, value, []);
    var h := Header(name, value);
    assert Texts(f.folds) == "" && value + "" == value;
    assert LineValues(h, f.folds) == [h];
    assert h in [h];
  }

  lemma NamesLegal()
    ensures forall i :: 0 <= i < |"Content-Length"| ==> IsToken("Content-Length"[i])
    ensures forall i :: 0 <= i < |"Transfer-Encoding"| ==> IsToken("Transfer-Encoding"[i])
    ensures NoControl("chunked")
  {
  }

  lemma NamesDiffer(v: string)
    ensures IsContentLength(Header("Content-Length", v)) && !IsChunkedEncoding(Header("Content-Length", v))
    ensures !IsContentLength(Header("Transfer-Encoding", v))
  {
    assert |Lower("Transfer-Encoding")| != |Lower("Content-Length")|;
  }

  lemma DecimalLength(n: nat)
    requires n <= INT_MAX
    ensures LengthOf(Decimal(n)) == n && NoControl(Decimal(n))
  {
    hide Decimal, SignedPrefix;
    SignedPrefixOfDecimal(n);
    assert ToDecimal(n) == Decimal(n);
    assert forall i :: 0 <= i < |Decimal(n)| ==> IsDigit(Decimal(n)[i]);
  }

  lemma LengthFieldLegal(n: nat)
    requires n <= INT_MAX
    ensures var f := LengthField(n);
            LegalField(f) && IsContentLength(HeaderOf(f)) && LengthOf(HeaderOf(f).value) == n && !SaysChunked(f)
  {
    hide Decimal, LengthOf, IsContentLength, IsChunkedEncoding, LegalField, SaysChunked, HeaderOf, IsToken, NoControl;
    NamesLegal();
    DecimalLength(n);
    NamesDiffer(Decimal(n));
    PlainField("Content-Length", Decimal(n));
  }

  // A text that starts with neither space, sign nor digit has no length to convert.
  lemma NoLength(v: string)
    requires v != "" && !IsSpace(v[0]) && v[0] != '+' && v[0] != '-' && !IsDigit(v[0])
    ensures LengthOf(v) == 0
  {
    assert SkipSpace(v) == v && DigitPrefix(v) == "";
    assert SignedPrefix(v) == None;
  }

  lemma ChunkedFieldLegal()
    ensures LegalField(CHUNKED_FIELD) && !IsContentLength(HeaderOf(CHUNKED_FIELD)) && SaysChunked(CHUNKED_FIELD)
  {
    NoLength("chunked");
    hide LengthOf, IsContentLength, LegalField, SaysChunked, HeaderOf, IsToken, NoControl;
    NamesLegal();
    NamesDiffer("chunked");
    PlainField("Transfer-Encoding", "chunked");
  }

  lemma Pushed(fields: seq<Field>, f: Field)
    ensures HeadersOf(fields + [f]) == HeadersOf(fields) + [HeaderOf(f)]
    ensures DeclaredLength(HeadersOf(fields + [f])) ==
            if IsContentLength(HeaderOf(f)) then LengthOf(HeaderOf(f).value) else DeclaredLength(HeadersOf(fields))
  {
    hide IsContentLength, LengthOf, HeaderOf;
    var hs := HeadersOf(fields) + [HeaderOf(f)];
    assert HeadersOf(fields + [f]) == hs;
    assert hs[..|hs| - 1] == HeadersOf(fields);
  }

  // Sent with its length or in any legal chunks, with whatever extensions and trailers, the same
  // body is read as the same content, under the same headers but for the one that frames it.
  lemma BothFramings(m: Message, fields: seq<Field>, chunks: seq<Chunk>, size: string, extension: string,
                     trailers: seq<Trailer>)
    requires m.major <= INT_MAX && m.minor <= INT_MAX && 100 <= m.code <= 999
    requires LegalReason(m.reason) && m.reason != "" && LeaveOpen(fields)
    requires (forall i :: 0 <= i < |chunks| ==> LegalChunk(chunks[i])) && |Datas(chunks)| <= INT_MAX
    requires AllAlnum(size) && StrtolHex(size) == 0 && LegalExtension(extension)
    requires forall i :: 0 <= i < |trailers| ==> LegalTrailer(trailers[i])
    ensures var data := Datas(chunks);
            var sized := m.(fields := fields + [LengthField(|data|)], body := Sized(data));
            var cut := m.(fields := fields + [CHUNKED_FIELD], body := Chunked(chunks, size, extension, trailers));
            && Finishes(INIT, Printed(sized), Meaning(sized)) && Finishes(INIT, Printed(cut), Meaning(cut))
            && Meaning(sized).content == data == Meaning(cut).content
            && Meaning(sized).headers[..|fields|] == HeadersOf(fields) == Meaning(cut).headers[..|fields|]
  {
    hide Finishes, Legal, Meaning, Printed, LegalReason, LeaveOpen, AllAlnum, StrtolHex, LegalExtension, LegalChunk,
      LegalTrailer;
    var data := Datas(chunks);
    var sized := m.(fields := fields + [LengthField(|data|)], body := Sized(data));
    var cut := m.(fields := fields + [CHUNKED_FIELD], body := Chunked(chunks, size, extension, trailers));
    SizedLegal(m, fields, data);
    ChunkedLegal(m, fields, cut.body);
    RoundTrip(sized);
    RoundTrip(cut);
    Headers(sized, fields, LengthField(|data|));
    Headers(cut, fields, CHUNKED_FIELD);
  }

  lemma Headers(m: Message, fields: seq<Field>, f: Field)
    requires m.fields == fields + [f]
    ensures Meaning(m).content == ContentOf(m.body)
    ensures |HeadersOf(fields)| <= |Meaning(m).headers| && Meaning(m).headers[..|fields|] == HeadersOf(fields)
  {
    hide KeepAlive, HeaderOf;
    assert HeadersOf(m.fields)[..|fields|] == HeadersOf(fields);
  }

  lemma SizedLegal(m: Message, fields: seq<Field>, data: string)
    requires m.major <= INT_MAX && m.minor <= INT_MAX && 100 <= m.code <= 999 && LegalReason(m.reason)
    requires LeaveOpen(fields) && |data| <= INT_MAX
    ensures Legal(m.(fields := fields + [LengthField(|data|)], body := Sized(data)))
  {
    hide LegalReason, LegalField, SaysChunked, IsContentLength, LengthOf, DeclaredLength, HeadersOf, LengthField;
    LengthFieldLegal(|data|);
    Pushed(fields, LengthField(|data|));
  }

  lemma ChunkedLegal(m: Message, fields: seq<Field>, b: Body)
    requires m.major <= INT_MAX && m.minor <= INT_MAX && 100 <= m.code <= 999 && LegalReason(m.reason)
    requires LeaveOpen(fields) && b.Chunked?
    requires (forall i :: 0 <= i < |b.chunks| ==> LegalChunk(b.chunks[i])) && |Datas(b.chunks)| <= LONG_MAX
    requires AllAlnum(b.lastSize) && StrtolHex(b.lastSize) == 0 && LegalExtension(b.lastExtension)
    requires forall i :: 0 <= i < |b.trailers| ==> LegalTrailer(b.trailers[i])
    ensures Legal(m.(fields := fields + [CHUNKED_FIELD], body := b))
  {
    hide LegalReason, LegalField, SaysChunked, IsContentLength, AllAlnum, StrtolHex, LegalExtension, LegalChunk,
      LegalTrailer, HeaderOf, Datas;
    ChunkedFieldLegal();
    var all := fields + [CHUNKED_FIELD];
    assert all[|fields|] == CHUNKED_FIELD && SaysChunked(all[|fields|]);
  }
}
