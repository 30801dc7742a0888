/**
 The case of letters: field names and the word chunked may be written in any.
 */
module HttpCases {
  import opened CText
  import opened HttpFramings
  import opened HttpGrammar
  import opened HttpMessage
  import opened HttpParser
  import opened HttpTheorems

  // The same field with the letters of its name, and of its value where that is the word chunked, in
  // other cases.
  predicate Recased(f: Field, g: Field) {
    && SameLetters(f.name, g.name) && f.folds == g.folds
    && (f.value == g.value || (f.folds == [] && SameLetters(f.value, "chunked") && SameLetters(g.value, "chunked")))
  }

  predicate AllRecased(fs: seq<Field>, gs: seq<Field>) {
    |fs| == |gs| && forall i :: 0 <= i < |fs| ==> Recased(fs[i], gs[i])
  }

  // Two texts in different cases are equal to the same ones.
  lemma SameName(a: string, b: string, name: string)
    requires SameLetters(a, b)
    ensures EqualNoCase(a, name) <==> EqualNoCase(b, name)
  {
    EqualNoCaseExactly(a, b);
  }

  lemma SameTokens(a: string, b: string)
    requires SameLetters(a, b)
    ensures (forall i :: 0 <= i < |a| ==> IsToken(a[i])) ==> forall i :: 0 <= i < |b| ==> IsToken(b[i])
  {
    forall i | 0 <= i < |b| && IsToken(a[i]) ensures IsToken(b[i]) {
      SameToken(a[i], b[i]);
    }
  }

  lemma SameToken(a: char, b: char)
    requires SameLetter(a, b) && IsToken(a)
    ensures IsToken(b)
  {
    if a != b {
      LetterIsToken(b);
    }
  }

  lemma LetterIsToken(c: char)
    requires IsAlpha(c)
    ensures IsToken(c)
  {
  }

  // The word chunked, in any case of letters, holds no control character and no length.
  lemma ChunkedWord(v: string)
    requires SameLetters(v, "chunked")
    ensures NoControl(v) && LengthOf(v) == 0
    ensures EqualNoCase(v, "chunked") && !EqualNoCase(v, "Keep-Alive")
  {
    EqualNoCaseExactly(v, "chunked");
    EqualNoCaseExactly(v, "Keep-Alive");
    assert |v| == 7 && |"Keep-Alive"| == 10;
    forall i | 0 <= i < |v| ensures IsAlpha(v[i]) && !IsControl(v[i]) {
      assert IsAlpha("chunked"[i]);
    }
    hide LengthOf, EqualNoCase, IsControl;
    assert IsAlpha(v[0]);
    NoLength(v);
  }

  // What a line of a recased field is, where the field is not folded.
  lemma RecasedKinds(f: Field, g: Field)
    requires Recased(f, g)
    ensures IsContentLength(HeaderOf(f)) <==> IsContentLength(HeaderOf(g))
    ensures IsContentLength(HeaderOf(f)) ==> LengthOf(HeaderOf(f).value) == LengthOf(HeaderOf(g).value)
    ensures SaysChunked(f) <==> SaysChunked(g)
  {
    SameName(f.name, g.name, "Content-Length");
    SameName(f.name, g.name, "Transfer-Encoding");
    hide EqualNoCase, LengthOf, SameLetters;
    if f.value == g.value {
      LinesRecased(f.value, f.name, g.name, f.folds);
    } else {
      ChunkedWord(f.value);
      ChunkedWord(g.value);
      assert f.value + Texts([]) == f.value && g.value + Texts([]) == g.value;
      OneLine(f);
      OneLine(g);
    }
  }

  lemma OneLine(f: Field)
    requires f.folds == []
    ensures SaysChunked(f) <==> IsChunkedEncoding(Header(f.name, f.value))
  {
    hide IsChunkedEncoding;
    var h := Header(f.name, f.value);
    assert LineValues(h, f.folds) == [h] && h in [h];
  }

  // The lines of a field under two names.
  lemma {:induction false} LineUnder(value: string, name: string, name': string, folds: seq<Fold>, v: string)
    ensures Header(name, v) in LineValues(Header(name, value), folds) ==>
              Header(name', v) in LineValues(Header(name', value), folds)
    decreases folds
  {
    if folds != [] {
      LineUnder(value + folds[0].text, name, name', folds[1..], v);
    }
  }

  lemma LinesRecased(value: string, name: string, name': string, folds: seq<Fold>)
    requires EqualNoCase(name, "Transfer-Encoding") <==> EqualNoCase(name', "Transfer-Encoding")
    ensures SaysChunked(Field(name, value, folds)) <==> SaysChunked(Field(name', value, folds))
  {
    SomeLineChunked(value, name, name', folds);
    SomeLineChunked(value, name', name, folds);
  }

  lemma SomeLineChunked(value: string, name: string, name': string, folds: seq<Fold>)
    requires EqualNoCase(name, "Transfer-Encoding") <==> EqualNoCase(name', "Transfer-Encoding")
    ensures SaysChunked(Field(name, value, folds)) ==> SaysChunked(Field(name', value, folds))
  {
    hide EqualNoCase;
    if SaysChunked(Field(name, value, folds)) {
      var h :| h in LineValues(Header(name, value), folds) && IsChunkedEncoding(h);
      LineValuesName(Header(name, value), folds, h);
      assert h == Header(name, h.value);
      LineUnder(value, name, name', folds, h.value);
      assert IsChunkedEncoding(Header(name', h.value));
    }
  }

  lemma LinesFit(value: string, name: string, name': string, folds: seq<Fold>)
    requires forall h :: h in LineValues(Header(name, value), folds) ==> LengthOf(h.value) <= LONG_MAX
    ensures forall h :: h in LineValues(Header(name', value), folds) ==> LengthOf(h.value) <= LONG_MAX
  {
    hide LengthOf;
    forall h | h in LineValues(Header(name', value), folds) ensures LengthOf(h.value) <= LONG_MAX {
      LineValuesName(Header(name', value), folds, h);
      LineUnder(value, name', name, folds, h.value);
      hide LineValues;
      assert h == Header(name', h.value);
    }
  }

  lemma RecasedLegal(f: Field, g: Field)
    requires Recased(f, g) && LegalField(f)
    ensures LegalField(g)
  {
    SameTokens(f.name, g.name);
    hide LegalField, IsToken, SameLetters;
    if f.value == g.value {
      RecasedNameLegal(f, g);
    } else {
      ChunkedWord(g.value);
      WordLegal(f, g);
    }
  }

  lemma RecasedNameLegal(f: Field, g: Field)
    requires Recased(f, g) && LegalField(f) && f.value == g.value
    requires forall i :: 0 <= i < |g.name| ==> IsToken(g.name[i])
    ensures LegalField(g)
  {
    RecasedKinds(f, g);
    hide IsContentLength, HeaderOf, LengthOf, IsToken, SaysChunked, LegalFold, LineValues, NoControl;
    assert f.name != "" && |f.name| == |g.name|;
    hide SameLetters;
    if IsContentLength(HeaderOf(g)) {
      LinesFit(f.value, f.name, g.name, f.folds);
    }
  }

  // The word chunked under any name.
  lemma WordLegal(f: Field, g: Field)
    requires LegalField(f) && |g.name| == |f.name| && forall i :: 0 <= i < |g.name| ==> IsToken(g.name[i])
    requires g.folds == [] && NoControl(g.value) && LengthOf(g.value) == 0
    ensures LegalField(g)
  {
    assert f.name != "";
    hide IsContentLength, HeaderOf, LengthOf, IsToken, LegalFold, NoControl;
    assert LineValues(Header(g.name, g.value), g.folds) == [Header(g.name, g.value)];
  }

  lemma {:induction false} RecasedLength(fs: seq<Field>, gs: seq<Field>)
    requires AllRecased(fs, gs)
    ensures DeclaredLength(HeadersOf(fs)) == DeclaredLength(HeadersOf(gs))
    decreases fs
  {
    if fs != [] {
      hide Recased, IsContentLength, LengthOf, HeaderOf, SaysChunked;
      var k := |fs| - 1;
      RecasedKinds(fs[k], gs[k]);
      RecasedLength(fs[..k], gs[..k]);
      assert HeadersOf(fs)[..k] == HeadersOf(fs[..k]) && HeadersOf(gs)[..k] == HeadersOf(gs[..k]);
    } else {
      assert HeadersOf(fs) == [] == HeadersOf(gs);
    }
  }

  lemma RecasedChunked(fs: seq<Field>, gs: seq<Field>)
    requires AllRecased(fs, gs)
    ensures (exists i :: 0 <= i < |fs| && SaysChunked(fs[i])) <==> exists i :: 0 <= i < |gs| && SaysChunked(gs[i])
  {
    hide Recased, SaysChunked;
    forall i | 0 <= i < |fs| ensures SaysChunked(fs[i]) <==> SaysChunked(gs[i]) {
      RecasedKinds(fs[i], gs[i]);
    }
  }

  lemma RecasedBody(fs: seq<Field>, gs: seq<Field>, b: Body)
    requires AllRecased(fs, gs) && LegalBody(fs, b)
    ensures LegalBody(gs, b)
  {
    RecasedLength(fs, gs);
    RecasedChunked(fs, gs);
    hide AllRecased, SaysChunked, DeclaredLength, LegalChunk, LegalTrailer, LegalExtension, AllAlnum, StrtolHex,
      HeadersOf;
  }

  // One field as the first.
  lemma FirstHeader(fs: seq<Field>)
    requires fs != []
    ensures Connection(HeadersOf(fs)) ==
            if EqualNoCase(HeaderOf(fs[0]).name, "Connection") then Some(HeaderOf(fs[0]).value)
            else Connection(HeadersOf(fs[1..]))
  {
    hide EqualNoCase, HeaderOf;
    assert HeadersOf(fs)[0] == HeaderOf(fs[0]) && HeadersOf(fs)[1..] == HeadersOf(fs[1..]);
  }

  lemma SameKept(f: Field, g: Field)
    requires Recased(f, g)
    ensures EqualNoCase(HeaderOf(f).name, "Connection") <==> EqualNoCase(HeaderOf(g).name, "Connection")
    ensures EqualNoCase(HeaderOf(f).value, "Keep-Alive") <==> EqualNoCase(HeaderOf(g).value, "Keep-Alive")
  {
    SameName(f.name, g.name, "Connection");
    hide EqualNoCase, SameLetters;
    if f.value != g.value {
      ChunkedWord(f.value);
      ChunkedWord(g.value);
      assert f.value + Texts([]) == f.value && g.value + Texts([]) == g.value;
    }
  }

  lemma {:induction false} RecasedConnection(fs: seq<Field>, gs: seq<Field>)
    requires AllRecased(fs, gs)
    ensures var c, d := Connection(HeadersOf(fs)), Connection(HeadersOf(gs));
            && (c.Some? <==> d.Some?)
            && (c.Some? ==> (EqualNoCase(c.value, "Keep-Alive") <==> EqualNoCase(d.value, "Keep-Alive")))
    decreases fs
  {
    if fs != [] {
      hide EqualNoCase, HeaderOf, HeadersOf, Connection, Recased;
      SameKept(fs[0], gs[0]);
      FirstHeader(fs);
      FirstHeader(gs);
      RecasedConnection(fs[1..], gs[1..]);
    } else {
      assert HeadersOf(fs) == [] == HeadersOf(gs);
    }
  }

  // A text in which the letters of field names, and of the word chunked, are written in other cases is
  // completed on its last byte like the text itself, with the same code, content and persistence. Only
  // the headers differ, and as the fields do.
  lemma CaseIndependence(t: Text, fs: seq<Field>)
    requires WellFormed(t) && AllRecased(t.fields, fs)
    ensures var u := t.(fields := fs);
            && WellFormed(u) && ReadAs(u) == ReadAs(t).(headers := HeadersOf(fs))
            && Finishes(INIT, Written(t), ReadAs(t)) && Finishes(INIT, Written(u), ReadAs(u))
  {
    var u := t.(fields := fs);
    RecasedBody(t.fields, fs, t.body);
    RecasedConnection(t.fields, fs);
    forall i | 0 <= i < |fs| ensures LegalField(fs[i]) {
      RecasedLegal(t.fields[i], fs[i]);
    }
    hide Recased, LegalField, LegalBody, LegalReason, IsNumber, EqualNoCase, Written, Finishes, HeadersOf, VersionOf,
      CodeOf, Connection, AllRecased;
    TextCompletes(t);
    TextCompletes(u);
  }
}
