/**
 Taking apart what the parser has completed on.

 Each lemma starts from a state and a text that completes from there, gives the next part of the text by
 name, and says from where the rest completes. HttpGrammar puts the parts together.
 */
module HttpReading {
  import opened CText
  import opened HttpParser
  import opened HttpTheorems
  import opened HttpMessage

  // --- the first byte of a text that completes ----------------------------------------------

  lemma FinishesFirst(m: Machine, s: string, r: Response)
    requires Finishes(m, s, r)
    ensures s != ""
    ensures var (m', v) := Step(m, s[0]);
            if v.ParsingIncompleted? then Finishes(m', s[1..], r)
            else v.ParsingCompleted? && |s| == 1 && m'.resp == r
  {
    hide Step;
  }

  lemma Cons(s: string)
    requires s != ""
    ensures s == [s[0]] + s[1..]
  {
  }

  // --- the status line ------------------------------------------------------------------------

  lemma VersionStartRead(s: string, r: Response) returns (rest: string)
    requires Finishes(INIT, s, r)
    ensures s == "HTTP/" + rest && Finishes(INIT.(state := HttpVersion_majorStart), rest, r)
  {
    hide Finishes;
    FinishesFirst(INIT, s, r);
    FinishesFirst(INIT.(state := HttpVersion_ht), s[1..], r);
    FinishesFirst(INIT.(state := HttpVersion_htt), s[1..][1..], r);
    FinishesFirst(INIT.(state := HttpVersion_http), s[1..][1..][1..], r);
    FinishesFirst(INIT.(state := HttpVersion_slash), s[1..][1..][1..][1..], r);
    rest := s[1..][1..][1..][1..][1..];
    Five(s);
  }

  lemma Five(s: string)
    requires |s| >= 5
    ensures s == [s[0], s[1], s[2], s[3], s[4]] + s[1..][1..][1..][1..][1..]
  {
  }

  // The digits at the front, and what is behind them.
  lemma DigitsFirst(s: string) returns (digits: string, rest: string)
    requires s != "" && IsDigit(s[0])
    ensures IsNumber(digits) && s == digits + rest && (rest != "" ==> !IsDigit(rest[0]))
  {
    digits, rest := DigitPrefix(s), s[|DigitPrefix(s)|..];
  }

  lemma MajorRead(s: string, r: Response) returns (digits: string, rest: string)
    requires Finishes(INIT.(state := HttpVersion_majorStart), s, r)
    ensures IsNumber(digits) && s == digits + ("." + rest)
    ensures Finishes(AtMajor(VersionOf(digits)).(state := HttpVersion_minorStart), rest, r)
  {
    hide Finishes, Leads, VersionOf;
    FinishesFirst(INIT.(state := HttpVersion_majorStart), s, r);
    var tail;
    digits, tail := DigitsFirst(s);
    LeadsMajor(digits);
    FinishesAfter(INIT.(state := HttpVersion_majorStart), digits, AtMajor(VersionOf(digits)), tail, r);
    FinishesFirst(AtMajor(VersionOf(digits)), tail, r);
    rest := tail[1..];
    Cons(tail);
  }

  lemma MinorRead(major: int, s: string, r: Response) returns (digits: string, rest: string)
    requires Finishes(AtMajor(major).(state := HttpVersion_minorStart), s, r)
    ensures IsNumber(digits) && s == digits + (" " + rest)
    ensures Finishes(AtMinor(major, VersionOf(digits)).(state := StatusCodeStart), rest, r)
  {
    hide Finishes, Leads, VersionOf;
    FinishesFirst(AtMajor(major).(state := HttpVersion_minorStart), s, r);
    var tail;
    digits, tail := DigitsFirst(s);
    LeadsMinor(major, digits);
    FinishesAfter(AtMajor(major).(state := HttpVersion_minorStart), digits, AtMinor(major, VersionOf(digits)), tail, r);
    FinishesFirst(AtMinor(major, VersionOf(digits)), tail, r);
    rest := tail[1..];
    Cons(tail);
  }

  lemma CodeRead(major: int, minor: int, s: string, r: Response) returns (digits: string, rest: string)
    requires Finishes(AtMinor(major, minor).(state := StatusCodeStart), s, r)
    ensures IsNumber(digits) && s == digits + (" " + rest) && 100 <= CodeOf(digits) <= 999
    ensures Finishes(AtCode(major, minor, CodeOf(digits)).(state := StatusTextStart), rest, r)
  {
    hide Finishes, Leads, CodeOf;
    FinishesFirst(AtMinor(major, minor).(state := StatusCodeStart), s, r);
    var tail;
    digits, tail := DigitsFirst(s);
    LeadsCode(major, minor, digits);
    var coded := AtCode(major, minor, CodeOf(digits));
    FinishesAfter(AtMinor(major, minor).(state := StatusCodeStart), digits, coded, tail, r);
    FinishesFirst(coded, tail, r);
    rest := tail[1..];
    Cons(tail);
  }

  // The rest of a reason, up to the end of the line.
  lemma {:induction false} ReasonTail(m: Machine, s: string, r: Response) returns (text: string, rest: string)
    requires m.state.StatusText? && Finishes(m, s, r)
    ensures (forall i :: 0 <= i < |text| ==> IsChar(text[i]) && text[i] != '\r') && s == text + ("\r\n" + rest)
    decreases s
  {
    hide Finishes;
    FinishesFirst(m, s, r);
    if s[0] == '\r' {
      FinishesFirst(m.(state := StatusNewLine), s[1..], r);
      text, rest := "", s[2..];
      assert s == "\r\n" + s[2..];
    } else {
      text, rest := ReasonTail(Step(m, s[0]).0, s[1..], r);
      text := [s[0]] + text;
    }
  }

  lemma ReasonRead(m: Machine, s: string, r: Response) returns (reason: string, rest: string)
    requires m.state.StatusTextStart? && Finishes(m, s, r)
    ensures reason != "" && LegalReason(reason) && s == reason + ("\r\n" + rest)
  {
    hide Finishes;
    FinishesFirst(m, s, r);
    var text;
    text, rest := ReasonTail(Step(m, s[0]).0, s[1..], r);
    reason := [s[0]] + text;
  }

  lemma StatusRead(s: string, r: Response)
    returns (major: string, minor: string, code: string, reason: string, rest: string)
    requires Finishes(INIT, s, r)
    ensures IsNumber(major) && IsNumber(minor) && IsNumber(code) && 100 <= CodeOf(code) <= 999
    ensures reason != "" && LegalReason(reason) && s == StatusLine(major, minor, code, reason) + rest
    ensures Finishes(AtHeaders(VersionOf(major), VersionOf(minor), CodeOf(code), reason), rest, r)
  {
    hide Finishes, Leads, VersionOf, CodeOf, AllDigits, LegalReason, AtMajor, AtMinor, AtCode, AtHeaders;
    var s1 := VersionStartRead(s, r);
    var s2, s3, s4;
    major, s2 := MajorRead(s1, r);
    minor, s3 := MinorRead(VersionOf(major), s2, r);
    code, s4 := CodeRead(VersionOf(major), VersionOf(minor), s3, r);
    var coded := AtCode(VersionOf(major), VersionOf(minor), CodeOf(code));
    reason, rest := ReasonRead(coded.(state := StatusTextStart), s4, r);
    StatusJoin(major, minor, code, reason, rest);
    LeadsStatusLine(major, minor, code, reason);
    FinishesAfter(INIT, StatusLine(major, minor, code, reason),
                  AtHeaders(VersionOf(major), VersionOf(minor), CodeOf(code), reason), rest, r);
  }

  lemma StatusJoin(major: string, minor: string, code: string, reason: string, rest: string)
    ensures StatusLine(major, minor, code, reason) + rest ==
            "HTTP/" + (major + ("." + (minor + (" " + (code + (" " + (reason + ("\r\n" + rest))))))))
  {
    var t1, u1 := code + (" " + (reason + "\r\n")), code + (" " + (reason + ("\r\n" + rest)));
    assert t1 + rest == u1;
    var t2, u2 := minor + (" " + t1), minor + (" " + u1);
    assert t2 + rest == u2;
    var t3, u3 := major + ("." + t2), major + ("." + u2);
    assert t3 + rest == u3;
  }

  // --- header fields --------------------------------------------------------------------------

  predicate IsWhite(c: char) {
    c == ' ' || c == '\t'
  }

  lemma {:induction false} NameRead(m: Machine, h: Header, s: string, r: Response) returns (name: string, rest: string)
    requires Finishes(With(m, h, HeaderName), s, r)
    ensures (forall i :: 0 <= i < |name| ==> IsToken(name[i])) && s == name + (":" + rest)
    ensures Finishes(With(m, h.(name := h.name + name), SpaceBeforeHeaderValue), rest, r)
    decreases s
  {
    hide Finishes, WithLast, IsToken;
    FinishesFirst(With(m, h, HeaderName), s, r);
    Cons(s);
    if s[0] == ':' {
      name, rest := "", s[1..];
      assert h.name + "" == h.name;
    } else {
      assert IsToken(s[0]);
      NameStep(m, h, s[0]);
      hide With;
      var h' := h.(name := h.name + [s[0]]);
      name, rest := NameRead(m, h', s[1..], r);
      assert h'.name + name == h.name + ([s[0]] + name);
      name := [s[0]] + name;
    }
  }

  // The end of a line of h.
  lemma LineEndRead(m: Machine, h: Header, s: string, r: Response) returns (rest: string)
    requires Finishes(With(m, h, HeaderValue), s, r) && s != "" && s[0] == '\r'
    ensures s == "\r\n" + rest && (IsContentLength(h) ==> LengthOf(h.value) <= LONG_MAX)
    ensures Finishes(With(Noted(m, h), h, HeaderLineStart), rest, r)
  {
    hide Finishes, IsContentLength, IsChunkedEncoding, LengthOf, WithLast;
    FinishesFirst(With(m, h, HeaderValue), s, r);
    WithLastOf(m, h, h, HeaderValue);
    FinishesFirst(With(Noted(m, h), h, ExpectingNewline_2), s[1..], r);
    rest := s[2..];
    assert s == [s[0]] + ([s[1]] + s[2..]);
  }

  lemma {:induction false} ValueRead(m: Machine, h: Header, s: string, r: Response)
    returns (value: string, rest: string)
    requires Finishes(With(m, h, HeaderValue), s, r)
    ensures NoControl(value) && s == value + ("\r\n" + rest)
    ensures var h' := h.(value := h.value + value);
            && (IsContentLength(h') ==> LengthOf(h'.value) <= LONG_MAX)
            && Finishes(With(Noted(m, h'), h', HeaderLineStart), rest, r)
    decreases s
  {
    hide Finishes, With, Noted, IsContentLength, LengthOf, IsControl;
    FinishesFirst(With(m, h, HeaderValue), s, r);
    Cons(s);
    if s[0] == '\r' {
      value := "";
      rest := LineEndRead(m, h, s, r);
      assert h.value + "" == h.value;
    } else {
      assert !IsControl(s[0]) by { NotControl(m, h, s[0]); }
      ValueStep(m, h, s[0]);
      var h' := h.(value := h.value + [s[0]]);
      value, rest := ValueRead(m, h', s[1..], r);
      assert h'.value + value == h.value + ([s[0]] + value);
      value := [s[0]] + value;
    }
  }

  lemma NotControl(m: Machine, h: Header, c: char)
    requires c != '\r' && !Step(With(m, h, HeaderValue), c).1.ParsingError?
    ensures !IsControl(c)
  {
  }

  lemma {:induction false} WhiteRead(m: Machine, h: Header, s: string, r: Response)
    returns (white: string, rest: string)
    requires Finishes(With(m, h, HeaderLws), s, r)
    ensures (forall i :: 0 <= i < |white| ==> IsWhite(white[i])) && s == white + rest
    ensures rest != "" && !IsWhite(rest[0]) && Finishes(With(m, h, HeaderLws), rest, r)
    decreases s
  {
    hide Finishes;
    FinishesFirst(With(m, h, HeaderLws), s, r);
    if IsWhite(s[0]) {
      Cons(s);
      white, rest := WhiteRead(m, h, s[1..], r);
      white := [s[0]] + white;
    } else {
      white, rest := "", s;
    }
  }

  // A continuation line, if one is there.
  lemma FoldRead(m: Machine, h: Header, s: string, r: Response) returns (f: Fold, rest: string)
    requires Finishes(With(m, h, HeaderLineStart), s, r) && s != "" && IsWhite(s[0])
    requires Noted(m, h) == m && (IsContentLength(h) ==> LengthOf(h.value) <= LONG_MAX)
    ensures LegalFold(f) && s == f.white + (f.text + ("\r\n" + rest))
    ensures var h' := h.(value := h.value + f.text);
            && (IsContentLength(h') ==> LengthOf(h'.value) <= LONG_MAX)
            && Finishes(With(Noted(m, h'), h', HeaderLineStart), rest, r)
  {
    hide Finishes, Noted, LengthOf, IsContentLength, IsControl, WithLast;
    FinishesFirst(With(m, h, HeaderLineStart), s, r);
    assert Step(With(m, h, HeaderLineStart), s[0]) == (With(m, h, HeaderLws), ParsingIncompleted);
    Cons(s);
    var white, tail := WhiteRead(m, h, s[1..], r);
    var text;
    if tail[0] == '\r' {
      text := "";
      rest := EmptyFoldEnd(m, h, tail, r);
      assert h.value + "" == h.value;
    } else {
      text, rest := FoldTextRead(m, h, tail, r);
    }
    f := Fold([s[0]] + white, text);
    assert s == f.white + tail;
  }

  lemma EmptyFoldEnd(m: Machine, h: Header, s: string, r: Response) returns (rest: string)
    requires Finishes(With(m, h, HeaderLws), s, r) && s != "" && s[0] == '\r'
    ensures s == "\r\n" + rest && Finishes(With(m, h, HeaderLineStart), rest, r)
  {
    hide Finishes;
    FinishesFirst(With(m, h, HeaderLws), s, r);
    FinishesFirst(With(m, h, ExpectingNewline_2), s[1..], r);
    rest := s[2..];
    assert s == [s[0]] + ([s[1]] + s[2..]);
  }

  lemma FoldTextRead(m: Machine, h: Header, s: string, r: Response) returns (text: string, rest: string)
    requires Finishes(With(m, h, HeaderLws), s, r) && s != "" && s[0] != '\r' && !IsWhite(s[0])
    ensures text != "" && text[0] != ' ' && NoControl(text) && s == text + ("\r\n" + rest)
    ensures var h' := h.(value := h.value + text);
            && (IsContentLength(h') ==> LengthOf(h'.value) <= LONG_MAX)
            && Finishes(With(Noted(m, h'), h', HeaderLineStart), rest, r)
  {
    hide Finishes, Noted, LengthOf, IsContentLength, IsControl, WithLast;
    FinishesFirst(With(m, h, HeaderLws), s, r);
    assert !IsControl(s[0]);
    ValueStep(m, h, s[0]);
    Cons(s);
    var h1 := h.(value := h.value + [s[0]]);
    text, rest := ValueRead(m, h1, s[1..], r);
    assert h1.value + text == h.value + ([s[0]] + text);
    text := [s[0]] + text;
  }

  lemma {:induction false} FoldsRead(m: Machine, h: Header, s: string, r: Response)
    returns (fs: seq<Fold>, rest: string)
    requires Finishes(With(m, h, HeaderLineStart), s, r)
    requires Noted(m, h) == m && (IsContentLength(h) ==> LengthOf(h.value) <= LONG_MAX)
    ensures (forall i :: 0 <= i < |fs| ==> LegalFold(fs[i])) && s == PrintedFolds(fs) + rest
    ensures IsContentLength(h) ==> forall h' :: h' in LineValues(h, fs) ==> LengthOf(h'.value) <= LONG_MAX
    ensures rest != "" && !IsWhite(rest[0])
    decreases |s|
  {
    hide Finishes, With, LengthOf, EqualNoCase, LegalFold;
    FinishesFirst(With(m, h, HeaderLineStart), s, r);
    if IsWhite(s[0]) {
      var f, tail := FoldRead(m, h, s, r);
      assert |tail| < |s|;
      var h' := h.(value := h.value + f.text);
      var tails;
      tails, rest := FoldsRead(Noted(m, h'), h', tail, r);
      fs := [f] + tails;
      hide Noted;
      FoldsJoin(f, tails, rest);
      assert LineValues(h, fs) == [h] + LineValues(h', tails) by { assert fs[1..] == tails; }
    } else {
      fs, rest := [], s;
    }
  }

  lemma FoldsJoin(f: Fold, fs: seq<Fold>, rest: string)
    ensures PrintedFolds([f] + fs) + rest == f.white + (f.text + ("\r\n" + (PrintedFolds(fs) + rest)))
  {
    var all := [f] + fs;
    assert all[0] == f && all[1..] == fs;
    var white, text, tail := f.white, f.text, PrintedFolds(fs);
    assert (white + (text + ("\r\n" + tail))) + rest == white + (text + ("\r\n" + (tail + rest)));
  }

  // A field with all its lines, at the start of the first.
  lemma FieldRead(m: Machine, s: string, r: Response) returns (f: Field, rest: string)
    requires m.state.HeaderLineStart? && Finishes(m, s, r) && s != "" && s[0] != '\r'
    requires m.resp.headers != [] ==> !IsWhite(s[0])
    ensures LegalField(f) && s == PrintedField(f) + rest && rest != "" && !IsWhite(rest[0])
    ensures Finishes(AfterField(m, f), rest, r)
  {
    hide Finishes, Leads, Noted, NotedAll, AfterField, IsToken, NoControl, LengthOf, EqualNoCase, PrintedFolds, With;
    var name, s1 := NameStart(m, s, r);
    var value, s2 := ValueRead(m, Header(name, ""), s1, r);
    var h := Header(name, value);
    assert "" + value == value;
    NotedOnce(m, h);
    var folds;
    folds, rest := FoldsRead(Noted(m, h), h, s2, r);
    f := Field(name, value, folds);
    NameOfAll(f);
    FieldJoin(f, rest);
    LeadsField(m, f);
    FinishesAfter(m, PrintedField(f), AfterField(m, f), rest, r);
  }

  lemma NotedOnce(m: Machine, h: Header)
    ensures Noted(Noted(m, h), h) == Noted(m, h)
  {
    hide IsContentLength, IsChunkedEncoding, LengthOf;
  }

  // Every line of a field has its name.
  lemma NameOfAll(f: Field)
    ensures IsContentLength(HeaderOf(f)) == IsContentLength(Header(f.name, f.value))
  {
  }

  lemma FieldJoin(f: Field, rest: string)
    ensures PrintedField(f) + rest == f.name + (":" + (" " + (f.value + ("\r\n" + (PrintedFolds(f.folds) + rest)))))
  {
    var v, t := f.value, PrintedFolds(f.folds);
    assert (": " + (v + ("\r\n" + t))) + rest == ":" + (" " + (v + ("\r\n" + (t + rest))));
  }

  // The name of a field, its colon and the space.
  lemma NameStart(m: Machine, s: string, r: Response) returns (name: string, rest: string)
    requires m.state.HeaderLineStart? && Finishes(m, s, r) && s != "" && s[0] != '\r'
    requires m.resp.headers != [] ==> !IsWhite(s[0])
    ensures name != "" && (forall i :: 0 <= i < |name| ==> IsToken(name[i])) && s == name + (":" + (" " + rest))
    ensures Finishes(With(m, Header(name, ""), HeaderValue), rest, r)
  {
    hide Finishes, WithLast, IsToken;
    FinishesFirst(m, s, r);
    assert IsToken(s[0]);
    Cons(s);
    var h := Header([s[0]], "");
    assert Step(m, s[0]) == (With(m, h, HeaderName), ParsingIncompleted);
    var tail, s1 := NameRead(m, h, s[1..], r);
    name := [s[0]] + tail;
    FinishesFirst(With(m, Header(name, ""), SpaceBeforeHeaderValue), s1, r);
    rest := s1[1..];
    Cons(s1);
    assert s == name + (":" + s1);
  }

  // All fields, up to the '\r' of the empty line.
  lemma {:induction false} FieldsRead(m: Machine, s: string, r: Response) returns (fs: seq<Field>, rest: string)
    requires m.state.HeaderLineStart? && Finishes(m, s, r) && (m.resp.headers != [] && s != "" ==> !IsWhite(s[0]))
    ensures (forall i :: 0 <= i < |fs| ==> LegalField(fs[i])) && s == PrintedFields(fs) + ("\r" + rest)
    decreases |s|
  {
    hide Finishes, AfterField, LegalField, PrintedField;
    FinishesFirst(m, s, r);
    if s[0] == '\r' {
      fs, rest := [], s[1..];
      Cons(s);
    } else {
      var f, tail := FieldRead(m, s, r);
      FieldShortens(f);
      AfterFieldState(m, f);
      var fields;
      fields, rest := FieldsRead(AfterField(m, f), tail, r);
      fs := [f] + fields;
      FieldsJoin(f, fields, "\r" + rest);
    }
  }

  lemma FieldShortens(f: Field)
    ensures |PrintedField(f)| > 0
  {
  }

  lemma AfterFieldState(m: Machine, f: Field)
    ensures AfterField(m, f).state.HeaderLineStart? && AfterField(m, f).resp.headers != []
  {
    hide IsContentLength, LengthOf, SaysChunked;
  }

  lemma FieldsJoin(f: Field, fs: seq<Field>, rest: string)
    ensures PrintedFields([f] + fs) + rest == PrintedField(f) + (PrintedFields(fs) + rest)
  {
    hide PrintedField;
    var all := [f] + fs;
    assert all[0] == f && all[1..] == fs;
  }

  // --- chunk extensions -----------------------------------------------------------------------

  // Letters, digits and spaces, with at most one equals sign among them.
  predicate Simple(t: string) {
    t == "" || (t[0] == '=' && IsWords(t[1..])) || (IsWord(t[0]) && Simple(t[1..]))
  }

  lemma {:induction false} SimpleSplits(t: string) returns (k: nat)
    requires Simple(t)
    ensures k <= |t| && IsWords(t[..k]) && (k < |t| ==> t[k] == '=' && IsWords(t[k + 1..]))
    decreases t
  {
    if t == "" || t[0] == '=' {
      k := 0;
    } else {
      var k' := SimpleSplits(t[1..]);
      k := k' + 1;
      assert t[..k] == [t[0]] + t[1..][..k'];
    }
  }

  lemma SimpleLegal(e: string)
    requires e != "" && e[0] == ';' && Simple(e[1..])
    ensures LegalExtension(e)
  {
    hide IsWords;
    var k := SimpleSplits(e[1..]);
    assert e[1..][..k] == e[1..k + 1];
    assert k + 1 < |e| ==> e[1..][k] == e[k + 1] && e[1..][k + 1..] == e[k + 2..];
    assert ExtensionAt(e, k + 1);
  }

  lemma NoExtension()
    ensures LegalExtension("")
  {
  }

  // --- the body -------------------------------------------------------------------------------

  // Words, and what is behind them.
  lemma {:induction false} WordsRead(m: Machine, s: string, r: Response) returns (w: string, rest: string)
    requires SkipsWords(m.state) && Finishes(m, s, r)
    ensures IsWords(w) && s == w + rest && rest != "" && !IsWord(rest[0]) && Finishes(m, rest, r)
    decreases s
  {
    hide Finishes;
    FinishesFirst(m, s, r);
    if IsWord(s[0]) {
      Cons(s);
      WordStep(m, s[0]);
      w, rest := WordsRead(m, s[1..], r);
      w := [s[0]] + w;
    } else {
      w, rest := "", s;
    }
  }

  lemma {:induction false} SizeDigitsRead(m: Machine, s: string, r: Response) returns (size: string, rest: string)
    requires m.state.ChunkSize? && Finishes(m, s, r)
    ensures AllAlnum(size) && s == size + rest && rest != "" && !IsAlnum(rest[0])
    ensures Finishes(m.(chunkSizeStr := m.chunkSizeStr + size), rest, r)
    decreases s
  {
    hide Finishes;
    FinishesFirst(m, s, r);
    if IsAlnum(s[0]) {
      Cons(s);
      var m' := m.(chunkSizeStr := m.chunkSizeStr + [s[0]]);
      size, rest := SizeDigitsRead(m', s[1..], r);
      assert m'.chunkSizeStr + size == m.chunkSizeStr + ([s[0]] + size);
      size := [s[0]] + size;
    } else {
      size, rest := "", s;
      assert m.chunkSizeStr + "" == m.chunkSizeStr;
    }
  }

  // An extension up to the '\r' of its line.
  lemma ExtensionText(m: Machine, s: string, r: Response) returns (e: string, rest: string)
    requires m.state.ChunkSize? && Finishes(m, s, r) && s != "" && !IsAlnum(s[0])
    ensures LegalExtension(e) && s == e + ("\r" + rest) && Finishes(m.(state := ChunkSizeNewLine), rest, r)
  {
    hide Finishes, IsWords, LegalExtension, Simple;
    FinishesFirst(m, s, r);
    Cons(s);
    if s[0] == '\r' {
      NoExtension();
      e, rest := "", s[1..];
    } else {
      var t;
      t, rest := ExtensionNameRead(m.(state := ChunkExtensionName), s[1..], r);
      e := ";" + t;
      assert e[1..] == t;
      SimpleLegal(e);
    }
  }

  lemma ExtensionNameRead(m: Machine, s: string, r: Response) returns (t: string, rest: string)
    requires m.state.ChunkExtensionName? && Finishes(m, s, r)
    ensures Simple(t) && s == t + ("\r" + rest) && Finishes(m.(state := ChunkSizeNewLine), rest, r)
  {
    hide Finishes, IsWords, Simple;
    var w, s1 := WordsRead(m, s, r);
    FinishesFirst(m, s1, r);
    Cons(s1);
    if s1[0] == '\r' {
      t, rest := w, s1[1..];
      NoWords();
      SimpleWords(w, "");
      assert w + "" == w;
    } else {
      var valued := m.(state := ChunkExtensionValue);
      var v, s2 := WordsRead(valued, s1[1..], r);
      FinishesFirst(valued, s2, r);
      Cons(s2);
      t, rest := w + ("=" + v), s2[1..];
      assert s == t + ("\r" + rest);
      SimpleValue(v);
      SimpleWords(w, "=" + v);
    }
  }

  lemma NoWords()
    ensures Simple("")
  {
  }

  lemma SimpleValue(v: string)
    requires IsWords(v)
    ensures Simple("=" + v)
  {
    assert ("=" + v)[1..] == v;
  }

  lemma {:induction false} SimpleWords(w: string, t: string)
    requires IsWords(w) && Simple(t)
    ensures Simple(w + t)
    decreases w
  {
    if w == "" {
      assert w + t == t;
    } else {
      hide IsWord;
      assert IsWord(w[0]);
      SimpleWords(w[1..], t);
      assert (w + t)[1..] == w[1..] + t;
    }
  }

  // The line that announces a chunk.
  lemma SizeLineRead(m: Machine, s: string, r: Response) returns (size: string, e: string, rest: string)
    requires AtChunk(m) && Finishes(m, s, r)
    ensures AllAlnum(size) && LegalExtension(e) && s == size + (e + ("\r\n" + rest))
    ensures |m.resp.content| + StrtolHex(size) <= LONG_MAX && Finishes(Sizing(m, StrtolHex(size)), rest, r)
  {
    hide Finishes, LegalExtension, AllAlnum, StrtolHex;
    var s1, s2;
    size, s1 := SizeDigitsRead(m, s, r);
    assert "" + size == size;
    var sized := m.(chunkSizeStr := size);
    e, s2 := ExtensionText(sized, s1, r);
    FinishesFirst(sized.(state := ChunkSizeNewLine), s2, r);
    Cons(s2);
    rest := s2[1..];
    assert s == size + (e + ("\r\n" + rest));
  }

  // Enough bytes for a chunk that was announced.
  lemma {:induction false} DataLongEnough(m: Machine, s: string, r: Response)
    requires m.state.ChunkData? && m.chunkSize > 0 && Finishes(m, s, r)
    ensures |s| > m.chunkSize
    decreases m.chunkSize
  {
    hide Finishes;
    FinishesFirst(m, s, r);
    var m' := Step(m, s[0]).0;
    if m.chunkSize > 1 {
      DataLongEnough(m', s[1..], r);
    } else {
      FinishesFirst(m', s[1..], r);
    }
  }

  lemma DataRead(m: Machine, n: nat, s: string, r: Response) returns (data: string, rest: string)
    requires AtChunk(m) && n > 0 && Finishes(Sizing(m, n), s, r)
    ensures |data| == n && s == data + ("\r\n" + rest) && Finishes(WithContent(m, data), rest, r)
  {
    hide Finishes, Leads;
    DataLongEnough(Sizing(m, n), s, r);
    data := s[..n];
    var tail := s[n..];
    assert s == data + tail;
    LeadsChunkData(Sizing(m, n), data);
    FinishesAfter(Sizing(m, n), data, WithContent(m, data).(state := ChunkDataNewLine_1, chunkSize := 0), tail, r);
    rest := DataEndRead(WithContent(m, data), tail, r);
  }

  // The line end behind the bytes of a chunk.
  lemma DataEndRead(m: Machine, s: string, r: Response) returns (rest: string)
    requires AtChunk(m) && Finishes(m.(state := ChunkDataNewLine_1, chunkSize := 0), s, r)
    ensures s == "\r\n" + rest && Finishes(m, rest, r)
  {
    hide Finishes;
    var ended := m.(state := ChunkDataNewLine_1, chunkSize := 0);
    FinishesFirst(ended, s, r);
    FinishesFirst(ended.(state := ChunkDataNewLine_2), s[1..], r);
    rest := s[2..];
    assert s == [s[0]] + ([s[1]] + s[2..]);
  }

  // --- trailers and chunks --------------------------------------------------------------------

  ghost predicate AtTrailer(m: Machine) {
    m.state.ChunkSizeNewLine_2? && m.chunkSizeStr == "" && m.chunkSize == 0 && |m.resp.content| <= LONG_MAX
  }

  lemma {:induction false} TrailerNameRead(m: Machine, s: string, r: Response) returns (name: string, rest: string)
    requires m.state.ChunkTrailerName? && Finishes(m, s, r)
    ensures AllAlnum(name) && s == name + (":" + rest) && Finishes(m.(state := ChunkTrailerValue), rest, r)
    decreases s
  {
    hide Finishes;
    FinishesFirst(m, s, r);
    Cons(s);
    if IsAlnum(s[0]) {
      name, rest := TrailerNameRead(m, s[1..], r);
      name := [s[0]] + name;
    } else {
      name, rest := "", s[1..];
    }
  }

  lemma TrailerRead(m: Machine, s: string, r: Response) returns (t: Trailer, rest: string)
    requires AtTrailer(m) && Finishes(m, s, r) && s != "" && s[0] != '\r'
    ensures LegalTrailer(t) && s == t.name + (":" + (t.value + ("\r\n" + rest))) && Finishes(m, rest, r)
  {
    hide Finishes, IsWords, IsAlpha;
    FinishesFirst(m, s, r);
    Cons(s);
    var tail, s1 := TrailerNameRead(m.(state := ChunkTrailerName), s[1..], r);
    var value, s2 := WordsRead(m.(state := ChunkTrailerValue), s1, r);
    t := Trailer([s[0]] + tail, value);
    assert IsAlnum(s[0]) by { AlphaAlnum(s[0]); }
    rest := TrailerEndRead(m, s2, r);
    assert s == t.name + (":" + s1);
  }

  lemma AlphaAlnum(c: char)
    ensures IsAlpha(c) ==> IsAlnum(c)
  {
  }

  lemma TrailerEndRead(m: Machine, s: string, r: Response) returns (rest: string)
    requires AtTrailer(m) && Finishes(m.(state := ChunkTrailerValue), s, r) && s != "" && !IsWord(s[0])
    ensures s == "\r\n" + rest && Finishes(m, rest, r)
  {
    hide Finishes;
    FinishesFirst(m.(state := ChunkTrailerValue), s, r);
    FinishesFirst(m.(state := ChunkSizeNewLine), s[1..], r);
    rest := s[2..];
    assert s == [s[0]] + ([s[1]] + s[2..]);
    assert Step(m.(state := ChunkSizeNewLine), '\n') == (m, ParsingIncompleted);
  }

  lemma {:induction false} TrailersRead(m: Machine, s: string, r: Response) returns (ts: seq<Trailer>)
    requires AtTrailer(m) && Finishes(m, s, r)
    ensures (forall i :: 0 <= i < |ts| ==> LegalTrailer(ts[i])) && s == PrintedTrailers(ts) + "\r\n"
    decreases |s|
  {
    hide Finishes, LegalTrailer;
    FinishesFirst(m, s, r);
    if s[0] == '\r' {
      FinishesFirst(m.(state := ChunkSizeNewLine_3), s[1..], r);
      ts := [];
      assert s == "\r\n";
    } else {
      var t, tail := TrailerRead(m, s, r);
      assert |tail| < |s|;
      ts := TrailersRead(m, tail, r);
      TrailersJoin(t, ts, "\r\n");
      ts := [t] + ts;
    }
  }

  lemma TrailersJoin(t: Trailer, ts: seq<Trailer>, rest: string)
    ensures PrintedTrailers([t] + ts) + rest == t.name + (":" + (t.value + ("\r\n" + (PrintedTrailers(ts) + rest))))
  {
    var all := [t] + ts;
    assert all[0] == t && all[1..] == ts;
    var name, value, tail := t.name, t.value, PrintedTrailers(ts);
    assert (name + (":" + (value + "\r\n"))) + (tail + rest) == name + (":" + (value + ("\r\n" + (tail + rest))));
  }

  // All chunks, the last size line and the trailers.
  lemma {:induction false} ChunksRead(m: Machine, s: string, r: Response) returns (b: Body)
    requires AtChunk(m) && |m.resp.content| <= LONG_MAX && Finishes(m, s, r)
    ensures b.Chunked? && s == PrintedBody(b)
    ensures (forall i :: 0 <= i < |b.chunks| ==> LegalChunk(b.chunks[i]))
    ensures |m.resp.content| + |Datas(b.chunks)| <= LONG_MAX
    ensures AllAlnum(b.lastSize) && StrtolHex(b.lastSize) == 0 && LegalExtension(b.lastExtension)
    ensures forall i :: 0 <= i < |b.trailers| ==> LegalTrailer(b.trailers[i])
    decreases |s|
  {
    hide Finishes, LegalExtension, AllAlnum, StrtolHex, LegalTrailer, PrintedTrailers, PrintedChunks;
    var size, e, s1 := SizeLineRead(m, s, r);
    var n := StrtolHex(size);
    if n == 0 {
      var ts := TrailersRead(Sizing(m, 0), s1, r);
      b := Chunked([], size, e, ts);
      LastJoin(b);
    } else {
      var data, s2 := DataRead(m, n, s1, r);
      assert |s2| < |s|;
      var later := ChunksRead(WithContent(m, data), s2, r);
      var c := Chunk(size, e, data);
      b := later.(chunks := [c] + later.chunks);
      ChunksJoin(c, later);
    }
  }

  lemma LastJoin(b: Body)
    requires b.Chunked? && b.chunks == []
    ensures PrintedBody(b) == b.lastSize + (b.lastExtension + ("\r\n" + (PrintedTrailers(b.trailers) + "\r\n")))
    ensures Datas(b.chunks) == ""
  {
    var size, e, t := b.lastSize, b.lastExtension, PrintedTrailers(b.trailers) + "\r\n";
    assert PrintedChunks([]) == "";
    assert "" + ((size + (e + "\r\n")) + t) == size + (e + ("\r\n" + t));
  }

  lemma ChunksJoin(c: Chunk, later: Body)
    requires later.Chunked?
    ensures var all := later.(chunks := [c] + later.chunks);
            && PrintedBody(all) == c.size + (c.extension + ("\r\n" + (c.data + ("\r\n" + PrintedBody(later)))))
            && Datas(all.chunks) == c.data + Datas(later.chunks)
  {
    hide PrintedTrailers;
    var all := [c] + later.chunks;
    assert all[0] == c && all[1..] == later.chunks;
    var cs := PrintedChunks(later.chunks);
    var end := (later.lastSize + (later.lastExtension + "\r\n")) + (PrintedTrailers(later.trailers) + "\r\n");
    ChunkJoin(c.size, c.extension, c.data, "\r\n", cs, end);
  }

  lemma ChunkJoin(size: string, e: string, data: string, crlf: string, cs: string, end: string)
    ensures ((size + (e + (crlf + (data + crlf)))) + cs) + end ==
            size + (e + (crlf + (data + (crlf + (cs + end)))))
  {
    assert (size + (e + (crlf + (data + crlf)))) + cs == size + (e + (crlf + (data + (crlf + cs))));
  }

  // What follows the '\r' of the empty line.
  lemma BodyRead(m: Machine, fields: seq<Field>, s: string, r: Response) returns (end: char, b: Body)
    requires m.state.ExpectingNewline_3? && m.resp.content == "" && m.chunkSizeStr == "" && m.chunkSize == 0
    requires m.contentSize == DeclaredLength(HeadersOf(fields)) && Finishes(m, s, r)
    requires m.chunked <==> exists i :: 0 <= i < |fields| && SaysChunked(fields[i])
    ensures LegalBody(fields, b) && (b == Sized("") ==> end == '\n') && s == [end] + PrintedBody(b)
  {
    hide Finishes, KeepAlive, SaysChunked, DeclaredLength, LegalChunk, LegalExtension, LegalTrailer, AllAlnum,
      StrtolHex, PrintedChunks, PrintedTrailers;
    FinishesFirst(m, s, r);
    Cons(s);
    end := s[0];
    var m' := m.(resp := m.resp.(keepAlive := KeepAlive(m.resp)));
    if m.chunked {
      b := ChunksRead(m'.(state := ChunkSize), s[1..], r);
    } else {
      b := Sized(s[1..]);
      if m.contentSize > 0 {
        PostExactly(m'.(state := Post), s[1..], r);
      }
    }
  }
}
