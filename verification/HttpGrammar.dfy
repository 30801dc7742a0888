/**
 The language of the parser: exactly which texts it completes on, and what it makes of them.

 A Text is a Message of HttpMessage with all that the parser lets pass: numbers of any digits, which wrap
 around, a reason that starts with '\r', and any byte after the '\r' of the empty line where a body follows.
 */
module HttpGrammar {
  import opened CText
  import opened HttpParser
  import opened HttpTheorems
  import opened HttpMessage
  import opened HttpReading

  datatype Text = Text(
    major: string, minor: string, code: string, reason: string, fields: seq<Field>, end: char, body: Body)

  function Written(t: Text): string {
    StatusLine(t.major, t.minor, t.code, t.reason)
    + (PrintedFields(t.fields) + ("\r" + ([t.end] + PrintedBody(t.body))))
  }

  predicate WellFormed(t: Text) {
    && IsNumber(t.major) && IsNumber(t.minor) && IsNumber(t.code) && 100 <= CodeOf(t.code) <= 999
    && t.reason != "" && LegalReason(t.reason)
    && (forall i :: 0 <= i < |t.fields| ==> LegalField(t.fields[i]))
    && LegalBody(t.fields, t.body) && (t.body == Sized("") ==> t.end == '\n')
  }

  function ReadAs(t: Text): Response
    requires WellFormed(t)
  {
    var r := Response(VersionOf(t.major), VersionOf(t.minor), HeadersOf(t.fields), ContentOf(t.body), false,
                      CodeOf(t.code), t.reason);
    r.(keepAlive := KeepAlive(r))
  }

  // The parser after the status line of t.
  function StartOf(t: Text): Machine
    requires WellFormed(t)
  {
    AtHeaders(VersionOf(t.major), VersionOf(t.minor), CodeOf(t.code), t.reason)
  }

  // Every such text is read to its end.
  lemma TextCompletes(t: Text)
    requires WellFormed(t)
    ensures Finishes(INIT, Written(t), ReadAs(t))
  {
    hide Leads, Finishes, LegalBody, LegalField, LegalReason, StatusLine, PrintedBody, PrintedFields, KeepAlive,
      VersionOf, CodeOf, IsNumber;
    LeadsStatusLine(t.major, t.minor, t.code, t.reason);
    FinishesHeaders(StartOf(t), t.fields, t.end, t.body);
    LeadsFinish(INIT, StatusLine(t.major, t.minor, t.code, t.reason), StartOf(t),
                PrintedFields(t.fields) + ("\r" + ([t.end] + PrintedBody(t.body))), ReadAs(t));
  }

  // The messages that HttpRoundTrip reads back are some of these texts.
  function TextOf(m: Message): Text {
    Text(Decimal(m.major), Decimal(m.minor), Decimal(m.code), m.reason, m.fields, '\n', m.body)
  }

  lemma MessageIsText(m: Message)
    requires Legal(m) && m.reason != ""
    ensures WellFormed(TextOf(m)) && Written(TextOf(m)) == Printed(m) && ReadAs(TextOf(m)) == Meaning(m)
  {
    hide Decimal, KeepAlive, LegalField, LegalBody, PrintedFields, PrintedBody, StatusLine;
    DecimalRoundTrip(m.major);
    DecimalRoundTrip(m.minor);
    DecimalRoundTrip(m.code);
    assert "\r" + (['\n'] + PrintedBody(m.body)) == "\r\n" + PrintedBody(m.body);
  }

  // --- main results -----------------------------------------------------------------------------

  // Whatever completes on its last byte is a text of the grammar.
  lemma CompletedIsText(s: string, r: Response) returns (t: Text)
    requires Finishes(INIT, s, r)
    ensures WellFormed(t) && s == Written(t)
  {
    hide Finishes, Leads, VersionOf, CodeOf, AllDigits, LegalReason, StatusLine, LegalField, PrintedFields, PrintedBody,
      LegalBody, SaysChunked, DeclaredLength;
    var major, minor, code, reason, s1 := StatusRead(s, r);
    var start := AtHeaders(VersionOf(major), VersionOf(minor), CodeOf(code), reason);
    var fields, s2 := FieldsRead(start, s1, r);
    EmptyLength();
    LeadsFields(start, fields);
    FinishesAfter(start, PrintedFields(fields), AfterFields(start, fields), "\r" + s2, r);
    FinishesFirst(AfterFields(start, fields), "\r" + s2, r);
    assert ("\r" + s2)[1..] == s2;
    assert [] + HeadersOf(fields) == HeadersOf(fields);
    var end, body := BodyRead(AfterFields(start, fields).(state := ExpectingNewline_3), fields, s2, r);
    t := Text(major, minor, code, reason, fields, end, body);
  }

  // The consumed part alone is consumed whole.
  lemma {:induction false} ConsumedAlone(m: Machine, s: string)
    ensures Consumed(m, s[..Consumed(m, s)]) == Consumed(m, s)
    decreases s
  {
    if s != "" {
      hide Step;
      var n := Consumed(m, s);
      assert s[..n][0] == s[0];
      if Step(m, s[0]).1.ParsingIncompleted? {
        ConsumedAlone(Step(m, s[0]).0, s[1..]);
        assert s[..n][1..] == s[1..][..n - 1];
      }
    }
  }

  // The parser completes on a text exactly if the text starts with one of the grammar.
  lemma CompletesExactly(s: string)
    ensures Run(INIT, s).1.ParsingCompleted? <==> exists t :: WellFormed(t) && Written(t) <= s
  {
    hide WellFormed, Written;
    if Run(INIT, s).1.ParsingCompleted? {
      var n := Consumed(INIT, s);
      PrefixIncomplete(INIT, s, n);
      ConsumedAlone(INIT, s);
      var t := CompletedIsText(s[..n], Run(INIT, s).0.resp);
      assert Written(t) <= s;
    }
    if t :| WellFormed(t) && Written(t) <= s {
      StartsWithText(s, t);
    }
  }

  // And then it has consumed that text, no more and no less, and made of it what it stands for.
  lemma StartsWithText(s: string, t: Text)
    requires WellFormed(t) && Written(t) <= s
    ensures Run(INIT, s).1.ParsingCompleted? && Run(INIT, s).0.resp == ReadAs(t) && Consumed(INIT, s) == |Written(t)|
  {
    TextCompletes(t);
    hide Run, WellFormed, Written, ReadAs;
    var rest := s[|Written(t)|..];
    assert s == Written(t) + rest;
    RunConcat(INIT, Written(t), rest);
    ConsumedMore(INIT, Written(t), rest);
  }

  lemma {:induction false} ConsumedMore(m: Machine, a: string, b: string)
    requires !Run(m, a).1.ParsingIncompleted?
    ensures Consumed(m, a + b) == Consumed(m, a)
    decreases a
  {
    if a != "" {
      hide Step;
      assert (a + b)[0] == a[0] && (a + b)[1..] == a[1..] + b;
      if Step(m, a[0]).1.ParsingIncompleted? {
        ConsumedMore(Step(m, a[0]).0, a[1..], b);
      }
    }
  }
}
