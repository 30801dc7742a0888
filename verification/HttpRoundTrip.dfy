/**
 Reading back what was printed: the main results about the responses of HttpMessage.
 */
module HttpRoundTrip {
  import opened CText
  import opened HttpParser
  import opened HttpTheorems
  import opened HttpMessage

  // Every legal response with a reason is read back: completed on its last byte, not before, with
  // version, code, reason, header fields, content and keep-alive as written.
  lemma RoundTrip(m: Message)
    requires Legal(m) && m.reason != ""
    ensures Finishes(INIT, Printed(m), Meaning(m))
  {
    hide Leads, Finishes, LegalBody, LegalField, LegalReason, StatusLine, PrintedBody, PrintedFields, KeepAlive;
    var start := AtHeaders(m.major, m.minor, m.code, m.reason);
    LeadsStatus(m.major, m.minor, m.code, m.reason);
    FinishesHeaders(start, m.fields, '\n', m.body);
    assert "\r" + (['\n'] + PrintedBody(m.body)) == "\r\n" + PrintedBody(m.body);
    LeadsFinish(INIT, PrintedStatus(m), start, PrintedFields(m.fields) + ("\r\n" + PrintedBody(m.body)), Meaning(m));
  }

  // Without a reason none of them is: the parser takes the line's '\r' into the reason. HttpRfc says which
  // responses of RFC 7230 are read as the RFC means them.
  lemma RoundTripExactly(m: Message)
    requires Legal(m)
    ensures Finishes(INIT, Printed(m), Meaning(m)) <==> m.reason != ""
  {
    if m.reason != "" {
      RoundTrip(m);
    } else {
      assert Inv(INIT) by { EmptyLength(); }
      hide Inv, Legal, Printed;
      RunInv(INIT, Printed(m));
    }
  }

  // The value of a field in which one space stands for every line end, as RFC 7230 has it.
  function Spaced(fs: seq<Fold>): string {
    if fs == [] then "" else " " + (fs[0].text + Spaced(fs[1..]))
  }

  lemma {:induction false} SpacedLength(fs: seq<Fold>)
    ensures |Spaced(fs)| == |Texts(fs)| + |fs|
  {
    if fs != [] {
      SpacedLength(fs[1..]);
    }
  }

  // The parser joins the lines of a folded field without a space: exactly an unfolded one has the value
  // it is meant to have (section 3.2.4 of RFC 7230).
  lemma FoldsLoseSpaces(f: Field)
    ensures HeaderOf(f).value == f.value + Spaced(f.folds) <==> f.folds == []
  {
    SpacedLength(f.folds);
    assert |f.value + Spaced(f.folds)| == |f.value| + |Spaced(f.folds)|;
    assert |HeaderOf(f).value| == |f.value| + |Texts(f.folds)|;
  }

  // Every proper prefix of a legal response leaves the parser waiting for more.
  lemma ProperPrefix(m: Message, k: nat)
    requires Legal(m) && m.reason != "" && k < |Printed(m)|
    ensures Run(INIT, Printed(m)[..k]).1.ParsingIncompleted?
  {
    hide Legal, Printed;
    RoundTrip(m);
    PrefixIncomplete(INIT, Printed(m), k);
  }
}
