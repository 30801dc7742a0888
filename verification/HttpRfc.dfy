/**
 Which responses of RFC 7230 the parser reads as the RFC means them. HttpReply has the responses.
 */
module HttpRfc {
  import opened CText
  import opened HttpParser
  import opened HttpMessage
  import opened HttpGrammar
  import opened HttpReply

  // A decimal length is taken as it stands exactly up to the largest int; beyond the largest long it is
  // taken as -1.
  lemma LengthRead(v: string, n: nat)
    requires IsNumeral(v, n)
    ensures Atoi(v) == n <==> n <= 0x7fff_ffff
    ensures n > 0x7fff_ffff_ffff_ffff ==> Atoi(v) == -1
  {
    AtoiOfNumeral(v, n);
  }

  // Every response of the RFC's grammar is read back, completed on its last byte with all it means, if
  // and only if it is readable. LegalReply lets some more pass than the RFC does: versions of more than one
  // digit, and any text behind a semicolon for extensions. A body that only the closing of the connection
  // ends is not among the replies.
  lemma ReadExactly(m: Reply)
    requires LegalReply(m)
    ensures Finishes(INIT, PrintedReply(m), MeaningOf(m)) <==> Readable(m)
  {
    hide Finishes, PrintedReply, MeaningOf, LegalReply, Readable;
    if Readable(m) {
      ReadableReads(m);
    } else if Finishes(INIT, PrintedReply(m), MeaningOf(m)) {
      var t := CompletedIsText(PrintedReply(m), MeaningOf(m));
      TextCompletes(t);
      hide WellFormed, Written, ReadAs;
      assert ReadAs(t) == MeaningOf(m) by { OneMeaning(PrintedReply(m), ReadAs(t), MeaningOf(m)); }
      SameReadable(m, t);
    }
  }

  lemma OneMeaning(s: string, r: Response, r': Response)
    requires Finishes(INIT, s, r) && Finishes(INIT, s, r')
    ensures r == r'
  {
  }
}
