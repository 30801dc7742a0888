/**
 On whose wire the bytes of a session go. All that is queued over a run is one text, and so is all that
 is transmitted: it is a prefix of the same. A session's bytes go out on its own client's wire or, where
 a send fails, on that of a later one.
 */
module SessionWires {
  import opened CText
  import opened Crypto
  import opened HexUtil
  import opened MsgIO
  import opened Session
  import opened SessionTheorems

  // --- positions in the text of a run ----------------------------------------------------------------

  // Where the wire of session i starts, and where what it queues does.
  function WireStart(rs: seq<Record>, i: nat): nat
    requires i <= |rs|
  {
    |Wires(rs[..i])|
  }

  function QueueStart(s: Server, rs: seq<Record>, i: nat): nat
    requires i <= |rs|
  {
    |s.wbuffer| + |Queued(rs[..i])|
  }

  // All that is to be transmitted.
  function RunText(s: Server, rs: seq<Record>): string {
    s.wbuffer + Queued(rs)
  }

  lemma {:induction false} WiresPush(rs: seq<Record>, r: Record)
    ensures Wires(rs + [r]) == Wires(rs) + r.wire
    ensures Queued(rs + [r]) == Queued(rs) + r.queued
  {
    if rs == [] {
      assert (rs + [r])[1..] == [];
      assert r.wire + "" == "" + r.wire && r.queued + "" == "" + r.queued;
    } else {
      assert (rs + [r])[1..] == rs[1..] + [r];
      WiresPush(rs[1..], r);
      assert rs[0].wire + (Wires(rs[1..]) + r.wire) == (rs[0].wire + Wires(rs[1..])) + r.wire;
      assert rs[0].queued + (Queued(rs[1..]) + r.queued) == (rs[0].queued + Queued(rs[1..])) + r.queued;
    }
  }

  lemma NothingYet()
    ensures Wires([]) == "" && Queued([]) == ""
  {
  }

  lemma PrefixPush(rs: seq<Record>, i: nat)
    requires i < |rs|
    ensures Wires(rs[..i + 1]) == Wires(rs[..i]) + rs[i].wire
    ensures Queued(rs[..i + 1]) == Queued(rs[..i]) + rs[i].queued
  {
    assert rs[..i + 1] == rs[..i] + [rs[i]];
    WiresPush(rs[..i], rs[i]);
  }

  // After any number of sessions, with whatever transports: what has been transmitted and what is held
  // are what was held at first and what has been queued.
  lemma {:induction false} ConservedAt(c: Primitives, cfg: Config, s: Server, clients: seq<Client>, i: nat)
    requires i <= |Run(c, cfg, s, clients)|
    ensures var rs := Run(c, cfg, s, clients);
            Wires(rs[..i]) + StateAt(s, rs, i).wbuffer == s.wbuffer + Queued(rs[..i])
    decreases i
  {
    var rs := Run(c, cfg, s, clients);
    hide Run, SessionOf, Wires, Queued;
    if i == 0 {
      NothingYet();
      assert rs[..0] == [] && "" + s.wbuffer == s.wbuffer + "";
    } else {
      ConservedAt(c, cfg, s, clients, i - 1);
      RunAt(c, cfg, s, clients, i - 1);
      SessionConserves(c, cfg, StateAt(s, rs, i - 1), clients[i - 1]);
      PrefixPush(rs, i - 1);
      Chained(Wires(rs[..i - 1]), rs[i - 1].wire, rs[i - 1].after.wbuffer, StateAt(s, rs, i - 1).wbuffer, s.wbuffer,
              Queued(rs[..i - 1]), rs[i - 1].queued);
    }
  }

  // So nothing is lost, repeated or reordered over a whole run.
  lemma RunConserves(c: Primitives, cfg: Config, s: Server, clients: seq<Client>)
    ensures var rs := Run(c, cfg, s, clients);
            Wires(rs) + Final(s, rs).wbuffer == s.wbuffer + Queued(rs)
  {
    var rs := Run(c, cfg, s, clients);
    ConservedAt(c, cfg, s, clients, |rs|);
    hide Run;
    assert rs[..|rs|] == rs;
  }

  lemma {:induction false} QueuedPrefix(rs: seq<Record>, i: nat)
    requires i <= |rs|
    ensures Queued(rs[..i]) <= Queued(rs)
    decreases |rs| - i
  {
    if i == |rs| {
      assert rs[..i] == rs;
    } else {
      hide Queued;
      PrefixPush(rs, i);
      QueuedPrefix(rs, i + 1);
    }
  }

  lemma Cut(text: string, a: string, b: string)
    requires a + b <= text
    ensures text[|a|..|a| + |b|] == b
  {
    assert text[..|a + b|] == a + b;
    assert text[|a|..|a| + |b|] == (a + b)[|a|..];
  }

  // A text cut in two ways: at what has been transmitted, and at what has been queued.
  lemma CutTwice(text: string, sent: string, held: string, wire: string, left: string,
                 first: string, earlier: string, queued: string, all: string)
    requires sent + held == first + earlier && (sent + wire) + left == first + (earlier + queued)
    requires earlier + queued <= all && text == first + all
    ensures var w, w', q, q' := |sent|, |sent + wire|, |first| + |earlier|, |first| + |earlier + queued|;
            && w <= w' <= q' && w <= q <= q' <= |text|
            && wire == text[w..w'] && queued == text[q..q'] && held == text[w..q] && left == text[w'..q']
  {
    var front := first + (earlier + queued);
    assert front <= text;
    assert front == (sent + held) + queued;
    Cut(front, sent, held);
    Cut(front, sent + wire, left);
    Cut(front, sent + held, queued);
    Cut(front, sent, wire) by { assert sent + wire == front[..|sent + wire|]; }
    assert front == text[..|front|];
  }

  // Where everything is: what session i transmits, queues and finds in wbuffer are these parts of the
  // text of the run.
  lemma Placed(c: Primitives, cfg: Config, s: Server, clients: seq<Client>, i: nat)
    requires i < |Run(c, cfg, s, clients)|
    ensures var rs := Run(c, cfg, s, clients);
            var text := RunText(s, rs);
            var w, w', q, q' := WireStart(rs, i), WireStart(rs, i + 1), QueueStart(s, rs, i), QueueStart(s, rs, i + 1);
            && w <= w' <= q' && w <= q <= q' <= |text|
            && rs[i].wire == text[w..w'] && rs[i].queued == text[q..q']
            && StateAt(s, rs, i).wbuffer == text[w..q] && rs[i].after.wbuffer == text[w'..q']
  {
    var rs := Run(c, cfg, s, clients);
    ConservedAt(c, cfg, s, clients, i);
    ConservedAt(c, cfg, s, clients, i + 1);
    hide Run, Wires, Queued;
    PrefixPush(rs, i);
    QueuedPrefix(rs, i + 1);
    assert StateAt(s, rs, i + 1) == rs[i].after;
    hide StateAt, IsRun, EndsLine;
    CutTwice(RunText(s, rs), Wires(rs[..i]), StateAt(s, rs, i).wbuffer, rs[i].wire, rs[i].after.wbuffer,
             s.wbuffer, Queued(rs[..i]), rs[i].queued, Queued(rs));
  }

  // --- a session's answer on its own wire -------------------------------------------------------------

  // The line with the ciphertext.
  function AnswerLine(r: Record): string
    requires r.ending.Released?
  {
    Encode(Msg4(r.ending.status, r.ending.pib) + r.ending.ciphertext) + "\n"
  }

  // What a session queues, by how it ends.
  lemma QueuedByEnding(c: Primitives, cfg: Config, s: Server, cl: Client)
    ensures var r := SessionOf(c, cfg, s, cl);
            r.queued ==
            if r.third.None? then ""
            else Msg2Of(c, cfg, cl, r) +
                 match r.ending
                 case Released(_, _, _) => AnswerLine(r)
                 case Untrusted(status, pib) => Encode(Msg4(status, pib))
                 case _ => ""
  {
    SessionSends(c, cfg, s, cl);
    hide SessionOf, Opening, Msg2Text, Msg4, Encode, SendOutcome;
    var r := SessionOf(c, cfg, s, cl);
    if r.ending.Released? {
      EncodeConcat(Msg4(r.ending.status, r.ending.pib), r.ending.ciphertext);
      Regrouped(Encode(Msg4(r.ending.status, r.ending.pib)), Encode(r.ending.ciphertext));
    } else if r.third.Some? && !r.ending.Untrusted? {
      assert Msg2Of(c, cfg, cl, r) + "" == Msg2Of(c, cfg, cl, r);
    }
  }

  lemma Regrouped(a: string, b: string)
    ensures a + (b + "\n") == (a + b) + "\n"
  {
  }

  // Whatever the transport: what is queued reaches the session's own client wholly exactly if nothing
  // stays behind. Of a session that releases the ciphertext, that goes for the line with it.
  lemma OnOwnWire(c: Primitives, cfg: Config, s: Server, cl: Client)
    ensures var r := SessionOf(c, cfg, s, cl);
            && r.wire + r.after.wbuffer == s.wbuffer + r.queued
            && (r.wire == s.wbuffer + r.queued <==> r.after.wbuffer == "")
            && (r.ending.Released? ==>
                  (r.wire == s.wbuffer + (Msg2Of(c, cfg, cl, r) + AnswerLine(r)) <==> r.after.wbuffer == ""))
  {
    SessionConserves(c, cfg, s, cl);
    QueuedByEnding(c, cfg, s, cl);
    SessionSends(c, cfg, s, cl);
    hide SessionOf, Msg2Of, AnswerLine, Opening, Msg2Text, Msg4, Encode, SendOutcome;
    var r := SessionOf(c, cfg, s, cl);
    if r.after.wbuffer == "" {
      assert r.wire + "" == r.wire;
    }
  }

  // --- an earlier session's lines ------------------------------------------------------------------------

  lemma Msg2Line(c: Primitives, cfg: Config, s: Server, cl: Client)
    requires SessionOf(c, cfg, s, cl).third.Some?
    ensures var text2 := Msg2Of(c, cfg, cl, SessionOf(c, cfg, s, cl));
            text2 != "" && text2[|text2| - 1] == '\n' && '\n' !in text2[..|text2| - 1]
  {
    SessionSends(c, cfg, s, cl);
    hide SessionOf, Opening, Msg2, SentSigrl, Encode, SendOutcome;
    var r := SessionOf(c, cfg, s, cl);
    var opening := Opening(c, cl.key, r.first);
    OneNewline(Msg2(c, cfg, opening.value, r.fetched.value.sigrl.value), SentSigrl(r.fetched.value.sigrl.value));
  }

  lemma OneNewline(a: bytes, b: bytes)
    ensures var text := Encode(a) + (Encode(b) + "\n");
            text[|text| - 1] == '\n' && '\n' !in text[..|text| - 1]
  {
    NoNewline(a);
    NoNewline(b);
    hide Encode;
    var text := Encode(a) + (Encode(b) + "\n");
    assert text[..|text| - 1] == Encode(a) + Encode(b);
  }

  // How much a session queues after the end of its last line.
  function Unended(r: Record): nat {
    if r.ending.Untrusted? then |Encode(Msg4(r.ending.status, r.ending.pib))| else 0
  }

  // A session that reaches msg2 queues a line at least, and nothing but that follows the last one.
  predicate EndsLine(r: Record) {
    if r.third.None? then r.queued == ""
    else
      var end := |r.queued| - 1 - Unended(r);
      0 <= end && r.queued[end] == '\n' && '\n' !in r.queued[end + 1..]
  }

  lemma SessionEndsLine(c: Primitives, cfg: Config, s: Server, cl: Client)
    ensures EndsLine(SessionOf(c, cfg, s, cl))
  {
    hide SessionOf, Opening, Msg2Of, Msg4, Encode, SendOutcome, AnswerLine;
    QueuedByEnding(c, cfg, s, cl);
    var r := SessionOf(c, cfg, s, cl);
    if r.third.Some? {
      Msg2Line(c, cfg, s, cl);
      var text2 := Msg2Of(c, cfg, cl, r);
      match r.ending
      case Released(status, pib, ciphertext) =>
        Newlines(text2, AnswerLine(r));
        AnswerEnds(r);
      case Untrusted(status, pib) =>
        NoNewline(Msg4(status, pib));
        Newlines(text2, Encode(Msg4(status, pib)));
      case _ => assert text2 + "" == text2;
    }
  }

  lemma AnswerEnds(r: Record)
    requires r.ending.Released?
    ensures AnswerLine(r) != "" && AnswerLine(r)[|AnswerLine(r)| - 1] == '\n'
  {
    hide Encode, Msg4;
  }

  lemma Newlines(a: string, b: string)
    requires a != ""
    ensures var text := a + b;
            text[|a| - 1] == a[|a| - 1] && text[|a|..] == b && (b != "" ==> text[|text| - 1] == b[|b| - 1])
  {
  }

  // Sessions one after another, from s on.
  ghost predicate IsRun(s: Server, rs: seq<Record>) {
    && (forall j :: 0 <= j < |rs| ==> EndsLine(rs[j]))
    && (forall i :: 0 <= i <= |rs| ==> Wires(rs[..i]) + StateAt(s, rs, i).wbuffer == s.wbuffer + Queued(rs[..i]))
  }

  lemma RunIsRun(c: Primitives, cfg: Config, s: Server, clients: seq<Client>)
    ensures IsRun(s, Run(c, cfg, s, clients))
  {
    hide Run, SessionOf, EndsLine, Wires, Queued;
    var rs := Run(c, cfg, s, clients);
    forall j | 0 <= j < |rs| ensures EndsLine(rs[j]) {
      RunAt(c, cfg, s, clients, j);
      SessionEndsLine(c, cfg, StateAt(s, rs, j), clients[j]);
    }
    forall i | 0 <= i <= |rs| ensures Wires(rs[..i]) + StateAt(s, rs, i).wbuffer == s.wbuffer + Queued(rs[..i]) {
      ConservedAt(c, cfg, s, clients, i);
    }
  }

  // Where the last line that session j queues ends.
  function LastLineEnd(s: Server, rs: seq<Record>, j: nat): int
    requires j < |rs|
  {
    QueueStart(s, rs, j + 1) - 1 - Unended(rs[j])
  }

  // Session j, one of the first i, ends its last line at p or later.
  predicate EndsAfter(s: Server, rs: seq<Record>, i: nat, j: int, p: int)
    requires i <= |rs|
  {
    0 <= j < i && rs[j].third.Some? && p <= LastLineEnd(s, rs, j)
  }

  // The ends of lines in a text that has grown by one session's share, of which the last is at end.
  lemma NewlinesPush(before: string, share: string, end: nat)
    requires end < |share| && share[end] == '\n' && '\n' !in share[end + 1..]
    ensures var text := before + share;
            && |before| + end < |text| && text[|before| + end] == '\n'
            && (forall p :: 0 <= p < |text| && text[p] == '\n' ==> p <= |before| + end)
  {
    var text := before + share;
    forall p | |before| + end < p < |text| ensures text[p] != '\n' {
      assert text[p] == share[end + 1..][p - |before| - end - 1];
    }
  }

  // The last line of session j ends within what is queued by then.
  lemma EndInText(s: Server, rs: seq<Record>, i: nat, j: nat)
    requires IsRun(s, rs) && j < i <= |rs| && rs[j].third.Some?
    ensures var end, text := LastLineEnd(s, rs, j), s.wbuffer + Queued(rs[..i]);
            0 <= end < |text| && text[end] == '\n'
  {
    hide Wires, Queued, Unended, Encode;
    var r, before := rs[j], s.wbuffer + Queued(rs[..j]);
    assert EndsLine(r);
    PrefixPush(rs, j);
    NewlinesPush(before, r.queued, |r.queued| - 1 - Unended(r));
    QueuedPrefix(rs[..i], j + 1);
    assert rs[..i][..j + 1] == rs[..j + 1];
    Extended(s.wbuffer, Queued(rs[..j]), r.queued, Queued(rs[..i]), LastLineEnd(s, rs, j));
  }

  lemma Extended(first: string, earlier: string, share: string, all: string, at: nat)
    requires earlier + share <= all && at < |first + earlier + share|
    ensures at < |first + all| && (first + all)[at] == ((first + earlier) + share)[at]
  {
    assert first + all == ((first + earlier) + share) + all[|earlier + share|..];
  }

  lemma AtStart(s: Server, rs: seq<Record>)
    ensures s.wbuffer + Queued(rs[..0]) == s.wbuffer
  {
    NothingYet();
    assert rs[..0] == [];
  }

  // No line ends in the text queued so far after the last one of some session.
  lemma {:induction false} EndsInText(s: Server, rs: seq<Record>, i: nat, p: nat)
    requires IsRun(s, rs) && '\n' !in s.wbuffer && i <= |rs|
    requires p < |s.wbuffer + Queued(rs[..i])| && (s.wbuffer + Queued(rs[..i]))[p] == '\n'
    ensures exists j :: EndsAfter(s, rs, i, j, p)
    decreases i
  {
    hide Wires, Queued, Unended, Encode, LastLineEnd;
    if i == 0 {
      AtStart(s, rs);
    } else {
      var r, before := rs[i - 1], s.wbuffer + Queued(rs[..i - 1]);
      PrefixPush(rs, i - 1);
      assert s.wbuffer + Queued(rs[..i]) == before + r.queued;
      assert EndsLine(r);
      if r.third.Some? {
        NewlinesPush(before, r.queued, |r.queued| - 1 - Unended(r));
        LastLineEndIs(s, rs, i - 1);
        assert EndsAfter(s, rs, i, i - 1, p);
      } else {
        assert before[p] == '\n';
        EndsInText(s, rs, i - 1, p);
        var j :| EndsAfter(s, rs, i - 1, j, p);
        assert EndsAfter(s, rs, i, j, p);
      }
    }
  }

  lemma LastLineEndIs(s: Server, rs: seq<Record>, j: nat)
    requires j < |rs|
    ensures LastLineEnd(s, rs, j) == |s.wbuffer + Queued(rs[..j])| + |rs[j].queued| - 1 - Unended(rs[j])
  {
    hide Queued, Unended;
    PrefixPush(rs, j);
  }

  // In wbuffer at the start of session i stands the end of a line exactly if an earlier session's last
  // line has not been transmitted to its end.
  lemma LineHeldExactly(s: Server, rs: seq<Record>, i: nat)
    requires IsRun(s, rs) && '\n' !in s.wbuffer && i <= |rs|
    ensures '\n' in StateAt(s, rs, i).wbuffer <==> exists j :: EndsAfter(s, rs, i, j, WireStart(rs, i))
  {
    hide Wires, Queued, LastLineEnd, EndsLine;
    var text, held, w := s.wbuffer + Queued(rs[..i]), StateAt(s, rs, i).wbuffer, WireStart(rs, i);
    assert text == Wires(rs[..i]) + held;
    if '\n' in held {
      var k :| 0 <= k < |held| && held[k] == '\n';
      assert text[w + k] == '\n';
      hide IsRun;
      EndsInText(s, rs, i, w + k);
      var j :| EndsAfter(s, rs, i, j, w + k);
      assert EndsAfter(s, rs, i, j, w);
    }
    if j :| EndsAfter(s, rs, i, j, w) {
      EndInText(s, rs, i, j);
      assert held[LastLineEnd(s, rs, j) - w] == '\n';
    }
  }

  // That takes a send that failed before.
  lemma {:induction false} LineHeldByFailure(c: Primitives, cfg: Config, s: Server, clients: seq<Client>, i: nat)
    requires '\n' !in s.wbuffer && i <= |Run(c, cfg, s, clients)|
    ensures '\n' in StateAt(s, Run(c, cfg, s, clients), i).wbuffer ==>
              exists j :: 0 <= j < i && SendFailed in clients[j].plan
    decreases i
  {
    if i > 0 {
      var rs := Run(c, cfg, s, clients);
      hide Run, SessionOf, Msg4;
      LineHeldByFailure(c, cfg, s, clients, i - 1);
      RunAt(c, cfg, s, clients, i - 1);
      if SendFailed !in clients[i - 1].plan {
        LeftBehind(c, cfg, StateAt(s, rs, i - 1), clients[i - 1]);
        if rs[i - 1].ending.Untrusted? {
          NoNewline(Msg4(rs[i - 1].ending.status, rs[i - 1].ending.pib));
        }
      }
    }
  }

  // The end of an earlier session's last line is on the wire of session i.
  predicate CarriesEarlierLine(s: Server, rs: seq<Record>, i: nat)
    requires i < |rs|
  {
    exists j :: 0 <= j < i && EndsAfter(s, rs, i, j, WireStart(rs, i)) && LastLineEnd(s, rs, j) < WireStart(rs, i + 1)
  }

  // It can be only if wbuffer held the end of a line; and then it is, if session i reaches msg2 and
  // none of its sends fails.
  lemma EarlierLineExactly(c: Primitives, cfg: Config, s: Server, clients: seq<Client>, i: nat)
    requires '\n' !in s.wbuffer && i < |Run(c, cfg, s, clients)|
    ensures var rs := Run(c, cfg, s, clients);
            && (CarriesEarlierLine(s, rs, i) ==> '\n' in StateAt(s, rs, i).wbuffer)
            && (SendFailed !in clients[i].plan && rs[i].third.Some? ==>
                  (CarriesEarlierLine(s, rs, i) <==> '\n' in StateAt(s, rs, i).wbuffer))
  {
    var rs := Run(c, cfg, s, clients);
    RunIsRun(c, cfg, s, clients);
    LineHeldExactly(s, rs, i);
    if SendFailed !in clients[i].plan && rs[i].third.Some? && '\n' in StateAt(s, rs, i).wbuffer {
      WholeHeldSent(c, cfg, s, clients, i);
      hide Run, LastLineEnd, Wires, Queued, IsRun;
      var j :| EndsAfter(s, rs, i, j, WireStart(rs, i));
      EndInText(s, rs, i, j);
    }
  }

  // A session whose sends do not fail transmits all that was held, and its msg2.
  lemma WholeHeldSent(c: Primitives, cfg: Config, s: Server, clients: seq<Client>, i: nat)
    requires i < |Run(c, cfg, s, clients)| && SendFailed !in clients[i].plan && Run(c, cfg, s, clients)[i].third.Some?
    ensures QueueStart(s, Run(c, cfg, s, clients), i) <= WireStart(Run(c, cfg, s, clients), i + 1)
  {
    var rs := Run(c, cfg, s, clients);
    RunAt(c, cfg, s, clients, i);
    Received(c, cfg, StateAt(s, rs, i), clients[i]);
    ConservedAt(c, cfg, s, clients, i);
    PrefixPush(rs, i);
    hide Run, SessionOf, Wires, Queued, Msg2Of;
    assert |Wires(rs[..i])| + |StateAt(s, rs, i).wbuffer| == |s.wbuffer + Queued(rs[..i])|;
  }

  // --- the ciphertext on the wire ------------------------------------------------------------------------

  // How many lines end in a text.
  function LinesEnded(text: string): nat {
    multiset(text)['\n']
  }

  lemma LinesOf(text2: string, answer: string, stale: string)
    requires text2 != "" && text2[|text2| - 1] == '\n' && '\n' !in text2[..|text2| - 1] && '\n' !in stale
    ensures LinesEnded((stale + text2) + answer) == 1 + LinesEnded(answer)
    ensures LinesEnded(text2 + answer) == 1 + LinesEnded(answer)
  {
    var front := text2[..|text2| - 1];
    assert text2 == front + ['\n'];
    assert multiset(text2) == multiset(front) + multiset{'\n'};
    assert multiset((stale + text2) + answer) == multiset(stale) + multiset(text2) + multiset(answer);
    assert multiset(text2 + answer) == multiset(text2) + multiset(answer);
  }

  lemma AnswerLines(r: Record)
    requires r.ending.Released?
    ensures LinesEnded(AnswerLine(r)) == 1
  {
    var m := Msg4(r.ending.status, r.ending.pib) + r.ending.ciphertext;
    NoNewline(m);
    hide Encode, Msg4;
    assert multiset(AnswerLine(r)) == multiset(Encode(m)) + multiset{'\n'};
  }

  lemma NoAnswer(bs: bytes)
    ensures LinesEnded(Encode(bs)) == 0 && LinesEnded("") == 0
  {
    NoNewline(bs);
    hide Encode;
  }

  // In every run, over any clients, answers and transports: a session queues a second line if and only
  // if all the conditions hold of that session; the line is status, PIB and ciphertext.
  lemma WholeRunQueues(c: Primitives, cfg: Config, s: Server, clients: seq<Client>, i: nat)
    requires IsConfig(cfg) && i < |Run(c, cfg, s, clients)|
    ensures var r := Run(c, cfg, s, clients)[i];
            && (LinesEnded(r.queued) == 2 <==> exists m1, m3 :: Authorised(c, cfg, clients[i].key, r, m1, m3))
            && (LinesEnded(r.queued) == 2 ==>
                  r.ending.Released? && r.queued == Msg2Of(c, cfg, clients[i], r) + AnswerLine(r))
  {
    var rs := Run(c, cfg, s, clients);
    RunAt(c, cfg, s, clients, i);
    WholeRunSafety(c, cfg, s, clients, i);
    hide Run, SessionOf, Authorised, AnswerLine, Msg2Of, LinesEnded;
    SessionQueues(c, cfg, StateAt(s, rs, i), clients[i]);
  }

  lemma SessionQueues(c: Primitives, cfg: Config, s: Server, cl: Client)
    ensures var r := SessionOf(c, cfg, s, cl);
            && (LinesEnded(r.queued) == 2 <==> r.ending.Released?)
            && (r.ending.Released? ==> r.queued == Msg2Of(c, cfg, cl, r) + AnswerLine(r))
  {
    hide SessionOf, AnswerLine, Msg2Of, LinesEnded, Encode, Msg4;
    QueuedByEnding(c, cfg, s, cl);
    ReleasedReached(c, cfg, s, cl);
    var r := SessionOf(c, cfg, s, cl);
    NoAnswer([]);
    if r.third.Some? {
      Msg2Line(c, cfg, s, cl);
      match r.ending
      case Released(_, _, _) =>
        AnswerLines(r);
        LinesOf(Msg2Of(c, cfg, cl, r), AnswerLine(r), "");
      case Untrusted(status, pib) =>
        NoAnswer(Msg4(status, pib));
        LinesOf(Msg2Of(c, cfg, cl, r), Encode(Msg4(status, pib)), "");
      case _ => LinesOf(Msg2Of(c, cfg, cl, r), "", "");
    }
  }

  lemma ReleasedReached(c: Primitives, cfg: Config, s: Server, cl: Client)
    ensures SessionOf(c, cfg, s, cl).ending.Released? ==> SessionOf(c, cfg, s, cl).third.Some?
  {
    SessionSends(c, cfg, s, cl);
    hide SessionOf;
  }

  // Where no send fails, the same of the bytes transmitted: a client receives a second line if and only
  // if all the conditions hold of its session, and the line is its own status, PIB and ciphertext. The
  // first line is its msg2, after what an earlier, untrusted client was to have.
  lemma WholeRunWires(c: Primitives, cfg: Config, s: Server, clients: seq<Client>, i: nat)
    requires IsConfig(cfg) && i < |Run(c, cfg, s, clients)| && s.wbuffer == ""
    requires forall j :: 0 <= j < |clients| ==> SendFailed !in clients[j].plan
    ensures var rs := Run(c, cfg, s, clients);
            var r := rs[i];
            && (LinesEnded(r.wire) == 2 <==> exists m1, m3 :: Authorised(c, cfg, clients[i].key, r, m1, m3))
            && r.wire ==
               if r.third.None? then ""
               else
                 (Encode(Stale(rs[..i])) + Msg2Of(c, cfg, clients[i], r))
                 + if r.ending.Released? then AnswerLine(r) else ""
  {
    var rs := Run(c, cfg, s, clients);
    RunAt(c, cfg, s, clients, i);
    WholeRunSafety(c, cfg, s, clients, i);
    WbufferAt(c, cfg, s, clients, i);
    var st, cl, stale := StateAt(s, rs, i), clients[i], Stale(rs[..i]);
    hide Run, SessionOf, Authorised, AnswerLine, Msg2Of, LinesEnded, Encode, Msg4, Stale;
    QueuedByEnding(c, cfg, st, cl);
    Received(c, cfg, st, cl);
    ReleasedReached(c, cfg, st, cl);
    var r := rs[i];
    NoAnswer([]);
    if r.third.Some? {
      NoNewline(stale);
      Msg2Line(c, cfg, st, cl);
      var text2, answer := Msg2Of(c, cfg, cl, r), if r.ending.Released? then AnswerLine(r) else "";
      if r.ending.Released? {
        AnswerLines(r);
      }
      Onto(Encode(stale), text2, answer);
      LinesOf(text2, answer, Encode(stale));
    }
  }

  lemma Onto(a: string, b: string, d: string)
    ensures a + (b + d) == (a + b) + d && (a + b) + "" == a + b && b + "" == b
  {
  }

  // The least example: the send of its answer fails for a trusted client that has received its msg2, and
  // the next client to reach msg2 receives the answer, trusted or not.
  lemma FailedSends(c: Primitives, cfg: Config, s: Server, cl1: Client, cl2: Client)
    requires SessionOf(c, cfg, s, cl1).ending.Released? && SendFailed !in cl2.plan
    requires cl1.plan == [Short(|s.wbuffer + Msg2Of(c, cfg, cl1, SessionOf(c, cfg, s, cl1))|), SendFailed]
    ensures var r1 := SessionOf(c, cfg, s, cl1);
            var r2 := SessionOf(c, cfg, r1.after, cl2);
            && r1.wire == s.wbuffer + Msg2Of(c, cfg, cl1, r1) && r1.after.wbuffer == AnswerLine(r1)
            && (r2.third.Some? ==> AnswerLine(r1) <= r2.wire)
  {
    hide SessionOf, Msg2Of, AnswerLine, Encode, Msg4;
    AnswerHeld(c, cfg, s, cl1);
    WireStartsHeld(c, cfg, SessionOf(c, cfg, s, cl1).after, cl2);
  }

  lemma WireStartsHeld(c: Primitives, cfg: Config, s: Server, cl: Client)
    requires SendFailed !in cl.plan
    ensures SessionOf(c, cfg, s, cl).third.Some? ==> s.wbuffer <= SessionOf(c, cfg, s, cl).wire
  {
    hide SessionOf, Msg2Of;
    Received(c, cfg, s, cl);
  }

  lemma AnswerHeld(c: Primitives, cfg: Config, s: Server, cl: Client)
    requires SessionOf(c, cfg, s, cl).ending.Released?
    requires cl.plan == [Short(|s.wbuffer + Msg2Of(c, cfg, cl, SessionOf(c, cfg, s, cl))|), SendFailed]
    ensures var r := SessionOf(c, cfg, s, cl);
            r.wire == s.wbuffer + Msg2Of(c, cfg, cl, r) && r.after.wbuffer == AnswerLine(r)
  {
    SessionSends(c, cfg, s, cl);
    QueuedByEnding(c, cfg, s, cl);
    hide SessionOf, Msg4, Encode, Msg2Text, Opening;
    var r := SessionOf(c, cfg, s, cl);
    var text2 := s.wbuffer + Msg2Of(c, cfg, cl, r);
    var text4 := Encode(Msg4(r.ending.status, r.ending.pib)) + (Encode(r.ending.ciphertext) + "\n");
    TakenAtOnce(text2);
    assert "" + text4 == text4 && text2 + "" == text2;
    FailsFirst(text4, [SendFailed]);
    assert r.after.wbuffer == text4 && r.queued == Msg2Of(c, cfg, cl, r) + text4;
    Cancel(Msg2Of(c, cfg, cl, r), AnswerLine(r), text4);
  }

  lemma Cancel(a: string, b: string, b': string)
    requires a + b == a + b'
    ensures b == b'
  {
    assert b == (a + b)[|a|..] && b' == (a + b')[|a|..];
  }

  lemma TakenAtOnce(wbuffer: string)
    ensures wbuffer != "" ==> SendOutcome(wbuffer, [Short(|wbuffer|), SendFailed]) == (wbuffer, "", [SendFailed])
  {
    if wbuffer != "" {
      var plan := [Short(|wbuffer|), SendFailed];
      assert plan[1..] == [SendFailed] && wbuffer[|wbuffer|..] == "" && wbuffer[..|wbuffer|] + "" == wbuffer;
    }
  }

  lemma FailsFirst(wbuffer: string, plan: seq<SendEvent>)
    requires plan != [] && plan[0] == SendFailed
    ensures wbuffer != "" ==> SendOutcome(wbuffer, plan) == ("", wbuffer, plan[1..])
  {
  }
}
