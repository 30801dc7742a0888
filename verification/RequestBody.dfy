/**
 The JSON body of a report request, in service-provider/iasrequest.cpp, and what a JSON parser makes
 of it. std::map keeps the payload in the order of its names.
 */
module RequestBody {
  import opened CText
  import opened Json
  import opened JsonParser
  import opened JsonTheorems

  datatype Param = Param(name: string, text: string)

  ghost predicate IsPayload(ps: seq<Param>) {
    forall i, j :: 0 <= i < j < |ps| ==> Less(ps[i].name, ps[j].name)
  }

  function Quoted(p: Param): string {
    "\"" + ((p.name + "\"") + (":" + ("\"" + (p.text + "\""))))
  }

  // The parameters still to be written, and the end of the body.
  function Params(ps: seq<Param>, first: bool): (s: string)
    ensures |s| >= 2 && (s[0] == '\n' || s[0] == ',' || s[0] == '\"')
  {
    if ps == [] then "\n}"
    else (if first then "" else ",\n") + (Quoted(ps[0]) + Params(ps[1..], false))
  }

  function Body(ps: seq<Param>): string {
    "{\n" + Params(ps, true)
  }

  lemma Append(body: string, p: Param, rest: string)
    ensures (body + "\"" + p.name + "\":\"" + p.text + "\"") + rest == body + (Quoted(p) + rest)
  {
    assert "\":\"" == "\"" + (":" + "\"");
  }

  // The body of a single parameter.
  lemma OneParamText(p: Param)
    ensures Body([p]) == "{\n\"" + (p.name + ("\":\"" + (p.text + "\"\n}")))
  {
    assert [p][1..] == [] && Params([], false) == "\n}";
    assert "" + (Quoted(p) + "\n}") == Quoted(p) + "\n}";
    assert Quoted(p) + "\n}" == "\"" + (p.name + ("\":\"" + (p.text + "\"\n}")));
  }

  method BuildBody(payload: seq<Param>) returns (body: string)
    ensures body == Body(payload)
  {
    body := "{\n";
    assert payload[0..] == payload && payload[|payload|..] == [];
    for i := 0 to |payload|
      invariant body + Params(payload[i..], i == 0) == Body(payload)
    {
      hide Quoted;
      var p := payload[i];
      ghost var rest := Params(payload[i + 1..], false);
      assert payload[i..][1..] == payload[i + 1..];
      assert Params(payload[i..], i == 0) == (if i == 0 then "" else ",\n") + (Quoted(p) + rest);
      ghost var before := body;
      if i != 0 {
        body := body + ",\n";
      }
      assert body + (Quoted(p) + rest) == before + ((if i == 0 then "" else ",\n") + (Quoted(p) + rest));
      Append(body, p, rest);
      body := body + "\"" + p.name + "\":\"" + p.text + "\"";
    }
    body := body + "\n}";
  }

  // --- reading it back --------------------------------------------------------------------------

  // Text that a string literal holds as it stands: no quote, and no backslash but in \uXXXX, which
  // the parser leaves alone.
  predicate IsLiteral(t: string) {
    if t == "" then true
    else if t[0] == '\"' then false
    else if t[0] == '\\' then |t| >= 6 && t[1] == 'u' && HexFour(t, 2) && IsLiteral(t[6..])
    else IsLiteral(t[1..])
  }

  // How much of a literal one round of parse_string's loop takes.
  function Taken(t: string): nat {
    if t != "" && t[0] == '\\' then 6 else 1
  }

  lemma LiteralStep(s: string, off: nat, t: string, val: string)
    requires t != "" && IsLiteral(t) && Matches(s, off, t[..Taken(t)])
    ensures StringFrom(s, off, val) == StringFrom(s, off + Taken(t), val + t[..Taken(t)])
  {
    var n := Taken(t);
    assert s[off..off + n] == t[..n];
    assert forall i :: 0 <= i < n ==> s[off + i] == t[..n][i] == t[i];
    if n == 6 {
      assert HexFour(s, off + 2) by {
        assert forall i :: 2 <= i < 6 ==> IsHex(t[i]);
        forall j | off + 2 <= j < off + 6 ensures IsHex(s[j]) {
          assert s[off + (j - off)] == t[j - off];
        }
      }
      assert s[off + 1] == t[1];
    } else {
      assert t[..1] == [s[off]];
    }
  }

  lemma {:induction false} StringFromLiteral(s: string, off: nat, t: string, val: string)
    requires IsLiteral(t) && Matches(s, off, t + "\"")
    ensures StringFrom(s, off, val) == Ok(Str(val + t), off + |t| + 1)
    decreases |t|
  {
    hide Matches;
    if t == "" {
      assert val + t == val && t + "\"" == "\"";
      MatchesFirst(s, off, "\"");
    } else {
      hide StringFrom;
      var n := Taken(t);
      assert t + "\"" == t[..n] + (t[n..] + "\"");
      MatchesSplit(s, off, t[..n], t[n..] + "\"");
      LiteralStep(s, off, t, val);
      StringFromLiteral(s, off + n, t[n..], val + t[..n]);
      assert (val + t[..n]) + t[n..] == val + t;
    }
  }

  function EntryOf(p: Param): Entry {
    Entry(p.name, Str(p.text))
  }

  function EntriesOf(ps: seq<Param>): (es: seq<Entry>)
    ensures |es| == |ps|
  {
    seq(|ps|, i requires 0 <= i < |ps| => EntryOf(ps[i]))
  }

  predicate Loadable(ps: seq<Param>) {
    forall i :: 0 <= i < |ps| ==> IsEscaped(ps[i].name) && IsLiteral(ps[i].text)
  }

  // Where the parts of a parameter stand.
  lemma ParamParts(p: Param, s: string, q: nat)
    requires Matches(s, q, Quoted(p))
    ensures Matches(s, q, "\"") && Matches(s, q + 1, p.name + "\"")
    ensures var c := q + |p.name| + 2;
            Matches(s, c, ":") && Matches(s, c + 1, "\"") && Matches(s, c + 2, p.text + "\"")
            && q + |Quoted(p)| == c + 3 + |p.text|
  {
    hide Matches;
    var k, v := p.name + "\"", p.text + "\"";
    MatchesSplit(s, q, "\"", k + (":" + ("\"" + v)));
    MatchesSplit(s, q + 1, k, ":" + ("\"" + v));
    var c := q + |p.name| + 2;
    MatchesSplit(s, c, ":", "\"" + v);
    MatchesSplit(s, c + 1, "\"", v);
  }

  // parse_next on a quoted literal.
  lemma LiteralRead(s: string, off: nat, t: string)
    requires Matches(s, off, "\"") && Matches(s, off + 1, t + "\"") && IsLiteral(t)
    ensures NextAt(s, off) == Ok(Str(t), off + |t| + 2)
    ensures SpaceEnd(s, off) == Ok('\"', off)
  {
    hide StringFrom, IsLiteral, SpaceEnd;
    MatchesFirst(s, off, "\"");
    MatchesNothing(s, off);
    SpaceEndIs(s, off, "");
    StringFromLiteral(s, off + 1, t, "");
    assert "" + t == t;
  }

  // One round of parse_object's loop, up to the delimiter at last.
  lemma ParamRead(s: string, off: nat, w: string, p: Param, es: seq<Entry>, delim: char, last: nat)
    requires IsEscaped(p.name) && IsLiteral(p.text) && AllSpace(w)
    requires Matches(s, off, w) && Matches(s, off + |w|, Quoted(p))
    requires SpaceEnd(s, off + |w| + |Quoted(p)|) == Ok(delim, last) && (delim == ',' || delim == '}')
    ensures var es' := Insert(es, p.name, Str(p.text));
            EntryAt(s, off, es) == Ok(if delim == ',' then Again(es') else Done(es'), last + 1)
  {
    hide Matches, NextAt, SpaceEnd, EntryAt, Insert, IsLiteral, IsEscaped, ToText, Quoted;
    var q := off + |w|;
    ParamParts(p, s, q);
    var c := q + |p.name| + 2;
    KeyRead(s, off, w, p.name);
    MatchesFirst(s, c, ":");
    MatchesNothing(s, c);
    SpaceEndIs(s, c, "");
    LiteralRead(s, c + 1, p.text);
    EntryRound(s, off, es, Str(Unescape(p.name)), c, c, '\"', c + 1, Str(p.text), c + 3 + |p.text|, delim, last);
  }

  // What follows a parameter: a comma and a newline, or the end.
  lemma AfterParam(ps: seq<Param>, s: string, off: nat)
    requires Matches(s, off, Params(ps, false))
    ensures if ps == [] then SpaceEnd(s, off) == Ok('}', off + 1) && |Params(ps, false)| == 2
            else SpaceEnd(s, off) == Ok(',', off) && Matches(s, off + 1, "\n")
                 && Matches(s, off + 2, Quoted(ps[0]) + Params(ps[1..], false))
                 && |Params(ps, false)| == 2 + |Quoted(ps[0])| + |Params(ps[1..], false)|
  {
    hide Matches, Quoted;
    if ps == [] {
      assert Params(ps, false) == "\n" + "}";
      MatchesSplit(s, off, "\n", "}");
      MatchesFirst(s, off + 1, "}");
      SpaceEndIs(s, off, "\n");
    } else {
      var more := Quoted(ps[0]) + Params(ps[1..], false);
      assert Params(ps, false) == "," + ("\n" + more);
      MatchesSplit(s, off, ",", "\n" + more);
      MatchesSplit(s, off + 1, "\n", more);
      MatchesFirst(s, off, ",");
      MatchesNothing(s, off);
      SpaceEndIs(s, off, "");
    }
  }

  // The loop of parse_object about to read parameter i, after white space w.
  lemma {:induction false} ParamsRead(ps: seq<Param>, i: nat, w: string, s: string, off: nat)
    requires IsPayload(ps) && Loadable(ps) && i < |ps| && AllSpace(w) && Matches(s, off, w)
    requires Matches(s, off + |w|, Quoted(ps[i]) + Params(ps[i + 1..], false))
    ensures EntriesFrom(s, off, EntriesOf(ps)[..i]) ==
            Ok(Object(EntriesOf(ps)), off + |w| + |Quoted(ps[i])| + |Params(ps[i + 1..], false)|)
    decreases |ps| - i
  {
    hide Matches, EntryAt, SpaceEnd, Quoted, IsEscaped, IsLiteral, Params, Insert;
    var es := EntriesOf(ps);
    var rest := Params(ps[i + 1..], false);
    var after := off + |w| + |Quoted(ps[i])|;
    MatchesSplit(s, off + |w|, Quoted(ps[i]), rest);
    AfterParam(ps[i + 1..], s, after);
    InsertLast(es[..i], ps[i].name, Str(ps[i].text));
    assert es[..i] + [es[i]] == es[..i + 1];
    if i + 1 == |ps| {
      ParamRead(s, off, w, ps[i], es[..i], '}', after + 1);
      assert es[..i + 1] == es;
    } else {
      ParamRead(s, off, w, ps[i], es[..i], ',', after);
      assert ps[i + 1..][1..] == ps[i + 2..];
      ParamsRead(ps, i + 1, "\n", s, after + 1);
    }
  }

  // JSON::Load of a text whose first two characters other than white space are known.
  lemma LoadedObject(s: string, c: char, at: nat)
    requires s != "" && SpaceEnd(s, 0) == Ok('{', 0) && SpaceEnd(s, 1) == Ok(c, at)
    ensures Loaded(s) == if c == '}' then Ok(Object([]), at + 1) else EntriesFrom(s, at, [])
  {
    hide SpaceEnd, EntriesFrom, ArrayAt, StringAt, NumberAt, BoolAt, NullAt;
    assert NextAt(s, 0) == ObjectAt(s, 0);
  }

  // The body loads back as an object with exactly the payload's entries, none included.
  lemma BodyLoadsBack(ps: seq<Param>)
    requires IsPayload(ps) && Loadable(ps)
    ensures Loaded(Body(ps)) == Ok(Object(EntriesOf(ps)), |Body(ps)|)
  {
    hide Matches, EntriesFrom, SpaceEnd, Params, Quoted, IsPayload, Loadable, Loaded, EntriesOf;
    var s := Body(ps);
    FirstParam(ps);
    BodyStart(ps);
    if ps == [] {
      LoadedObject(s, '}', 3);
      assert Loaded(s) == Ok(Object([]), 4);
    } else {
      LoadedObject(s, '\"', 2);
      assert Loaded(s) == EntriesFrom(s, 2, []);
      assert EntriesOf(ps)[..0] == [];
      assert ps[0 + 1..] == ps[1..];
      ParamsRead(ps, 0, "", s, 2);
    }
  }

  // The front of a text that starts with a brace and white space.
  lemma BraceThen(s: string, w: string, rest: string)
    requires s == "{" + (w + rest) && AllSpace(w) && rest != "" && !IsSpace(rest[0])
    ensures SpaceEnd(s, 0) == Ok('{', 0) && SpaceEnd(s, 1) == Ok(rest[0], 1 + |w|)
    ensures Matches(s, 1 + |w|, rest) && Matches(s, 1 + |w|, "")
  {
    hide Matches, SpaceEnd;
    WholeMatches(s);
    MatchesSplit(s, 0, "{", w + rest);
    MatchesFirst(s, 0, "{");
    MatchesNothing(s, 0);
    SpaceEndIs(s, 0, "");
    MatchesSplit(s, 1, w, rest);
    MatchesFirst(s, 1 + |w|, rest);
    SpaceEndIs(s, 1, w);
    MatchesNothing(s, 1 + |w|);
  }

  lemma MatchesNothing(s: string, off: nat)
    requires off <= |s|
    ensures Matches(s, off, "")
  {
  }

  lemma BodyStart(ps: seq<Param>)
    ensures var s := Body(ps);
            && s != "" && SpaceEnd(s, 0) == Ok('{', 0)
            && (if ps == [] then SpaceEnd(s, 1) == Ok('}', |s| - 1) && |s| == 4
                else
                  && SpaceEnd(s, 1) == Ok('\"', 2) && Matches(s, 2, "")
                  && Matches(s, 2, Quoted(ps[0]) + Params(ps[1..], false))
                  && |s| == 2 + |Quoted(ps[0])| + |Params(ps[1..], false)|)
  {
    hide Matches, SpaceEnd, Params, Quoted;
    var s := Body(ps);
    FirstParam(ps);
    if ps == [] {
      assert s == "{" + ("\n\n" + "}");
      BraceThen(s, "\n\n", "}");
    } else {
      assert s == "{" + ("\n" + Params(ps, true));
      BraceThen(s, "\n", Params(ps, true));
    }
  }

  lemma WholeMatches(s: string)
    ensures Matches(s, 0, s)
  {
  }

  lemma FirstParam(ps: seq<Param>)
    ensures ps == [] ==> "\n" + Params(ps, true) == "\n\n" + "}" && Params(ps, true) == "\n}"
    ensures ps != [] ==>
              var more := Quoted(ps[0]) + Params(ps[1..], false);
              Params(ps, true) == more && "" + more == more && more != "" && more[0] == '\"'
    ensures EntriesOf(ps)[..0] == [] && (ps == [] ==> EntriesOf(ps) == [])
  {
  }

  // --- the server's own payload: one parameter --------------------------------------------------------

  // A string literal is no longer than what it is read from.
  lemma {:induction false} LiteralLength(s: string, off: nat, val: string)
    requires StringFrom(s, off, val).Ok?
    ensures var r := StringFrom(s, off, val); |r.value.text| + 1 <= |val| + (r.offset - off)
    decreases |s| - off
  {
    if s[off] == '\"' {
    } else if s[off] != '\\' {
      LiteralLength(s, off + 1, val + [s[off]]);
    } else if CharAt(s, off + 1) != 'u' {
      LiteralLength(s, off + 2, val + [EscapeMeaning(CharAt(s, off + 1))]);
    } else if HexFour(s, off + 2) {
      LiteralLength(s, off + 6, val + s[off..off + 6]);
    }
  }

  lemma StringLength(s: string, off: nat)
    requires off <= |s| && NextAt(s, off).Ok? && NextAt(s, off).value.Str?
    ensures |NextAt(s, off).value.text| + 2 <= |s| - off
  {
    hide StringFrom, ObjectAt, ArrayAt, NumberEnd, ExponentAt, Stol, StodConverts, Matches;
    var at := SpaceEnd(s, off).offset;
    assert CharAt(s, at) == '\"' by {
      NotStrings(s, off);
    }
    LiteralLength(s, at + 1, "");
  }

  // Only a quote starts a string.
  lemma NotStrings(s: string, off: nat)
    requires off <= |s| && NextAt(s, off).Ok? && NextAt(s, off).value.Str?
    ensures SpaceEnd(s, off).Ok? && SpaceEnd(s, off).value == '\"'
  {
    hide StringFrom, NumberEnd, ExponentAt, Stol, StodConverts, Matches, SpaceEnd, EntriesFrom, ItemsFrom;
    var at := SpaceEnd(s, off);
    if at.Ok? && at.value == '{' {
      ObjectOnly(s, at.offset);
    } else if at.Ok? && at.value == '[' {
      ArrayOnly(s, at.offset);
    }
  }

  lemma ObjectOnly(s: string, at: nat)
    requires at < |s|
    ensures ObjectAt(s, at).Ok? ==> ObjectAt(s, at).value.Object?
  {
    hide SpaceEnd, EntryAt;
    if SpaceEnd(s, at + 1).value != '}' {
      EntriesOnly(s, SpaceEnd(s, at + 1).offset, []);
    }
  }

  lemma {:induction false} EntriesOnly(s: string, off: nat, es: seq<Entry>)
    ensures EntriesFrom(s, off, es).Ok? ==> EntriesFrom(s, off, es).value.Object?
    decreases if off <= |s| then |s| - off else 0, 4
  {
    var round := EntryAt(s, off, es);
    hide EntryAt;
    if round.Ok? && round.value.Again? && round.offset <= |s| {
      EntriesOnly(s, round.offset, round.value.soFar);
    } else if round.Ok? && round.value.Again? {
      BeyondEnd(s, round.offset, round.value.soFar);
    }
  }

  lemma BeyondEnd(s: string, off: nat, es: seq<Entry>)
    requires off > |s|
    ensures !EntriesFrom(s, off, es).Ok?
  {
    assert !SpaceEnd(s, off).Ok?;
    assert !NextAt(s, off).Ok?;
    assert !EntryAt(s, off, es).Ok?;
  }

  lemma ArrayOnly(s: string, at: nat)
    requires at < |s|
    ensures ArrayAt(s, at).Ok? ==> ArrayAt(s, at).value.Array?
  {
    hide SpaceEnd, ItemAt;
    if SpaceEnd(s, at + 1).value != ']' {
      ItemsOnly(s, SpaceEnd(s, at + 1).offset, []);
    }
  }

  lemma {:induction false} ItemsOnly(s: string, off: nat, vs: seq<Json>)
    ensures ItemsFrom(s, off, vs).Ok? ==> ItemsFrom(s, off, vs).value.Array?
    decreases if off <= |s| then |s| - off else 0, 4
  {
    var round := ItemAt(s, off, vs);
    if round.Ok? && round.value.Again? {
      if off <= |s| {
        ItemsOnly(s, round.offset, round.value.soFar);
      }
    }
  }

  // One round of parse_object's loop never stores a text that does not fit in what is left.
  lemma EntryFits(s: string, off: nat, es: seq<Entry>, k: string, t: string)
    requires Sorted(es) && off <= |s| && |t| + 2 > |s| - off && Find(es, k) != Some(Str(t))
    requires EntryAt(s, off, es).Ok?
    ensures var es' := match EntryAt(s, off, es).value case Again(r) => r case Done(r) => r;
            Sorted(es') && Find(es', k) != Some(Str(t))
  {
    hide NextAt, SpaceEnd, Insert, Find, ToText, Sorted;
    var key := NextAt(s, off);
    var colon := SpaceEnd(s, key.offset);
    if colon.value == ':' {
      var at := SpaceEnd(s, colon.offset + 1).offset;
      var value := NextAt(s, at).value;
      InsertSorted(es, ToText(key.value), value);
      FindInsert(es, ToText(key.value), value, k);
      if value.Str? {
        StringLength(s, at);
      }
    }
  }

  lemma {:induction false} EntriesFit(s: string, off: nat, es: seq<Entry>, k: string, t: string)
    requires Sorted(es) && off <= |s| && |t| + 2 > |s| - off && Find(es, k) != Some(Str(t))
    requires EntriesFrom(s, off, es).Ok? && EntriesFrom(s, off, es).value.Object?
    ensures Find(EntriesFrom(s, off, es).value.entries, k) != Some(Str(t))
    decreases |s| - off
  {
    EntryFits(s, off, es, k, t);
    var round := EntryAt(s, off, es);
    hide EntryAt, Sorted, Find;
    if round.value.Again? {
      if round.offset > |s| {
        BeyondEnd(s, round.offset, round.value.soFar);
      }
      EntriesFit(s, round.offset, round.value.soFar, k, t);
    }
  }

  // What is read of a text that is no literal is shorter than the text.
  lemma {:induction false} NotLiteral(s: string, off: nat, text: string, val: string)
    requires off <= |s| && s[off..] == text + "\"\n}" && !IsLiteral(text) && StringFrom(s, off, val).Ok?
    ensures |StringFrom(s, off, val).value.text| < |val| + |text|
    decreases |text|
  {
    var all := text + "\"\n}";
    assert forall i :: 0 <= i < |all| ==> s[off + i] == s[off..][i] == all[i];
    if text[0] == '\"' {
    } else if text[0] != '\\' {
      Shorter(s, off, text, 1);
      NotLiteral(s, off + 1, text[1..], val + [s[off]]);
    } else if |text| == 1 {
      assert all[1] == '\"' && all[2] == '\n' && all[3] == '}';
      Unclosed(s, off + 2, val + ['\"']);
    } else if text[1] != 'u' {
      Shorter(s, off, text, 2);
      var more := val + [EscapeMeaning(CharAt(s, off + 1))];
      if IsLiteral(text[2..]) {
        LiteralThen(s, off + 2, text[2..], more);
      } else {
        NotLiteral(s, off + 2, text[2..], more);
      }
    } else if HexFour(s, off + 2) {
      HexFourInside(s, off, text);
      Shorter(s, off, text, 6);
      NotLiteral(s, off + 6, text[6..], val + s[off..off + 6]);
    }
  }

  lemma Shorter(s: string, off: nat, text: string, n: nat)
    requires off <= |s| && s[off..] == text + "\"\n}" && n <= |text|
    ensures s[off + n..] == text[n..] + "\"\n}"
  {
    assert s[off + n..] == s[off..][n..];
  }

  lemma LiteralThen(s: string, off: nat, text: string, val: string)
    requires off <= |s| && s[off..] == text + "\"\n}" && IsLiteral(text)
    ensures StringFrom(s, off, val) == Ok(Str(val + text), off + |text| + 1)
  {
    assert s[off..off + |text| + 1] == s[off..][..|text| + 1] == text + "\"";
    StringFromLiteral(s, off, text, val);
  }

  // A literal that runs into the end of the body.
  lemma Unclosed(s: string, off: nat, val: string)
    requires off + 2 == |s| && s[off] == '\n' && s[off + 1] == '}'
    ensures StringFrom(s, off, val) == Overrun
  {
    assert StringFrom(s, off + 2, val + [s[off]] + [s[off + 1]]) == Overrun;
    assert StringFrom(s, off + 1, val + [s[off]]) == Overrun;
  }

  lemma HexFourInside(s: string, off: nat, text: string)
    requires off <= |s| && s[off..] == text + "\"\n}" && |text| >= 2 && HexFour(s, off + 2)
    ensures |text| >= 6 && HexFour(text, 2)
  {
    var all := text + "\"\n}";
    assert forall i :: 0 <= i < |all| ==> s[off + i] == s[off..][i] == all[i];
    assert s[off + |text|] == all[|text|] == '\"';
    assert |text| >= 6;
    forall i | 2 <= i < 6 ensures IsHex(text[i]) {
      assert IsHex(s[off + i]);
    }
  }

  // Where the parts of a body of one parameter stand, its name in escaped form.
  lemma OneParts(p: Param) returns (s: string, c: nat)
    requires IsEscaped(p.name)
    ensures s == Body([p]) && c == |p.name| + 4 && |s| == c + 5 + |p.text|
    ensures Loaded(s) == EntriesFrom(s, 2, []) && NextAt(s, 2) == Ok(Str(Unescape(p.name)), c)
    ensures ToText(Str(Unescape(p.name))) == p.name
    ensures SpaceEnd(s, c) == Ok(':', c) && SpaceEnd(s, c + 1) == Ok('\"', c + 1) && s[c + 2..] == p.text + "\"\n}"
  {
    hide Matches, EntriesFrom, SpaceEnd, Quoted, IsEscaped, Unescape, Loaded, NextAt, ToText;
    s := Body([p]);
    c := |p.name| + 4;
    BodyStart([p]);
    assert [p][1..] == [] && Params([], false) == "\n}";
    LoadedObject(s, '\"', 2);
    MatchesSplit(s, 2, Quoted(p), "\n}");
    ParamParts(p, s, 2);
    KeyRead(s, 2, "", p.name);
    NoSpaceBefore(s, c, ":");
    NoSpaceBefore(s, c + 1, "\"");
    EndOf(s, c + 2, p.text + "\"", "\n}");
    assert (p.text + "\"") + "\n}" == p.text + "\"\n}";
  }

  lemma NoSpaceBefore(s: string, off: nat, t: string)
    requires Matches(s, off, t) && t != "" && !IsSpace(t[0])
    ensures SpaceEnd(s, off) == Ok(t[0], off)
  {
    hide Matches, SpaceEnd;
    MatchesFirst(s, off, t);
    MatchesNothing(s, off);
    SpaceEndIs(s, off, "");
  }

  lemma EndOf(s: string, off: nat, a: string, b: string)
    requires Matches(s, off, a) && Matches(s, off + |a|, b) && off + |a| + |b| == |s|
    ensures s[off..] == a + b
  {
    assert s[off..] == s[off..off + |a|] + s[off + |a|..];
  }

  lemma QuoteStarts(s: string, off: nat)
    requires off < |s| && SpaceEnd(s, off) == Ok('\"', off)
    ensures NextAt(s, off) == StringFrom(s, off + 1, "")
  {
    hide StringFrom, SpaceEnd;
  }

  // The first round of parse_object's loop stores something shorter than the value.
  lemma FirstStored(s: string, key: Json, p: Param, c: nat) returns (w: string, n: nat, again: bool)
    requires EntriesFrom(s, 2, []).Ok? && !IsLiteral(p.text) && |s| == c + 5 + |p.text|
    requires NextAt(s, 2) == Ok(key, c) && ToText(key) == p.name
    requires SpaceEnd(s, c) == Ok(':', c) && SpaceEnd(s, c + 1) == Ok('\"', c + 1) && s[c + 2..] == p.text + "\"\n}"
    ensures |w| < |p.text|
    ensures if again then n >= c + 4 && EntriesFrom(s, 2, []) == EntriesFrom(s, n, [Entry(p.name, Str(w))])
            else EntriesFrom(s, 2, []).value == Object([Entry(p.name, Str(w))])
  {
    QuoteStarts(s, c + 1);
    var value := StringFrom(s, c + 2, "");
    var round := EntryAt(s, 2, []);
    assert round.Ok? && value.Ok? by {
      hide NextAt, SpaceEnd, StringFrom, ToText;
    }
    NotLiteral(s, c + 2, p.text, "");
    w := value.value.text;
    hide NextAt, SpaceEnd, StringFrom, ToText, IsLiteral;
    var last := SpaceEnd(s, value.offset);
    assert Insert([], p.name, value.value) == [Entry(p.name, Str(w))];
    n, again := round.offset, round.value.Again?;
  }

  // A value that is no literal does not come back.
  lemma OneLost(p: Param)
    requires IsEscaped(p.name) && !IsLiteral(p.text)
    ensures !Loaded(Body([p])).Ok? || Loaded(Body([p])).value != Object([EntryOf(p)])
  {
    var s, c := OneParts(p);
    hide Loaded, IsLiteral, IsEscaped, Unescape, SpaceEnd, Body, NextAt, ToText, EntryAt;
    if Loaded(s).Ok? && Loaded(s).value == Object([EntryOf(p)]) {
      var w, n, again := FirstStored(s, Str(Unescape(p.name)), p, c);
      if again {
        if n > |s| {
          BeyondEnd(s, n, [Entry(p.name, Str(w))]);
        }
        EntriesFit(s, n, [Entry(p.name, Str(w))], p.name, p.text);
      }
    }
  }

  // The body of a single parameter, which is what the server sends: it loads back as just that exactly
  // if the name is in escaped form and the value a literal.
  lemma OneParamExactly(p: Param)
    ensures Loaded(Body([p])).Ok? && Loaded(Body([p])).value == Object([EntryOf(p)]) <==>
            IsEscaped(p.name) && IsLiteral(p.text)
  {
    hide Loaded, IsLiteral, IsEscaped, Body;
    if IsEscaped(p.name) && IsLiteral(p.text) {
      BodyLoadsBack([p]);
      assert EntriesOf([p]) == [EntryOf(p)];
    } else if Loaded(Body([p])).Ok? && Loaded(Body([p])).value == Object([EntryOf(p)]) {
      KeysAreEscaped(Body([p]), EntryOf(p));
      OneLost(p);
    }
  }

  lemma KeysAreEscaped(s: string, e: Entry)
    requires Loaded(s).Ok? && Loaded(s).value == Object([e])
    ensures IsEscaped(e.key)
  {
    hide NextAt, IsEscaped;
    ParsedWellFormed(s, 0);
    assert KeysEscaped(Object([e])) && Object([e]).entries[0] == e;
  }
}
