/**
 What printing and parsing promise each other: json.hpp's dump and Load.
 */
module JsonTheorems {
  import opened CText
  import opened Json
  import opened JsonParser

  // --- everything the parser returns can be in memory, with keys in escaped form ----------

  ghost predicate WellFormed(v: Json) {
    Representable(v) && KeysEscaped(v)
  }

  lemma ToTextEscaped(v: Json)
    ensures IsEscaped(ToText(v))
  {
    if v.Str? {
      EscapeIsEscaped(v.text);
    }
  }

  lemma InsertWellFormed(es: seq<Entry>, k: string, v: Json)
    requires WellFormed(Object(es)) && WellFormed(v) && IsEscaped(k)
    ensures WellFormed(Object(Insert(es, k, v)))
  {
    InsertSorted(es, k, v);
    InsertKeys(es, k, v);
    var r := Insert(es, k, v);
    forall i | 0 <= i < |r| ensures WellFormed(r[i].value) && IsEscaped(r[i].key) {
      assert r[i] in r;
    }
  }

  // On every text and from every offset, error paths included.
  lemma {:induction false} ParsedWellFormed(s: string, off: nat)
    ensures NextAt(s, off).Ok? ==> WellFormed(NextAt(s, off).value)
    decreases if off <= |s| then |s| - off else 0, 2
  {
    var ws := SpaceEnd(s, off);
    if ws.Ok? && ws.offset < |s| {
      var at := ws.offset;
      if s[at] == '{' {
        EntriesWellFormed(s, SpaceEnd(s, at + 1).offset, []);
      } else if s[at] == '[' {
        ItemsWellFormed(s, SpaceEnd(s, at + 1).offset, []);
      }
    }
  }

  lemma {:induction false} EntriesWellFormed(s: string, off: nat, es: seq<Entry>)
    requires WellFormed(Object(es))
    ensures EntriesFrom(s, off, es).Ok? ==> WellFormed(EntriesFrom(s, off, es).value)
    decreases if off <= |s| then |s| - off else 0, 4
  {
    EntryWellFormed(s, off, es);
    var round := EntryAt(s, off, es);
    if round.Ok? && round.value.Again? {
      EntriesWellFormed(s, round.offset, round.value.soFar);
    }
  }

  lemma {:induction false} EntryWellFormed(s: string, off: nat, es: seq<Entry>)
    requires WellFormed(Object(es))
    ensures EntryAt(s, off, es).Ok? ==>
              WellFormed(Object(match EntryAt(s, off, es).value case Again(r) => r case Done(r) => r))
    decreases if off <= |s| then |s| - off else 0, 3
  {
    hide NextAt, SpaceEnd, ToText, Insert, IsEscaped, KeysEscaped, Representable, WellFormed;
    var key := NextAt(s, off);
    ParsedWellFormed(s, off);
    if key.Ok? && SpaceEnd(s, key.offset).Ok? {
      var colon := SpaceEnd(s, key.offset).offset;
      if CharAt(s, colon) == ':' && SpaceEnd(s, colon + 1).Ok? {
        var at := SpaceEnd(s, colon + 1).offset;
        ParsedWellFormed(s, at);
        if NextAt(s, at).Ok? {
          ToTextEscaped(key.value);
          InsertWellFormed(es, ToText(key.value), NextAt(s, at).value);
        }
      }
    }
  }

  lemma {:induction false} ItemsWellFormed(s: string, off: nat, vs: seq<Json>)
    requires WellFormed(Array(vs))
    ensures ItemsFrom(s, off, vs).Ok? ==> WellFormed(ItemsFrom(s, off, vs).value)
    decreases if off <= |s| then |s| - off else 0, 4
  {
    ParsedWellFormed(s, off);
    var round := ItemAt(s, off, vs);
    if round.Ok? && round.value.Again? {
      ItemsWellFormed(s, round.offset, round.value.soFar);
    }
  }

  // --- reading back single tokens ---------------------------------------------------------

  lemma MatchesSplit(s: string, off: nat, a: string, b: string)
    requires Matches(s, off, a + b)
    ensures Matches(s, off, a) && Matches(s, off + |a|, b)
  {
    assert s[off..off + |a|] == (a + b)[..|a|] == a;
    assert s[off + |a|..off + |a| + |b|] == (a + b)[|a|..] == b;
  }

  lemma MatchesFirst(s: string, off: nat, t: string)
    requires Matches(s, off, t) && t != []
    ensures off < |s| && s[off] == t[0] && CharAt(s, off) == t[0] && off + |t| <= |s|
  {
    assert s[off] == s[off..off + |t|][0];
  }

  lemma SpaceEndIs(s: string, off: nat, w: string)
    requires Matches(s, off, w) && AllSpace(w) && !IsSpace(CharAt(s, off + |w|))
    ensures SpaceEnd(s, off) == Ok(CharAt(s, off + |w|), off + |w|)
    decreases |w|
  {
    if w != [] {
      assert s[off] == w[0];
      assert Matches(s, off + 1, w[1..]);
      SpaceEndIs(s, off + 1, w[1..]);
    }
  }

  lemma EscapeCharRead(s: string, off: nat, c: char, val: string)
    requires Matches(s, off, EscapeChar(c))
    ensures StringFrom(s, off, val) == StringFrom(s, off + |EscapeChar(c)|, val + [c])
  {
    var e := EscapeChar(c);
    assert s[off] == s[off..off + |e|][0];
    if |e| == 2 {
      assert s[off + 1] == s[off..off + |e|][1];
    }
  }

  // parse_string undoes json_escape.
  lemma {:induction false} StringFromEscape(s: string, off: nat, t: string, val: string)
    requires Matches(s, off, Escape(t) + "\"")
    ensures StringFrom(s, off, val) == Ok(Str(val + t), off + |Escape(t)| + 1)
    decreases |t|
  {
    hide Matches, EscapeChar;
    if t == [] {
      assert Escape(t) + "\"" == "\"";
      MatchesFirst(s, off, "\"");
      assert val + t == val;
    } else {
      hide StringFrom;
      EscapeSplit(t, "\"");
      var e := EscapeChar(t[0]);
      MatchesSplit(s, off, e, Escape(t[1..]) + "\"");
      EscapeCharRead(s, off, t[0], val);
      StringFromEscape(s, off + |e|, t[1..], val + [t[0]]);
      assert val + [t[0]] + t[1..] == val + t;
    }
  }

  lemma EscapeSplit(t: string, rest: string)
    requires t != []
    ensures Escape(t) + rest == EscapeChar(t[0]) + (Escape(t[1..]) + rest)
    ensures |Escape(t)| == |EscapeChar(t[0])| + |Escape(t[1..])|
  {
  }

  lemma NumberEndIs(s: string, off: nat, d: string)
    requires Matches(s, off, d) && forall i :: 0 <= i < |d| ==> IsNumberChar(d[i])
    requires !IsNumberChar(CharAt(s, off + |d|))
    ensures NumberEnd(s, off) == off + |d|
    decreases |d|
  {
    if d != [] {
      assert s[off] == d[0];
      assert Matches(s, off + 1, d[1..]);
      NumberEndIs(s, off + 1, d[1..]);
    }
  }

  lemma DecimalChars(n: int)
    ensures ToDecimal(n) != [] && '.' !in ToDecimal(n)
    ensures forall i :: 0 <= i < |ToDecimal(n)| ==> IsNumberChar(ToDecimal(n)[i])
  {
  }

  lemma NumberAtDecimal(s: string, off: nat, n: int)
    requires LONG_MIN <= n <= LONG_MAX && Matches(s, off, ToDecimal(n))
    ensures var end := off + |ToDecimal(n)|;
            && (IsDelimiter(CharAt(s, end)) ==> NumberAt(s, off) == Ok(Integral(n), end))
            && (end == |s| ==> NumberAt(s, off) == Ok(Null, end + 1))
  {
    hide SignedPrefix, ToDecimal, NumberEnd;
    var d := ToDecimal(n);
    SignedPrefixOfDecimal(n);
    DecimalChars(n);
    if !IsNumberChar(CharAt(s, off + |d|)) {
      NumberEndIs(s, off, d);
    }
  }

  // --- reading back a dump ----------------------------------------------------------------

  ghost predicate Faithful(v: Json) {
    Representable(v) && FloatFree(v) && KeysEscaped(v)
  }

  // A printed value starts with no white space and with no closing bracket.
  lemma DumpStart(v: Json, depth: nat, tab: string)
    requires FloatFree(v)
    ensures Dumped(v, depth, tab) != []
    ensures !IsSpace(Dumped(v, depth, tab)[0]) && Dumped(v, depth, tab)[0] !in "]}"
  {
  }

  // White space before a value makes no difference.
  lemma NextAfterSpace(s: string, off: nat, w: string)
    requires Matches(s, off, w) && AllSpace(w) && !IsSpace(CharAt(s, off + |w|))
    ensures NextAt(s, off) == NextAt(s, off + |w|)
  {
    hide ArrayAt, ObjectAt, StringFrom, NumberAt;
    SpaceEndIs(s, off, w);
    SpaceEndIs(s, off + |w|, []);
  }

  // Where v was printed at off, parse_next reads v and stops right after it.
  lemma {:induction false} NextOfDump(v: Json, depth: nat, tab: string, s: string, off: nat)
    requires Faithful(v) && AllSpace(tab)
    requires Matches(s, off, Dumped(v, depth, tab))
    requires v.Integral? ==> IsDelimiter(CharAt(s, off + |Dumped(v, depth, tab)|))
    ensures NextAt(s, off) == Ok(v, off + |Dumped(v, depth, tab)|)
    decreases v, 1
  {
    hide Escape, StringFrom, NumberAt, ArrayAt, ObjectAt, DumpedItems, DumpedEntries, ToDecimal;
    var d := Dumped(v, depth, tab);
    DumpStart(v, depth, tab);
    MatchesFirst(s, off, d);
    SpaceEndIs(s, off, []);
    match v
    case Null =>
    case Boolean(b) =>
    case Str(t) =>
      assert d == "\"" + (Escape(t) + "\"");
      MatchesSplit(s, off, "\"", Escape(t) + "\"");
      StringFromEscape(s, off + 1, t, "");
      assert "" + t == t;
    case Integral(n) =>
      DecimalChars(n);
      NumberAtDecimal(s, off, n);
    case Array(vs) => ArrayOfDump(vs, depth, tab, s, off);
    case Object(es) => ObjectOfDump(es, depth, tab, s, off);
  }

  // The items of vs from the first on, with the closing bracket.
  ghost function ItemsText(vs: seq<Json>, depth: nat, tab: string): string
    requires vs != [] && forall i :: 0 <= i < |vs| ==> FloatFree(vs[i])
  {
    Dumped(vs[0], depth + 1, tab) + (DumpedItems(vs[1..], false, depth, tab) + "]")
  }

  lemma ItemsTextFits(vs: seq<Json>, depth: nat, tab: string)
    requires vs != [] && forall i :: 0 <= i < |vs| ==> FloatFree(vs[i])
    ensures var text := ItemsText(vs, depth, tab);
            && text != [] && !IsSpace(text[0]) && text[0] != ']'
            && DumpedItems(vs, true, depth, tab) + "]" == text
            && DumpedItems(vs, false, depth, tab) + "]" == "," + (" " + text)
  {
    hide Dumped;
    var first, rest := Dumped(vs[0], depth + 1, tab), DumpedItems(vs[1..], false, depth, tab);
    DumpStart(vs[0], depth + 1, tab);
    assert ItemsText(vs, depth, tab)[0] == first[0];
    assert DumpedItems(vs, true, depth, tab) == "" + first + rest;
    assert DumpedItems(vs, false, depth, tab) == ", " + first + rest;
    RegroupItems(first, rest);
  }

  lemma RegroupItems(first: string, rest: string)
    ensures "" + first + rest + "]" == first + (rest + "]")
    ensures ", " + first + rest + "]" == "," + (" " + (first + (rest + "]")))
  {
  }

  lemma {:induction false} ArrayOfDump(vs: seq<Json>, depth: nat, tab: string, s: string, off: nat)
    requires Faithful(Array(vs)) && AllSpace(tab)
    requires Matches(s, off, Dumped(Array(vs), depth, tab))
    ensures ArrayAt(s, off) == Ok(Array(vs), off + |Dumped(Array(vs), depth, tab)|)
    decreases vs, 3
  {
    hide Matches, ItemsFrom, SpaceEnd, ItemsText;
    var items := DumpedItems(vs, true, depth, tab);
    assert Dumped(Array(vs), depth, tab) == "[" + (items + "]");
    MatchesSplit(s, off, "[", items + "]");
    MatchesFirst(s, off, "[");
    MatchesFirst(s, off + 1, items + "]");
    MatchesSplit(s, off + 1, [], items + "]");
    assert [] + (items + "]") == items + "]";
    if vs == [] {
      assert items + "]" == "]";
      SpaceEndIs(s, off + 1, []);
    } else {
      ItemsTextFits(vs, depth, tab);
      SpaceEndIs(s, off + 1, []);
      assert vs[..0] == [] && vs[0..] == vs;
      ItemsOfDump(vs, 0, [], depth, tab, s, off + 1);
    }
  }

  // The loop of parse_array reads item i after white space w and finds a comma or the bracket.
  lemma {:induction false} ItemOfDump(vs: seq<Json>, i: nat, w: string, depth: nat, tab: string, s: string, off: nat)
    requires Faithful(Array(vs)) && AllSpace(tab) && AllSpace(w) && i < |vs|
    requires Matches(s, off, w) && Matches(s, off + |w|, Dumped(vs[i], depth + 1, tab))
    requires var c := CharAt(s, off + |w| + |Dumped(vs[i], depth + 1, tab)|); c == ',' || c == ']'
    ensures var after := off + |w| + |Dumped(vs[i], depth + 1, tab)|;
            ItemAt(s, off, vs[..i]) ==
            Ok(if CharAt(s, after) == ',' then Again(vs[..i + 1]) else Done(vs[..i + 1]), after + 1)
    decreases vs, 1
  {
    hide NextAt, SpaceEnd, Dumped, Matches;
    var first := Dumped(vs[i], depth + 1, tab);
    DumpStart(vs[i], depth + 1, tab);
    MatchesFirst(s, off + |w|, first);
    NextAfterSpace(s, off, w);
    NextOfDump(vs[i], depth + 1, tab, s, off + |w|);
    MatchesSplit(s, off + |w| + |first|, [], []);
    SpaceEndIs(s, off + |w| + |first|, []);
    assert vs[..i] + [vs[i]] == vs[..i + 1];
  }

  // The loop about to read item i, after some white space w.
  lemma {:induction false} ItemsOfDump(vs: seq<Json>, i: nat, w: string, depth: nat, tab: string, s: string, off: nat)
    requires Faithful(Array(vs)) && AllSpace(tab) && AllSpace(w) && i < |vs|
    requires Matches(s, off, w + ItemsText(vs[i..], depth, tab))
    ensures ItemsFrom(s, off, vs[..i]) == Ok(Array(vs), off + |w| + |ItemsText(vs[i..], depth, tab)|)
    decreases vs, 2, |vs| - i
  {
    hide Matches, ItemAt, Dumped, DumpedItems, ItemsText;
    var after := off + |w| + |Dumped(vs[i], depth + 1, tab)|;
    SplitItem(vs, i, w, depth, tab, s, off);
    var rest := DumpedItems(vs[i + 1..], false, depth, tab) + "]";
    if i + 1 == |vs| {
      EmptyItems(vs[i + 1..], depth, tab);
      MatchesFirst(s, after, rest);
      ItemOfDump(vs, i, w, depth, tab, s, off);
      assert vs[..i + 1] == vs;
    } else {
      ItemsTextFits(vs[i + 1..], depth, tab);
      var text := ItemsText(vs[i + 1..], depth, tab);
      MatchesSplit(s, after, ",", " " + text);
      MatchesFirst(s, after, ",");
      ItemOfDump(vs, i, w, depth, tab, s, off);
      ItemsOfDump(vs, i + 1, " ", depth, tab, s, after + 1);
    }
  }

  lemma SplitItem(vs: seq<Json>, i: nat, w: string, depth: nat, tab: string, s: string, off: nat)
    requires i < |vs| && forall i :: 0 <= i < |vs| ==> FloatFree(vs[i])
    requires Matches(s, off, w + ItemsText(vs[i..], depth, tab))
    ensures var first, rest := Dumped(vs[i], depth + 1, tab), DumpedItems(vs[i + 1..], false, depth, tab) + "]";
            && Matches(s, off, w) && Matches(s, off + |w|, first) && Matches(s, off + |w| + |first|, rest)
            && |ItemsText(vs[i..], depth, tab)| == |first| + |rest|
  {
    hide Matches, Dumped, DumpedItems;
    assert vs[i..][1..] == vs[i + 1..];
    var first, rest := Dumped(vs[i], depth + 1, tab), DumpedItems(vs[i + 1..], false, depth, tab) + "]";
    MatchesSplit(s, off, w, first + rest);
    MatchesSplit(s, off + |w|, first, rest);
  }

  lemma EmptyItems(vs: seq<Json>, depth: nat, tab: string)
    requires vs == []
    ensures DumpedItems(vs, false, depth, tab) + "]" == "]"
  {
  }

  lemma {:induction false} PadIsSpace(depth: nat, tab: string)
    requires AllSpace(tab)
    ensures AllSpace(Pad(depth, tab))
  {
    if depth > 0 {
      PadIsSpace(depth - 1, tab);
    }
  }

  // The entries of es from the first on, with what closes the object.
  ghost function EntriesText(es: seq<Entry>, depth: nat, tab: string): string
    requires es != [] && forall i :: 0 <= i < |es| ==> FloatFree(es[i].value)
  {
    DumpedEntry(es[0], depth, tab) + (DumpedEntries(es[1..], false, depth, tab) + Closing(depth, tab))
  }

  lemma Regroup(pad: string, entry: string, rest: string, close: string)
    ensures "\n" + (pad + entry + rest + close) == ("\n" + pad) + (entry + (rest + close))
    ensures ",\n" + pad + entry + rest + close == "," + (("\n" + pad) + (entry + (rest + close)))
  {
  }

  lemma EntriesTextFits(es: seq<Entry>, depth: nat, tab: string)
    requires es != [] && forall i :: 0 <= i < |es| ==> FloatFree(es[i].value)
    ensures var pad := "\n" + Pad(depth, tab);
            && "\n" + (DumpedEntries(es, true, depth, tab) + Closing(depth, tab)) == pad + EntriesText(es, depth, tab)
            && DumpedEntries(es, false, depth, tab) + Closing(depth, tab) == "," + (pad + EntriesText(es, depth, tab))
  {
    hide Closing, DumpedEntry, Pad;
    var pad := Pad(depth, tab);
    Regroup(pad, DumpedEntry(es[0], depth, tab), DumpedEntries(es[1..], false, depth, tab), Closing(depth, tab));
    assert "" + pad == pad;
  }

  lemma DumpedObjectText(es: seq<Entry>, depth: nat, tab: string)
    requires FloatFree(Object(es))
    ensures Dumped(Object(es), depth, tab) == "{" + ("\n" + (DumpedEntries(es, true, depth, tab) + Closing(depth, tab)))
  {
    hide DumpedEntries, Closing;
  }

  lemma EmptyObject(depth: nat, tab: string)
    requires AllSpace(Pad(depth, tab))
    ensures var w := "\n\n" + EraseTwo(Pad(depth, tab));
            "\n" + (DumpedEntries([], true, depth, tab) + Closing(depth, tab)) == w + "}" && AllSpace(w)
  {
    hide Pad;
    EmptyEntries(true, depth, tab);
    assert "" + Closing(depth, tab) == Closing(depth, tab);
  }

  lemma {:induction false} ObjectOfDump(es: seq<Entry>, depth: nat, tab: string, s: string, off: nat)
    requires Faithful(Object(es)) && AllSpace(tab)
    requires Matches(s, off, Dumped(Object(es), depth, tab))
    ensures ObjectAt(s, off) == Ok(Object(es), off + |Dumped(Object(es), depth, tab)|)
    decreases es, 3
  {
    hide Matches, ObjectAt, Dumped, DumpedEntries, EntriesText;
    DumpedObjectText(es, depth, tab);
    MatchesSplit(s, off, "{", "\n" + (DumpedEntries(es, true, depth, tab) + Closing(depth, tab)));
    MatchesFirst(s, off, "{");
    if es == [] {
      EmptyObjectRead(depth, tab, s, off);
    } else {
      ObjectBefore(es, depth, tab, s, off);
      assert es[..0] == [] && es[0..] == es && [] + EntriesText(es, depth, tab) == EntriesText(es, depth, tab);
      EntriesOfDump(es, 0, [], depth, tab, s, off + 2 + |Pad(depth, tab)|);
    }
  }

  lemma EmptyObjectRead(depth: nat, tab: string, s: string, off: nat)
    requires off < |s| && AllSpace(tab)
    requires Matches(s, off + 1, "\n" + (DumpedEntries([], true, depth, tab) + Closing(depth, tab)))
    ensures var n := |"\n" + (DumpedEntries([], true, depth, tab) + Closing(depth, tab))|;
            ObjectAt(s, off) == Ok(Object([]), off + 1 + n)
  {
    hide Matches, EntriesFrom, SpaceEnd, DumpedEntries, Pad, Closing;
    PadIsSpace(depth, tab);
    EmptyObject(depth, tab);
    var w := "\n\n" + EraseTwo(Pad(depth, tab));
    MatchesSplit(s, off + 1, w, "}");
    MatchesFirst(s, off + 1 + |w|, "}");
    SpaceEndIs(s, off + 1, w);
  }

  // What stands before the first entry.
  lemma ObjectBefore(es: seq<Entry>, depth: nat, tab: string, s: string, off: nat)
    requires es != [] && (forall i :: 0 <= i < |es| ==> FloatFree(es[i].value)) && off < |s| && AllSpace(tab)
    requires Matches(s, off + 1, "\n" + (DumpedEntries(es, true, depth, tab) + Closing(depth, tab)))
    ensures var at := off + 2 + |Pad(depth, tab)|;
            && Matches(s, at, EntriesText(es, depth, tab)) && ObjectAt(s, off) == EntriesFrom(s, at, [])
            && |"\n" + (DumpedEntries(es, true, depth, tab) + Closing(depth, tab))| ==
               1 + |Pad(depth, tab)| + |EntriesText(es, depth, tab)|
  {
    hide Matches, EntriesFrom, SpaceEnd, DumpedEntries, EntriesText, Pad, Closing;
    PadIsSpace(depth, tab);
    var w, text := "\n" + Pad(depth, tab), EntriesText(es, depth, tab);
    EntriesTextFits(es, depth, tab);
    MatchesSplit(s, off + 1, w, text);
    EntriesStart(es, depth, tab);
    MatchesFirst(s, off + 1 + |w|, text);
    SpaceEndIs(s, off + 1, w);
  }

  lemma EntriesStart(es: seq<Entry>, depth: nat, tab: string)
    requires es != [] && forall i :: 0 <= i < |es| ==> FloatFree(es[i].value)
    ensures EntriesText(es, depth, tab) != [] && EntriesText(es, depth, tab)[0] == '\"'
  {
  }

  // The loop about to read entry i, after some white space w.
  lemma {:induction false} EntriesOfDump(es: seq<Entry>, i: nat, w: string, depth: nat, tab: string, s: string,
                                         off: nat)
    requires Faithful(Object(es)) && AllSpace(tab) && AllSpace(w) && i < |es|
    requires Matches(s, off, w + EntriesText(es[i..], depth, tab))
    ensures EntriesFrom(s, off, es[..i]) == Ok(Object(es), off + |w| + |EntriesText(es[i..], depth, tab)|)
    decreases es, 2, |es| - i
  {
    hide Matches, EntryAt, SpaceEnd, DumpedEntry, DumpedEntries, EntriesText, Closing;
    var after := off + |w| + |DumpedEntry(es[i], depth, tab)|;
    var rest := RestText(es, i, depth, tab);
    SplitEntry(es, i, w, depth, tab, s, off);
    PadIsSpace(depth, tab);
    if i + 1 == |es| {
      var white := LastSpace(es, i, depth, tab);
      MatchesSplit(s, after, white, "}");
      MatchesFirst(s, after + |white|, "}");
      MatchesFirst(s, after, rest);
      SpaceEndIs(s, after, white);
      EntryOfDump(es, i, w, depth, tab, s, off, '}', after + |white|);
      assert es[..i + 1] == es;
    } else {
      var w' := "\n" + Pad(depth, tab);
      var text := EntriesText(es[i + 1..], depth, tab);
      EntriesTextFits(es[i + 1..], depth, tab);
      MatchesSplit(s, after, ",", w' + text);
      MatchesFirst(s, after, ",");
      MatchesSplit(s, after, [], ",");
      SpaceEndIs(s, after, []);
      EntryOfDump(es, i, w, depth, tab, s, off, ',', after);
      EntriesOfDump(es, i + 1, w', depth, tab, s, after + 1);
    }
  }

  // What follows entry i.
  ghost function RestText(es: seq<Entry>, i: nat, depth: nat, tab: string): (t: string)
    requires i < |es| && forall i :: 0 <= i < |es| ==> FloatFree(es[i].value)
    ensures t != []
  {
    DumpedEntries(es[i + 1..], false, depth, tab) + Closing(depth, tab)
  }

  lemma SplitEntry(es: seq<Entry>, i: nat, w: string, depth: nat, tab: string, s: string, off: nat)
    requires i < |es| && forall i :: 0 <= i < |es| ==> FloatFree(es[i].value)
    requires Matches(s, off, w + EntriesText(es[i..], depth, tab))
    ensures Matches(s, off, w) && Matches(s, off + |w|, DumpedEntry(es[i], depth, tab))
    ensures Matches(s, off + |w| + |DumpedEntry(es[i], depth, tab)|, RestText(es, i, depth, tab))
    ensures |EntriesText(es[i..], depth, tab)| == |DumpedEntry(es[i], depth, tab)| + |RestText(es, i, depth, tab)|
  {
    hide Matches, DumpedEntry, DumpedEntries, Closing;
    assert es[i..][1..] == es[i + 1..];
    var entry, rest := DumpedEntry(es[i], depth, tab), RestText(es, i, depth, tab);
    MatchesSplit(s, off, w, entry + rest);
    MatchesSplit(s, off + |w|, entry, rest);
  }

  // After the last entry: white space and the closing brace.
  lemma LastSpace(es: seq<Entry>, i: nat, depth: nat, tab: string) returns (white: string)
    requires i + 1 == |es| && forall i :: 0 <= i < |es| ==> FloatFree(es[i].value)
    requires AllSpace(Pad(depth, tab))
    ensures AllSpace(white) && white != [] && white[0] == '\n'
    ensures RestText(es, i, depth, tab) == white + "}"
  {
    white := "\n" + EraseTwo(Pad(depth, tab));
    assert es[i + 1..] == [];
  }

  // Where the parts of a printed entry stand: a quote, key and quote, " : ", the value.
  lemma EntryParts(e: Entry, depth: nat, tab: string, s: string, q: nat)
    requires FloatFree(e.value) && Matches(s, q, DumpedEntry(e, depth, tab))
    ensures Matches(s, q, "\"") && Matches(s, q + 1, e.key + "\"")
    ensures var c := q + |e.key| + 2;
            && Matches(s, c, " ") && Matches(s, c + 1, ":") && Matches(s, c + 2, " ")
            && Matches(s, c + 3, Dumped(e.value, depth + 1, tab))
            && q + |DumpedEntry(e, depth, tab)| == c + 3 + |Dumped(e.value, depth + 1, tab)|
  {
    hide Matches, Dumped;
    var k, d := e.key, Dumped(e.value, depth + 1, tab);
    assert DumpedEntry(e, depth, tab) == "\"" + ((k + "\"") + (" " + (":" + (" " + d))));
    MatchesSplit(s, q, "\"", (k + "\"") + (" " + (":" + (" " + d))));
    MatchesSplit(s, q + 1, k + "\"", " " + (":" + (" " + d)));
    var c := q + |k| + 2;
    MatchesSplit(s, c, " ", ":" + (" " + d));
    MatchesSplit(s, c + 1, ":", " " + d);
    MatchesSplit(s, c + 2, " ", d);
  }

  // One round of parse_object's loop, from what its parts read.
  lemma EntryRound(s: string, off: nat, es: seq<Entry>, key: Json, o1: nat, o2: nat, c3: char, o3: nat,
                   value: Json, o4: nat, last: char, o5: nat)
    requires NextAt(s, off) == Ok(key, o1) && SpaceEnd(s, o1) == Ok(':', o2)
    requires SpaceEnd(s, o2 + 1) == Ok(c3, o3) && NextAt(s, o3) == Ok(value, o4)
    requires SpaceEnd(s, o4) == Ok(last, o5) && (last == ',' || last == '}')
    ensures var es' := Insert(es, ToText(key), value);
            EntryAt(s, off, es) == Ok(if last == ',' then Again(es') else Done(es'), o5 + 1)
  {
    hide NextAt, SpaceEnd, Insert, ToText;
  }

  // One key and its value, up to the delimiter at last.
  lemma {:induction false} EntryOfDump(es: seq<Entry>, i: nat, w: string, depth: nat, tab: string, s: string,
                                       off: nat, delim: char, last: nat)
    requires Faithful(Object(es)) && AllSpace(tab) && AllSpace(w) && i < |es|
    requires Matches(s, off, w) && Matches(s, off + |w|, DumpedEntry(es[i], depth, tab))
    requires var after := off + |w| + |DumpedEntry(es[i], depth, tab)|;
             IsDelimiter(CharAt(s, after)) && SpaceEnd(s, after) == Ok(delim, last)
    requires delim == ',' || delim == '}'
    ensures EntryAt(s, off, es[..i]) ==
            Ok(if delim == ',' then Again(es[..i + 1]) else Done(es[..i + 1]), last + 1)
    decreases es, 1
  {
    hide Matches, NextAt, SpaceEnd, Dumped, DumpedEntry, Insert, EntryAt, Unescape, ToText, IsEscaped;
    var Entry(k, v) := es[i];
    var c := EntryBefore(es[i], w, depth, tab, s, off);
    NextOfDump(v, depth + 1, tab, s, c + 3);
    EntryRound(s, off, es[..i], Str(Unescape(k)), c, c + 1, CharAt(s, c + 3), c + 3, v,
               c + 3 + |Dumped(v, depth + 1, tab)|, delim, last);
    InsertLast(es[..i], k, v);
    assert es[..i] + [es[i]] == es[..i + 1];
  }

  // Everything of an entry before its value is read.
  lemma EntryBefore(e: Entry, w: string, depth: nat, tab: string, s: string, off: nat) returns (c: nat)
    requires FloatFree(e.value) && IsEscaped(e.key) && AllSpace(w)
    requires Matches(s, off, w) && Matches(s, off + |w|, DumpedEntry(e, depth, tab))
    ensures NextAt(s, off) == Ok(Str(Unescape(e.key)), c) && ToText(Str(Unescape(e.key))) == e.key
    ensures c + 3 <= |s| && SpaceEnd(s, c) == Ok(':', c + 1) && SpaceEnd(s, c + 2) == Ok(CharAt(s, c + 3), c + 3)
    ensures Matches(s, c + 3, Dumped(e.value, depth + 1, tab))
    ensures off + |w| + |DumpedEntry(e, depth, tab)| == c + 3 + |Dumped(e.value, depth + 1, tab)|
  {
    hide Matches, NextAt, SpaceEnd, Dumped, DumpedEntry, Unescape, ToText, IsEscaped;
    var q := off + |w|;
    c := q + |e.key| + 2;
    EntryParts(e, depth, tab, s, q);
    KeyRead(s, off, w, e.key);
    MatchesFirst(s, c, " ");
    MatchesFirst(s, c + 1, ":");
    SpaceEndIs(s, c, " ");
    DumpStart(e.value, depth + 1, tab);
    MatchesFirst(s, c + 3, Dumped(e.value, depth + 1, tab));
    SpaceEndIs(s, c + 2, " ");
  }

  // A key in escaped form is read as its original, which ToString escapes again.
  lemma KeyRead(s: string, off: nat, w: string, k: string)
    requires Matches(s, off, w) && AllSpace(w) && IsEscaped(k)
    requires Matches(s, off + |w|, "\"") && Matches(s, off + |w| + 1, k + "\"")
    ensures NextAt(s, off) == Ok(Str(Unescape(k)), off + |w| + |k| + 2)
    ensures ToText(Str(Unescape(k))) == k
  {
    hide StringFrom, Unescape, Escape, IsEscaped, SpaceEnd;
    var q := off + |w|;
    EscapeUnescape(k);
    MatchesFirst(s, q, "\"");
    SpaceEndIs(s, off, w);
    StringFromEscape(s, q + 1, Unescape(k), "");
    assert "" + Unescape(k) == Unescape(k);
  }

  // --- main results ------------------------------------------------------------------------

  lemma TopLevelNumber(n: int, depth: nat, tab: string)
    requires LONG_MIN <= n <= LONG_MAX
    ensures Loaded(Dumped(Integral(n), depth, tab)) == Ok(Null, |ToDecimal(n)| + 1)
  {
    var s := ToDecimal(n);
    SpaceEndIs(s, 0, []);
    NumberAtDecimal(s, 0, n);
  }

  // A float-free value survives dump and Load exactly when its keys are in escaped form and it
  // is not a bare number; this holds for every depth and every white space tab.
  lemma LoadOfDumpExactly(v: Json, depth: nat, tab: string)
    requires Representable(v) && FloatFree(v) && AllSpace(tab)
    ensures var r := Loaded(Dumped(v, depth, tab));
            (r.Ok? && r.value == v) <==> (KeysEscaped(v) && !v.Integral?)
  {
    var s := Dumped(v, depth, tab);
    ParsedWellFormed(s, 0);
    if v.Integral? {
      TopLevelNumber(v.number, depth, tab);
    } else if KeysEscaped(v) {
      NextOfDump(v, depth, tab, s, 0);
    }
  }

  // Whatever text Load reads into a float-free value other than a bare number, dumping that value
  // and loading the dump gives it again.
  lemma ReDumpStable(text: string, depth: nat, tab: string)
    requires AllSpace(tab)
    requires Loaded(text).Ok? && FloatFree(Loaded(text).value) && !Loaded(text).value.Integral?
    ensures var v := Loaded(text).value;
            Loaded(Dumped(v, depth, tab)) == Ok(v, |Dumped(v, depth, tab)|)
  {
    var v := Loaded(text).value;
    ParsedWellFormed(text, 0);
    NextOfDump(v, depth, tab, Dumped(v, depth, tab), 0);
  }
}
