/**
 JSON values as service-provider/json.hpp holds them, and its printer.

 std::map keeps an object's entries in key order, so an object is the sequence of its entries in
 that order. A floating value keeps the characters it was read from; its double is not modelled.
 */
module Json {
  import opened CText

  datatype Entry = Entry(key: string, value: Json)

  datatype Json =
    | Null
    | Object(entries: seq<Entry>)
    | Array(items: seq<Json>)
    | Str(text: string)
    | Floating(mantissa: string, exponent: string)
    | Integral(number: int)
    | Boolean(flag: bool)

  // --- std::map<string, JSON> ------------------------------------------------------------

  // std::string's operator<
  predicate Less(a: string, b: string) {
    if b == [] then false
    else if a == [] then true
    else if a[0] != b[0] then a[0] < b[0]
    else Less(a[1..], b[1..])
  }

  ghost predicate Sorted(es: seq<Entry>) {
    forall i, j :: 0 <= i < j < |es| ==> Less(es[i].key, es[j].key)
  }

  // map[k] = v
  function Insert(es: seq<Entry>, k: string, v: Json): seq<Entry> {
    if es == [] then [Entry(k, v)]
    else if es[0].key == k then [Entry(k, v)] + es[1..]
    else if Less(k, es[0].key) then [Entry(k, v)] + es
    else [es[0]] + Insert(es[1..], k, v)
  }

  // map.find(k)
  function Find(es: seq<Entry>, k: string): Option<Json> {
    if es == [] then None
    else if es[0].key == k then Some(es[0].value)
    else Find(es[1..], k)
  }

  // find returns the value of the first entry with the key.
  lemma {:induction false} FindExactly(es: seq<Entry>, k: string)
    ensures match Find(es, k)
            case Some(w) =>
              exists i :: 0 <= i < |es| && es[i] == Entry(k, w) && (forall j :: 0 <= j < i ==> es[j].key != k)
            case None => forall i :: 0 <= i < |es| ==> es[i].key != k
  {
    if es != [] && es[0].key != k {
      var rest := es[1..];
      FindExactly(rest, k);
      assert forall i :: 0 < i < |es| ==> es[i] == rest[i - 1];
      if Find(rest, k).Some? {
        var i :| 0 <= i < |rest| && rest[i] == Entry(k, Find(rest, k).value)
          && (forall j :: 0 <= j < i ==> rest[j].key != k);
        assert es[i + 1] == rest[i];
      }
    } else if es != [] {
      assert es[0] == Entry(k, es[0].value);
    }
  }

  lemma {:induction false} LessIrreflexive(a: string)
    ensures !Less(a, a)
  {
    if a != [] {
      LessIrreflexive(a[1..]);
    }
  }

  lemma {:induction false} LessTransitive(a: string, b: string, c: string)
    requires Less(a, b) && Less(b, c)
    ensures Less(a, c)
  {
    if a != [] && a[0] == b[0] && b[0] == c[0] {
      LessTransitive(a[1..], b[1..], c[1..]);
    }
  }

  lemma {:induction false} LessTotal(a: string, b: string)
    ensures a == b || Less(a, b) || Less(b, a)
  {
    if a != [] && b != [] && a[0] == b[0] {
      LessTotal(a[1..], b[1..]);
      assert a == [a[0]] + a[1..] && b == [b[0]] + b[1..];
    }
  }

  lemma {:induction false} InsertKeys(es: seq<Entry>, k: string, v: Json)
    ensures forall e :: e in Insert(es, k, v) ==> e == Entry(k, v) || e in es
  {
    if es != [] && es[0].key != k && !Less(k, es[0].key) {
      InsertKeys(es[1..], k, v);
    }
  }

  lemma {:induction false} InsertSorted(es: seq<Entry>, k: string, v: Json)
    requires Sorted(es)
    ensures Sorted(Insert(es, k, v))
  {
    if es == [] || es[0].key == k {
    } else if Less(k, es[0].key) {
      forall j | 0 <= j < |es| ensures Less(k, es[j].key) {
        if j > 0 {
          LessTransitive(k, es[0].key, es[j].key);
        }
      }
    } else {
      InsertSorted(es[1..], k, v);
      InsertKeys(es[1..], k, v);
      LessTotal(k, es[0].key);
      var r := Insert(es[1..], k, v);
      forall j | 0 <= j < |r| ensures Less(es[0].key, r[j].key) {
        assert r[j] in r;
      }
    }
  }

  // After map[k] = v, k finds v and every other key finds what it found before.
  lemma {:induction false} FindInsert(es: seq<Entry>, k: string, v: Json, k': string)
    requires Sorted(es)
    ensures Find(Insert(es, k, v), k') == if k' == k then Some(v) else Find(es, k')
  {
    if es == [] {
    } else if es[0].key == k {
    } else if Less(k, es[0].key) {
      assert ([Entry(k, v)] + es)[1..] == es;
    } else {
      FindInsert(es[1..], k, v, k');
      assert Insert(es, k, v)[1..] == Insert(es[1..], k, v);
    }
  }

  lemma {:induction false} InsertLast(es: seq<Entry>, k: string, v: Json)
    requires forall i :: 0 <= i < |es| ==> Less(es[i].key, k)
    ensures Insert(es, k, v) == es + [Entry(k, v)]
  {
    if es != [] {
      LessIrreflexive(k);
      if Less(k, es[0].key) {
        LessTransitive(k, es[0].key, k);
      }
      InsertLast(es[1..], k, v);
      assert [es[0]] + (es[1..] + [Entry(k, v)]) == es + [Entry(k, v)];
    }
  }

  // --- operator[], hasKey, ToString, ToInt -----------------------------------------------

  // SetType(Class::Object)
  function AsObject(v: Json): (o: Json)
    ensures o.Object?
  {
    if v.Object? then v else Object([])
  }

  // What v[key] leaves in v: a value that is no object becomes one, a missing key becomes Null.
  function Touch(v: Json, key: string): (o: Json)
    ensures o.Object?
  {
    var es := AsObject(v).entries;
    if Find(es, key).Some? then Object(es) else Object(Insert(es, key, Null))
  }

  // What a lookup that changes nothing would see.
  function Get(v: Json, key: string): Json {
    if v.Object? then
      match Find(v.entries, key)
      case Some(w) => w
      case None => Null
    else Null
  }

  predicate HasKey(v: Json, key: string) {
    v.Object? && Find(v.entries, key).Some?
  }

  // JSON::ToString: a string comes back escaped, anything else as the empty text
  function ToText(v: Json): string {
    if v.Str? then Escape(v.text) else ""
  }

  function ToInt(v: Json): int {
    if v.Integral? then v.number else 0
  }

  // The object v has the entry.
  predicate Holds(v: Json, k: string, w: Json) {
    v.Object? && exists i :: 0 <= i < |v.entries| && v.entries[i] == Entry(k, w)
  }

  lemma SortedOnce(es: seq<Entry>, i: nat, j: nat)
    requires Sorted(es) && i < |es| && j < |es| && es[i].key == es[j].key
    ensures i == j
  {
    LessIrreflexive(es[i].key);
  }

  // What the lookups return for a value whose keys are sorted, and so occur once.
  lemma LookupExactly(v: Json, k: string, w: Json)
    requires v.Object? ==> Sorted(v.entries)
    ensures Holds(v, k, w) <==> HasKey(v, k) && Get(v, k) == w
    ensures !HasKey(v, k) ==> Get(v, k) == Null
  {
    if v.Object? {
      var es := v.entries;
      FindExactly(es, k);
      if Find(es, k).Some? {
        var i :| 0 <= i < |es| && es[i] == Entry(k, Find(es, k).value);
        if j :| 0 <= j < |es| && es[j] == Entry(k, w) {
          SortedOnce(es, i, j);
        }
      }
    }
  }

  // The conversions: a string comes back escaped, an integer as it is, anything else as nothing.
  lemma ConversionsExactly(v: Json)
    ensures v.Str? ==> ToText(v) == Escape(v.text)
    ensures !v.Str? ==> ToText(v) == ""
    ensures v.Integral? ==> ToInt(v) == v.number
    ensures !v.Integral? ==> ToInt(v) == 0
  {
  }

  // --- escaping --------------------------------------------------------------------------

  function EscapeChar(c: char): (e: string)
    ensures e != []
  {
    if c == '\"' then "\\\""
    else if c == '\\' then "\\\\"
    else if c == '\U{8}' then "\\b"
    else if c == '\U{c}' then "\\f"
    else if c == '\n' then "\\n"
    else if c == '\r' then "\\r"
    else if c == '\t' then "\\t"
    else [c]
  }

  function Escape(s: string): string {
    if s == [] then "" else EscapeChar(s[0]) + Escape(s[1..])
  }

  // The character a two-character escape written by json_escape stands for.
  function Unescaped(e: char): Option<char> {
    if e == '\"' then Some('\"')
    else if e == '\\' then Some('\\')
    else if e == 'b' then Some('\U{8}')
    else if e == 'f' then Some('\U{c}')
    else if e == 'n' then Some('\n')
    else if e == 'r' then Some('\r')
    else if e == 't' then Some('\t')
    else None
  }

  // Decides, reading left to right, whether json_escape can have produced k.
  predicate IsEscaped(k: string) {
    if k == [] then true
    else if k[0] == '\\' then |k| >= 2 && Unescaped(k[1]).Some? && IsEscaped(k[2..])
    else EscapeChar(k[0]) == [k[0]] && IsEscaped(k[1..])
  }

  function Unescape(k: string): string
    requires IsEscaped(k)
  {
    if k == [] then ""
    else if k[0] == '\\' then [Unescaped(k[1]).value] + Unescape(k[2..])
    else [k[0]] + Unescape(k[1..])
  }

  lemma {:induction false} EscapeUnescape(k: string)
    requires IsEscaped(k)
    ensures Escape(Unescape(k)) == k
  {
    if k == [] {
    } else if k[0] == '\\' {
      EscapeUnescape(k[2..]);
      assert k == [k[0], k[1]] + k[2..];
      assert Unescape(k)[1..] == Unescape(k[2..]);
    } else {
      EscapeUnescape(k[1..]);
      assert k == [k[0]] + k[1..];
      assert Unescape(k)[1..] == Unescape(k[1..]);
    }
  }

  lemma {:induction false} EscapeIsEscaped(s: string)
    ensures IsEscaped(Escape(s)) && Unescape(Escape(s)) == s
  {
    if s != [] {
      EscapeIsEscaped(s[1..]);
      var e := EscapeChar(s[0]);
      assert s == [s[0]] + s[1..];
      assert Escape(s)[|e|..] == Escape(s[1..]);
    }
  }

  // IsEscaped is exactly the image of json_escape.
  lemma EscapedIffImage(k: string)
    ensures IsEscaped(k) <==> exists s :: k == Escape(s)
  {
    if IsEscaped(k) {
      EscapeUnescape(k);
    }
    forall s | k == Escape(s) ensures IsEscaped(k) {
      EscapeIsEscaped(s);
    }
  }

  method JsonEscape(str: string) returns (output: string)
    ensures output == Escape(str)
  {
    output := "";
    assert str[0..] == str;
    for i := 0 to |str|
      invariant output + Escape(str[i..]) == Escape(str)
    {
      assert str[i..][1..] == str[i + 1..];
      output := output + EscapeChar(str[i]);
    }
  }

  // --- which values ----------------------------------------------------------------------

  // What a value in memory can be: map entries in key order, integers that fit a long.
  ghost predicate Representable(v: Json) {
    match v
    case Object(es) => Sorted(es) && forall i :: 0 <= i < |es| ==> Representable(es[i].value)
    case Array(vs) => forall i :: 0 <= i < |vs| ==> Representable(vs[i])
    case Integral(n) => LONG_MIN <= n <= LONG_MAX
    case _ => true
  }

  predicate FloatFree(v: Json) {
    match v
    case Object(es) => forall i :: 0 <= i < |es| ==> FloatFree(es[i].value)
    case Array(vs) => forall i :: 0 <= i < |vs| ==> FloatFree(vs[i])
    case Floating(_, _) => false
    case _ => true
  }

  // At every depth, each key is one that json_escape can produce.
  predicate KeysEscaped(v: Json) {
    match v
    case Object(es) => forall i :: 0 <= i < |es| ==> IsEscaped(es[i].key) && KeysEscaped(es[i].value)
    case Array(vs) => forall i :: 0 <= i < |vs| ==> KeysEscaped(vs[i])
    case _ => true
  }

  // --- dump ------------------------------------------------------------------------------

  function Pad(depth: nat, tab: string): string {
    if depth == 0 then "" else Pad(depth - 1, tab) + tab
  }

  // pad.erase(0, 2)
  function EraseTwo(pad: string): string {
    if |pad| < 2 then "" else pad[2..]
  }

  function Closing(depth: nat, tab: string): string {
    "\n" + EraseTwo(Pad(depth, tab)) + "}"
  }

  function Dumped(v: Json, depth: nat, tab: string): string
    requires FloatFree(v)
    decreases v, 1
  {
    match v
    case Null => "null"
    case Object(es) => "{\n" + DumpedEntries(es, true, depth, tab) + Closing(depth, tab)
    case Array(vs) => "[" + DumpedItems(vs, true, depth, tab) + "]"
    case Str(t) => "\"" + Escape(t) + "\""
    case Integral(n) => ToDecimal(n)
    case Boolean(b) => if b then "true" else "false"
  }

  function DumpedEntry(e: Entry, depth: nat, tab: string): string
    requires FloatFree(e.value)
    decreases e, 2
  {
    "\"" + (e.key + ("\" : " + Dumped(e.value, depth + 1, tab)))
  }

  function DumpedEntries(es: seq<Entry>, first: bool, depth: nat, tab: string): string
    requires forall i :: 0 <= i < |es| ==> FloatFree(es[i].value)
    decreases es, 0
  {
    if es == [] then ""
    else
      (if first then "" else ",\n") + Pad(depth, tab) + DumpedEntry(es[0], depth, tab)
      + DumpedEntries(es[1..], false, depth, tab)
  }

  function DumpedItems(vs: seq<Json>, first: bool, depth: nat, tab: string): string
    requires forall i :: 0 <= i < |vs| ==> FloatFree(vs[i])
    decreases vs, 0
  {
    if vs == [] then ""
    else (if first then "" else ", ") + Dumped(vs[0], depth + 1, tab) + DumpedItems(vs[1..], false, depth, tab)
  }

  method Dump(v: Json, depth: nat, tab: string) returns (s: string)
    requires FloatFree(v)
    ensures s == Dumped(v, depth, tab)
    decreases v, 1
  {
    var pad := "";
    for i := 0 to depth
      invariant pad == Pad(i, tab)
    {
      pad := pad + tab;
    }
    match v
    case Null => s := "null";
    case Object(es) => s := DumpObject(es, pad, depth, tab);
    case Array(vs) => s := DumpArray(vs, depth, tab);
    case Str(t) =>
      var escaped := JsonEscape(t);
      s := "\"" + escaped + "\"";
    case Integral(n) => s := ToDecimal(n);
    case Boolean(b) => s := if b then "true" else "false";
  }

  lemma DumpedEntriesFrom(es: seq<Entry>, i: nat, depth: nat, tab: string)
    requires forall i :: 0 <= i < |es| ==> FloatFree(es[i].value)
    requires i < |es|
    ensures DumpedEntries(es[i..], i == 0, depth, tab) ==
            (if i == 0 then "" else ",\n") + (Pad(depth, tab) + DumpedEntry(es[i], depth, tab))
            + DumpedEntries(es[i + 1..], false, depth, tab)
  {
    assert es[i..][1..] == es[i + 1..];
  }

  lemma EntryText(pad: string, e: Entry, value: string, depth: nat, tab: string)
    requires FloatFree(e.value) && value == Dumped(e.value, depth + 1, tab)
    ensures pad + "\"" + e.key + "\" : " + value == pad + DumpedEntry(e, depth, tab)
  {
  }

  lemma EmptyEntries(first: bool, depth: nat, tab: string)
    ensures DumpedEntries([], first, depth, tab) == ""
  {
  }

  method DumpObject(es: seq<Entry>, pad: string, depth: nat, tab: string) returns (s: string)
    requires forall i :: 0 <= i < |es| ==> FloatFree(es[i].value)
    requires pad == Pad(depth, tab)
    ensures s == "{\n" + DumpedEntries(es, true, depth, tab) + Closing(depth, tab)
    decreases es, 0
  {
    s := "{\n";
    var skip := true;
    hide DumpedEntries, DumpedEntry, Pad;
    ghost var total := DumpedEntries(es, true, depth, tab);
    assert es[0..] == es && es[|es|..] == [];
    for i := 0 to |es|
      invariant skip == (i == 0)
      invariant s + DumpedEntries(es[i..], i == 0, depth, tab) == "{\n" + total
    {
      DumpedEntriesFrom(es, i, depth, tab);
      ghost var before := s;
      if !skip {
        s := s + ",\n";
      }
      var value := Dump(es[i].value, depth + 1, tab);
      var line := pad + "\"" + es[i].key + "\" : " + value;
      EntryText(pad, es[i], value, depth, tab);
      s := s + line;
      assert s == before + ((if i == 0 then "" else ",\n") + line);
      skip := false;
    }
    EmptyEntries(es == [], depth, tab);
    s := s + ("\n" + EraseTwo(pad) + "}");
  }

  lemma DumpedItemsFrom(vs: seq<Json>, i: nat, depth: nat, tab: string)
    requires forall i :: 0 <= i < |vs| ==> FloatFree(vs[i])
    requires i < |vs|
    ensures DumpedItems(vs[i..], i == 0, depth, tab) ==
            (if i == 0 then "" else ", ") + Dumped(vs[i], depth + 1, tab)
            + DumpedItems(vs[i + 1..], false, depth, tab)
  {
    assert vs[i..][1..] == vs[i + 1..];
  }

  method DumpArray(vs: seq<Json>, depth: nat, tab: string) returns (s: string)
    requires forall i :: 0 <= i < |vs| ==> FloatFree(vs[i])
    ensures s == "[" + DumpedItems(vs, true, depth, tab) + "]"
    decreases vs, 0
  {
    s := "[";
    var skip := true;
    ghost var total := DumpedItems(vs, true, depth, tab);
    assert vs[0..] == vs;
    for i := 0 to |vs|
      invariant skip == (i == 0)
      invariant s + DumpedItems(vs[i..], i == 0, depth, tab) == "[" + total
    {
      DumpedItemsFrom(vs, i, depth, tab);
      ghost var rest := DumpedItems(vs[i + 1..], false, depth, tab);
      if !skip {
        s := s + ", ";
      }
      var item := Dump(vs[i], depth + 1, tab);
      s := s + item;
      assert s + rest == "[" + total;
      skip := false;
    }
    s := s + "]";
  }
}
