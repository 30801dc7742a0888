/**
 What json.hpp's Load makes of the texts of RFC 8259, whatever their white space and escapes. Two things
 it keeps as they stand: \uXXXX in a string, and the escapes in a key. Numbers with exponents are in
 JsonExponents.
 */
module JsonTexts {
  import opened CText
  import opened Json
  import opened JsonParser
  import opened JsonTheorems

  // A character of a string: as it is, as a two-character escape, or in four hex digits.
  datatype Mark = Plain(c: char) | Short(e: char) | Long(hex: string)

  // before and after are white space, pad is that in an empty object or array.
  datatype Text =
    | NullText
    | BoolText(flag: bool)
    | StrText(marks: seq<Mark>)
    | NumText(negative: bool, digits: string, fraction: string)
    | ArrText(pad: string, items: seq<Item>)
    | ObjText(pad: string, members: seq<Member>)

  datatype Item = Item(before: string, value: Text, after: string)

  datatype Member = Member(before: string, key: seq<Mark>, beforeColon: string, afterColon: string, value: Text,
                           after: string)

  // --- the texts ---------------------------------------------------------------------------------------

  predicate AllWs(w: string) {
    forall i :: 0 <= i < |w| ==> w[i] == ' ' || w[i] == '\t' || w[i] == '\n' || w[i] == '\r'
  }

  predicate LegalMark(m: Mark) {
    match m
    case Plain(c) => c != '\"' && c != '\\'
    case Short(e) => e != 'u'
    case Long(hex) => |hex| == 4 && AllHex(hex)
  }

  predicate LegalMarks(ms: seq<Mark>) {
    forall i :: 0 <= i < |ms| ==> LegalMark(ms[i])
  }

  function NumberOf(negative: bool, digits: string): int
    requires AllDigits(digits)
  {
    if negative then -1 * DecimalValue(digits) else 1 * DecimalValue(digits)
  }

  // The RFC's strings and numbers, and some more: control characters and other escapes in strings, and
  // leading zeros. An integer has to fit a long.
  predicate Legal(t: Text) {
    match t
    case StrText(ms) => LegalMarks(ms)
    case NumText(negative, digits, fraction) =>
      && digits != "" && AllDigits(digits) && AllDigits(fraction)
      && (fraction == "" ==> -0x8000_0000_0000_0000 <= NumberOf(negative, digits) <= 0x7fff_ffff_ffff_ffff)
    case ArrText(pad, items) =>
      AllWs(pad) && forall i :: 0 <= i < |items| ==>
        AllWs(items[i].before) && AllWs(items[i].after) && Legal(items[i].value)
    case ObjText(pad, members) =>
      AllWs(pad) && forall i :: 0 <= i < |members| ==>
        && AllWs(members[i].before) && LegalMarks(members[i].key) && AllWs(members[i].beforeColon)
        && AllWs(members[i].afterColon) && Legal(members[i].value) && AllWs(members[i].after)
    case _ => true
  }

  function MarkText(m: Mark): string {
    match m
    case Plain(c) => [c]
    case Short(e) => ['\\', e]
    case Long(hex) => "\\u" + hex
  }

  function MarksText(ms: seq<Mark>): string {
    if ms == [] then "" else MarkText(ms[0]) + MarksText(ms[1..])
  }

  function NumberText(negative: bool, digits: string, fraction: string): string {
    (if negative then "-" else "") + (digits + if fraction == "" then "" else "." + fraction)
  }

  function Written(t: Text): string
    decreases t, 1
  {
    match t
    case NullText => "null"
    case BoolText(b) => if b then "true" else "false"
    case StrText(ms) => "\"" + (MarksText(ms) + "\"")
    case NumText(negative, digits, fraction) => NumberText(negative, digits, fraction)
    case ArrText(pad, items) => "[" + if items == [] then pad + "]" else items[0].before + ItemsText(items)
    case ObjText(pad, members) => "{" + if members == [] then pad + "}" else members[0].before + MembersText(members)
  }

  // The items without the white space before the first, and the closing bracket.
  function ItemsText(items: seq<Item>): string
    requires items != []
    decreases items, 0
  {
    Written(items[0].value) + (items[0].after +
      if |items| == 1 then "]" else "," + (items[1].before + ItemsText(items[1..])))
  }

  function MembersText(members: seq<Member>): string
    requires members != []
    decreases members, 0
  {
    var m := members[0];
    ("\"" + (MarksText(m.key) + "\"")) + (m.beforeColon + (":" + (m.afterColon + (Written(m.value) +
      (m.after + if |members| == 1 then "}" else "," + (members[1].before + MembersText(members[1..])))))))
  }

  // --- their meaning -----------------------------------------------------------------------------------

  // An escape that the RFC does not have is read as a backslash.
  function ShortMeaning(e: char): char {
    match e
    case '\"' => '\"'
    case '/' => '/'
    case 'b' => '\U{8}'
    case 'f' => '\U{c}'
    case 'n' => '\n'
    case 'r' => '\r'
    case 't' => '\t'
    case _ => '\\'
  }

  function MarkChars(m: Mark): string {
    match m
    case Plain(c) => [c]
    case Short(e) => [ShortMeaning(e)]
    case Long(hex) => "\\u" + hex
  }

  function Chars(ms: seq<Mark>): string {
    if ms == [] then "" else MarkChars(ms[0]) + Chars(ms[1..])
  }

  function Meaning(t: Text): Json
    requires Legal(t)
    decreases t, 1
  {
    match t
    case NullText => Null
    case BoolText(b) => Boolean(b)
    case StrText(ms) => Str(Chars(ms))
    case NumText(negative, digits, fraction) =>
      if fraction == "" then Integral(NumberOf(negative, digits))
      else Floating(NumberText(negative, digits, fraction), "")
    case ArrText(pad, items) => Array(ItemsMeaning(items))
    case ObjText(pad, members) => Object(Stored(members, []))
  }

  function ItemsMeaning(items: seq<Item>): (vs: seq<Json>)
    requires forall i :: 0 <= i < |items| ==> Legal(items[i].value)
    decreases items, 0
  {
    if items == [] then [] else [Meaning(items[0].value)] + ItemsMeaning(items[1..])
  }

  // The map once all members have been stored in their order: of equal keys, the last one counts.
  function Stored(members: seq<Member>, es: seq<Entry>): seq<Entry>
    requires forall i :: 0 <= i < |members| ==> Legal(members[i].value)
    decreases members, 0
  {
    if members == [] then es
    else Stored(members[1..], Insert(es, Escape(Chars(members[0].key)), Meaning(members[0].value)))
  }

  // --- strings and numbers are read --------------------------------------------------------------------

  lemma WsIsSpace(w: string)
    requires AllWs(w)
    ensures AllSpace(w)
    ensures w != "" ==> IsDelimiter(w[0])
  {
  }

  lemma MarkRead(s: string, off: nat, m: Mark, val: string)
    requires LegalMark(m) && Matches(s, off, MarkText(m))
    ensures StringFrom(s, off, val) == StringFrom(s, off + |MarkText(m)|, val + MarkChars(m))
  {
    var t := MarkText(m);
    MatchesAt(s, off, t);
    match m
    case Plain(c) => assert t[0] == c;
    case Short(e) => assert t[0] == '\\' && t[1] == e;
    case Long(hex) =>
      assert t[0] == '\\' && t[1] == 'u';
      forall i | off + 2 <= i < off + 6 ensures IsHex(s[i]) {
        assert t[i - off] == hex[i - off - 2];
      }
  }

  lemma MatchesAt(s: string, off: nat, t: string)
    requires Matches(s, off, t)
    ensures off + |t| <= |s| && s[off..off + |t|] == t && forall i :: off <= i < off + |t| ==> s[i] == t[i - off]
  {
    forall i | off <= i < off + |t| ensures s[i] == t[i - off] {
      assert s[i] == s[off..off + |t|][i - off];
    }
  }

  lemma {:induction false} StringRead(s: string, off: nat, ms: seq<Mark>, val: string)
    requires LegalMarks(ms) && Matches(s, off, MarksText(ms) + "\"")
    ensures StringFrom(s, off, val) == Ok(Str(val + Chars(ms)), off + |MarksText(ms)| + 1)
    decreases ms
  {
    hide Matches, MarkText, MarkChars;
    if ms == [] {
      assert MarksText(ms) + "\"" == "\"" && val + "" == val;
      MatchesFirst(s, off, "\"");
    } else {
      hide StringFrom;
      var t, rest := MarkText(ms[0]), MarksText(ms[1..]);
      assert MarksText(ms) + "\"" == t + (rest + "\"");
      MatchesSplit(s, off, t, rest + "\"");
      MarkRead(s, off, ms[0], val);
      StringRead(s, off + |t|, ms[1..], val + MarkChars(ms[0]));
      assert (val + MarkChars(ms[0])) + Chars(ms[1..]) == val + Chars(ms);
    }
  }

  // Fewer than four hex digits after \u end the string, as an empty one; what follows is read next.
  lemma ShortOfDigits(s: string, off: nat, hex: string, val: string)
    requires |hex| < 4 && Matches(s, off, "\\u" + hex) && !IsHex(CharAt(s, off + 2 + |hex|))
    ensures StringFrom(s, off, val) == Ok(Str(""), off + 1)
  {
    MatchesAt(s, off, "\\u" + hex);
    assert ("\\u" + hex)[0] == '\\' && ("\\u" + hex)[1] == 'u';
    var at := off + 2 + |hex|;
    assert !HexFour(s, off + 2) by {
      assert at < |s| ==> !IsHex(s[at]);
    }
  }

  lemma NumberChars(negative: bool, digits: string, fraction: string)
    requires digits != "" && AllDigits(digits) && AllDigits(fraction)
    ensures var d := NumberText(negative, digits, fraction);
            && d != "" && (IsDigit(d[0]) || d[0] == '-') && (forall i :: 0 <= i < |d| ==> IsNumberChar(d[i]))
            && ('.' in d <==> fraction != "") && (fraction != "" ==> StodConverts(d))
  {
    var d := NumberText(negative, digits, fraction);
    var rest := digits + if fraction == "" then "" else "." + fraction;
    assert d == (if negative then "-" else "") + rest;
    assert IsDigit(rest[0]) && forall i :: 0 <= i < |rest| ==> IsNumberChar(rest[i]);
    assert if negative then d[0] == '-' && d[1..] == rest else d == rest;
    if fraction != "" {
      assert rest[|digits|] == '.';
      assert d[|d| - |rest| + |digits|] == '.';
    }
  }

  // parse_number where a delimiter follows the run of number characters.
  lemma PlainNumber(s: string, off: nat, end: nat)
    requires off < |s| && NumberEnd(s, off) == end && off <= end <= |s| && IsDelimiter(CharAt(s, end))
    ensures var val := s[off..end];
            NumberAt(s, off) ==
            if '.' in val then if StodConverts(val) then Ok(Floating(val, ""), end) else Thrown
            else match Stol(val) case None => Thrown case Some(n) => Ok(Integral(n), end)
  {
    hide NumberEnd, StodConverts, Stol;
  }

  lemma NumberRead(s: string, off: nat, t: Text)
    requires t.NumText? && Legal(t) && Matches(s, off, Written(t)) && IsDelimiter(CharAt(s, off + |Written(t)|))
    ensures off < |s| && NumberAt(s, off) == Ok(Meaning(t), off + |Written(t)|)
  {
    var d := NumberText(t.negative, t.digits, t.fraction);
    assert Written(t) == d;
    hide NumberText;
    assert s[off..off + |d|] == d;
    NumberChars(t.negative, t.digits, t.fraction);
    MatchesFirst(s, off, d);
    NotNumberChar(CharAt(s, off + |d|));
    hide NumberEnd, StodConverts, SignedPrefix, NumberOf, Matches, NumberAt, IsDelimiter, IsNumberChar, AllDigits;
    NumberEndIs(s, off, d);
    PlainNumber(s, off, off + |d|);
    if t.fraction == "" {
      IntegerStol(t.negative, t.digits);
    }
  }

  lemma IntegerStol(negative: bool, digits: string)
    requires digits != "" && AllDigits(digits)
    requires LONG_MIN <= NumberOf(negative, digits) <= LONG_MAX
    ensures Stol(NumberText(negative, digits, "")) == Some(NumberOf(negative, digits))
  {
    IntegerText(negative, digits);
    IntegerRead(negative, digits);
    hide SignedPrefix, NumberText, NumberOf, AllDigits;
  }

  lemma NotNumberChar(c: char)
    ensures IsDelimiter(c) ==> !IsNumberChar(c)
  {
  }

  lemma IntegerText(negative: bool, digits: string)
    ensures NumberText(negative, digits, "") == (if negative then "-" else "") + digits
  {
    assert digits + "" == digits;
  }

  lemma IntegerRead(negative: bool, digits: string)
    requires digits != "" && AllDigits(digits)
    ensures SignedPrefix((if negative then "-" else "") + digits) == Some(NumberOf(negative, digits))
  {
    SignedPrefixOfDigits(digits);
    DigitsOfDigits(digits, if negative then -1 else 1);
    hide SignedPrefix, DecimalValue;
    assert "-" + digits == ['-'] + digits && "" + digits == digits;
  }

  // --- values are read ---------------------------------------------------------------------------------

  // A text starts with no white space and no closing bracket.
  lemma TextStart(t: Text)
    requires Legal(t)
    ensures Written(t) != "" && !IsSpace(Written(t)[0]) && Written(t)[0] !in "]}"
  {
    hide ItemsText, MembersText, MarksText;
    if t.NumText? {
      NumberChars(t.negative, t.digits, t.fraction);
    }
  }

  lemma {:induction false} TextRead(t: Text, s: string, off: nat)
    requires Legal(t) && Matches(s, off, Written(t))
    requires t.NumText? ==> IsDelimiter(CharAt(s, off + |Written(t)|))
    ensures NextAt(s, off) == Ok(Meaning(t), off + |Written(t)|)
    decreases t, 1
  {
    hide StringFrom, NumberAt, ArrayAt, ObjectAt, ItemsText, MembersText, MarksText, NumberText, ItemsMeaning, Stored;
    TextStart(t);
    MatchesFirst(s, off, Written(t));
    SpaceEndIs(s, off, []);
    match t
    case NullText =>
    case BoolText(b) =>
    case StrText(ms) =>
      MatchesSplit(s, off, "\"", MarksText(ms) + "\"");
      StringRead(s, off + 1, ms, "");
      assert "" + Chars(ms) == Chars(ms);
    case NumText(negative, digits, fraction) =>
      NumberChars(negative, digits, fraction);
      NumberRead(s, off, t);
    case ArrText(pad, items) => ArrayRead(t, s, off);
    case ObjText(pad, members) => ObjectRead(t, s, off);
  }

  predicate LegalItems(items: seq<Item>) {
    forall i :: 0 <= i < |items| ==> AllWs(items[i].before) && AllWs(items[i].after) && Legal(items[i].value)
  }

  lemma {:induction false} ArrayRead(t: Text, s: string, off: nat)
    requires t.ArrText? && Legal(t) && Matches(s, off, Written(t))
    ensures ArrayAt(s, off) == Ok(Meaning(t), off + |Written(t)|)
    decreases t, 0
  {
    hide Matches, ArrayAt, ItemsFrom, SpaceEnd, ItemsText, Written, AllWs, AllSpace, Meaning, ItemsMeaning, Legal,
      IsSpace;
    var w, rest := ArrayParts(t);
    MatchesSplit(s, off, "[", w + rest);
    MatchesFirst(s, off, "[");
    MatchesSplit(s, off + 1, w, rest);
    MatchesFirst(s, off + 1 + |w|, rest);
    SpaceEndIs(s, off + 1, w);
    ArrayStep(s, off, off + 1 + |w|);
    if t.items != [] {
      NoSpace();
      assert "" + rest == rest;
      ItemsRead(t.items, "", s, off + 1 + |w|, []);
      assert [] + ItemsMeaning(t.items) == ItemsMeaning(t.items);
    }
  }

  lemma ArrayParts(t: Text) returns (w: string, rest: string)
    requires t.ArrText? && Legal(t)
    ensures Written(t) == "[" + (w + rest) && AllSpace(w) && rest != "" && !IsSpace(rest[0])
    ensures if t.items == [] then rest == "]" else rest == ItemsText(t.items) && rest[0] != ']'
    ensures LegalItems(t.items) && Meaning(t) == Array(ItemsMeaning(t.items))
            && (t.items == [] ==> ItemsMeaning(t.items) == [])
  {
    hide ItemsText;
    w, rest := t.pad, "]";
    if t.items != [] {
      w, rest := t.items[0].before, ItemsText(t.items);
      ItemsStart(t.items);
    }
    WsIsSpace(w);
  }

  lemma ArrayStep(s: string, off: nat, at: nat)
    requires off < |s| && at <= |s| && SpaceEnd(s, off + 1) == Ok(CharAt(s, at), at)
    ensures ArrayAt(s, off) == if CharAt(s, at) == ']' then Ok(Array([]), at + 1) else ItemsFrom(s, at, [])
  {
    hide ItemsFrom, SpaceEnd;
  }

  lemma ItemsStart(items: seq<Item>)
    requires items != [] && LegalItems(items)
    ensures ItemsText(items) != "" && !IsSpace(ItemsText(items)[0]) && ItemsText(items)[0] != ']'
  {
    hide Written;
    TextStart(items[0].value);
  }

  // What follows an item: a comma and the others, or the bracket.
  function AfterItem(items: seq<Item>): string
    requires items != []
  {
    if |items| == 1 then "]" else "," + (items[1].before + ItemsText(items[1..]))
  }

  lemma ItemsParts(items: seq<Item>)
    requires items != []
    ensures ItemsText(items) == Written(items[0].value) + (items[0].after + AfterItem(items))
    ensures |items| == 1 ==> AfterItem(items) == "]"
    ensures |items| > 1 ==> AfterItem(items) == "," + (items[1].before + ItemsText(items[1..]))
  {
    hide Written;
  }

  lemma ItemsMeaningStep(items: seq<Item>, vs: seq<Json>)
    requires items != [] && LegalItems(items)
    ensures (vs + [Meaning(items[0].value)]) + ItemsMeaning(items[1..]) == vs + ItemsMeaning(items)
    ensures |items| == 1 ==> vs + [Meaning(items[0].value)] == vs + ItemsMeaning(items)
    ensures Legal(items[0].value) && AllWs(items[0].after) && LegalItems(items[1..])
    ensures |items| > 1 ==> AllWs(items[1].before)
  {
    hide Meaning;
    assert |items| == 1 ==> items[1..] == [];
    Push(vs, Meaning(items[0].value), ItemsMeaning(items[1..]));
  }

  lemma Push<T>(a: seq<T>, x: T, b: seq<T>)
    ensures (a + [x]) + b == a + ([x] + b) && a + [x] == a + ([x] + [])
  {
  }

  lemma ItemsStep(s: string, off: nat, vs: seq<Json>, vs': seq<Json>, next: nat, again: bool)
    requires ItemAt(s, off, vs) == Ok(if again then Again(vs') else Done(vs'), next)
    ensures ItemsFrom(s, off, vs) == if again then ItemsFrom(s, next, vs') else Ok(Array(vs'), next)
  {
    hide ItemAt;
  }

  // The loop about to read an item, after some white space w.
  lemma {:induction false} ItemsRead(items: seq<Item>, w: string, s: string, off: nat, vs: seq<Json>)
    requires items != [] && LegalItems(items) && AllSpace(w) && Matches(s, off, w + ItemsText(items))
    ensures ItemsFrom(s, off, vs) == Ok(Array(vs + ItemsMeaning(items)), off + |w| + |ItemsText(items)|)
    decreases items, 3
  {
    hide *;
    var item, after := items[0], AfterItem(items);
    ItemsParts(items);
    ItemsMeaningStep(items, vs);
    MatchesSplit(s, off, w, ItemsText(items));
    var next := ItemPlaces(item, w, after, s, off);
    ItemRead(item, w, s, off, vs, after[0]);
    ItemsStep(s, off, vs, vs + [Meaning(item.value)], next, after[0] == ',');
    if |items| > 1 {
      MatchesSplit(s, next - 1, ",", items[1].before + ItemsText(items[1..]));
      WsIsSpace(items[1].before);
      ItemsRead(items[1..], items[1].before, s, next, vs + [Meaning(item.value)]);
    }
  }

  // Where the parts of an item stand.
  lemma ItemPlaces(item: Item, w: string, after: string, s: string, off: nat) returns (next: nat)
    requires Matches(s, off + |w|, Written(item.value) + (item.after + after)) && after != ""
    ensures var p := off + |w| + |Written(item.value)|;
            && Matches(s, off + |w|, Written(item.value)) && Matches(s, p, item.after)
            && p + |item.after| <= |s| && CharAt(s, p + |item.after|) == after[0]
            && next == p + |item.after| + 1 && Matches(s, next - 1, after)
  {
    hide Matches, Written;
    var p := off + |w| + |Written(item.value)|;
    MatchesSplit(s, off + |w|, Written(item.value), item.after + after);
    MatchesSplit(s, p, item.after, after);
    MatchesFirst(s, p + |item.after|, after);
    next := p + |item.after| + 1;
  }

  lemma {:induction false} ItemRead(item: Item, w: string, s: string, off: nat, vs: seq<Json>, delim: char)
    requires Legal(item.value) && AllWs(item.after) && AllSpace(w) && (delim == ',' || delim == ']')
    requires Matches(s, off, w) && Matches(s, off + |w|, Written(item.value))
    requires var p := off + |w| + |Written(item.value)|;
             Matches(s, p, item.after) && p + |item.after| <= |s| && CharAt(s, p + |item.after|) == delim
    ensures var vs', next := vs + [Meaning(item.value)], off + |w| + |Written(item.value)| + |item.after| + 1;
            ItemAt(s, off, vs) == Ok(if delim == ',' then Again(vs') else Done(vs'), next)
    decreases item, 2
  {
    hide NextAt, SpaceEnd, Written, Matches, IsDelimiter, IsSpace, AllSpace;
    var text := Written(item.value);
    var p := off + |w| + |text|;
    NoSpace();
    ValueRead(item.value, w, item.after, s, off, delim);
    AfterValue(item.after, s, p, delim);
  }

  // A value after white space w, and white space and a delimiter behind it.
  lemma {:induction false} ValueRead(t: Text, w: string, after: string, s: string, off: nat, delim: char)
    requires Legal(t) && AllSpace(w) && AllWs(after) && IsDelimiter(delim)
    requires Matches(s, off, w) && Matches(s, off + |w|, Written(t))
    requires var p := off + |w| + |Written(t)|;
             p + |after| <= |s| && Matches(s, p, after) && CharAt(s, p + |after|) == delim
    ensures NextAt(s, off) == Ok(Meaning(t), off + |w| + |Written(t)|)
    decreases t, 2
  {
    hide NextAt, SpaceEnd, Written, Matches, AllSpace;
    var p := off + |w| + |Written(t)|;
    TextStart(t);
    MatchesFirst(s, off + |w|, Written(t));
    WsIsSpace(after);
    if after != "" {
      MatchesFirst(s, p, after);
    }
    NextAfterSpace(s, off, w);
    TextRead(t, s, off + |w|);
  }

  lemma AfterValue(after: string, s: string, p: nat, delim: char)
    requires AllWs(after) && Matches(s, p, after) && CharAt(s, p + |after|) == delim && delim in ",]}:\""
    ensures SpaceEnd(s, p) == Ok(delim, p + |after|)
  {
    WsIsSpace(after);
    SpaceEndIs(s, p, after);
  }

  predicate LegalMember(m: Member) {
    && AllWs(m.before) && LegalMarks(m.key) && AllWs(m.beforeColon)
    && AllWs(m.afterColon) && Legal(m.value) && AllWs(m.after)
  }

  predicate LegalMembers(members: seq<Member>) {
    forall i :: 0 <= i < |members| ==> LegalMember(members[i])
  }

  lemma {:induction false} ObjectRead(t: Text, s: string, off: nat)
    requires t.ObjText? && Legal(t) && Matches(s, off, Written(t))
    ensures ObjectAt(s, off) == Ok(Meaning(t), off + |Written(t)|)
    decreases t, 0
  {
    hide Matches, ObjectAt, EntriesFrom, SpaceEnd, MembersText, Written, AllWs, AllSpace, Meaning, Stored, Legal,
      IsSpace;
    var w, rest := ObjectParts(t);
    MatchesSplit(s, off, "{", w + rest);
    MatchesFirst(s, off, "{");
    MatchesSplit(s, off + 1, w, rest);
    MatchesFirst(s, off + 1 + |w|, rest);
    SpaceEndIs(s, off + 1, w);
    ObjectStep(s, off, off + 1 + |w|);
    if t.members != [] {
      NoSpace();
      assert "" + rest == rest;
      MembersRead(t.members, "", s, off + 1 + |w|, []);
    }
  }

  lemma ObjectParts(t: Text) returns (w: string, rest: string)
    requires t.ObjText? && Legal(t)
    ensures Written(t) == "{" + (w + rest) && AllSpace(w) && rest != "" && !IsSpace(rest[0])
    ensures if t.members == [] then rest == "}" else rest == MembersText(t.members) && rest[0] != '}'
    ensures LegalMembers(t.members) && Meaning(t) == Object(Stored(t.members, []))
    ensures t.members == [] ==> Stored(t.members, []) == []
  {
    hide MembersText;
    w, rest := t.pad, "}";
    if t.members != [] {
      w, rest := t.members[0].before, MembersText(t.members);
      MembersStart(t.members);
    }
    WsIsSpace(w);
  }

  lemma ObjectStep(s: string, off: nat, at: nat)
    requires off < |s| && at <= |s| && SpaceEnd(s, off + 1) == Ok(CharAt(s, at), at)
    ensures ObjectAt(s, off) == if CharAt(s, at) == '}' then Ok(Object([]), at + 1) else EntriesFrom(s, at, [])
  {
    hide EntriesFrom, SpaceEnd;
  }

  lemma MembersStart(members: seq<Member>)
    requires members != []
    ensures MembersText(members) != "" && MembersText(members)[0] == '\"'
  {
    hide Written, MarksText;
  }

  function AfterMember(members: seq<Member>): string
    requires members != []
  {
    if |members| == 1 then "}" else "," + (members[1].before + MembersText(members[1..]))
  }

  lemma MembersParts(members: seq<Member>)
    requires members != []
    ensures var m := members[0];
            MembersText(members) == ("\"" + (MarksText(m.key) + "\"")) + (m.beforeColon + (":" + (m.afterColon +
              (Written(m.value) + (m.after + AfterMember(members))))))
    ensures |members| == 1 ==> AfterMember(members) == "}"
    ensures |members| > 1 ==> AfterMember(members) == "," + (members[1].before + MembersText(members[1..]))
  {
    hide Written, MarksText;
  }

  lemma StoredStep(members: seq<Member>, es: seq<Entry>)
    requires members != [] && LegalMembers(members)
    ensures var es' := Insert(es, Escape(Chars(members[0].key)), Meaning(members[0].value));
            && LegalMember(members[0]) && LegalMembers(members[1..]) && Stored(members, es) == Stored(members[1..], es')
            && (|members| == 1 ==> Stored(members, es) == es') && (|members| > 1 ==> AllWs(members[1].before))
  {
    hide Meaning, Insert, Escape;
    assert |members| == 1 ==> members[1..] == [];
  }

  lemma EntriesStep(s: string, off: nat, es: seq<Entry>, es': seq<Entry>, next: nat, again: bool)
    requires EntryAt(s, off, es) == Ok(if again then Again(es') else Done(es'), next)
    ensures EntriesFrom(s, off, es) == if again then EntriesFrom(s, next, es') else Ok(Object(es'), next)
  {
    hide EntryAt;
  }

  lemma {:induction false} MembersRead(members: seq<Member>, w: string, s: string, off: nat, es: seq<Entry>)
    requires members != [] && LegalMembers(members) && AllSpace(w) && Matches(s, off, w + MembersText(members))
    ensures EntriesFrom(s, off, es) == Ok(Object(Stored(members, es)), off + |w| + |MembersText(members)|)
    decreases members, 3
  {
    hide Matches, EntryAt, EntriesFrom, Written, MembersText, AfterMember, Insert, Escape, MarksText, Stored, Meaning,
      AllSpace, AllWs, Chars, Legal, LegalMarks, MemberStands, MemberEnd;
    var m, after := members[0], AfterMember(members);
    MembersParts(members);
    StoredStep(members, es);
    var end := MemberPlaces(m, w, after, s, off, MembersText(members));
    MemberRead(m, w, s, off, es, after[0]);
    var es' := Insert(es, Escape(Chars(m.key)), Meaning(m.value));
    EntriesStep(s, off, es, es', end + 1, after[0] == ',');
    if |members| > 1 {
      MatchesSplit(s, end, ",", members[1].before + MembersText(members[1..]));
      WsIsSpace(members[1].before);
      MembersRead(members[1..], members[1].before, s, end + 1, es');
    }
  }

  // Where the parts of a member stand.
  lemma MemberPlaces(m: Member, w: string, after: string, s: string, off: nat, text: string) returns (end: nat)
    requires Matches(s, off, w + text) && after != ""
    requires text == ("\"" + (MarksText(m.key) + "\"")) + (m.beforeColon + (":" + (m.afterColon +
               (Written(m.value) + (m.after + after)))))
    ensures MemberStands(m, w, s, off) && end == MemberEnd(m, w, off)
    ensures Matches(s, end, after) && end <= |s| && CharAt(s, end) == after[0] && end + |after| == off + |w| + |text|
  {
    hide Matches, Written, MarksText;
    var value, key := Written(m.value), "\"" + (MarksText(m.key) + "\"");
    var o1 := off + |w| + |key|;
    var o2 := o1 + |m.beforeColon|;
    var o3 := o2 + 1 + |m.afterColon|;
    MatchesSplit(s, off, w, text);
    UpToColon(m, key, m.afterColon + (value + (m.after + after)), s, off + |w|);
    FromColon(m, value, after, s, o2 + 1);
    end := o3 + |value| + |m.after|;
  }

  lemma UpToColon(m: Member, key: string, rest: string, s: string, q: nat)
    requires Matches(s, q, key + (m.beforeColon + (":" + rest)))
    ensures var o1 := q + |key|;
            var o2 := o1 + |m.beforeColon|;
            Matches(s, q, key) && Matches(s, o1, m.beforeColon) && Matches(s, o2, ":") && Matches(s, o2 + 1, rest)
  {
    hide *;
    var colon := ":" + rest;
    MatchesSplit(s, q, key, m.beforeColon + colon);
    MatchesSplit(s, q + |key|, m.beforeColon, colon);
    ColonSplit(s, q + |key| + |m.beforeColon|, rest);
  }

  lemma ColonSplit(s: string, at: nat, rest: string)
    requires Matches(s, at, ":" + rest)
    ensures Matches(s, at, ":") && Matches(s, at + 1, rest)
  {
    hide *;
    MatchesSplit(s, at, ":", rest);
  }

  lemma FromColon(m: Member, value: string, after: string, s: string, q: nat)
    requires Matches(s, q, m.afterColon + (value + (m.after + after))) && after != ""
    ensures var o3 := q + |m.afterColon|;
            var end := o3 + |value| + |m.after|;
            && Matches(s, q, m.afterColon) && Matches(s, o3, value) && Matches(s, o3 + |value|, m.after)
            && Matches(s, end, after) && end <= |s| && CharAt(s, end) == after[0]
  {
    hide *;
    var o3 := q + |m.afterColon|;
    MatchesSplit(s, q, m.afterColon, value + (m.after + after));
    MatchesSplit(s, o3, value, m.after + after);
    MatchesSplit(s, o3 + |value|, m.after, after);
    MatchesFirst(s, o3 + |value| + |m.after|, after);
  }

  function MemberEnd(m: Member, w: string, off: nat): nat {
    off + |w| + |"\"" + (MarksText(m.key) + "\"")| + |m.beforeColon| + 1 + |m.afterColon| + |Written(m.value)|
    + |m.after|
  }

  predicate MemberStands(m: Member, w: string, s: string, off: nat) {
    var key, value := "\"" + (MarksText(m.key) + "\""), Written(m.value);
    var o1 := off + |w| + |key|;
    var o2 := o1 + |m.beforeColon|;
    var o3 := o2 + 1 + |m.afterColon|;
    && Matches(s, off, w) && Matches(s, off + |w|, key) && Matches(s, o1, m.beforeColon) && Matches(s, o2, ":")
    && Matches(s, o2 + 1, m.afterColon) && Matches(s, o3, value) && Matches(s, o3 + |value|, m.after)
  }

  // A key as it stands at off, after white space w.
  lemma KeyTextRead(key: seq<Mark>, w: string, s: string, off: nat)
    requires LegalMarks(key) && AllSpace(w)
    requires Matches(s, off, w) && Matches(s, off + |w|, "\"" + (MarksText(key) + "\""))
    ensures NextAt(s, off) == Ok(Str(Chars(key)), off + |w| + |"\"" + (MarksText(key) + "\"")|)
  {
    hide StringFrom, SpaceEnd, Matches, ArrayAt, ObjectAt, NumberAt, MarksText;
    var q := off + |w|;
    MatchesSplit(s, q, "\"", MarksText(key) + "\"");
    MatchesFirst(s, q, "\"");
    SpaceEndIs(s, off, w);
    StringRead(s, q + 1, key, "");
    assert "" + Chars(key) == Chars(key);
  }

  lemma {:induction false} MemberRead(m: Member, w: string, s: string, off: nat, es: seq<Entry>, delim: char)
    requires LegalMember(m) && AllSpace(w) && (delim == ',' || delim == '}')
    requires MemberStands(m, w, s, off) && MemberEnd(m, w, off) <= |s| && CharAt(s, MemberEnd(m, w, off)) == delim
    ensures var es' := Insert(es, Escape(Chars(m.key)), Meaning(m.value));
            EntryAt(s, off, es) == Ok(if delim == ',' then Again(es') else Done(es'), MemberEnd(m, w, off) + 1)
    decreases m, 2
  {
    hide NextAt, SpaceEnd, Written, Matches, Insert, Escape, MarksText, EntryAt, AllSpace, AllWs, Legal, IsDelimiter;
    var key, value := "\"" + (MarksText(m.key) + "\""), Written(m.value);
    var o1 := off + |w| + |key|;
    var o2 := o1 + |m.beforeColon|;
    var o3 := o2 + 1 + |m.afterColon|;
    var o4 := o3 + |value|;
    KeyTextRead(m.key, w, s, off);
    MatchesFirst(s, o2, ":");
    AfterValue(m.beforeColon, s, o1, ':');
    TextStart(m.value);
    MatchesFirst(s, o3, value);
    WsIsSpace(m.afterColon);
    SpaceEndIs(s, o2 + 1, m.afterColon);
    MatchesSplit(s, o3, "", value) by { assert "" + value == value; }
    NoSpace();
    ValueRead(m.value, "", m.after, s, o3, delim);
    AfterValue(m.after, s, o4, delim);
    EntryRound(s, off, es, Str(Chars(m.key)), o1, o2, CharAt(s, o3), o3, Meaning(m.value), o4, delim, o4 + |m.after|);
  }

  lemma NoSpace()
    ensures AllSpace("") && IsDelimiter(',') && IsDelimiter('}') && IsDelimiter(']')
  {
  }

  // --- main results ------------------------------------------------------------------------------------

  // Any text, with white space before and after it, is loaded as what it means; but for a number with
  // nothing behind it, which is loaded as Null.
  lemma LoadOfText(before: string, t: Text, after: string)
    requires Legal(t) && AllWs(before) && AllWs(after)
    ensures Loaded(before + (Written(t) + after)) ==
            if t.NumText? && after == "" then Ok(Null, |before| + |Written(t)| + 1)
            else Ok(Meaning(t), |before| + |Written(t)|)
  {
    hide *;
    var s, off := before + (Written(t) + after), |before|;
    Whole(s);
    MatchesSplit(s, 0, before, Written(t) + after);
    MatchesSplit(s, off, Written(t), after);
    TextStart(t);
    MatchesFirst(s, off, Written(t));
    WsIsSpace(before);
    WsIsSpace(after);
    NextAfterSpace(s, 0, before);
    if after != "" {
      MatchesFirst(s, off + |Written(t)|, after);
    }
    LoadedFrom(s);
    if t.NumText? && after == "" {
      LoneNumber(s, off, t);
    } else {
      TextRead(t, s, off);
    }
  }

  lemma LoadedFrom(s: string)
    ensures Loaded(s) == NextAt(s, 0)
  {
  }

  lemma Whole(s: string)
    ensures Matches(s, 0, s)
  {
  }

  lemma LoneNumber(s: string, off: nat, t: Text)
    requires t.NumText? && Legal(t) && Matches(s, off, Written(t)) && off + |Written(t)| == |s|
    ensures NextAt(s, off) == Ok(Null, |s| + 1)
  {
    var d := NumberText(t.negative, t.digits, t.fraction);
    assert Written(t) == d;
    TextStart(t);
    NumberChars(t.negative, t.digits, t.fraction);
    hide Matches, NumberEnd, NumberText, IsNumberChar, SpaceEnd, NextAt, NumberAt, IsSpace, StodConverts, AllDigits;
    MatchesFirst(s, off, d);
    Nothing(s, off);
    SpaceEndIs(s, off, []);
    EndOfText(s);
    NumberEndIs(s, off, d);
    NumberStep(s, off, |s|);
    StepTo(s, off);
  }

  lemma Nothing(s: string, off: nat)
    requires off <= |s|
    ensures Matches(s, off, []) && AllSpace([])
  {
  }

  lemma EndOfText(s: string)
    ensures !IsNumberChar(CharAt(s, |s|))
  {
  }

  lemma NumberStep(s: string, off: nat, end: nat)
    requires off < |s| && NumberEnd(s, off) == end == |s|
    ensures NumberAt(s, off) == Ok(Null, end + 1)
  {
    hide NumberEnd;
  }

  lemma StepTo(s: string, off: nat)
    requires off < |s| && SpaceEnd(s, off) == Ok(s[off], off) && (IsDigit(s[off]) || s[off] == '-')
    ensures NextAt(s, off) == NumberAt(s, off)
  {
    hide NumberAt, SpaceEnd, ArrayAt, ObjectAt, StringAt;
  }

  // What comes of a number, by the character behind it: it is read before white space, a comma or a
  // closing bracket, and Null before anything else; an integer that is no long makes stol throw.
  lemma NumberExactly(negative: bool, digits: string, fraction: string, s: string, off: nat)
    requires digits != "" && AllDigits(digits) && AllDigits(fraction)
    requires Matches(s, off, NumberText(negative, digits, fraction))
    requires var c := CharAt(s, off + |NumberText(negative, digits, fraction)|);
             c !in "-.eE" && !('0' <= c <= '9')
    ensures off < |s|
    ensures var d := NumberText(negative, digits, fraction);
            var end := off + |d|;
            var c, n := CharAt(s, end), NumberOf(negative, digits);
            NumberAt(s, off) ==
              if c !in ",]} \t\n\r" && c as int != 11 && c as int != 12 then Ok(Null, end + 1)
              else if fraction != "" then Ok(Floating(d, ""), end)
              else if -0x8000_0000_0000_0000 <= n <= 0x7fff_ffff_ffff_ffff then Ok(Integral(n), end)
              else Thrown
  {
    var d := NumberText(negative, digits, fraction);
    var end := off + |d|;
    NumberChars(negative, digits, fraction);
    MatchesFirst(s, off, d);
    MatchesAt(s, off, d);
    DelimiterIs(CharAt(s, end));
    hide NumberText, NumberOf, NumberEnd, StodConverts, AllDigits, IsDelimiter, NumberAt;
    NumberEndIs(s, off, d);
    if IsDelimiter(CharAt(s, end)) {
      PlainNumber(s, off, end);
      if fraction == "" {
        IntegerText(negative, digits);
        IntegerRead(negative, digits);
      }
    } else {
      NumberBroken(s, off, end);
    }
  }

  lemma DelimiterIs(c: char)
    ensures IsDelimiter(c) <==> c in ",]} \t\n\r" || c as int == 11 || c as int == 12
    ensures IsNumberChar(c) <==> c in "-." || '0' <= c <= '9'
  {
  }

  lemma NumberBroken(s: string, off: nat, end: nat)
    requires off < |s| && NumberEnd(s, off) == end && off <= end <= |s| && !IsDelimiter(CharAt(s, end))
    requires CharAt(s, end) != 'e' && CharAt(s, end) != 'E'
    ensures NumberAt(s, off) == Ok(Null, end + 1)
  {
    hide NumberEnd, IsDelimiter;
  }

  // A number as std::stod looks for it: a minus sign or none, and then a digit, or a point and a digit.
  predicate StartsAsNumber(val: string, sign: string, point: string, digit: char, rest: string) {
    && (sign == "" || sign == "-") && (point == "" || point == ".") && '0' <= digit <= '9'
    && val == sign + (point + ([digit] + rest))
  }

  lemma StodConvertsExactly(val: string)
    requires forall i :: 0 <= i < |val| ==> IsNumberChar(val[i])
    ensures StodConverts(val) <==> exists sign, point, digit, rest :: StartsAsNumber(val, sign, point, digit, rest)
  {
    hide StodConverts, StartsAsNumber, IsNumberChar;
    if StodConverts(val) {
      NumberStart(val);
    }
    if sign, point, digit, rest :| StartsAsNumber(val, sign, point, digit, rest) {
      StartConverts(val, sign, point, digit, rest);
    }
  }

  lemma StartConverts(val: string, sign: string, point: string, digit: char, rest: string)
    requires StartsAsNumber(val, sign, point, digit, rest)
    ensures StodConverts(val)
  {
    var t := point + ([digit] + rest);
    assert t[|point|] == digit && t[0] == (if point == "" then digit else '.');
    assert val[|sign|..] == t && (sign == "" ==> val == t);
  }

  lemma NumberStart(val: string)
    requires StodConverts(val)
    ensures exists sign, point, digit, rest :: StartsAsNumber(val, sign, point, digit, rest)
  {
    var sign := if val[0] == '-' then "-" else "";
    var t := val[|sign|..];
    assert val == sign + t;
    var point := if t[0] == '.' then "." else "";
    var digit, rest := t[|point|], t[|point| + 1..];
    assert t == point + ([digit] + rest);
    assert StartsAsNumber(val, sign, point, digit, rest);
  }
}
