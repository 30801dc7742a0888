/**
 The recursive-descent parser of service-provider/json.hpp.

 All parse_* routines share one offset into the text. std::string allows reading the NUL one past
 the last character; a read beyond that is an Overrun here, and a std::stol or std::stod with
 nothing to convert (or a std::stol out of range) is Thrown.

 For every routine there is the function that says what it returns (ObjectAt, NumberAt, ...) and
 the method with the source's loops (ParseObject, ParseNumber, ...), proved equal to it.
 */
module JsonParser {
  import opened CText
  import opened Json

  datatype Parsed<+T> = Ok(value: T, offset: nat) | Overrun | Thrown {
    predicate IsFailure() {
      !Ok?
    }
    function PropagateFailure<U>(): Parsed<U>
      requires IsFailure()
    {
      if Overrun? then Parsed.Overrun else Thrown
    }
    function Extract(): (T, nat)
      requires !IsFailure()
    {
      (value, offset)
    }
  }

  // str[i], for i up to the length of str
  function CharAt(s: string, i: nat): char
    requires i <= |s|
  {
    if i < |s| then s[i] else '\0'
  }

  // str.substr(off).compare of a prefix: whether token stands at off
  predicate Matches(s: string, off: nat, token: string) {
    off + |token| <= |s| && s[off..off + |token|] == token
  }

  // What may follow a number.
  predicate IsDelimiter(c: char) {
    IsSpace(c) || c == ',' || c == ']' || c == '}'
  }

  // --- consume_ws ------------------------------------------------------------------------

  // The first character from off that is no white space.
  function SpaceEnd(s: string, off: nat): (r: Parsed<char>)
    ensures off <= |s| ==> r.Ok? && off <= r.offset <= |s|
    ensures r.Ok? ==> off <= r.offset <= |s| && r.value == CharAt(s, r.offset) && !IsSpace(r.value)
    ensures r.Ok? ==> AllSpace(s[off..r.offset])
    ensures !r.Ok? ==> r == Overrun
    decreases |s| - off
  {
    if off > |s| then Overrun
    else if IsSpace(CharAt(s, off)) then SpaceEnd(s, off + 1)
    else Ok(CharAt(s, off), off)
  }

  method ConsumeWs(str: string, start: nat) returns (r: Parsed<char>)
    ensures r == SpaceEnd(str, start)
  {
    var offset := start;
    while offset <= |str| && IsSpace(CharAt(str, offset))
      invariant SpaceEnd(str, offset) == SpaceEnd(str, start)
      decreases |str| - offset
    {
      offset := offset + 1;
    }
    r := if offset > |str| then Overrun else Ok(CharAt(str, offset), offset);
  }

  // --- parse_string ----------------------------------------------------------------------

  // What the escape \e adds to the value, for every e but 'u'.
  function EscapeMeaning(e: char): char {
    if e == '/' then '/'
    else match Unescaped(e) case Some(c) => c case None => '\\'
  }

  // Four hex digits stand at off.
  predicate HexFour(s: string, off: nat) {
    off + 4 <= |s| && forall i :: off <= i < off + 4 ==> IsHex(s[i])
  }

  // The loop of parse_string about to look at str[off], with val read so far.
  function StringFrom(s: string, off: nat, val: string): (r: Parsed<Json>)
    ensures r.Ok? ==> off < r.offset <= |s| && r.value.Str?
    ensures !r.Ok? ==> r == Overrun
    decreases |s| - off
  {
    if off >= |s| then Overrun
    else if s[off] == '\"' then Ok(Str(val), off + 1)
    else if s[off] != '\\' then StringFrom(s, off + 1, val + [s[off]])
    else if CharAt(s, off + 1) != 'u' then
      StringFrom(s, off + 2, val + [EscapeMeaning(CharAt(s, off + 1))])
    else if HexFour(s, off + 2) then StringFrom(s, off + 6, val + s[off..off + 6])
    else Ok(Str(""), off + 1)
  }

  function StringAt(s: string, off: nat): (r: Parsed<Json>)
    requires off < |s|
    ensures r.Ok? ==> off < r.offset <= |s| && r.value.Str?
    ensures !r.Ok? ==> r == Overrun
  {
    StringFrom(s, off + 1, "")
  }

  method ParseString(str: string, start: nat) returns (r: Parsed<Json>)
    requires start < |str|
    ensures r == StringAt(str, start)
  {
    var val := "";
    var offset := start + 1;
    var c := CharAt(str, offset);
    while c != '\"'
      invariant start < offset <= |str| && c == CharAt(str, offset)
      invariant StringFrom(str, offset, val) == StringAt(str, start)
      decreases |str| - offset
    {
      if offset == |str| {
        return Overrun;
      }
      if c == '\\' {
        offset := offset + 1;
        var e := CharAt(str, offset);
        if e == 'u' {
          ghost var val0 := val;
          val := val + "\\u";
          for i := 1 to 5
            invariant offset + i <= |str| && forall j :: offset + 1 <= j < offset + i ==> IsHex(str[j])
            invariant val == val0 + "\\u" + str[offset + 1..offset + i]
          {
            c := CharAt(str, offset + i);
            if !IsHex(c) {
              assert offset + i < |str| ==> !IsHex(str[offset + i]);
              return Ok(Str(""), offset);
            }
            val := val + [c];
            assert str[offset + 1..offset + (i + 1)] == str[offset + 1..offset + i] + [c];
          }
          assert str[offset - 1..offset + 5] == "\\u" + str[offset + 1..offset + 5];
          assert val == val0 + str[offset - 1..offset + 5];
          offset := offset + 4;
        } else {
          val := val + [EscapeMeaning(e)];
        }
      } else {
        val := val + [c];
      }
      offset := offset + 1;
      if offset > |str| {
        return Overrun;
      }
      c := CharAt(str, offset);
    }
    r := Ok(Str(val), offset + 1);
  }

  // --- parse_number ----------------------------------------------------------------------

  predicate IsNumberChar(c: char) {
    c == '-' || IsDigit(c) || c == '.'
  }

  // The end of the run of number characters at off.
  function NumberEnd(s: string, off: nat): (e: nat)
    requires off <= |s|
    ensures off <= e <= |s| && !IsNumberChar(CharAt(s, e))
    ensures forall i :: off <= i < e ==> IsNumberChar(s[i])
    decreases |s| - off
  {
    if IsNumberChar(CharAt(s, off)) then NumberEnd(s, off + 1) else off
  }

  // The exponent loop about to look at str[off], with digits read so far.
  function ExponentFrom(s: string, off: nat, digits: string): (r: Parsed<Option<string>>)
    ensures r.Ok? ==> r.offset >= off
    decreases |s| + 1 - off
  {
    if off > |s| then Overrun
    else
      var c := CharAt(s, off);
      if IsDigit(c) then ExponentFrom(s, off + 1, digits + [c])
      else if IsDelimiter(c) then Ok(Some(digits), off)
      else Ok(None, off + 1)
  }

  // Whether std::stod finds a number at the front of a text of number characters.
  predicate StodConverts(val: string) {
    var t := if val != [] && val[0] == '-' then val[1..] else val;
    t != [] && (IsDigit(t[0]) || (t[0] == '.' && |t| > 1 && IsDigit(t[1])))
  }

  // e or E stands at off: the character after it is skipped, and so is the one after a '-'.
  function ExponentAt(s: string, off: nat): (r: Parsed<Option<string>>)
    requires off < |s|
    ensures r.Ok? ==> r.offset >= off
  {
    if CharAt(s, off + 1) == '-' then ExponentFrom(s, off + 3, "-") else ExponentFrom(s, off + 2, "")
  }

  function NumberAt(s: string, off: nat): (r: Parsed<Json>)
    requires off < |s|
    ensures r.Ok? ==> r.offset >= off
  {
    var end := NumberEnd(s, off);
    var val := s[off..end];
    var c := CharAt(s, end);
    if c == 'E' || c == 'e' then
      var (exponent, after) :- ExponentAt(s, end);
      if exponent.None? then Ok(Null, after)
      else if Stol(exponent.value).None? then Thrown
      else if '.' in val then
        if StodConverts(val) then Ok(Floating(val, exponent.value), after) else Thrown
      else if Stol(val).None? then Thrown
      else Ok(Floating(val, exponent.value), after)
    else if !IsDelimiter(c) then Ok(Null, end + 1)
    else if '.' in val then
      if StodConverts(val) then Ok(Floating(val, ""), end) else Thrown
    else
      match Stol(val)
      case None => Thrown
      case Some(n) => Ok(Integral(n), end)
  }

  // The source's loop over the exponent's digits.
  method ParseExponent(str: string, e: nat) returns (r: Parsed<Option<string>>)
    requires e < |str|
    ensures r == ExponentAt(str, e)
  {
    var expStr := "";
    var offset := e + 1;
    var c := CharAt(str, offset);
    offset := offset + 1;
    if c == '-' {
      offset := offset + 1;
      expStr := "-";
    }
    while true
      invariant ExponentFrom(str, offset, expStr) == ExponentAt(str, e)
      decreases |str| + 1 - offset
    {
      if offset > |str| {
        return Overrun;
      }
      c := CharAt(str, offset);
      offset := offset + 1;
      if IsDigit(c) {
        expStr := expStr + [c];
      } else if !IsDelimiter(c) {
        return Ok(None, offset);
      } else {
        return Ok(Some(expStr), offset - 1);
      }
    }
  }

  method ParseNumber(str: string, start: nat) returns (r: Parsed<Json>)
    requires start < |str|
    ensures r == NumberAt(str, start)
  {
    var val, expStr := "", "";
    var isDouble := false;
    var offset := start;
    var c := CharAt(str, offset);
    offset := offset + 1;
    while IsNumberChar(c)
      invariant start < offset <= |str| + 1 && c == CharAt(str, offset - 1)
      invariant NumberEnd(str, offset - 1) == NumberEnd(str, start)
      invariant val == str[start..offset - 1]
      invariant isDouble == ('.' in val)
      decreases |str| + 1 - offset
    {
      val := val + [c];
      if c == '.' {
        isDouble := true;
      }
      c := CharAt(str, offset);
      offset := offset + 1;
    }
    hide NumberEnd, Stol, StodConverts, ExponentAt, IsNumberChar;
    if c == 'E' || c == 'e' {
      var exponent :- ParseExponent(str, offset - 1);
      offset := exponent.1;
      if exponent.0.None? {
        return Ok(Null, offset);
      }
      expStr := exponent.0.value;
      if Stol(expStr).None? {
        return Thrown;
      }
      if (if isDouble then !StodConverts(val) else Stol(val).None?) {
        return Thrown;
      }
      return Ok(Floating(val, expStr), offset);
    } else if !IsDelimiter(c) {
      return Ok(Null, offset);
    }
    offset := offset - 1;
    if isDouble {
      r := if StodConverts(val) then Ok(Floating(val, ""), offset) else Thrown;
    } else {
      var n := Stol(val);
      if n.None? {
        return Thrown;
      }
      r := Ok(Integral(n.value), offset);
    }
  }

  // --- parse_bool, parse_null ------------------------------------------------------------

  function BoolAt(s: string, off: nat): (r: Parsed<Json>)
    ensures r.Ok? && r.offset >= off
  {
    if Matches(s, off, "true") then Ok(Boolean(true), off + 4)
    else if Matches(s, off, "false") then Ok(Boolean(false), off + 5)
    else Ok(Null, off)
  }

  function NullAt(s: string, off: nat): (r: Parsed<Json>)
    ensures r.Ok? && r.offset >= off && r.value == Null
  {
    Ok(Null, if Matches(s, off, "null") then off + 4 else off)
  }

  // --- parse_next, parse_object, parse_array ---------------------------------------------

  function NextAt(s: string, off: nat): (r: Parsed<Json>)
    ensures r.Ok? ==> r.offset >= off
    decreases if off <= |s| then |s| - off else 0, 2
  {
    var (c, at) :- SpaceEnd(s, off);
    if c == '[' then ArrayAt(s, at)
    else if c == '{' then ObjectAt(s, at)
    else if c == '\"' then StringAt(s, at)
    else if c == 't' || c == 'f' then BoolAt(s, at)
    else if c == 'n' then NullAt(s, at)
    else if IsDigit(c) || c == '-' then NumberAt(s, at)
    else Ok(Null, at)
  }

  function ObjectAt(s: string, off: nat): (r: Parsed<Json>)
    requires off < |s|
    ensures r.Ok? ==> r.offset > off
    decreases |s| - off, 0
  {
    var first := SpaceEnd(s, off + 1);
    var at := first.offset;
    if first.value == '}' then Ok(Object([]), at + 1) else EntriesFrom(s, at, [])
  }

  // How one round of a container's loop ends: with a comma, or for good.
  datatype Round<+T> = Again(soFar: T) | Done(result: T)

  // One round of parse_object's loop: a key, a colon, a value, and what follows.
  function EntryAt(s: string, off: nat, es: seq<Entry>): (r: Parsed<Round<seq<Entry>>>)
    ensures r.Ok? ==> r.offset >= off && (r.value.Again? ==> r.offset > off)
    decreases if off <= |s| then |s| - off else 0, 3
  {
    var (key, off1) :- NextAt(s, off);
    var (colon, off2) :- SpaceEnd(s, off1);
    if colon != ':' then Ok(Done(es), off2)
    else
      var (_, off3) :- SpaceEnd(s, off2 + 1);
      var (value, off4) :- NextAt(s, off3);
      var (last, off5) :- SpaceEnd(s, off4);
      var es' := Insert(es, ToText(key), value);
      if last == ',' then Ok(Again(es'), off5 + 1)
      else Ok(Done(es'), if last == '}' then off5 + 1 else off5)
  }

  // The loop of parse_object about to read a key, with es stored so far.
  function EntriesFrom(s: string, off: nat, es: seq<Entry>): (r: Parsed<Json>)
    ensures r.Ok? ==> r.offset >= off
    decreases if off <= |s| then |s| - off else 0, 4
  {
    var (round, next) :- EntryAt(s, off, es);
    if round.Again? then EntriesFrom(s, next, round.soFar) else Ok(Object(round.result), next)
  }

  function ArrayAt(s: string, off: nat): (r: Parsed<Json>)
    requires off < |s|
    ensures r.Ok? ==> r.offset > off
    decreases |s| - off, 0
  {
    var first := SpaceEnd(s, off + 1);
    var at := first.offset;
    if first.value == ']' then Ok(Array([]), at + 1) else ItemsFrom(s, at, [])
  }

  // One round of parse_array's loop: an item and what follows. An error empties the array.
  function ItemAt(s: string, off: nat, vs: seq<Json>): (r: Parsed<Round<seq<Json>>>)
    ensures r.Ok? ==> r.offset >= off && (r.value.Again? ==> r.offset > off)
    decreases if off <= |s| then |s| - off else 0, 3
  {
    var (value, off1) :- NextAt(s, off);
    var (last, off2) :- SpaceEnd(s, off1);
    var vs' := vs + [value];
    if last == ',' then Ok(Again(vs'), off2 + 1)
    else if last == ']' then Ok(Done(vs'), off2 + 1)
    else Ok(Done([]), off2)
  }

  // The loop of parse_array about to read an item, with vs stored so far.
  function ItemsFrom(s: string, off: nat, vs: seq<Json>): (r: Parsed<Json>)
    ensures r.Ok? ==> r.offset >= off
    decreases if off <= |s| then |s| - off else 0, 4
  {
    var (round, next) :- ItemAt(s, off, vs);
    if round.Again? then ItemsFrom(s, next, round.soFar) else Ok(Array(round.result), next)
  }

  method ParseBool(str: string, start: nat) returns (r: Parsed<Json>)
    ensures r == BoolAt(str, start)
  {
    if Matches(str, start, "true") {
      return Ok(Boolean(true), start + 4);
    }
    if Matches(str, start, "false") {
      return Ok(Boolean(false), start + 5);
    }
    r := Ok(Null, start);
  }

  method ParseNext(str: string, start: nat) returns (r: Parsed<Json>)
    ensures r == NextAt(str, start)
    decreases if start <= |str| then |str| - start else 0, 2
  {
    var ws :- ConsumeWs(str, start);
    var (c, offset) := ws;
    if c == '[' {
      r := ParseArray(str, offset);
    } else if c == '{' {
      r := ParseObject(str, offset);
    } else if c == '\"' {
      r := ParseString(str, offset);
    } else if c == 't' || c == 'f' {
      r := ParseBool(str, offset);
    } else if c == 'n' {
      r := NullAt(str, offset);
    } else if IsDigit(c) || c == '-' {
      r := ParseNumber(str, offset);
    } else {
      r := Ok(Null, offset);
    }
  }

  method ParseEntry(str: string, start: nat, entries: seq<Entry>) returns (r: Parsed<Round<seq<Entry>>>)
    ensures r == EntryAt(str, start, entries)
    decreases if start <= |str| then |str| - start else 0, 3
  {
    hide Insert, ToText;
    var key :- ParseNext(str, start);
    var ws :- ConsumeWs(str, key.1);
    if ws.0 != ':' {
      return Ok(Done(entries), ws.1);
    }
    ws :- ConsumeWs(str, ws.1 + 1);
    var value :- ParseNext(str, ws.1);
    var stored := Insert(entries, ToText(key.0), value.0);
    ws :- ConsumeWs(str, value.1);
    if ws.0 == ',' {
      r := Ok(Again(stored), ws.1 + 1);
    } else if ws.0 == '}' {
      r := Ok(Done(stored), ws.1 + 1);
    } else {
      r := Ok(Done(stored), ws.1);
    }
  }

  method ParseObject(str: string, start: nat) returns (r: Parsed<Json>)
    requires start < |str|
    ensures r == ObjectAt(str, start)
    decreases |str| - start, 0
  {
    var entries: seq<Entry> := [];
    var ws := ConsumeWs(str, start + 1);
    var offset := ws.offset;
    if ws.value == '}' {
      return Ok(Object(entries), offset + 1);
    }
    while true
      invariant offset > start
      invariant EntriesFrom(str, offset, entries) == ObjectAt(str, start)
      decreases |str| + 1 - offset
    {
      var round :- ParseEntry(str, offset, entries);
      if round.0.Done? {
        return Ok(Object(round.0.result), round.1);
      }
      entries, offset := round.0.soFar, round.1;
    }
  }

  method ParseItem(str: string, start: nat, items: seq<Json>) returns (r: Parsed<Round<seq<Json>>>)
    ensures r == ItemAt(str, start, items)
    decreases if start <= |str| then |str| - start else 0, 3
  {
    var item :- ParseNext(str, start);
    var ws :- ConsumeWs(str, item.1);
    if ws.0 == ',' {
      r := Ok(Again(items + [item.0]), ws.1 + 1);
    } else if ws.0 == ']' {
      r := Ok(Done(items + [item.0]), ws.1 + 1);
    } else {
      r := Ok(Done([]), ws.1);
    }
  }

  method ParseArray(str: string, start: nat) returns (r: Parsed<Json>)
    requires start < |str|
    ensures r == ArrayAt(str, start)
    decreases |str| - start, 0
  {
    var items: seq<Json> := [];
    var ws := ConsumeWs(str, start + 1);
    var offset := ws.offset;
    if ws.value == ']' {
      return Ok(Array(items), offset + 1);
    }
    while true
      invariant offset > start
      invariant ItemsFrom(str, offset, items) == ArrayAt(str, start)
      decreases |str| + 1 - offset
    {
      var round :- ParseItem(str, offset, items);
      if round.0.Done? {
        return Ok(Array(round.0.result), round.1);
      }
      items, offset := round.0.soFar, round.1;
    }
  }

  // JSON::Load
  function Loaded(s: string): Parsed<Json> {
    NextAt(s, 0)
  }

  method Load(str: string) returns (r: Parsed<Json>)
    ensures r == Loaded(str)
  {
    r := ParseNext(str, 0);
  }
}
