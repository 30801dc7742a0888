/**
 The stdio reader of service-provider/msgio.cpp: read_msg with its static, growing buffer.
 */
module Stdio {
  import opened CText
  import opened HexUtil
  import opened MsgIO
  import opened Framing

  const MSGIO_BUFFER_SZ := 1024 * 1024

  // The text up to and with the first newline, or all of it.
  function FirstLine(s: string): (line: string)
    ensures |line| <= |s| && line == s[..|line|]
    ensures s != "" ==> line != ""
  {
    match FindLf(s)
    case Some(i) => FindLfIs(s); s[..i + 1]
    case None => s
  }

  // The only newline of the first line is its last character.
  lemma FirstLineIs(s: string)
    ensures forall j :: 0 <= j < |FirstLine(s)| - 1 ==> FirstLine(s)[j] != '\n'
  {
    FindLfIs(s);
  }

  // What read_msg makes of the input, as long as it holds no NUL: the line without its '\n' and
  // one '\r' before it.
  function ReadMsgOutcome(stdin: string): (ReadResult, string) {
    match FindLf(stdin)
    case None => (ProtocolError, "")
    case Some(i) =>
      FindLfIs(stdin);
      var line := StripCr(stdin[..i]);
      (if |line| % 2 != 0 then ProtocolError else Frame(line), stdin[i + 1..])
  }

  function StripCr(line: string): string {
    if line != "" && line[|line| - 1] == '\r' then line[..|line| - 1] else line
  }

  // strlen of a C string that starts at the front of s
  function Strlen(s: string): (n: nat)
    requires '\0' in s
    ensures n < |s| && s[n] == '\0' && forall i :: 0 <= i < n ==> s[i] != '\0'
  {
    if s[0] == '\0' then 0 else 1 + Strlen(s[1..])
  }

  class StdioReader {
    var stdin: string
    var buffer: array<char>
    var bufferSize: nat

    ghost predicate Valid()
      reads this
    {
      buffer.Length == bufferSize >= MSGIO_BUFFER_SZ
    }

    constructor (input: string)
      ensures Valid() && stdin == input
    {
      stdin := input;
      buffer := new char[MSGIO_BUFFER_SZ];
      bufferSize := MSGIO_BUFFER_SZ;
    }

    // fgets(&buffer[at], size, stdin)
    method Fgets(at: nat, size: nat) returns (ok: bool)
      requires Valid() && size >= 2 && at + size <= bufferSize
      modifies this`stdin, buffer
      ensures ok == (old(stdin) != "")
      ensures buffer[..at] == old(buffer[..at])
      ensures var line := FirstLine(old(stdin));
              var n := if |line| < size then |line| else size - 1;
              ok ==> buffer[at..at + n] == line[..n] && buffer[at + n] == '\0' && stdin == old(stdin)[n..]
      ensures !ok ==> stdin == ""
    {
      if stdin == "" {
        return false;
      }
      var line := FirstLine(stdin);
      var n := if |line| < size then |line| else size - 1;
      for i := 0 to n
        invariant stdin == old(stdin)
        invariant buffer[..at] == old(buffer[..at])
        invariant buffer[at..at + i] == line[..i]
      {
        buffer[at + i] := line[i];
        assert line[..i + 1] == line[..i] + [line[i]];
        assert buffer[at..at + i + 1] == buffer[at..at + i] + [line[i]];
      }
      buffer[at + n] := '\0';
      stdin := stdin[n..];
      ok := true;
    }

    // realloc(buffer, buffer_size + MSGIO_BUFFER_SZ)
    method Grow(ghost used: nat)
      requires Valid() && used <= bufferSize
      modifies this
      ensures Valid() && bufferSize == old(bufferSize) + MSGIO_BUFFER_SZ && fresh(buffer)
      ensures buffer[..used] == old(buffer[..used]) && stdin == old(stdin)
    {
      var bigger := new char[bufferSize + MSGIO_BUFFER_SZ];
      forall i | 0 <= i < bufferSize {
        bigger[i] := buffer[i];
      }
      bufferSize := bufferSize + MSGIO_BUFFER_SZ;
      buffer := bigger;
    }

    // One round of read_msg's loop up to bread= strlen(buffer).
    method ReadPiece(bread: nat) returns (ok: bool, total: nat)
      requires Valid() && bread + 2 <= bufferSize
      modifies this`stdin, buffer
      ensures total < bufferSize
      ensures if ok then |stdin| < |old(stdin)| else old(stdin) == "" == stdin
      ensures ok && '\0' !in old(buffer[..bread]) + old(stdin) && '\n' !in old(buffer[..bread]) ==>
                Grown(old(buffer[..bread]) + old(stdin), buffer[..total], stdin)
    {
      ghost var before, input := buffer[..bread], stdin;
      ok := Fgets(bread, bufferSize - bread);
      total := bread;
      if ok {
        ghost var n := if |FirstLine(input)| < bufferSize - bread then |FirstLine(input)| else bufferSize - bread - 1;
        assert buffer[..][bread + n] == '\0';
        total := Strlen(buffer[..]);
        if '\0' !in before + input && '\n' !in before {
          LineRead(before, input, buffer[..], n, total);
        }
      }
    }

    // The loop of read_msg: reads a whole line, growing the buffer, and drops its newline.
    method ReadLine() returns (eof: bool, bread: nat)
      requires Valid()
      modifies this, buffer
      ensures Valid() && bufferSize >= old(bufferSize) && (buffer == old(buffer) || fresh(buffer))
      ensures bread < bufferSize
      ensures '\0' !in old(stdin) ==> LineOf(old(stdin), eof, buffer[..bread], stdin)
    {
      ghost var input, seen: string := stdin, "";
      ghost var clean := '\0' !in input;
      eof, bread := false, 0;
      assert buffer[..0] == "" && "" + input == input;
      hide LineOf, Grown, FirstLine, Strlen, FindLf;
      while true
        invariant Valid() && bufferSize >= old(bufferSize) && bread + 2 <= bufferSize
        invariant buffer == old(buffer) || fresh(buffer)
        invariant seen == buffer[..bread]
        invariant clean ==> seen + stdin == input && '\n' !in seen
        decreases |stdin|
      {
        ghost var before := seen;
        var ok;
        ok, bread := ReadPiece(bread);
        seen := buffer[..bread];
        if clean {
          LineStep(input, before, ok, seen, stdin);
        }
        if !ok || bread == 0 {
          return true, bread;
        }
        assert buffer[bread - 1] == seen[bread - 1];
        if buffer[bread - 1] == '\n' {
          bread := bread - 1;
          assert buffer[..bread] == seen[..bread];
          break;
        }
        Grow(bread);
      }
    }

    // On input without NUL, the bytes, size and result ReadMsgOutcome tells; on any input the
    // buffer is never written past its end.
    method ReadMsg() returns (r: ReadResult, sz: nat, dest: seq<byte>)
      requires Valid()
      modifies this, buffer
      ensures Valid() && bufferSize >= old(bufferSize)
      ensures '\0' !in old(stdin) ==> (r, stdin) == ReadMsgOutcome(old(stdin))
      ensures r.Frame? ==> |r.text| % 2 == 0
      ensures r.Frame? ==> sz == |r.text| && (AllHex(r.text) ==> dest == Decode(r.text))
    {
      sz, dest := 0, [];
      var eof, bread := ReadLine();
      if eof {
        return ProtocolError, sz, dest;
      }
      ghost var line := buffer[..bread];
      if bread > 0 && buffer[bread - 1] == '\r' {
        bread := bread - 1;
      }
      var text := buffer[..bread];
      assert text == StripCr(line);
      if bread % 2 != 0 {
        return ProtocolError, sz, dest;
      }
      var decoded := new byte[bread / 2];
      var _ := FromHexstring(decoded, text, bread / 2);
      assert text[..2 * (bread / 2)] == text;
      if AllHex(text) {
        ScannedHex(text);
        assert decoded[..bread / 2] == decoded[..];
      }
      dest, sz := decoded[..], bread;
      r := Frame(text);
    }
  }

  // What reading a line off input gives: the line without its newline, and the rest.
  ghost predicate LineOf(input: string, eof: bool, line: string, rest: string) {
    match FindLf(input)
    case None => eof && rest == ""
    case Some(i) => FindLfIs(input); !eof && line == input[..i] && rest == input[i + 1..]
  }

  // Part of the line has been read: a newline can only be its last character.
  ghost predicate Grown(input: string, line: string, rest: string) {
    line != "" && line + rest == input && '\n' !in line[..|line| - 1]
  }

  lemma FindLfAt(line: string, rest: string)
    requires '\n' !in line
    ensures FindLf(line + ['\n'] + rest) == Some(|line|)
    ensures LineOf(line + ['\n'] + rest, false, line, rest)
  {
    var s := line + ['\n'] + rest;
    FindLfIs(s);
    assert s[|line|] == '\n' && forall i :: 0 <= i < |line| ==> s[i] == line[i];
  }

  // What one round of the loop has found out.
  lemma LineStep(input: string, before: string, ok: bool, line: string, rest: string)
    requires '\n' !in before
    requires if ok then Grown(input, line, rest) else before == input && rest == ""
    ensures !ok ==> LineOf(input, true, line, rest)
    ensures ok ==> line != "" && line + rest == input
    ensures ok && line[|line| - 1] == '\n' ==> LineOf(input, false, line[..|line| - 1], rest)
    ensures ok && line[|line| - 1] != '\n' ==> '\n' !in line
  {
    FindLfIs(input);
    if ok {
      var front, last := line[..|line| - 1], line[|line| - 1];
      assert line == front + [last];
      if last == '\n' {
        FindLfAt(front, rest);
      }
    }
  }

  lemma Recut(before: string, input: string, n: nat)
    requires n <= |input|
    ensures (before + input[..n]) + input[n..] == before + input
  {
  }

  // What one fgets adds to the line, seen through strlen.
  lemma LineRead(before: string, input: string, buffer: string, n: nat, bread: nat)
    requires '\0' !in before + input && '\n' !in before && input != "" && 1 <= n <= |FirstLine(input)|
    requires |before| + n < |buffer| && buffer[..|before|] == before
    requires buffer[|before|..|before| + n] == FirstLine(input)[..n] && buffer[|before| + n] == '\0'
    requires bread < |buffer| && buffer[bread] == '\0' && forall i :: 0 <= i < bread ==> buffer[i] != '\0'
    ensures bread == |before| + n && Grown(before + input, buffer[..bread], input[n..])
  {
    var m := |before| + n;
    FirstLineIs(input);
    hide FirstLine;
    assert forall i :: 0 <= i < |before| ==> buffer[i] == before[i] == (before + input)[i] by {
      assert forall i :: 0 <= i < |before| ==> buffer[i] == buffer[..|before|][i];
    }
    assert forall i :: |before| <= i < m ==> buffer[i] == FirstLine(input)[i - |before|] == (before + input)[i] by {
      assert forall i :: |before| <= i < m ==> buffer[i] == buffer[|before|..m][i - |before|];
    }
    assert bread == m;
    assert buffer[..m] == before + input[..n];
    Recut(before, input, n);
  }

  // --- both readers -----------------------------------------------------------------------------

  // One line, however it is cut: the socket reader waits for all of it.
  lemma {:induction false} SocketLine(rbuffer: string, incoming: seq<RecvEvent>, line: string)
    requires '\n' !in line && AllFragments(incoming) && incoming != []
    requires rbuffer + Bytes(incoming) == line + "\n" && LineEnd(line + "\n").Some?
    ensures ReadOutcome(rbuffer, incoming) == (TakeLine(line + "\n").0, TakeLine(line + "\n").1, [])
    decreases incoming
  {
    hide LineEnd, TakeLine;
    var data := incoming[0].data;
    assert incoming[0].Fragment? && data != "";
    var buffer, later := rbuffer + data, Bytes(incoming[1..]);
    BytesFirst(incoming, data);
    assert rbuffer + (data + later) == buffer + later;
    if incoming[1..] == [] {
      assert buffer + "" == buffer;
    } else {
      BytesPositive(incoming[1..]);
      assert |buffer + later| == |line| + 1;
      forall i | 0 <= i < |buffer| ensures buffer[i] != '\n' {
        assert buffer[i] == (line + "\n")[i] == line[i];
      }
      NoLineEnd(buffer);
      SocketLine(buffer, incoming[1..], line);
    }
  }

  lemma NoLineEnd(s: string)
    requires '\n' !in s
    ensures LineEnd(s).None?
  {
    FindLfIs(s);
    FindCrLfIs(s);
  }

  lemma LineTaken(line: string)
    requires '\n' !in line
    ensures LineEnd(line + "\n").Some?
    ensures TakeLine(line + "\n").0 ==
            if StripCr(line) == "" then EmptyLine
            else if |StripCr(line)| % 2 != 0 then ProtocolError
            else Frame(StripCr(line))
  {
    hide FindLf, FindCrLf;
    var s := line + "\n";
    var n := |line|;
    FindLfIs(s);
    FindCrLfIs(s);
    assert s[n] == '\n' && forall i :: 0 <= i < n ==> s[i] == line[i] && s[i] != '\n';
    assert forall i :: 0 <= i <= n ==> s[..i] == line[..i];
    assert line[..n] == line;
  }

  // Over any single line and any fragmentation, the two readers return the same result, bytes and
  // size exactly if the line is not empty.
  lemma ReadersAgree(line: string, incoming: seq<RecvEvent>)
    requires '\n' !in line && NoneFails(incoming) && Bytes(incoming) == line + "\n"
    ensures ReadMsgOutcome(line + "\n").0 == ReadOutcome("", incoming).0 <==> StripCr(line) != ""
    ensures ReadMsgOutcome(line + "\n").1 == ""
  {
    hide FindLf, FindCrLf, ReadOutcome, NoneFails;
    LineTaken(line);
    DeliveriesDeliver(incoming);
    ReadRetries("", incoming);
    var deliveries := Deliveries(incoming);
    assert deliveries != [] && "" + Bytes(deliveries) == Bytes(deliveries);
    SocketLine("", deliveries, line);
    assert line + ['\n'] + "" == line + "\n";
    FindLfAt(line, "");
  }
}
