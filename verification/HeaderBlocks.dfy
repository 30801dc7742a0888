/**
 Which header block libcurl delivered last: the callbacks of service-provider/agent_curl.cpp.
 Proxies and interim answers put header blocks of their own before the server's.
 */
module HeaderBlocks {
  import opened CText

  // header.find_first_of("\n\r") == 0
  predicate IsBlank(line: string) {
    line != "" && (line[0] == '\n' || line[0] == '\r')
  }

  // A header line that follows a blank one starts a block.
  predicate Starts(lines: seq<string>, i: nat) {
    0 < i < |lines| && IsBlank(lines[i - 1]) && !IsBlank(lines[i])
  }

  // The line the last block starts with; the first line where nothing follows a blank line.
  function LastBlock(lines: seq<string>): (i: nat)
    ensures i <= |lines| && (i == 0 || Starts(lines, i))
    ensures forall k :: i < k < |lines| ==> !Starts(lines, k)
  {
    LastStart(lines, |lines|)
  }

  function LastStart(lines: seq<string>, n: nat): (i: nat)
    requires n <= |lines|
    ensures i == 0 || (i < n && Starts(lines, i))
    ensures forall k :: i < k < n ==> !Starts(lines, k)
  {
    if n == 0 then 0 else if Starts(lines, n - 1) then n - 1 else LastStart(lines, n - 1)
  }

  class AgentCurl {
    var flagEoh: bool
    var headerPos: nat
    var headerLen: nat
    var sresponse: string

    // What the fields say about the header lines received since the request began.
    ghost predicate Tracks(lines: seq<string>)
      reads this
    {
      && headerLen == |Flatten(lines)|
      && headerPos == |Flatten(lines[..LastBlock(lines)])|
      && flagEoh == (lines != [] && IsBlank(lines[|lines| - 1]))
    }

    // AgentCurl::request before curl_easy_perform
    constructor ()
      ensures Tracks([]) && sresponse == ""
    {
      flagEoh, headerPos, headerLen, sresponse := false, 0, 0, "";
    }

    method HeaderCallback(header: string, ghost lines: seq<string>) returns (len: nat)
      requires Tracks(lines)
      modifies `flagEoh, `headerPos, `headerLen
      ensures Tracks(lines + [header]) && len == |header|
    {
      ghost var all := lines + [header];
      LastBlockPush(lines, header);
      FlattenPush(lines, header);
      len := |header|;
      var blank := IsBlank(header);
      if flagEoh {
        if !blank {
          headerPos := headerLen;
          flagEoh := false;
        }
      } else {
        if blank {
          flagEoh := true;
        }
      }
      headerLen := headerLen + len;
    }

    method WriteCallback(data: string) returns (len: nat)
      modifies `sresponse
      ensures sresponse == old(sresponse) + data && len == |data|
    {
      len := |data|;
      sresponse := sresponse + data;
    }

    // A whole transfer: every header line goes to both callbacks, then the body in pieces.
    method Transfer(lines: seq<string>, pieces: seq<string>)
      requires Tracks([]) && sresponse == ""
      modifies this
      ensures Tracks(lines)
      ensures headerPos <= |sresponse|
      ensures sresponse[headerPos..] == Flatten(lines[LastBlock(lines)..]) + Flatten(pieces)
    {
      hide LastBlock, IsBlank;
      assert lines[..0] == [] && pieces[..0] == [];
      for i := 0 to |lines|
        invariant Tracks(lines[..i]) && sresponse == Flatten(lines[..i])
      {
        FlattenPush(lines[..i], lines[i]);
        assert lines[..i] + [lines[i]] == lines[..i + 1];
        var _ := WriteCallback(lines[i]);
        var _ := HeaderCallback(lines[i], lines[..i]);
      }
      assert lines[..|lines|] == lines;
      for i := 0 to |pieces|
        invariant Tracks(lines) && sresponse == Flatten(lines) + Flatten(pieces[..i])
      {
        FlattenPush(pieces[..i], pieces[i]);
        assert pieces[..i] + [pieces[i]] == pieces[..i + 1];
        var _ := WriteCallback(pieces[i]);
      }
      assert pieces[..|pieces|] == pieces;
      ghost var k := LastBlock(lines);
      FlattenConcat(lines[..k], lines[k..]);
      assert lines[..k] + lines[k..] == lines;
      Tail(sresponse, Flatten(lines[..k]), Flatten(lines[k..]), Flatten(pieces));
    }
  }

  lemma Tail(s: string, a: string, b: string, c: string)
    requires s == a + b + c
    ensures |a| <= |s| && s[|a|..] == b + c
  {
  }

  lemma {:induction false} LastStartPrefix(lines: seq<string>, line: string, n: nat)
    requires n <= |lines|
    ensures LastStart(lines + [line], n) == LastStart(lines, n)
  {
    if n > 0 {
      LastStartPrefix(lines, line, n - 1);
      assert Starts(lines + [line], n - 1) == Starts(lines, n - 1);
    }
  }

  lemma LastBlockPush(lines: seq<string>, line: string)
    ensures var all := lines + [line];
            && LastBlock(all) == (if Starts(all, |lines|) then |lines| else LastBlock(lines))
            && all[..LastBlock(all)] == lines[..LastBlock(all)]
  {
    LastStartPrefix(lines, line, |lines|);
    var all := lines + [line];
    assert LastBlock(all) <= |lines|;
  }

  // Any number of blocks, separated by runs of blank lines: what is taken from header_pos on is the
  // last block, the blank lines after it and the body, whatever stands before it.
  lemma LastOfBlocks(front: seq<string>, block: seq<string>, blanks: seq<string>)
    requires front == [] || IsBlank(front[|front| - 1])
    requires block != [] && forall i :: 0 <= i < |block| ==> !IsBlank(block[i])
    requires forall i :: 0 <= i < |blanks| ==> IsBlank(blanks[i])
    ensures var lines := front + block + blanks;
            lines[LastBlock(lines)..] == block + blanks
  {
    var lines := front + block + blanks;
    var n := |front|;
    forall k | n < k < |lines| ensures !Starts(lines, k) {
      if k < n + |block| {
        assert lines[k - 1] == block[k - 1 - n];
      } else {
        assert lines[k] == blanks[k - n - |block|];
      }
    }
    if n > 0 {
      assert lines[n - 1] == front[n - 1] && lines[n] == block[0];
      assert Starts(lines, n);
    }
    assert lines[n..] == block + blanks;
  }
}
