/**
 Proxy settings as a URL and back: IAS_Connection::proxy_url in service-provider/iasrequest.cpp
 and get_proxy in service-provider/sp.cpp.
 */
module Proxy {
  import opened CText

  // s.find_first_of(c, from)
  function FindFirst(s: string, c: char, from: nat): (r: Option<nat>)
    ensures r.Some? ==> from <= r.value < |s| && s[r.value] == c
    ensures r.Some? ==> forall i :: from <= i < r.value ==> s[i] != c
    ensures r.None? ==> forall i :: from <= i < |s| ==> s[i] != c
    decreases |s| - from
  {
    if from >= |s| then None else if s[from] == c then Some(from) else FindFirst(s, c, from + 1)
  }

  // s.find_first_not_of(c, from)
  function FindFirstNot(s: string, c: char, from: nat): (r: Option<nat>)
    ensures r.Some? ==> from <= r.value < |s| && s[r.value] != c
    ensures r.Some? ==> forall i :: from <= i < r.value ==> s[i] == c
    ensures r.None? ==> forall i :: from <= i < |s| ==> s[i] == c
    decreases |s| - from
  {
    if from >= |s| then None else if s[from] != c then Some(from) else FindFirstNot(s, c, from + 1)
  }

  // (unsigned int) std::stoul(s); None when it throws
  function Stoul(s: string): Option<nat> {
    match SignedPrefix(s)
    case None => None
    case Some(n) => if -TWO_64 < n < TWO_64 then Some(n % TWO_32) else None
  }

  function ProxyUrl(server: string, port: nat): string {
    if server == "" then ""
    else "http://" + (server + if port == 80 then "" else ":" + Decimal(port))
  }

  // The port a scheme stands for.
  function DefaultPort(proto: string): Option<nat> {
    if proto == "https" then Some(443) else if proto == "http" then Some(80) else None
  }

  // s up to the first slash from index from on
  function UpToSlash(s: string, from: nat): string
    requires from <= |s|
  {
    match FindFirst(s, '/', from) case Some(i) => s[from..i] case None => s[from..]
  }

  // What get_proxy reads in a lower-case URL: server and port, or None for failure.
  function ProxyOf(lcurl: string): Option<(string, nat)> {
    var colon := FindFirst(lcurl, ':', 0);
    var after := if colon.Some? then colon.value + 1 else 0;
    match DefaultPort(if colon.Some? then lcurl[..colon.value] else lcurl)
    case None => None
    case Some(port) =>
      match FindFirstNot(lcurl, '/', after)
      case None => None
      case Some(idx1) =>
        match FindFirst(lcurl, ':', idx1)
        case None => Some((UpToSlash(lcurl, idx1), port))
        case Some(idx2) =>
          match Stoul(UpToSlash(lcurl, idx2 + 1))
          case None => None
          case Some(p) => Some((lcurl[idx1..idx2], p))
  }

  class Connection {
    var proxyServer: string
    var proxyPort: nat

    constructor ()
      ensures proxyServer == "" && proxyPort == 80
    {
      proxyServer, proxyPort := "", 80;
    }

    method SetProxy(server: string, port: nat)
      modifies this
      ensures proxyServer == server && proxyPort == port
    {
      proxyServer := server;
      proxyPort := port;
    }

    method GetProxyUrl() returns (url: string)
      ensures url == ProxyUrl(proxyServer, proxyPort)
    {
      if proxyServer == "" {
        return "";
      }
      url := "http://" + proxyServer;
      if proxyPort != 80 {
        url := url + ":";
        url := url + Decimal(proxyPort);
      }
      assert proxyPort == 80 ==> proxyServer + "" == proxyServer;
    }
  }

  method GetProxy(url: Option<string>) returns (ok: bool, server: string, port: nat)
    ensures url.None? ==> !ok
    ensures url.Some? ==> ProxyOf(Lower(url.value)) == if ok then Some((server, port)) else None
  {
    hide Stoul, Lower, FindFirst, FindFirstNot, DefaultPort, UpToSlash;
    ok, server, port := false, "", 0;
    if url.None? {
      return;
    }
    var lcurl := Lower(url.value);
    var colon := FindFirst(lcurl, ':', 0);
    var scheme := DefaultPort(if colon.Some? then lcurl[..colon.value] else lcurl);
    if scheme.None? {
      return;
    }
    port := scheme.value;
    // npos + 1 is 0
    var start := FindFirstNot(lcurl, '/', if colon.Some? then colon.value + 1 else 0);
    if start.None? {
      return;
    }
    var idx1 := start.value;
    var idx2 := FindFirst(lcurl, ':', idx1);
    if idx2.None? {
      server := UpToSlash(lcurl, idx1);
    } else {
      server := lcurl[idx1..idx2.value];
      idx1 := idx2.value + 1;
      var number := Stoul(UpToSlash(lcurl, idx1));
      if number.None? {
        return;
      }
      port := number.value;
    }
    ok := true;
  }

  // --- round trip -------------------------------------------------------------------------------

  // Server names that come back: in lower case, without a colon, not starting with a slash, and
  // without a slash at all where no port follows.
  predicate Restorable(server: string, port: nat) {
    && Lower(server) == server && ':' !in server && server != "" && server[0] != '/'
    && (port == 80 ==> '/' !in server)
  }

  lemma LowerPart(s: string, i: nat, j: nat)
    requires i <= j <= |s|
    ensures Lower(Lower(s)[i..j]) == Lower(s)[i..j]
  {
  }

  lemma LowerUrl(server: string, port: nat)
    requires server != ""
    ensures Lower(ProxyUrl(server, port)) ==
            "http://" + (Lower(server) + if port == 80 then "" else ":" + Decimal(port))
  {
    var d := Decimal(port);
    assert forall i :: 0 <= i < |d| ==> ToLower(d[i]) == d[i];
    var s := ProxyUrl(server, port);
    var r := "http://" + (Lower(server) + if port == 80 then "" else ":" + d);
    assert |Lower(s)| == |r|;
    assert forall i :: 0 <= i < |r| ==> Lower(s)[i] == r[i];
  }

  lemma StoulOfDecimal(port: nat)
    requires port < 65536
    ensures Stoul(Decimal(port)) == Some(port)
  {
    hide SignedPrefix, Decimal;
    SignedPrefixOfDecimal(port);
    assert ToDecimal(port) == Decimal(port);
  }

  lemma LowerConcat(a: string, b: string)
    ensures Lower(a + b) == Lower(a) + Lower(b)
  {
  }

  lemma LowerKeeps(s: string, c: char)
    requires c == ':' || c == '/'
    ensures c in Lower(s) <==> c in s
    ensures s != "" ==> (Lower(s)[0] == c <==> s[0] == c)
  {
    if c in s {
      var i :| 0 <= i < |s| && s[i] == c;
      assert Lower(s)[i] == c;
    }
    if c in Lower(s) {
      var i :| 0 <= i < |s| && Lower(s)[i] == c;
      assert s[i] == c;
    }
  }

  lemma LowerPort(port: string)
    requires IsPort(port)
    ensures Lower(port) == port && Lower(":") == ":" && Lower("://") == "://" && Lower("") == ""
  {
  }

  // An optional sign and digits, or nothing.
  predicate IsPort(port: string) {
    || port == ""
    || (AllDigits(port[1..]) && (IsDigit(port[0]) || (|port| > 1 && (port[0] == '+' || port[0] == '-'))))
  }

  function PortValue(port: string): int
    requires IsPort(port) && port != ""
  {
    if port[0] == '-' then -1 * DecimalValue(port[1..])
    else if port[0] == '+' then DecimalValue(port[1..])
    else assert AllDigits(port); DecimalValue(port)
  }

  function PortPart(port: string): string {
    if port == "" then "" else ":" + port
  }

  // What get_proxy takes from a URL of the usual form: the host in lower case, and the port as stoul reads
  // it, which also takes a sign, or the one that the scheme stands for. The path must not have a colon
  // where no port stands before it.
  lemma ProxyOfUrl(scheme: string, host: string, port: string, path: string)
    requires Lower(scheme) == "http" || Lower(scheme) == "https"
    requires host != "" && ':' !in host && '/' !in host && IsPort(port)
    requires path == "" || path[0] == '/'
    requires port == "" ==> ':' !in path
    ensures ProxyOf(Lower(scheme + ("://" + (host + (PortPart(port) + path))))) ==
            if port == "" then Some((Lower(host), if Lower(scheme) == "https" then 443 else 80))
            else if -0x1_0000_0000_0000_0000 < PortValue(port) < 0x1_0000_0000_0000_0000 then
              Some((Lower(host), PortValue(port) % 0x1_0000_0000))
            else None
  {
    LowerConcat(scheme, "://" + (host + (PortPart(port) + path)));
    LowerConcat("://", host + (PortPart(port) + path));
    LowerConcat(host, PortPart(port) + path);
    LowerConcat(PortPart(port), path);
    LowerConcat(":", port);
    LowerPort(port);
    LowerKeeps(host, ':');
    LowerKeeps(host, '/');
    LowerKeeps(path, ':');
    LowerKeeps(path, '/');
    hide Lower, ProxyOf, PortValue;
    LowerUrlRead(Lower(scheme), Lower(host), port, Lower(path));
  }

  lemma LowerUrlRead(scheme: string, host: string, port: string, path: string)
    requires scheme == "http" || scheme == "https"
    requires host != "" && ':' !in host && '/' !in host && IsPort(port)
    requires path == "" || path[0] == '/'
    requires port == "" ==> ':' !in path
    ensures ProxyOf(scheme + ("://" + (host + (PortPart(port) + path)))) ==
            if port == "" then Some((host, if scheme == "https" then 443 else 80))
            else if -0x1_0000_0000_0000_0000 < PortValue(port) < 0x1_0000_0000_0000_0000 then
              Some((host, PortValue(port) % 0x1_0000_0000))
            else None
  {
    hide *;
    var rest := PortPart(port) + path;
    var url, n := scheme + ("://" + (host + rest)), |scheme|;
    var from := n + 3;
    UrlOffsets(scheme, host + rest);
    SchemeFound(url, scheme, "://" + (host + rest));
    SlashesSkipped(url, n + 1, host + rest);
    PortOf(scheme);
    AfterScheme(url, n, from, if scheme == "https" then 443 else 80);
    if port == "" {
      NoPort(path);
      NoColon(url, from, host + path);
      SlashFound(url, from, host, path);
    } else {
      SomePort(port, path);
      ColonFound(url, from, host, port + path);
      StoulOfDigits(port);
      SlashFound(url, from + |host| + 1, port, path);
    }
  }

  lemma UrlOffsets(scheme: string, rest: string)
    ensures var url, n := scheme + ("://" + rest), |scheme|;
            && url[..n] == scheme && url[n + 3..] == rest && url[n + 1] == '/' && url[n + 2] == '/'
            && "://" + rest != "" && ("://" + rest)[0] == ':'
  {
    var url, n := scheme + ("://" + rest), |scheme|;
    assert url[n..] == "://" + rest;
    assert url[n + 3..] == url[n..][3..];
  }

  lemma PortOf(scheme: string)
    requires scheme == "http" || scheme == "https"
    ensures DefaultPort(scheme) == Some(if scheme == "https" then 443 else 80)
  {
  }

  lemma NoPort(path: string)
    ensures PortPart("") + path == path
  {
  }

  lemma SomePort(port: string, path: string)
    requires port != ""
    ensures PortPart(port) + path == ":" + (port + path)
  {
  }

  // get_proxy once it has found the scheme and the start of the host.
  lemma AfterScheme(url: string, n: nat, from: nat, port: nat)
    requires FindFirst(url, ':', 0) == Some(n) && DefaultPort(url[..n]) == Some(port)
    requires FindFirstNot(url, '/', n + 1) == Some(from)
    ensures ProxyOf(url) ==
            match FindFirst(url, ':', from)
            case None => Some((UpToSlash(url, from), port))
            case Some(i) =>
              match Stoul(UpToSlash(url, i + 1)) case None => None case Some(p) => Some((url[from..i], p))
  {
    hide FindFirst, FindFirstNot, DefaultPort, Stoul, UpToSlash;
  }

  lemma SchemeFound(url: string, scheme: string, rest: string)
    requires url == scheme + rest && rest != "" && rest[0] == ':' && (scheme == "http" || scheme == "https")
    ensures FindFirst(url, ':', 0) == Some(|scheme|)
  {
    hide FindFirst;
    assert forall i :: 0 <= i < |scheme| ==> url[i] == scheme[i];
    FindFirstIs(url, ':', 0, |scheme|);
  }

  lemma SlashesSkipped(url: string, from: nat, rest: string)
    requires from + 2 <= |url| && url[from] == '/' && url[from + 1] == '/' && url[from + 2..] == rest
    requires rest != "" && rest[0] != '/'
    ensures FindFirstNot(url, '/', from) == Some(from + 2)
  {
    assert url[from + 2] == rest[0];
  }

  lemma NoColon(url: string, from: nat, rest: string)
    requires from <= |url| && url[from..] == rest && ':' !in rest
    ensures FindFirst(url, ':', from).None?
  {
    hide FindFirst;
    assert forall i :: from <= i < |url| ==> url[i] == rest[i - from];
  }

  lemma ColonFound(url: string, from: nat, host: string, rest: string)
    requires from <= |url| && url[from..] == host + (":" + rest) && ':' !in host
    ensures FindFirst(url, ':', from) == Some(from + |host|) && url[from..from + |host|] == host
    ensures url[from + |host| + 1..] == rest
  {
    hide FindFirst;
    var all := host + (":" + rest);
    assert forall i :: from <= i < |url| ==> url[i] == all[i - from];
    FindFirstIs(url, ':', from, from + |host|);
  }

  lemma SlashFound(url: string, from: nat, text: string, path: string)
    requires from <= |url| && url[from..] == text + path && '/' !in text && (path == "" || path[0] == '/')
    ensures UpToSlash(url, from) == text
  {
    hide FindFirst;
    var all := text + path;
    assert forall i :: from <= i < |url| ==> url[i] == all[i - from];
    if path == "" {
      assert url[from..] == text;
    } else {
      FindFirstIs(url, '/', from, from + |text|);
      assert url[from..from + |text|] == text;
    }
  }

  lemma StoulOfDigits(port: string)
    requires IsPort(port) && port != ""
    ensures Stoul(port) ==
            if -0x1_0000_0000_0000_0000 < PortValue(port) < 0x1_0000_0000_0000_0000 then
              Some(PortValue(port) % 0x1_0000_0000)
            else None
    ensures '/' !in port
  {
    var sign, digits := SignAndDigits(port);
    StrtolExactly("", sign, digits, "");
    hide SignedPrefix, DecimalValue, IsPort, PortValue, AllDigits;
  }

  lemma SignAndDigits(port: string) returns (sign: string, digits: string)
    requires IsPort(port) && port != ""
    ensures (sign == "" || sign == "+" || sign == "-") && AllDigits(digits) && digits != "" && '/' !in port
    ensures "" + (sign + (digits + "")) == port && AllSpace("")
    ensures PortValue(port) == if sign == "-" then -1 * DecimalValue(digits) else 1 * DecimalValue(digits)
  {
    hide DecimalValue;
    assert port == port[..1] + port[1..];
    if IsDigit(port[0]) {
      sign, digits := "", port;
      assert "" + (sign + (digits + "")) == port;
    } else {
      sign, digits := port[..1], port[1..];
      assert sign == [port[0]];
      assert "" + (sign + (digits + "")) == port;
    }
    NoSlash(port);
  }

  lemma NoSlash(port: string)
    requires IsPort(port)
    ensures '/' !in port
  {
    forall i | 0 <= i < |port| ensures port[i] != '/' {
      if i > 0 {
        assert port[i] == port[1..][i - 1];
      }
    }
  }

  // The pieces of the lower-case URL.
  lemma UrlPieces(server: string, port: nat) returns (url: string)
    requires server != ""
    ensures url == Lower(ProxyUrl(server, port)) && |url| >= 7 + |server|
    ensures url[..4] == "http" && url[4] == ':' && url[5] == '/' && url[6] == '/'
    ensures url[7..7 + |server|] == Lower(server)
    ensures if port == 80 then |url| == 7 + |server|
            else |url| > 7 + |server| && url[7 + |server|] == ':' && url[8 + |server|..] == Decimal(port)
  {
    url := Lower(ProxyUrl(server, port));
    LowerUrl(server, port);
    hide Decimal, Lower;
    var low := Lower(server);
    var tail := if port == 80 then "" else ":" + Decimal(port);
    var head := "http://";
    assert url == head + (low + tail);
    assert url[..7] == head && head[..4] == "http" && url[..4] == url[..7][..4];
    assert url[4] == head[4] && url[5] == head[5] && url[6] == head[6];
    assert url[7..] == low + tail;
  }

  lemma FindFirstIs(s: string, c: char, from: nat, i: nat)
    requires from <= i < |s| && s[i] == c && forall j :: from <= j < i ==> s[j] != c
    ensures FindFirst(s, c, from) == Some(i)
  {
  }

  lemma SchemeColon(url: string)
    requires |url| > 4 && url[..4] == "http" && url[4] == ':'
    ensures FindFirst(url, ':', 0) == Some(4)
  {
    assert forall i :: 0 <= i < 4 ==> url[i] == url[..4][i] == "http"[i];
    FindFirstIs(url, ':', 0, 4);
  }

  // In a URL whose host is restorable, the searches of get_proxy stop at the host's ends.
  lemma HostFound(server: string, port: nat, url: string)
    requires Restorable(server, port) && |url| >= 7 + |server| && url[7..7 + |server|] == server
    requires url[..4] == "http" && url[4] == ':' && url[5] == '/' && url[6] == '/'
    ensures FindFirst(url, ':', 0) == Some(4) && FindFirstNot(url, '/', 5) == Some(7)
    ensures forall i :: 7 <= i < 7 + |server| ==> url[i] != ':' && (port == 80 ==> url[i] != '/')
  {
    hide Lower, FindFirst;
    var n := 7 + |server|;
    SchemeColon(url);
    forall i | 7 <= i < n ensures url[i] == server[i - 7] {
      assert url[i] == url[7..n][i - 7];
    }
    assert url[7] == server[0];
  }

  lemma Restored(server: string, port: nat)
    requires port < 65536 && Restorable(server, port)
    ensures ProxyOf(Lower(ProxyUrl(server, port))) == Some((server, port))
  {
    var url := UrlPieces(server, port);
    HostFound(server, port, url);
    hide Decimal, Lower, ProxyUrl, Stoul, FindFirst, FindFirstNot;
    var n := 7 + |server|;
    if port == 80 {
      assert url[7..] == url[7..n];
    } else {
      FindFirstIs(url, ':', 7, n);
      var d := Decimal(port);
      forall i | n + 1 <= i < |url| ensures url[i] != '/' {
        assert url[i] == url[n + 1..][i - n - 1] == d[i - n - 1];
      }
      StoulOfDecimal(port);
    }
  }

  // Where get_proxy takes the server from.
  lemma ServerTaken(url: string, server: string, port: nat) returns (from: nat, end: nat)
    requires |url| > 7 && url[5] == '/' && url[6] == '/' && FindFirst(url, ':', 0) == Some(4)
    requires ProxyOf(url) == Some((server, port))
    ensures 7 <= from <= end <= |url| && from < |url| && server == url[from..end] && url[from] != '/'
    ensures forall i :: 5 <= i < from ==> url[i] == '/'
    ensures forall i :: from <= i < end ==> url[i] != ':'
    ensures (exists i :: from <= i < |url| && url[i] == ':') || forall i :: from <= i < end ==> url[i] != '/'
  {
    hide FindFirst, FindFirstNot, DefaultPort, Stoul;
    from := FindFirstNot(url, '/', 5).value;
    var idx2 := FindFirst(url, ':', from);
    end := if idx2.Some? then idx2.value else
      match FindFirst(url, '/', from) case Some(i) => i case None => |url|;
  }

  lemma OnlyRestorable(server: string, port: nat)
    requires server != "" && ProxyOf(Lower(ProxyUrl(server, port))) == Some((server, port))
    ensures Restorable(server, port)
  {
    var url := UrlPieces(server, port);
    var n := 7 + |server|;
    hide Decimal, ProxyUrl, ProxyOf, Lower, FindFirst;
    SchemeColon(url);
    var from, end := ServerTaken(url, server, port);
    LowerPart(ProxyUrl(server, port), from, end);
    if port != 80 {
      assert url[n] == ':';
    }
    assert end <= n && end - from == |server|;
    assert forall i :: 0 <= i < |server| ==> server[i] == url[7 + i];
  }

  // get_proxy restores server and port from proxy_url exactly for these names; port 80 is left
  // out of the URL and supplied again.
  lemma ProxyRoundTrip(server: string, port: nat)
    requires server != "" && port < 65536
    ensures ProxyOf(Lower(ProxyUrl(server, port))) == Some((server, port)) <==> Restorable(server, port)
  {
    if Restorable(server, port) {
      Restored(server, port);
    }
    if ProxyOf(Lower(ProxyUrl(server, port))) == Some((server, port)) {
      OnlyRestorable(server, port);
    }
  }
}
