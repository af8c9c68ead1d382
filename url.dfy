/**
 * How the poller and the URL check take the configured URL apart: an
 * optional `http://` or `https://` scheme, the host up to the first `/`, an
 * optional `:port` read with a leading-digit parse, and the rest as the
 * request path. This is the program's own ad-hoc split, not RFC 3986.
 */
module Url {
  import opened Text

  /** Longest URL the configuration buffer holds (512 bytes with the NUL). */
  const UrlMax: nat := 511

  /** Where a request goes. */
  datatype Target = Target(host: string, port: nat, secure: bool, path: string)

  datatype Scheme = Http | Https | Bare

  function SchemePrefix(s: Scheme): string {
    match s
    case Http => "http://"
    case Https => "https://"
    case Bare => ""
  }

  function DefaultPort(s: Scheme): nat {
    if s == Https then 443 else 80
  }

  /** The scheme the text starts with; `http://` is tried first. */
  function SchemeOf(u: string): (s: Scheme)
    ensures |SchemePrefix(s)| <= |u| && SchemePrefix(s) == u[..|SchemePrefix(s)|]
    ensures s == Bare ==> !IsAt(u, "http://", 0) && !IsAt(u, "https://", 0)
  {
    if IsAt(u, "http://", 0) then Http
    else if IsAt(u, "https://", 0) then Https
    else Bare
  }

  /** `s` has `c` at `i` exactly when the one-character pattern occurs there. */
  lemma AtChar(s: string, c: char, i: nat)
    requires i < |s|
    ensures IsAt(s, [c], i) <==> s[i] == c
  {
    assert s[i..i + 1] == [s[i]];
  }

  /** The text before the first `c`, all of it when there is none (`strchr`
      and a NUL written over the match). */
  function Before(s: string, c: char): (r: string)
    ensures c !in r
    ensures |r| <= |s| && r == s[..|r|]
  {
    match FindFrom(s, [c], 0)
    case Some(k) =>
      assert forall i :: 0 <= i < k ==> s[..k][i] != c by {
        forall i | 0 <= i < k ensures s[..k][i] != c {
          AtChar(s, c, i);
        }
      }
      s[..k]
    case None =>
      assert forall i :: 0 <= i < |s| ==> s[i] != c by {
        forall i | 0 <= i < |s| ensures s[i] != c {
          AtChar(s, c, i);
        }
      }
      s
  }

  /** The text after the first `c`, none when there is no `c`. */
  function After(s: string, c: char): (r: Option<string>)
    ensures r.Some? <==> c in s
    ensures r.Some? ==> |Before(s, c)| < |s| && s == Before(s, c) + [c] + r.value
  {
    match FindFrom(s, [c], 0)
    case Some(k) =>
      AtChar(s, c, k);
      assert s == s[..k] + [c] + s[k + 1..];
      Some(s[k + 1..])
    case None =>
      assert c !in s by {
        forall i | 0 <= i < |s| ensures s[i] != c {
          AtChar(s, c, i);
        }
      }
      None
  }

  /** The host, port, security flag and path for a configured URL. */
  function SplitUrl(url: string): (t: Target)
    ensures '/' !in t.host && ':' !in t.host
    ensures t.path != [] && t.path[0] == '/'
    ensures t.secure <==> SchemeOf(Truncate(url, UrlMax)) == Https
  {
    var u := Truncate(url, UrlMax);
    var scheme := SchemeOf(u);
    var rest := u[|SchemePrefix(scheme)|..];
    var hostPort := Before(rest, '/');
    var tail := After(rest, '/');
    var host := Before(hostPort, ':');
    var port := After(hostPort, ':');
    Target(
      host,
      if port.Some? then LeadingNumber(port.value) else DefaultPort(scheme),
      scheme == Https,
      "/" + (if tail.Some? then tail.value else ""))
  }

  /** Cutting `a + [c] + b` at its first `c`, when `a` has none, gives `a` and `b`. */
  lemma CutJoined(a: string, c: char, b: string)
    requires c !in a
    ensures Before(a + [c] + b, c) == a && After(a + [c] + b, c) == Some(b)
  {
    var s := a + [c] + b;
    AtChar(s, c, |a|);
    forall i: nat | i < |a| ensures !IsAt(s, [c], i) {
      AtChar(s, c, i);
    }
    FindFirstAt(s, [c], 0, |a|);
    assert s[|a| + 1..] == b;
  }

  /** A text without `c` is left whole, with nothing after. */
  lemma CutAbsent(a: string, c: char)
    requires c !in a
    ensures Before(a, c) == a && After(a, c) == None
  {
    var r := FindFrom(a, [c], 0);
    if r.Some? {
      AtChar(a, c, r.value);
    }
  }

  // ---------------------------------------------------------------------
  // Composed URLs split back into their parts

  /** A URL written from its parts: scheme, host, an optional `:port` in
      decimal and an optional `/path`. */
  function ComposeUrl(scheme: Scheme, host: string, port: Option<nat>, tail: Option<string>): string {
    SchemePrefix(scheme) + HostPort(host, port) + (if tail.Some? then "/" + tail.value else "")
  }

  function HostPort(host: string, port: Option<nat>): string {
    host + (if port.Some? then ":" + NatToString(port.value) else "")
  }

  /** The host-and-port part splits back into host and port. */
  lemma HostPortSplits(host: string, port: Option<nat>)
    requires ':' !in host
    ensures Before(HostPort(host, port), ':') == host
    ensures After(HostPort(host, port), ':').Some? <==> port.Some?
    ensures port.Some? ==> LeadingNumber(After(HostPort(host, port), ':').value) == port.value
  {
    var hp := HostPort(host, port);
    if port.Some? {
      var d := NatToString(port.value);
      assert hp == host + [':'] + d;
      CutJoined(host, ':', d);
      assert d + [] == d;
      LeadingNumberOfNatToString(port.value, []);
    } else {
      assert hp == host;
      CutAbsent(host, ':');
    }
  }

  lemma HostPortHasNoSlash(host: string, port: Option<nat>)
    requires '/' !in host
    ensures '/' !in HostPort(host, port)
  {
    if port.Some? {
      var d := NatToString(port.value);
      var hp := HostPort(host, port);
      assert hp == host + [':'] + d;
      forall i | 0 <= i < |hp| ensures hp[i] != '/' {
        if i > |host| {
          assert hp[i] == d[i - |host| - 1];
        }
      }
    }
  }

  /** Host and port, then an optional path, split at the first `/`. */
  lemma RestSplits(hp: string, tail: Option<string>)
    requires '/' !in hp
    ensures var rest := hp + (if tail.Some? then "/" + tail.value else "");
      Before(rest, '/') == hp && After(rest, '/') == tail
  {
    if tail.Some? {
      assert hp + ("/" + tail.value) == hp + ['/'] + tail.value;
      CutJoined(hp, '/', tail.value);
    } else {
      assert hp + "" == hp;
      CutAbsent(hp, '/');
    }
  }

  /** The scheme prefix of a composed URL is read back. */
  lemma SchemeOfComposed(scheme: Scheme, rest: string)
    requires scheme == Bare ==> !IsAt(rest, "http://", 0) && !IsAt(rest, "https://", 0)
    ensures SchemeOf(SchemePrefix(scheme) + rest) == scheme
    ensures (SchemePrefix(scheme) + rest)[|SchemePrefix(scheme)|..] == rest
  {
    var u := SchemePrefix(scheme) + rest;
    match scheme
    case Http =>
      assert u[..7] == "http://";
    case Https =>
      assert u[..8] == "https://";
      assert u[4] == 's';
    case Bare =>
      assert u == rest;
  }

  /** Splitting a composed URL gives back its host, its port (or the
      scheme's default), its security and its path (`/` when it has none).
      A URL without a scheme must not itself begin like one. */
  lemma SplitComposed(scheme: Scheme, host: string, port: Option<nat>, tail: Option<string>)
    requires ':' !in host && '/' !in host
    requires |ComposeUrl(scheme, host, port, tail)| <= UrlMax
    requires scheme == Bare ==>
      !IsAt(ComposeUrl(scheme, host, port, tail), "http://", 0) &&
      !IsAt(ComposeUrl(scheme, host, port, tail), "https://", 0)
    ensures SplitUrl(ComposeUrl(scheme, host, port, tail)) == Target(
      host,
      if port.Some? then port.value else DefaultPort(scheme),
      scheme == Https,
      "/" + (if tail.Some? then tail.value else ""))
  {
    var u := ComposeUrl(scheme, host, port, tail);
    var hp := HostPort(host, port);
    var rest := hp + (if tail.Some? then "/" + tail.value else "");
    assert u == SchemePrefix(scheme) + rest;
    if scheme == Bare {
      assert SchemePrefix(scheme) + rest == rest;
    }
    SchemeOfComposed(scheme, rest);
    HostPortHasNoSlash(host, port);
    RestSplits(hp, tail);
    HostPortSplits(host, port);
    SplitUrlOfParts(u, scheme, rest, hp, tail);
  }

  /** `SplitUrl` in terms of the scheme and the two cuts it makes. */
  lemma SplitUrlOfParts(u: string, scheme: Scheme, rest: string, hp: string, tail: Option<string>)
    requires |u| <= UrlMax && SchemeOf(u) == scheme && u[|SchemePrefix(scheme)|..] == rest
    requires Before(rest, '/') == hp && After(rest, '/') == tail
    ensures var port := After(hp, ':');
      SplitUrl(u) == Target(
        Before(hp, ':'),
        if port.Some? then LeadingNumber(port.value) else DefaultPort(scheme),
        scheme == Https,
        "/" + (if tail.Some? then tail.value else ""))
  {
    assert Truncate(u, UrlMax) == u;
  }
}
