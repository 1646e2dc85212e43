/** Host pattern matching, shared by the HTTP table and the TCP table (route_table.go). */
module HostMatch {
  import opened Strings

  /** A pattern ends in a port when its last ':' is followed by digits only. */
  predicate RouteHasPort(pattern: string) {
    var idx := LastIndex(pattern, ':');
    0 <= idx < |pattern| - 1 && forall i | idx < i < |pattern| :: IsDigit(pattern[i])
  }

  /** `*.example.com` matches every name below example.com, but not example.com. */
  predicate MatchHost(pattern: string, host: string) {
    if pattern == "" then true else
      var p := Lower(pattern);
      if HasPrefix(p, "*.") then HasSuffix(host, p[1..]) && host != p[2..] else p == host
  }

  /** A wildcard matches exactly the names that end in a dot and its domain. */
  lemma WildcardExactly(domain: string, host: string)
    ensures MatchHost("*." + domain, host) <==> exists front :: host == front + "." + Lower(domain)
  {
    var pattern := "*." + domain;
    var p := Lower(pattern);
    var suffix := "." + Lower(domain);
    assert p[1..] == suffix && HasPrefix(p, "*.") && |p[2..]| < |suffix|;
    if HasSuffix(host, suffix) {
      var front := host[..|host| - |suffix|];
      assert host == front + suffix;
      assert host == front + "." + Lower(domain);
    }
    forall front | host == front + "." + Lower(domain)
      ensures HasSuffix(host, suffix)
    {
      assert host == front + suffix;
    }
  }

  /** A pattern has a port exactly if it is some host, a colon and digits. */
  lemma HasPortExactly(pattern: string)
    ensures RouteHasPort(pattern) <==>
            exists host, port :: pattern == host + ":" + port && port != "" && AllDigits(port)
  {
    var idx := LastIndex(pattern, ':');
    if RouteHasPort(pattern) {
      var host, port := pattern[..idx], pattern[idx + 1..];
      assert pattern == host + ":" + port && AllDigits(port);
    }
    forall host, port | pattern == host + ":" + port && port != "" && AllDigits(port)
      ensures RouteHasPort(pattern)
    {
      assert pattern[|host|] == ':';
      forall i | |host| < i < |pattern|
        ensures IsDigit(pattern[i])
      {
        assert pattern[i] == port[i - |host| - 1];
      }
    }
  }
}
