/** The promise of the README's "Domain routing": routing and certificates follow the
    same rule, so a routed visitor gets a certificate that covers the name typed.

    The rule is written four times: the router's trie, the certificate store's tables,
    the Go suffix test (internal/cert/certificate.go) and the JavaScript test of the
    configuration page (tunnels.js).  Here the four are compared. */
module Coverage {
  import opened Options
  import opened Text
  import opened Patterns
  import Certs
  import Normalise
  import Routing

  /** The Go test: does a certificate name cover a host? */
  function MatchesName(pattern: string, host: string): bool {
    if pattern == host then true
    else if !HasPrefix(pattern, "*.") then false
    else
      var suffix := pattern[1..];
      if !HasSuffix(host, suffix) then false
      else
        var prefix := host[..|host| - |suffix|];
        prefix != "" && '.' !in prefix
  }

  /** The JavaScript test: does a certificate name cover a tunnel's domain? */
  function CertificateCovers(rawSan: string, rawDomain: string): bool {
    var san, domain := Lower(rawSan), Lower(rawDomain);
    if san == "" || domain == "" then false
    else if san == domain then true
    else if !HasPrefix(san, "*.") || HasPrefix(domain, "*") then false
    else
      var suffix := san[1..];
      if |domain| <= |suffix| || domain[|domain| - |suffix|..] != suffix then false
      else '.' !in domain[..|domain| - |suffix|]
  }

  // ----- The Go suffix test is the one-label rule -----

  lemma MatchesNameForward(zone: string, host: string)
    requires host != Wild(zone) && MatchesName(Wild(zone), host)
    ensures IndexOf(host, '.') > 0 && Parent(host) == zone
  {
    var suffix := Wild(zone)[1..];
    var prefix := host[..|host| - |suffix|];
    assert suffix == ['.'] + zone;
    assert host == prefix + ['.'] + zone;
    SplitCons(prefix, zone, '.');
    assert host[|prefix| + 1..] == zone;
  }

  lemma MatchesOneLabel(prefix: string, zone: string)
    requires prefix != "" && '.' !in prefix
    ensures MatchesName(Wild(zone), prefix + ['.'] + zone)
  {
    var host, suffix := prefix + ['.'] + zone, Wild(zone)[1..];
    assert suffix == ['.'] + zone;
    assert host[|prefix|..] == suffix && host[..|prefix|] == prefix;
  }

  lemma MatchesNameBackward(host: string)
    requires IndexOf(host, '.') > 0
    ensures MatchesName(Wild(Parent(host)), host)
  {
    hide MatchesName, Wild;
    var prefix := host[..IndexOf(host, '.')];
    assert host == prefix + ['.'] + Parent(host);
    MatchesOneLabel(prefix, Parent(host));
  }

  lemma MatchesNameParent(pattern: string, host: string)
    ensures MatchesName(pattern, host) <==>
              host == pattern || (IndexOf(host, '.') > 0 && Wild(Parent(host)) == pattern)
  {
    hide Wild, Parent, IndexOf;
    if host != pattern {
      if MatchesName(pattern, host) {
        WildCut(pattern);
        hide MatchesName;
        MatchesNameForward(pattern[2..], host);
      }
      if IndexOf(host, '.') > 0 && Wild(Parent(host)) == pattern {
        hide MatchesName;
        MatchesNameBackward(host);
      }
    }
  }

  lemma FirstLabelEmpty(host: string)
    ensures IndexOf(host, '.') > 0 <==> '.' in host && !HasPrefix(host, ".")
  {
    assert HasPrefix(host, ".") <==> host != "" && host[0] == '.';
    if HasPrefix(host, ".") {
      assert host[..0] == "";
      FirstIndex(host, '.', 0);
    }
  }

  /** `matchesName` holds exactly for the name itself and for hosts with one non-empty
      label before the zone: the trie's rule, less the empty first label. */
  lemma MatchesNameIff(pattern: string, host: string)
    ensures MatchesName(pattern, host) <==>
              host == pattern || (IndexOf(host, '.') > 0 && Wild(Parent(host)) == pattern)
    ensures MatchesName(pattern, host) <==>
              host == pattern || (Serves(pattern, host) && !HasPrefix(host, "."))
  {
    hide MatchesName, Wild, Parent, IndexOf, HasPrefix;
    MatchesNameParent(pattern, host);
    FirstLabelEmpty(host);
  }

  // ----- Looking up is searching by the rule -----

  /** THE CERTIFICATE TABLES SEARCH BY matchesName: a key is found exactly when some
      stored name matches, and the one found matches; the name itself comes first. */
  lemma CertKeyIff(keys: set<string>, name: string)
    requires name != ""
    ensures Certs.CertKey(keys, name).Some? <==> exists k :: k in keys && MatchesName(k, name)
    ensures Certs.CertKey(keys, name).Some? ==>
              var k := Certs.CertKey(keys, name).value;
              k in keys && MatchesName(k, name) && (name in keys ==> k == name)
  {
    forall k | k in keys
      ensures MatchesName(k, name) <==>
                name == k || (IndexOf(name, '.') > 0 && Wild(Parent(name)) == k)
    {
      MatchesNameIff(k, name);
    }
  }

  // ----- The JavaScript test, by what it decides -----

  lemma ValidNameShape(d: string)
    requires ValidName(d)
    ensures d != "" && !HasPrefix(d, ".") && (HasPrefix(d, "*") <==> IsWild(d)) && !HasSuffix(d, ".")
  {
    var i := IndexOf(d, '.');
    assert Split(d, '.')[0] == d[..i];
    assert '.' !in d ==> |Split(d, '.')| == 1;
    if HasPrefix(d, "*") {
      assert d[..i] == "*" && i == 1;
    }
    if HasSuffix(d, ".") {
      DotEndsInEmptyLabel(d);
    }
  }

  /** Every host with a non-empty first label that `d` serves is matched by `san`. */
  ghost predicate CoversAllHosts(san: string, d: string) {
    forall h :: Serves(d, h) && !HasPrefix(h, ".") ==> MatchesName(san, h)
  }

  lemma CoversOwnHosts(d: string)
    ensures CoversAllHosts(d, d)
  {
    forall h | Serves(d, h) && !HasPrefix(h, ".") ensures MatchesName(d, h) {
      MatchesNameIff(d, h);
    }
  }

  /** On a domain that is not a wildcard the JavaScript test and the Go test agree. */
  lemma CoversPlainDomain(san: string, d: string)
    requires d != "" && !HasPrefix(d, "*") && Lower(d) == d && Lower(san) == san
    ensures CertificateCovers(san, d) <==> MatchesName(san, d)
  {
    if HasPrefix(san, "*.") && san != d {
      var suffix := san[1..];
      if HasSuffix(d, suffix) {
        assert d[..|d| - |suffix|] == "" <==> |d| == |suffix|;
      }
    }
  }

  function ZoneName(c: char, zone: string): string {
    [c, '.'] + zone
  }

  lemma ZoneHost(c: char, zone: string)
    requires c != '.'
    ensures var h := ZoneName(c, zone);
            IndexOf(h, '.') == 1 && Parent(h) == zone && Serves(Wild(zone), h) && !HasPrefix(h, ".")
  {
    var h := ZoneName(c, zone);
    assert h[..1] == [c] && h[1] == '.';
    FirstIndex(h, '.', 1);
    assert h[2..] == zone;
  }

  /** Only the wildcard itself matches two different first labels over its zone. */
  lemma TwoHostsForceWildcard(san: string, zone: string)
    requires MatchesName(san, ZoneName('a', zone)) && MatchesName(san, ZoneName('b', zone))
    ensures san == Wild(zone)
  {
    ZoneHost('a', zone);
    ZoneHost('b', zone);
    MatchesNameIff(san, ZoneName('a', zone));
    MatchesNameIff(san, ZoneName('b', zone));
    assert ZoneName('a', zone)[0] == 'a' && ZoneName('b', zone)[0] == 'b';
  }

  lemma CoversWildDomain(san: string, zone: string)
    requires Lower(san) == san && Lower(Wild(zone)) == Wild(zone)
    ensures CertificateCovers(san, Wild(zone)) <==> san == Wild(zone)
  {
  }

  lemma WildNeedsItself(san: string, zone: string)
    ensures CoversAllHosts(san, Wild(zone)) <==> san == Wild(zone)
  {
    hide MatchesName;
    CoversOwnHosts(Wild(zone));
    if CoversAllHosts(san, Wild(zone)) {
      ZoneHost('a', zone);
      ZoneHost('b', zone);
      TwoHostsForceWildcard(san, zone);
    }
  }

  lemma PlainServesItself(san: string, d: string)
    requires d != "" && !HasPrefix(d, ".") && !IsWild(d)
    ensures CoversAllHosts(san, d) <==> MatchesName(san, d)
  {
    forall h | Serves(d, h) ensures h == d {
      assert '.' in h ==> IsWild(Wild(Parent(h)));
    }
    assert Serves(d, d);
  }

  /** A domain that starts with a star, whatever follows, is covered by itself only. */
  lemma StarDomainCovers(san: string, d: string)
    requires HasPrefix(Lower(d), "*")
    ensures CertificateCovers(san, d) <==> Lower(san) == Lower(d)
  {
  }

  /** THE JAVASCRIPT TEST IS EXACT: it accepts a certificate name for a domain exactly
      when the name covers every host the router would send to that domain. */
  lemma CertificateCoversIff(san: string, d: string)
    requires ValidName(d) && Lower(d) == d && Lower(san) == san
    ensures CertificateCovers(san, d) <==> CoversAllHosts(san, d)
  {
    hide CertificateCovers, CoversAllHosts, MatchesName, ValidName, Lower;
    ValidNameShape(d);
    if IsWild(d) {
      WildCut(d);
      CoversWildDomain(san, d[2..]);
      WildNeedsItself(san, d[2..]);
    } else {
      CoversPlainDomain(san, d);
      PlainServesItself(san, d);
    }
  }

  // ----- The promise -----

  /** A name of an installed certificate that covers a valid domain keeps covering it in
      the form the store files it under. */
  lemma FiledNameCovers(san: string, d: string)
    requires ValidName(d) && Lower(d) == d && CertificateCovers(san, d)
    ensures CertificateCovers(Certs.KeyOf(san), d) && Certs.KeyOf(san) == Lower(san)
  {
    ValidNameShape(d);
    LowerIdempotent(san);
    if HasSuffix(san, ".") {
      DottedCoversDotted(san, d);
    }
  }

  lemma DottedCoversDotted(san: string, d: string)
    requires HasSuffix(san, ".") && CertificateCovers(san, d) && Lower(d) == d
    ensures HasSuffix(d, ".")
  {
    assert Lower(san)[|san| - 1] == '.';
  }

  /** A certificate carries a name that covers the host. */
  ghost predicate LeafCovers(leaf: Certs.Leaf, host: string) {
    exists n :: n in leaf.names && MatchesName(Certs.KeyOf(n), host)
  }

  /** THE PROMISE.  Let one name of some installed certificate pass the configuration
      page's test for the tunnel's domain `d`.  Then after any further installations, a
      host routed through `d` is given a certificate that covers it - exactly when its
      first label is not empty or the store happens to hold the odd name itself. */
  lemma RoutedHostsAreCovered(routes: set<string>, certs: map<string, Certs.Stored>, leaves: seq<Certs.Leaf>,
                              d: string, san: string, host: string)
    requires ValidName(d) && Lower(d) == d
    requires Certs.NamesOwn(certs) && Certs.KeyOf(san) in certs && CertificateCovers(san, d)
    requires Routing.Matched(routes, host) == Some(d)
    ensures var later := Certs.InstallAll(certs, leaves);
            var given := Certs.CertFor(later, host);
            && (given.Some? <==> !HasPrefix(host, ".") || host in later)
            && (given.Some? ==> LeafCovers(given.value, host))
  {
    var later := Certs.InstallAll(certs, leaves);
    Certs.InstallAllKeeps(certs, leaves);
    FiledNameCovers(san, d);
    LowerIdempotent(san);
    CertificateCoversIff(Lower(san), d);
    Routing.MatchedIff(routes, host);
    ServedHostNonEmpty(d, host);
    CertKeyIff(later.Keys, host);
    if !HasPrefix(host, ".") {
      assert MatchesName(Certs.KeyOf(san), host);
    }
    var key := Certs.CertKey(later.Keys, host);
    if key.Some? {
      MatchesNameIff(key.value, host);
      assert key.value in Certs.KeySet(later[key.value].certificate);
      var n :| n in later[key.value].certificate.names && Certs.KeyOf(n) == key.value;
      assert LeafCovers(later[key.value].certificate, host);
    }
  }

  lemma LowerTrimDot(s: string)
    ensures Lower(TrimDot(s)) == TrimDot(Lower(s))
  {
    var a, b := Lower(TrimDot(s)), TrimDot(Lower(s));
    assert HasSuffix(s, ".") <==> s != "" && s[|s| - 1] == '.';
    assert HasSuffix(Lower(s), ".") <==> s != "" && Lower(s)[|s| - 1] == '.';
    assert |a| == |b|;
    assert forall i :: 0 <= i < |a| ==> a[i] == LowerChar(s[i]) == b[i];
  }

  /** The store and the router agree on what name a visitor asks for: with nothing to trim
      and no port, the store's form of a server name is the router's. */
  lemma SameNameAskedFor(serverName: string)
    requires Trim(serverName) == serverName && Normalise.StripPort(serverName) == serverName
    ensures Certs.KeyOf(serverName) == "" <==> Normalise.Ascii(serverName) == None
    ensures Certs.KeyOf(serverName) != "" ==> Normalise.Ascii(serverName) == Some(Certs.KeyOf(serverName))
  {
    LowerTrimDot(serverName);
    if serverName == "" {
      assert Certs.KeyOf("") == "";
    }
  }

  lemma ServedHostNonEmpty(d: string, host: string)
    requires Serves(d, host) && ValidName(d)
    ensures host != ""
  {
    ValidNameShape(d);
  }

  /** What the promise leaves out: `*` in the router also stands for an empty label, and
      such a host is routed but given no certificate. */
  lemma EmptyLabelRoutedUncovered(zone: string, certs: map<string, Certs.Stored>)
    requires ['.'] + zone !in certs
    ensures Routing.Matched({Wild(zone)}, ['.'] + zone) == Some(Wild(zone))
    ensures Certs.CertFor(certs, ['.'] + zone) == None
  {
    var host := ['.'] + zone;
    assert host[0] == '.' && IndexOf(host, '.') == 0;
    assert host[1..] == zone;
    assert |Wild(zone)| > |host|;
  }
}
