/** The certificate store (internal/tunnel/server/certstore.go): a map from names to
    certificates, and two lookup tables rebuilt from it after every installation. */
module Certs {
  import opened Options
  import opened Text

  /** A parsed leaf certificate: an identity and the DNS names it carries. */
  datatype Leaf = Leaf(id: int, names: seq<string>)

  datatype Stored = Stored(pattern: string, certificate: Leaf)

  datatype CertTable<V> = CertTable(exact: map<string, V>, wildcards: map<string, V>, count: nat)

  datatype InstallError = BadPair | NoNames | Expired

  /** The form names are stored and asked for in. */
  function KeyOf(name: string): string {
    Lower(TrimDot(name))
  }

  /** The key whose certificate is handed out for a name: the name itself, else `*.`
      before its parent, provided something stands before the first dot. */
  function CertKey(keys: set<string>, name: string): Option<string> {
    if name == "" then None
    else if name in keys then Some(name)
    else if IndexOf(name, '.') > 0 && Wild(Parent(name)) in keys then Some(Wild(Parent(name)))
    else None
  }

  function CertFor(certs: map<string, Stored>, name: string): Option<Leaf> {
    var key := CertKey(certs.Keys, name);
    if key.Some? then Some(certs[key.value].certificate) else None
  }

  function KeySet(leaf: Leaf): set<string> {
    KeysOf(leaf.names)
  }

  function KeysOf(names: seq<string>): set<string> {
    set n | n in names :: KeyOf(n)
  }

  function Entries(keys: set<string>, leaf: Leaf): map<string, Stored> {
    map k | k in keys :: Stored(k, leaf)
  }

  /** The map after installing a certificate: its names, replaced or added. */
  function Installed(certs: map<string, Stored>, leaf: Leaf): map<string, Stored> {
    certs + Entries(KeySet(leaf), leaf)
  }

  /** The certificate carries no such name. */
  ghost predicate NotCarried(leaf: Leaf, key: string) {
    forall n :: n in leaf.names ==> KeyOf(n) != key
  }

  /** INSTALLING REPLACES: each name of the certificate is filed under it, also one that had
      another before, and no other name changes. */
  lemma InstalledIff(certs: map<string, Stored>, leaf: Leaf)
    ensures var next := Installed(certs, leaf);
            && (forall n :: n in leaf.names ==> KeyOf(n) in next && next[KeyOf(n)] == Stored(KeyOf(n), leaf))
            && (forall k :: NotCarried(leaf, k) ==> (k in next <==> k in certs) && (k in next ==> next[k] == certs[k]))
  {
    hide KeyOf;
  }

  /** The two tables hold exactly the entries under `keys`, wildcards by their zone. */
  ghost predicate Tabulates<V>(t: CertTable<V>, certs: map<string, V>, keys: set<string>) {
    && keys <= certs.Keys
    && (forall k :: k in t.exact <==> k in keys && !IsWild(k))
    && (forall k :: k in t.exact ==> t.exact[k] == certs[k])
    && (forall z :: z in t.wildcards <==> Wild(z) in keys)
    && (forall z :: z in t.wildcards ==> t.wildcards[z] == certs[Wild(z)])
    && t.count == |keys|
  }

  lemma TabulateEmpty<V>(certs: map<string, V>)
    ensures Tabulates(CertTable(map[], map[], 0), certs, {})
  {
  }

  lemma TabulateExact<V>(t: CertTable<V>, certs: map<string, V>, keys: set<string>, k: string)
    requires Tabulates(t, certs, keys) && k in certs && k !in keys && !IsWild(k)
    ensures Tabulates(CertTable(t.exact[k := certs[k]], t.wildcards, t.count + 1), certs, keys + {k})
  {
    assert forall z :: Wild(z) != k;
  }

  lemma TabulateWild<V>(t: CertTable<V>, certs: map<string, V>, keys: set<string>, zone: string)
    requires Tabulates(t, certs, keys) && Wild(zone) in certs && Wild(zone) !in keys
    ensures Tabulates(CertTable(t.exact, t.wildcards[zone := certs[Wild(zone)]], t.count + 1), certs, keys + {Wild(zone)})
  {
    var next := CertTable(t.exact, t.wildcards[zone := certs[Wild(zone)]], t.count + 1);
    forall z
      ensures z in next.wildcards <==> Wild(z) in keys + {Wild(zone)}
      ensures z in next.wildcards ==> next.wildcards[z] == certs[Wild(z)]
    {
      WildInjective(z, zone);
    }
    assert IsWild(Wild(zone));
  }

  /** Every entry is filed under its own name, which its certificate carries. */
  ghost predicate Named(certs: map<string, Stored>) {
    forall k :: k in certs ==> certs[k].pattern == k && k in KeySet(certs[k].certificate)
  }

  lemma InstalledNamed(certs: map<string, Stored>, leaf: Leaf)
    requires Named(certs)
    ensures Named(Installed(certs, leaf))
  {
    hide KeySet;
  }

  class CertStore {
    var certs: map<string, Stored>
    var current: CertTable<Stored>

    ghost predicate Valid()
      reads this
    {
      Tabulates(current, certs, certs.Keys) && Named(certs)
    }

    constructor ()
      ensures Valid() && certs == map[]
    {
      certs := map[];
      current := CertTable(map[], map[], 0);
    }

    method RebuildLocked()
      modifies this`current
      ensures Tabulates(current, certs, certs.Keys)
    {
      current := Tabulate(certs);
    }

    /** `parsed` is the key pair and leaf, when they parse; `expired` compares the clock. */
    method Install(parsed: Option<Leaf>, expired: bool) returns (r: Result<seq<string>, InstallError>)
      requires Valid()
      modifies this
      ensures Valid()
      ensures r.Ok? <==> parsed.Some? && parsed.value.names != [] && !expired
      ensures r.Err? ==> certs == old(certs)
      // Every name of the certificate now has it, whatever it had before; other names keep theirs.
      ensures r.Ok? ==> forall n :: n in parsed.value.names ==>
                          KeyOf(n) in certs && certs[KeyOf(n)] == Stored(KeyOf(n), parsed.value)
      ensures r.Ok? ==> forall k :: NotCarried(parsed.value, k) ==>
                          (k in certs <==> k in old(certs)) && (k in certs ==> certs[k] == old(certs)[k])
      ensures r.Ok? ==> certs == Installed(old(certs), parsed.value)
      ensures r.Ok? ==> |r.value| == |parsed.value.names|
                        && forall i :: 0 <= i < |r.value| ==> r.value[i] == KeyOf(parsed.value.names[i])
    {
      if parsed.None? {
        return Err(BadPair);
      }
      var leaf := parsed.value;
      if leaf.names == [] {
        return Err(NoNames);
      }
      if expired {
        return Err(Expired);
      }
      hide Named, Tabulates, Installed, KeyOf, NotCarried;
      InstalledNamed(certs, leaf);
      InstalledIff(certs, leaf);
      var next, installed := PutNames(certs, leaf);
      certs := next;
      RebuildLocked();
      r := Ok(installed);
    }

    /** The server name as it stands in the client hello. */
    method GetCertificate(serverName: string) returns (r: Option<Leaf>)
      requires Valid()
      ensures r == CertFor(certs, KeyOf(serverName))
    {
      var name := Lower(TrimDot(serverName));
      if name == "" {
        return None;
      }
      if IsWild(name) {
        WildCut(name);
        WildParent(name[2..]);
      }
      if name in current.exact {
        return Some(current.exact[name].certificate);
      }
      var idx := IndexOf(name, '.');
      if idx > 0 {
        var parent := name[idx + 1..];
        if parent in current.wildcards {
          return Some(current.wildcards[parent].certificate);
        }
      }
      r := None;
    }
  }

  /** Fills fresh tables from the map. */
  method Tabulate<V>(certs: map<string, V>) returns (next: CertTable<V>)
    ensures Tabulates(next, certs, certs.Keys)
  {
    hide Tabulates;
    next := CertTable(map[], map[], 0);
    var todo := certs.Keys;
    ghost var done := {};
    TabulateEmpty(certs);
    while todo != {}
      invariant todo <= certs.Keys
      invariant forall k :: k in done <==> k in certs && k !in todo
      invariant Tabulates(next, certs, done)
      decreases |todo|
    {
      var pattern :| pattern in todo;
      if HasPrefix(pattern, "*.") {
        WildCut(pattern);
        TabulateWild(next, certs, done, pattern[2..]);
        next := CertTable(next.exact, next.wildcards[pattern[2..] := certs[pattern]], next.count + 1);
      } else {
        TabulateExact(next, certs, done, pattern);
        next := CertTable(next.exact[pattern := certs[pattern]], next.wildcards, next.count + 1);
      }
      todo, done := todo - {pattern}, done + {pattern};
    }
    assert done == certs.Keys;
  }

  /** Puts a certificate under each of its names. */
  method PutNames(certs: map<string, Stored>, leaf: Leaf) returns (next: map<string, Stored>, installed: seq<string>)
    ensures next == Installed(certs, leaf)
    ensures |installed| == |leaf.names|
    ensures forall i :: 0 <= i < |installed| ==> installed[i] == KeyOf(leaf.names[i])
  {
    hide KeysOf, Entries, Lower, TrimDot;
    next, installed := certs, [];
    PutNone(certs, leaf);
    for i := 0 to |leaf.names|
      invariant |installed| == i && forall j :: 0 <= j < i ==> installed[j] == KeyOf(leaf.names[j])
      invariant next == certs + Entries(KeysOf(leaf.names[..i]), leaf)
    {
      var pattern := Lower(TrimDot(leaf.names[i]));
      PutOne(certs, leaf, i);
      next := next[pattern := Stored(pattern, leaf)];
      installed := installed + [pattern];
    }
    assert leaf.names[..|leaf.names|] == leaf.names;
  }

  lemma PutNone(certs: map<string, Stored>, leaf: Leaf)
    ensures certs + Entries(KeysOf(leaf.names[..0]), leaf) == certs
  {
  }

  lemma PutOne(certs: map<string, Stored>, leaf: Leaf, i: nat)
    requires i < |leaf.names|
    ensures var k := KeyOf(leaf.names[i]);
            certs + Entries(KeysOf(leaf.names[..i + 1]), leaf)
            == (certs + Entries(KeysOf(leaf.names[..i]), leaf))[k := Stored(k, leaf)]
  {
    assert leaf.names[..i + 1] == leaf.names[..i] + [leaf.names[i]];
    KeysOfSnoc(leaf.names[..i], leaf.names[i]);
    EntriesSnoc(certs, KeysOf(leaf.names[..i]), KeyOf(leaf.names[i]), leaf);
  }

  lemma KeysOfSnoc(names: seq<string>, name: string)
    ensures KeysOf(names + [name]) == KeysOf(names) + {KeyOf(name)}
  {
    hide KeyOf;
    assert forall n :: n in names + [name] <==> n in names || n == name;
  }

  lemma EntriesSnoc(certs: map<string, Stored>, keys: set<string>, k: string, leaf: Leaf)
    ensures certs + Entries(keys + {k}, leaf) == (certs + Entries(keys, leaf))[k := Stored(k, leaf)]
  {
  }

  function InstallAll(certs: map<string, Stored>, leaves: seq<Leaf>): map<string, Stored>
    decreases |leaves|
  {
    if leaves == [] then certs else InstallAll(Installed(certs, leaves[0]), leaves[1..])
  }

  /** Every stored name is one its certificate carries. */
  ghost predicate NamesOwn(certs: map<string, Stored>) {
    forall k :: k in certs ==> k in KeySet(certs[k].certificate)
  }

  /** Installing replaces and adds but never takes a name away, and every name stays one
      its certificate carries. */
  lemma {:induction false} InstallAllKeeps(certs: map<string, Stored>, leaves: seq<Leaf>)
    requires NamesOwn(certs)
    ensures certs.Keys <= InstallAll(certs, leaves).Keys && NamesOwn(InstallAll(certs, leaves))
    decreases |leaves|
  {
    if leaves != [] {
      var next := Installed(certs, leaves[0]);
      forall k | k in next ensures k in KeySet(next[k].certificate) {
      }
      InstallAllKeeps(next, leaves[1..]);
    }
  }

  // ----- Which certificate a name has -----

  /** The last certificate that carries a name is the one it is filed under. */
  lemma {:induction false} LastInstalledWins(certs: map<string, Stored>, leaves: seq<Leaf>, i: nat, name: string)
    requires i < |leaves| && name in leaves[i].names
    requires forall j :: i < j < |leaves| ==> NotCarried(leaves[j], KeyOf(name))
    ensures var k := KeyOf(name);
            k in InstallAll(certs, leaves) && InstallAll(certs, leaves)[k] == Stored(k, leaves[i])
    decreases |leaves|
  {
    hide KeyOf, Installed, NotCarried;
    var next, rest := Installed(certs, leaves[0]), leaves[1..];
    assert forall j :: 0 <= j < |rest| ==> rest[j] == leaves[j + 1];
    InstalledIff(certs, leaves[0]);
    if i == 0 {
      UntouchedByAll(next, rest, KeyOf(name));
    } else {
      LastInstalledWins(next, rest, i - 1, name);
    }
  }

  lemma {:induction false} UntouchedByAll(certs: map<string, Stored>, leaves: seq<Leaf>, key: string)
    requires forall j :: 0 <= j < |leaves| ==> NotCarried(leaves[j], key)
    ensures var later := InstallAll(certs, leaves);
            (key in later <==> key in certs) && (key in later ==> later[key] == certs[key])
    decreases |leaves|
  {
    hide Installed, NotCarried;
    if leaves != [] {
      var rest := leaves[1..];
      assert forall j :: 0 <= j < |rest| ==> rest[j] == leaves[j + 1];
      InstalledIff(certs, leaves[0]);
      UntouchedByAll(Installed(certs, leaves[0]), rest, key);
    }
  }

  /** WHAT IS SERVED AFTER A RENEWAL: a visitor that asks for a name the new certificate
      carries is given that certificate, and so is one that asks for a host under a wildcard
      it carries, unless the host is filed by its own name. */
  lemma ServedAfterInstall(certs: map<string, Stored>, leaf: Leaf, name: string, asked: string)
    requires name in leaf.names && asked != ""
    requires asked == KeyOf(name) || (&& IndexOf(asked, '.') > 0 && KeyOf(name) == Wild(Parent(asked))
                                      && asked !in certs && NotCarried(leaf, asked))
    ensures CertFor(Installed(certs, leaf), asked) == Some(leaf)
  {
    hide KeyOf, Installed, NotCarried;
    InstalledIff(certs, leaf);
  }

  /** A visitor that asks for anything else is given what it was given before. */
  lemma OthersServedAsBefore(certs: map<string, Stored>, leaf: Leaf, asked: string)
    requires NotCarried(leaf, asked) && ('.' in asked ==> NotCarried(leaf, Wild(Parent(asked))))
    ensures CertFor(Installed(certs, leaf), asked) == CertFor(certs, asked)
  {
    hide KeyOf, Installed, NotCarried;
    InstalledIff(certs, leaf);
  }
}
