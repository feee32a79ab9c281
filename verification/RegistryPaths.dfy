/** Where install files live in a package registry: the path a scaffold writes, the paths a host
    tries, and the image tags that name both. */
module RegistryPaths {
  import opened Text
  import opened Segments

  const ANY := "any"
  const DEFAULT := "default"

  // ---------------------------------------------------------------------------------------- paths

  /** A target of a scaffold; an empty version or architecture means any. */
  datatype Target = Target(distroID: string, distroVersion: string, arch: string)

  datatype HostFacts = HostFacts(distroID: string, distroVersion: string, arch: string)

  const INSTALL := "install.json"

  function Root(name: string): string {
    "softwares/" + name + "/"
  }

  function DefaultPath(name: string): string {
    Root(name) + (DEFAULT + "/" + INSTALL)
  }

  function TreePath(name: string, distro: string, version: string, arch: string): string {
    Root(name) + (distro + "/" + (version + "/" + (arch + "/" + INSTALL)))
  }

  predicate IsDefault(t: Target) {
    t.distroID == DEFAULT || t.distroID == ""
  }

  function OrAny(s: string): string {
    if s == "" then ANY else s
  }

  /** The path a scaffold writes. */
  function InstallRelPath(name: string, t: Target): string {
    if IsDefault(t) then DefaultPath(name)
    else TreePath(name, t.distroID, OrAny(t.distroVersion), OrAny(t.arch))
  }

  /** The layout of the registry, spelled out. */
  lemma Layout(name: string, t: Target)
    ensures InstallRelPath(name, t) ==
            if t.distroID == "" || t.distroID == "default" then "softwares/" + name + "/default/install.json"
            else "softwares/" + name + "/" + t.distroID
                 + "/" + (if t.distroVersion == "" then "any" else t.distroVersion)
                 + "/" + (if t.arch == "" then "any" else t.arch) + "/install.json"
  {
    assert "/" + "install.json" == "/install.json" && "/default" + "/install.json" == "/default/install.json";
    assert "/" + ("default" + "/" + "install.json") == "/default/install.json";
  }

  predicate SlashFree(s: string) {
    '/' !in s
  }

  lemma SameRoot(root: string, x: string, y: string)
    ensures root + x == root + y <==> x == y
  {
    assert (root + x)[|root|..] == x && (root + y)[|root|..] == y;
  }

  lemma TreePathInjective(n: string, d: string, v: string, a: string, d': string, v': string, a': string)
    requires SlashFree(d) && SlashFree(v) && SlashFree(a) && SlashFree(d') && SlashFree(v') && SlashFree(a')
    ensures TreePath(n, d, v, a) == TreePath(n, d', v', a') <==> d == d' && v == v' && a == a'
  {
    if TreePath(n, d, v, a) == TreePath(n, d', v', a') {
      var ra, ra' := a + "/" + INSTALL, a' + "/" + INSTALL;
      var rv, rv' := v + "/" + ra, v' + "/" + ra';
      SameRoot(Root(n), d + "/" + rv, d' + "/" + rv');
      CutAt('/', d, rv, d', rv');
      CutAt('/', v, ra, v', ra');
      CutAt('/', a, INSTALL, a', INSTALL);
    }
  }

  lemma DifferentTails(d: string, p: string, d': string, p': string)
    requires SlashFree(d) && SlashFree(d') && p != p'
    ensures d + "/" + p != d' + "/" + p'
  {
    if d + "/" + p == d' + "/" + p' {
      CutAt('/', d, p, d', p');
      assert false;
    }
  }

  lemma TreeIsNotDefault(n: string, d: string, v: string, a: string)
    requires SlashFree(d)
    ensures TreePath(n, d, v, a) != DefaultPath(n)
  {
    var tail := v + "/" + (a + "/" + INSTALL);
    assert tail[|v|] == '/' && '/' !in INSTALL;
    DifferentTails(d, tail, DEFAULT, INSTALL);
    SameRoot(Root(n), d + "/" + tail, DEFAULT + "/" + INSTALL);
  }

  // --------------------------------------------------------------------------- the paths a host tries

  function NormalizeArch(arch: string): string {
    var a := Fold(arch);
    if a == "x86_64" || a == "amd64" || a == "x64" then "amd64"
    else if a == "aarch64" || a == "arm64" then "arm64"
    else if a == "armv7l" || a == "armhf" || a == "armv7" then "arm"
    else if a == "i386" || a == "i686" || a == "386" then "386"
    else a
  }

  /** The names a processor goes by are one, whatever their case; any other name is only folded. */
  lemma ArchNames(arch: string)
    ensures var a, n := Fold(arch), NormalizeArch(arch);
            && (a in ["x86_64", "amd64", "x64"] ==> n == "amd64")
            && (a in ["aarch64", "arm64"] ==> n == "arm64")
            && (a in ["armv7l", "armhf", "armv7"] ==> n == "arm")
            && (a in ["i386", "i686", "386"] ==> n == "386")
            && (n == a || a in ["x86_64", "amd64", "x64", "aarch64", "arm64", "armv7l", "armhf", "armv7",
                                "i386", "i686", "386"])
  {
  }

  /** The host's own segments; an unknown architecture counts as any. */
  datatype Facts = Facts(distro: string, version: string, arch: string)

  function FactsOf(host: HostFacts): Facts {
    Facts(Sanitize(host.distroID), Sanitize(host.distroVersion), OrAny(Sanitize(NormalizeArch(host.arch))))
  }

  /** The (version, arch) pairs tried under the distro, most specific first. */
  function Pairs(f: Facts): seq<(string, string)> {
    if f.distro == "" then []
    else (if f.version == "" then [] else [(f.version, f.arch), (f.version, ANY)]) + [(ANY, f.arch), (ANY, ANY)]
  }

  function TreePaths(name: string, distro: string, pairs: seq<(string, string)>): (r: seq<string>)
    ensures |r| == |pairs|
    ensures forall i :: 0 <= i < |r| ==> r[i] == TreePath(name, distro, pairs[i].0, pairs[i].1)
  {
    seq(|pairs|, i requires 0 <= i < |pairs| => TreePath(name, distro, pairs[i].0, pairs[i].1))
  }

  function Candidates(name: string, f: Facts): seq<string> {
    TreePaths(name, f.distro, Pairs(f)) + [DefaultPath(name)]
  }

  /** Keeps the first of equal elements. */
  function Dedup(s: seq<string>): seq<string> {
    if s == [] then []
    else
      var before := Dedup(s[..|s| - 1]);
      if s[|s| - 1] in before then before else before + [s[|s| - 1]]
  }

  function Resolve(softwareName: string, host: HostFacts): seq<string> {
    if Sanitize(softwareName) == "" then [] else Dedup(Candidates(Sanitize(softwareName), FactsOf(host)))
  }

  /** Adds a path to those tried unless it is there already. */
  method Add(out: seq<string>, ghost tried: seq<string>, p: string) returns (r: seq<string>)
    requires out == Dedup(tried)
    ensures r == Dedup(tried + [p])
  {
    DedupMore(tried, p);
    r := out;
    if p !in out {
      r := out + [p];
    }
  }

  method AddPair(out: seq<string>, ghost tried: seq<string>, p: string, q: string) returns (r: seq<string>)
    requires out == Dedup(tried)
    ensures r == Dedup(tried + [p, q])
  {
    r := Add(out, tried, p);
    r := Add(r, tried + [p], q);
    assert tried + [p] + [q] == tried + [p, q];
  }

  /** The distro's own paths. */
  method AddTree(name: string, f: Facts) returns (out: seq<string>)
    ensures out == Dedup(TreePaths(name, f.distro, Pairs(f)))
  {
    TreePathsAre(name, f);
    out := [];
    ghost var tried: seq<string> := [];
    if f.distro != "" && f.version != "" {
      var exact, anyArch := TreePath(name, f.distro, f.version, f.arch), TreePath(name, f.distro, f.version, ANY);
      out := AddPair(out, tried, exact, anyArch);
      tried := [exact, anyArch];
      assert [] + [exact, anyArch] == tried;
    }
    if f.distro != "" {
      var anyVersion, anyBoth := TreePath(name, f.distro, ANY, f.arch), TreePath(name, f.distro, ANY, ANY);
      out := AddPair(out, tried, anyVersion, anyBoth);
      assert TreePaths(name, f.distro, Pairs(f)) == tried + [anyVersion, anyBoth];
    }
  }

  lemma TreePathsAre(name: string, f: Facts)
    ensures TreePaths(name, f.distro, Pairs(f)) ==
            if f.distro == "" then []
            else (if f.version == "" then []
                  else [TreePath(name, f.distro, f.version, f.arch), TreePath(name, f.distro, f.version, ANY)])
                 + [TreePath(name, f.distro, ANY, f.arch), TreePath(name, f.distro, ANY, ANY)]
  {
  }

  method ResolveInstallPaths(softwareName: string, host: HostFacts) returns (out: seq<string>)
    ensures out == Resolve(softwareName, host)
  {
    var name := Sanitize(softwareName);
    if name == "" {
      return [];
    }
    var f := FactsOf(host);
    out := AddTree(name, f);
    out := Add(out, TreePaths(name, f.distro, Pairs(f)), DefaultPath(name));
  }

  lemma DedupMore(s: seq<string>, x: string)
    ensures Dedup(s + [x]) == if x in Dedup(s) then Dedup(s) else Dedup(s) + [x]
  {
    assert (s + [x])[..|s|] == s;
  }

  ghost predicate NoDuplicates(s: seq<string>) {
    forall i, j :: 0 <= i < j < |s| ==> s[i] != s[j]
  }

  lemma {:induction false} DedupMeans(s: seq<string>)
    ensures NoDuplicates(Dedup(s)) && forall x :: x in Dedup(s) <==> x in s
  {
    if s != [] {
      var k := |s| - 1;
      DedupMeans(s[..k]);
      assert s == s[..k] + [s[k]];
    }
  }

  /** x stands before y. */
  ghost predicate Precedes(s: seq<string>, x: string, y: string) {
    exists i, j :: 0 <= i < j < |s| && s[i] == x && s[j] == y
  }

  lemma {:induction false} DedupOrder(s: seq<string>, i: nat, j: nat)
    requires i < j < |s| && s[j] !in s[..j]
    ensures Precedes(Dedup(s), s[i], s[j])
  {
    var k := |s| - 1;
    var before := Dedup(s[..k]);
    DedupMeans(s[..k]);
    if j == k {
      assert s[i] in s[..k];
      var m :| 0 <= m < |before| && before[m] == s[i];
      assert Dedup(s)[m] == s[i] && Dedup(s)[|before|] == s[j];
    } else {
      assert s[..k][..j] == s[..j];
      DedupOrder(s[..k], i, j);
      var m, n :| 0 <= m < n < |before| && before[m] == s[i] && before[n] == s[j];
      assert Dedup(s)[m] == s[i] && Dedup(s)[n] == s[j];
    }
  }

  /** A target serves a host: the default one serves all, any other its own distro, for the host's
      version and architecture or for any. */
  predicate Serves(t: Target, f: Facts) {
    || IsDefault(t)
    || (&& f.distro != "" && t.distroID == f.distro
        && (OrAny(t.distroVersion) == ANY || OrAny(t.distroVersion) == f.version)
        && (OrAny(t.arch) == ANY || OrAny(t.arch) == f.arch))
  }

  predicate CleanTarget(t: Target) {
    SlashFree(t.distroID) && SlashFree(t.distroVersion) && SlashFree(t.arch)
  }

  lemma FactsAreSlashFree(host: HostFacts)
    ensures var f := FactsOf(host); SlashFree(f.distro) && SlashFree(f.version) && SlashFree(f.arch)
    ensures FactsOf(host).arch != ""
  {
    SanitizedHasNoSlash(host.distroID);
    SanitizedHasNoSlash(host.distroVersion);
    SanitizedHasNoSlash(NormalizeArch(host.arch));
  }

  /** A target's tree path is tried exactly if its pair is among the host's, under its distro. */
  lemma TreePathTried(name: string, f: Facts, t: Target)
    requires SlashFree(f.distro) && SlashFree(f.version) && SlashFree(f.arch) && CleanTarget(t) && !IsDefault(t)
    ensures InstallRelPath(name, t) in Candidates(name, f) <==>
            t.distroID == f.distro && (OrAny(t.distroVersion), OrAny(t.arch)) in Pairs(f)
  {
    var v, a, ps := OrAny(t.distroVersion), OrAny(t.arch), Pairs(f);
    var c := Candidates(name, f);
    TreeIsNotDefault(name, t.distroID, v, a);
    forall i | 0 <= i < |ps|
      ensures c[i] == InstallRelPath(name, t) <==> t.distroID == f.distro && ps[i] == (v, a)
    {
      TreePathInjective(name, f.distro, ps[i].0, ps[i].1, t.distroID, v, a);
    }
    if t.distroID == f.distro && (v, a) in ps {
      var i :| 0 <= i < |ps| && ps[i] == (v, a);
      assert c[i] == InstallRelPath(name, t);
    }
  }

  /** The path a scaffold writes for a target is among the paths a host tries exactly if the target
      serves the host. */
  lemma TriedIffServes(softwareName: string, host: HostFacts, t: Target)
    requires Sanitize(softwareName) != "" && CleanTarget(t)
    ensures InstallRelPath(Sanitize(softwareName), t) in Resolve(softwareName, host) <==> Serves(t, FactsOf(host))
  {
    var name, f := Sanitize(softwareName), FactsOf(host);
    var c := Candidates(name, f);
    DedupMeans(c);
    FactsAreSlashFree(host);
    if IsDefault(t) {
      assert c[|c| - 1] == DefaultPath(name);
    } else {
      TreePathTried(name, f, t);
      PairsMeans(f, OrAny(t.distroVersion), OrAny(t.arch));
    }
  }

  lemma PairsMeans(f: Facts, v: string, a: string)
    requires v != "" && a != "" && f.arch != ""
    ensures (v, a) in Pairs(f) <==> f.distro != "" && (v == ANY || v == f.version) && (a == ANY || a == f.arch)
  {
    var ps := Pairs(f);
    if f.distro != "" {
      assert ps[|ps| - 1] == (ANY, ANY) && ps[|ps| - 2] == (ANY, f.arch);
      if f.version != "" {
        assert ps[0] == (f.version, f.arch) && ps[1] == (f.version, ANY);
      }
    }
  }

  /** A host tries the targets for its distro and version and for what its processor is called in the
      registry. */
  lemma AliasIsServed(softwareName: string, host: HostFacts, t: Target)
    requires Sanitize(softwareName) != "" && CleanTarget(t) && !IsDefault(t)
    requires t.distroID == Sanitize(host.distroID) && t.distroVersion in ["", "any", Sanitize(host.distroVersion)]
    requires var a := Fold(host.arch);
             || (t.arch == "amd64" && a in ["x86_64", "amd64", "x64"])
             || (t.arch == "arm64" && a in ["aarch64", "arm64"])
             || (t.arch == "arm" && a in ["armv7l", "armhf", "armv7"])
             || (t.arch == "386" && a in ["i386", "i686", "386"])
    ensures InstallRelPath(Sanitize(softwareName), t) in Resolve(softwareName, host)
  {
    ArchNames(host.arch);
    ArchIsSegment(t.arch);
    TriedIffServes(softwareName, host, t);
  }

  lemma ArchIsSegment(a: string)
    requires a == "amd64" || a == "arm64" || a == "arm" || a == "386"
    ensures Sanitize(a) == a && a != ""
  {
    assert IsSegment(a);
    SanitizeFixedIff(a);
  }

  /** A host of a known version and processor tries its own files first, then any processor's, then any
      version's, then those for the whole distro, and last the default. */
  lemma TriedInOrder(softwareName: string, host: HostFacts)
    requires var f := FactsOf(host);
             f.distro != "" && f.version != "" && f.version != "any" && f.arch != "any"
    requires Sanitize(softwareName) != ""
    ensures var name, f := Sanitize(softwareName), FactsOf(host);
            Resolve(softwareName, host) ==
            [TreePath(name, f.distro, f.version, f.arch), TreePath(name, f.distro, f.version, "any"),
             TreePath(name, f.distro, "any", f.arch), TreePath(name, f.distro, "any", "any"), DefaultPath(name)]
  {
    var name, f := Sanitize(softwareName), FactsOf(host);
    FactsAreSlashFree(host);
    TreePathsAre(name, f);
    CandidatesDiffer(name, f);
    DistinctStay(Candidates(name, f));
  }

  lemma CandidatesDiffer(name: string, f: Facts)
    requires f.distro != "" && f.version != "" && f.version != ANY && f.arch != ANY
    requires SlashFree(f.distro) && SlashFree(f.version) && SlashFree(f.arch)
    ensures NoDuplicates(Candidates(name, f))
  {
    var c, ps := Candidates(name, f), Pairs(f);
    assert ps == [(f.version, f.arch), (f.version, ANY), (ANY, f.arch), (ANY, ANY)];
    forall i, j | 0 <= i < j < |c|
      ensures c[i] != c[j]
    {
      if j < 4 {
        TreePathInjective(name, f.distro, ps[i].0, ps[i].1, f.distro, ps[j].0, ps[j].1);
      } else {
        TreeIsNotDefault(name, f.distro, ps[i].0, ps[i].1);
      }
    }
  }

  lemma {:induction false} DistinctStay(s: seq<string>)
    requires NoDuplicates(s)
    ensures Dedup(s) == s
  {
    if s != [] {
      var k := |s| - 1;
      assert s == s[..k] + [s[k]];
      DistinctStay(s[..k]);
    }
  }

  /** No path is tried twice. */
  lemma ResolveHasNoDuplicates(softwareName: string, host: HostFacts)
    ensures NoDuplicates(Resolve(softwareName, host))
  {
    DedupMeans(Candidates(Sanitize(softwareName), FactsOf(host)));
  }

  /** t serves fewer hosts than u: u is the default, or u says any where t says something. */
  predicate Narrower(t: Target, u: Target) {
    !IsDefault(t) &&
    (IsDefault(u) ||
     (&& t.distroID == u.distroID
      && (OrAny(u.distroVersion) == ANY || OrAny(u.distroVersion) == OrAny(t.distroVersion))
      && (OrAny(u.arch) == ANY || OrAny(u.arch) == OrAny(t.arch))
      && (OrAny(u.distroVersion), OrAny(u.arch)) != (OrAny(t.distroVersion), OrAny(t.arch))))
  }

  /** The first place of a wider pair comes after some place of a narrower one. */
  lemma PairsNarrowFirst(f: Facts, t: (string, string), u: (string, string)) returns (i: nat, j: nat)
    requires t in Pairs(f) && u in Pairs(f) && t != u
    requires (u.0 == ANY || u.0 == t.0) && (u.1 == ANY || u.1 == t.1)
    ensures i < j < |Pairs(f)| && Pairs(f)[i] == t && Pairs(f)[j] == u && u !in Pairs(f)[..j]
  {
    var ps := Pairs(f);
    i := FirstIndex(ps, t);
    j := FirstIndex(ps, u);
  }

  lemma {:induction false} FirstIndex(ps: seq<(string, string)>, p: (string, string)) returns (i: nat)
    requires p in ps
    ensures i < |ps| && ps[i] == p && p !in ps[..i]
  {
    var k := |ps| - 1;
    assert ps == ps[..k] + [ps[k]];
    if p in ps[..k] {
      i := FirstIndex(ps[..k], p);
      assert ps[..k][..i] == ps[..i];
    } else {
      i := k;
    }
  }

  /** A host tries every narrower target that serves it before any wider one. */
  lemma NarrowerIsTriedFirst(softwareName: string, host: HostFacts, t: Target, u: Target)
    requires Sanitize(softwareName) != "" && CleanTarget(t) && CleanTarget(u)
    requires Serves(t, FactsOf(host)) && Serves(u, FactsOf(host)) && Narrower(t, u)
    ensures Precedes(Resolve(softwareName, host),
                     InstallRelPath(Sanitize(softwareName), t), InstallRelPath(Sanitize(softwareName), u))
  {
    var name, f := Sanitize(softwareName), FactsOf(host);
    var ps, c := Pairs(f), Candidates(name, f);
    var pt, pu := (OrAny(t.distroVersion), OrAny(t.arch)), (OrAny(u.distroVersion), OrAny(u.arch));
    FactsAreSlashFree(host);
    PairsMeans(f, pt.0, pt.1);
    if IsDefault(u) {
      var i := FirstIndex(ps, pt);
      assert c[i] == InstallRelPath(name, t);
      forall k | 0 <= k < |ps|
        ensures c[k] != DefaultPath(name)
      {
        TreeIsNotDefault(name, f.distro, ps[k].0, ps[k].1);
      }
      assert c[|ps|] == DefaultPath(name) && DefaultPath(name) !in c[..|ps|];
      DedupOrder(c, i, |ps|);
    } else {
      PairsMeans(f, pu.0, pu.1);
      var i, j := PairsNarrowFirst(f, pt, pu);
      forall k | 0 <= k < j
        ensures c[k] != c[j]
      {
        TreePathInjective(name, f.distro, ps[k].0, ps[k].1, f.distro, pu.0, pu.1);
        assert ps[k] in ps[..j];
      }
      DedupOrder(c, i, j);
    }
  }
}
