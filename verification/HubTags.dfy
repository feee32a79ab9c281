/** Image tags that name a distro and a version, and the scaffold targets made from them. */
module HubTags {
  import opened Text
  import opened Options
  import opened Segments
  import opened RegistryPaths
  import opened Selections

  // --------------------------------------------------------------------------------- parsing tags

  const KNOWN: seq<string> := ["almalinux", "ubuntu", "debian", "fedora", "centos", "rocky", "rhel",
                               "alpine", "arch", "kali", "opensuse", "suse"]

  predicate VersionWord(s: string) {
    s == "rolling" || s == "stable" || s == "sid" || s == "testing" || s == "rawhide"
  }

  predicate IsVersionToken(raw: string) {
    var s := Trim(raw);
    && s != ""
    && (VersionWord(s) ||
        ((forall c :: c in s ==> '0' <= c <= '9' || c == '.') && exists c :: c in s && c != '.'))
  }

  /** The part before the first dash. */
  function BeforeDash(s: string): string {
    if s == "" || s[0] == '-' then "" else [s[0]] + BeforeDash(s[1..])
  }

  /** A remainder that names a version: not empty, and not a version token with more after a dash. */
  predicate NamesVersion(rem: string) {
    rem != "" && !('-' in rem && IsVersionToken(BeforeDash(rem)))
  }

  predicate HasPrefix(s: string, prefix: string) {
    |prefix| <= |s| && s[..|prefix|] == prefix
  }

  /** The first known distro whose name and a dash open the tag decides. */
  function ParseWith(known: seq<string>, tag: string): Option<(string, string)> {
    if known == [] then None
    else if HasPrefix(tag, known[0] + "-") then
      var rem := tag[|known[0]| + 1..];
      if NamesVersion(rem) then Some((known[0], rem)) else None
    else ParseWith(known[1..], tag)
  }

  function Parse(raw: string): Option<(string, string)> {
    var tag := Fold(raw);
    if tag == "" || tag == "latest" || tag == "binoptimization" then None else ParseWith(KNOWN, tag)
  }

  method ParseContainerWSTag(raw: string) returns (r: Option<(string, string)>)
    ensures r == Parse(raw)
  {
    var tag := Fold(raw);
    if tag == "" || tag == "latest" || tag == "binoptimization" {
      return None;
    }
    var i := 0;
    while i < |KNOWN|
      invariant 0 <= i <= |KNOWN| && ParseWith(KNOWN, tag) == ParseWith(KNOWN[i..], tag)
    {
      var d := KNOWN[i];
      assert KNOWN[i..][0] == d && KNOWN[i..][1..] == KNOWN[i + 1..];
      if HasPrefix(tag, d + "-") {
        var rem := tag[|d| + 1..];
        if rem == "" {
          return None;
        }
        if '-' !in rem {
          return Some((d, rem));
        }
        if IsVersionToken(BeforeDash(rem)) {
          return None;
        }
        return Some((d, rem));
      }
      i := i + 1;
    }
    r := None;
  }

  lemma KnownHaveNoDash()
    ensures forall d :: d in KNOWN ==> '-' !in d && '/' !in d && d != "" && d != DEFAULT
  {
  }

  /** The distros a tag can name. */
  lemma KnownDistros(d: string)
    ensures d in KNOWN <==>
            || d in ["ubuntu", "debian", "kali"]
            || d in ["almalinux", "rocky", "rhel", "centos", "fedora"]
            || d in ["alpine", "arch", "opensuse", "suse"]
  {
  }

  lemma PrefixCut(tag: string, d: string)
    ensures HasPrefix(tag, d + "-") <==> exists rem :: tag == d + "-" + rem
    ensures HasPrefix(tag, d + "-") ==> tag == d + "-" + tag[|d| + 1..]
    ensures forall rem :: tag == d + "-" + rem ==> rem == tag[|d| + 1..]
  {
    if HasPrefix(tag, d + "-") {
      assert tag == tag[..|d| + 1] + tag[|d| + 1..];
    }
    forall rem | tag == d + "-" + rem
      ensures HasPrefix(tag, d + "-") && rem == tag[|d| + 1..]
    {
      assert (d + "-" + rem)[..|d| + 1] == d + "-";
    }
  }

  /** Whatever the order of the known distros, a tag parses to a distro and a version exactly if it is
      the two joined by a dash. */
  lemma {:induction false} ParseWithIff(known: seq<string>, tag: string, d: string, v: string)
    requires forall x :: x in known ==> '-' !in x
    requires '-' !in d
    ensures ParseWith(known, tag) == Some((d, v)) <==> d in known && tag == d + "-" + v && NamesVersion(v)
  {
    if known != [] {
      var k := known[0];
      assert known == [k] + known[1..];
      PrefixCut(tag, k);
      PrefixCut(tag, d);
      ParseWithIff(known[1..], tag, d, v);
      if HasPrefix(tag, k + "-") {
        var rem := tag[|k| + 1..];
        if HasPrefix(tag, d + "-") {
          CutAt('-', k, rem, d, tag[|d| + 1..]);
        }
      }
    }
  }

  /** A version as a tag names it: digits and dots with a digit, or one of five words. */
  ghost predicate VersionLike(s: string) {
    || s in ["rolling", "stable", "sid", "testing", "rawhide"]
    || ((forall c :: c in s ==> c in "0123456789.") && exists c :: c in s && c in "0123456789")
  }

  lemma DigitMeans(c: char)
    ensures '0' <= c <= '9' <==> c in "0123456789"
    ensures '0' <= c <= '9' || c == '.' <==> c in "0123456789."
  {
    var digits := "0123456789";
    assert forall i :: 0 <= i < 10 ==> digits[i] == '0' + i as char;
    if '0' <= c <= '9' { assert digits[(c - '0') as int] == c; }
    assert "0123456789." == digits + ".";
  }

  lemma VersionTokenMeans(s: string)
    ensures IsVersionToken(s) <==> VersionLike(Trim(s))
  {
    forall c
      ensures '0' <= c <= '9' <==> c in "0123456789"
      ensures '0' <= c <= '9' || c == '.' <==> c in "0123456789."
    {
      DigitMeans(c);
    }
    var t := Trim(s);
    if forall c :: c in t ==> '0' <= c <= '9' || c == '.' {
      assert (exists c :: c in t && c != '.') <==> exists c :: c in t && c in "0123456789";
    }
  }

  lemma {:induction false} BeforeDashIs(head: string, tail: string)
    requires '-' !in head
    ensures BeforeDash(head + "-" + tail) == head
  {
    if head == "" {
      assert (head + "-" + tail)[0] == '-';
    } else {
      assert head[0] in head && (head + "-" + tail)[1..] == head[1..] + "-" + tail;
      BeforeDashIs(head[1..], tail);
    }
  }

  /** After the distro anything names a version but nothing at all and a version with more behind it. */
  lemma NamesVersionMeans(head: string, tail: string)
    requires '-' !in head
    ensures NamesVersion(head) <==> head != ""
    ensures NamesVersion(head + "-" + tail) <==> !VersionLike(Trim(head))
  {
    BeforeDashIs(head, tail);
    VersionTokenMeans(head);
    assert (head + "-" + tail)[|head|] == '-';
  }

  /** So a known distro's tag with something after its version, like an application image's, is refused. */
  lemma AppTagsAreRefused(raw: string, d: string, head: string, tail: string)
    requires d in KNOWN && '-' !in head && VersionLike(Trim(head)) && Fold(raw) == d + "-" + (head + "-" + tail)
    ensures Parse(raw) == None
  {
    KnownHaveNoDash();
    NamesVersionMeans(head, tail);
    if Parse(raw).Some? {
      var p := Parse(raw).value;
      ParsedIsKnown(KNOWN, Fold(raw));
      ParseInvertsNaming(raw, p.0, p.1);
      CutAt('-', p.0, p.1, d, head + "-" + tail);
    }
  }

  lemma {:induction false} ParsedIsKnown(known: seq<string>, tag: string)
    ensures ParseWith(known, tag).Some? ==> ParseWith(known, tag).value.0 in known
  {
    if known != [] {
      ParsedIsKnown(known[1..], tag);
    }
  }

  /** The tags the package documents, and two it does not take. */
  lemma DocumentedTags()
    ensures Parse("ubuntu-26.04") == Some(("ubuntu", "26.04")) && Parse("debian-13") == Some(("debian", "13"))
    ensures Parse("kali-rolling") == Some(("kali", "rolling"))
    ensures Parse("ubuntu-26.04-app") == None && Parse("latest") == None
  {
    UbuntuTag();
    DebianTag();
    KaliTag();
    AppTag();
    LatestTag();
  }

  lemma UbuntuTag()
    ensures Parse("ubuntu-26.04") == Some(("ubuntu", "26.04"))
  {
    assert "ubuntu-26.04" == "ubuntu" + "-" + "26.04";
    OneDocumented("ubuntu", "26.04");
  }

  lemma DebianTag()
    ensures Parse("debian-13") == Some(("debian", "13"))
  {
    assert "debian-13" == "debian" + "-" + "13";
    OneDocumented("debian", "13");
  }

  lemma KaliTag()
    ensures Parse("kali-rolling") == Some(("kali", "rolling"))
  {
    assert "kali-rolling" == "kali" + "-" + "rolling";
    OneDocumented("kali", "rolling");
  }

  lemma AppTag()
    ensures Parse("ubuntu-26.04-app") == None
  {
    AppTagIsFolded();
    NumberIsVersionLike();
    AppTagIsCut();
    AppTagsAreRefused("ubuntu-26.04-app", "ubuntu", "26.04", "app");
  }

  lemma AppTagIsCut()
    ensures "ubuntu-26.04-app" == "ubuntu" + "-" + ("26.04" + "-" + "app")
  {
    assert "26.04" + "-" + "app" == "26.04-app";
    assert "ubuntu" + "-" + "26.04-app" == "ubuntu-26.04-app";
  }

  lemma AppTagIsFolded()
    ensures Fold("ubuntu-26.04-app") == "ubuntu-26.04-app"
  {
    LowerIsFolded("ubuntu-26.04-app");
  }

  lemma NumberIsVersionLike()
    ensures VersionLike(Trim("26.04")) && '-' !in "26.04"
  {
    TrimFixed("26.04");
    assert "26.04"[0] in "0123456789";
  }

  lemma LatestTag()
    ensures Parse("latest") == None
  {
    LowerIsFolded("latest");
  }

  lemma OneDocumented(d: string, v: string)
    requires d in KNOWN && v != "" && '-' !in v
    requires forall c :: c in d + "-" + v ==> LowerChar(c) == c && !IsSpace(c)
    ensures Parse(d + "-" + v) == Some((d, v))
  {
    var tag := d + "-" + v;
    KnownHaveNoDash();
    assert tag[0] in tag && tag[|tag| - 1] in tag;
    LowerIsFolded(tag);
    NamesVersionMeans(v, "");
    ParseInvertsNaming(tag, d, v);
  }

  /** Parsing inverts naming: exactly the tags made of a known distro, a dash and a version name parse,
      and to those two. */
  lemma ParseInvertsNaming(raw: string, d: string, v: string)
    requires '-' !in d
    ensures Parse(raw) == Some((d, v)) <==> d in KNOWN && Fold(raw) == d + "-" + v && NamesVersion(v)
  {
    KnownHaveNoDash();
    ParseWithIff(KNOWN, Fold(raw), d, v);
    assert '-' !in "latest" && '-' !in "binoptimization";
    if Fold(raw) == d + "-" + v {
      assert (d + "-" + v)[|d|] == '-';
      assert '-' in Fold(raw);
    }
  }

  // -------------------------------------------------------------------------- targets from the tags

  datatype HubTag = HubTag(distroID: string, distroVersion: string, workspace: bool)

  function KeyOf(t: HubTag): string {
    t.distroID + "/" + t.distroVersion + "/any"
  }

  predicate Usable(t: HubTag) {
    t.workspace && t.distroID != ""
  }

  function TargetOf(t: HubTag): Target {
    Target(t.distroID, t.distroVersion, ANY)
  }

  function Keys(tags: seq<HubTag>): set<string> {
    set t | t in tags && Usable(t) :: KeyOf(t)
  }

  /** One target per key, in the order the keys first come. */
  function TargetsOf(tags: seq<HubTag>): seq<Target> {
    if tags == [] then []
    else
      var k := |tags| - 1;
      var before := TargetsOf(tags[..k]);
      if Usable(tags[k]) && KeyOf(tags[k]) !in Keys(tags[..k]) then before + [TargetOf(tags[k])] else before
  }

  method HubTargets(tags: seq<HubTag>) returns (out: seq<Target>)
    ensures out == TargetsOf(tags)
  {
    out := [];
    var seen: set<string> := {};
    for i := 0 to |tags|
      invariant out == TargetsOf(tags[..i]) && seen == Keys(tags[..i])
    {
      var t := tags[i];
      assert tags[..i + 1][..i] == tags[..i] && tags[..i + 1] == tags[..i] + [t];
      if t.workspace && t.distroID != "" {
        var key := t.distroID + "/" + t.distroVersion + "/any";
        if key !in seen {
          seen := seen + {key};
          out := out + [Target(t.distroID, t.distroVersion, ANY)];
        }
      }
    }
    assert tags[..|tags|] == tags;
  }

  /** Segments the registry keeps as they are, for a real distro and a real version. */
  ghost predicate CleanTag(t: HubTag) {
    && IsSegment(t.distroID) && IsSegment(t.distroVersion)
    && t.distroID != DEFAULT && t.distroVersion != ""
  }

  lemma KeyInjective(t: HubTag, u: HubTag)
    requires CleanTag(t) && CleanTag(u)
    ensures KeyOf(t) == KeyOf(u) <==> TargetOf(t) == TargetOf(u)
  {
    SegmentsHaveNoSlash(t);
    SegmentsHaveNoSlash(u);
    if KeyOf(t) == KeyOf(u) {
      assert KeyOf(t) == t.distroID + "/" + (t.distroVersion + "/any");
      assert KeyOf(u) == u.distroID + "/" + (u.distroVersion + "/any");
      CutAt('/', t.distroID, t.distroVersion + "/any", u.distroID, u.distroVersion + "/any");
      assert t.distroVersion + "/any" == t.distroVersion + "/" + "any";
      assert u.distroVersion + "/any" == u.distroVersion + "/" + "any";
      CutAt('/', t.distroVersion, "any", u.distroVersion, "any");
    }
  }

  lemma SegmentsHaveNoSlash(t: HubTag)
    requires CleanTag(t)
    ensures SlashFree(t.distroID) && SlashFree(t.distroVersion)
  {
  }

  /** The targets are those of the usable tags, each once. */
  lemma {:induction false} TargetsAreTags(tags: seq<HubTag>)
    requires forall t :: t in tags && Usable(t) ==> CleanTag(t)
    ensures forall x :: x in TargetsOf(tags) <==> exists t :: t in tags && Usable(t) && TargetOf(t) == x
    ensures forall i, j :: 0 <= i < j < |TargetsOf(tags)| ==> TargetsOf(tags)[i] != TargetsOf(tags)[j]
  {
    if tags != [] {
      var k := |tags| - 1;
      var last, before := tags[k], tags[..k];
      assert tags == before + [last];
      TargetsAreTags(before);
      if Usable(last) {
        assert TargetOf(last) in TargetsOf(before) <==> KeyOf(last) in Keys(before) by {
          LastIsOld(before, last);
        }
      }
      forall x
        ensures x in TargetsOf(tags) <==> exists t :: t in tags && Usable(t) && TargetOf(t) == x
      {
        if t :| t in before && Usable(t) && TargetOf(t) == x { assert t in tags; }
        assert last in tags;
      }
    }
  }

  lemma LastIsOld(before: seq<HubTag>, last: HubTag)
    requires Usable(last) && CleanTag(last) && forall t :: t in before && Usable(t) ==> CleanTag(t)
    requires forall x :: x in TargetsOf(before) <==> exists t :: t in before && Usable(t) && TargetOf(t) == x
    ensures TargetOf(last) in TargetsOf(before) <==> KeyOf(last) in Keys(before)
  {
    forall t | t in before && Usable(t)
      ensures KeyOf(t) == KeyOf(last) <==> TargetOf(t) == TargetOf(last)
    {
      KeyInjective(t, last);
    }
  }

  /** The tag is a workspace image of a known distro, and no earlier one names that distro and version. */
  ghost predicate FirstNamed(tags: seq<HubTag>, i: nat) {
    && i < |tags| && tags[i].workspace && tags[i].distroID != ""
    && forall j :: 0 <= j < i ==>
                     !(&& tags[j].workspace && tags[j].distroID == tags[i].distroID
                       && tags[j].distroVersion == tags[i].distroVersion)
  }

  ghost function FirstNames(tags: seq<HubTag>): (r: seq<bool>)
    ensures |r| == |tags| && forall i :: 0 <= i < |r| ==> r[i] == FirstNamed(tags, i)
  {
    seq(|tags|, i requires 0 <= i < |tags| => FirstNamed(tags, i))
  }

  function AllTargets(tags: seq<HubTag>): (r: seq<Target>)
    ensures |r| == |tags|
    ensures forall i :: 0 <= i < |r| ==> r[i] == Target(tags[i].distroID, tags[i].distroVersion, "any")
  {
    seq(|tags|, i requires 0 <= i < |tags| => Target(tags[i].distroID, tags[i].distroVersion, "any"))
  }

  lemma LastIsFirstNamed(tags: seq<HubTag>)
    requires tags != [] && forall t :: t in tags && Usable(t) ==> CleanTag(t)
    ensures var k := |tags| - 1;
            FirstNamed(tags, k) <==> Usable(tags[k]) && KeyOf(tags[k]) !in Keys(tags[..k])
  {
    var k := |tags| - 1;
    if Usable(tags[k]) {
      forall j | 0 <= j < k && Usable(tags[j])
        ensures KeyOf(tags[j]) == KeyOf(tags[k]) <==>
                tags[j].distroID == tags[k].distroID && tags[j].distroVersion == tags[k].distroVersion
      {
        assert tags[j] in tags && tags[k] in tags;
        KeyInjective(tags[j], tags[k]);
      }
      if KeyOf(tags[k]) in Keys(tags[..k]) {
        var t :| t in tags[..k] && Usable(t) && KeyOf(t) == KeyOf(tags[k]);
        var j :| 0 <= j < k && tags[j] == t;
        assert !FirstNamed(tags, k);
      } else {
        forall j | 0 <= j < k
          ensures !(Usable(tags[j]) && KeyOf(tags[j]) == KeyOf(tags[k]))
        {
          assert tags[..k][j] == tags[j];
        }
      }
    }
  }

  /** There is one target for the first tag of every distro and version, for any processor, in tag order. */
  lemma {:induction false} TargetsInOrder(tags: seq<HubTag>) returns (at: seq<nat>)
    requires forall t :: t in tags && Usable(t) ==> CleanTag(t)
    ensures Selects(AllTargets(tags), FirstNames(tags), TargetsOf(tags), at)
  {
    at := [];
    if tags != [] {
      var k := |tags| - 1;
      at := TargetsInOrder(tags[..k]);
      forall i | 0 <= i < k
        ensures FirstNamed(tags[..k], i) == FirstNamed(tags, i)
      {
        assert forall j :: 0 <= j < i ==> tags[..k][j] == tags[j];
      }
      assert AllTargets(tags[..k]) == AllTargets(tags)[..k] && FirstNames(tags[..k]) == FirstNames(tags)[..k];
      LastIsFirstNamed(tags);
      at := SelectMore(AllTargets(tags), FirstNames(tags), TargetsOf(tags), TargetsOf(tags[..k]), at);
    }
  }

  /** Scaffolding from image tags writes every file once, and the test run for a tag tries that tag's
      file first. */
  lemma HubTargetsAreFirst(tags: seq<HubTag>, softwareName: string, i: nat, j: nat)
    requires forall t :: t in tags && Usable(t) ==> CleanTag(t)
    requires Sanitize(softwareName) != "" && i < |TargetsOf(tags)| && j < |TargetsOf(tags)|
    ensures var name := Sanitize(softwareName);
            var t, u := TargetsOf(tags)[i], TargetsOf(tags)[j];
            && (InstallRelPath(name, t) == InstallRelPath(name, u) <==> i == j)
            && var tried := Resolve(softwareName, HostFacts(t.distroID, t.distroVersion, ANY));
               tried != [] && tried[0] == InstallRelPath(name, t)
  {
    TargetsAreTags(tags);
    var t, u := TargetsOf(tags)[i], TargetsOf(tags)[j];
    assert t in TargetsOf(tags) && u in TargetsOf(tags);
    var a :| a in tags && Usable(a) && TargetOf(a) == t;
    var b :| b in tags && Usable(b) && TargetOf(b) == u;
    SegmentsHaveNoSlash(a);
    SegmentsHaveNoSlash(b);
    TreePathInjective(Sanitize(softwareName), t.distroID, t.distroVersion, ANY, u.distroID, u.distroVersion, ANY);
    OwnPathFirst(softwareName, a);
  }

  lemma AnyIsSegment()
    ensures Sanitize(ANY) == ANY && NormalizeArch(ANY) == ANY
  {
    TrimFixed(ANY);
    assert Lower(ANY) == ANY;
    assert IsSegment(ANY);
    SanitizeFixedIff(ANY);
  }

  lemma OwnPathFirst(softwareName: string, t: HubTag)
    requires Sanitize(softwareName) != "" && Usable(t) && CleanTag(t)
    ensures var tried := Resolve(softwareName, HostFacts(t.distroID, t.distroVersion, ANY));
            tried != [] && tried[0] == InstallRelPath(Sanitize(softwareName), TargetOf(t))
  {
    var host := HostFacts(t.distroID, t.distroVersion, ANY);
    AnyIsSegment();
    SanitizeFixedIff(t.distroID);
    SanitizeFixedIff(t.distroVersion);
    var c := Candidates(Sanitize(softwareName), FactsOf(host));
    assert FactsOf(host) == Facts(t.distroID, t.distroVersion, ANY);
    assert Pairs(FactsOf(host))[0] == (t.distroVersion, ANY);
    DedupFirst(c);
  }

  lemma {:induction false} DedupFirst(s: seq<string>)
    requires s != []
    ensures Dedup(s) != [] && Dedup(s)[0] == s[0]
  {
    if |s| > 1 {
      DedupFirst(s[..|s| - 1]);
    } else {
      assert s[..0] == [];
    }
  }
}
