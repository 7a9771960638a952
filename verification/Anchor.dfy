/**
 The anchor of the cumulative drift gate: `release_baselines` and `select_captures` in
 scripts/check_perf_anchor.py.
 */
module Anchor {
  import opened Prelude
  import opened Versions
  import TextOrder
  import Q = Qualification

  datatype Release = Release(version: Version, path: Q.Path)

  /** The version a file name spells, for the names that spell one. */
  type Naming = Q.Name -> Option<Version>

  /** The order of the pairs of version and path, all in one directory. */
  predicate Earlier(a: Release, b: Release) {
    Less(a.version, b.version) || (a.version == b.version && TextOrder.Before(a.path.name, b.path.name))
  }

  predicate Sorted(s: seq<Release>) {
    forall i, j :: 0 <= i < j < |s| ==> !Earlier(s[j], s[i])
  }

  /** By version, the older first; files that spell the same version by name. */
  ghost predicate OldestFirst(s: seq<Release>) {
    forall i, j :: 0 <= i < j < |s| ==>
      || Less(s[i].version, s[j].version)
      || (s[i].version == s[j].version
          && (s[i].path.name == s[j].path.name || TextOrder.Before(s[i].path.name, s[j].path.name)))
  }

  lemma SortedIsOldestFirst(s: seq<Release>)
    requires Sorted(s)
    ensures OldestFirst(s)
  {
    forall i, j | 0 <= i < j < |s|
      ensures || Less(s[i].version, s[j].version)
              || (s[i].version == s[j].version
                  && (s[i].path.name == s[j].path.name || TextOrder.Before(s[i].path.name, s[j].path.name)))
    {
      assert !Earlier(s[j], s[i]);
      TextOrder.BeforeIsTotal(s[i].path.name, s[j].path.name);
    }
  }

  lemma EarlierIsTransitive(a: Release, b: Release, c: Release)
    ensures !Earlier(a, a)
    ensures Earlier(a, b) ==> !Earlier(b, a)
    ensures Earlier(a, b) && !Earlier(c, b) ==> !Earlier(c, a)
    ensures !Earlier(b, a) && !Earlier(c, b) ==> !Earlier(c, a)
  {
    TextOrder.BeforeIsTotal(a.path.name, a.path.name);
    TextOrder.BeforeIsTotal(a.path.name, b.path.name);
    TextOrder.BeforeIsTotal(b.path.name, c.path.name);
    TextOrder.BeforeIsTotal(a.path.name, c.path.name);
    TextOrder.BeforeIsTotal(c.path.name, a.path.name);
    TextOrder.BeforeIsTotal(c.path.name, b.path.name);
    TextOrder.BeforeIsTotal(b.path.name, a.path.name);
    if TextOrder.Before(a.path.name, b.path.name) && TextOrder.Before(b.path.name, c.path.name) {
      TextOrder.BeforeIsTransitive(a.path.name, b.path.name, c.path.name);
    }
    if TextOrder.Before(c.path.name, a.path.name) && TextOrder.Before(a.path.name, b.path.name) {
      TextOrder.BeforeIsTransitive(c.path.name, a.path.name, b.path.name);
    }
    if TextOrder.Before(b.path.name, c.path.name) && TextOrder.Before(c.path.name, a.path.name) {
      TextOrder.BeforeIsTransitive(b.path.name, c.path.name, a.path.name);
    }
  }

  lemma InsertFirst(s: seq<Release>, r: Release)
    requires Sorted(s) && s != [] && Earlier(r, s[0])
    ensures Sorted([r] + s)
  {
    hide Earlier;
    forall j | 0 <= j < |s|
      ensures !Earlier(s[j], r)
    {
      EarlierIsTransitive(r, s[0], s[j]);
    }
  }

  /** The insertion step of the sort. */
  function Insert(s: seq<Release>, r: Release): (t: seq<Release>)
    requires Sorted(s)
    ensures Sorted(t) && |t| == |s| + 1 && forall x :: x in t <==> x in s || x == r
  {
    if s == [] then
      EarlierIsTransitive(r, r, r);
      [r]
    else if Earlier(r, s[0]) then
      InsertFirst(s, r);
      [r] + s
    else
      assert s == [s[0]] + s[1..];
      var rest := Insert(s[1..], r);
      assert forall x :: x in rest ==> !Earlier(x, s[0]);
      [s[0]] + rest
  }

  predicate IsRelease(disk: Q.Disk, dir: Q.Dir, naming: Naming, r: Release) {
    r.path in disk.files && r.path.dir == dir && naming(r.path.name) == Some(r.version)
  }

  /** Every file of the directory whose name spells a version, oldest first. */
  method ReleaseBaselines(disk: Q.Disk, dir: Q.Dir, naming: Naming) returns (found: seq<Release>)
    ensures Sorted(found) && OldestFirst(found) && forall r :: r in found <==> IsRelease(disk, dir, naming, r)
  {
    found := [];
    var todo := disk.files.Keys;
    while todo != {}
      invariant todo <= disk.files.Keys && Sorted(found)
      invariant forall r :: r in found <==> IsRelease(disk, dir, naming, r) && r.path !in todo
      decreases todo
    {
      var path :| path in todo;
      todo := todo - {path};
      if path.dir == dir && naming(path.name).Some? {
        found := Insert(found, Release(naming(path.name).value, path));
      }
    }
    SortedIsOldestFirst(found);
  }

  /** The versions the candidate answers to: those of the releases holding its bytes, and its own name's. */
  ghost predicate Identifies(disk: Q.Disk, releases: seq<Release>, naming: Naming, current: Q.Path, v: Version)
    requires current in disk.files
  {
    || (exists r ::
          r in releases && r.path in disk.files && disk.files[r.path] == disk.files[current] && r.version == v)
    || naming(current.name) == Some(v)
  }

  /** A release that may serve as anchor: another file, older than everything the candidate answers to. */
  ghost predicate Eligible(disk: Q.Disk, releases: seq<Release>, naming: Naming, current: Q.Path, r: Release)
    requires current in disk.files
  {
    r in releases && r.path != current && forall v :: Identifies(disk, releases, naming, current, v) ==>
        Less(r.version, v)
  }

  method Cutoff(disk: Q.Disk, releases: seq<Release>, naming: Naming, current: Q.Path) returns (cutoff: Option<Version>)
    requires current in disk.files && forall r :: r in releases ==> r.path in disk.files
    ensures cutoff.None? ==> forall v :: !Identifies(disk, releases, naming, current, v)
    ensures cutoff.Some? ==> Identifies(disk, releases, naming, current, cutoff.value)
                             && forall v :: Identifies(disk, releases, naming, current, v) ==> AtMost(cutoff.value, v)
  {
    cutoff := naming(current.name);
    for i := 0 to |releases|
      invariant cutoff.Some? ==> Identifies(disk, releases, naming, current, cutoff.value)
      invariant forall v :: naming(current.name) == Some(v) ==> cutoff.Some? && AtMost(cutoff.value, v)
      invariant forall j :: 0 <= j < i && disk.files[releases[j].path] == disk.files[current] ==>
        cutoff.Some? && AtMost(cutoff.value, releases[j].version)
    {
      var r := releases[i];
      if Q.Sha(disk.files[r.path]) == Q.Sha(disk.files[current]) && (cutoff.None? || Less(r.version, cutoff.value)) {
        assert r in releases;
        cutoff := Some(r.version);
      }
    }
  }

  method EligibleReleases(
      disk: Q.Disk, releases: seq<Release>, naming: Naming, current: Q.Path) returns (eligible: seq<Release>)
    requires current in disk.files && Sorted(releases) && forall r :: r in releases ==> r.path in disk.files
    ensures OldestFirst(eligible) && forall r :: r in eligible <==> Eligible(disk, releases, naming, current, r)
  {
    hide Earlier, OldestFirst;
    var cutoff := Cutoff(disk, releases, naming, current);
    eligible := [];
    for i := 0 to |releases|
      invariant forall r :: r in eligible <==> r in releases[..i] && Eligible(disk, releases, naming, current, r)
      invariant Sorted(eligible)
      invariant forall r :: r in eligible ==> exists j :: 0 <= j < i && releases[j] == r
    {
      var r := releases[i];
      assert r in releases;
      assert releases[..i + 1] == releases[..i] + [r];
      var ok := r.path != current && (cutoff.None? || Less(r.version, cutoff.value));
      assert ok <==> Eligible(disk, releases, naming, current, r);
      if ok {
        forall k | 0 <= k < |eligible|
          ensures !Earlier(r, eligible[k])
        {
          assert eligible[k] in eligible;
          var j :| 0 <= j < i && releases[j] == eligible[k];
        }
        eligible := eligible + [r];
      }
    }
    assert releases[..|releases|] == releases;
    SortedIsOldestFirst(eligible);
  }

  /** The position asked for leaves exactly `back` - 1 releases after it; it is the oldest when there are
      fewer than `back`. */
  ghost predicate CountedBack(n: nat, back: nat, target: nat) {
    target < n && (n >= back ==> n - 1 - target == back - 1) && (n < back ==> target == 0)
  }

  /** `max(0, n - back)` */
  function Target(n: nat, back: nat): (target: nat)
    requires n > 0 && back > 0
    ensures CountedBack(n, back, target)
  {
    if n >= back then n - back else 0
  }

  /** Position `k` of the eligible releases is the newest accepted one at or before `target`, and every
      newer one down from `target` was looked at and is not accepted. */
  ghost predicate NewestAccepted(disk: Q.Disk, m: Q.Manifest, dir: Q.Dir, eligible: seq<Release>, target: int, k: int) {
    && 0 <= k <= target < |eligible|
    && Q.StatusOf(m, dir, disk, eligible[k].path) == Ok(Some(Q.Accepted))
    && forall j :: k < j <= target ==>
         var status := Q.StatusOf(m, dir, disk, eligible[j].path);
         status.Ok? && status.value != Some(Q.Accepted)
  }

  /** The backwards search: it finds that release exactly when there is one. */
  method Search(
      disk: Q.Disk, m: Q.Manifest, dir: Q.Dir, eligible: seq<Release>, target: nat) returns (r: Result<nat, Q.Error>)
    requires target < |eligible|
    ensures r.Ok? ==> NewestAccepted(disk, m, dir, eligible, target, r.value)
    ensures r.Err? ==> forall k :: !NewestAccepted(disk, m, dir, eligible, target, k)
  {
    var k := target + 1;
    while k > 0
      invariant 0 <= k <= target + 1
      invariant forall j :: k <= j <= target ==>
        var status := Q.StatusOf(m, dir, disk, eligible[j].path);
        status.Ok? && status.value != Some(Q.Accepted)
    {
      k := k - 1;
      var status := Q.StatusOf(m, dir, disk, eligible[k].path);
      if status.Err? {
        return Err(status.error);
      }
      if status.value == Some(Q.Accepted) {
        return Ok(k);
      }
    }
    return Err(Q.NoReference);
  }

  ghost predicate RefusedBy(disk: Q.Disk, home: Q.Dir, current: Q.Path) {
    Q.Load(disk, home).Err? || Q.Candidate(disk.manifests[home], home, disk, current).Err?
  }

  /** The candidate is refused: by the registry asked for, or by that of its own directory, which is the main
      one when it has none. */
  ghost predicate CandidateRefused(disk: Q.Disk, dir: Q.Dir, current: Q.Path)
    requires dir in disk.manifests
  {
    || Q.Candidate(disk.manifests[dir], dir, disk, current).Err?
    || (current.dir in disk.manifests && RefusedBy(disk, current.dir, current))
    || (current.dir !in disk.manifests && RefusedBy(disk, Q.Main, current))
  }

  /** Why there is no verdict: there is no candidate, or it is refused, or nothing older is eligible, or
      the search meets no accepted release. */
  ghost predicate NoVerdict(
      disk: Q.Disk, dir: Q.Dir, naming: Naming, explicit: Option<Q.Path>, releasesBack: nat, releases: seq<Release>,
      eligible: seq<Release>)
    requires dir in disk.manifests
  {
    && AreReleases(disk, dir, naming, releases)
    && (|| (explicit.None? && releases == [])
        || var current := if explicit.Some? then explicit.value else releases[|releases| - 1].path;
           || CandidateRefused(disk, dir, current)
           || (&& current in disk.files && AreEligible(disk, releases, naming, current, eligible)
               && (eligible != [] ==>
                     forall target: nat, k :: CountedBack(|eligible|, releasesBack, target) ==>
                       !NewestAccepted(disk, disk.manifests[dir], dir, eligible, target, k))))
  }

  ghost predicate AreReleases(disk: Q.Disk, dir: Q.Dir, naming: Naming, releases: seq<Release>) {
    OldestFirst(releases) && forall x :: x in releases <==> IsRelease(disk, dir, naming, x)
  }

  ghost predicate AreEligible(
      disk: Q.Disk, releases: seq<Release>, naming: Naming, current: Q.Path, eligible: seq<Release>)
    requires current in disk.files
  {
    OldestFirst(eligible) && forall x :: x in eligible <==> Eligible(disk, releases, naming, current, x)
  }

  method SelectCaptures(disk: Q.Disk, dir: Q.Dir, naming: Naming, explicit: Option<Q.Path>, releasesBack: int)
    returns (r: Result<(Q.Path, Q.Path), Q.Error>, ghost releases: seq<Release>, ghost eligible: seq<Release>,
        ghost target: nat, ghost k: nat)
    ensures releasesBack < 1 || Q.Load(disk, dir).Err? ==> r.Err?
    ensures releasesBack >= 1 && Q.Load(disk, dir).Ok? && r.Err? ==>
            NoVerdict(disk, dir, naming, explicit, releasesBack, releases, eligible)
    ensures r.Ok? ==> var (current, anchor) := r.value;
              && releasesBack >= 1 && dir in disk.manifests && current in disk.files
              && AreReleases(disk, dir, naming, releases)
              && (if explicit.Some? then current == explicit.value
                  else releases != [] && current == releases[|releases| - 1].path)
              && !CandidateRefused(disk, dir, current)
              && AreEligible(disk, releases, naming, current, eligible)
              && CountedBack(|eligible|, releasesBack, target)
              && NewestAccepted(disk, disk.manifests[dir], dir, eligible, target, k)
              && anchor == eligible[k].path
  {
    hide OldestFirst, Sorted, Q.StatusOf, Identifies;
    releases, eligible, target, k := [], [], 0, 0;
    if releasesBack < 1 {
      r := Err(Q.BadArguments);
      return;
    }
    var registry := Q.Load(disk, dir);
    if registry.Err? {
      r := Err(registry.error);
      return;
    }
    var m := registry.value;
    var found := ReleaseBaselines(disk, dir, naming);
    releases := found;
    if explicit.None? && found == [] {
      r := Err(Q.NoReference);
      return;
    }
    var current := if explicit.Some? then explicit.value else found[|found| - 1].path;
    var candidate := Q.Candidate(m, dir, disk, current);
    if candidate.Err? {
      r := Err(candidate.error);
      return;
    }
    CandidateIsAFile(disk, m, dir, current);
    var home := if current.dir in disk.manifests then current.dir else Q.Main;
    var own := Q.Load(disk, home);
    if own.Err? {
      r := Err(own.error);
      return;
    }
    candidate := Q.Candidate(own.value, home, disk, current);
    if candidate.Err? {
      r := Err(candidate.error);
      return;
    }
    var older := EligibleReleases(disk, found, naming, current);
    eligible := older;
    if older == [] {
      r := Err(Q.NoReference);
      return;
    }
    var position := Target(|older|, releasesBack);
    target := position;
    var chosen := Search(disk, m, dir, older, position);
    if chosen.Err? {
      r := Err(chosen.error);
      return;
    }
    k := chosen.value;
    r := Ok((current, older[chosen.value].path));
  }

  lemma CandidateIsAFile(disk: Q.Disk, m: Q.Manifest, dir: Q.Dir, current: Q.Path)
    requires Q.Candidate(m, dir, disk, current).Ok?
    ensures current in disk.files
  {
  }

  /** The anchor never holds the candidate's bytes, strictly precedes every release that does, and
      strictly precedes the version of the candidate's own name. */
  lemma AnchorPrecedesTheCandidate(
      disk: Q.Disk, dir: Q.Dir, releases: seq<Release>, naming: Naming, current: Q.Path, anchor: Release)
    requires current in disk.files && Eligible(disk, releases, naming, current, anchor)
    requires forall x :: x in releases <==> IsRelease(disk, dir, naming, x)
    ensures anchor.path in disk.files && disk.files[anchor.path] != disk.files[current]
    ensures forall x :: x in releases && x.path in disk.files && disk.files[x.path] == disk.files[current] ==>
            Less(anchor.version, x.version)
    ensures naming(current.name).Some? ==> Less(anchor.version, naming(current.name).value)
  {
    forall x | x in releases && x.path in disk.files && disk.files[x.path] == disk.files[current]
      ensures Less(anchor.version, x.version)
    {
      assert Identifies(disk, releases, naming, current, x.version);
    }
    if naming(current.name).Some? {
      assert Identifies(disk, releases, naming, current, naming(current.name).value);
    }
  }

  /** And the anchor's own bytes are not rejected by any registry. */
  lemma AnchorIsNotRejected(disk: Q.Disk, m: Q.Manifest, dir: Q.Dir, eligible: seq<Release>, target: int, k: int)
    requires NewestAccepted(disk, m, dir, eligible, target, k)
    ensures eligible[k].path in disk.files && !Q.KnownRejected(m, dir, disk, disk.files[eligible[k].path])
  {
    if eligible[k].path in disk.files && Q.KnownRejected(m, dir, disk, disk.files[eligible[k].path]) {
      Q.RejectedBytesAreNoCandidate(m, dir, disk, eligible[k].path);
    }
  }
}
