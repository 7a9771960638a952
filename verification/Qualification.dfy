/**
 The benchmark qualification registry: scripts/benchmark_qualification.py.

 A directory of captures has a manifest of records and reference pointers; the main directory's
 manifest also binds every other directory.  `Disk` is what is on disk; `Bench` is the code that
 changes it.
 */
module Qualification {
  import opened Prelude

  type Name = string

  datatype Dir = Main | Local(id: string)

  datatype Path = Path(dir: Dir, name: Name)

  /** The bytes of a capture; the platform they name can be read from them. */
  datatype Bytes = Bytes(raw: seq<int>, platform: Option<string>)

  datatype Digest = Sha(bytes: Bytes)

  datatype Status = Accepted | Pending | Rejected

  datatype Record = Record(sha: Digest, platform: string, status: Status, evidence: string)

  datatype Manifest = Manifest(captures: map<Name, Record>, references: map<string, Name>)

  datatype Disk = Disk(manifests: map<Dir, Manifest>, files: map<Path, Bytes>)

  datatype Error =
    | NoManifest | InvalidManifest | NoFile | NoPlatform | DigestDiffers | PlatformDiffers
    | BadAlias | AliasDiffers | BadArguments | CurrentNotPromotable
    | RejectedCandidate | NoReference

  predicate StartsWith(s: string, prefix: string) {
    |prefix| <= |s| && s[..|prefix|] == prefix
  }

  predicate EndsWith(s: string, suffix: string) {
    |suffix| <= |s| && s[|s| - |suffix|..] == suffix
  }

  predicate IsFilename(name: Name) {
    '/' !in name && EndsWith(name, ".json")
  }

  /** The two mutable aliases. */
  predicate IsAlias(name: Name) {
    name == "current.json" || name == "current.linux.json"
  }

  /** `not s.strip()` */
  predicate IsBlank(s: string) {
    forall c :: c in s ==> IsSpace(c)
  }

  // ----- `Registry`

  /** `_validate` */
  predicate Valid(m: Manifest) {
    && (forall name :: name in m.captures ==>
          IsFilename(name) && m.captures[name].platform != "" && m.captures[name].evidence != "")
    && (forall identity :: identity in m.references ==>
          && m.references[identity] in m.captures
          && m.captures[m.references[identity]].platform == identity
          && m.captures[m.references[identity]].status == Accepted)
  }

  function Load(disk: Disk, dir: Dir): Result<Manifest, Error> {
    if dir !in disk.manifests then Err(NoManifest)
    else if !Valid(disk.manifests[dir]) then Err(InvalidManifest)
    else Ok(disk.manifests[dir])
  }

  predicate Rejects(m: Manifest, sha: Digest) {
    exists name :: name in m.captures && m.captures[name].sha == sha && m.captures[name].status == Rejected
  }

  /** One registry's answer, without asking the main one. */
  function StatusIn(m: Manifest, dir: Dir, disk: Disk, path: Path): Result<Option<Status>, Error> {
    if path !in disk.files then Err(NoFile)
    else
      var sha := Sha(disk.files[path]);
      var record := if path.dir == dir && path.name in m.captures then Some(m.captures[path.name]) else None;
      if record.Some? && record.value.sha != sha then Err(DigestDiffers)
      else if record.Some? && Some(record.value.platform) != disk.files[path].platform then Err(PlatformDiffers)
      else if Rejects(m, sha) then Ok(Some(Rejected))
      else Ok(if record.Some? then Some(record.value.status) else None)
  }

  /** `status`: a rejection by the main registry ends the question. */
  function StatusOf(m: Manifest, dir: Dir, disk: Disk, path: Path): Result<Option<Status>, Error> {
    if dir == Main then StatusIn(m, dir, disk, path)
    else
      match Load(disk, Main)
      case Err(e) => Err(e)
      case Ok(main) =>
        match StatusIn(main, Main, disk, path)
        case Err(e) => Err(e)
        case Ok(Some(Rejected)) => Ok(Some(Rejected))
        case Ok(_) => StatusIn(m, dir, disk, path)
  }

  /** `candidate` */
  function Candidate(m: Manifest, dir: Dir, disk: Disk, path: Path): Result<(), Error> {
    match StatusOf(m, dir, disk, path)
    case Err(e) => Err(e)
    case Ok(Some(Rejected)) => Err(RejectedCandidate)
    case Ok(_) => Ok(())
  }

  /** `reference`: a current alias resolves to the platform's reference; anything else stands for itself. */
  function Reference(m: Manifest, dir: Dir, disk: Disk, path: Path): Result<Path, Error> {
    match StatusOf(m, dir, disk, path)
    case Err(e) => Err(e)
    case Ok(status) =>
      var managed := path.dir == dir;
      if managed && IsAlias(path.name) then
        if path !in disk.files || disk.files[path].platform.None?
            || disk.files[path].platform.value !in m.references then Err(NoReference)
        else
          var resolved := Path(dir, m.references[disk.files[path].platform.value]);
          match StatusOf(m, dir, disk, resolved)
          case Err(e) => Err(e)
          case Ok(answer) => if answer == Some(Accepted) then Ok(resolved) else Err(NoReference)
      else if (status.Some? && status != Some(Accepted)) || (managed && status.None?) then Err(NoReference)
      else Ok(path)
  }

  // ----- what the operations compute, before they write

  /** The captures after `record_capture`, up to its write. */
  function Captured(
      disk: Disk, m: Manifest, path: Path, evidence: string, alias: Option<Path>): Result<Manifest, Error> {
    if path !in disk.files then Err(NoFile)
    else if disk.files[path].platform.None? || disk.files[path].platform == Some("") then Err(NoPlatform)
    else if path.name in m.captures
        && StatusOf(m, path.dir, disk, path).Err? then Err(StatusOf(m, path.dir, disk, path).error)
    else
      var captures := if path.name in m.captures then m.captures
                      else m.captures[path.name := Record(Sha(disk.files[path]), disk.files[path].platform.value,
                          Pending, evidence)];
      if alias.None? then Ok(m.(captures := captures))
      else if alias.value.dir != path.dir || !IsAlias(alias.value.name) then Err(BadAlias)
      else if alias.value !in disk.files then Err(NoFile)
      else if disk.files[alias.value] != disk.files[path] then Err(AliasDiffers)
      else Ok(m.(captures := captures[alias.value.name := captures[path.name]]))
  }

  /** `record_capture`: a missing manifest is created first, and stays even when the rest fails. */
  function Recorded(disk: Disk, path: Path, evidence: string, alias: Option<Path>): (Disk, Result<(), Error>) {
    var d := if path.dir in disk.manifests then disk
             else disk.(manifests := disk.manifests[path.dir := Manifest(map[], map[])]);
    if !Valid(d.manifests[path.dir]) then (d, Err(InvalidManifest))
    else
      match Captured(d, d.manifests[path.dir], path, evidence, alias)
      case Err(e) => (d, Err(e))
      case Ok(m) =>
        if !Valid(m) then (d, Err(InvalidManifest))
        else (d.(manifests := d.manifests[path.dir := m]), Ok(()))
  }

  function Decided(captures: map<Name, Record>, sha: Digest, status: Status, evidence: string): map<Name, Record> {
    map name | name in captures ::
      if captures[name].sha == sha then captures[name].(status := status, evidence := evidence) else captures[name]
  }

  function KeptReferences(m: Manifest, sha: Digest): map<string, Name>
    requires forall identity :: identity in m.references ==> m.references[identity] in m.captures
  {
    map identity | identity in m.references && m.captures[m.references[identity]].sha != sha :: m.references[identity]
  }

  /** The manifest after a decision on the bytes recorded under `name`. */
  function Qualified(m: Manifest, name: Name, status: Status, evidence: string, promote: bool): Result<Manifest, Error>
    requires Valid(m) && name in m.captures
  {
    var record := m.captures[name];
    var captures := Decided(m.captures, record.sha, status, evidence);
    var references := if status != Accepted then KeptReferences(m, record.sha) else m.references;
    if promote && StartsWith(name, "current.") then Err(CurrentNotPromotable)
    else Ok(Manifest(captures, if promote then references[record.platform := name] else references))
  }

  /** `qualify` */
  function QualifiedDisk(
      disk: Disk, path: Path, status: Status, evidence: string, promote: bool): (Disk, Result<(), Error>) {
    if IsBlank(evidence) then (disk, Err(BadArguments))
    else if promote && status != Accepted then (disk, Err(BadArguments))
    else
      var (d, recorded) := Recorded(disk, path, evidence, None);
      if recorded.Err? then (d, recorded)
      else if path.dir !in d.manifests || !Valid(d.manifests[path.dir])
          || path.name !in d.manifests[path.dir].captures then
        (d, Err(InvalidManifest))
      else
        match Qualified(d.manifests[path.dir], path.name, status, evidence, promote)
        case Err(e) => (d, Err(e))
        case Ok(m) =>
          if !Valid(m) then (d, Err(InvalidManifest))
          else (d.(manifests := d.manifests[path.dir := m]), Ok(()))
  }

  // ----- the code that changes the disk

  class Bench {
    var disk: Disk

    constructor (files: map<Path, Bytes>)
      ensures disk == Disk(map[], files)
    {
      disk := Disk(map[], files);
    }

    method Write(dir: Dir, m: Manifest) returns (r: Result<(), Error>)
      modifies this
      ensures Valid(m) ==> r == Ok(()) && disk == old(disk).(manifests := old(disk).manifests[dir := m])
      ensures !Valid(m) ==> r == Err(InvalidManifest) && disk == old(disk)
    {
      if !Valid(m) {
        return Err(InvalidManifest);
      }
      disk := disk.(manifests := disk.manifests[dir := m]);
      return Ok(());
    }

    method RecordCapture(path: Path, evidence: string, alias: Option<Path>) returns (r: Result<(), Error>)
      modifies this
      ensures (disk, r) == Recorded(old(disk), path, evidence, alias)
    {
      if path.dir !in disk.manifests {
        disk := disk.(manifests := disk.manifests[path.dir := Manifest(map[], map[])]);
      }
      var registry := Load(disk, path.dir);
      if registry.Err? {
        return Err(registry.error);
      }
      var m := registry.value;
      if path !in disk.files {
        return Err(NoFile);
      }
      var identity := disk.files[path].platform;
      if identity.None? || identity.value == "" {
        return Err(NoPlatform);
      }
      if path.name in m.captures {
        var status := StatusOf(m, path.dir, disk, path);
        if status.Err? {
          return Err(status.error);
        }
      } else {
        m := m.(captures := m.captures[path.name := Record(Sha(disk.files[path]), identity.value, Pending, evidence)]);
      }
      if alias.Some? {
        if alias.value.dir != path.dir || !IsAlias(alias.value.name) {
          return Err(BadAlias);
        }
        if alias.value !in disk.files {
          return Err(NoFile);
        }
        if Sha(disk.files[alias.value]) != Sha(disk.files[path]) {
          return Err(AliasDiffers);
        }
        m := m.(captures := m.captures[alias.value.name := m.captures[path.name]]);
      }
      r := Write(path.dir, m);
    }

    /** The loop over every record of the same bytes. */
    method Decide(
        captures: map<Name, Record>, sha: Digest, status: Status,
        evidence: string) returns (decided: map<Name, Record>)
      ensures decided == Decided(captures, sha, status, evidence)
    {
      decided := captures;
      var todo := captures.Keys;
      while todo != {}
        invariant todo <= captures.Keys && decided.Keys == captures.Keys
        invariant forall name :: name in captures ==>
          decided[name] == if name in todo then captures[name] else Decided(captures, sha, status, evidence)[name]
        decreases todo
      {
        var name :| name in todo;
        todo := todo - {name};
        if decided[name].sha == sha {
          decided := decided[name := decided[name].(status := status, evidence := evidence)];
        }
      }
    }

    method Qualify(path: Path, status: Status, evidence: string, promote: bool) returns (r: Result<(), Error>)
      modifies this
      ensures (disk, r) == QualifiedDisk(old(disk), path, status, evidence, promote)
    {
      if IsBlank(evidence) || (promote && status != Accepted) {
        return Err(BadArguments);
      }
      r := RecordCapture(path, evidence, None);
      if r.Err? {
        return;
      }
      var registry := Load(disk, path.dir);
      if registry.Err? || path.name !in registry.value.captures {
        return Err(InvalidManifest);
      }
      var m := registry.value;
      var record := m.captures[path.name];
      var captures := Decide(m.captures, record.sha, status, evidence);
      var references := m.references;
      if status != Accepted {
        references := KeptReferences(m, record.sha);
      }
      if promote {
        if StartsWith(path.name, "current.") {
          return Err(CurrentNotPromotable);
        }
        references := references[record.platform := path.name];
      }
      r := Write(path.dir, Manifest(captures, references));
    }
  }

  // ----- rejected bytes are never used

  ghost predicate HoldsRejection(m: Manifest, bytes: Bytes) {
    exists name :: name in m.captures && m.captures[name].sha == Sha(bytes) && m.captures[name].status == Rejected
  }

  /** Some record of the registry in `dir`, or of the main one, rejects these bytes. */
  ghost predicate KnownRejected(m: Manifest, dir: Dir, disk: Disk, bytes: Bytes) {
    HoldsRejection(m, bytes) || (dir != Main && Main in disk.manifests && HoldsRejection(disk.manifests[Main], bytes))
  }

  /** Bytes that any record rejects are refused as a candidate under every name and in every directory. */
  lemma RejectedBytesAreNoCandidate(m: Manifest, dir: Dir, disk: Disk, path: Path)
    requires path in disk.files && KnownRejected(m, dir, disk, disk.files[path])
    ensures Candidate(m, dir, disk, path).Err?
  {
  }

  /** And a candidate is refused for its bytes only when some record rejects them. */
  lemma RefusedCandidateIsRejected(m: Manifest, dir: Dir, disk: Disk, path: Path)
    requires Candidate(m, dir, disk, path) == Err(RejectedCandidate)
    ensures path in disk.files && KnownRejected(m, dir, disk, disk.files[path])
  {
    assert Rejects(m, Sha(disk.files[path])) || dir != Main || StatusIn(m, dir, disk, path) != Ok(Some(Rejected))
        || path.name in m.captures;
  }

  /** What `reference` returns is never bytes that any record rejects. */
  lemma ReferenceIsNeverRejected(m: Manifest, dir: Dir, disk: Disk, path: Path)
    requires Reference(m, dir, disk, path).Ok?
    ensures var chosen := Reference(m, dir, disk, path).value;
            chosen in disk.files && !KnownRejected(m, dir, disk, disk.files[chosen])
  {
    var chosen := Reference(m, dir, disk, path).value;
    assert StatusOf(m, dir, disk, chosen).Ok?;
    if KnownRejected(m, dir, disk, disk.files[chosen]) {
      RejectedBytesAreNoCandidate(m, dir, disk, chosen);
    }
  }

  /** Where a record of this very file exists, it agrees with the file. */
  predicate Agrees(m: Manifest, dir: Dir, disk: Disk, path: Path)
    requires path in disk.files
  {
    path.dir == dir && path.name in m.captures ==>
      m.captures[path.name].sha == Sha(disk.files[path])
          && Some(m.captures[path.name].platform) == disk.files[path].platform
  }

  /** The registries can answer for a file: the main one is readable, and neither contradicts the file. */
  ghost predicate Answerable(m: Manifest, dir: Dir, disk: Disk, path: Path) {
    && path in disk.files && Agrees(m, dir, disk, path)
    && (dir != Main ==> Load(disk, Main).Ok? && Agrees(disk.manifests[Main], Main, disk, path))
  }

  /** When they can, a candidate passes exactly when no record rejects its bytes. */
  lemma CandidatePassesIff(m: Manifest, dir: Dir, disk: Disk, path: Path)
    requires Answerable(m, dir, disk, path)
    ensures Candidate(m, dir, disk, path).Ok? <==> !KnownRejected(m, dir, disk, disk.files[path])
  {
    if Candidate(m, dir, disk, path) == Err(RejectedCandidate) {
      RefusedCandidateIsRejected(m, dir, disk, path);
    }
    if KnownRejected(m, dir, disk, disk.files[path]) {
      RejectedBytesAreNoCandidate(m, dir, disk, path);
    }
  }

  /** And a current alias resolves to its platform's reference exactly when no record rejects the
      reference's bytes. */
  lemma AliasResolvesIff(m: Manifest, dir: Dir, disk: Disk, name: Name, identity: string)
    requires Valid(m) && IsAlias(name) && identity in m.references
    requires var path := Path(dir, name); Answerable(m, dir, disk, path) && disk.files[path].platform == Some(identity)
    requires Answerable(m, dir, disk, Path(dir, m.references[identity]))
    ensures var chosen := Path(dir, m.references[identity]);
            Reference(m, dir, disk, Path(dir, name)) == Ok(chosen) <==> !KnownRejected(m, dir, disk, disk.files[chosen])
  {
    hide IsFilename;
    var chosen := Path(dir, m.references[identity]);
    CandidatePassesIff(m, dir, disk, chosen);
    assert StatusOf(m, dir, disk, Path(dir, name)).Ok?;
    assert StatusOf(m, dir, disk, chosen).Ok?;
  }

  /** A file that is no current alias of the registry stands for itself: one of the registry's own directory
      exactly when it is recorded there as accepted and no record rejects its bytes, one from outside exactly
      when no record rejects its bytes. */
  lemma OtherPathsStandIff(m: Manifest, dir: Dir, disk: Disk, path: Path)
    requires Answerable(m, dir, disk, path)
    requires !(path.dir == dir && path.name in ["current.json", "current.linux.json"])
    ensures path.dir == dir ==>
              (Reference(m, dir, disk, path) == Ok(path) <==>
                 && path.name in m.captures && m.captures[path.name].status == Accepted
                 && !KnownRejected(m, dir, disk, disk.files[path]))
    ensures path.dir != dir ==>
              (Reference(m, dir, disk, path) == Ok(path) <==> !KnownRejected(m, dir, disk, disk.files[path]))
    ensures Reference(m, dir, disk, path) == Ok(path) || Reference(m, dir, disk, path) == Err(NoReference)
  {
    hide Valid;
    StatusIs(m, dir, disk, path);
    AliasIff(path.name);
  }

  lemma AliasIff(name: Name)
    ensures IsAlias(name) <==> name in ["current.json", "current.linux.json"]
  {
  }

  /** The status of a file the registries can answer for: rejected when any record rejects its bytes, else
      that of its own record, else none. */
  lemma StatusIs(m: Manifest, dir: Dir, disk: Disk, path: Path)
    requires Answerable(m, dir, disk, path)
    ensures StatusOf(m, dir, disk, path) ==
            if KnownRejected(m, dir, disk, disk.files[path]) then Ok(Some(Rejected))
            else if path.dir == dir && path.name in m.captures then Ok(Some(m.captures[path.name].status))
            else Ok(None)
  {
    hide Valid;
    assert Rejects(m, Sha(disk.files[path])) <==> HoldsRejection(m, disk.files[path]);
    if dir != Main {
      assert Rejects(disk.manifests[Main], Sha(disk.files[path])) <==>
          HoldsRejection(disk.manifests[Main], disk.files[path]);
    }
  }

  /** Asking fails exactly when the file or the main registry is missing or unusable, or a record of the file
      contradicts it: the main registry's, or, unless the main one rejects the bytes, the registry's own. */
  lemma StatusFailsIff(m: Manifest, dir: Dir, disk: Disk, path: Path)
    ensures StatusOf(m, dir, disk, path).Err? <==>
              || path !in disk.files
              || (dir == Main && !Agrees(m, Main, disk, path))
              || (dir != Main && (Main !in disk.manifests || !Valid(disk.manifests[Main])))
              || (dir != Main && !Agrees(disk.manifests[Main], Main, disk, path))
              || (dir != Main && !HoldsRejection(disk.manifests[Main], disk.files[path]) && !Agrees(m, dir, disk, path))
  {
    hide Valid;
    if path in disk.files && dir != Main && Main in disk.manifests {
      assert Rejects(disk.manifests[Main], Sha(disk.files[path])) <==>
          HoldsRejection(disk.manifests[Main], disk.files[path]);
    }
  }

  /** A manifest is refused exactly for a record that is not a plain `.json` file name with a platform and
      evidence, or for a reference that does not name an accepted record of its own platform. */
  lemma InvalidIff(m: Manifest)
    ensures !Valid(m) <==>
              || (exists name :: name in m.captures && UnfitRecord(name, m.captures[name]))
              || (exists identity :: identity in m.references && UnfitReference(m, identity))
  {
  }

  ghost predicate UnfitRecord(name: Name, r: Record) {
    '/' in name || |name| < 5 || name[|name| - 5..] != ".json" || r.platform == "" || r.evidence == ""
  }

  ghost predicate UnfitReference(m: Manifest, identity: string)
    requires identity in m.references
  {
    || m.references[identity] !in m.captures
    || m.captures[m.references[identity]].platform != identity
    || m.captures[m.references[identity]].status != Accepted
  }
}
