/**
 Runs of the qualification registry: what every sequence of `record_capture` and `qualify` calls keeps,
 with files that may change between any two of them.
 */
module QualificationRuns {
  import opened Prelude
  import opened Qualification

  datatype Op =
    | RecordOp(path: Path, evidence: string, alias: Option<Path>)
    | QualifyOp(path: Path, status: Status, evidence: string, promote: bool)
    | FilesChange(files: map<Path, Bytes>)

  /** What a caller owes: a capture file name, and some evidence. */
  predicate WellFormed(op: Op) {
    match op
    case RecordOp(path, evidence, _) => IsFilename(path.name) && evidence != ""
    case QualifyOp(path, _, _, _) => IsFilename(path.name)
    case FilesChange(_) => true
  }

  function Step(disk: Disk, op: Op): (Disk, Result<(), Error>) {
    match op
    case RecordOp(path, evidence, alias) => Recorded(disk, path, evidence, alias)
    case QualifyOp(path, status, evidence, promote) => QualifiedDisk(disk, path, status, evidence, promote)
    case FilesChange(files) => (disk.(files := files), Ok(()))
  }

  function Run(disk: Disk, ops: seq<Op>): Disk {
    if ops == [] then disk else Step(Run(disk, ops[..|ops| - 1]), ops[|ops| - 1]).0
  }

  /** Every manifest is valid, and no reference points at a mutable alias. */
  ghost predicate Sound(disk: Disk) {
    forall dir :: dir in disk.manifests ==> SoundManifest(disk.manifests[dir])
  }

  ghost predicate SoundManifest(m: Manifest) {
    Valid(m) && forall identity :: identity in m.references ==> !StartsWith(m.references[identity], "current.")
  }

  lemma AliasesAreFilenames(name: Name)
    requires IsAlias(name)
    ensures IsFilename(name) && StartsWith(name, "current.")
  {
    assert "current.json"[|"current.json"| - 5..] == ".json" && "current.json"[..8] == "current.";
    assert "current.linux.json"[|"current.linux.json"| - 5..] == ".json" && "current.linux.json"[..8] == "current.";
  }

  lemma PendingIsSound(m: Manifest, name: Name, record: Record)
    requires SoundManifest(m) && IsFilename(name) && name !in m.captures && record.platform != ""
            && record.evidence != ""
    ensures SoundManifest(m.(captures := m.captures[name := record]))
  {
    hide IsFilename, StartsWith;
  }

  lemma AliasIsSound(m: Manifest, alias: Name, record: Record)
    requires SoundManifest(m) && IsAlias(alias) && record.platform != "" && record.evidence != ""
    ensures SoundManifest(m.(captures := m.captures[alias := record]))
  {
    AliasesAreFilenames(alias);
    hide IsFilename, StartsWith, IsAlias;
    forall identity | identity in m.references
      ensures m.references[identity] != alias
    {
    }
  }

  /** What `record_capture` computes is valid: the record it adds is pending and complete, and the one
      record it may overwrite is an alias, which no reference names. */
  lemma CapturedIsSound(disk: Disk, m: Manifest, path: Path, evidence: string, alias: Option<Path>)
    requires SoundManifest(m) && IsFilename(path.name) && evidence != "" && Captured(disk, m, path, evidence, alias).Ok?
    ensures SoundManifest(Captured(disk, m, path, evidence, alias).value)
    ensures path.name in Captured(disk, m, path, evidence, alias).value.captures
  {
    hide StatusOf, IsAlias, IsFilename, StartsWith;
    var with := m;
    if path.name !in m.captures {
      var record := Record(Sha(disk.files[path]), disk.files[path].platform.value, Pending, evidence);
      PendingIsSound(m, path.name, record);
      with := m.(captures := m.captures[path.name := record]);
    }
    if alias.Some? {
      AliasIsSound(with, alias.value.name, with.captures[path.name]);
    }
  }

  lemma QualifiedIsSound(m: Manifest, name: Name, status: Status, evidence: string, promote: bool)
    requires SoundManifest(m) && name in m.captures && evidence != "" && (promote ==> status == Accepted)
    requires Qualified(m, name, status, evidence, promote).Ok?
    ensures SoundManifest(Qualified(m, name, status, evidence, promote).value)
  {
    hide IsFilename, StartsWith;
  }

  lemma RecordKeepsSound(disk: Disk, path: Path, evidence: string, alias: Option<Path>)
    requires Sound(disk) && IsFilename(path.name) && evidence != ""
    ensures Sound(Recorded(disk, path, evidence, alias).0)
    ensures Recorded(disk, path, evidence, alias).1 != Err(InvalidManifest)
    ensures Recorded(disk, path, evidence, alias).1.Ok? ==>
              var d := Recorded(disk, path, evidence, alias).0;
              path.dir in d.manifests && path.name in d.manifests[path.dir].captures
  {
    hide Captured, IsFilename, StartsWith;
    var m := if path.dir in disk.manifests then disk.manifests[path.dir] else Manifest(map[], map[]);
    var d := if path.dir in disk.manifests then disk else disk.(manifests := disk.manifests[path.dir := m]);
    assert SoundManifest(m);
    if Captured(d, m, path, evidence, alias).Ok? {
      CapturedIsSound(d, m, path, evidence, alias);
    } else {
      CapturedFailsFor(d, m, path, evidence, alias);
    }
  }

  lemma CapturedFailsFor(disk: Disk, m: Manifest, path: Path, evidence: string, alias: Option<Path>)
    requires Sound(disk) && Captured(disk, m, path, evidence, alias).Err?
    ensures Captured(disk, m, path, evidence, alias).error != InvalidManifest
  {
    assert Main in disk.manifests ==> Valid(disk.manifests[Main]);
  }

  lemma NotBlankIsNotEmpty(s: string)
    requires !IsBlank(s)
    ensures s != ""
  {
  }

  /** One step keeps the registry sound, and the validation before a write never fails. */
  lemma StepKeepsSound(disk: Disk, op: Op)
    requires Sound(disk) && WellFormed(op)
    ensures Sound(Step(disk, op).0) && Step(disk, op).1 != Err(InvalidManifest)
  {
    hide Recorded, Qualified;
    match op
    case RecordOp(path, evidence, alias) =>
      RecordKeepsSound(disk, path, evidence, alias);
    case QualifyOp(path, status, evidence, promote) =>
      if !IsBlank(evidence) && (promote ==> status == Accepted) {
        NotBlankIsNotEmpty(evidence);
        RecordKeepsSound(disk, path, evidence, None);
        var (d, recorded) := Recorded(disk, path, evidence, None);
        if recorded.Ok? {
          var q := Qualified(d.manifests[path.dir], path.name, status, evidence, promote);
          if q.Ok? {
            QualifiedIsSound(d.manifests[path.dir], path.name, status, evidence, promote);
          } else {
            QualifiedFailsFor(d.manifests[path.dir], path.name, status, evidence, promote);
          }
        }
      }
    case FilesChange(files) =>
  }

  lemma QualifiedFailsFor(m: Manifest, name: Name, status: Status, evidence: string, promote: bool)
    requires Valid(m) && name in m.captures && Qualified(m, name, status, evidence, promote).Err?
    ensures Qualified(m, name, status, evidence, promote).error == CurrentNotPromotable
  {
  }

  /** From an empty disk, over every run: the registry is sound at every point.  So each reference
      names an accepted, versioned capture of its own platform. */
  lemma {:induction false} RunsAreSound(files: map<Path, Bytes>, ops: seq<Op>)
    requires forall op :: op in ops ==> WellFormed(op)
    ensures Sound(Run(Disk(map[], files), ops))
    ensures var manifests := Run(Disk(map[], files), ops).manifests;
            forall dir, identity :: dir in manifests && identity in manifests[dir].references ==>
              var m := manifests[dir]; var name := m.references[identity];
              && name in m.captures && m.captures[name].status == Accepted && m.captures[name].platform == identity
              && !StartsWith(name, "current.") && !IsAlias(name)
    decreases |ops|
  {
    if ops != [] {
      assert forall op :: op in ops[..|ops| - 1] ==> op in ops;
      RunsAreSound(files, ops[..|ops| - 1]);
      StepKeepsSound(Run(Disk(map[], files), ops[..|ops| - 1]), ops[|ops| - 1]);
    }
    AliasesAreFilenames("current.json");
    AliasesAreFilenames("current.linux.json");
  }

  // ----- what is recorded under a versioned name stays

  ghost predicate Held(disk: Disk, dir: Dir, name: Name) {
    dir in disk.manifests && name in disk.manifests[dir].captures
  }

  /** The decision a step writes, if it gets as far as deciding: on which bytes of which directory. */
  function DecidesOn(disk: Disk, op: Op): Option<(Dir, Digest)> {
    if op.QualifyOp? && Step(disk, op).1.Ok? then
      var d := Recorded(disk, op.path, op.evidence, None).0;
      if op.path.dir in d.manifests && op.path.name in d.manifests[op.path.dir].captures
      then Some((op.path.dir, d.manifests[op.path.dir].captures[op.path.name].sha))
      else None
    else None
  }

  lemma RecordKeepsRecords(disk: Disk, path: Path, evidence: string, alias: Option<Path>, dir: Dir, name: Name)
    requires Held(disk, dir, name) && !IsAlias(name)
    ensures var d := Recorded(disk, path, evidence, alias).0;
            Held(d, dir, name) && d.manifests[dir].captures[name] == disk.manifests[dir].captures[name]
  {
  }

  lemma DecidedKeepsOthers(captures: map<Name, Record>, sha: Digest, status: Status, evidence: string, name: Name)
    requires name in captures
    ensures var decided := Decided(captures, sha, status, evidence);
            && name in decided && decided[name].sha == captures[name].sha
            && decided[name].platform == captures[name].platform
            && (captures[name].sha != sha ==> decided[name] == captures[name])
            && (captures[name].sha == sha ==> decided[name].status == status)
  {
  }

  /** One step: a record under a versioned name keeps its digest and platform, and its decision too
      unless the step is a `qualify` that decides on the same recorded digest in the same directory. */
  lemma StepKeepsRecords(disk: Disk, op: Op, dir: Dir, name: Name)
    requires Held(disk, dir, name) && !IsAlias(name)
    ensures var d := Step(disk, op).0; var was := disk.manifests[dir].captures[name];
            && Held(d, dir, name)
            && d.manifests[dir].captures[name].sha == was.sha
            && d.manifests[dir].captures[name].platform == was.platform
            && (DecidesOn(disk, op) != Some((dir, was.sha)) ==> d.manifests[dir].captures[name] == was)
            && (DecidesOn(disk, op) == Some((dir, was.sha)) ==> d.manifests[dir].captures[name].status == op.status)
  {
    hide Recorded, Valid, StartsWith, IsBlank;
    if op.RecordOp? {
      RecordKeepsRecords(disk, op.path, op.evidence, op.alias, dir, name);
    } else if op.QualifyOp? {
      RecordKeepsRecords(disk, op.path, op.evidence, None, dir, name);
      var (d, recorded) := Recorded(disk, op.path, op.evidence, None);
      if op.path.dir == dir && op.path.name in d.manifests[dir].captures {
        DecidedKeepsOthers(d.manifests[dir].captures, d.manifests[dir].captures[op.path.name].sha, op.status,
            op.evidence, name);
      }
    }
  }

  /** No step of the run decides anything but a rejection on this digest in this directory. */
  ghost predicate NeverDecidedOtherwise(disk: Disk, ops: seq<Op>, dir: Dir, sha: Digest) {
    forall i :: 0 <= i < |ops| && DecidesOn(Run(disk, ops[..i]), ops[i]) == Some((dir, sha)) ==>
        ops[i].status == Rejected
  }

  /** Over a whole run a versioned record's digest never changes, and a rejection it holds stands unless
      some step of the run decides otherwise on the digest recorded there. */
  lemma {:induction false} RecordsStand(disk: Disk, ops: seq<Op>, dir: Dir, name: Name)
    requires Held(disk, dir, name) && !IsAlias(name)
    ensures var end := Run(disk, ops);
            && Held(end, dir, name)
            && end.manifests[dir].captures[name].sha == disk.manifests[dir].captures[name].sha
            && end.manifests[dir].captures[name].platform == disk.manifests[dir].captures[name].platform
    ensures var was := disk.manifests[dir].captures[name];
            (was.status == Rejected && NeverDecidedOtherwise(disk, ops, dir, was.sha)
             ==> Run(disk, ops).manifests[dir].captures[name].status == Rejected)
    decreases |ops|
  {
    hide Step, DecidesOn;
    if ops != [] {
      var n := |ops| - 1;
      var before := Run(disk, ops[..n]);
      forall i | 0 <= i < n
        ensures ops[..n][..i] == ops[..i] && ops[..n][i] == ops[i]
      {
      }
      var was := disk.manifests[dir].captures[name];
      assert NeverDecidedOtherwise(disk, ops, dir, was.sha) ==> NeverDecidedOtherwise(disk, ops[..n], dir, was.sha);
      assert ops[..n] == ops[..|ops| - 1];
      RecordsStand(disk, ops[..n], dir, name);
      StepKeepsRecords(before, ops[n], dir, name);
    }
  }

  /** An explicit, non-rejecting `qualify` of the rejected bytes, as a caller sees it before the call: the
      file named holds those bytes; or it is a capture recorded with them, in whose place the file now holds
      other bytes that the main registry rejects. */
  ghost predicate Requalifies(disk: Disk, op: Op, dir: Dir, sha: Digest) {
    && op.QualifyOp? && op.status != Rejected && op.path.dir == dir && op.path in disk.files
    && (|| Sha(disk.files[op.path]) == sha
        || (&& Held(disk, dir, op.path.name) && disk.manifests[dir].captures[op.path.name].sha == sha
            && MainAlreadyRejects(disk, op.path)))
  }

  ghost predicate NeverRequalified(disk: Disk, ops: seq<Op>, dir: Dir, sha: Digest) {
    forall i :: 0 <= i < |ops| ==> !Requalifies(Run(disk, ops[..i]), ops[i], dir, sha)
  }

  lemma DecidingOtherwiseRequalifies(disk: Disk, op: Op, dir: Dir, sha: Digest)
    requires Sound(disk) && WellFormed(op) && DecidesOn(disk, op) == Some((dir, sha)) && op.status != Rejected
    ensures Requalifies(disk, op, dir, sha)
  {
    hide Sound, WellFormed, Step;
    QualifyDecidesOnItsBytesIff(disk, op);
  }

  lemma {:induction false} RunIsSound(disk: Disk, ops: seq<Op>)
    requires Sound(disk) && forall op :: op in ops ==> WellFormed(op)
    ensures Sound(Run(disk, ops))
    decreases |ops|
  {
    hide Step, Sound, WellFormed;
    if ops != [] {
      assert forall op :: op in ops[..|ops| - 1] ==> op in ops;
      RunIsSound(disk, ops[..|ops| - 1]);
      StepKeepsSound(Run(disk, ops[..|ops| - 1]), ops[|ops| - 1]);
    }
  }

  /** Over every run of a sound registry, files changing in between: a rejection under a versioned name
      survives every step that is not such an explicit `qualify` of the same bytes. */
  lemma RejectionsStand(disk: Disk, ops: seq<Op>, dir: Dir, name: Name)
    requires Sound(disk) && forall op :: op in ops ==> WellFormed(op)
    requires Held(disk, dir, name) && !IsAlias(name) && disk.manifests[dir].captures[name].status == Rejected
    requires NeverRequalified(disk, ops, dir, disk.manifests[dir].captures[name].sha)
    ensures var was, end := disk.manifests[dir].captures[name], Run(disk, ops);
            Held(end, dir, name) && end.manifests[dir].captures[name].sha == was.sha
            && end.manifests[dir].captures[name].status == Rejected
  {
    hide Run, Sound, WellFormed, DecidesOn, Requalifies;
    var sha := disk.manifests[dir].captures[name].sha;
    forall i | 0 <= i < |ops| && DecidesOn(Run(disk, ops[..i]), ops[i]) == Some((dir, sha))
      ensures ops[i].QualifyOp? && ops[i].status == Rejected
    {
      assert forall op :: op in ops[..i] ==> op in ops;
      RunIsSound(disk, ops[..i]);
      OnlyQualifyDecides(Run(disk, ops[..i]), ops[i]);
      if ops[i].status != Rejected {
        DecidingOtherwiseRequalifies(Run(disk, ops[..i]), ops[i], dir, sha);
      }
    }
    RecordsStand(disk, ops, dir, name);
  }

  lemma OnlyQualifyDecides(disk: Disk, op: Op)
    ensures DecidesOn(disk, op).Some? ==> op.QualifyOp?
  {
  }

  /** While that record stands rejected, the bytes it names are refused under every name. */
  lemma RejectedRecordBlocksItsBytes(disk: Disk, dir: Dir, name: Name, path: Path)
    requires Held(disk, dir, name) && disk.manifests[dir].captures[name].status == Rejected
    requires path in disk.files && disk.manifests[dir].captures[name].sha == Sha(disk.files[path])
    ensures Candidate(disk.manifests[dir], dir, disk, path).Err?
    ensures Reference(disk.manifests[dir], dir, disk, path) != Ok(path)
  {
    RejectedBytesAreNoCandidate(disk.manifests[dir], dir, disk, path);
  }

  // ----- what the operations do

  /** Nothing but the manifest of this directory changes. */
  ghost predicate OnlyIn(before: Disk, after: Disk, dir: Dir) {
    && after.files == before.files
    && (forall other :: other != dir ==>
          && (other in after.manifests <==> other in before.manifests)
          && (other in after.manifests ==> after.manifests[other] == before.manifests[other]))
  }

  /** The record a capture has after it is recorded: the one it had, with its decision, or a pending one of its
      own bytes and platform. */
  ghost predicate RecordOf(r: Record, was: Manifest, path: Path, bytes: Bytes, evidence: string) {
    if path.name in was.captures then r == was.captures[path.name]
    else r.sha == Sha(bytes) && bytes.platform == Some(r.platform) && r.status == Pending && r.evidence == evidence
  }

  /** Capturing decides nothing: references stay, the capture has its record, the alias takes that record over,
      and every other record stays. */
  lemma RecordingDecidesNothing(disk: Disk, path: Path, evidence: string, alias: Option<Path>)
    requires Recorded(disk, path, evidence, alias).1.Ok?
    ensures OnlyIn(disk, Recorded(disk, path, evidence, alias).0, path.dir)
    ensures path in disk.files && path.dir in Recorded(disk, path, evidence, alias).0.manifests
    ensures var m := Recorded(disk, path, evidence, alias).0.manifests[path.dir];
            var was := if path.dir in disk.manifests then disk.manifests[path.dir] else Manifest(map[], map[]);
            && m.references == was.references
            && (forall name :: name in m.captures <==>
                  name in was.captures || name == path.name || (alias.Some? && name == alias.value.name))
            && (forall name :: name in m.captures ==>
                  if name == path.name || (alias.Some? && name == alias.value.name)
                  then RecordOf(m.captures[name], was, path, disk.files[path], evidence)
                  else m.captures[name] == was.captures[name])
  {
    hide IsFilename, StartsWith, IsAlias, StatusOf, Valid;
  }

  /** Refused, it leaves everything as it was, but for the empty manifest a directory without one is given. */
  lemma RefusedRecordingChangesNothing(disk: Disk, path: Path, evidence: string, alias: Option<Path>)
    requires Recorded(disk, path, evidence, alias).1.Err?
    ensures var after := Recorded(disk, path, evidence, alias).0;
            && OnlyIn(disk, after, path.dir)
            && path.dir in after.manifests
            && after.manifests[path.dir] ==
               if path.dir in disk.manifests then disk.manifests[path.dir] else Manifest(map[], map[])
  {
    hide Captured, Valid;
  }

  /** A decision that is not written leaves what recording the capture left. */
  lemma RefusedDecisionOnlyRecords(disk: Disk, path: Path, status: Status, evidence: string, promote: bool)
    ensures OnlyIn(disk, QualifiedDisk(disk, path, status, evidence, promote).0, path.dir)
    ensures var (after, r) := QualifiedDisk(disk, path, status, evidence, promote);
            r.Err? ==> after == disk || after == Recorded(disk, path, evidence, None).0
  {
    hide Recorded, Valid, Qualified, IsBlank;
    if Recorded(disk, path, evidence, None).1.Ok? {
      RecordingDecidesNothing(disk, path, evidence, None);
    } else {
      RefusedRecordingChangesNothing(disk, path, evidence, None);
    }
  }

  /** A reference stays as it was, unless the decision refuses the bytes it names. */
  ghost predicate KeepsReference(before: Manifest, after: Manifest, sha: Digest, status: Status, identity: string) {
    var dropped := status != Accepted && identity in before.references
                   && before.references[identity] in before.captures
                   && before.captures[before.references[identity]].sha == sha;
    && (identity in after.references <==> identity in before.references && !dropped)
    && (identity in after.references ==> after.references[identity] == before.references[identity])
  }

  /** The decision on the bytes recorded under `name`, as it shows in the manifests before and after. */
  ghost predicate TakesEffect(
      before: Manifest, after: Manifest, name: Name, status: Status, evidence: string, promote: bool)
    requires name in before.captures
  {
    var record := before.captures[name];
    && (forall other :: other in after.captures <==> other in before.captures)
    && (forall other :: other in after.captures ==>
          after.captures[other] == DecidedRecord(before.captures[other], record.sha, status, evidence))
    && (promote ==>
          status == Accepted && record.platform in after.references && after.references[record.platform] == name)
    && (forall identity :: !(promote && identity == record.platform) ==>
          KeepsReference(before, after, record.sha, status, identity))
  }

  lemma QualifiedTakesEffect(m: Manifest, name: Name, status: Status, evidence: string, promote: bool)
    requires Valid(m) && name in m.captures && Qualified(m, name, status, evidence, promote).Ok?
    requires promote ==> status == Accepted
    ensures TakesEffect(m, Qualified(m, name, status, evidence, promote).value, name, status, evidence, promote)
  {
    hide IsFilename, StartsWith;
  }

  /** A decision reaches every record of the decided bytes, under any name, and no other; a promotion
      makes the capture its platform's reference; a refusal drops exactly the references to its bytes,
      and every other reference stays. */
  lemma QualifyTakesEffect(disk: Disk, path: Path, status: Status, evidence: string, promote: bool)
    requires QualifiedDisk(disk, path, status, evidence, promote).1.Ok?
    ensures var before := Recorded(disk, path, evidence, None).0.manifests;
            var after := QualifiedDisk(disk, path, status, evidence, promote).0.manifests;
            && path.dir in before && path.dir in after && path.name in before[path.dir].captures
            && TakesEffect(before[path.dir], after[path.dir], path.name, status, evidence, promote)
  {
    hide Recorded, IsFilename, StartsWith, IsBlank, Qualified;
    var before := Recorded(disk, path, evidence, None).0.manifests;
    QualifiedTakesEffect(before[path.dir], path.name, status, evidence, promote);
  }

  /** Capturing succeeds exactly when the file names a platform, agrees with what is recorded under its
      name, and the alias, if any, is one of the two in the same directory with the same bytes. */
  lemma RecordingSucceedsIff(disk: Disk, path: Path, evidence: string, alias: Option<Path>)
    requires Sound(disk) && IsFilename(path.name) && evidence != ""
    ensures Recorded(disk, path, evidence, alias).1.Ok? <==>
              && path in disk.files && disk.files[path].platform.Some? && disk.files[path].platform != Some("")
              && (Held(disk, path.dir, path.name) ==> StatusOf(disk.manifests[path.dir], path.dir, disk, path).Ok?)
              && (alias.Some? ==> alias.value.dir == path.dir
                                  && alias.value.name in ["current.json", "current.linux.json"]
                                  && alias.value in disk.files && disk.files[alias.value] == disk.files[path])
  {
    hide IsFilename, StartsWith, IsAlias;
    RecordKeepsSound(disk, path, evidence, alias);
    if alias.Some? {
      AliasIff(alias.value.name);
    }
  }

  /** A decision is written exactly when it comes with evidence, the capture can be recorded, and only
      an accepted, versioned capture is promoted. */
  lemma QualifySucceedsIff(disk: Disk, path: Path, status: Status, evidence: string, promote: bool)
    requires Sound(disk) && IsFilename(path.name)
    ensures QualifiedDisk(disk, path, status, evidence, promote).1.Ok? <==>
              && (exists c :: c in evidence && !IsSpace(c)) && Recorded(disk, path, evidence, None).1.Ok?
              && (promote ==> status == Accepted && !(|path.name| >= 8 && path.name[..8] == "current."))
  {
    assert IsBlank(evidence) <==> !exists c :: c in evidence && !IsSpace(c);
    assert StartsWith(path.name, "current.") <==> |path.name| >= 8 && path.name[..8] == "current.";
    hide IsFilename, StartsWith, IsBlank, Recorded, Qualified;
    if !IsBlank(evidence) && Recorded(disk, path, evidence, None).1.Ok? && (promote ==> status == Accepted) {
      NotBlankIsNotEmpty(evidence);
      RecordKeepsSound(disk, path, evidence, None);
      var m := Recorded(disk, path, evidence, None).0.manifests[path.dir];
      QualifiedOkIff(m, path.name, status, evidence, promote);
      if Qualified(m, path.name, status, evidence, promote).Ok? {
        QualifiedIsSound(m, path.name, status, evidence, promote);
      }
    }
  }

  lemma QualifiedOkIff(m: Manifest, name: Name, status: Status, evidence: string, promote: bool)
    requires Valid(m) && name in m.captures
    ensures Qualified(m, name, status, evidence, promote).Ok? <==> !(promote && StartsWith(name, "current."))
  {
  }

  function DecidedRecord(r: Record, sha: Digest, status: Status, evidence: string): Record {
    if r.sha == sha then r.(status := status, evidence := evidence) else r
  }

  /** What `reference` answers: for a current alias its platform's reference, for another capture of the
      registry itself when accepted, and for an outside file itself. */
  lemma ReferenceAnswers(m: Manifest, dir: Dir, disk: Disk, path: Path)
    requires Reference(m, dir, disk, path).Ok?
    ensures var chosen := Reference(m, dir, disk, path).value;
            && path in disk.files && chosen in disk.files
            && (path.dir == dir && IsAlias(path.name) ==>
                  disk.files[path].platform.Some? && disk.files[path].platform.value in m.references
                  && chosen == Path(dir, m.references[disk.files[path].platform.value]))
            && (!(path.dir == dir && IsAlias(path.name)) ==> chosen == path)
            && (chosen.dir == dir ==> chosen.name in m.captures && m.captures[chosen.name].status == Accepted
                                      && m.captures[chosen.name].sha == Sha(disk.files[chosen]))
  {
  }

  // ----- does a decision concern the bytes of the file?

  /** The bytes in the file are known to the main registry as rejected, and this is another directory. */
  ghost predicate MainAlreadyRejects(disk: Disk, path: Path) {
    path.dir != Main && path in disk.files && Main in disk.manifests
        && Rejects(disk.manifests[Main], Sha(disk.files[path]))
  }

  /** A `qualify` of a new capture decides on its file's bytes.  For a capture already recorded, the
      digest check is what ties the decision to the file, and that check is reached exactly when the
      main registry has not already rejected the file's bytes: `status` then returns early. */
  lemma QualifyDecidesOnItsBytesIff(disk: Disk, op: Op)
    requires Sound(disk) && op.QualifyOp? && WellFormed(op) && DecidesOn(disk, op).Some?
    ensures op.path in disk.files
    ensures !MainAlreadyRejects(disk, op.path) || !Held(disk, op.path.dir, op.path.name) ==>
              DecidesOn(disk, op).value.1 == Sha(disk.files[op.path])
    ensures MainAlreadyRejects(disk, op.path) && Held(disk, op.path.dir, op.path.name) ==>
              DecidesOn(disk, op).value.1 == disk.manifests[op.path.dir].captures[op.path.name].sha
  {
    hide IsFilename, StartsWith, IsBlank, Qualified;
    NotBlankIsNotEmpty(op.evidence);
    RecordKeepsSound(disk, op.path, op.evidence, None);
  }

  const OLD := Bytes([0], Some("Linux/x"))
  const NEW := Bytes([1], Some("Linux/x"))
  const CAPTURE := Path(Local("d"), "v.json")
  const MAIN_MANIFEST := Manifest(map["m.json" := Record(Sha(NEW), "Linux/x", Rejected, "e")], map[])
  const LOCAL_MANIFEST := Manifest(map["v.json" := Record(Sha(OLD), "Linux/x", Rejected, "e")], map[])
  const REPLACED := Disk(map[Main := MAIN_MANIFEST, Local("d") := LOCAL_MANIFEST], map[CAPTURE := NEW])

  lemma CaptureNames()
    ensures IsFilename("v.json") && IsFilename("m.json")
  {
    assert "v.json"[1..] == ".json" && "m.json"[1..] == ".json";
  }

  lemma ReplacedIsSound()
    ensures Sound(REPLACED) && IsFilename("v.json")
    ensures OLD != NEW && MainAlreadyRejects(REPLACED, CAPTURE)
  {
    hide IsFilename, StartsWith;
    CaptureNames();
    assert [0][0] != [1][0];
    assert SoundManifest(MAIN_MANIFEST) && SoundManifest(LOCAL_MANIFEST);
    assert "m.json" in MAIN_MANIFEST.captures;
  }

  lemma ReplacedIsRecorded()
    ensures Recorded(REPLACED, CAPTURE, "e", None) == (REPLACED, Ok(()))
  {
    ReplacedIsSound();
    hide IsFilename, Rejects;
    assert StatusIn(MAIN_MANIFEST, Main, REPLACED, CAPTURE) == Ok(Some(Rejected)) by {
      assert Rejects(MAIN_MANIFEST, Sha(NEW));
    }
    assert StatusOf(LOCAL_MANIFEST, Local("d"), REPLACED, CAPTURE) == Ok(Some(Rejected));
    assert Captured(REPLACED, LOCAL_MANIFEST, CAPTURE, "e", None) == Ok(LOCAL_MANIFEST);
    assert REPLACED.manifests[Local("d") := LOCAL_MANIFEST] == REPLACED.manifests;
  }

  /** The case is real: a local capture whose file was replaced by bytes the main registry rejects can
      still be qualified, and the decision lifts the rejection of the bytes recorded before. */
  lemma ReplacedFileEscapesTheDigestCheck()
    ensures var op := QualifyOp(CAPTURE, Accepted, "e", false);
            && Sound(REPLACED) && WellFormed(op) && REPLACED.files[CAPTURE] != OLD
            && Step(REPLACED, op).1.Ok?
            && DecidesOn(REPLACED, op) == Some((Local("d"), Sha(OLD)))
  {
    ReplacedIsSound();
    ReplacedIsRecorded();
    assert 'e' in "e";
    hide Recorded, IsFilename;
    QualifiedIsSound(LOCAL_MANIFEST, "v.json", Accepted, "e", false);
  }
}
