/**
 The optimistic file snapshot: `_snapshot_file` in kglite/__init__.py, against a file system that
 other processes change at will.

 The snapshot code never writes, so what the others do does not depend on it: the file system is a
 trajectory of states, chosen in advance and arbitrary but for the assumptions in `Lawful`.  Every
 system call first lets an arbitrary amount of time pass, and a read may return fewer bytes than
 asked for.  A theorem for every trajectory and every schedule is a theorem against every
 interleaving.
 */
module FileSnapshot {
  import opened Prelude

  type Path = string

  /** A device and inode number.  While a descriptor is open its inode is not reused, so an inode
      keeps its identity for the whole trajectory. */
  type Ino = nat

  newtype byte = x: int | 0 <= x < 256

  datatype Mode = Regular(bits: nat) | Irregular(bits: nat)

  datatype File = File(mode: Mode, content: seq<byte>, mtime: int, ctime: int)

  datatype Fs = Fs(names: map<Path, Ino>, inodes: map<Ino, File>)

  /** The fields `_stat_signature` compares. */
  datatype Signature = Signature(ino: Ino, mode: Mode, size: nat, mtime: int, ctime: int)

  datatype Digest = Sha(content: seq<byte>)

  datatype Outcome = Missing | Snapshot(mtime: int, hash: Option<Digest>) | Unstable

  const CHUNK_BYTES: nat := 1024 * 1024
  const ATTEMPTS: nat := 3

  function SignatureOf(ino: Ino, file: File): Signature {
    Signature(ino, file.mode, |file.content|, file.mtime, file.ctime)
  }

  type Trajectory = nat -> Fs

  ghost predicate NamesExist(fs: Fs) {
    forall path :: path in fs.names ==> fs.names[path] in fs.inodes
  }

  ghost predicate Bounded(fs: Fs, limit: nat) {
    forall ino :: ino in fs.inodes ==> |fs.inodes[ino].content| <= limit
  }

  /** Nothing tells the two apart but, perhaps, their content. */
  ghost predicate LookAlike(f: File, g: File) {
    f.mode == g.mode && |f.content| == |g.content| && f.mtime == g.mtime && f.ctime == g.ctime
  }

  /** One step of one inode: nothing, or a change after which it looks as it never has. */
  ghost predicate StepsFresh(traj: Trajectory, t: nat, ino: Ino) {
    ino in traj(t).inodes ==>
      && ino in traj(t + 1).inodes
      && (|| traj(t + 1).inodes[ino] == traj(t).inodes[ino]
          || forall u: nat :: u <= t && ino in traj(u).inodes ==>
               !LookAlike(traj(u).inodes[ino], traj(t + 1).inodes[ino]))
  }

  ghost predicate Lawful(traj: Trajectory, limit: nat) {
    && (forall t :: NamesExist(traj(t)) && Bounded(traj(t), limit))
    && (forall t, ino :: StepsFresh(traj, t, ino))
  }

  /** The inode's file is the same at every moment from `a` to `b`. */
  ghost predicate Constant(traj: Trajectory, ino: Ino, a: nat, b: nat) {
    forall t: nat :: a <= t <= b ==>
        ino in traj(t).inodes && ino in traj(a).inodes && traj(t).inodes[ino] == traj(a).inodes[ino]
  }

  lemma {:induction false} InodesPersist(traj: Trajectory, limit: nat, ino: Ino, a: nat, b: nat)
    requires Lawful(traj, limit) && a <= b && ino in traj(a).inodes
    ensures ino in traj(b).inodes
    decreases b
  {
    if a < b {
      InodesPersist(traj, limit, ino, a, b - 1);
      assert StepsFresh(traj, b - 1, ino);
    }
  }

  /** The heart of the protocol: an inode that has the same signature at two moments was not touched
      at any moment in between. */
  lemma {:induction false} SameSignatureMeansUntouched(traj: Trajectory, limit: nat, ino: Ino, a: nat, b: nat)
    requires Lawful(traj, limit) && a <= b && ino in traj(a).inodes && ino in traj(b).inodes
    requires SignatureOf(ino, traj(a).inodes[ino]) == SignatureOf(ino, traj(b).inodes[ino])
    ensures Constant(traj, ino, a, b)
    decreases b
  {
    if a < b {
      InodesPersist(traj, limit, ino, a, b - 1);
      assert StepsFresh(traj, b - 1, ino);
      SameSignatureMeansUntouched(traj, limit, ino, a, b - 1);
    }
  }

  /** What an undisturbed look at the path gives. */
  ghost function Direct(fs: Fs, path: Path, includeHash: bool): Outcome
    requires path in fs.names ==> fs.names[path] in fs.inodes
  {
    if path !in fs.names then Missing
    else
      var file := fs.inodes[fs.names[path]];
      if file.mode.Irregular? then Missing
      else Snapshot(file.mtime, if includeHash then Some(Sha(file.content)) else None)
  }

  /** Nothing changes from `a` to `b`. */
  ghost predicate Still(traj: Trajectory, a: nat, b: nat) {
    forall t: nat :: a <= t <= b ==> traj(t) == traj(a)
  }

  /** The path names nothing at `t`, or names there what at `u` is no regular file. */
  ghost predicate IsMissing(traj: Trajectory, path: Path, t: nat, u: nat) {
    path in traj(t).names ==>
      traj(t).names[path] in traj(u).inodes && traj(u).inodes[traj(t).names[path]].mode.Irregular?
  }

  /** The outcome is what an undisturbed look gives at some moment from `a` to `b`. */
  ghost predicate Seen(traj: Trajectory, r: Outcome, path: Path, includeHash: bool, a: nat, b: nat) {
    match r
    case Snapshot(_, _) =>
      exists t: nat :: a <= t <= b && NamesExist(traj(t)) && r == Direct(traj(t), path, includeHash)
    case Missing => exists t: nat, u: nat :: a <= t <= u <= b && IsMissing(traj, path, t, u)
    case Unstable => false
  }

  lemma SeenLonger(traj: Trajectory, r: Outcome, path: Path, includeHash: bool, a: nat, b: nat, a': nat, b': nat)
    requires Seen(traj, r, path, includeHash, a, b) && a' <= a && b <= b'
    ensures Seen(traj, r, path, includeHash, a', b')
  {
    if r.Missing? {
      var t: nat, u: nat :| a <= t <= u <= b && IsMissing(traj, path, t, u);
      assert a' <= t <= u <= b' && IsMissing(traj, path, t, u);
    }
  }

  /** While nothing changes there is only one thing to see. */
  lemma SeenInStill(traj: Trajectory, r: Outcome, path: Path, includeHash: bool, a: nat, b: nat)
    requires Seen(traj, r, path, includeHash, a, b) && Still(traj, a, b) && NamesExist(traj(a))
    ensures r == Direct(traj(a), path, includeHash)
  {
    if r.Missing? {
      var t: nat, u: nat :| a <= t <= u <= b && IsMissing(traj, path, t, u);
      assert traj(t) == traj(a) && traj(u) == traj(a);
    }
  }

  datatype Descriptor = Descriptor(ino: Ino, offset: nat)

  class World {
    const traj: Trajectory
    const limit: nat
    const pause: nat -> nat
    const readSize: nat -> nat
    var now: nat
    var calls: nat
    var descriptors: map<nat, Descriptor>
    var opens: nat
    var lastStat: nat

    constructor (traj: Trajectory, limit: nat, pause: nat -> nat, readSize: nat -> nat)
      requires Lawful(traj, limit)
      ensures Valid() && descriptors == map[] && opens == 0
    {
      this.traj, this.limit, this.pause, this.readSize := traj, limit, pause, readSize;
      now, calls, descriptors, opens, lastStat := 0, 0, map[], 0, 0;
    }

    ghost predicate Valid()
      reads this
    {
      && Lawful(traj, limit)
      && (forall fd :: fd in descriptors ==> fd < opens && descriptors[fd].ino in traj(now).inodes)
    }

    method Wait()
      requires Valid()
      modifies `now, `calls
      ensures Valid() && now >= old(now)
    {
      now, calls := now + pause(calls), calls + 1;
      forall fd | fd in descriptors
        ensures descriptors[fd].ino in traj(now).inodes
      {
        InodesPersist(traj, limit, descriptors[fd].ino, old(now), now);
      }
    }

    method Open(path: Path) returns (fd: Option<nat>)
      requires Valid()
      modifies `now, `calls, `descriptors, `opens
      ensures Valid() && now >= old(now)
      ensures fd.None? ==> path !in traj(now).names && descriptors == old(descriptors) && opens == old(opens)
      ensures fd.Some? ==> path in traj(now).names && fd.value == old(opens) && opens == old(opens) + 1
                           && descriptors == old(descriptors)[fd.value := Descriptor(traj(now).names[path], 0)]
    {
      Wait();
      if path !in traj(now).names {
        return None;
      }
      assert NamesExist(traj(now));
      fd := Some(opens);
      descriptors := descriptors[opens := Descriptor(traj(now).names[path], 0)];
      opens := opens + 1;
    }

    method Fstat(fd: nat) returns (sig: Signature)
      requires Valid() && fd in descriptors
      modifies `now, `calls
      ensures Valid() && now >= old(now)
      ensures sig == SignatureOf(descriptors[fd].ino, traj(now).inodes[descriptors[fd].ino])
    {
      Wait();
      var ino := descriptors[fd].ino;
      return SignatureOf(ino, traj(now).inodes[ino]);
    }

    method StatPath(path: Path) returns (sig: Option<Signature>)
      requires Valid()
      modifies `now, `calls, `lastStat
      ensures Valid() && now >= old(now) && lastStat == now
      ensures sig.None? <==> path !in traj(now).names
      ensures sig.Some? ==> traj(now).names[path] in traj(now).inodes
                            && sig.value == SignatureOf(traj(now).names[path], traj(now).inodes[traj(now).names[path]])
    {
      Wait();
      lastStat := now;
      assert NamesExist(traj(now));
      if path !in traj(now).names {
        return None;
      }
      var ino := traj(now).names[path];
      return Some(SignatureOf(ino, traj(now).inodes[ino]));
    }

    /** At the end of the content nothing; before it at least one byte and at most `max`. */
    method Read(fd: nat, max: nat) returns (chunk: seq<byte>)
      requires Valid() && fd in descriptors && max > 0
      modifies `now, `calls, `descriptors
      ensures Valid() && now >= old(now)
      ensures old(descriptors)[fd].ino in traj(now).inodes
      ensures var d := old(descriptors)[fd]; var content := traj(now).inodes[d.ino].content;
              && descriptors == old(descriptors)[fd := d.(offset := d.offset + |chunk|)]
              && (chunk == [] <==> |content| <= d.offset)
              && (chunk != [] ==> d.offset + |chunk| <= |content| && chunk == content[d.offset..d.offset + |chunk|])
    {
      var n := readSize(calls);
      Wait();
      var d := descriptors[fd];
      var content := traj(now).inodes[d.ino].content;
      if |content| <= d.offset {
        descriptors := descriptors[fd := d];
        return [];
      }
      var most := if |content| - d.offset < max then |content| - d.offset else max;
      var k := 1 + n % most;
      chunk := content[d.offset..d.offset + k];
      descriptors := descriptors[fd := d.(offset := d.offset + k)];
    }

    method Close(fd: nat)
      requires Valid()
      modifies `descriptors
      ensures Valid() && descriptors == old(descriptors) - {fd}
    {
      descriptors := descriptors - {fd};
    }

    /** The read loop: when nothing touches the file meanwhile, what it collects is the content. */
    method ReadAll(fd: nat, ghost start: nat) returns (data: seq<byte>)
      requires Valid() && fd in descriptors && descriptors[fd].offset == 0 && start <= now
      requires descriptors[fd].ino in traj(start).inodes
      modifies `now, `calls, `descriptors
      ensures Valid() && now >= old(now)
      ensures fd in descriptors && descriptors[fd].ino == old(descriptors[fd].ino)
      ensures descriptors - {fd} == old(descriptors) - {fd}
      ensures var ino := descriptors[fd].ino;
              Constant(traj, ino, start, now) ==> data == traj(start).inodes[ino].content
    {
      hide Lawful;
      data := [];
      ghost var ino := descriptors[fd].ino;
      ghost var content := traj(start).inodes[ino].content;
      ghost var others := descriptors - {fd};
      InLimit(start, ino);
      var done := false;
      while !done
        invariant Valid() && now >= old(now)
        invariant fd in descriptors && descriptors[fd].ino == ino && descriptors - {fd} == others
        invariant descriptors[fd].offset == |data| <= limit
        invariant Constant(traj, ino, start, now) ==> data <= content && (done ==> data == content)
        decreases !done, limit - |data|
      {
        ghost var before := now;
        var chunk := Read(fd, CHUNK_BYTES);
        assert Constant(traj, ino, start, now) ==> Constant(traj, ino, start, before);
        InLimit(now, ino);
        data := data + chunk;
        done := chunk == [];
      }
    }

    lemma InLimit(t: nat, ino: Ino)
      requires Lawful(traj, limit) && ino in traj(t).inodes
      ensures |traj(t).inodes[ino].content| <= limit
    {
      assert Bounded(traj(t), limit);
    }

    /** The moment and the file that an outcome of one attempt speaks of. */
    ghost predicate Explains(r: Outcome, path: Path, includeHash: bool, from: nat)
      requires Lawful(traj, limit)
      reads this
    {
      match r
      case Snapshot(mtime, hash) =>
        var fs := traj(lastStat);
        && from <= lastStat <= now && NamesExist(fs) && path in fs.names
        && fs.inodes[fs.names[path]].mode.Regular? && mtime == fs.inodes[fs.names[path]].mtime
        && hash == if includeHash then Some(Sha(fs.inodes[fs.names[path]].content)) else None
      case Missing =>
        exists t: nat, u: nat :: from <= t <= u <= now && IsMissing(traj, path, t, u)
      case Unstable => true
    }

    /** One attempt, from a fresh descriptor; None asks for another. */
    method Attempt(path: Path, includeHash: bool) returns (r: Option<Outcome>)
      requires Valid()
      modifies `now, `calls, `descriptors, `opens, `lastStat
      ensures Valid() && now >= old(now) && opens <= old(opens) + 1
      ensures descriptors == old(descriptors)
      ensures r.Some? ==> !r.value.Unstable? && Explains(r.value, path, includeHash, old(now))
      ensures Still(traj, old(now), now) ==>
              r.Some? && NamesExist(traj(old(now))) && r.value == Direct(traj(old(now)), path, includeHash)
    {
      hide Lawful;
      NamesAlwaysExist(now);
      var opening := Open(path);
      if opening.None? {
        assert IsMissing(traj, path, now, now);
        return Some(Missing);
      }
      var fd := opening.value;
      ghost var ino, openedAt := descriptors[fd].ino, now;
      var before := Fstat(fd);
      ghost var start := now;
      if before.mode.Irregular? {
        assert IsMissing(traj, path, openedAt, now);
        Close(fd);
        return Some(Missing);
      }
      var data: seq<byte> := [];
      if includeHash {
        data := ReadAll(fd, start);
      }
      var after := Fstat(fd);
      ghost var end := now;
      var atPath := StatPath(path);
      assert descriptors[fd].ino == ino;
      Close(fd);
      assert descriptors == old(descriptors);
      if atPath.None? {
        return None;
      }
      if before == after && after.ino == atPath.value.ino && after == atPath.value {
        SameSignatureMeansUntouched(traj, limit, ino, start, now);
        NamesAlwaysExist(now);
        return Some(Snapshot(after.mtime, if includeHash then Some(Sha(data)) else None));
      }
      return None;
    }

    lemma NamesAlwaysExist(t: nat)
      requires Lawful(traj, limit)
      ensures NamesExist(traj(t))
    {
    }

    /** The snapshot.  Whatever writes, renames and unlinks interleave with it, a returned snapshot is
        that of the file the path named at the moment of the last `os.stat`; every descriptor it
        opened is closed again, in at most three attempts.  It gives up only when each of the three was
        disturbed, and with a quiet file system it is the undisturbed look, in one attempt. */
    method SnapshotFile(path: Path, includeHash: bool) returns (r: Outcome)
      requires Valid()
      modifies `now, `calls, `descriptors, `opens, `lastStat
      ensures Valid() && descriptors == old(descriptors) && opens <= old(opens) + 3
      ensures Explains(r, path, includeHash, old(now))
      ensures r.Unstable? ==>
                exists a: nat, b: nat ::
                  old(now) <= a <= b <= now && !Still(traj, old(now), a) && !Still(traj, a, b) && !Still(traj, b, now)
      ensures !r.Unstable? ==> Seen(traj, r, path, includeHash, old(now), now) && old(now) <= now
      ensures Still(traj, old(now), now) ==>
              NamesExist(traj(old(now))) && r == Direct(traj(old(now)), path, includeHash)
      ensures Still(traj, old(now), now) ==> opens <= old(opens) + 1
    {
      ghost var starts := [now];
      for attempt := 0 to ATTEMPTS
        invariant |starts| == attempt + 1 && starts[0] == old(now) && starts[attempt] == now
        invariant forall i :: 0 <= i < attempt ==> starts[i] <= starts[i + 1] && !Still(traj, starts[i], starts[i + 1])
        invariant Valid() && now >= old(now) && descriptors == old(descriptors) && opens <= old(opens) + attempt
        invariant attempt > 0 ==> !Still(traj, old(now), now)
      {
        ghost var from := now;
        var one := Attempt(path, includeHash);
        if one.Some? {
          ExplainedFromEarlier(one.value, path, includeHash, old(now), from);
          return one.value;
        }
        starts := starts + [now];
      }
      assert starts[1] <= starts[2] && !Still(traj, starts[1], starts[2]);
      return Unstable;
    }

    lemma ExplainedFromEarlier(r: Outcome, path: Path, includeHash: bool, earlier: nat, from: nat)
      requires Lawful(traj, limit) && earlier <= from && Explains(r, path, includeHash, from)
      ensures Explains(r, path, includeHash, earlier)
    {
      if r.Missing? {
        var t: nat, u: nat :| from <= t <= u <= now && IsMissing(traj, path, t, u);
        assert earlier <= t <= u <= now && IsMissing(traj, path, t, u);
      }
    }
  }
}
