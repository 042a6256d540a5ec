/** `Store` of auth/store.go over the file system: every operation in the code's order,
    each system call free to fail, with the state after every system call recorded. */
module SecretsStore {
  import opened Options
  import opened CrashDisk

  datatype StoreError = LoadFailed | Rejected | CreateFailed | WriteFailed | SyncFailed | CloseFailed | RenameFailed | RemoveFailed

  /** Every recorded disk is sound and exposes nothing outside `allowed` to a crash. */
  ghost predicate Safe(trace: seq<Disk>, allowed: set<Option<Secrets>>) {
    forall k :: 0 <= k < |trace| ==> Fits(trace[k], allowed)
  }

  ghost predicate Fits(d: Disk, allowed: set<Option<Secrets>>) {
    Sound(d) && Exposed(d) <= allowed
  }

  lemma SafeMore(trace: seq<Disk>, more: seq<Disk>, allowed: set<Option<Secrets>>)
    requires Safe(trace, allowed) && Safe(more, allowed)
    ensures Safe(trace + more, allowed)
  {
  }

  lemma SafeWider(trace: seq<Disk>, allowed: set<Option<Secrets>>, wider: set<Option<Secrets>>)
    requires Safe(trace, allowed) && allowed <= wider
    ensures Safe(trace, wider)
  {
    forall k | 0 <= k < |trace| ensures Fits(trace[k], wider) {
      assert Fits(trace[k], allowed);
    }
  }

  /** Between (d0, t0) and (d, t) nothing but the temp file changed: the path's value and
      everything a crash could bring back are as before, at every recorded step. */
  ghost predicate Hidden(d0: Disk, t0: seq<Disk>, d: Disk, t: seq<Disk>) {
    && Sound(d0) && Sound(d)
    && Value(d) == Value(d0) && Exposed(d) == Exposed(d0)
    && t0 <= t && Safe(t[|t0|..], Exposed(d0))
  }

  /** What one mutating call guarantees. On an error only the temp file changed. On success
      the path holds `after`, a crash at any step in between leaves it with a complete value
      exposed before the call or with `after`, and what later crashes can bring back is
      `after` alone if the directory change is `durable`, otherwise also all that was
      exposed before. */
  ghost predicate Atomic(d0: Disk, t0: seq<Disk>, d: Disk, t: seq<Disk>, after: Option<Secrets>, err: Option<StoreError>, durable: bool) {
    if err.Some? then Hidden(d0, t0, d, t)
    else
      && Sound(d0) && Sound(d)
      && Value(d) == after && Exposed(d) == ExposedAfter(Exposed(d0), after, durable)
      && t0 <= t && Safe(t[|t0|..], Exposed(d0) + {after})
  }

  function ExposedAfter(exposed: set<Option<Secrets>>, after: Option<Secrets>, durable: bool): set<Option<Secrets>> {
    if durable then {after} else exposed + {after}
  }

  lemma TraceSplit(t0: seq<Disk>, t1: seq<Disk>, t: seq<Disk>)
    requires t0 <= t1 <= t
    ensures t[|t0|..] == t1[|t0|..] + t[|t1|..]
  {
  }

  lemma HiddenTrans(d0: Disk, t0: seq<Disk>, d1: Disk, t1: seq<Disk>, d: Disk, t: seq<Disk>)
    requires Hidden(d0, t0, d1, t1) && Hidden(d1, t1, d, t)
    ensures Hidden(d0, t0, d, t)
  {
    TraceSplit(t0, t1, t);
    SafeMore(t1[|t0|..], t[|t1|..], Exposed(d0));
  }

  /** Hidden preparation, then a publishing step. */
  lemma HiddenThenAtomic(d0: Disk, t0: seq<Disk>, d1: Disk, t1: seq<Disk>, d: Disk, t: seq<Disk>, after: Option<Secrets>, err: Option<StoreError>, durable: bool)
    requires Hidden(d0, t0, d1, t1) && Atomic(d1, t1, d, t, after, err, durable)
    ensures Atomic(d0, t0, d, t, after, err, durable)
  {
    if err.Some? {
      HiddenTrans(d0, t0, d1, t1, d, t);
    } else {
      TraceSplit(t0, t1, t);
      SafeWider(t1[|t0|..], Exposed(d0), Exposed(d0) + {after});
      SafeMore(t1[|t0|..], t[|t1|..], Exposed(d0) + {after});
    }
  }

  datatype SysCall = OpenCall | WriteCall | SyncCall | CloseCall | RenameCall | RemoveTmpCall | SyncDirCall | RemoveCall | ReadCall

  /** The first failure decides what a save returns; a failed directory sync or removal of
      the temp file is ignored. */
  function SaveError(failed: set<SysCall>): Option<StoreError> {
    if OpenCall in failed then Some(CreateFailed)
    else if WriteCall in failed then Some(WriteFailed)
    else if SyncCall in failed then Some(SyncFailed)
    else if CloseCall in failed then Some(CloseFailed)
    else if RenameCall in failed then Some(RenameFailed)
    else None
  }

  /** A failed save removes the temp file it had created, unless that fails too. */
  ghost predicate NoLeftover(d: Disk, failed: set<SysCall>, err: Option<StoreError>) {
    err.Some? && err != Some(CreateFailed) && RemoveTmpCall !in failed ==> |d.dirs| > 0 && Current(d).tmp.None?
  }

  /** What a save promises besides `Atomic`: it returns the error of its first failing call,
      succeeds when there is none, is then durable exactly when the directory sync did not
      fail, and leaves no temp file behind. */
  ghost predicate Accounted(d: Disk, failed: set<SysCall>, err: Option<StoreError>, durable: bool) {
    && err == SaveError(failed) && ReadCall !in failed
    && (durable <==> err.None? && SyncDirCall !in failed)
    && NoLeftover(d, failed, err)
    && (err.None? ==> |d.dirs| > 0 && Current(d).tmp.None?)
  }

  /** When no call fails a save succeeds, and only the new value can come back. */
  lemma NothingFailed(d0: Disk, t0: seq<Disk>, d: Disk, t: seq<Disk>, failed: set<SysCall>, after: Option<Secrets>, err: Option<StoreError>, durable: bool)
    requires Atomic(d0, t0, d, t, after, err, durable) && Accounted(d, failed, err, durable) && failed == {}
    ensures err == None && Sound(d) && Value(d) == after && CrashesFind(d, {after})
  {
    CrashesFindIff(d, {after});
  }

  /** The secrets directory. `trace` records the disk after each system call, and `failed`
      the calls that failed since the current operation of the store began. */
  class FileSystem {
    var disk: Disk
    ghost var trace: seq<Disk>
    ghost var failed: set<SysCall>

    constructor (d: Disk)
      ensures disk == d && trace == [] && failed == {}
    {
      disk := d;
      trace := [];
      failed := {};
    }

    ghost method Begin()
      modifies this`failed
      ensures failed == {}
    {
      failed := {};
    }

    /** Note whether a call failed. */
    ghost method Note(call: SysCall, ok: bool)
      modifies this`failed
      ensures failed == old(failed) + (if ok then {} else {call})
    {
      failed := failed + (if ok then {} else {call});
    }

    method OpenTmp() returns (ok: bool)
      requires Sound(disk)
      modifies this
      ensures disk == if ok then CrashDisk.OpenTmp(old(disk)) else old(disk)
      ensures trace == old(trace) + [disk]
      ensures failed == old(failed) + (if ok then {} else {OpenCall})
    {
      ok := *;
      if ok {
        disk := CrashDisk.OpenTmp(disk);
      }
      trace := trace + [disk];
      Note(OpenCall, ok);
    }

    /** A write first tears the file, then completes or fails part-way. */
    method Write(v: Secrets) returns (ok: bool)
      requires Sound(disk) && Current(disk).tmp.Some?
      modifies this
      ensures disk == WriteTmp(old(disk), if ok then Complete(v) else Partial)
      ensures trace == old(trace) + [WriteTmp(old(disk), Partial), disk]
      ensures failed == old(failed) + (if ok then {} else {WriteCall})
    {
      ok := *;
      trace := trace + [WriteTmp(disk, Partial)];
      disk := WriteTmp(disk, if ok then Complete(v) else Partial);
      trace := trace + [disk];
      Note(WriteCall, ok);
    }

    method SyncFile() returns (ok: bool)
      requires Sound(disk) && Current(disk).tmp.Some?
      modifies this
      ensures disk == if ok then SyncTmp(old(disk)) else old(disk)
      ensures trace == old(trace) + [disk]
      ensures failed == old(failed) + (if ok then {} else {SyncCall})
    {
      ok := *;
      if ok {
        disk := SyncTmp(disk);
      }
      trace := trace + [disk];
      Note(SyncCall, ok);
    }

    method CloseFile() returns (ok: bool)
      modifies this`failed
      ensures failed == old(failed) + (if ok then {} else {CloseCall})
    {
      ok := *;
      Note(CloseCall, ok);
    }

    method Rename() returns (ok: bool)
      requires Sound(disk) && Current(disk).tmp.Some?
      modifies this
      ensures disk == if ok then CrashDisk.Rename(old(disk)) else old(disk)
      ensures trace == old(trace) + [disk]
      ensures failed == old(failed) + (if ok then {} else {RenameCall})
    {
      ok := *;
      if ok {
        disk := CrashDisk.Rename(disk);
      }
      trace := trace + [disk];
      Note(RenameCall, ok);
    }

    method RemoveTmp() returns (ok: bool)
      requires Sound(disk)
      modifies this
      ensures disk == if ok then CrashDisk.RemoveTmp(old(disk)) else old(disk)
      ensures trace == old(trace) + [disk]
      ensures failed == old(failed) + (if ok then {} else {RemoveTmpCall})
    {
      ok := *;
      if ok {
        disk := CrashDisk.RemoveTmp(disk);
      }
      trace := trace + [disk];
      Note(RemoveTmpCall, ok);
    }

    /** Removing an absent path reports not-exist and changes nothing. */
    method RemovePath() returns (ok: bool, notExist: bool)
      requires Sound(disk)
      modifies this
      ensures notExist <==> old(Current(disk)).path.None?
      ensures disk == if ok && !notExist then CrashDisk.RemovePath(old(disk)) else old(disk)
      ensures trace == old(trace) + [disk]
      ensures failed == old(failed) + (if ok || notExist then {} else {RemoveCall})
    {
      notExist := Current(disk).path.None?;
      ok := *;
      if ok && !notExist {
        disk := CrashDisk.RemovePath(disk);
      }
      trace := trace + [disk];
      Note(RemoveCall, ok || notExist);
    }

    method SyncDir() returns (ok: bool)
      requires Sound(disk)
      modifies this
      ensures disk == if ok then CrashDisk.SyncDir(old(disk)) else old(disk)
      ensures trace == old(trace) + [disk]
      ensures failed == old(failed) + (if ok then {} else {SyncDirCall})
    {
      ok := *;
      if ok {
        disk := CrashDisk.SyncDir(disk);
      }
      trace := trace + [disk];
      Note(SyncDirCall, ok);
    }

    /** Read and parse the secrets path; None when it does not exist. */
    method ReadPath() returns (r: Result<Option<Secrets>, StoreError>)
      requires Sound(disk)
      modifies this`failed
      ensures r.Ok? ==> r.value == Value(disk)
      ensures r.Err? ==> r.error == LoadFailed
      ensures failed == old(failed) + (if r.Ok? then {} else {ReadCall})
    {
      var ok: bool := *;
      Note(ReadCall, ok);
      if !ok {
        return Err(LoadFailed);
      }
      assert Solid(disk, disk.dirs[|disk.dirs| - 1]);
      return Ok(Held(disk, Current(disk)));
    }
  }

  /** The function given to `Update`; None is an error return. */
  type UpdateFn = Secrets -> Option<Secrets>

  class Store {
    const fs: FileSystem

    constructor (fs: FileSystem)
      ensures this.fs == fs
    {
      this.fs := fs;
    }

    /** Failure path: remove the temp file and report. */
    method CleanUp()
      requires Sound(fs.disk)
      modifies fs
      ensures Hidden(old(fs.disk), old(fs.trace), fs.disk, fs.trace)
      ensures RemoveTmpCall in fs.failed || Current(fs.disk).tmp.None?
      ensures fs.failed == old(fs.failed) || fs.failed == old(fs.failed) + {RemoveTmpCall}
    {
      RemoveTmpSound(fs.disk);
      var _ := fs.RemoveTmp();
      assert fs.trace[|old(fs.trace)|..] == [fs.disk];
    }

    method CreateTmp() returns (ok: bool)
      requires Sound(fs.disk)
      modifies fs
      ensures Hidden(old(fs.disk), old(fs.trace), fs.disk, fs.trace) && (ok ==> Current(fs.disk).tmp.Some?)
      ensures fs.failed == old(fs.failed) + (if ok then {} else {OpenCall})
    {
      OpenTmpSound(fs.disk);
      ok := fs.OpenTmp();
      assert fs.trace[|old(fs.trace)|..] == [fs.disk];
    }

    method FillTmp(secrets: Secrets) returns (ok: bool)
      requires Sound(fs.disk) && Current(fs.disk).tmp.Some?
      modifies fs
      ensures Hidden(old(fs.disk), old(fs.trace), fs.disk, fs.trace) && Current(fs.disk).tmp.Some? && Current(fs.disk).tmp.value in fs.disk.files
      ensures ok ==> fs.disk.files[Current(fs.disk).tmp.value].data == Complete(secrets)
      ensures fs.failed == old(fs.failed) + (if ok then {} else {WriteCall})
    {
      ghost var torn := WriteTmp(fs.disk, Partial);
      WriteTmpSound(fs.disk, Partial);
      WriteTmpSound(fs.disk, Complete(secrets));
      ok := fs.Write(secrets);
      assert fs.trace[|old(fs.trace)|..] == [torn, fs.disk];
    }

    method SyncTmpFile() returns (ok: bool)
      requires Sound(fs.disk) && Current(fs.disk).tmp.Some?
      modifies fs
      ensures Hidden(old(fs.disk), old(fs.trace), fs.disk, fs.trace) && Current(fs.disk) == old(Current(fs.disk))
      ensures Current(fs.disk).tmp.value in fs.disk.files && Current(fs.disk).tmp.value in old(fs.disk.files)
      ensures ok ==> fs.disk.files[Current(fs.disk).tmp.value] ==
                     old(fs.disk.files)[Current(fs.disk).tmp.value].(synced := true)
      ensures fs.failed == old(fs.failed) + (if ok then {} else {SyncCall})
    {
      SyncTmpSound(fs.disk);
      ok := fs.SyncFile();
      assert fs.trace[|old(fs.trace)|..] == [fs.disk];
    }

    /** The temp file ready to be renamed. */
    ghost predicate Ready(secrets: Secrets)
      reads fs
    {
      && Sound(fs.disk)
      && Current(fs.disk).tmp.Some? && Current(fs.disk).tmp.value in fs.disk.files
      && fs.disk.files[Current(fs.disk).tmp.value] == File(Complete(secrets), true)
    }

    /** Rename over the path, then sync the directory, whose errors are ignored: `durable`
        says whether that sync went through. */
    method Publish(secrets: Secrets) returns (ok: bool, ghost durable: bool)
      requires Ready(secrets)
      modifies fs
      ensures Atomic(old(fs.disk), old(fs.trace), fs.disk, fs.trace, Some(secrets), if ok then None else Some(RenameFailed), durable)
      ensures fs.failed == old(fs.failed) + (if !ok then {RenameCall} else if durable then {} else {SyncDirCall})
      ensures ok ==> Current(fs.disk).tmp.None?
    {
      RenameSound(fs.disk, secrets);
      durable := false;
      ok := fs.Rename();
      ghost var renamed := fs.disk;
      if ok {
        SyncDirSound(fs.disk);
        var synced := fs.SyncDir();
        durable := synced;
        assert fs.trace[|old(fs.trace)|..] == [renamed, fs.disk];
      } else {
        assert fs.trace[|old(fs.trace)|..] == [fs.disk];
      }
    }

    /** Create, write, sync and close the temp file, removing it on a later failure. */
    method WriteTempFile(secrets: Secrets) returns (err: Option<StoreError>)
      requires Sound(fs.disk)
      modifies fs
      ensures Hidden(old(fs.disk), old(fs.trace), fs.disk, fs.trace) && (err.None? ==> Ready(secrets) && fs.failed == old(fs.failed))
      ensures old(fs.failed) == {} ==> err == SaveError(fs.failed) && ReadCall !in fs.failed
      ensures NoLeftover(fs.disk, fs.failed, err)
    {
      ghost var d0, t0 := fs.disk, fs.trace;
      var created := CreateTmp();
      if !created {
        return Some(CreateFailed);
      }
      ghost var d1, t1 := fs.disk, fs.trace;
      var written := FillTmp(secrets);
      HiddenTrans(d0, t0, d1, t1, fs.disk, fs.trace);
      ghost var d2, t2 := fs.disk, fs.trace;
      if !written {
        var _ := fs.CloseFile();
        CleanUp();
        HiddenTrans(d0, t0, d2, t2, fs.disk, fs.trace);
        return Some(WriteFailed);
      }
      var synced := SyncTmpFile();
      HiddenTrans(d0, t0, d2, t2, fs.disk, fs.trace);
      ghost var d3, t3 := fs.disk, fs.trace;
      var closed := fs.CloseFile();
      if !synced || !closed {
        CleanUp();
        HiddenTrans(d0, t0, d3, t3, fs.disk, fs.trace);
        err := if !synced then Some(SyncFailed) else Some(CloseFailed);
        return;
      }
      return None;
    }

    method SaveLocked(secrets: Secrets) returns (err: Option<StoreError>, ghost durable: bool)
      requires Sound(fs.disk) && fs.failed == {}
      modifies fs
      ensures Atomic(old(fs.disk), old(fs.trace), fs.disk, fs.trace, Some(secrets), err, durable)
      ensures Accounted(fs.disk, fs.failed, err, durable)
    {
      ghost var d0, t0 := fs.disk, fs.trace;
      durable := false;
      err := WriteTempFile(secrets);
      if err.Some? {
        return;
      }
      ghost var d1, t1 := fs.disk, fs.trace;
      var renamed;
      renamed, durable := Publish(secrets);
      err := if renamed then None else Some(RenameFailed);
      HiddenThenAtomic(d0, t0, d1, t1, fs.disk, fs.trace, Some(secrets), err, durable);
      if !renamed {
        ghost var d2, t2 := fs.disk, fs.trace;
        durable := false;
        CleanUp();
        HiddenTrans(d0, t0, d2, t2, fs.disk, fs.trace);
      }
    }

    method Load() returns (r: Result<Option<Secrets>, StoreError>)
      requires Sound(fs.disk)
      modifies fs`failed
      ensures r.Ok? ==> r.value == Value(fs.disk)
      ensures r.Err? <==> ReadCall in fs.failed
    {
      fs.Begin();
      r := fs.ReadPath();
    }

    method Save(secrets: Secrets) returns (err: Option<StoreError>, ghost durable: bool)
      requires Sound(fs.disk)
      modifies fs
      ensures Atomic(old(fs.disk), old(fs.trace), fs.disk, fs.trace, Some(secrets), err, durable)
      ensures Accounted(fs.disk, fs.failed, err, durable)
    {
      fs.Begin();
      err, durable := SaveLocked(secrets);
    }

    /** Read-modify-write: `fn` sees exactly the stored value (or the empty record), and what
        is stored is exactly what it returned; its error stores nothing. */
    method Update(fn: UpdateFn) returns (err: Option<StoreError>, ghost durable: bool)
      requires Sound(fs.disk)
      modifies fs
      ensures var seen := match old(Value(fs.disk)) case None => EMPTY case Some(s) => s;
              if fn(seen).Some? then Atomic(old(fs.disk), old(fs.trace), fs.disk, fs.trace, fn(seen), err, durable)
              else err.Some? && fs.disk == old(fs.disk) && fs.trace == old(fs.trace)
      ensures var seen := match old(Value(fs.disk)) case None => EMPTY case Some(s) => s;
              if ReadCall in fs.failed then err == Some(LoadFailed)
              else if fn(seen).None? then err == Some(Rejected)
              else Accounted(fs.disk, fs.failed, err, durable)
    {
      fs.Begin();
      durable := false;
      var loaded := fs.ReadPath();
      if loaded.Err? {
        err := Some(loaded.error);
        return;
      }
      var secrets := match loaded.value case None => EMPTY case Some(s) => s;
      var updated := fn(secrets);
      if updated.None? {
        err := Some(Rejected);
        return;
      }
      err, durable := SaveLocked(updated.value);
    }

    /** Removes the path without syncing the directory, so its success is never durable. */
    method Clear() returns (err: Option<StoreError>)
      requires Sound(fs.disk)
      modifies fs
      ensures Atomic(old(fs.disk), old(fs.trace), fs.disk, fs.trace, None, err, false)
      ensures err == if RemoveCall in fs.failed then Some(RemoveFailed) else None
    {
      fs.Begin();
      RemovePathSound(fs.disk);
      CurrentExposed(fs.disk);
      var ok, notExist := fs.RemovePath();
      assert fs.trace[|old(fs.trace)|..] == [fs.disk];
      if !ok && !notExist {
        return Some(RemoveFailed);
      }
      return None;
    }
  }

  // ---------- reading the guarantee at a crash ----------

  /** The states a crash may hit during a call: the one before its first system call, and
      those its system calls left. */
  ghost function Hits(d0: Disk, t0: seq<Disk>, t: seq<Disk>): seq<Disk>
    requires t0 <= t
  {
    [d0] + t[|t0|..]
  }

  /** Whatever the outcome of a call, every crash during it finds the value before the call
      or the new one, if and only if nothing else was exposed when the call began. */
  lemma CrashFindsOldOrNew(d0: Disk, t0: seq<Disk>, d: Disk, t: seq<Disk>, after: Option<Secrets>, err: Option<StoreError>, durable: bool)
    requires Atomic(d0, t0, d, t, after, err, durable)
    ensures (forall k :: 0 <= k < |Hits(d0, t0, t)| ==> CrashesFind(Hits(d0, t0, t)[k], {Value(d0), after}))
            <==> Exposed(d0) <= {Value(d0), after}
  {
    var hits, wanted := Hits(d0, t0, t), {Value(d0), after};
    CrashesFindIff(d0, wanted);
    assert hits[0] == d0;
    forall k | 0 <= k < |hits| ensures Sound(hits[k]) && Exposed(hits[k]) <= Exposed(d0) + {after} {
      assert k > 0 ==> Fits(t[|t0|..][k - 1], if err.Some? then Exposed(d0) else Exposed(d0) + {after});
    }
    if Exposed(d0) <= wanted {
      forall k | 0 <= k < |hits| ensures CrashesFind(hits[k], wanted) {
        CrashesFindIff(hits[k], wanted);
      }
    }
  }

  /** One call of Save, Update or Clear, with the disks and records around it. */
  datatype Called = Called(d0: Disk, t0: seq<Disk>, d: Disk, t: seq<Disk>, after: Option<Secrets>, err: Option<StoreError>, durable: bool)

  /** Calls made one after the other. */
  ghost predicate Chained(calls: seq<Called>) {
    && (forall k :: 0 <= k < |calls| ==> Kept(calls[k]))
    && forall k :: 0 < k < |calls| ==> calls[k].d0 == calls[k - 1].d
  }

  ghost predicate Kept(c: Called) {
    Atomic(c.d0, c.t0, c.d, c.t, c.after, c.err, c.durable)
  }

  predicate Durable(c: Called) {
    c.err.None? && c.durable
  }

  /** Call i is the last durable one; -1 when there is none. */
  predicate LastDurable(calls: seq<Called>, i: int) {
    && -1 <= i < |calls| && (i >= 0 ==> Durable(calls[i]))
    && forall j :: i < j < |calls| ==> !Durable(calls[j])
  }

  predicate Stores(c: Called, v: Option<Secrets>) {
    c.err.None? && c.after == v
  }

  /** Some call from i on stored v. */
  predicate StoredSince(calls: seq<Called>, i: int, v: Option<Secrets>) {
    exists j :: 0 <= j < |calls| && i <= j && Stores(calls[j], v)
  }

  /** What these calls leave exposed of what was; failed calls change nothing. */
  function ExposedBy(exposed: set<Option<Secrets>>, calls: seq<Called>): set<Option<Secrets>> {
    if |calls| == 0 then exposed
    else
      var before, c := ExposedBy(exposed, calls[..|calls| - 1]), calls[|calls| - 1];
      if c.err.Some? then before else ExposedAfter(before, c.after, c.durable)
  }

  lemma {:induction false} ChainExposes(calls: seq<Called>)
    requires |calls| > 0 && Chained(calls)
    ensures Sound(calls[0].d0) && Sound(calls[|calls| - 1].d)
    ensures Exposed(calls[|calls| - 1].d) == ExposedBy(Exposed(calls[0].d0), calls)
  {
    var n := |calls| - 1;
    assert Kept(calls[n]);
    if n > 0 {
      assert Chained(calls[..n]);
      ChainExposes(calls[..n]);
    } else {
      assert ExposedBy(Exposed(calls[0].d0), calls[..0]) == Exposed(calls[0].d0);
    }
  }

  lemma {:induction false} ExposedByExact(exposed: set<Option<Secrets>>, calls: seq<Called>, i: int, v: Option<Secrets>)
    requires LastDurable(calls, i)
    ensures v in ExposedBy(exposed, calls) <==> (i == -1 && v in exposed) || StoredSince(calls, i, v)
  {
    if |calls| > 0 {
      var front, c := calls[..|calls| - 1], calls[|calls| - 1];
      assert calls == front + [c];
      StoredSinceSnoc(front, c, i, v);
      if i < |front| {
        ExposedByExact(exposed, front, i, v);
      }
    }
  }

  lemma StoredSinceSnoc(calls: seq<Called>, c: Called, i: int, v: Option<Secrets>)
    requires i <= |calls|
    ensures StoredSince(calls + [c], i, v) <==> StoredSince(calls, i, v) || Stores(c, v)
  {
    assert Stores(c, v) ==> Stores((calls + [c])[|calls|], v);
    assert forall j :: 0 <= j < |calls| ==> (calls + [c])[j] == calls[j];
  }

  /** After any sequence of calls a crash can bring back exactly the values stored by the
      last durable call and by the successful calls since; with no durable call, also what
      was exposed at the beginning. */
  lemma ExposedSinceDurable(calls: seq<Called>, i: int, v: Option<Secrets>)
    requires |calls| > 0 && Chained(calls) && LastDurable(calls, i)
    ensures Sound(calls[0].d0) && Sound(calls[|calls| - 1].d)
    ensures v in Exposed(calls[|calls| - 1].d) <==> (i == -1 && v in Exposed(calls[0].d0)) || StoredSince(calls, i, v)
  {
    ChainExposes(calls);
    ExposedByExact(Exposed(calls[0].d0), calls, i, v);
  }

  // ---------- why durability is needed ----------

  /** The disk after a save all of whose system calls succeed, except the directory sync
      when not `synced`. */
  ghost function Saved(d: Disk, v: Secrets, synced: bool): (e: Disk)
    requires Sound(d)
    ensures Sound(e) && Value(e) == Some(v) && Exposed(e) == ExposedAfter(Exposed(d), Some(v), synced)
  {
    OpenTmpSound(d);
    WriteTmpSound(OpenTmp(d), Complete(v));
    var written := WriteTmp(OpenTmp(d), Complete(v));
    SyncTmpSound(written);
    RenameSound(SyncTmp(written), v);
    var renamed := CrashDisk.Rename(SyncTmp(written));
    SyncDirSound(renamed);
    if synced then SyncDir(renamed) else renamed
  }

  /** What was exposed stays exposed through a save that is not durable. */
  lemma OldStaysExposed(d: Disk, b: Secrets, v: Option<Secrets>, allowed: set<Option<Secrets>>)
    requires Sound(d) && v in Exposed(d) && v !in allowed
    ensures !CrashesFind(Saved(d, b, false), allowed)
  {
    var e := Saved(d, b, false);
    assert v in Exposed(e);
    CrashesFindIff(e, allowed);
  }

  /** A save whose directory sync failed (an error the code ignores), another save, then a
      crash: the restart may find what was stored before both, neither old nor new. */
  lemma UnsyncedSaveThenCrash(d: Disk, a: Secrets, b: Secrets)
    requires Sound(d) && Value(d) !in {Some(a), Some(b)}
    ensures !CrashesFind(Saved(Saved(d, a, false), b, false), {Some(a), Some(b)})
  {
    CurrentExposed(d);
    var e := Saved(d, a, false);
    assert Value(d) in Exposed(e);
    OldStaysExposed(e, b, Value(d), {Some(a), Some(b)});
  }

  /** The same after a clear, which never syncs the directory. */
  lemma ClearThenCrash(d: Disk, b: Secrets)
    requires Sound(d) && Value(d) !in {None, Some(b)}
    ensures Sound(RemovePath(d)) && !CrashesFind(Saved(RemovePath(d), b, false), {None, Some(b)})
  {
    CurrentExposed(d);
    RemovePathSound(d);
    OldStaysExposed(RemovePath(d), b, Value(d), {None, Some(b)});
  }
}
