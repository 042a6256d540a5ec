/** The part of a file system that auth/store.go relies on: one directory holding the
    secrets path and its temp file, files whose unsynced data a crash may tear, atomic
    renames, and directory changes that become durable with a directory sync. */
module CrashDisk {
  import opened Options

  /** The stored credentials, as the source's record. */
  datatype Secrets = Secrets(
    oauthToken: string, aasToken: string, username: string,
    sharedKey: string, ownerKey: string,
    fcmCredentials: string, mapsCookies: string)

  const EMPTY := Secrets("", "", "", "", "", "", "")

  /** File contents: a whole marshalled record, or anything else. */
  datatype Data = Complete(secrets: Secrets) | Partial

  type Ino = nat

  datatype File = File(data: Data, synced: bool)

  datatype Dir = Dir(path: Option<Ino>, tmp: Option<Ino>)

  /** `dirs` lists the directory states since the last directory sync, the current one last;
      a crash may fall back to any of them. Files below `next` exist. */
  datatype Disk = Disk(dirs: seq<Dir>, files: map<Ino, File>, next: Ino)

  ghost predicate Wellformed(d: Disk) {
    && |d.dirs| > 0
    && (forall i: Ino :: i in d.files <==> i < d.next)
    && (forall k :: 0 <= k < |d.dirs| ==> Bound(d, d.dirs[k].path) && Bound(d, d.dirs[k].tmp))
  }

  predicate Bound(d: Disk, name: Option<Ino>) {
    name.Some? ==> name.value in d.files
  }

  function Current(d: Disk): Dir
    requires |d.dirs| > 0
  {
    d.dirs[|d.dirs| - 1]
  }

  // ---------- operations, when they succeed ----------

  /** Open the temp file with create and truncate. */
  function OpenTmp(d: Disk): Disk
    requires |d.dirs| > 0
  {
    var dir := Current(d);
    if dir.tmp.Some? then d.(files := d.files[dir.tmp.value := File(Partial, false)])
    else Disk(d.dirs + [dir.(tmp := Some(d.next))], d.files[d.next := File(Partial, false)], d.next + 1)
  }

  /** The temp file's contents become `data`, not yet synced. */
  function WriteTmp(d: Disk, data: Data): Disk
    requires |d.dirs| > 0 && Current(d).tmp.Some?
  {
    d.(files := d.files[Current(d).tmp.value := File(data, false)])
  }

  function SyncTmp(d: Disk): Disk
    requires Wellformed(d) && Current(d).tmp.Some?
  {
    assert Bound(d, d.dirs[|d.dirs| - 1].tmp);
    var i := Current(d).tmp.value;
    d.(files := d.files[i := d.files[i].(synced := true)])
  }

  function Rename(d: Disk): Disk
    requires |d.dirs| > 0 && Current(d).tmp.Some?
  {
    d.(dirs := d.dirs + [Dir(Current(d).tmp, None)])
  }

  function RemoveTmp(d: Disk): Disk
    requires |d.dirs| > 0
  {
    d.(dirs := d.dirs + [Current(d).(tmp := None)])
  }

  function RemovePath(d: Disk): Disk
    requires |d.dirs| > 0
  {
    d.(dirs := d.dirs + [Current(d).(path := None)])
  }

  function SyncDir(d: Disk): Disk
    requires |d.dirs| > 0
  {
    d.(dirs := [Current(d)])
  }

  // ---------- crashes ----------

  /** c is what a restart after a crash may find: some directory state since the last sync,
      synced data intact, unsynced data arbitrary. */
  ghost predicate CrashOf(d: Disk, c: Disk) {
    && |c.dirs| == 1 && c.dirs[0] in d.dirs
    && c.next == d.next && c.files.Keys == d.files.Keys
    && forall i :: i in d.files ==> c.files[i].synced && (d.files[i].synced ==> c.files[i] == d.files[i])
  }

  /** A binding of the secrets path is to a complete, synced file. */
  predicate Solid(d: Disk, dir: Dir) {
    dir.path.Some? ==>
      && dir.path.value in d.files
      && d.files[dir.path.value].synced
      && d.files[dir.path.value].data.Complete?
      && dir.tmp != dir.path
  }

  /** In every directory state a crash could expose, the path is solid, and the temp file
      now being written is not bound to the path in any of them. */
  ghost predicate Sound(d: Disk) {
    && Wellformed(d)
    && forall k :: 0 <= k < |d.dirs| ==>
         Solid(d, d.dirs[k]) && (Current(d).tmp.Some? ==> d.dirs[k].path != Current(d).tmp)
  }

  /** The secrets the path holds; None when it does not exist. */
  function Held(d: Disk, dir: Dir): Option<Secrets>
    requires Solid(d, dir)
  {
    if dir.path.None? then None else Some(d.files[dir.path.value].data.secrets)
  }

  ghost function Value(d: Disk): Option<Secrets>
    requires Sound(d)
  {
    Held(d, Current(d))
  }

  /** Everything a crash could bring back. */
  ghost function Exposed(d: Disk): set<Option<Secrets>>
    requires Sound(d)
  {
    set k | 0 <= k < |d.dirs| :: Held(d, d.dirs[k])
  }

  lemma CurrentExposed(d: Disk)
    requires Sound(d)
    ensures Value(d) in Exposed(d)
  {
    assert Solid(d, d.dirs[|d.dirs| - 1]);
  }

  /** After any crash the path holds one of the exposed values, complete, and the disk is
      sound again, leftover temp file included. */
  lemma CrashKeepsValue(d: Disk, c: Disk)
    requires Sound(d) && CrashOf(d, c)
    ensures Sound(c) && Value(c) in Exposed(d) && Exposed(c) == {Value(c)}
  {
    var k :| 0 <= k < |d.dirs| && d.dirs[k] == c.dirs[0];
    assert Solid(d, d.dirs[k]);
    assert forall j :: 0 <= j < |c.dirs| ==> c.dirs[j] == d.dirs[k];
    assert Held(c, c.dirs[0]) == Held(d, d.dirs[k]);
    assert forall j :: 0 <= j < |c.dirs| ==> Held(c, c.dirs[j]) == Value(c);
    assert Held(c, c.dirs[0]) in Exposed(c);
  }

  /** The restart that falls back to directory state k, unsynced files left as they were. */
  function Fallback(d: Disk, k: nat): Disk
    requires k < |d.dirs|
  {
    Disk([d.dirs[k]], map i | i in d.files :: d.files[i].(synced := true), d.next)
  }

  /** Every exposed value really is found by some crash. */
  lemma ExposedIsFound(d: Disk, v: Option<Secrets>)
    requires Sound(d) && v in Exposed(d)
    ensures exists c :: CrashOf(d, c) && Sound(c) && Value(c) == v
  {
    var k :| 0 <= k < |d.dirs| && v == Held(d, d.dirs[k]);
    var c := Fallback(d, k);
    CrashKeepsValue(d, c);
    assert Solid(d, d.dirs[k]) && Held(c, c.dirs[0]) == v;
  }

  /** Every restart after a crash of d finds one of `allowed`. */
  ghost predicate CrashesFind(d: Disk, allowed: set<Option<Secrets>>) {
    forall c :: CrashOf(d, c) ==> Sound(c) && Value(c) in allowed
  }

  /** What crashes can find is exactly what is exposed. */
  lemma CrashesFindIff(d: Disk, allowed: set<Option<Secrets>>)
    requires Sound(d)
    ensures CrashesFind(d, allowed) <==> Exposed(d) <= allowed
  {
    forall c | CrashOf(d, c) ensures Sound(c) && Value(c) in Exposed(d) {
      CrashKeepsValue(d, c);
    }
    forall v | v in Exposed(d) ensures CrashesFind(d, allowed) ==> v in allowed {
      ExposedIsFound(d, v);
    }
  }

  // ---------- what the operations keep ----------

  /** Same bindings, and the files bound to the path untouched. */
  lemma TmpContentsHidden(d: Disk, e: Disk)
    requires Sound(d) && Current(d).tmp.Some?
    requires e.dirs == d.dirs && e.next == d.next && e.files.Keys == d.files.Keys
    requires forall i :: i in d.files && Some(i) != Current(d).tmp ==> e.files[i] == d.files[i]
    ensures Sound(e) && Value(e) == Value(d) && Exposed(e) == Exposed(d)
  {
    forall k | 0 <= k < |d.dirs|
      ensures Solid(e, e.dirs[k]) && Held(e, e.dirs[k]) == Held(d, d.dirs[k])
    {
      assert Solid(d, d.dirs[k]) && d.dirs[k].path != Current(d).tmp;
    }
    assert Exposed(e) == Exposed(d);
  }

  lemma OpenTmpSound(d: Disk)
    requires Sound(d)
    ensures var e := OpenTmp(d);
      && Sound(e) && Current(e).tmp.Some? && Value(e) == Value(d) && Exposed(e) == Exposed(d)
  {
    var e := OpenTmp(d);
    if Current(d).tmp.Some? {
      assert Bound(d, d.dirs[|d.dirs| - 1].tmp);
      TmpContentsHidden(d, e);
    } else {
      assert Solid(d, Current(d));
      forall k | 0 <= k < |e.dirs|
        ensures Solid(e, e.dirs[k]) && e.dirs[k].path != Some(d.next) && Bound(e, e.dirs[k].tmp)
        ensures Held(e, e.dirs[k]) == Held(d, if k < |d.dirs| then d.dirs[k] else Current(d))
      {
        assert Solid(d, if k < |d.dirs| then d.dirs[k] else Current(d));
        assert Bound(d, if k < |d.dirs| then d.dirs[k].tmp else None);
      }
      assert forall k :: 0 <= k < |d.dirs| ==> Held(d, d.dirs[k]) == Held(e, e.dirs[k]);
    }
  }

  lemma WriteTmpSound(d: Disk, data: Data)
    requires Sound(d) && Current(d).tmp.Some?
    ensures var e := WriteTmp(d, data);
      && Sound(e) && Current(e) == Current(d) && Value(e) == Value(d) && Exposed(e) == Exposed(d)
      && Current(e).tmp.value in e.files && e.files[Current(e).tmp.value] == File(data, false)
  {
    assert Bound(d, d.dirs[|d.dirs| - 1].tmp);
    TmpContentsHidden(d, WriteTmp(d, data));
  }

  lemma SyncTmpSound(d: Disk)
    requires Sound(d) && Current(d).tmp.Some?
    ensures var e := SyncTmp(d);
      && Sound(e) && Current(e) == Current(d) && Value(e) == Value(d) && Exposed(e) == Exposed(d)
      && Current(e).tmp.value in d.files && Current(e).tmp.value in e.files
      && e.files[Current(e).tmp.value] == d.files[Current(e).tmp.value].(synced := true)
  {
    assert Bound(d, d.dirs[|d.dirs| - 1].tmp);
    TmpContentsHidden(d, SyncTmp(d));
  }

  /** Adding a solid directory state without a temp file adds exactly its value. */
  lemma PushDir(d: Disk, dir: Dir)
    requires Sound(d) && Solid(d, dir) && dir.tmp.None?
    ensures var e := d.(dirs := d.dirs + [dir]);
      Sound(e) && Value(e) == Held(d, dir) && Exposed(e) == Exposed(d) + {Held(d, dir)}
  {
    var e := d.(dirs := d.dirs + [dir]);
    forall k | 0 <= k < |e.dirs|
      ensures Solid(e, e.dirs[k]) && Bound(e, e.dirs[k].path) && Bound(e, e.dirs[k].tmp)
      ensures Held(e, e.dirs[k]) == if k < |d.dirs| then Held(d, d.dirs[k]) else Held(d, dir)
    {
      if k < |d.dirs| { assert Solid(d, d.dirs[k]) && Bound(d, d.dirs[k].tmp); }
    }
    assert e.dirs[|d.dirs|] == dir;
    assert forall k :: 0 <= k < |d.dirs| ==> Held(d, d.dirs[k]) == Held(e, e.dirs[k]);
    assert Held(e, e.dirs[|d.dirs|]) in Exposed(e);
  }

  lemma RenameSound(d: Disk, v: Secrets)
    requires Sound(d) && Current(d).tmp.Some? && Current(d).tmp.value in d.files
    requires d.files[Current(d).tmp.value] == File(Complete(v), true)
    ensures var e := Rename(d);
      Sound(e) && Value(e) == Some(v) && Exposed(e) == Exposed(d) + {Some(v)}
  {
    PushDir(d, Dir(Current(d).tmp, None));
  }

  lemma RemoveTmpSound(d: Disk)
    requires Sound(d)
    ensures Sound(RemoveTmp(d)) && Value(RemoveTmp(d)) == Value(d) && Exposed(RemoveTmp(d)) == Exposed(d)
  {
    assert Solid(d, d.dirs[|d.dirs| - 1]);
    PushDir(d, Current(d).(tmp := None));
    assert Held(d, d.dirs[|d.dirs| - 1]) in Exposed(d);
  }

  /** Removing the path keeps the temp file, if there is one. */
  lemma RemovePathSound(d: Disk)
    requires Sound(d)
    ensures Sound(RemovePath(d)) && Value(RemovePath(d)) == None && Exposed(RemovePath(d)) == Exposed(d) + {None}
  {
    var e := RemovePath(d);
    forall k | 0 <= k < |e.dirs|
      ensures Solid(e, e.dirs[k]) && Bound(e, e.dirs[k].path) && Bound(e, e.dirs[k].tmp)
      ensures Held(e, e.dirs[k]) == if k < |d.dirs| then Held(d, d.dirs[k]) else None
    {
      var j := if k < |d.dirs| then k else |d.dirs| - 1;
      assert Solid(d, d.dirs[j]) && Bound(d, d.dirs[j].tmp);
    }
    assert forall k :: 0 <= k < |d.dirs| ==> Held(d, d.dirs[k]) == Held(e, e.dirs[k]);
    assert Held(e, e.dirs[|d.dirs|]) in Exposed(e);
  }

  lemma SyncDirSound(d: Disk)
    requires Sound(d)
    ensures Sound(SyncDir(d)) && Value(SyncDir(d)) == Value(d) && Exposed(SyncDir(d)) == {Value(d)}
  {
    var e := SyncDir(d);
    assert Solid(d, d.dirs[|d.dirs| - 1]) && Bound(d, d.dirs[|d.dirs| - 1].tmp) && Bound(d, d.dirs[|d.dirs| - 1].path);
    assert Held(e, e.dirs[0]) == Value(d);
    assert Held(e, e.dirs[0]) in Exposed(e);
    assert forall k :: 0 <= k < |e.dirs| ==> Held(e, e.dirs[k]) == Value(d);
  }
}
