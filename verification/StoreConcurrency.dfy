/** Any number of threads calling one `Store`, interleaved at every system call, with the
    process crashing at any point. The read-write lock is modelled by its holder; the disk
    is that of CrashDisk. */
module StoreConcurrency {
  import opened Options
  import opened CrashDisk

  type Tid = nat

  /** A call. The function of `Update` returns None for an error. */
  datatype Op = Save(v: Secrets) | Update(fn: Secrets -> Option<Secrets>) | Clear | Load

  datatype Outcome = Failed | Done | Loaded(v: Option<Secrets>)

  datatype Entry = Entry(tid: Tid, op: Op, outcome: Outcome)

  /** Progress of the thread that holds the write lock. */
  datatype Stage =
    | Entered
    | HasValue(v: Secrets)    // about to create the temp file
    | TmpOpen(v: Secrets)
    | TmpWritten(v: Secrets)
    | TmpSynced(v: Secrets)
    | TmpClosed(v: Secrets)
    | Failing                 // about to remove the temp file
    | Published               // about to sync the directory
    | Finished                // about to unlock

  datatype Writer = Writer(tid: Tid, op: Op, stage: Stage)

  /** `log` is the serial history built as calls take effect; `marks[k]` is how much of it
      directory state k reflects; `order` lists write-lock holders in the order they got in,
      and `readers` says of each read-lock holder whether it has read. */
  datatype State = State(
    disk: Disk,
    pending: map<Tid, Op>,
    writer: Option<Writer>,
    readers: map<Tid, bool>,
    log: seq<Entry>,
    marks: seq<nat>,
    order: seq<(Tid, Op)>)

  datatype Event =
    | Call(t: Tid, op: Op)
    | Lock(t: Tid)
    | Unlock
    | RLock(t: Tid)
    | RUnlock(t: Tid)
    | Read(t: Tid, ok: bool)
    | LoadAndApply(ok: bool)
    | CreateTmp(ok: bool)
    | WriteData(ok: bool)
    | SyncData(ok: bool)
    | CloseData(ok: bool)
    | RenameTmp(ok: bool)
    | RemoveTmpFile(ok: bool)
    | SyncDirectory(ok: bool)
    | RemoveSecrets(ok: bool)
    | Crash(k: nat, after: Disk)

  // ---------- the serial meaning ----------

  /** What `Update` hands to its function. */
  function Seen(v: Option<Secrets>): Secrets {
    match v case None => EMPTY case Some(s) => s
  }

  /** One call run alone on value v. */
  function Apply(v: Option<Secrets>, e: Entry): Option<Secrets> {
    if e.outcome.Failed? then v
    else match e.op
      case Save(s) => Some(s)
      case Update(fn) => fn(Seen(v))
      case Clear => None
      case Load => v
  }

  function Replay(base: Option<Secrets>, log: seq<Entry>): Option<Secrets> {
    if |log| == 0 then base else Apply(Replay(base, log[..|log| - 1]), log[|log| - 1])
  }

  /** The outcome a call may have when run alone on value v: a load returns v, an update
      that succeeds had its function succeed on v. */
  predicate Possible(v: Option<Secrets>, e: Entry) {
    match e.outcome
    case Failed => true
    case Loaded(x) => e.op.Load? && x == v
    case Done => !e.op.Load? && (e.op.Update? ==> e.op.fn(Seen(v)).Some?)
  }

  ghost predicate Serial(base: Option<Secrets>, log: seq<Entry>) {
    forall i :: 0 <= i < |log| ==> PossibleAt(base, log, i)
  }

  predicate PossibleAt(base: Option<Secrets>, log: seq<Entry>, i: nat)
    requires i < |log|
  {
    Possible(Replay(base, log[..i]), log[i])
  }

  /** The writing calls of a history, in order. */
  function Writers(log: seq<Entry>): seq<(Tid, Op)> {
    if |log| == 0 then []
    else
      var e := log[|log| - 1];
      Writers(log[..|log| - 1]) + if e.op.Load? then [] else [(e.tid, e.op)]
  }

  lemma Extend(base: Option<Secrets>, log: seq<Entry>, e: Entry)
    ensures Replay(base, log + [e]) == Apply(Replay(base, log), e)
    ensures Writers(log + [e]) == Writers(log) + if e.op.Load? then [] else [(e.tid, e.op)]
    ensures Serial(base, log) && Possible(Replay(base, log), e) ==> Serial(base, log + [e])
  {
    assert (log + [e])[..|log|] == log;
    if Serial(base, log) && Possible(Replay(base, log), e) {
      forall i | 0 <= i < |log + [e]| ensures PossibleAt(base, log + [e], i) {
        if i < |log| {
          assert PossibleAt(base, log, i) && (log + [e])[..i] == log[..i];
        }
      }
    }
  }

  lemma SerialPrefix(base: Option<Secrets>, log: seq<Entry>, n: nat)
    requires Serial(base, log) && n <= |log|
    ensures Serial(base, log[..n])
  {
    forall i | 0 <= i < n
      ensures PossibleAt(base, log[..n], i)
    {
      assert PossibleAt(base, log, i) && log[..n][..i] == log[..i];
    }
  }

  // ---------- the invariant ----------

  /** The value the lock holder is about to store is what its call makes of the current one. */
  predicate Intends(op: Op, v: Secrets, current: Option<Secrets>) {
    match op
    case Save(s) => v == s
    case Update(fn) => fn(Seen(current)) == Some(v)
    case _ => false
  }

  ghost predicate TmpIs(d: Disk, v: Secrets, synced: bool) {
    && |d.dirs| > 0 && Current(d).tmp.Some? && Current(d).tmp.value in d.files
    && d.files[Current(d).tmp.value].data == Complete(v)
    && (synced ==> d.files[Current(d).tmp.value].synced)
  }

  ghost predicate WriterInv(d: Disk, w: Writer)
    requires Sound(d)
  {
    && !w.op.Load?
    && match w.stage
       case Entered => true
       case HasValue(v) => Intends(w.op, v, Value(d))
       case TmpOpen(v) => Intends(w.op, v, Value(d)) && Current(d).tmp.Some?
       case TmpWritten(v) => Intends(w.op, v, Value(d)) && TmpIs(d, v, false)
       case TmpSynced(v) => Intends(w.op, v, Value(d)) && TmpIs(d, v, true)
       case TmpClosed(v) => Intends(w.op, v, Value(d)) && TmpIs(d, v, true)
       case Failing => true
       case Published => true
       case Finished => true
  }

  /** Whether the lock holder's call is already in the history. */
  predicate Logged(w: Writer) {
    w.stage.Published? || w.stage.Finished?
  }

  /** Every directory state reflects a prefix of the history. */
  ghost predicate MarksInv(base: Option<Secrets>, d: Disk, log: seq<Entry>, marks: seq<nat>)
    requires Sound(d)
  {
    && |marks| == |d.dirs|
    && forall k :: 0 <= k < |marks| ==> Reflects(base, d, log, marks[k], d.dirs[k])
  }

  /** A directory state holds what replaying the first `mark` calls gives. */
  predicate Reflects(base: Option<Secrets>, d: Disk, log: seq<Entry>, mark: nat, dir: Dir) {
    Solid(d, dir) && mark <= |log| && Replay(base, log[..mark]) == Held(d, dir)
  }

  ghost predicate History(base: Option<Secrets>, d: Disk, log: seq<Entry>, marks: seq<nat>) {
    && Sound(d)
    && Value(d) == Replay(base, log)
    && Serial(base, log)
    && MarksInv(base, d, log, marks)
  }

  ghost predicate Inv(base: Option<Secrets>, s: State) {
    && History(base, s.disk, s.log, s.marks)
    && (s.writer.Some? ==> s.readers == map[] && WriterInv(s.disk, s.writer.value))
    && s.order == Writers(s.log) +
         (if s.writer.Some? && !Logged(s.writer.value) then [(s.writer.value.tid, s.writer.value.op)] else [])
  }

  // ---------- steps ----------

  function At(s: State, stage: Stage): State
    requires s.writer.Some?
  {
    s.(writer := Some(s.writer.value.(stage := stage)))
  }

  /** The lock holder's call takes effect, or is given up, in the history. */
  function Record(s: State, outcome: Outcome): State
    requires s.writer.Some?
  {
    s.(log := s.log + [Entry(s.writer.value.tid, s.writer.value.op, outcome)])
  }

  /** A directory change by which the lock holder's call takes effect. */
  function TakeEffect(s: State, d: Disk, stage: Stage): State
    requires s.writer.Some?
  {
    At(Record(s, Done).(disk := d, marks := s.marks + [|s.log| + 1]), stage)
  }

  /** Stop with an error: from `Failing` on, the temp file is removed first. */
  function GiveUp(s: State): State
    requires s.writer.Some?
  {
    At(Record(s, Failed), Finished)
  }

  ghost function WriterStep(base: Option<Secrets>, s: State, e: Event): Option<State>
    requires Inv(base, s) && s.writer.Some?
  {
    var w, d := s.writer.value, s.disk;
    match e
    case Unlock => if w.stage.Finished? then Some(s.(writer := None)) else None
    case LoadAndApply(ok) =>
      if !w.stage.Entered? || w.op.Clear? then None
      else if w.op.Save? then Some(At(s, HasValue(w.op.v)))
      else if !ok then Some(GiveUp(s))
      else (match w.op.fn(Seen(Value(d)))
            case None => Some(GiveUp(s))
            case Some(v) => Some(At(s, HasValue(v))))
    case CreateTmp(ok) =>
      if !w.stage.HasValue? then None
      else if !ok then Some(GiveUp(s))
      else Some(At(s.(disk := OpenTmp(d),
                      marks := if |OpenTmp(d).dirs| == |d.dirs| then s.marks else s.marks + [|s.log|]),
                   TmpOpen(w.stage.v)))
    case WriteData(ok) =>
      if !w.stage.TmpOpen? then None
      else Some(At(s.(disk := WriteTmp(d, if ok then Complete(w.stage.v) else Partial)),
                   if ok then TmpWritten(w.stage.v) else Failing))
    case SyncData(ok) =>
      if !w.stage.TmpWritten? then None
      else if !ok then Some(At(s, Failing))
      else Some(At(s.(disk := SyncTmp(d)), TmpSynced(w.stage.v)))
    case CloseData(ok) =>
      if !w.stage.TmpSynced? then None
      else Some(At(s, if ok then TmpClosed(w.stage.v) else Failing))
    case RenameTmp(ok) =>
      if !w.stage.TmpClosed? then None
      else if !ok then Some(At(s, Failing))
      else Some(TakeEffect(s, Rename(d), Published))
    case RemoveTmpFile(ok) =>
      if !w.stage.Failing? then None
      else if !ok then Some(GiveUp(s))
      else Some(GiveUp(s.(disk := RemoveTmp(d), marks := s.marks + [|s.log|])))
    case SyncDirectory(ok) =>
      if !w.stage.Published? then None
      else if !ok then Some(At(s, Finished))
      else Some(At(s.(disk := SyncDir(d), marks := [|s.log|]), Finished))
    case RemoveSecrets(ok) =>
      if !w.stage.Entered? || !w.op.Clear? then None
      else if Current(d).path.None? then Some(At(Record(s, Done), Finished))
      else if !ok then Some(GiveUp(s))
      else Some(TakeEffect(s, RemovePath(d), Finished))
    case _ => None
  }

  /** One step of the whole system; None when the event cannot happen. */
  ghost function Step(base: Option<Secrets>, s: State, e: Event): Option<State>
    requires Inv(base, s)
  {
    match e
    case Call(t, op) => if t in s.pending then None else Some(s.(pending := s.pending[t := op]))
    case Lock(t) =>
      if t !in s.pending || s.pending[t].Load? || s.writer.Some? || s.readers != map[] then None
      else Some(s.(pending := s.pending - {t}, writer := Some(Writer(t, s.pending[t], Entered)),
                   order := s.order + [(t, s.pending[t])]))
    case RLock(t) =>
      if t !in s.pending || !s.pending[t].Load? || s.writer.Some? || t in s.readers then None
      else Some(s.(pending := s.pending - {t}, readers := s.readers[t := false]))
    case Read(t, ok) =>
      if t !in s.readers || s.readers[t] then None
      else Some(s.(log := s.log + [Entry(t, Load, if ok then Loaded(Value(s.disk)) else Failed)],
                   readers := s.readers[t := true]))
    case RUnlock(t) => if t !in s.readers || !s.readers[t] then None else Some(s.(readers := s.readers - {t}))
    case Crash(k, c) =>
      if k >= |s.disk.dirs| || !CrashOf(s.disk, c) || c.dirs != [s.disk.dirs[k]] then None
      else
        var log := s.log[..s.marks[k]];
        Some(State(c, map[], None, map[], log, [|log|], Writers(log)))
    case _ => if s.writer.None? then None else WriterStep(base, s, e)
  }

  // ---------- every step keeps the invariant ----------

  /** A disk change that keeps directory states and values keeps the marks. */
  lemma MarksSameDirs(base: Option<Secrets>, d: Disk, e: Disk, log: seq<Entry>, marks: seq<nat>)
    requires Sound(d) && Sound(e) && MarksInv(base, d, log, marks) && e.dirs == d.dirs
    requires forall k :: 0 <= k < |d.dirs| ==> Solid(e, e.dirs[k]) && Solid(d, d.dirs[k]) && Held(e, e.dirs[k]) == Held(d, d.dirs[k])
    ensures MarksInv(base, e, log, marks)
  {
    forall k | 0 <= k < |marks| ensures Reflects(base, e, log, marks[k], e.dirs[k]) {
      assert Reflects(base, d, log, marks[k], d.dirs[k]);
    }
  }

  /** Appending to the history does not disturb what earlier directory states reflect. */
  lemma MarksMoreLog(base: Option<Secrets>, d: Disk, log: seq<Entry>, marks: seq<nat>, e: Entry)
    requires Sound(d) && MarksInv(base, d, log, marks)
    ensures MarksInv(base, d, log + [e], marks)
  {
    forall k | 0 <= k < |marks| ensures Reflects(base, d, log + [e], marks[k], d.dirs[k]) {
      assert Reflects(base, d, log, marks[k], d.dirs[k]);
      assert (log + [e])[..marks[k]] == log[..marks[k]];
    }
  }

  /** A call that leaves the value as it is. */
  lemma HistoryMore(base: Option<Secrets>, d: Disk, log: seq<Entry>, marks: seq<nat>, e: Entry)
    requires History(base, d, log, marks) && Possible(Value(d), e) && Apply(Value(d), e) == Value(d)
    ensures History(base, d, log + [e], marks)
    ensures Writers(log + [e]) == Writers(log) + if e.op.Load? then [] else [(e.tid, e.op)]
  {
    Extend(base, log, e);
    MarksMoreLog(base, d, log, marks, e);
  }

  /** A new directory state that reflects the whole history. */
  lemma MarksMoreDir(base: Option<Secrets>, d: Disk, e: Disk, log: seq<Entry>, marks: seq<nat>, dir: Dir)
    requires Sound(d) && Sound(e) && MarksInv(base, d, log, marks)
    requires e.dirs == d.dirs + [dir] && (forall i :: i in d.files ==> i in e.files && e.files[i] == d.files[i])
    requires Value(e) == Replay(base, log)
    ensures MarksInv(base, e, log, marks + [|log|])
  {
    forall k | 0 <= k < |e.dirs|
      ensures Reflects(base, e, log, (marks + [|log|])[k], e.dirs[k])
    {
      assert Solid(e, e.dirs[k]);
      if k < |d.dirs| {
        assert Reflects(base, d, log, marks[k], d.dirs[k]);
      } else {
        assert log[..|log|] == log;
      }
    }
  }

  lemma TmpWriteKeepsMarks(base: Option<Secrets>, d: Disk, f: File, log: seq<Entry>, marks: seq<nat>)
    requires Sound(d) && Current(d).tmp.Some? && MarksInv(base, d, log, marks)
    requires Sound(d.(files := d.files[Current(d).tmp.value := f]))
    ensures MarksInv(base, d.(files := d.files[Current(d).tmp.value := f]), log, marks)
  {
    var e := d.(files := d.files[Current(d).tmp.value := f]);
    forall k | 0 <= k < |d.dirs|
      ensures Solid(e, e.dirs[k]) && Solid(d, d.dirs[k]) && Held(e, e.dirs[k]) == Held(d, d.dirs[k])
    {
      assert d.dirs[k].path != Current(d).tmp;
    }
    MarksSameDirs(base, d, e, log, marks);
  }

  lemma RecordInv(base: Option<Secrets>, s: State)
    requires Inv(base, s) && s.writer.Some? && !Logged(s.writer.value)
    ensures Inv(base, GiveUp(s))
  {
    var w := s.writer.value;
    HistoryMore(base, s.disk, s.log, s.marks, Entry(w.tid, w.op, Failed));
  }

  lemma CreateInv(base: Option<Secrets>, s: State)
    requires Inv(base, s) && s.writer.Some? && s.writer.value.stage.HasValue?
    ensures Inv(base, WriterStep(base, s, CreateTmp(true)).value)
  {
    var d, v := s.disk, s.writer.value.stage.v;
    OpenTmpSound(d);
    if Current(d).tmp.Some? {
      TmpWriteKeepsMarks(base, d, File(Partial, false), s.log, s.marks);
      DiskInv(base, s, OpenTmp(d), s.marks, TmpOpen(v));
    } else {
      MarksMoreDir(base, d, OpenTmp(d), s.log, s.marks, Current(d).(tmp := Some(d.next)));
      DiskInv(base, s, OpenTmp(d), s.marks + [|s.log|], TmpOpen(v));
    }
  }

  /** A disk change that keeps the value, with marks and stage to match. */
  lemma DiskInv(base: Option<Secrets>, s: State, d: Disk, marks: seq<nat>, stage: Stage)
    requires Inv(base, s) && s.writer.Some?
    requires History(base, d, s.log, marks)
    requires WriterInv(d, s.writer.value.(stage := stage)) && Logged(s.writer.value) == Logged(s.writer.value.(stage := stage))
    ensures Inv(base, At(s.(disk := d, marks := marks), stage))
  {
  }

  lemma WriteInv(base: Option<Secrets>, s: State, ok: bool)
    requires Inv(base, s) && s.writer.Some? && s.writer.value.stage.TmpOpen?
    ensures Inv(base, WriterStep(base, s, WriteData(ok)).value)
  {
    var data := if ok then Complete(s.writer.value.stage.v) else Partial;
    WriteTmpSound(s.disk, data);
    TmpWriteKeepsMarks(base, s.disk, File(data, false), s.log, s.marks);
  }

  lemma SyncInv(base: Option<Secrets>, s: State)
    requires Inv(base, s) && s.writer.Some? && s.writer.value.stage.TmpWritten?
    ensures Inv(base, WriterStep(base, s, SyncData(true)).value)
  {
    var d := s.disk;
    SyncTmpSound(d);
    TmpWriteKeepsMarks(base, d, d.files[Current(d).tmp.value].(synced := true), s.log, s.marks);
  }

  lemma TakeEffectInv(base: Option<Secrets>, s: State, d: Disk, dir: Dir, stage: Stage)
    requires Inv(base, s) && s.writer.Some? && !Logged(s.writer.value) && (stage.Published? || stage.Finished?)
    requires d == s.disk.(dirs := s.disk.dirs + [dir]) && Sound(d)
    requires var e := Entry(s.writer.value.tid, s.writer.value.op, Done);
             Possible(Value(s.disk), e) && Value(d) == Apply(Value(s.disk), e)
    ensures Inv(base, TakeEffect(s, d, stage))
  {
    var e := Entry(s.writer.value.tid, s.writer.value.op, Done);
    HistoryEffect(base, s.disk, s.log, s.marks, e, d, dir);
    var t := TakeEffect(s, d, stage);
    assert t.log == s.log + [e] && t.marks == s.marks + [|s.log| + 1];
    assert Writers(t.log) == t.order && t.order + [] == t.order;
    assert Logged(t.writer.value) && WriterInv(d, t.writer.value);
  }

  /** A call whose directory change makes the value what the call makes of it. */
  lemma HistoryEffect(base: Option<Secrets>, d0: Disk, log: seq<Entry>, marks: seq<nat>, e: Entry, d: Disk, dir: Dir)
    requires History(base, d0, log, marks) && Possible(Value(d0), e)
    requires d == d0.(dirs := d0.dirs + [dir]) && Sound(d) && Value(d) == Apply(Value(d0), e)
    ensures History(base, d, log + [e], marks + [|log| + 1])
    ensures Writers(log + [e]) == Writers(log) + if e.op.Load? then [] else [(e.tid, e.op)]
  {
    var more := log + [e];
    Extend(base, log, e);
    assert |more| == |log| + 1 && Value(d) == Replay(base, more);
    assert MarksInv(base, d, more, marks + [|more|]) by {
      MarksMoreLog(base, d0, log, marks, e);
      MarksMoreDir(base, d0, d, more, marks, dir);
    }
  }

  /** The temp file holds, synced, what the call makes of the current value. */
  lemma RenameTakesEffect(d: Disk, op: Op, v: Secrets, t: Tid)
    requires Sound(d) && Intends(op, v, Value(d)) && TmpIs(d, v, true)
    ensures Sound(Rename(d)) && Possible(Value(d), Entry(t, op, Done))
    ensures Value(Rename(d)) == Apply(Value(d), Entry(t, op, Done))
  {
    assert d.files[Current(d).tmp.value] == File(Complete(v), true);
    RenameSound(d, v);
  }

  lemma RenameInv(base: Option<Secrets>, s: State)
    requires Inv(base, s) && s.writer.Some? && s.writer.value.stage.TmpClosed?
    ensures Inv(base, TakeEffect(s, Rename(s.disk), Published))
  {
    var w := s.writer.value;
    RenameTakesEffect(s.disk, w.op, w.stage.v, w.tid);
    TakeEffectInv(base, s, Rename(s.disk), Dir(Current(s.disk).tmp, None), Published);
  }

  lemma RemoveTmpInv(base: Option<Secrets>, s: State)
    requires Inv(base, s) && s.writer.Some? && s.writer.value.stage.Failing?
    ensures Inv(base, GiveUp(s.(disk := RemoveTmp(s.disk), marks := s.marks + [|s.log|])))
  {
    var d := RemoveTmp(s.disk);
    var marks := s.marks + [|s.log|];
    var t := s.(disk := d, marks := marks);
    RemoveTmpSound(s.disk);
    MarksMoreDir(base, s.disk, d, s.log, s.marks, Current(s.disk).(tmp := None));
    DiskInv(base, s, d, marks, Failing);
    assert At(t, Failing) == t;
    RecordInv(base, t);
  }

  lemma SyncDirInv(base: Option<Secrets>, s: State)
    requires Inv(base, s) && s.writer.Some? && s.writer.value.stage.Published?
    ensures Inv(base, WriterStep(base, s, SyncDirectory(true)).value)
  {
    SyncDirSound(s.disk);
    assert s.log[..|s.log|] == s.log;
    assert Solid(SyncDir(s.disk), SyncDir(s.disk).dirs[0]);
  }

  lemma RemoveSecretsInv(base: Option<Secrets>, s: State)
    requires Inv(base, s) && s.writer.Some? && s.writer.value.stage.Entered? && s.writer.value.op.Clear?
    ensures Inv(base, TakeEffect(s, RemovePath(s.disk), Finished))
  {
    RemovePathSound(s.disk);
    TakeEffectInv(base, s, RemovePath(s.disk), Current(s.disk).(path := None), Finished);
  }

  /** Clearing an absent file succeeds and changes nothing. */
  lemma ClearAbsentInv(base: Option<Secrets>, s: State)
    requires Inv(base, s) && s.writer.Some? && s.writer.value.stage.Entered? && s.writer.value.op.Clear?
    requires Current(s.disk).path.None?
    ensures Inv(base, At(Record(s, Done), Finished))
  {
    assert Value(s.disk) == None;
    HistoryMore(base, s.disk, s.log, s.marks, Entry(s.writer.value.tid, s.writer.value.op, Done));
  }

  lemma ClearInv(base: Option<Secrets>, s: State, ok: bool)
    requires Inv(base, s) && s.writer.Some? && WriterStep(base, s, RemoveSecrets(ok)).Some?
    ensures Inv(base, WriterStep(base, s, RemoveSecrets(ok)).value)
  {
    if Current(s.disk).path.None? {
      ClearAbsentInv(base, s);
    } else if ok {
      RemoveSecretsInv(base, s);
    } else {
      RecordInv(base, s);
    }
  }

  lemma LoadAndApplyInv(base: Option<Secrets>, s: State, ok: bool)
    requires Inv(base, s) && s.writer.Some? && WriterStep(base, s, LoadAndApply(ok)).Some?
    ensures Inv(base, WriterStep(base, s, LoadAndApply(ok)).value)
  {
    var w := s.writer.value;
    if w.op.Save? {
      StageInv(base, s, HasValue(w.op.v));
    } else if ok && w.op.fn(Seen(Value(s.disk))).Some? {
      StageInv(base, s, HasValue(w.op.fn(Seen(Value(s.disk))).value));
    } else {
      RecordInv(base, s);
    }
  }

  /** Stage changes that touch neither disk nor history. */
  lemma StageInv(base: Option<Secrets>, s: State, stage: Stage)
    requires Inv(base, s) && s.writer.Some? && Logged(s.writer.value) == Logged(s.writer.value.(stage := stage))
    requires WriterInv(s.disk, s.writer.value.(stage := stage))
    ensures Inv(base, At(s, stage))
  {
  }

  lemma WriterStepInv(base: Option<Secrets>, s: State, e: Event)
    requires Inv(base, s) && s.writer.Some? && WriterStep(base, s, e).Some?
    ensures Inv(base, WriterStep(base, s, e).value)
  {
    match e
    case Unlock => UnlockInv(base, s);
    case LoadAndApply(ok) => LoadAndApplyInv(base, s, ok);
    case CreateTmp(ok) => if ok { CreateInv(base, s); } else { RecordInv(base, s); }
    case WriteData(ok) => WriteInv(base, s, ok);
    case SyncData(ok) => if ok { SyncInv(base, s); } else { StageInv(base, s, Failing); }
    case CloseData(ok) => StageInv(base, s, if ok then TmpClosed(s.writer.value.stage.v) else Failing);
    case RenameTmp(ok) => if ok { RenameInv(base, s); } else { StageInv(base, s, Failing); }
    case RemoveTmpFile(ok) => if ok { RemoveTmpInv(base, s); } else { RecordInv(base, s); }
    case SyncDirectory(ok) => if ok { SyncDirInv(base, s); } else { StageInv(base, s, Finished); }
    case RemoveSecrets(ok) => ClearInv(base, s, ok);
  }

  lemma UnlockInv(base: Option<Secrets>, s: State)
    requires Inv(base, s) && s.writer.Some? && s.writer.value.stage.Finished?
    ensures Inv(base, s.(writer := None))
  {
  }

  lemma ReadInv(base: Option<Secrets>, s: State, t: Tid, ok: bool)
    requires Inv(base, s) && t in s.readers && !s.readers[t]
    ensures Inv(base, Step(base, s, Read(t, ok)).value)
  {
    var e := Entry(t, Load, if ok then Loaded(Value(s.disk)) else Failed);
    HistoryMore(base, s.disk, s.log, s.marks, e);
    assert Writers(s.log) + [] == Writers(s.log);
  }

  lemma CrashInv(base: Option<Secrets>, s: State, k: nat, c: Disk)
    requires Inv(base, s) && Step(base, s, Crash(k, c)).Some?
    ensures Inv(base, Step(base, s, Crash(k, c)).value)
  {
    var d, log := s.disk, s.log[..s.marks[k]];
    CrashKeepsValue(d, c);
    assert Reflects(base, d, s.log, s.marks[k], d.dirs[k]) && Held(c, c.dirs[0]) == Held(d, d.dirs[k]);
    SerialPrefix(base, s.log, s.marks[k]);
    assert log[..|log|] == log;
    assert Reflects(base, c, log, |log|, c.dirs[0]);
  }

  lemma StepInv(base: Option<Secrets>, s: State, e: Event)
    requires Inv(base, s) && Step(base, s, e).Some?
    ensures Inv(base, Step(base, s, e).value)
  {
    match e
    case Call(_, _) =>
    case Lock(_) =>
    case RLock(_) =>
    case RUnlock(_) =>
    case Read(t, ok) => ReadInv(base, s, t, ok);
    case Crash(k, c) => CrashInv(base, s, k, c);
    case _ => WriterStepInv(base, s, e);
  }

  // ---------- whole runs ----------

  ghost function Exec(base: Option<Secrets>, s: State, es: seq<Event>): Option<State>
    requires Inv(base, s)
    decreases |es|
  {
    if |es| == 0 then Some(s)
    else
      match Step(base, s, es[0])
      case None => None
      case Some(t) =>
        StepInv(base, s, es[0]);
        Exec(base, t, es[1..])
  }

  lemma {:induction false} ExecInv(base: Option<Secrets>, s: State, es: seq<Event>)
    requires Inv(base, s) && Exec(base, s, es).Some?
    ensures Inv(base, Exec(base, s, es).value)
    decreases |es|
  {
    if |es| > 0 {
      StepInv(base, s, es[0]);
      ExecInv(base, Step(base, s, es[0]).value, es[1..]);
    }
  }

  /** A freshly started process over a durable directory. */
  function Start(d: Disk): State {
    State(d, map[], None, map[], [], [0], [])
  }

  lemma StartInv(d: Disk)
    requires Sound(d) && |d.dirs| == 1
    ensures Inv(Value(d), Start(d))
  {
    assert Solid(d, d.dirs[0]);
  }

  /** The state after a run of events from a fresh start; None if some event could not happen. */
  ghost function Run(d: Disk, es: seq<Event>): Option<State>
    requires Sound(d) && |d.dirs| == 1
  {
    StartInv(d);
    Exec(Value(d), Start(d), es)
  }

  /** Every interleaving of every run, crashes included, is serial: the history, ordered by
      the moments calls took effect, explains each load and each success; replaying it gives
      the stored value; and the writing calls in it are the lock holders in lock order, each
      exactly once (the current holder's call may still be outstanding). */
  lemma RunsAreSerial(d: Disk, es: seq<Event>)
    requires Sound(d) && |d.dirs| == 1 && Run(d, es).Some?
    ensures var s := Run(d, es).value;
      && Sound(s.disk)
      && Serial(Value(d), s.log)
      && Value(s.disk) == Replay(Value(d), s.log)
      && s.order == Writers(s.log) +
           (if s.writer.Some? && !Logged(s.writer.value) then [(s.writer.value.tid, s.writer.value.op)] else [])
  {
    StartInv(d);
    ExecInv(Value(d), Start(d), es);
  }

  lemma {:induction false} ExecSnoc(base: Option<Secrets>, s: State, es: seq<Event>, e: Event)
    requires Inv(base, s) && Exec(base, s, es).Some? && Inv(base, Exec(base, s, es).value)
    ensures Exec(base, s, es + [e]) == Step(base, Exec(base, s, es).value, e)
    decreases |es|
  {
    if |es| == 0 {
      assert ([] + [e])[1..] == [];
      if Step(base, s, e).Some? { StepInv(base, s, e); }
    } else {
      assert (es + [e])[1..] == es[1..] + [e];
      StepInv(base, s, es[0]);
      ExecSnoc(base, Step(base, s, es[0]).value, es[1..], e);
    }
  }

  // ---------- what crashes keep ----------

  /** How one step moves history and marks: a crash falls back to a prefix and its directory
      state; any other step extends the history, and a directory state it adds reflects at
      least the old history. */
  ghost predicate Grows(s: State, t: State) {
    && s.log <= t.log
    && (t.marks == s.marks || t.marks == [|s.log|] || exists m :: t.marks == s.marks + [m] && |s.log| <= m <= |t.log|)
  }

  ghost predicate FallsBack(s: State, t: State, k: nat) {
    k < |s.marks| && s.marks[k] <= |s.log| && t.log == s.log[..s.marks[k]] && t.marks == [s.marks[k]]
  }

  lemma WriterGrows(base: Option<Secrets>, s: State, e: Event)
    requires Inv(base, s) && s.writer.Some? && WriterStep(base, s, e).Some?
    ensures Grows(s, WriterStep(base, s, e).value)
  {
    var t := WriterStep(base, s, e).value;
    assert t.marks == s.marks || t.marks == [|s.log|] || t.marks == s.marks + [|s.log|] || t.marks == s.marks + [|s.log| + 1];
  }

  lemma StepGrows(base: Option<Secrets>, s: State, e: Event)
    requires Inv(base, s) && Step(base, s, e).Some?
    ensures if e.Crash? then FallsBack(s, Step(base, s, e).value, e.k) else Grows(s, Step(base, s, e).value)
  {
    match e
    case Call(_, _) =>
    case Lock(_) =>
    case RLock(_) =>
    case RUnlock(_) =>
    case Read(_, _) =>
    case Crash(k, _) => assert Reflects(base, s.disk, s.log, s.marks[k], s.disk.dirs[k]);
    case _ => WriterGrows(base, s, e);
  }

  /** The history starts with `kept`, and so does what every directory state reflects. */
  ghost predicate Keeps(s: State, kept: seq<Entry>) {
    && kept <= s.log
    && forall k :: 0 <= k < |s.marks| ==> |kept| <= s.marks[k] <= |s.log|
  }

  lemma StepKeeps(base: Option<Secrets>, s: State, e: Event, kept: seq<Entry>)
    requires Inv(base, s) && Keeps(s, kept) && Step(base, s, e).Some?
    ensures Keeps(Step(base, s, e).value, kept)
  {
    StepGrows(base, s, e);
  }

  lemma {:induction false} ExecKeeps(base: Option<Secrets>, s: State, es: seq<Event>, kept: seq<Entry>)
    requires Inv(base, s) && Keeps(s, kept) && Exec(base, s, es).Some?
    ensures kept <= Exec(base, s, es).value.log
    decreases |es|
  {
    if |es| > 0 {
      StepInv(base, s, es[0]);
      StepKeeps(base, s, es[0], kept);
      ExecKeeps(base, Step(base, s, es[0]).value, es[1..], kept);
    }
  }

  /** What is in the history when a directory sync succeeds stays there for ever, whatever
      runs next and however often it crashes. */
  lemma SyncedSurvives(base: Option<Secrets>, s: State, es: seq<Event>)
    requires Inv(base, s) && Exec(base, s, [SyncDirectory(true)] + es).Some?
    ensures s.log <= Exec(base, s, [SyncDirectory(true)] + es).value.log
  {
    var e := SyncDirectory(true);
    assert ([e] + es)[1..] == es;
    StepInv(base, s, e);
    ExecKeeps(base, Step(base, s, e).value, es, s.log);
  }

  /** Later directory states reflect longer histories. */
  ghost predicate Ordered(s: State) {
    && (forall k :: 0 <= k < |s.marks| ==> s.marks[k] <= |s.log|)
    && forall j, k :: 0 <= j <= k < |s.marks| ==> s.marks[j] <= s.marks[k]
  }

  lemma GrowsOrdered(s: State, t: State)
    requires Ordered(s) && (Grows(s, t) || exists k: nat :: FallsBack(s, t, k))
    ensures Ordered(t)
  {
  }

  lemma StepOrdered(base: Option<Secrets>, s: State, e: Event)
    requires Inv(base, s) && Ordered(s) && Step(base, s, e).Some?
    ensures Ordered(Step(base, s, e).value)
  {
    StepGrows(base, s, e);
    GrowsOrdered(s, Step(base, s, e).value);
  }

  lemma {:induction false} ExecOrdered(base: Option<Secrets>, s: State, es: seq<Event>)
    requires Inv(base, s) && Ordered(s) && Exec(base, s, es).Some?
    ensures Ordered(Exec(base, s, es).value)
    decreases |es|
  {
    if |es| > 0 {
      StepInv(base, s, es[0]);
      StepOrdered(base, s, es[0]);
      ExecOrdered(base, Step(base, s, es[0]).value, es[1..]);
    }
  }

  lemma RunSnoc(d: Disk, es: seq<Event>, e: Event)
    requires Sound(d) && |d.dirs| == 1 && Run(d, es).Some? && Run(d, es + [e]).Some?
    ensures var s := Run(d, es).value;
      Inv(Value(d), s) && Ordered(s) && Run(d, es + [e]) == Step(Value(d), s, e)
  {
    StartInv(d);
    ExecInv(Value(d), Start(d), es);
    ExecOrdered(Value(d), Start(d), es);
    ExecSnoc(Value(d), Start(d), es, e);
  }

  lemma CrashStep(base: Option<Secrets>, s: State, k: nat, c: Disk)
    requires Inv(base, s) && Ordered(s) && Step(base, s, Crash(k, c)).Some?
    ensures var t := Step(base, s, Crash(k, c)).value;
      && t.disk == c && Sound(c)
      && t.log <= s.log && k < |s.marks| && s.marks[0] <= |t.log| == s.marks[k]
      && Value(c) == Replay(base, t.log)
  {
    CrashInv(base, s, k, c);
  }

  /** A crash after any run rolls the history back to the prefix that the directory state it
      falls back to reflects, never shorter than what the oldest one reflects; the path
      then holds that prefix's value. */
  lemma CrashRollsBack(d: Disk, es: seq<Event>, k: nat, c: Disk)
    requires Sound(d) && |d.dirs| == 1 && Run(d, es).Some? && Run(d, es + [Crash(k, c)]).Some?
    ensures var s, t := Run(d, es).value, Run(d, es + [Crash(k, c)]).value;
      && t.disk == c && Sound(c)
      && t.log <= s.log && k < |s.marks| && s.marks[0] <= |t.log| == s.marks[k]
      && Value(c) == Replay(Value(d), t.log)
  {
    RunSnoc(d, es, Crash(k, c));
    CrashStep(Value(d), Run(d, es).value, k, c);
  }

  // ---------- no lost updates ----------

  function Successes(log: seq<Entry>): nat {
    if |log| == 0 then 0
    else Successes(log[..|log| - 1]) + if log[|log| - 1].outcome.Done? then 1 else 0
  }

  /** Each update that succeeds raises `count` by one. */
  ghost predicate Increments(count: Secrets -> int, log: seq<Entry>) {
    forall i :: 0 <= i < |log| && log[i].outcome.Done? ==>
      log[i].op.Update? && forall s :: log[i].op.fn(s).Some? ==> count(log[i].op.fn(s).value) == count(s) + 1
  }

  /** No update is lost: when all successful calls are updates that add one, the stored
      count is the initial count plus the number of successful calls. */
  lemma {:induction false} NoLostUpdates(base: Option<Secrets>, log: seq<Entry>, count: Secrets -> int)
    requires Serial(base, log) && Increments(count, log)
    ensures count(Seen(Replay(base, log))) == count(Seen(base)) + Successes(log)
  {
    if |log| > 0 {
      var front, e := log[..|log| - 1], log[|log| - 1];
      SerialPrefix(base, log, |log| - 1);
      NoLostUpdates(base, front, count);
      assert PossibleAt(base, log, |log| - 1);
    }
  }

  /** On every run of such updates, whatever the interleaving and wherever it crashes, the
      stored count is the initial one plus the successes in the surviving history. */
  lemma RunsLoseNoUpdate(d: Disk, es: seq<Event>, count: Secrets -> int)
    requires Sound(d) && |d.dirs| == 1 && Run(d, es).Some? && Increments(count, Run(d, es).value.log)
    ensures var s := Run(d, es).value;
      && Sound(s.disk)
      && count(Seen(Value(s.disk))) == count(Seen(Value(d))) + Successes(s.log)
  {
    RunsAreSerial(d, es);
    NoLostUpdates(Value(d), Run(d, es).value.log, count);
  }

  // ---------- every call can complete ----------

  /** Some run leads from s to t. */
  ghost predicate Reaches(base: Option<Secrets>, s: State, t: State)
    requires Inv(base, s)
  {
    exists es :: Exec(base, s, es) == Some(t)
  }

  lemma ReachesSelf(base: Option<Secrets>, s: State)
    requires Inv(base, s)
    ensures Reaches(base, s, s)
  {
    assert Exec(base, s, []) == Some(s);
  }

  /** One more event at the front. */
  lemma ReachesBy(base: Option<Secrets>, s: State, e: Event, t: State)
    requires Inv(base, s) && Step(base, s, e).Some? && Inv(base, Step(base, s, e).value)
    requires Reaches(base, Step(base, s, e).value, t)
    ensures Reaches(base, s, t)
  {
    var es :| Exec(base, Step(base, s, e).value, es) == Some(t);
    assert ([e] + es)[1..] == es;
    assert Exec(base, s, [e] + es) == Some(t);
  }

  /** Stages still ahead of the lock holder when everything from now on fails. */
  function Rank(stage: Stage): nat {
    match stage
    case Entered => 3
    case HasValue(_) => 2
    case TmpOpen(_) => 2
    case TmpWritten(_) => 2
    case TmpSynced(_) => 2
    case TmpClosed(_) => 2
    case Failing => 1
    case Published => 1
    case Finished => 0
  }

  function GivingUp(w: Writer): Event {
    match w.stage
    case Entered => if w.op.Clear? then RemoveSecrets(false) else LoadAndApply(w.op.Save?)
    case HasValue(_) => CreateTmp(false)
    case TmpOpen(_) => WriteData(false)
    case TmpWritten(_) => SyncData(false)
    case TmpSynced(_) => CloseData(false)
    case TmpClosed(_) => RenameTmp(false)
    case Failing => RemoveTmpFile(false)
    case Published => SyncDirectory(false)
    case Finished => Unlock
  }

  /** The lock holder moved on, or left, and nobody else was touched. */
  ghost predicate MovedOn(s: State, t: State)
    requires s.writer.Some?
  {
    && t.pending == s.pending && t.readers == s.readers
    && (t.writer.Some? ==> Rank(t.writer.value.stage) < Rank(s.writer.value.stage))
  }

  lemma GivingUpSteps(base: Option<Secrets>, s: State)
    requires Inv(base, s) && s.writer.Some?
    ensures var t := Step(base, s, GivingUp(s.writer.value));
      t.Some? && MovedOn(s, t.value)
  {
    if s.writer.value.stage.Entered? {
      GivesUpEntered(base, s);
    } else if Rank(s.writer.value.stage) == 2 {
      GivesUpPreparing(base, s);
    } else {
      GivesUpLast(base, s);
    }
  }

  lemma GivesUpEntered(base: Option<Secrets>, s: State)
    requires Inv(base, s) && s.writer.Some? && s.writer.value.stage.Entered?
    ensures var t := WriterStep(base, s, GivingUp(s.writer.value));
      t.Some? && MovedOn(s, t.value)
  {
  }

  lemma GivesUpPreparing(base: Option<Secrets>, s: State)
    requires Inv(base, s) && s.writer.Some? && Rank(s.writer.value.stage) == 2
    ensures var t := WriterStep(base, s, GivingUp(s.writer.value));
      t.Some? && MovedOn(s, t.value)
  {
  }

  lemma GivesUpLast(base: Option<Secrets>, s: State)
    requires Inv(base, s) && s.writer.Some? && Rank(s.writer.value.stage) < 2
    ensures var t := WriterStep(base, s, GivingUp(s.writer.value));
      t.Some? && MovedOn(s, t.value)
  {
  }

  /** Whoever holds the write lock gets rid of it, even if all its calls fail. */
  lemma {:induction false} WriterLeaves(base: Option<Secrets>, s: State)
    requires Inv(base, s)
    ensures exists t :: Reaches(base, s, t) && Inv(base, t) && t.writer.None? && t.pending == s.pending && t.readers == s.readers
    decreases if s.writer.None? then 0 else 1 + Rank(s.writer.value.stage)
  {
    if s.writer.None? {
      ReachesSelf(base, s);
    } else {
      var e := GivingUp(s.writer.value);
      GivingUpSteps(base, s);
      StepInv(base, s, e);
      WriterLeaves(base, Step(base, s, e).value);
      var t :| Reaches(base, Step(base, s, e).value, t) && Inv(base, t) && t.writer.None? && t.pending == s.pending && t.readers == s.readers;
      ReachesBy(base, s, e, t);
    }
  }

  /** Readers leave too. */
  lemma {:induction false} ReadersLeave(base: Option<Secrets>, s: State)
    requires Inv(base, s) && s.writer.None?
    ensures exists t :: Reaches(base, s, t) && Inv(base, t) && t.writer.None? && t.pending == s.pending && t.readers == map[]
    decreases |s.readers|
  {
    if s.readers == map[] {
      ReachesSelf(base, s);
    } else {
      var r :| r in s.readers;
      var u := ReaderLeaves(base, s, r);
      FewerReaders(s.readers, r);
      ReadersLeave(base, u);
      var t :| Reaches(base, u, t) && Inv(base, t) && t.writer.None? && t.pending == s.pending && t.readers == map[];
      ReachesTrans(base, s, u, t);
    }
  }

  lemma ReaderLeaves(base: Option<Secrets>, s: State, r: Tid) returns (u: State)
    requires Inv(base, s) && s.writer.None? && r in s.readers
    ensures Inv(base, u) && Reaches(base, s, u)
    ensures u.writer.None? && u.pending == s.pending && u.readers == s.readers - {r}
  {
    if s.readers[r] {
      u := ReaderUnlocks(base, s, r);
    } else {
      StepInv(base, s, Read(r, false));
      var mid := Step(base, s, Read(r, false)).value;
      u := ReaderUnlocks(base, mid, r);
      WithoutReader(s.readers, r);
      ReachesBy(base, s, Read(r, false), u);
    }
  }

  lemma WithoutReader(readers: map<Tid, bool>, r: Tid)
    ensures readers[r := true] - {r} == readers - {r}
  {
  }

  lemma ReaderUnlocks(base: Option<Secrets>, s: State, r: Tid) returns (u: State)
    requires Inv(base, s) && r in s.readers && s.readers[r]
    ensures Inv(base, u) && Reaches(base, s, u)
    ensures u.writer == s.writer && u.pending == s.pending && u.readers == s.readers - {r}
  {
    StepInv(base, s, RUnlock(r));
    u := Step(base, s, RUnlock(r)).value;
    ReachesSelf(base, u);
    ReachesBy(base, s, RUnlock(r), u);
  }

  lemma ReachesTrans(base: Option<Secrets>, s: State, t: State, u: State)
    requires Inv(base, s) && Inv(base, t) && Reaches(base, s, t) && Reaches(base, t, u)
    ensures Reaches(base, s, u)
  {
    var es :| Exec(base, s, es) == Some(t);
    var more :| Exec(base, t, more) == Some(u);
    ExecAppend(base, s, es, more);
    assert Exec(base, s, es + more) == Some(u);
  }

  lemma FewerReaders(readers: map<Tid, bool>, r: Tid)
    requires r in readers
    ensures |readers - {r}| < |readers|
  {
    assert (readers - {r}).Keys == readers.Keys - {r};
    assert |readers - {r}| == |(readers - {r}).Keys|;
  }

  /** The system calls of a save or an update none of which fails. */
  const SAVING := [LoadAndApply(true), CreateTmp(true), WriteData(true), SyncData(true), CloseData(true), RenameTmp(true), SyncDirectory(true), Unlock]

  /** What the lock holder will store. */
  function ToStore(op: Op, current: Option<Secrets>): Option<Secrets> {
    match op
    case Save(v) => Some(v)
    case Update(fn) => fn(Seen(current))
    case _ => None
  }

  lemma Executes(base: Option<Secrets>, s: State, e: Event, es: seq<Event>)
    requires Inv(base, s) && Step(base, s, e).Some?
    ensures Inv(base, Step(base, s, e).value) && Exec(base, s, [e] + es) == Exec(base, Step(base, s, e).value, es)
  {
    StepInv(base, s, e);
    assert ([e] + es)[1..] == es;
  }

  /** The successful call of a stage, and the stage it leads to. */
  function Forth(stage: Stage): Event {
    match stage
    case Entered => LoadAndApply(true)
    case HasValue(_) => CreateTmp(true)
    case TmpOpen(_) => WriteData(true)
    case TmpWritten(_) => SyncData(true)
    case TmpSynced(_) => CloseData(true)
    case TmpClosed(_) => RenameTmp(true)
    case Failing => RemoveTmpFile(true)
    case Published => SyncDirectory(true)
    case Finished => Unlock
  }

  function Ahead(stage: Stage): Stage {
    match stage
    case HasValue(v) => TmpOpen(v)
    case TmpOpen(v) => TmpWritten(v)
    case TmpWritten(v) => TmpSynced(v)
    case TmpSynced(v) => TmpClosed(v)
    case _ => Finished
  }

  predicate Preparing(stage: Stage) {
    stage.HasValue? || stage.TmpOpen? || stage.TmpWritten? || stage.TmpSynced?
  }

  lemma StepsForth(base: Option<Secrets>, s: State)
    requires Inv(base, s) && s.writer.Some? && Preparing(s.writer.value.stage)
    ensures var t, w := Step(base, s, Forth(s.writer.value.stage)), s.writer.value;
      t.Some? && t.value.writer == Some(w.(stage := Ahead(w.stage))) && t.value.log == s.log
  {
  }

  const PUBLISHING := [RenameTmp(true), SyncDirectory(true), Unlock]

  /** The calls from a stage of preparation on. */
  function Remaining(stage: Stage): seq<Event>
    decreases Steps(stage)
  {
    if Preparing(stage) then [Forth(stage)] + Remaining(Ahead(stage)) else PUBLISHING
  }

  function Steps(stage: Stage): nat {
    match stage
    case HasValue(_) => 4
    case TmpOpen(_) => 3
    case TmpWritten(_) => 2
    case TmpSynced(_) => 1
    case _ => 0
  }

  /** The run was possible, the lock is free again, and the value is stored and durable. */
  ghost predicate Stored(base: Option<Secrets>, u: Option<State>, log: seq<Entry>, v: Secrets) {
    && u.Some? && Inv(base, u.value) && u.value.writer.None? && u.value.log == log
    && Value(u.value.disk) == Some(v) && Exposed(u.value.disk) == {Some(v)}
  }

  ghost predicate AtClosed(base: Option<Secrets>, u: State, w: Writer, v: Secrets, log: seq<Entry>) {
    Inv(base, u) && u.writer == Some(w.(stage := TmpClosed(v))) && u.log == log
  }

  /** Up to the synced and closed temp file. */
  lemma {:induction false} Prepares(base: Option<Secrets>, s: State, w: Writer, v: Secrets) returns (u: State)
    requires Inv(base, s) && s.writer == Some(w)
    requires w.stage in {HasValue(v), TmpOpen(v), TmpWritten(v), TmpSynced(v), TmpClosed(v)}
    ensures AtClosed(base, u, w, v, s.log)
    ensures Exec(base, s, Remaining(w.stage)) == Exec(base, u, PUBLISHING)
    decreases Steps(w.stage)
  {
    u := s;
    if Preparing(w.stage) {
      StepsForth(base, s);
      Executes(base, s, Forth(w.stage), Remaining(Ahead(w.stage)));
      u := Prepares(base, Step(base, s, Forth(w.stage)).value, w.(stage := Ahead(w.stage)), v);
    }
  }

  /** Rename: the call takes effect. */
  lemma Renames(base: Option<Secrets>, s: State, w: Writer, v: Secrets)
    requires AtClosed(base, s, w, v, s.log)
    ensures var t := Step(base, s, RenameTmp(true));
      && t.Some? && t.value.writer == Some(w.(stage := Published)) && t.value.log == s.log + [Entry(w.tid, w.op, Done)]
      && Sound(t.value.disk) && Value(t.value.disk) == Some(v)
  {
    RenameTakesEffect(s.disk, w.op, v, w.tid);
    RenameSound(s.disk, v);
  }

  lemma SyncsAndUnlocks(base: Option<Secrets>, s: State)
    requires Inv(base, s) && s.writer.Some? && s.writer.value.stage.Published?
    ensures var u := Exec(base, s, [SyncDirectory(true), Unlock]);
      && u.Some? && Inv(base, u.value) && u.value.writer.None? && u.value.log == s.log
      && Value(u.value.disk) == Value(s.disk) && Exposed(u.value.disk) == {Value(s.disk)}
  {
    Executes(base, s, SyncDirectory(true), [Unlock]);
    var t := Step(base, s, SyncDirectory(true)).value;
    SyncDirSound(s.disk);
    Executes(base, t, Unlock, []);
    assert [SyncDirectory(true)] + [Unlock] == [SyncDirectory(true), Unlock] && [Unlock] + [] == [Unlock];
  }

  /** Rename, directory sync, unlock: the call succeeds and is durable. */
  lemma Publishes(base: Option<Secrets>, s: State, w: Writer, v: Secrets)
    requires AtClosed(base, s, w, v, s.log)
    ensures Stored(base, Exec(base, s, PUBLISHING), s.log + [Entry(w.tid, w.op, Done)], v)
  {
    Renames(base, s, w, v);
    Executes(base, s, RenameTmp(true), [SyncDirectory(true), Unlock]);
    SyncsAndUnlocks(base, Step(base, s, RenameTmp(true)).value);
    assert [RenameTmp(true)] + [SyncDirectory(true), Unlock] == PUBLISHING;
  }

  lemma StoresIt(base: Option<Secrets>, s: State, w: Writer, v: Secrets)
    requires Inv(base, s) && s.writer == Some(w) && w.stage == HasValue(v)
    ensures Stored(base, Exec(base, s, Remaining(HasValue(v))), s.log + [Entry(w.tid, w.op, Done)], v)
  {
    var closed := Prepares(base, s, w, v);
    Publishes(base, closed, w, v);
  }

  /** Lock and load. */
  lemma Enters(base: Option<Secrets>, s: State, t: Tid, v: Secrets, es: seq<Event>) returns (u: State)
    requires Inv(base, s) && s.writer.None? && s.readers == map[]
    requires t in s.pending && ToStore(s.pending[t], Value(s.disk)) == Some(v)
    ensures Inv(base, u) && u.writer == Some(Writer(t, s.pending[t], HasValue(v))) && u.log == s.log
    ensures Exec(base, s, [Lock(t), LoadAndApply(true)] + es) == Exec(base, u, es)
  {
    Executes(base, s, Lock(t), [LoadAndApply(true)] + es);
    var mid := Step(base, s, Lock(t)).value;
    Executes(base, mid, LoadAndApply(true), es);
    u := Step(base, mid, LoadAndApply(true)).value;
    assert [Lock(t), LoadAndApply(true)] + es == [Lock(t)] + ([LoadAndApply(true)] + es);
  }

  lemma SavingSplits(t: Tid, v: Secrets)
    ensures [Lock(t)] + SAVING == [Lock(t), LoadAndApply(true)] + Remaining(HasValue(v))
  {
    assert Remaining(TmpSynced(v)) == [CloseData(true)] + PUBLISHING;
    assert Remaining(TmpWritten(v)) == [SyncData(true), CloseData(true)] + PUBLISHING;
    assert Remaining(TmpOpen(v)) == [WriteData(true), SyncData(true), CloseData(true)] + PUBLISHING;
  }

  /** A save, or an update whose function succeeds, with no failing call stores its value,
      durably, and enters the history as a success. */
  lemma SaveCompletes(base: Option<Secrets>, s: State, t: Tid, v: Secrets)
    requires Inv(base, s) && s.writer.None? && s.readers == map[]
    requires t in s.pending && ToStore(s.pending[t], Value(s.disk)) == Some(v)
    ensures Stored(base, Exec(base, s, [Lock(t)] + SAVING), s.log + [Entry(t, s.pending[t], Done)], v)
  {
    SavingSplits(t, v);
    EntersAndStores(base, s, t, v);
  }

  lemma EntersAndStores(base: Option<Secrets>, s: State, t: Tid, v: Secrets)
    requires Inv(base, s) && s.writer.None? && s.readers == map[]
    requires t in s.pending && ToStore(s.pending[t], Value(s.disk)) == Some(v)
    ensures Stored(base, Exec(base, s, [Lock(t), LoadAndApply(true)] + Remaining(HasValue(v))), s.log + [Entry(t, s.pending[t], Done)], v)
  {
    var u := Enters(base, s, t, v, Remaining(HasValue(v)));
    StoresIt(base, u, Writer(t, s.pending[t], HasValue(v)), v);
  }

  /** No deadlock: from every state a run leads to a free lock with the same calls pending. */
  lemma LockComesFree(base: Option<Secrets>, s: State)
    requires Inv(base, s)
    ensures exists es :: Exec(base, s, es).Some? && Free(Exec(base, s, es).value, s.pending)
  {
    WriterLeaves(base, s);
    var t :| Reaches(base, s, t) && Inv(base, t) && t.writer.None? && t.pending == s.pending && t.readers == s.readers;
    ReadersLeave(base, t);
    var u :| Reaches(base, t, u) && Inv(base, u) && u.writer.None? && u.pending == t.pending && u.readers == map[];
    ReachesTrans(base, s, t, u);
    var es :| Exec(base, s, es) == Some(u);
    assert Free(Exec(base, s, es).value, s.pending);
  }

  ghost predicate Free(s: State, pending: map<Tid, Op>) {
    s.writer.None? && s.readers == map[] && s.pending == pending
  }

  lemma {:induction false} ExecAppend(base: Option<Secrets>, s: State, es: seq<Event>, more: seq<Event>)
    requires Inv(base, s) && Exec(base, s, es).Some? && Inv(base, Exec(base, s, es).value)
    ensures Exec(base, s, es + more) == Exec(base, Exec(base, s, es).value, more)
    decreases |es|
  {
    if |es| == 0 {
      assert es + more == more;
    } else {
      assert (es + more)[1..] == es[1..] + more;
      StepInv(base, s, es[0]);
      ExecAppend(base, Step(base, s, es[0]).value, es[1..], more);
    }
  }
}
