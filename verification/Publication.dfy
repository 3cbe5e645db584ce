/** How collect publishes an index: build it in a scratch file beside the target, close it, seal it out of
    WAL journalling, and rename it into place, with any number of collects and readers interleaved and
    every step able to fail or to be the last before a crash. */
module Publication {
  import opened Wrappers

  type Cid = nat
  type Rid = nat
  type Inode = nat

  /** Out is a path given to --out; scratch names are of their own kind and carry the random suffix;
      SQLite names its sidecars after the database file they belong to. */
  datatype Path =
    | Out(name: string)
    | Scratch(target: string, suffix: nat)
    | Wal(of: Path)
    | Shm(of: Path)

  datatype Pass = Compiler | Dwarf | Targets | Link | Sources

  const PASSES := [Compiler, Dwarf, Targets, Link, Sources]

  const MAX_ATTEMPTS := 10000

  datatype Journal = WalMode | DeleteMode

  /** What a file holds. */
  datatype Index = Index(schema: bool, stamped: bool, passes: seq<Pass>, beingWritten: bool, journal: Journal)

  const EMPTY := Index(false, false, [], false, DeleteMode)

  predicate Complete(ix: Index) {
    ix == Index(true, true, PASSES, false, DeleteMode)
  }

  /** Initialised, stamped, taken through the five passes in order, closed and out of WAL journalling. */
  lemma CompleteMeans(ix: Index)
    ensures Complete(ix) <==>
              && ix.schema && ix.stamped && ix.passes == [Compiler, Dwarf, Targets, Link, Sources]
              && !ix.beingWritten && ix.journal.DeleteMode?
  {
  }

  datatype Job = Job(out: string, replace: bool)

  /** What a collect does next to its scratch file. */
  datatype Stage = ToOpen | ToInit | ToStamp | ToResolve | ToPass(k: nat) | ToClose | ToSeal | ToRename

  datatype Pc =
    | Checking
    | Reserving(attempt: nat)
    | Reserved(tmp: Path, ino: Inode)
    | Unreserving(tmp: Path)
    | Building(tmp: Path, ino: Inode, stage: Stage)
    | Cleaning(tmp: Path, done: nat, ok: bool)
    | Ended(scratch: Option<Path>, ok: bool)
    | Crashed(left: Option<Path>)

  /** A connection is bound to the file the path named when it was opened; snapshot is what that file held. */
  datatype Conn = Conn(ino: Inode, snapshot: Index)

  /** A read-only handle is a pool that opens connections on its path as it needs them, until it is closed. It
      remembers them all, the first being the one that opening the handle pings with. */
  datatype Reader = Reader(path: Path, conns: seq<Conn>, open: bool)

  datatype State = State(
    dir: map<Path, Inode>,
    content: map<Inode, Index>,
    used: set<Path>,
    jobs: map<Cid, Job>,
    pcs: map<Cid, Pc>,
    readers: map<Rid, Reader>)

  /** A failed or crashed step may leave anything in the file it was writing, and any of its sidecars: the
      deferred close of the database comes before the clean-up and may have unlinked them, or failed to. */
  datatype Left = Left(ix: Index, wal: bool, shm: bool)

  datatype Event =
    | Do
    | Pick(suffix: nat, ino: Inode)
    | Collide
    | Fail(left: Left)
    | Crash(left: Left)

  /** The file's content when the collect is about to take the given stage. */
  function Before(stage: Stage): Index {
    match stage
    case ToOpen => EMPTY
    case ToInit => Index(false, false, [], true, WalMode)
    case ToStamp => Index(true, false, [], true, WalMode)
    case ToResolve => Index(true, true, [], true, WalMode)
    case ToPass(k) => Index(true, true, if k <= |PASSES| then PASSES[..k] else PASSES, true, WalMode)
    case ToClose => Index(true, true, PASSES, true, WalMode)
    case ToSeal => Index(true, true, PASSES, false, WalMode)
    case ToRename => Index(true, true, PASSES, false, DeleteMode)
  }

  /** What carrying out the stage does to the file. */
  function Perform(stage: Stage, ix: Index): Index {
    match stage
    case ToOpen => ix.(beingWritten := true, journal := WalMode)
    case ToInit => ix.(schema := true)
    case ToStamp => ix.(stamped := true)
    case ToResolve => ix
    case ToPass(k) => if k < |PASSES| then ix.(passes := ix.passes + [PASSES[k]]) else ix
    case ToClose => ix.(beingWritten := false)
    case ToSeal => ix.(journal := DeleteMode)
    case ToRename => ix
  }

  function Next(stage: Stage): Stage {
    match stage
    case ToOpen => ToInit
    case ToInit => ToStamp
    case ToStamp => ToResolve
    case ToResolve => ToPass(0)
    case ToPass(k) => if k + 1 < |PASSES| then ToPass(k + 1) else ToClose
    case ToClose => ToSeal
    case ToSeal => ToRename
    case ToRename => ToRename
  }

  predicate StageOk(stage: Stage) {
    stage.ToPass? ==> stage.k < |PASSES|
  }

  /** The journal sidecars come with the open database and go with its last connection. */
  function Sidecars(stage: Stage, tmp: Path, ino: Inode, dir: map<Path, Inode>): map<Path, Inode> {
    match stage
    case ToOpen => dir[Wal(tmp) := ino][Shm(tmp) := ino]
    case ToClose => dir - {Wal(tmp), Shm(tmp)}
    case _ => dir
  }

  function Littered(dir: map<Path, Inode>, tmp: Path, ino: Inode, left: Left): map<Path, Inode> {
    var swept := dir - {Wal(tmp), Shm(tmp)};
    var withWal := if left.wal then swept[Wal(tmp) := ino] else swept;
    if left.shm then withWal[Shm(tmp) := ino] else withWal
  }

  /** The error of a removal is ignored, whether the file was not there or would not go. */
  function Removed(dir: map<Path, Inode>, file: Path, e: Event): map<Path, Inode> {
    if e.Fail? then dir else dir - {file}
  }

  // ----- steps of a collect -----

  predicate Enabled(s: State, c: Cid, e: Event) {
    c in s.pcs && c in s.jobs &&
    match s.pcs[c]
    case Checking => e.Do? || e.Crash?
    case Reserving(_) =>
      || e.Collide? || e.Fail? || e.Crash?
      || (e.Pick? && Scratch(s.jobs[c].out, e.suffix) !in s.dir && Scratch(s.jobs[c].out, e.suffix) !in s.used
          && e.ino !in s.content)
    case Reserved(_, _) => e.Do? || e.Fail? || e.Crash?
    case Unreserving(_) => e.Do? || e.Fail? || e.Crash?
    case Building(_, _, _) => e.Do? || e.Fail? || e.Crash?
    case Cleaning(_, _, _) => e.Do? || e.Fail? || e.Crash?
    case Ended(_, _) => false
    case Crashed(_) => false
  }

  /** What a step does: where it takes the collect, and what it makes of the file system. */
  datatype Effect = Effect(pc: Pc, dir: map<Path, Inode>, content: map<Inode, Index>, used: set<Path>)

  function Outcome(s: State, c: Cid, e: Event): Effect
    requires Enabled(s, c, e)
  {
    var stay := Effect(s.pcs[c], s.dir, s.content, s.used);
    match s.pcs[c]
    case Checking =>
      if e.Crash? then stay.(pc := Crashed(None))
      else if Out(s.jobs[c].out) in s.dir && !s.jobs[c].replace then stay.(pc := Ended(None, false))
      else stay.(pc := Reserving(0))
    case Reserving(n) =>
      if e.Crash? then stay.(pc := Crashed(None))
      else if e.Fail? then stay.(pc := Ended(None, false))
      else if e.Collide? then stay.(pc := if n < MAX_ATTEMPTS then Reserving(n + 1) else Ended(None, false))
      else
        var tmp := Scratch(s.jobs[c].out, e.suffix);
        Effect(Reserved(tmp, e.ino), s.dir[tmp := e.ino], s.content[e.ino := EMPTY], s.used + {tmp})
    case Reserved(tmp, ino) =>
      stay.(pc := if e.Crash? then Crashed(Some(tmp))
                  else if e.Fail? then Unreserving(tmp)
                  else Building(tmp, ino, ToOpen))
    case Unreserving(tmp) =>
      if e.Crash? then stay.(pc := Crashed(Some(tmp)))
      else stay.(pc := Ended(Some(tmp), false), dir := Removed(s.dir, tmp, e))
    case Building(tmp, ino, stage) =>
      if e.Do? then
        if stage.ToRename? then
          stay.(pc := Cleaning(tmp, 0, true), dir := (s.dir - {tmp})[Out(s.jobs[c].out) := ino])
        else
          stay.(pc := Building(tmp, ino, Next(stage)),
                content := if ino in s.content then s.content[ino := Perform(stage, s.content[ino])] else s.content,
                dir := Sidecars(stage, tmp, ino, s.dir))
      else
        stay.(pc := if e.Crash? then Crashed(Some(tmp)) else Cleaning(tmp, 0, false),
              content := if stage.ToRename? then s.content else s.content[ino := e.left.ix],
              dir := if stage.ToRename? then s.dir else Littered(s.dir, tmp, ino, e.left))
    case Cleaning(tmp, done, ok) =>
      if e.Crash? then stay.(pc := Crashed(Some(tmp)))
      else
        var file := if done == 0 then tmp else if done == 1 then Wal(tmp) else Shm(tmp);
        stay.(pc := if done < 2 then Cleaning(tmp, done + 1, ok) else Ended(Some(tmp), ok),
              dir := Removed(s.dir, file, e))
    case _ => stay
  }

  function CollectStep(s: State, c: Cid, e: Event): State
    requires Enabled(s, c, e)
  {
    var o := Outcome(s, c, e);
    s.(pcs := s.pcs[c := o.pc], dir := o.dir, content := o.content, used := o.used)
  }

  /** One step of the system: of a collect, or of a reader opening a handle on the path it serves, opening one
      more connection, or closing the handle. */
  datatype Action = Collect(c: Cid, e: Event) | OpenFor(r: Rid, p: Path) | Dial(r: Rid) | Drop(r: Rid)

  function Connect(s: State, p: Path): Conn
    requires p in s.dir && s.dir[p] in s.content
  {
    Conn(s.dir[p], s.content[s.dir[p]])
  }

  ghost predicate Moves(s: State, a: Action, s': State) {
    match a
    case Collect(c, e) => Enabled(s, c, e) && s' == CollectStep(s, c, e)
    case OpenFor(r, p) =>
      && p.Out? && p in s.dir && s.dir[p] in s.content && r !in s.readers
      && s' == s.(readers := s.readers[r := Reader(p, [Connect(s, p)], true)])
    case Dial(r) =>
      && r in s.readers && s.readers[r].open
      && var h := s.readers[r];
         && h.path in s.dir && s.dir[h.path] in s.content
         && s' == s.(readers := s.readers[r := h.(conns := h.conns + [Connect(s, h.path)])])
    case Drop(r) => r in s.readers && s' == s.(readers := s.readers[r := s.readers[r].(open := false)])
  }

  /** Anything may lie at the --out paths and elsewhere before the first collect; no scratch name or
      sidecar of one is in use, and no --out path has a stray sidecar. */
  ghost predicate Init(s: State) {
    && s.pcs.Keys == s.jobs.Keys && s.used == {} && s.readers == map[]
    && (forall c :: c in s.pcs ==> s.pcs[c].Checking?)
    && (forall p :: p in s.dir ==> p.Out? && s.dir[p] in s.content)
  }

  // ----- the invariant -----

  /** The scratch file a collect still works on. */
  function Owned(pc: Pc): Option<(Path, Inode)> {
    match pc
    case Reserved(tmp, ino) => Some((tmp, ino))
    case Building(tmp, ino, _) => Some((tmp, ino))
    case _ => None
  }

  function TempOf(pc: Pc): Option<Path> {
    match pc
    case Reserved(tmp, _) => Some(tmp)
    case Unreserving(tmp) => Some(tmp)
    case Building(tmp, _, _) => Some(tmp)
    case Cleaning(tmp, _, _) => Some(tmp)
    case Ended(tmp, _) => tmp
    case Crashed(tmp) => tmp
    case _ => None
  }

  /** Some connection of the handle is on the inode. */
  ghost predicate IsOn(h: Reader, ino: Inode) {
    exists c :: c in h.conns && c.ino == ino
  }

  /** The inode a collect writes is in nobody else's hands: no --out path, no reader and no other collect
      can reach it. */
  ghost predicate Private(s: State, c: Cid, tmp: Path, ino: Inode) {
    && tmp in s.dir && s.dir[tmp] == ino && ino in s.content
    && (forall p :: p in s.dir && p.Out? ==> s.dir[p] != ino)
    && (forall r :: r in s.readers ==> !IsOn(s.readers[r], ino))
    && (forall d :: d in s.pcs && d != c && Owned(s.pcs[d]).Some? ==> Owned(s.pcs[d]).value.1 != ino)
  }

  ghost predicate OwnsPrivately(s: State, c: Cid)
    requires c in s.pcs
  {
    Owned(s.pcs[c]).Some? ==> Private(s, c, Owned(s.pcs[c]).value.0, Owned(s.pcs[c]).value.1)
  }

  ghost predicate NamesScratch(s: State, c: Cid)
    requires c in s.pcs
  {
    TempOf(s.pcs[c]).Some? ==> TempOf(s.pcs[c]).value.Scratch? && TempOf(s.pcs[c]).value in s.used
  }

  ghost predicate OnStage(s: State, c: Cid)
    requires c in s.pcs
  {
    match s.pcs[c]
    case Reserved(_, ino) => ino in s.content ==> s.content[ino] == EMPTY
    case Building(_, ino, stage) => StageOk(stage) && (ino in s.content ==> s.content[ino] == Before(stage))
    case _ => true
  }

  ghost predicate NameIsOwn(s: State, c: Cid)
    requires c in s.pcs
  {
    TempOf(s.pcs[c]).Some? ==> forall d :: d in s.pcs && d != c ==> TempOf(s.pcs[d]) != TempOf(s.pcs[c])
  }

  ghost predicate CollectOk(s: State, c: Cid)
    requires c in s.pcs
  {
    OwnsPrivately(s, c) && NamesScratch(s, c) && OnStage(s, c) && NameIsOwn(s, c) && Swept(s.dir, s.pcs[c])
  }

  /** Before the database is opened there are no sidecars. */
  ghost predicate Swept(dir: map<Path, Inode>, pc: Pc) {
    match pc
    case Reserved(tmp, _) => Wal(tmp) !in dir && Shm(tmp) !in dir
    case Unreserving(tmp) => Wal(tmp) !in dir && Shm(tmp) !in dir
    case Building(tmp, _, stage) => stage.ToOpen? ==> Wal(tmp) !in dir && Shm(tmp) !in dir
    case Cleaning(_, done, _) => done <= 2
    case _ => true
  }

  /** Every name in the directory is an --out path, a scratch name handed out once, or one of its sidecars. */
  ghost predicate DirOk(s: State) {
    && (forall p :: p in s.dir ==> s.dir[p] in s.content)
    && (forall p :: p in s.dir && !p.Out? ==>
          match p
          case Wal(of) => of in s.used
          case Shm(of) => of in s.used
          case _ => p in s.used)
    && (forall p :: p in s.used ==> p.Scratch?)
  }

  ghost predicate NamesKept(s: State) {
    forall p :: p in s.used ==> exists c :: Kept(s, c, p)
  }

  ghost predicate Kept(s: State, c: Cid, p: Path) {
    c in s.pcs && TempOf(s.pcs[c]) == Some(p)
  }

  ghost predicate ReadersOk(s: State) {
    forall r :: r in s.readers ==> ReaderOk(s.content, s.readers[r])
  }

  /** The files under a handle's connections are as they were when these were opened. */
  ghost predicate ReaderOk(content: map<Inode, Index>, h: Reader) {
    && h.path.Out? && |h.conns| > 0
    && forall c :: c in h.conns ==> c.ino in content && content[c.ino] == c.snapshot
  }

  ghost predicate Inv(s: State) {
    && (forall c :: c in s.pcs <==> c in s.jobs) && DirOk(s) && ReadersOk(s) && NamesKept(s)
    && forall c :: c in s.pcs ==> CollectOk(s, c)
  }

  lemma InitHolds(s: State)
    requires Init(s)
    ensures Inv(s)
  {
  }

  lemma PerformReachesNext(stage: Stage)
    requires StageOk(stage) && !stage.ToRename?
    ensures StageOk(Next(stage)) && Perform(stage, Before(stage)) == Before(Next(stage))
  {
    if stage.ToPass? {
      assert PASSES[..stage.k] + [PASSES[stage.k]] == PASSES[..stage.k + 1];
      assert PASSES[..|PASSES|] == PASSES;
    }
  }

  lemma CollectKeepsReaders(s: State, c: Cid, e: Event)
    requires Inv(s) && Enabled(s, c, e)
    ensures ReadersOk(CollectStep(s, c, e))
  {
    assert CollectOk(s, c);
  }

  lemma CollectKeepsDir(s: State, c: Cid, e: Event)
    requires Inv(s) && Enabled(s, c, e)
    ensures DirOk(CollectStep(s, c, e))
  {
    hide CollectStep, DirOk, OwnsPrivately, NamesScratch;
    assert CollectOk(s, c);
    OwnStepKeepsDir(s, c, e);
  }

  lemma OwnStepKeepsDir(s: State, c: Cid, e: Event)
    requires Enabled(s, c, e) && DirOk(s) && OwnsPrivately(s, c) && NamesScratch(s, c)
    ensures DirOk(CollectStep(s, c, e))
  {
    if s.pcs[c].Building? {
      if e.Do? {
        hide Littered, Removed;
      } else {
        hide Sidecars, Perform, Next, Removed;
      }
    } else {
      hide Sidecars, Littered, Perform, Next;
    }
  }

  lemma CollectKeepsItselfPrivate(s: State, c: Cid, e: Event)
    requires Enabled(s, c, e) && DirOk(s) && ReadersOk(s)
    requires forall x :: x in s.pcs ==> OwnsPrivately(s, x)
    requires NamesScratch(s, c)
    ensures OwnsPrivately(CollectStep(s, c, e), c)
  {
    var s' := CollectStep(s, c, e);
    assert OwnsPrivately(s, c);
    forall d | d in s'.pcs && d != c && Owned(s'.pcs[d]).Some? && Owned(s'.pcs[c]).Some?
      ensures Owned(s'.pcs[d]).value.1 != Owned(s'.pcs[c]).value.1
    {
      assert OwnsPrivately(s, d) && s'.pcs[d] == s.pcs[d];
    }
  }

  lemma CollectKeepsOtherPrivate(s: State, c: Cid, e: Event, d: Cid)
    requires Enabled(s, c, e) && d in s.pcs && d != c && DirOk(s)
    requires OwnsPrivately(s, c) && OwnsPrivately(s, d) && NamesScratch(s, c) && NamesScratch(s, d)
    requires NameIsOwn(s, c)
    ensures OwnsPrivately(CollectStep(s, c, e), d)
  {
    assert CollectStep(s, c, e).pcs[d] == s.pcs[d];
    assert CollectStep(s, c, e).readers == s.readers;
  }

  lemma CollectKeepsNames(s: State, c: Cid, e: Event, d: Cid)
    requires Enabled(s, c, e) && d in s.pcs && NamesScratch(s, c) && NamesScratch(s, d)
    ensures NamesScratch(CollectStep(s, c, e), d)
  {
  }

  lemma CollectKeepsStage(s: State, c: Cid, e: Event, d: Cid)
    requires Enabled(s, c, e) && d in s.pcs
    requires OwnsPrivately(s, c) && OwnsPrivately(s, d) && OnStage(s, c) && OnStage(s, d)
    ensures OnStage(CollectStep(s, c, e), d)
  {
    if s.pcs[c].Building? && !s.pcs[c].stage.ToRename? {
      PerformReachesNext(s.pcs[c].stage);
    }
  }

  lemma CollectKeepsNamesApart(s: State, c: Cid, e: Event, d: Cid)
    requires Enabled(s, c, e) && d in s.pcs && NameIsOwn(s, c) && NameIsOwn(s, d)
    requires forall x :: x in s.pcs ==> NamesScratch(s, x)
    ensures NameIsOwn(CollectStep(s, c, e), d)
  {
    var s' := CollectStep(s, c, e);
    CollectKeepsJobs(s, c, e);
    OwnName(s, c, e);
    if d != c {
      OthersStay(s, c, e, d);
    }
    forall x | x in s'.pcs && x != d && TempOf(s'.pcs[d]).Some? ensures TempOf(s'.pcs[x]) != TempOf(s'.pcs[d]) {
      if x != c {
        OthersStay(s, c, e, x);
      }
      assert NamesScratch(s, x) && NamesScratch(s, d);
      hide CollectStep, Enabled;
    }
  }

  /** The only names a step of a collect adds. */
  lemma NewNames(s: State, c: Cid, e: Event, p: Path)
    requires Enabled(s, c, e) && p !in s.dir && p in CollectStep(s, c, e).dir
    ensures || p == Out(s.jobs[c].out)
            || (s.pcs[c].Reserving? && p.Scratch? && p !in s.used)
            || (s.pcs[c].Building? && (p == Wal(s.pcs[c].tmp) || p == Shm(s.pcs[c].tmp)))
  {
  }

  lemma CollectKeepsItselfSwept(s: State, c: Cid, e: Event)
    requires Enabled(s, c, e) && DirOk(s) && Swept(s.dir, s.pcs[c]) && NamesScratch(s, c)
    ensures Swept(CollectStep(s, c, e).dir, CollectStep(s, c, e).pcs[c])
  {
    hide CollectStep, DirOk, NamesScratch;
    StepOf(s, c, e);
    match s.pcs[c]
    case Reserving(_) => FreshNameHasNoSidecars(s, c, e);
    case Building(tmp, ino, stage) =>
      hide Sidecars, Swept;
      assert !Next(stage).ToOpen?;
      StillBuildingIsSwept(s, c, e);
    case _ =>
  }

  lemma StepOf(s: State, c: Cid, e: Event)
    requires Enabled(s, c, e)
    ensures CollectStep(s, c, e).dir == Outcome(s, c, e).dir
    ensures c in CollectStep(s, c, e).pcs && CollectStep(s, c, e).pcs[c] == Outcome(s, c, e).pc
  {
    hide Outcome;
  }

  lemma FreshNameHasNoSidecars(s: State, c: Cid, e: Event)
    requires Enabled(s, c, e) && DirOk(s) && s.pcs[c].Reserving?
    ensures Swept(Outcome(s, c, e).dir, Outcome(s, c, e).pc)
  {
  }

  lemma StillBuildingIsSwept(s: State, c: Cid, e: Event)
    requires Enabled(s, c, e) && s.pcs[c].Building? && !Next(s.pcs[c].stage).ToOpen?
    ensures Swept(Outcome(s, c, e).dir, Outcome(s, c, e).pc)
  {
    hide Sidecars;
  }

  lemma CollectKeepsOtherSwept(s: State, c: Cid, e: Event, d: Cid)
    requires Enabled(s, c, e) && d in s.pcs && d != c
    requires Swept(s.dir, s.pcs[d]) && NamesScratch(s, d) && NamesScratch(s, c) && NameIsOwn(s, c)
    ensures Swept(CollectStep(s, c, e).dir, CollectStep(s, c, e).pcs[d])
  {
    var dir' := CollectStep(s, c, e).dir;
    assert CollectStep(s, c, e).pcs[d] == s.pcs[d];
    if TempOf(s.pcs[d]).Some? {
      var tmp := TempOf(s.pcs[d]).value;
      forall p | p in {tmp, Wal(tmp), Shm(tmp)} && p !in s.dir ensures p !in dir' {
        if p in dir' {
          NewNames(s, c, e, p);
        }
      }
    }
    hide CollectStep, Enabled;
  }

  lemma CollectKeepsOk(s: State, c: Cid, e: Event, d: Cid)
    requires Inv(s) && Enabled(s, c, e) && d in s.pcs
    ensures CollectOk(CollectStep(s, c, e), d)
  {
    forall x | x in s.pcs ensures OwnsPrivately(s, x) && NamesScratch(s, x) {
      assert CollectOk(s, x);
    }
    assert CollectOk(s, c) && CollectOk(s, d);
    hide CollectStep, Enabled, OwnsPrivately, NamesScratch, OnStage, NameIsOwn, Swept, DirOk, ReadersOk, NamesKept;
    CollectKeepsNames(s, c, e, d);
    CollectKeepsStage(s, c, e, d);
    CollectKeepsNamesApart(s, c, e, d);
    if c == d {
      CollectKeepsItselfPrivate(s, c, e);
      CollectKeepsItselfSwept(s, c, e);
    } else {
      CollectKeepsOtherPrivate(s, c, e, d);
      CollectKeepsOtherSwept(s, c, e, d);
    }
  }

  lemma CollectKeepsKept(s: State, c: Cid, e: Event)
    requires Enabled(s, c, e) && NamesKept(s)
    ensures NamesKept(CollectStep(s, c, e))
  {
    var s' := CollectStep(s, c, e);
    forall p | p in s'.used ensures exists d :: Kept(s', d, p) {
      if p in s.used {
        var d :| Kept(s, d, p);
        assert Kept(s', d, p);
      } else {
        assert Kept(s', c, p);
      }
    }
  }

  lemma CollectKeepsJobs(s: State, c: Cid, e: Event)
    requires Enabled(s, c, e)
    ensures CollectStep(s, c, e).jobs == s.jobs
    ensures forall d :: d in CollectStep(s, c, e).pcs <==> d in s.pcs
  {
    hide Outcome;
  }

  lemma OthersStay(s: State, c: Cid, e: Event, d: Cid)
    requires Enabled(s, c, e) && d in s.pcs && d != c
    ensures d in CollectStep(s, c, e).pcs && CollectStep(s, c, e).pcs[d] == s.pcs[d]
  {
    hide Outcome;
  }

  /** A collect keeps its scratch name, and gets one only by picking a name never used. */
  lemma OwnName(s: State, c: Cid, e: Event)
    requires Enabled(s, c, e)
    ensures var pc, pc' := s.pcs[c], CollectStep(s, c, e).pcs[c];
            || TempOf(pc') == TempOf(pc) || TempOf(pc') == None
            || (TempOf(pc').Some? && TempOf(pc').value !in s.used)
  {
  }

  lemma CollectKeepsInv(s: State, c: Cid, e: Event)
    requires Inv(s) && Enabled(s, c, e)
    ensures Inv(CollectStep(s, c, e))
  {
    hide CollectStep, Enabled, CollectOk, DirOk, ReadersOk, NamesKept;
    var s' := CollectStep(s, c, e);
    CollectKeepsJobs(s, c, e);
    CollectKeepsReaders(s, c, e);
    CollectKeepsDir(s, c, e);
    CollectKeepsKept(s, c, e);
    forall d | d in s'.pcs ensures CollectOk(s', d) {
      CollectKeepsOk(s, c, e, d);
    }
  }

  lemma ReadKeepsInv(s: State, a: Action, s': State)
    requires Inv(s) && Moves(s, a, s') && !a.Collect?
    ensures Inv(s')
  {
    forall d | d in s'.pcs ensures CollectOk(s', d) {
      assert CollectOk(s, d);
    }
    forall p | p in s'.used ensures exists d :: Kept(s', d, p) {
      var d :| Kept(s, d, p);
      assert Kept(s', d, p);
    }
  }

  // ----- whole runs -----

  ghost predicate Run(ss: seq<State>, acts: seq<Action>) {
    && |ss| > 0 && |acts| == |ss| - 1 && Init(ss[0])
    && forall k, l :: 0 <= k && l == k + 1 < |ss| ==> Moves(ss[k], acts[k], ss[l])
  }

  lemma {:induction false} RunKeepsInv(ss: seq<State>, acts: seq<Action>, k: nat)
    requires Run(ss, acts) && k < |ss|
    ensures Inv(ss[k])
  {
    hide Inv, Init;
    if k == 0 {
      InitHolds(ss[0]);
    } else {
      RunKeepsInv(ss, acts, k - 1);
      assert Moves(ss[k - 1], acts[k - 1], ss[k]);
      match acts[k - 1]
      case Collect(c, e) => CollectKeepsInv(ss[k - 1], c, e);
      case _ => ReadKeepsInv(ss[k - 1], acts[k - 1], ss[k]);
    }
  }

  /** The file an --out path names: as found at the start, or complete. */
  ghost predicate Trusted(s0: State, p: Path, ino: Inode, ix: Index) {
    Complete(ix) || (p in s0.dir && s0.dir[p] == ino && ino in s0.content && s0.content[ino] == ix)
  }

  ghost predicate Renames(s: State, a: Action, p: Path) {
    && a.Collect? && a.e.Do? && a.c in s.pcs && a.c in s.jobs
    && s.pcs[a.c].Building? && s.pcs[a.c].stage.ToRename? && p == Out(s.jobs[a.c].out)
  }

  /** One step leaves the file at an --out path as it was, unless it renames a complete index there. */
  lemma OutChangesOnlyByRename(s: State, a: Action, s': State, p: Path)
    requires Inv(s) && Moves(s, a, s') && p.Out?
    ensures if Renames(s, a, p) then p in s'.dir && s'.dir[p] in s'.content && Complete(s'.content[s'.dir[p]])
            else
              && (p in s'.dir <==> p in s.dir)
              && (p in s.dir ==>
                    s'.dir[p] == s.dir[p] && s.dir[p] in s'.content && s'.content[s.dir[p]] == s.content[s.dir[p]])
  {
    if a.Collect? {
      assert CollectOk(s, a.c);
      CollectChangesOut(s, a.c, a.e, p);
    }
  }

  lemma CollectChangesOut(s: State, c: Cid, e: Event, p: Path)
    requires Enabled(s, c, e) && p.Out? && DirOk(s)
    requires OwnsPrivately(s, c) && OnStage(s, c) && NamesScratch(s, c)
    ensures var s' := CollectStep(s, c, e);
            if Renames(s, Collect(c, e), p) then
              p in s'.dir && s'.dir[p] in s'.content && Complete(s'.content[s'.dir[p]])
            else
              && (p in s'.dir <==> p in s.dir)
              && (p in s.dir ==>
                    s'.dir[p] == s.dir[p] && s.dir[p] in s'.content && s'.content[s.dir[p]] == s.content[s.dir[p]])
  {
    assert p in s.dir ==> s.dir[p] in s.content;
  }

  /** At no moment of any run does an --out path name a file that has not been initialised, stamped, taken
      through all five passes, closed and sealed, other than one that lay there before. */
  lemma {:induction false} OutIsNeverIncomplete(ss: seq<State>, acts: seq<Action>, k: nat, p: Path)
    requires Run(ss, acts) && k < |ss| && p.Out? && p in ss[k].dir
    ensures ss[k].dir[p] in ss[k].content
    ensures Trusted(ss[0], p, ss[k].dir[p], ss[k].content[ss[k].dir[p]])
  {
    RunKeepsInv(ss, acts, k);
    if k > 0 {
      assert Moves(ss[k - 1], acts[k - 1], ss[k]);
      RunKeepsInv(ss, acts, k - 1);
      hide Inv, Moves;
      OutChangesOnlyByRename(ss[k - 1], acts[k - 1], ss[k], p);
      if !Renames(ss[k - 1], acts[k - 1], p) {
        OutIsNeverIncomplete(ss, acts, k - 1, p);
      }
    }
  }

  /** The file under a connection never changes, however many collects replace the path, and was trusted when
      the connection was opened. */
  lemma {:induction false} ConnectionsAreStable(ss: seq<State>, acts: seq<Action>, k: nat, r: Rid, c: Conn)
    requires Run(ss, acts) && k < |ss| && r in ss[k].readers && c in ss[k].readers[r].conns
    ensures c.ino in ss[k].content && ss[k].content[c.ino] == c.snapshot
    ensures Trusted(ss[0], ss[k].readers[r].path, c.ino, c.snapshot)
  {
    RunKeepsInv(ss, acts, k);
    assert ReaderOk(ss[k].content, ss[k].readers[r]);
    if k > 0 {
      var s, a, s' := ss[k - 1], acts[k - 1], ss[k];
      assert Moves(s, a, s');
      HandleStep(s, a, s', r);
      if r in s.readers && c in s.readers[r].conns {
        ConnectionsAreStable(ss, acts, k - 1, r, c);
      } else {
        OutIsNeverIncomplete(ss, acts, k - 1, s'.readers[r].path);
      }
    }
  }

  /** A step leaves a handle's connections alone, or adds one on what the path names. */
  lemma HandleStep(s: State, a: Action, s': State, r: Rid)
    requires Moves(s, a, s') && r in s'.readers
    ensures var h, before := s'.readers[r], if r in s.readers then s.readers[r].conns else [];
            && (r in s.readers ==> h.path == s.readers[r].path)
            && (h.conns != before || r !in s.readers ==>
                  && h.path in s.dir && s.dir[h.path] in s.content
                  && s'.dir == s.dir && h.conns == before + [Connect(s, h.path)]
                  && (r !in s.readers ==> h.path.Out?))
  {
  }

  /** A collect past its rename: it can only clean up, succeed or crash. */
  predicate PastRename(pc: Pc) {
    (pc.Cleaning? && pc.ok) || (pc.Ended? && pc.ok) || pc.Crashed?
  }

  lemma {:induction false} PastRenameStays(ss: seq<State>, acts: seq<Action>, k: nat, m: nat, c: Cid)
    requires Run(ss, acts) && k <= m < |ss| && c in ss[k].pcs && PastRename(ss[k].pcs[c])
    ensures c in ss[m].pcs && PastRename(ss[m].pcs[c])
  {
    if k < m {
      PastRenameStays(ss, acts, k, m - 1, c);
      assert Moves(ss[m - 1], acts[m - 1], ss[m]);
    }
  }

  /** A collect that ends in failure leaves every --out path as it was, at each of its steps. */
  lemma FailedCollectTouchesNoOut(ss: seq<State>, acts: seq<Action>, k: nat, m: nat, c: Cid, p: Path)
    requires Run(ss, acts) && k < m < |ss| && acts[k].Collect? && acts[k].c == c && p.Out?
    requires c in ss[m].pcs && ss[m].pcs[c].Ended? && !ss[m].pcs[c].ok
    ensures p in ss[k + 1].dir <==> p in ss[k].dir
    ensures p in ss[k].dir ==>
              && ss[k + 1].dir[p] == ss[k].dir[p]
              && ss[k].dir[p] in ss[k].content && ss[k].dir[p] in ss[k + 1].content
              && ss[k + 1].content[ss[k].dir[p]] == ss[k].content[ss[k].dir[p]]
  {
    var l := k + 1;
    RunKeepsInv(ss, acts, k);
    assert Moves(ss[k], acts[k], ss[l]);
    OutChangesOnlyByRename(ss[k], acts[k], ss[l], p);
    if Renames(ss[k], acts[k], p) {
      PastRenameStays(ss, acts, l, m, c);
    }
  }

  ghost predicate Published(ss: seq<State>, acts: seq<Action>, k: nat, c: Cid)
    requires |acts| == |ss| - 1
  {
    && k + 1 < |ss| && c in ss[k].jobs && acts[k] == Collect(c, Do)
    && var p := Out(ss[k].jobs[c].out);
       && Renames(ss[k], acts[k], p)
       && p in ss[k + 1].dir && ss[k + 1].dir[p] in ss[k + 1].content
       && Complete(ss[k + 1].content[ss[k + 1].dir[p]])
  }

  /** A collect that reports success did put a complete index at its --out path. */
  lemma {:induction false} SuccessMeansPublished(ss: seq<State>, acts: seq<Action>, m: nat, c: Cid)
    requires Run(ss, acts) && m < |ss| && c in ss[m].pcs
    requires (ss[m].pcs[c].Ended? || ss[m].pcs[c].Cleaning?) && ss[m].pcs[c].ok
    ensures exists k :: 0 <= k < m && Published(ss, acts, k, c)
  {
    assert m > 0;
    var s, a, s' := ss[m - 1], acts[m - 1], ss[m];
    assert Moves(s, a, s');
    RunKeepsInv(ss, acts, m - 1);
    hide Inv;
    BecomesOk(s, a, s', c);
    hide Moves;
    if (s.pcs[c].Ended? || s.pcs[c].Cleaning?) && s.pcs[c].ok {
      SuccessMeansPublished(ss, acts, m - 1, c);
    } else {
      OutChangesOnlyByRename(s, a, s', Out(s.jobs[c].out));
      assert Published(ss, acts, m - 1, c);
    }
  }

  lemma BecomesOk(s: State, a: Action, s': State, c: Cid)
    requires Moves(s, a, s') && c in s'.pcs
    requires (s'.pcs[c].Ended? || s'.pcs[c].Cleaning?) && s'.pcs[c].ok
    ensures c in s.pcs
    ensures if (s.pcs[c].Ended? || s.pcs[c].Cleaning?) && s.pcs[c].ok then true
            else c in s.jobs && a == Collect(c, Do) && Renames(s, a, Out(s.jobs[c].out))
  {
  }

  // ----- when a handle is one file -----

  /** The i-th connection of the handle appears with this state. */
  ghost predicate OpenedIn(ss: seq<State>, k: nat, r: Rid, i: nat)
    requires k < |ss|
  {
    Has(ss[k], r, i) && (k == 0 || !Has(ss[k - 1], r, i))
  }

  ghost predicate Has(s: State, r: Rid, i: nat) {
    r in s.readers && i < |s.readers[r].conns|
  }

  lemma {:induction false} ConnectionsAreKept(ss: seq<State>, acts: seq<Action>, k: nat, m: nat, r: Rid, i: nat)
    requires Run(ss, acts) && k <= m < |ss| && Has(ss[k], r, i)
    ensures Has(ss[m], r, i) && ss[m].readers[r].conns[i] == ss[k].readers[r].conns[i]
    ensures ss[m].readers[r].path == ss[k].readers[r].path
  {
    if k < m {
      ConnectionsAreKept(ss, acts, k, m - 1, r, i);
      assert Moves(ss[m - 1], acts[m - 1], ss[m]);
    }
  }

  /** Every connection was opened at some moment, on what the path named then. */
  lemma {:induction false} OpenedSomewhere(ss: seq<State>, acts: seq<Action>, k: nat, r: Rid, i: nat) returns (a: nat)
    requires Run(ss, acts) && k < |ss| && Has(ss[k], r, i)
    ensures a <= k && OpenedIn(ss, a, r, i)
  {
    if k == 0 || !Has(ss[k - 1], r, i) {
      a := k;
    } else {
      a := OpenedSomewhere(ss, acts, k - 1, r, i);
    }
  }

  lemma OpenedOnThePath(ss: seq<State>, acts: seq<Action>, a: nat, r: Rid, i: nat)
    requires Run(ss, acts) && a < |ss| && OpenedIn(ss, a, r, i)
    ensures var h := ss[a].readers[r]; h.path.Out? && h.path in ss[a].dir && h.conns[i].ino == ss[a].dir[h.path]
  {
    RunKeepsInv(ss, acts, a);
    assert ReaderOk(ss[a].content, ss[a].readers[r]);
    if a > 0 {
      assert Moves(ss[a - 1], acts[a - 1], ss[a]);
      HandleStep(ss[a - 1], acts[a - 1], ss[a], r);
    }
  }

  lemma OpenedOnce(ss: seq<State>, acts: seq<Action>, a: nat, b: nat, r: Rid, i: nat, j: nat)
    requires Run(ss, acts) && a < |ss| && b < |ss| && OpenedIn(ss, a, r, i) && OpenedIn(ss, b, r, j) && i <= j
    ensures a <= b && (i == j ==> a == b)
  {
    if b < a {
      assert Has(ss[b], r, i);
      ConnectionsAreKept(ss, acts, b, a - 1, r, i);
    }
    if i == j && a < b {
      ConnectionsAreKept(ss, acts, a, b - 1, r, i);
    }
  }

  /** A rename brings a file to the path that no connection is on. */
  lemma RenameLeavesConnectionsBehind(s: State, a: Action, s': State, p: Path, r: Rid, i: nat)
    requires Inv(s) && Moves(s, a, s') && p.Out? && Has(s, r, i) && Renames(s, a, p)
    ensures p in s'.dir && s'.dir[p] != s.readers[r].conns[i].ino
  {
    assert CollectOk(s, a.c);
    assert s.readers[r].conns[i] in s.readers[r].conns;
    assert IsOn(s.readers[r], s.readers[r].conns[i].ino);
  }

  ghost predicate RenamedIn(ss: seq<State>, acts: seq<Action>, a: nat, b: nat, p: Path)
    requires |acts| == |ss| - 1
  {
    exists m :: a <= m < b && m < |acts| && Renames(ss[m], acts[m], p)
  }

  /** Once a connection is open, the path names its file until it is renamed over, and never again after. */
  lemma {:induction false} PathKeepsItsFile(ss: seq<State>, acts: seq<Action>, a: nat, b: nat, p: Path, r: Rid, i: nat)
    requires Run(ss, acts) && a <= b < |ss| && p.Out? && Has(ss[a], r, i)
    requires p in ss[a].dir && ss[a].dir[p] == ss[a].readers[r].conns[i].ino
    ensures p in ss[b].dir
    ensures ss[b].dir[p] == ss[a].readers[r].conns[i].ino <==> !RenamedIn(ss, acts, a, b, p)
  {
    if a < b {
      var n := b - 1;
      PathKeepsItsFile(ss, acts, a, n, p, r, i);
      ConnectionsAreKept(ss, acts, a, n, r, i);
      RunKeepsInv(ss, acts, n);
      assert Moves(ss[n], acts[n], ss[b]);
      hide Inv, Moves, Run;
      OutChangesOnlyByRename(ss[n], acts[n], ss[b], p);
      if Renames(ss[n], acts[n], p) {
        RenameLeavesConnectionsBehind(ss[n], acts[n], ss[b], p, r, i);
      }
      assert RenamedIn(ss, acts, a, b, p) <==> RenamedIn(ss, acts, a, n, p) || Renames(ss[n], acts[n], p);
    }
  }

  /** The path was renamed over after the i-th connection of the handle was opened and before the j-th was. */
  ghost predicate RenamedBetween(ss: seq<State>, acts: seq<Action>, r: Rid, i: nat, j: nat, p: Path)
    requires |acts| == |ss| - 1
  {
    exists a, b :: && 0 <= a < |ss| && 0 <= b < |ss| && OpenedIn(ss, a, r, i) && OpenedIn(ss, b, r, j)
                   && RenamedIn(ss, acts, a, b, p)
  }

  /** Two connections of a handle are on one file exactly when no collect renamed over the path between their
      openings. */
  lemma HandleIsOneFileExactlyWhen(ss: seq<State>, acts: seq<Action>, k: nat, r: Rid, i: nat, j: nat)
    requires Run(ss, acts) && k < |ss| && i < j && Has(ss[k], r, j)
    ensures var h := ss[k].readers[r];
            h.conns[i].ino == h.conns[j].ino <==> !RenamedBetween(ss, acts, r, i, j, h.path)
  {
    var p := ss[k].readers[r].path;
    var a := OpenedSomewhere(ss, acts, k, r, i);
    var b := OpenedSomewhere(ss, acts, k, r, j);
    OpenedOnce(ss, acts, a, b, r, i, j);
    OpenedOnThePath(ss, acts, a, r, i);
    OpenedOnThePath(ss, acts, b, r, j);
    ConnectionsAreKept(ss, acts, a, k, r, i);
    ConnectionsAreKept(ss, acts, b, k, r, j);
    PathKeepsItsFile(ss, acts, a, b, p, r, i);
    hide RenamedIn;
    if RenamedBetween(ss, acts, r, i, j, p) {
      var x, y :| && 0 <= x < |ss| && 0 <= y < |ss| && OpenedIn(ss, x, r, i) && OpenedIn(ss, y, r, j)
                  && RenamedIn(ss, acts, x, y, p);
      OpenedOnce(ss, acts, a, x, r, i, i);
      OpenedOnce(ss, acts, b, y, r, j, j);
    }
  }

  // ----- what the clean-up leaves -----

  /** The file a step of the clean-up tries to remove. */
  function Removes(pc: Pc): Option<Path> {
    match pc
    case Unreserving(tmp) => Some(tmp)
    case Cleaning(tmp, done, _) => Some(if done == 0 then tmp else if done == 1 then Wal(tmp) else Shm(tmp))
    case _ => None
  }

  predicate IsFileOf(f: Path, tmp: Path) {
    f == tmp || f == Wal(tmp) || f == Shm(tmp)
  }

  /** The clean-up has come past the file. */
  predicate Past(pc: Pc, f: Path) {
    match pc
    case Cleaning(tmp, done, _) => (done > 0 && f == tmp) || (done > 1 && f == Wal(tmp))
    case Ended(tmp, _) => tmp.Some? && IsFileOf(f, tmp.value)
    case _ => false
  }

  /** A removal of a file that is there fails. */
  ghost predicate RemovalFails(s: State, a: Action, c: Cid, f: Path) {
    && a.Collect? && a.c == c && a.e.Fail? && c in s.pcs && Removes(s.pcs[c]) == Some(f) && f in s.dir
  }

  /** One step of the collect itself: past a file nothing more happens to it, and coming past it leaves it
      exactly if its removal fails. */
  lemma OwnStepRemoves(s: State, c: Cid, e: Event, f: Path)
    requires Enabled(s, c, e) && Swept(s.dir, s.pcs[c])
    ensures var s' := CollectStep(s, c, e);
            && !(Past(s.pcs[c], f) && RemovalFails(s, Collect(c, e), c, f))
            && (Past(s.pcs[c], f) && !s'.pcs[c].Crashed? ==> Past(s'.pcs[c], f) && (f in s'.dir <==> f in s.dir))
            && (!Past(s.pcs[c], f) && Past(s'.pcs[c], f) ==> (f in s'.dir <==> RemovalFails(s, Collect(c, e), c, f)))
            && (RemovalFails(s, Collect(c, e), c, f) ==> Past(s'.pcs[c], f))
  {
    StepOf(s, c, e);
    hide CollectStep, Sidecars;
  }

  lemma OtherStepRemoves(s: State, a: Action, s': State, c: Cid, f: Path)
    requires Inv(s) && Moves(s, a, s') && c in s.pcs && Past(s.pcs[c], f) && !(a.Collect? && a.c == c)
    ensures c in s'.pcs && s'.pcs[c] == s.pcs[c] && (f in s'.dir <==> f in s.dir)
  {
    assert CollectOk(s, c);
    if a.Collect? {
      assert CollectOk(s, a.c);
      OthersStay(s, a.c, a.e, c);
      if f !in s.dir && f in s'.dir {
        NewNames(s, a.c, a.e, f);
      }
      if f in s.dir {
        KeepsOthersFiles(s, a.c, a.e, f);
      }
    }
  }

  /** The only names a step of a collect takes away are its own scratch file's and sidecars'. */
  lemma KeepsOthersFiles(s: State, c: Cid, e: Event, f: Path)
    requires Enabled(s, c, e) && f in s.dir && (TempOf(s.pcs[c]).Some? ==> !IsFileOf(f, TempOf(s.pcs[c]).value))
    ensures f in CollectStep(s, c, e).dir
  {
  }

  ghost predicate SomeRemovalFailed(ss: seq<State>, acts: seq<Action>, k: nat, c: Cid, f: Path)
    requires k < |ss| && |acts| == |ss| - 1
  {
    exists m :: 0 <= m < k && RemovalFails(ss[m], acts[m], c, f)
  }

  /** Before the clean-up has come past a file, no removal of it has failed. */
  lemma {:induction false} NoRemovalYet(ss: seq<State>, acts: seq<Action>, k: nat, c: Cid, f: Path)
    requires Run(ss, acts) && k < |ss| && c in ss[k].pcs && !ss[k].pcs[c].Crashed? && !Past(ss[k].pcs[c], f)
    ensures !SomeRemovalFailed(ss, acts, k, c, f)
  {
    if k > 0 {
      var s, a, s' := ss[k - 1], acts[k - 1], ss[k];
      RunKeepsInv(ss, acts, k - 1);
      assert Moves(s, a, s');
      StaysUncrashed(s, a, s', c);
      assert CollectOk(s, c);
      if a.Collect? && a.c == c {
        OwnStepRemoves(s, c, a.e, f);
      } else if Past(s.pcs[c], f) {
        OtherStepRemoves(s, a, s', c, f);
      }
      NoRemovalYet(ss, acts, k - 1, c, f);
    }
  }

  lemma StaysUncrashed(s: State, a: Action, s': State, c: Cid)
    requires Moves(s, a, s') && c in s'.pcs && !s'.pcs[c].Crashed?
    ensures c in s.pcs && !s.pcs[c].Crashed?
  {
  }

  /** A file the clean-up has come past is still there exactly when its removal failed. */
  lemma {:induction false} LeftBehindExactlyWhen(ss: seq<State>, acts: seq<Action>, k: nat, c: Cid, f: Path)
    requires Run(ss, acts) && k < |ss| && c in ss[k].pcs && Past(ss[k].pcs[c], f)
    ensures f in ss[k].dir <==> SomeRemovalFailed(ss, acts, k, c, f)
  {
    assert k > 0;
    var s, a, s' := ss[k - 1], acts[k - 1], ss[k];
    RunKeepsInv(ss, acts, k - 1);
    assert Moves(s, a, s');
    StaysUncrashed(s, a, s', c);
    assert CollectOk(s, c);
    if a.Collect? && a.c == c {
      OwnStepRemoves(s, c, a.e, f);
    }
    if Past(s.pcs[c], f) {
      if !(a.Collect? && a.c == c) {
        OtherStepRemoves(s, a, s', c, f);
      }
      LeftBehindExactlyWhen(ss, acts, k - 1, c, f);
    } else {
      NoRemovalYet(ss, acts, k - 1, c, f);
    }
    hide Inv, Moves, Past;
    assert SomeRemovalFailed(ss, acts, k, c, f)
      <==> SomeRemovalFailed(ss, acts, k - 1, c, f) || RemovalFails(s, a, c, f);
  }

  /** Whatever lies in the directory beside the --out paths is the scratch file, or a sidecar of it, of a
      collect that crashed, has not ended, or could not remove that very file: a collect that ends, well or
      badly, with no removal failing leaves nothing behind, and no --out path ever has a sidecar. */
  lemma NoStrayFiles(ss: seq<State>, acts: seq<Action>, k: nat, p: Path)
    requires Run(ss, acts) && k < |ss| && p in ss[k].dir && !p.Out?
    ensures exists c, tmp ::
              && Kept(ss[k], c, tmp) && tmp.Scratch? && IsFileOf(p, tmp)
              && (ss[k].pcs[c].Ended? ==> SomeRemovalFailed(ss, acts, k, c, p))
  {
    RunKeepsInv(ss, acts, k);
    var tmp := match p case Wal(of) => of case Shm(of) => of case _ => p;
    var c :| Kept(ss[k], c, tmp);
    assert CollectOk(ss[k], c);
    if ss[k].pcs[c].Ended? {
      LeftBehindExactlyWhen(ss, acts, k, c, p);
    }
    assert Kept(ss[k], c, tmp) && IsFileOf(p, tmp);
  }

  lemma Extends(ss: seq<State>, acts: seq<Action>, c: Cid, e: Event) returns (longer: seq<State>, more: seq<Action>)
    requires Run(ss, acts) && Enabled(ss[|ss| - 1], c, e)
    ensures Run(longer, more) && |longer| > 0 && longer[|longer| - 1] == CollectStep(ss[|ss| - 1], c, e)
  {
    hide Init, CollectStep, Enabled;
    var s, s', a := ss[|ss| - 1], CollectStep(ss[|ss| - 1], c, e), Collect(c, e);
    longer, more := ss + [s'], acts + [a];
    forall k, l | 0 <= k && l == k + 1 < |longer| ensures Moves(longer[k], more[k], longer[l]) {
      if l < |ss| {
        assert Moves(ss[k], acts[k], ss[l]);
      }
    }
  }

  /** A collect that cannot close its scratch file, nor then remove it, ends with the file left behind. */
  lemma ScratchLeftBehind() returns (ss: seq<State>, acts: seq<Action>)
    ensures Run(ss, acts)
    ensures var s, tmp := ss[|ss| - 1], Scratch("index.hbr", 7);
            0 in s.pcs && s.pcs[0] == Ended(Some(tmp), false) && tmp in s.dir
  {
    var nothing := Left(EMPTY, false, false);
    var s0 := State(map[], map[], {}, map[0 := Job("index.hbr", false)], map[0 := Checking], map[]);
    ss, acts := [s0], [];
    assert Run(ss, acts);
    hide Run, Init;
    ss, acts := Extends(ss, acts, 0, Do);
    assert ss[|ss| - 1] == s0.(pcs := map[0 := Reserving(0)]);
    ss, acts := Extends(ss, acts, 0, Pick(7, 1));
    assert ss[|ss| - 1].pcs[0] == Reserved(Scratch("index.hbr", 7), 1);
    ss, acts := Extends(ss, acts, 0, Fail(nothing));
    assert ss[|ss| - 1].pcs[0] == Unreserving(Scratch("index.hbr", 7));
    ss, acts := Extends(ss, acts, 0, Fail(nothing));
  }
}
