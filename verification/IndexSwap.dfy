/** The live swap of the served index as a protocol: any number of tool calls under the read lock that
    pinIndex holds for a whole call, any number of reloads, Go's writer-preferring RWMutex, handles that are
    pools of connections, and collects that rename a new index over the served path at any moment. */
module IndexSwap {
  import opened Wrappers

  type Tid = nat
  type HandleId = nat
  type ConnId = nat
  type FileId = nat

  /** What describeIndex can find in a file: a schema version that matches, the indexed_at stamp, the counts. */
  datatype Index = Index(schemaMatches: bool, stamp: Option<string>, countable: bool)

  datatype Use = Idle | Busy | Gone

  /** A connection is bound to the file the served path named when it was opened. */
  datatype Conn = Conn(file: FileId, use: Use)

  /** A handle opens connections as queries need them and remembers every one; opening it opens the first. */
  datatype Handle = Handle(conns: seq<Conn>, closes: nat)

  /** What a reload reports: the stamp of the index it opened, the stamp it read of the served one, and on which
      connection it read that. */
  datatype Report = Report(at: string, prev: string, conn: ConnId)

  datatype Outcome =
    | Failed
    | Reloaded(installed: HandleId, replaced: HandleId, report: Report, changed: bool)

  /** One query of a tool call: the handle it went to and whether that was open, the connection it ran on and
      the file under it. */
  datatype Read = Read(handle: HandleId, open: bool, conn: ConnId, file: FileId)

  /** Where a thread stands. A tool call makes a given number of queries; a query holds its connection until its
      rows are closed, and others may run meanwhile. */
  datatype Pc =
    | CallStart(queries: nat)
    | CallParked(queries: nat)
    | CallRunning(admitted: HandleId, seen: seq<Read>, held: set<ConnId>, left: nat)
    | CallDone(admitted: HandleId, seen: seq<Read>)
    | ReloadStart
    | Entered
    | Opened(next: HandleId)
    | Rejected(next: HandleId)
    | Described(next: HandleId, at: string)
    | StampParked(next: HandleId, at: string)
    | StampPinned(next: HandleId, at: string)
    | StampRead(next: HandleId, report: Report)
    | Stamped(next: HandleId, report: Report)
    | Draining(next: HandleId, report: Report)
    | Exclusive(next: HandleId, report: Report)
    | Swapped(next: HandleId, report: Report, prior: HandleId)
    | Released(next: HandleId, report: Report, prior: HandleId)
    | Leaving(outcome: Outcome)
    | ReloadDone(outcome: Outcome)

  /** files records every file the served path has ever named, the current one last; served records every handle
      the server has ever served, the current one last. readers hold the read lock; parked wait for the
      announced writer to let go. */
  datatype State = State(
    files: seq<Index>,
    db: HandleId,
    handles: map<HandleId, Handle>,
    readers: set<Tid>,
    parked: set<Tid>,
    writer: Option<Tid>,
    reloadMu: Option<Tid>,
    threads: map<Tid, Pc>,
    served: seq<HandleId>)

  /** The choices within a step: whether the file opens, and which idle connection a query takes or gives back. */
  datatype Event = Advance | Refuse | OpenAs(handle: HandleId) | Take(conn: ConnId) | Dial | Release(conn: ConnId)

  /** A step of a thread, or a collect renaming a new index over the served path. */
  datatype Action = Move(t: Tid, e: Event) | Replace(index: Index)

  predicate Usable(index: Index) {
    index.schemaMatches && index.stamp.Some? && index.countable
  }

  /** The file the path names. */
  function Current(files: seq<Index>): FileId {
    if files == [] then 0 else |files| - 1
  }

  /** indexedAt answers the empty string when the stamp cannot be read. */
  function FileStamp(files: seq<Index>, f: FileId): string {
    if f < |files| && files[f].stamp.Some? then files[f].stamp.value else ""
  }

  type Handles = map<HandleId, Handle>

  predicate HasConn(handles: Handles, h: HandleId, c: ConnId) {
    h in handles && c < |handles[h].conns|
  }

  function ConnFile(handles: Handles, h: HandleId, c: ConnId): FileId {
    if HasConn(handles, h, c) then handles[h].conns[c].file else 0
  }

  /** The file a handle was opened on. */
  function Origin(handles: Handles, h: HandleId): FileId {
    ConnFile(handles, h, 0)
  }

  function StampOn(files: seq<Index>, handles: Handles, h: HandleId, c: ConnId): string {
    FileStamp(files, ConnFile(handles, h, c))
  }

  predicate IsOpen(handles: Handles, h: HandleId) {
    h in handles && handles[h].closes == 0
  }

  // ----- the connection pool -----

  /** database/sql keeps two idle connections unless told otherwise. */
  const MAX_IDLE := 2

  predicate IsIdle(handles: Handles, h: HandleId, c: ConnId) {
    HasConn(handles, h, c) && handles[h].conns[c].use.Idle?
  }

  predicate NoneIdle(handles: Handles, h: HandleId) {
    h in handles && forall c :: 0 <= c < |handles[h].conns| ==> !IsIdle(handles, h, c)
  }

  /** A query takes an idle connection, or opens one if there is none. */
  predicate CanGet(s: State, e: Event) {
    match e
    case Take(c) => IsIdle(s.handles, s.db, c)
    case Dial => NoneIdle(s.handles, s.db)
    case _ => false
  }

  function SetUse(handles: Handles, h: HandleId, c: ConnId, use: Use): Handles {
    if HasConn(handles, h, c) then
      handles[h := handles[h].(conns := handles[h].conns[c := handles[h].conns[c].(use := use)])]
    else handles
  }

  function AddConn(handles: Handles, h: HandleId, f: FileId): Handles {
    if h in handles then handles[h := handles[h].(conns := handles[h].conns + [Conn(f, Busy)])] else handles
  }

  function Got(s: State, e: Event): ConnId {
    match e
    case Take(c) => c
    case _ => if s.db in s.handles then |s.handles[s.db].conns| else 0
  }

  function AfterGet(s: State, e: Event): Handles {
    match e
    case Take(c) => SetUse(s.handles, s.db, c, Busy)
    case _ => AddConn(s.handles, s.db, Current(s.files))
  }

  function IdleCount(h: Handle): nat {
    |set c | 0 <= c < |h.conns| && h.conns[c].use.Idle?|
  }

  /** A connection given back stays idle if the handle is open and has room, and is closed otherwise. */
  function Put(handles: Handles, h: HandleId, c: ConnId): Handles {
    SetUse(handles, h, c,
           if h in handles && handles[h].closes == 0 && IdleCount(handles[h]) < MAX_IDLE then Idle else Gone)
  }

  function Drained(conns: seq<Conn>): seq<Conn> {
    seq(|conns|, c requires 0 <= c < |conns| => if conns[c].use.Busy? then conns[c] else Conn(conns[c].file, Gone))
  }

  /** Closing a handle closes its idle connections. */
  function Close(handles: Handles, h: HandleId): Handles {
    if h in handles then handles[h := Handle(Drained(handles[h].conns), handles[h].closes + 1)] else handles
  }

  // ----- steps -----

  predicate Enabled(s: State, t: Tid, e: Event) {
    t in s.threads &&
    match s.threads[t]
    case CallParked(_) => false
    case CallRunning(_, _, held, left) =>
      if e.Release? then e.conn in held
      else if left == 0 then e.Advance? && held == {}
      else CanGet(s, e)
    case CallDone(_, _) => false
    case ReloadStart => e.Advance? && s.reloadMu.None?
    case Entered => e.Refuse? || (e.OpenAs? && e.handle !in s.handles)
    case StampParked(_, _) => false
    case StampPinned(_, _) => CanGet(s, e)
    case Stamped(_, _) => e.Advance? && s.writer.None?
    case Draining(_, _) => e.Advance? && s.readers == {}
    case ReloadDone(_) => false
    case _ => e.Advance?
  }

  /** What a parked reader becomes when the writer lets go. */
  function Woken(db: HandleId, pc: Pc): Pc {
    match pc
    case CallParked(n) => CallRunning(db, [], {}, n)
    case StampParked(next, at) => StampPinned(next, at)
    case _ => pc
  }

  /** What a query of a call finds. */
  function Query(s: State, e: Event): Read {
    Read(s.db, IsOpen(s.handles, s.db), Got(s, e), ConnFile(AfterGet(s, e), s.db, Got(s, e)))
  }

  function NextPc(s: State, t: Tid, e: Event): Pc
    requires Enabled(s, t, e)
  {
    match s.threads[t]
    case CallStart(n) => if s.writer.None? then CallRunning(s.db, [], {}, n) else CallParked(n)
    case CallRunning(h, seen, held, left) =>
      if e.Release? then CallRunning(h, seen, held - {e.conn}, left)
      else if left == 0 then CallDone(h, seen)
      else CallRunning(h, seen + [Query(s, e)], held + {Got(s, e)}, left - 1)
    case ReloadStart => Entered
    case Entered => if e.Refuse? then Leaving(Failed) else Opened(e.handle)
    case Opened(next) =>
      var f := Origin(s.handles, next);
      if f < |s.files| && Usable(s.files[f]) then Described(next, FileStamp(s.files, f)) else Rejected(next)
    case Rejected(next) => Leaving(Failed)
    case Described(next, at) => if s.writer.None? then StampPinned(next, at) else StampParked(next, at)
    case StampPinned(next, at) => StampRead(next, Report(at, FileStamp(s.files, Query(s, e).file), Got(s, e)))
    case StampRead(next, report) => Stamped(next, report)
    case Stamped(next, report) => Draining(next, report)
    case Draining(next, report) => Exclusive(next, report)
    case Exclusive(next, report) => Swapped(next, report, s.db)
    case Swapped(next, report, prior) => Released(next, report, prior)
    case Released(next, report, prior) => Leaving(Reloaded(next, prior, report, report.at != report.prev))
    case Leaving(o) => ReloadDone(o)
    case _ => s.threads[t]
  }

  function NextHandles(s: State, t: Tid, e: Event): Handles
    requires Enabled(s, t, e)
  {
    match s.threads[t]
    case CallRunning(_, _, _, left) =>
      if e.Release? then Put(s.handles, s.db, e.conn) else if left == 0 then s.handles else AfterGet(s, e)
    case Entered =>
      if e.Refuse? then s.handles else s.handles[e.handle := Handle([Conn(Current(s.files), Idle)], 0)]
    case Rejected(next) => Close(s.handles, next)
    case StampPinned(_, _) => AfterGet(s, e)
    case StampRead(_, report) => Put(s.handles, s.db, report.conn)
    case Released(_, _, prior) => Close(s.handles, prior)
    case _ => s.handles
  }

  /** The locks, the served handle, and everybody the write lock was keeping waiting. */
  function Step(s: State, t: Tid, e: Event): State
    requires Enabled(s, t, e)
  {
    var moved := s.(threads := s.threads[t := NextPc(s, t, e)], handles := NextHandles(s, t, e));
    match s.threads[t]
    case CallStart(_) =>
      if s.writer.None? then moved.(readers := s.readers + {t}) else moved.(parked := s.parked + {t})
    case CallRunning(_, _, _, left) => if e.Release? || left > 0 then moved else moved.(readers := s.readers - {t})
    case ReloadStart => moved.(reloadMu := Some(t))
    case Described(_, _) =>
      if s.writer.None? then moved.(readers := s.readers + {t}) else moved.(parked := s.parked + {t})
    case StampRead(_, _) => moved.(readers := s.readers - {t})
    case Stamped(_, _) => moved.(writer := Some(t))
    case Exclusive(next, _) => moved.(db := next, served := s.served + [next])
    case Swapped(_, _, _) =>
      var woken := map u | u in s.threads :: Woken(s.db, s.threads[u]);
      moved.(threads := woken[t := NextPc(s, t, e)], readers := s.readers + s.parked, parked := {}, writer := None)
    case Leaving(_) => moved.(reloadMu := None)
    case _ => moved
  }

  ghost predicate Moves(s: State, a: Action, s': State) {
    match a
    case Move(t, e) => Enabled(s, t, e) && s' == Step(s, t, e)
    case Replace(index) => s' == s.(files := s.files + [index])
  }

  /** The server has opened one handle, on the file the path names, and nothing has run yet. */
  ghost predicate Init(s: State) {
    && s.files != []
    && s.handles == map[s.db := Handle([Conn(Current(s.files), Idle)], 0)]
    && s.readers == {} && s.parked == {} && s.writer == None && s.reloadMu == None
    && s.served == [s.db]
    && forall t :: t in s.threads ==> s.threads[t].CallStart? || s.threads[t].ReloadStart?
  }

  // ----- the invariant -----

  predicate HoldsRead(pc: Pc) { pc.CallRunning? || pc.StampPinned? || pc.StampRead? }

  predicate IsParked(pc: Pc) { pc.CallParked? || pc.StampParked? }

  predicate HoldsWrite(pc: Pc) { pc.Draining? || pc.Exclusive? || pc.Swapped? }

  predicate InReload(pc: Pc) {
    && !pc.CallStart? && !pc.CallParked? && !pc.CallRunning? && !pc.CallDone?
    && !pc.ReloadStart? && !pc.ReloadDone?
  }

  predicate Finished(pc: Pc) { pc.CallDone? || pc.ReloadDone? }

  /** The handle a reload has opened and neither installed nor closed. */
  function Holding(pc: Pc): Option<HandleId> {
    match pc
    case Opened(next) => Some(next)
    case Rejected(next) => Some(next)
    case Described(next, _) => Some(next)
    case StampParked(next, _) => Some(next)
    case StampPinned(next, _) => Some(next)
    case StampRead(next, _) => Some(next)
    case Stamped(next, _) => Some(next)
    case Draining(next, _) => Some(next)
    case Exclusive(next, _) => Some(next)
    case _ => None
  }

  /** The superseded handle a reload still has to close. */
  function Owing(pc: Pc): Option<HandleId> {
    match pc
    case Swapped(_, _, prior) => Some(prior)
    case Released(_, _, prior) => Some(prior)
    case _ => None
  }

  /** The (replaced, installed) pair of a reload that has swapped. */
  function Swap(pc: Pc): Option<(HandleId, HandleId)> {
    match pc
    case Swapped(next, _, prior) => Some((prior, next))
    case Released(next, _, prior) => Some((prior, next))
    case Leaving(Reloaded(next, prior, _, _)) => Some((prior, next))
    case ReloadDone(Reloaded(next, prior, _, _)) => Some((prior, next))
    case _ => None
  }

  ghost predicate ReadersMatch(s: State) {
    forall t :: t in s.readers <==> t in s.threads && HoldsRead(s.threads[t])
  }

  ghost predicate ParkedMatch(s: State) {
    && (forall t :: t in s.parked <==> t in s.threads && IsParked(s.threads[t]))
    && (s.parked != {} ==> s.writer.Some?)
  }

  ghost predicate WriterMatches(s: State) {
    forall t :: t in s.threads && HoldsWrite(s.threads[t]) <==> s.writer == Some(t)
  }

  ghost predicate ReloadMuMatches(s: State) {
    forall t :: t in s.threads && InReload(s.threads[t]) <==> s.reloadMu == Some(t)
  }

  ghost predicate WriterAlone(s: State) {
    forall t :: t in s.threads && (s.threads[t].Exclusive? || s.threads[t].Swapped?) ==> s.readers == {}
  }

  ghost predicate LocksMatch(s: State) {
    ReadersMatch(s) && ParkedMatch(s) && WriterMatches(s) && ReloadMuMatches(s) && WriterAlone(s)
  }

  ghost predicate ReadsPinned(s: State) {
    forall t :: t in s.threads ==> PinnedTo(s.db, s.handles, s.threads[t])
  }

  /** Every query of a call went to the handle served when the call was admitted, found it open, and ran on a
      connection of it. */
  ghost predicate PinnedTo(db: HandleId, handles: Handles, pc: Pc) {
    match pc
    case CallRunning(h, seen, _, _) => h == db && forall r :: r in seen ==> ReadOk(handles, h, r)
    case CallDone(h, seen) => forall r :: r in seen ==> ReadOk(handles, h, r)
    case _ => true
  }

  ghost predicate ReadOk(handles: Handles, h: HandleId, r: Read) {
    r.handle == h && r.open && HasConn(handles, h, r.conn) && ConnFile(handles, h, r.conn) == r.file
  }

  /** Every handle has its first connection, and every connection is on a file the path has named. */
  ghost predicate ConnsOk(files: seq<Index>, handles: Handles) {
    && files != []
    && (forall h :: h in handles ==> |handles[h].conns| > 0)
    && (forall h, c: ConnId :: HasConn(handles, h, c) ==> ConnFile(handles, h, c) < |files|)
  }

  predicate HoldsConn(pc: Pc, c: ConnId) {
    (pc.CallRunning? && c in pc.held) || (pc.StampRead? && c == pc.report.conn)
  }

  /** A connection in use belongs to the served handle, and a thread under the read lock holds it. */
  ghost predicate BusyIsHeld(s: State) {
    forall h, c: ConnId :: HasConn(s.handles, h, c) && s.handles[h].conns[c].use.Busy? ==>
      h == s.db && IsHeld(s.threads, c)
  }

  ghost predicate IsHeld(threads: map<Tid, Pc>, c: ConnId) {
    exists t :: t in threads && HoldsConn(threads[t], c)
  }

  /** A closed handle keeps no connection. */
  ghost predicate ClosedIsGone(handles: Handles) {
    forall h, c: ConnId :: HasConn(handles, h, c) && handles[h].closes > 0 ==> handles[h].conns[c].use.Gone?
  }

  /** The one reload in progress still has to install or close the handle. */
  ghost predicate InCharge(s: State, h: HandleId) {
    && s.reloadMu.Some? && s.reloadMu.value in s.threads
    && Charge(s.threads[s.reloadMu.value], h)
  }

  ghost predicate HandlesTracked(s: State) {
    && s.db in s.handles
    && (forall h :: h in s.handles ==> s.handles[h].closes <= 1)
    && (forall h :: h in s.handles ==> (s.handles[h].closes == 0 <==> h == s.db || InCharge(s, h)))
    && (forall t :: t in s.threads ==> HandlesOf(s, s.threads[t]))
  }

  ghost predicate HandlesOf(s: State, pc: Pc) {
    && (Holding(pc).Some? ==> Holding(pc).value in s.handles && Holding(pc).value !in s.served)
    && (Owing(pc).Some? ==> Owing(pc).value in s.handles && Owing(pc).value != s.db)
  }

  /** Every handle was served once, the current one last. */
  ghost predicate ServedOnce(served: seq<HandleId>, db: HandleId, handles: Handles) {
    && |served| > 0 && served[|served| - 1] == db
    && (forall i, j :: 0 <= i < j < |served| ==> served[i] != served[j])
    && (forall h :: h in served ==> h in handles)
  }

  ghost predicate ServedInOrder(s: State) {
    && ServedOnce(s.served, s.db, s.handles)
    && (forall t :: t in s.threads && Swap(s.threads[t]).Some? ==> Follows(s.served, Swap(s.threads[t]).value))
    && (forall i, j :: 0 <= i && j == i + 1 < |s.served| ==> SwapMade(s, s.served[i], s.served[j]))
  }

  ghost predicate Follows(served: seq<HandleId>, swap: (HandleId, HandleId)) {
    exists i, j :: 0 <= i && j == i + 1 < |served| && served[i] == swap.0 && served[j] == swap.1
  }

  ghost predicate SwapMade(s: State, prior: HandleId, next: HandleId) {
    exists t :: DidSwap(s, t, prior, next)
  }

  ghost predicate DidSwap(s: State, t: Tid, prior: HandleId, next: HandleId) {
    t in s.threads && Swap(s.threads[t]) == Some((prior, next))
  }

  ghost predicate StampsExact(s: State) {
    forall t :: t in s.threads ==> StampExact(s.files, s.handles, s.db, s.threads[t])
  }

  ghost predicate StampExact(files: seq<Index>, handles: Handles, db: HandleId, pc: Pc) {
    match pc
    case Described(next, at) => HasConn(handles, next, 0) && at == StampOn(files, handles, next, 0)
    case StampParked(next, at) => HasConn(handles, next, 0) && at == StampOn(files, handles, next, 0)
    case StampPinned(next, at) => HasConn(handles, next, 0) && at == StampOn(files, handles, next, 0)
    case StampRead(next, report) => ReportOk(files, handles, next, db, report)
    case Stamped(next, report) => ReportOk(files, handles, next, db, report)
    case Draining(next, report) => ReportOk(files, handles, next, db, report)
    case Exclusive(next, report) => ReportOk(files, handles, next, db, report)
    case Swapped(next, report, prior) => ReportOk(files, handles, next, prior, report) && next == db
    case Released(next, report, prior) => ReportOk(files, handles, next, prior, report) && next == db
    case Leaving(o) => OutcomeExact(files, handles, o)
    case ReloadDone(o) => OutcomeExact(files, handles, o)
    case _ => true
  }

  /** The stamps are those of the file the new handle was opened on, and of the file under the connection of the
      old one that the stamp was read on. */
  ghost predicate ReportOk(files: seq<Index>, handles: Handles, next: HandleId, prior: HandleId, report: Report) {
    && HasConn(handles, next, 0) && HasConn(handles, prior, report.conn)
    && report.at == StampOn(files, handles, next, 0) && report.prev == StampOn(files, handles, prior, report.conn)
  }

  ghost predicate OutcomeExact(files: seq<Index>, handles: Handles, o: Outcome) {
    o.Reloaded? ==>
      ReportOk(files, handles, o.installed, o.replaced, o.report) && (o.changed <==> o.report.at != o.report.prev)
  }

  ghost predicate Inv(s: State) {
    && LocksMatch(s) && ReadsPinned(s) && HandlesTracked(s) && ServedInOrder(s) && StampsExact(s)
    && ConnsOk(s.files, s.handles) && BusyIsHeld(s) && ClosedIsGone(s.handles)
  }

  lemma InitHolds(s: State)
    requires Init(s)
    ensures Inv(s)
  {
  }

  /** A step changes the stepping thread alone, except that releasing the write lock wakes the parked. */
  lemma OthersStay(s: State, t: Tid, e: Event, u: Tid)
    requires Enabled(s, t, e) && u != t
    ensures u in Step(s, t, e).threads <==> u in s.threads
    ensures u in s.threads ==>
              Step(s, t, e).threads[u] == (if s.threads[t].Swapped? then Woken(s.db, s.threads[u]) else s.threads[u])
  {
    hide NextPc, NextHandles, Woken;
  }

  lemma ThreadsStay(s: State, t: Tid, e: Event)
    requires Enabled(s, t, e)
    ensures Step(s, t, e).threads.Keys == s.threads.Keys
  {
    hide NextPc, NextHandles, Woken;
  }

  lemma StepParts(s: State, t: Tid, e: Event)
    requires Enabled(s, t, e)
    ensures var s' := Step(s, t, e);
            && s'.handles == NextHandles(s, t, e) && s'.files == s.files
            && t in s'.threads && s'.threads[t] == NextPc(s, t, e)
            && (s.threads[t].Exclusive? || (s'.db == s.db && s'.served == s.served))
  {
    hide NextPc, NextHandles, Woken;
  }

  lemma StepKeepsReaders(s: State, t: Tid, e: Event)
    requires LocksMatch(s) && Enabled(s, t, e)
    ensures ReadersMatch(Step(s, t, e))
  {
    var s' := Step(s, t, e);
    forall u ensures u in s'.readers <==> u in s'.threads && HoldsRead(s'.threads[u]) {
      if u != t {
        OthersStay(s, t, e, u);
      }
    }
  }

  lemma StepKeepsParked(s: State, t: Tid, e: Event)
    requires LocksMatch(s) && Enabled(s, t, e)
    ensures ParkedMatch(Step(s, t, e))
  {
    var s' := Step(s, t, e);
    forall u ensures u in s'.parked <==> u in s'.threads && IsParked(s'.threads[u]) {
      if u != t {
        OthersStay(s, t, e, u);
      }
    }
  }

  lemma StepKeepsWriter(s: State, t: Tid, e: Event)
    requires LocksMatch(s) && Enabled(s, t, e)
    ensures WriterMatches(Step(s, t, e)) && WriterAlone(Step(s, t, e))
  {
    var s' := Step(s, t, e);
    forall u ensures u in s'.threads && HoldsWrite(s'.threads[u]) <==> s'.writer == Some(u) {
      if u != t {
        OthersStay(s, t, e, u);
      }
    }
  }

  lemma StepKeepsReloadMu(s: State, t: Tid, e: Event)
    requires LocksMatch(s) && Enabled(s, t, e)
    ensures ReloadMuMatches(Step(s, t, e))
  {
    var s' := Step(s, t, e);
    forall u ensures u in s'.threads && InReload(s'.threads[u]) <==> s'.reloadMu == Some(u) {
      if u != t {
        OthersStay(s, t, e, u);
      }
    }
  }

  /** Two threads are never inside a reload at once. */
  lemma OneReload(s: State, t: Tid, u: Tid)
    requires ReloadMuMatches(s)
    requires t in s.threads && u in s.threads && InReload(s.threads[t]) && InReload(s.threads[u])
    ensures t == u
  {
  }

  // ----- connections stay on their files -----

  /** Handles and connections are only added, and a connection never changes its file. */
  ghost predicate Grown(before: Handles, after: Handles) {
    forall h, c: ConnId :: HasConn(before, h, c) ==>
      HasConn(after, h, c) && ConnFile(after, h, c) == ConnFile(before, h, c)
  }

  /** The ways a step changes the handles. */
  lemma StepChangesHandles(s: State, t: Tid, e: Event)
    requires Enabled(s, t, e)
    ensures var after := NextHandles(s, t, e);
            || after == s.handles
            || (CanGet(s, e) && after == AfterGet(s, e))
            || (exists c: ConnId :: after == Put(s.handles, s.db, c))
            || (exists h: HandleId ::
                  h !in s.handles && after == s.handles[h := Handle([Conn(Current(s.files), Idle)], 0)])
            || (exists h: HandleId :: after == Close(s.handles, h))
  {
    hide Put, Close, AfterGet;
    match s.threads[t]
    case CallRunning(_, _, _, _) => if e.Release? { assert NextHandles(s, t, e) == Put(s.handles, s.db, e.conn); }
    case StampRead(_, report) => assert NextHandles(s, t, e) == Put(s.handles, s.db, report.conn);
    case Rejected(next) => assert NextHandles(s, t, e) == Close(s.handles, next);
    case Released(_, _, prior) => assert NextHandles(s, t, e) == Close(s.handles, prior);
    case _ =>
  }

  lemma StepGrows(s: State, t: Tid, e: Event)
    requires Enabled(s, t, e)
    ensures Grown(s.handles, NextHandles(s, t, e))
  {
    StepChangesHandles(s, t, e);
    hide NextHandles, Enabled, IdleCount;
  }

  lemma StepKeepsConns(s: State, t: Tid, e: Event)
    requires Enabled(s, t, e) && ConnsOk(s.files, s.handles)
    ensures ConnsOk(s.files, NextHandles(s, t, e))
  {
    StepChangesHandles(s, t, e);
    var after := NextHandles(s, t, e);
    hide NextHandles, Enabled, IdleCount;
    forall h, c: ConnId | HasConn(after, h, c) ensures ConnFile(after, h, c) < |s.files| {
      assert HasConn(s.handles, h, c) ==> ConnFile(s.handles, h, c) < |s.files|;
    }
  }

  // ----- reads -----

  lemma StepKeepsReads(s: State, t: Tid, e: Event)
    requires Enabled(s, t, e) && ReadsPinned(s) && HandlesTracked(s) && ReadersMatch(s) && WriterAlone(s)
    ensures ReadsPinned(Step(s, t, e))
  {
    var s' := Step(s, t, e);
    StepGrows(s, t, e);
    StepParts(s, t, e);
    forall u | u in s'.threads ensures PinnedTo(s'.db, s'.handles, s'.threads[u]) {
      assert PinnedTo(s.db, s.handles, s.threads[u]);
      if u == t {
        OwnReads(s, t, e);
      } else {
        OthersStay(s, t, e, u);
        if s.threads[u].CallRunning? {
          DbStays(s, t, e, u);
        }
        hide Step, Enabled, NextPc, NextHandles;
        ReadsStayOk(s.db, s.handles, s'.handles, s.threads[u]);
      }
    }
  }

  /** While a call runs the served handle does not change. */
  lemma DbStays(s: State, t: Tid, e: Event, u: Tid)
    requires Enabled(s, t, e) && ReadersMatch(s) && WriterAlone(s) && u in s.threads && s.threads[u].CallRunning?
    ensures !s.threads[t].Exclusive?
  {
    assert u in s.readers;
  }

  lemma ReadsStayOk(db: HandleId, before: Handles, after: Handles, pc: Pc)
    requires PinnedTo(db, before, pc) && Grown(before, after)
    ensures PinnedTo(db, after, pc)
  {
  }

  lemma OwnReads(s: State, t: Tid, e: Event)
    requires Enabled(s, t, e) && PinnedTo(s.db, s.handles, s.threads[t]) && IsOpen(s.handles, s.db)
    ensures PinnedTo(s.db, NextHandles(s, t, e), NextPc(s, t, e))
  {
    StepGrows(s, t, e);
    if s.threads[t].CallRunning? {
      ReadsStayOk(s.db, s.handles, NextHandles(s, t, e), s.threads[t]);
      if !e.Release? && s.threads[t].left > 0 {
        GetsAConnection(s, e);
      }
    }
  }

  lemma GetsAConnection(s: State, e: Event)
    requires CanGet(s, e) && s.db in s.handles
    ensures HasConn(AfterGet(s, e), s.db, Got(s, e)) && AfterGet(s, e)[s.db].conns[Got(s, e)].use.Busy?
  {
  }

  // ----- handles -----

  predicate Charge(pc: Pc, h: HandleId) {
    Holding(pc) == Some(h) || Owing(pc) == Some(h)
  }

  /** The four steps that open, close or install a handle. */
  predicate Touches(pc: Pc) {
    pc.Entered? || pc.Rejected? || pc.Exclusive? || pc.Released?
  }

  lemma QuietStep(s: State, t: Tid, e: Event)
    requires Enabled(s, t, e) && !Touches(s.threads[t])
    ensures var s' := Step(s, t, e);
            && s'.db == s.db && s'.served == s.served
            && Holding(s'.threads[t]) == Holding(s.threads[t]) && Owing(s'.threads[t]) == Owing(s.threads[t])
            && Swap(s'.threads[t]) == Swap(s.threads[t])
  {
    StepParts(s, t, e);
    hide Step, NextHandles;
  }

  lemma QuietHandles(s: State, t: Tid, e: Event)
    requires Enabled(s, t, e) && !Touches(s.threads[t])
    ensures var after := NextHandles(s, t, e);
            && after.Keys == s.handles.Keys
            && forall h :: h in s.handles ==> after[h].closes == s.handles[h].closes
  {
    hide IdleCount;
  }

  lemma InChargeMoves(s: State, t: Tid, e: Event, h: HandleId)
    requires Enabled(s, t, e) && ReloadMuMatches(s)
    ensures var s' := Step(s, t, e);
            var pc, pc' := s.threads[t], s'.threads[t];
            && (InReload(pc) ==> (InCharge(s, h) <==> Charge(pc, h)) && (InCharge(s', h) <==> Charge(pc', h)))
            && (!InReload(pc) ==> (InCharge(s', h) <==> InCharge(s, h)))
  {
    assert InReload(s.threads[t]) <==> s.reloadMu == Some(t);
    if s.reloadMu.Some? && s.reloadMu.value != t {
      OthersStay(s, t, e, s.reloadMu.value);
    }
  }

  lemma StepKeepsOpenCount(s: State, t: Tid, e: Event, h: HandleId)
    requires Enabled(s, t, e) && HandlesTracked(s) && ReloadMuMatches(s) && s.db in s.served
    requires h in Step(s, t, e).handles
    ensures var s' := Step(s, t, e);
            s'.handles[h].closes <= 1 && (s'.handles[h].closes == 0 <==> h == s'.db || InCharge(s', h))
  {
    var s' := Step(s, t, e);
    var pc := s.threads[t];
    assert HandlesOf(s, pc);
    InChargeMoves(s, t, e, h);
    StepParts(s, t, e);
    hide Step, ReloadMuMatches, InCharge, HandlesOf;
    if Touches(pc) {
      assert h in s.handles ==> (s.handles[h].closes == 0 <==> h == s.db || Charge(pc, h));
    } else {
      QuietStep(s, t, e);
      QuietHandles(s, t, e);
      hide NextHandles, NextPc;
    }
  }

  lemma StepKeepsHandles(s: State, t: Tid, e: Event)
    requires Enabled(s, t, e) && HandlesTracked(s) && ReloadMuMatches(s) && ServedInOrder(s)
    ensures HandlesTracked(Step(s, t, e))
  {
    var s' := Step(s, t, e);
    assert HandlesOf(s, s.threads[t]);
    forall h | h in s'.handles
      ensures s'.handles[h].closes <= 1 && (s'.handles[h].closes == 0 <==> h == s'.db || InCharge(s', h))
    {
      StepKeepsOpenCount(s, t, e, h);
    }
    forall u | u in s'.threads ensures HandlesOf(s', s'.threads[u]) {
      StepKeepsHandlesOf(s, t, e, u);
    }
  }

  lemma StepKeepsHandlesOf(s: State, t: Tid, e: Event, u: Tid)
    requires Enabled(s, t, e) && ReloadMuMatches(s) && s.db in s.served && s.db in s.handles
    requires u in s.threads && HandlesOf(s, s.threads[u]) && HandlesOf(s, s.threads[t])
    requires forall h :: h in s.served ==> h in s.handles
    ensures HandlesOf(Step(s, t, e), Step(s, t, e).threads[u])
  {
    if !Touches(s.threads[t]) {
      QuietStep(s, t, e);
      QuietHandles(s, t, e);
    }
    if u != t {
      StepKeepsOtherHandles(s, t, e, u);
    }
  }

  lemma StepKeepsOtherHandles(s: State, t: Tid, e: Event, u: Tid)
    requires Enabled(s, t, e) && ReloadMuMatches(s) && u in s.threads && u != t && HandlesOf(s, s.threads[u])
    ensures HandlesOf(Step(s, t, e), Step(s, t, e).threads[u])
  {
    OthersStay(s, t, e, u);
    if InReload(s.threads[t]) && InReload(s.threads[u]) {
      OneReload(s, t, u);
    }
  }

  // ----- stamps -----

  lemma ReportStays(files: seq<Index>, before: Handles, after: Handles, next: HandleId, prior: HandleId, report: Report)
    requires Grown(before, after) && ReportOk(files, before, next, prior, report)
    ensures ReportOk(files, after, next, prior, report)
  {
  }

  /** A thread that does not move keeps its stamps, as long as the served handle stays while it reloads. */
  lemma StampStays(files: seq<Index>, before: Handles, after: Handles, db: HandleId, now: HandleId, pc: Pc)
    requires Grown(before, after) && StampExact(files, before, db, pc) && (InReload(pc) ==> db == now)
    ensures StampExact(files, after, now, pc)
  {
    hide Grown, StampOn;
    match pc
    case Described(next, _) => FirstStays(files, before, after, next);
    case StampParked(next, _) => FirstStays(files, before, after, next);
    case StampPinned(next, _) => FirstStays(files, before, after, next);
    case StampRead(next, report) => ReportStays(files, before, after, next, db, report);
    case Stamped(next, report) => ReportStays(files, before, after, next, db, report);
    case Draining(next, report) => ReportStays(files, before, after, next, db, report);
    case Exclusive(next, report) => ReportStays(files, before, after, next, db, report);
    case Swapped(next, report, prior) => ReportStays(files, before, after, next, prior, report);
    case Released(next, report, prior) => ReportStays(files, before, after, next, prior, report);
    case Leaving(o) => if o.Reloaded? { ReportStays(files, before, after, o.installed, o.replaced, o.report); }
    case ReloadDone(o) => if o.Reloaded? { ReportStays(files, before, after, o.installed, o.replaced, o.report); }
    case _ =>
  }

  lemma FirstStays(files: seq<Index>, before: Handles, after: Handles, h: HandleId)
    requires Grown(before, after) && HasConn(before, h, 0)
    ensures HasConn(after, h, 0) && StampOn(files, after, h, 0) == StampOn(files, before, h, 0)
  {
  }

  lemma StepKeepsStamps(s: State, t: Tid, e: Event)
    requires Enabled(s, t, e) && StampsExact(s) && HandlesTracked(s) && ReloadMuMatches(s)
    requires ConnsOk(s.files, s.handles)
    ensures StampsExact(Step(s, t, e))
  {
    var s' := Step(s, t, e);
    StepGrows(s, t, e);
    StepParts(s, t, e);
    forall u | u in s'.threads ensures StampExact(s'.files, s'.handles, s'.db, s'.threads[u]) {
      assert StampExact(s.files, s.handles, s.db, s.threads[u]);
      if u == t {
        assert HandlesOf(s, s.threads[t]);
        StepKeepsOwnStamp(s, t, e);
      } else {
        OthersStay(s, t, e, u);
        if s.threads[t].Exclusive? && InReload(s.threads[u]) {
          OneReload(s, t, u);
        }
        StampStays(s.files, s.handles, s'.handles, s.db, s'.db, s.threads[u]);
      }
    }
  }

  lemma StepKeepsOwnStamp(s: State, t: Tid, e: Event)
    requires Enabled(s, t, e) && s.db in s.handles && ConnsOk(s.files, s.handles)
    requires StampExact(s.files, s.handles, s.db, s.threads[t]) && HandlesOf(s, s.threads[t])
    ensures StampExact(s.files, NextHandles(s, t, e), if s.threads[t].Exclusive? then s.threads[t].next else s.db,
                       NextPc(s, t, e))
  {
    StepGrows(s, t, e);
    var pc, after := s.threads[t], NextHandles(s, t, e);
    StampStays(s.files, s.handles, after, s.db, s.db, pc);
    match pc
    case Opened(next) => FirstStays(s.files, s.handles, after, next);
    case StampPinned(_, _) => GetsAConnection(s, e);
    case _ =>
  }

  // ----- the order of swaps -----

  lemma StepKeepsServedOnce(s: State, t: Tid, e: Event)
    requires Enabled(s, t, e) && ServedOnce(s.served, s.db, s.handles) && HandlesOf(s, s.threads[t])
    ensures ServedOnce(Step(s, t, e).served, Step(s, t, e).db, Step(s, t, e).handles)
  {
    ServedGrows(s, t, e);
    hide Step, NextPc, NextHandles, Enabled;
  }

  lemma StepKeepsServed(s: State, t: Tid, e: Event)
    requires Enabled(s, t, e) && ServedInOrder(s) && HandlesTracked(s)
    ensures ServedInOrder(Step(s, t, e))
  {
    var s' := Step(s, t, e);
    StepKeepsServedOnce(s, t, e);
    hide Step, NextPc, NextHandles, Enabled, Swap, SwapMade, Follows, HandlesTracked, ServedOnce;
    ThreadsStay(s, t, e);
    forall u | u in s'.threads && Swap(s'.threads[u]).Some? ensures Follows(s'.served, Swap(s'.threads[u]).value) {
      StillFollows(s, t, e, u);
    }
    forall i, j | 0 <= i && j == i + 1 < |s'.served| ensures SwapMade(s', s'.served[i], s'.served[j]) {
      SwapStillMade(s, t, e, i);
    }
  }

  lemma StillFollows(s: State, t: Tid, e: Event, u: Tid)
    requires Enabled(s, t, e) && ServedInOrder(s) && u in s.threads
    requires Swap(Step(s, t, e).threads[u]).Some?
    ensures Follows(Step(s, t, e).served, Swap(Step(s, t, e).threads[u]).value)
  {
    var s' := Step(s, t, e);
    var swap := Swap(s'.threads[u]).value;
    var n := |s.served|;
    if u == t && s.threads[t].Exclusive? {
      assert s'.served[n - 1] == swap.0 && s'.served[n] == swap.1;
    } else {
      if u != t {
        OthersStay(s, t, e, u);
      }
      assert Swap(s.threads[u]) == Some(swap);
      ServedGrows(s, t, e);
      FollowsInLonger(s.served, s'.served, swap);
    }
  }

  /** The swap alone changes what is served, and no handle goes away. */
  lemma ServedGrows(s: State, t: Tid, e: Event)
    requires Enabled(s, t, e)
    ensures var s', pc := Step(s, t, e), s.threads[t];
            && s'.served == (if pc.Exclusive? then s.served + [pc.next] else s.served)
            && s'.db == (if pc.Exclusive? then pc.next else s.db)
            && forall h :: h in s.handles ==> h in s'.handles
  {
    StepParts(s, t, e);
    StepChangesHandles(s, t, e);
    hide NextPc, NextHandles, IdleCount;
  }

  lemma FollowsInLonger(served: seq<HandleId>, longer: seq<HandleId>, swap: (HandleId, HandleId))
    requires served <= longer && Follows(served, swap)
    ensures Follows(longer, swap)
  {
    var i, j :| 0 <= i && j == i + 1 < |served| && served[i] == swap.0 && served[j] == swap.1;
    assert longer[i] == swap.0 && longer[j] == swap.1;
  }

  lemma SwapStillMade(s: State, t: Tid, e: Event, i: nat)
    requires Enabled(s, t, e) && ServedInOrder(s)
    requires i + 1 < |Step(s, t, e).served|
    ensures SwapMade(Step(s, t, e), Step(s, t, e).served[i], Step(s, t, e).served[i + 1])
  {
    var s' := Step(s, t, e);
    if i + 1 < |s.served| {
      var j := i + 1;
      assert SwapMade(s, s.served[i], s.served[j]);
      var u :| DidSwap(s, u, s.served[i], s.served[j]);
      StillDidSwap(s, t, e, u, s.served[i], s.served[j]);
      assert DidSwap(s', u, s'.served[i], s'.served[j]);
    } else {
      assert DidSwap(s', t, s'.served[i], s'.served[i + 1]);
    }
  }

  lemma StillDidSwap(s: State, t: Tid, e: Event, u: Tid, prior: HandleId, next: HandleId)
    requires Enabled(s, t, e) && DidSwap(s, u, prior, next)
    ensures DidSwap(Step(s, t, e), u, prior, next)
  {
    if u != t {
      OthersStay(s, t, e, u);
    }
  }

  // ----- the pool -----

  lemma HeldByOthers(s: State, t: Tid, e: Event, c: ConnId)
    requires Enabled(s, t, e) && IsHeld(s.threads, c)
    requires HoldsConn(s.threads[t], c) ==> HoldsConn(Step(s, t, e).threads[t], c)
    ensures IsHeld(Step(s, t, e).threads, c)
  {
    var u :| u in s.threads && HoldsConn(s.threads[u], c);
    if u != t {
      OthersStay(s, t, e, u);
    }
    assert u in Step(s, t, e).threads && HoldsConn(Step(s, t, e).threads[u], c);
  }

  /** Nobody holds a connection while the writer has the lock. */
  lemma NoneHeldWhenAlone(s: State, c: ConnId)
    requires ReadersMatch(s) && s.readers == {}
    ensures !IsHeld(s.threads, c)
  {
    forall u | u in s.threads ensures !HoldsConn(s.threads[u], c) {
      assert u in s.readers <==> HoldsRead(s.threads[u]);
    }
  }

  lemma StepKeepsBusy(s: State, t: Tid, e: Event, h: HandleId, c: ConnId)
    requires Enabled(s, t, e) && BusyIsHeld(s) && ReadersMatch(s) && WriterAlone(s) && s.db in s.handles
    requires HasConn(Step(s, t, e).handles, h, c) && Step(s, t, e).handles[h].conns[c].use.Busy?
    ensures h == Step(s, t, e).db && IsHeld(Step(s, t, e).threads, c)
  {
    var s' := Step(s, t, e);
    if HasConn(s.handles, h, c) && s.handles[h].conns[c].use.Busy? {
      assert h == s.db && IsHeld(s.threads, c);
      if s.threads[t].Exclusive? {
        NoneHeldWhenAlone(s, c);
      }
      HeldByOthers(s, t, e, c);
    } else {
      assert HoldsConn(s'.threads[t], c) && h == s.db;
    }
  }

  lemma StepKeepsClosed(s: State, t: Tid, e: Event)
    requires Enabled(s, t, e) && ClosedIsGone(s.handles) && BusyIsHeld(s) && HandlesTracked(s) && s.db in s.served
    ensures ClosedIsGone(NextHandles(s, t, e))
  {
    assert HandlesOf(s, s.threads[t]);
    assert s.handles[s.db].closes == 0;
    var after := NextHandles(s, t, e);
    hide IdleCount, IsHeld, NextPc;
    forall h, c: ConnId | HasConn(after, h, c) && after[h].closes > 0 ensures after[h].conns[c].use.Gone? {
      if HasConn(s.handles, h, c) {
        assert s.handles[h].conns[c].use.Busy? ==> h == s.db;
      }
    }
  }

  lemma StepKeepsInv(s: State, t: Tid, e: Event)
    requires Inv(s) && Enabled(s, t, e)
    ensures Inv(Step(s, t, e))
  {
    var s' := Step(s, t, e);
    StepKeepsReaders(s, t, e);
    StepKeepsParked(s, t, e);
    StepKeepsWriter(s, t, e);
    StepKeepsReloadMu(s, t, e);
    StepKeepsReads(s, t, e);
    StepKeepsHandles(s, t, e);
    StepKeepsServed(s, t, e);
    StepKeepsStamps(s, t, e);
    StepKeepsConns(s, t, e);
    StepKeepsClosed(s, t, e);
    StepParts(s, t, e);
    forall h, c: ConnId | HasConn(s'.handles, h, c) && s'.handles[h].conns[c].use.Busy?
      ensures h == s'.db && IsHeld(s'.threads, c)
    {
      StepKeepsBusy(s, t, e, h, c);
    }
  }

  lemma ReplaceKeepsInv(s: State, index: Index)
    requires Inv(s)
    ensures Inv(s.(files := s.files + [index]))
  {
    var s' := s.(files := s.files + [index]);
    forall t | t in s'.threads ensures StampExact(s'.files, s'.handles, s'.db, s'.threads[t]) {
      assert StampExact(s.files, s.handles, s.db, s.threads[t]);
      ReplaceKeepsStamp(s.files, s.handles, s.db, index, s.threads[t]);
    }
    forall i, j | 0 <= i && j == i + 1 < |s'.served| ensures SwapMade(s', s'.served[i], s'.served[j]) {
      assert SwapMade(s, s.served[i], s.served[j]);
      var t :| DidSwap(s, t, s.served[i], s.served[j]);
      assert DidSwap(s', t, s.served[i], s.served[j]);
    }
    forall h | h in s'.handles ensures s'.handles[h].closes == 0 <==> h == s'.db || InCharge(s', h) {
      assert InCharge(s', h) <==> InCharge(s, h);
    }
    forall t | t in s'.threads ensures HandlesOf(s', s'.threads[t]) {
      assert HandlesOf(s, s.threads[t]);
    }
  }

  lemma ReplaceKeepsStamp(files: seq<Index>, handles: Handles, db: HandleId, index: Index, pc: Pc)
    requires ConnsOk(files, handles) && StampExact(files, handles, db, pc)
    ensures StampExact(files + [index], handles, db, pc)
  {
    forall h, c: ConnId | HasConn(handles, h, c)
      ensures StampOn(files + [index], handles, h, c) == StampOn(files, handles, h, c)
    {
      assert ConnFile(handles, h, c) < |files|;
    }
    hide StampOn, ConnsOk;
  }
}
