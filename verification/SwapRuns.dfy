/** What holds over whole runs of the swap protocol: safety, when the reads of a call are of one index, that every
    schedule completes, and two runs that go wrong. */
module SwapRuns {
  import opened Wrappers
  import opened IndexSwap

  // ----- safety over whole runs -----

  /** One interleaving: the states passed through, and what moved between them. */
  ghost predicate Run(ss: seq<State>, acts: seq<Action>) {
    && |ss| > 0 && |acts| == |ss| - 1 && Init(ss[0])
    && forall k, l :: 0 <= k && l == k + 1 < |ss| ==> Moves(ss[k], acts[k], ss[l])
  }

  lemma MoveKeepsInv(s: State, a: Action, s': State)
    requires Inv(s) && Moves(s, a, s')
    ensures Inv(s')
  {
    hide Inv, Step, Enabled;
    match a
    case Move(t, e) => StepKeepsInv(s, t, e);
    case Replace(index) => ReplaceKeepsInv(s, index);
  }

  lemma {:induction false} RunKeepsInv(ss: seq<State>, acts: seq<Action>, k: nat)
    requires Run(ss, acts) && k < |ss|
    ensures Inv(ss[k])
  {
    hide Inv, Init, Moves;
    if k == 0 {
      InitHolds(ss[0]);
    } else {
      RunKeepsInv(ss, acts, k - 1);
      assert Moves(ss[k - 1], acts[k - 1], ss[k]);
      MoveKeepsInv(ss[k - 1], acts[k - 1], ss[k]);
    }
  }

  /** No tool call ever queries a closed handle, all its queries go to one handle and on connections of it, and
      the served handle is always open. */
  lemma CallsUseOneOpenHandle(ss: seq<State>, acts: seq<Action>, k: nat, t: Tid)
    requires Run(ss, acts) && k < |ss| && t in ss[k].threads
    ensures IsOpen(ss[k].handles, ss[k].db)
    ensures InCall(ss[k].threads[t]) ==>
              var pc := ss[k].threads[t];
              && (pc.CallRunning? ==> pc.admitted == ss[k].db)
              && forall r :: r in pc.seen ==> ReadOk(ss[k].handles, pc.admitted, r)
  {
    RunKeepsInv(ss, acts, k);
    assert PinnedTo(ss[k].db, ss[k].handles, ss[k].threads[t]);
    hide ReadOk;
  }

  predicate InCall(pc: Pc) { pc.CallRunning? || pc.CallDone? }

  ghost predicate AdmittedAt(ss: seq<State>, m: nat, t: Tid, h: HandleId)
    requires 0 < m < |ss|
  {
    && t in ss[m - 1].threads && t in ss[m].threads
    && !InCall(ss[m - 1].threads[t]) && ss[m].threads[t].CallRunning?
    && |ss[m].served| > 0 && h == ss[m].served[|ss[m].served| - 1]
  }

  lemma ServedLast(s: State)
    requires Inv(s)
    ensures |s.served| > 0 && s.served[|s.served| - 1] == s.db
  {
  }

  /** A call is admitted to the handle of the last swap before its admission, whether it got the lock at
      once or was parked behind a reload. */
  lemma AdmittedToTheLatest(s: State, t: Tid, e: Event, u: Tid)
    requires Enabled(s, t, e) && u in s.threads && |s.served| > 0 && s.served[|s.served| - 1] == s.db
    ensures u in Step(s, t, e).threads
    ensures var pc, pc', served := s.threads[u], Step(s, t, e).threads[u], Step(s, t, e).served;
            InCall(pc') ==>
              if InCall(pc) then pc'.admitted == pc.admitted
              else pc'.CallRunning? && pc'.seen == [] && served != [] && pc'.admitted == served[|served| - 1]
  {
    ThreadsStay(s, t, e);
    StepParts(s, t, e);
    if u != t {
      OthersStay(s, t, e, u);
    }
    hide Step, NextHandles, Query, AfterGet, Got, CanGet;
  }

  /** Over a whole run: the one handle a call queries is the one installed by the last swap before the moment
      the call was admitted. */
  lemma {:induction false} OneHandlePerCall(ss: seq<State>, acts: seq<Action>, k: nat, t: Tid)
    requires Run(ss, acts) && k < |ss| && t in ss[k].threads && InCall(ss[k].threads[t])
    ensures exists m :: 0 < m <= k && AdmittedAt(ss, m, t, ss[k].threads[t].admitted)
    ensures forall r :: r in ss[k].threads[t].seen ==> r.handle == ss[k].threads[t].admitted && r.open
  {
    hide Inv, Step, Enabled;
    CallsUseOneOpenHandle(ss, acts, k, t);
    if k == 0 {
      assert false;
    } else {
      hide Init;
      RunKeepsInv(ss, acts, k - 1);
      assert Moves(ss[k - 1], acts[k - 1], ss[k]);
      ServedLast(ss[k - 1]);
      if acts[k - 1].Move? {
        ThreadsStay(ss[k - 1], acts[k - 1].t, acts[k - 1].e);
        AdmittedToTheLatest(ss[k - 1], acts[k - 1].t, acts[k - 1].e, t);
      }
      if InCall(ss[k - 1].threads[t]) {
        OneHandlePerCall(ss, acts, k - 1, t);
        var m :| 0 < m <= k - 1 && AdmittedAt(ss, m, t, ss[k - 1].threads[t].admitted);
        assert AdmittedAt(ss, m, t, ss[k].threads[t].admitted);
      } else {
        assert AdmittedAt(ss, k, t, ss[k].threads[t].admitted);
      }
    }
  }

  /** While a writer waits or holds the lock no further reader gets in. */
  lemma WriterIsNotOvertaken(s: State, t: Tid, e: Event)
    requires Inv(s) && Enabled(s, t, e) && s.writer.Some?
    ensures Step(s, t, e).writer.Some? ==> Step(s, t, e).readers <= s.readers
  {
    assert HoldsWrite(s.threads[s.writer.value]);
    hide NextPc, NextHandles;
  }

  /** Once everything has finished, the served handle alone is open, with no connection in use, and every other
      handle any reload opened, superseded or rejected, has been closed exactly once and keeps no connection. */
  lemma NothingLeaks(ss: seq<State>, acts: seq<Action>, k: nat, h: HandleId, c: ConnId)
    requires Run(ss, acts) && k < |ss| && HasConn(ss[k].handles, h, c)
    requires forall t :: t in ss[k].threads ==> Finished(ss[k].threads[t])
    ensures ss[k].handles[h].closes == if h == ss[k].db then 0 else 1
    ensures var use := ss[k].handles[h].conns[c].use; if h == ss[k].db then !use.Busy? else use.Gone?
  {
    RunKeepsInv(ss, acts, k);
    forall t | t in ss[k].threads ensures !HoldsConn(ss[k].threads[t], c) {
    }
    hide ReadsPinned, StampsExact, ServedInOrder;
  }

  /** At any moment a handle is closed at most once; it is open exactly when it is served or the one reload in
      progress still has to install or close it; and closed it keeps no connection. */
  lemma ClosedOnceInstalledOrClosed(ss: seq<State>, acts: seq<Action>, k: nat, h: HandleId)
    requires Run(ss, acts) && k < |ss| && h in ss[k].handles
    ensures ss[k].handles[h].closes <= 1
    ensures IsOpen(ss[k].handles, h) <==> h == ss[k].db || InCharge(ss[k], h)
    ensures !IsOpen(ss[k].handles, h) ==>
              forall c :: 0 <= c < |ss[k].handles[h].conns| ==> ss[k].handles[h].conns[c].use.Gone?
  {
    RunKeepsInv(ss, acts, k);
    forall c | 0 <= c < |ss[k].handles[h].conns| && ss[k].handles[h].closes > 0
      ensures ss[k].handles[h].conns[c].use.Gone?
    {
      assert HasConn(ss[k].handles, h, c);
    }
    hide ReadsPinned, StampsExact, ServedInOrder, LocksMatch;
  }

  /** A successful reload reports the stamp of the file its handle was opened on, and that of the file under the
      connection of the very handle it replaced that the stamp was read on; changed says whether they differ. */
  lemma ReportIsExact(ss: seq<State>, acts: seq<Action>, k: nat, t: Tid)
    requires Run(ss, acts) && k < |ss| && t in ss[k].threads
    requires ss[k].threads[t].ReloadDone? && ss[k].threads[t].outcome.Reloaded?
    ensures var s, o := ss[k], ss[k].threads[t].outcome;
            && Follows(s.served, (o.replaced, o.installed))
            && HasConn(s.handles, o.installed, 0) && HasConn(s.handles, o.replaced, o.report.conn)
            && o.report.at == StampOn(s.files, s.handles, o.installed, 0)
            && o.report.prev == StampOn(s.files, s.handles, o.replaced, o.report.conn)
            && (o.changed <==> o.report.at != o.report.prev)
  {
    RunKeepsInv(ss, acts, k);
    assert StampExact(ss[k].files, ss[k].handles, ss[k].db, ss[k].threads[t]);
    hide LocksMatch, ReadsPinned, HandlesTracked, ConnsOk, StampOn;
  }

  lemma {:induction false} SwapIsRemembered(ss: seq<State>, acts: seq<Action>, k: nat, m: nat, t: Tid,
                                            prior: HandleId, next: HandleId)
    requires Run(ss, acts) && k <= m < |ss| && DidSwap(ss[k], t, prior, next)
    ensures DidSwap(ss[m], t, prior, next)
  {
    if k < m {
      SwapIsRemembered(ss, acts, k, m - 1, t, prior, next);
      assert Moves(ss[m - 1], acts[m - 1], ss[m]);
      hide Step, Enabled;
      if acts[m - 1].Move? {
        StillDidSwap(ss[m - 1], acts[m - 1].t, acts[m - 1].e, t, prior, next);
      }
    }
  }

  /** A reload that ends in failure never changed the served handle, at any of its steps. */
  lemma FailedReloadIsSilent(ss: seq<State>, acts: seq<Action>, k: nat, m: nat, t: Tid)
    requires Run(ss, acts) && k < m < |ss| && acts[k].Move? && acts[k].t == t
    requires t in ss[m].threads && ss[m].threads[t] == ReloadDone(Failed)
    ensures ss[k + 1].db == ss[k].db && ss[k + 1].served == ss[k].served
  {
    var l := k + 1;
    assert Moves(ss[k], acts[k], ss[l]);
    StepParts(ss[k], t, acts[k].e);
    if ss[k].threads[t].Exclusive? {
      SwapIsRemembered(ss, acts, l, m, t, ss[k].db, ss[k].threads[t].next);
    }
  }

  // ----- when a call, and a report, are of one index -----

  /** The connection appears with this state. */
  ghost predicate OpenedIn(ss: seq<State>, k: nat, h: HandleId, c: ConnId)
    requires k < |ss|
  {
    HasConn(ss[k].handles, h, c) && (k == 0 || !HasConn(ss[k - 1].handles, h, c))
  }

  /** A collect renamed over the served path in between. */
  ghost predicate ReplacedIn(acts: seq<Action>, a: nat, b: nat) {
    exists m :: a <= m < b && m < |acts| && acts[m].Replace?
  }

  /** A collect renamed over the served path after connection c of the handle was opened and before d was. */
  ghost predicate ReplacedBetween(ss: seq<State>, acts: seq<Action>, h: HandleId, c: ConnId, d: ConnId) {
    exists a, b :: && 0 <= a < |ss| && 0 <= b < |ss| && OpenedIn(ss, a, h, c) && OpenedIn(ss, b, h, d)
                   && ReplacedIn(acts, a, b)
  }

  lemma MoveGrows(s: State, a: Action, s': State)
    requires Moves(s, a, s')
    ensures Grown(s.handles, s'.handles)
  {
    if a.Move? {
      StepGrows(s, a.t, a.e);
      StepParts(s, a.t, a.e);
    }
    hide Step, NextHandles, NextPc;
  }

  lemma {:induction false} ConnectionsAreKept(ss: seq<State>, acts: seq<Action>, k: nat, m: nat, h: HandleId, c: ConnId)
    requires Run(ss, acts) && k <= m < |ss| && HasConn(ss[k].handles, h, c)
    ensures HasConn(ss[m].handles, h, c) && ConnFile(ss[m].handles, h, c) == ConnFile(ss[k].handles, h, c)
  {
    if k < m {
      ConnectionsAreKept(ss, acts, k, m - 1, h, c);
      assert Moves(ss[m - 1], acts[m - 1], ss[m]);
      MoveGrows(ss[m - 1], acts[m - 1], ss[m]);
      hide Moves;
    }
  }

  lemma {:induction false} OpenedSomewhere(ss: seq<State>, acts: seq<Action>, k: nat, h: HandleId, c: ConnId)
    returns (a: nat)
    requires Run(ss, acts) && k < |ss| && HasConn(ss[k].handles, h, c)
    ensures a <= k && OpenedIn(ss, a, h, c)
  {
    if k == 0 || !HasConn(ss[k - 1].handles, h, c) {
      a := k;
    } else {
      a := OpenedSomewhere(ss, acts, k - 1, h, c);
    }
  }

  /** A connection is opened on the file the path names then. */
  lemma NewConnIsCurrent(s: State, a: Action, s': State, h: HandleId, c: ConnId)
    requires Moves(s, a, s') && !HasConn(s.handles, h, c) && HasConn(s'.handles, h, c)
    ensures ConnFile(s'.handles, h, c) == Current(s'.files)
  {
    if a.Move? {
      StepChangesHandles(s, a.t, a.e);
      StepParts(s, a.t, a.e);
    }
    hide Step, Enabled, NextHandles, NextPc, IdleCount;
  }

  lemma OpenedOnCurrent(ss: seq<State>, acts: seq<Action>, a: nat, h: HandleId, c: ConnId)
    requires Run(ss, acts) && a < |ss| && OpenedIn(ss, a, h, c)
    ensures ConnFile(ss[a].handles, h, c) == Current(ss[a].files) && ss[a].files != []
  {
    RunKeepsInv(ss, acts, a);
    if a > 0 {
      assert Moves(ss[a - 1], acts[a - 1], ss[a]);
      NewConnIsCurrent(ss[a - 1], acts[a - 1], ss[a], h, c);
    }
    hide Moves;
  }

  /** Connections of a handle are opened in the order of their numbers, each once. */
  lemma OpenedInOrder(ss: seq<State>, acts: seq<Action>, a: nat, b: nat, h: HandleId, c: ConnId, d: ConnId)
    requires Run(ss, acts) && a < |ss| && b < |ss| && OpenedIn(ss, a, h, c) && OpenedIn(ss, b, h, d) && c <= d
    ensures a <= b && (c == d ==> a == b)
  {
    hide Run;
    if b < a {
      ConnectionsAreKept(ss, acts, b, a - 1, h, c);
    }
    if c == d && a < b {
      ConnectionsAreKept(ss, acts, a, b - 1, h, c);
    }
  }

  lemma {:induction false} FilesAreAdded(ss: seq<State>, acts: seq<Action>, a: nat, b: nat)
    requires Run(ss, acts) && a <= b < |ss|
    ensures |ss[a].files| <= |ss[b].files|
    ensures |ss[a].files| == |ss[b].files| <==> !ReplacedIn(acts, a, b)
  {
    if a < b {
      var n := b - 1;
      FilesAreAdded(ss, acts, a, n);
      assert Moves(ss[n], acts[n], ss[b]);
      if acts[n].Move? {
        StepParts(ss[n], acts[n].t, acts[n].e);
      }
      hide Moves;
      assert ReplacedIn(acts, a, b) <==> ReplacedIn(acts, a, n) || acts[n].Replace?;
    }
  }

  /** Two connections of a handle are on one file exactly when no collect renamed over the path between their
      openings. */
  lemma SameFileExactlyWhen(ss: seq<State>, acts: seq<Action>, k: nat, h: HandleId, c: ConnId, d: ConnId)
    requires Run(ss, acts) && k < |ss| && c <= d && HasConn(ss[k].handles, h, d)
    ensures ConnFile(ss[k].handles, h, c) == ConnFile(ss[k].handles, h, d) <==> !ReplacedBetween(ss, acts, h, c, d)
  {
    hide Run, ReplacedIn;
    var a := OpenedSomewhere(ss, acts, k, h, c);
    var b := OpenedSomewhere(ss, acts, k, h, d);
    OpenedInOrder(ss, acts, a, b, h, c, d);
    OpenedOnCurrent(ss, acts, a, h, c);
    OpenedOnCurrent(ss, acts, b, h, d);
    ConnectionsAreKept(ss, acts, a, k, h, c);
    ConnectionsAreKept(ss, acts, b, k, h, d);
    FilesAreAdded(ss, acts, a, b);
    if ReplacedBetween(ss, acts, h, c, d) {
      var x, y :| && 0 <= x < |ss| && 0 <= y < |ss| && OpenedIn(ss, x, h, c) && OpenedIn(ss, y, h, d)
                  && ReplacedIn(acts, x, y);
      OpenedInOrder(ss, acts, a, x, h, c, c);
      OpenedInOrder(ss, acts, b, y, h, d, d);
    }
  }

  /** All queries of a call read one file exactly when no collect renamed over the path between the openings of
      two connections they ran on; and they read the file their handle was opened on exactly when none of these
      connections was opened after a rename since. */
  lemma CallReadsOneIndexExactlyWhen(ss: seq<State>, acts: seq<Action>, k: nat, t: Tid)
    requires Run(ss, acts) && k < |ss| && t in ss[k].threads && InCall(ss[k].threads[t])
    ensures var seen, h := ss[k].threads[t].seen, ss[k].threads[t].admitted;
            && ((forall r, q :: r in seen && q in seen ==> r.file == q.file)
                <==> forall r, q :: r in seen && q in seen && r.conn <= q.conn ==>
                       !ReplacedBetween(ss, acts, h, r.conn, q.conn))
            && ((forall r :: r in seen ==> r.file == Origin(ss[k].handles, h))
                <==> forall r :: r in seen ==> !ReplacedBetween(ss, acts, h, 0, r.conn))
  {
    var seen, h := ss[k].threads[t].seen, ss[k].threads[t].admitted;
    CallsUseOneOpenHandle(ss, acts, k, t);
    hide Run, ReplacedBetween;
    forall r, q | r in seen && q in seen && r.conn <= q.conn
      ensures r.file == q.file <==> !ReplacedBetween(ss, acts, h, r.conn, q.conn)
    {
      assert ReadOk(ss[k].handles, h, r) && ReadOk(ss[k].handles, h, q);
      SameFileExactlyWhen(ss, acts, k, h, r.conn, q.conn);
    }
    forall r | r in seen
      ensures r.file == Origin(ss[k].handles, h) <==> !ReplacedBetween(ss, acts, h, 0, r.conn)
    {
      assert ReadOk(ss[k].handles, h, r);
      SameFileExactlyWhen(ss, acts, k, h, 0, r.conn);
    }
    hide ReadOk, Origin;
    if forall r, q :: r in seen && q in seen && r.conn <= q.conn ==> !ReplacedBetween(ss, acts, h, r.conn, q.conn) {
      forall r, q | r in seen && q in seen ensures r.file == q.file {
        if r.conn <= q.conn {
          assert !ReplacedBetween(ss, acts, h, r.conn, q.conn);
        } else {
          assert !ReplacedBetween(ss, acts, h, q.conn, r.conn);
        }
      }
    }
  }

  /** The previous stamp a reload reports is read from the file the handle it replaces was opened on exactly when
      the connection it was read on was not opened after a rename since. */
  lemma PreviousStampExactlyWhen(ss: seq<State>, acts: seq<Action>, k: nat, t: Tid)
    requires Run(ss, acts) && k < |ss| && t in ss[k].threads
    requires ss[k].threads[t].ReloadDone? && ss[k].threads[t].outcome.Reloaded?
    ensures var o, handles := ss[k].threads[t].outcome, ss[k].handles;
            ConnFile(handles, o.replaced, o.report.conn) == Origin(handles, o.replaced)
            <==> !ReplacedBetween(ss, acts, o.replaced, 0, o.report.conn)
  {
    ReportIsExact(ss, acts, k, t);
    var o := ss[k].threads[t].outcome;
    SameFileExactlyWhen(ss, acts, k, o.replaced, 0, o.report.conn);
  }

  /** Every file the path has named bears a stamp of its own. */
  ghost predicate StampsDiffer(files: seq<Index>) {
    forall i, j :: 0 <= i < j < |files| ==> FileStamp(files, i) != FileStamp(files, j)
  }

  /** Given distinct stamps, changed tells whether the handles that changed places were opened on different files,
      exactly when the connection the old stamp was read on is on the new file if and only if the old handle
      was opened on it; in particular when it was not opened after a rename since. */
  lemma ChangedIsRightExactlyWhen(ss: seq<State>, acts: seq<Action>, k: nat, t: Tid)
    requires Run(ss, acts) && k < |ss| && t in ss[k].threads && StampsDiffer(ss[k].files)
    requires ss[k].threads[t].ReloadDone? && ss[k].threads[t].outcome.Reloaded?
    ensures var o, handles := ss[k].threads[t].outcome, ss[k].handles;
            var was, now, on := Origin(handles, o.replaced), Origin(handles, o.installed),
                                 ConnFile(handles, o.replaced, o.report.conn);
            && ((o.changed <==> was != now) <==> (on == now <==> was == now))
            && (!ReplacedBetween(ss, acts, o.replaced, 0, o.report.conn) ==> (o.changed <==> was != now))
  {
    ReportIsExact(ss, acts, k, t);
    PreviousStampExactlyWhen(ss, acts, k, t);
    RunKeepsInv(ss, acts, k);
    var s, o := ss[k], ss[k].threads[t].outcome;
    var now, on := ConnFile(s.handles, o.installed, 0), ConnFile(s.handles, o.replaced, o.report.conn);
    assert now < |s.files| && on < |s.files|;
    hide Inv, Run, ReplacedBetween;
    assert on != now ==> FileStamp(s.files, on) != FileStamp(s.files, now);
  }

  // ----- every schedule completes -----

  /** More steps than the thread can still take. */
  function Rank(pc: Pc): nat {
    match pc
    case CallStart(n) => 2 * n + 3
    case CallParked(n) => 2 * n + 2
    case CallRunning(_, _, held, left) => 2 * left + |held| + 1
    case CallDone(_, _) => 0
    case ReloadStart => 15
    case Entered => 14
    case Opened(_) => 13
    case Described(_, _) => 12
    case StampParked(_, _) => 11
    case StampPinned(_, _) => 10
    case StampRead(_, _) => 9
    case Stamped(_, _) => 8
    case Draining(_, _) => 7
    case Exclusive(_, _) => 6
    case Swapped(_, _, _) => 5
    case Released(_, _, _) => 4
    case Rejected(_) => 3
    case Leaving(_) => 2
    case ReloadDone(_) => 0
  }

  ghost function Total(threads: map<Tid, Pc>): nat
    decreases |threads|
  {
    if threads == map[] then 0
    else
      var t :| t in threads;
      Rank(threads[t]) + Total(threads - {t})
  }

  lemma {:induction false} TotalSplits(threads: map<Tid, Pc>, t: Tid)
    requires t in threads
    ensures Total(threads) == Rank(threads[t]) + Total(threads - {t})
    decreases |threads|
  {
    var u :| u in threads && Total(threads) == Rank(threads[u]) + Total(threads - {u});
    if u != t {
      TotalSplits(threads - {u}, t);
      TotalSplits(threads - {t}, u);
      assert threads - {u} - {t} == threads - {t} - {u};
    }
  }

  lemma {:induction false} TotalIsMonotone(a: map<Tid, Pc>, b: map<Tid, Pc>)
    requires a.Keys == b.Keys
    requires forall t :: t in a ==> Rank(a[t]) <= Rank(b[t])
    ensures Total(a) <= Total(b)
    decreases |a|
  {
    if a != map[] {
      var t :| t in a;
      TotalSplits(a, t);
      TotalSplits(b, t);
      TotalIsMonotone(a - {t}, b - {t});
    }
  }

  lemma RankDrops(s: State, t: Tid, e: Event)
    requires Enabled(s, t, e)
    ensures Step(s, t, e).threads.Keys == s.threads.Keys
    ensures Rank(Step(s, t, e).threads[t]) < Rank(s.threads[t])
  {
    ThreadsStay(s, t, e);
    StepParts(s, t, e);
    hide Step, NextPc, NextHandles, Rank;
  }

  lemma StepDescends(s: State, t: Tid, e: Event)
    requires Enabled(s, t, e)
    ensures Total(Step(s, t, e).threads) < Total(s.threads)
  {
    var a, b := Step(s, t, e).threads, s.threads;
    RankDrops(s, t, e);
    hide Step, Enabled;
    forall u | u in a - {t} ensures Rank(a[u]) <= Rank(b[u]) {
      OthersStay(s, t, e, u);
    }
    hide Rank;
    TotalSplits(a, t);
    TotalSplits(b, t);
    TotalIsMonotone(a - {t}, b - {t});
  }

  /** The steps of threads among the first k actions. */
  function Taken(acts: seq<Action>, k: nat): nat
    requires k <= |acts|
  {
    if k == 0 then 0 else Taken(acts, k - 1) + if acts[k - 1].Move? then 1 else 0
  }

  /** However many collects rename over the path, the calls and reloads of a run take no more steps than the
      initial total allows. */
  lemma {:induction false} RunsAreBounded(ss: seq<State>, acts: seq<Action>, k: nat)
    requires Run(ss, acts) && k < |ss|
    ensures Taken(acts, k) + Total(ss[k].threads) <= Total(ss[0].threads)
  {
    if k > 0 {
      RunsAreBounded(ss, acts, k - 1);
      assert Moves(ss[k - 1], acts[k - 1], ss[k]);
      hide Step, Enabled, Total;
      if acts[k - 1].Move? {
        StepDescends(ss[k - 1], acts[k - 1].t, acts[k - 1].e);
      }
    }
  }

  ghost predicate CanMove(s: State) {
    exists t, e :: Enabled(s, t, e)
  }

  /** A query always gets a connection: an idle one, or a new one. */
  lemma CanAlwaysGet(s: State) returns (e: Event)
    requires s.db in s.handles
    ensures CanGet(s, e)
  {
    if c: ConnId :| IsIdle(s.handles, s.db, c) {
      e := Take(c);
    } else {
      e := Dial;
    }
  }

  lemma ReaderCanMove(s: State)
    requires LocksMatch(s) && s.readers != {} && s.db in s.handles
    ensures CanMove(s)
  {
    var t :| t in s.readers;
    assert HoldsRead(s.threads[t]);
    var e := CanAlwaysGet(s);
    var pc := s.threads[t];
    if pc.StampPinned? || (pc.CallRunning? && pc.left > 0) {
      assert Enabled(s, t, e);
    } else if pc.CallRunning? && pc.held != {} {
      var c :| c in pc.held;
      assert Enabled(s, t, Release(c));
    } else {
      assert Enabled(s, t, Advance);
    }
  }

  lemma WriterCanMove(s: State)
    requires LocksMatch(s) && s.readers == {} && s.writer.Some?
    ensures CanMove(s)
  {
    var t := s.writer.value;
    assert HoldsWrite(s.threads[t]);
    assert Enabled(s, t, Advance);
  }

  lemma ReloadCanMove(s: State, t: Tid)
    requires LocksMatch(s) && s.readers == {} && s.writer.None?
    requires t in s.threads && InReload(s.threads[t])
    ensures CanMove(s)
  {
    if s.threads[t].Entered? {
      assert Enabled(s, t, Refuse);
    } else {
      assert !IsParked(s.threads[t]) && !HoldsWrite(s.threads[t]);
      assert Enabled(s, t, Advance);
    }
  }

  /** No deadlock: while any call or reload is unfinished, some thread can take a step. */
  lemma NoDeadlock(s: State, t: Tid)
    requires Inv(s) && t in s.threads && !Finished(s.threads[t])
    ensures CanMove(s)
  {
    if s.readers != {} {
      ReaderCanMove(s);
    } else if s.writer.Some? {
      WriterCanMove(s);
    } else if InReload(s.threads[t]) {
      ReloadCanMove(s, t);
    } else if s.threads[t].ReloadStart? && s.reloadMu.Some? {
      assert InReload(s.threads[s.reloadMu.value]);
      ReloadCanMove(s, s.reloadMu.value);
    } else {
      assert !IsParked(s.threads[t]);
      assert Enabled(s, t, Advance);
    }
  }

  /** A run in which nothing but renames could still happen is one in which every call and every reload has
      completed. */
  lemma StuckMeansComplete(ss: seq<State>, acts: seq<Action>, t: Tid)
    requires Run(ss, acts) && !CanMove(ss[|ss| - 1])
    requires t in ss[|ss| - 1].threads
    ensures Finished(ss[|ss| - 1].threads[t])
  {
    RunKeepsInv(ss, acts, |ss| - 1);
    if !Finished(ss[|ss| - 1].threads[t]) {
      NoDeadlock(ss[|ss| - 1], t);
    }
  }

  // ----- two runs that go wrong -----

  lemma RunExtends(ss: seq<State>, acts: seq<Action>, a: Action, s: State)
    requires Run(ss, acts) && Moves(ss[|ss| - 1], a, s)
    ensures Run(ss + [s], acts + [a])
  {
    hide Moves, Init;
    var longer, more := ss + [s], acts + [a];
    forall k, l | 0 <= k && l == k + 1 < |longer| ensures Moves(longer[k], more[k], longer[l]) {
      if l < |ss| {
        assert Moves(ss[k], acts[k], ss[l]);
      }
    }
  }

  lemma Moved(ss: seq<State>, acts: seq<Action>, t: Tid, e: Event) returns (longer: seq<State>, more: seq<Action>)
    requires Run(ss, acts) && Enabled(ss[|ss| - 1], t, e)
    ensures Run(longer, more) && |longer| > 0 && longer[|longer| - 1] == Step(ss[|ss| - 1], t, e)
    ensures Grown(ss[|ss| - 1].handles, longer[|longer| - 1].handles)
  {
    longer, more := ss + [Step(ss[|ss| - 1], t, e)], acts + [Move(t, e)];
    RunExtends(ss, acts, Move(t, e), Step(ss[|ss| - 1], t, e));
    StepGrows(ss[|ss| - 1], t, e);
    StepParts(ss[|ss| - 1], t, e);
    hide Step;
  }

  const FIRST := Index(true, Some("first"), true)
  const SECOND := Index(true, Some("second"), true)

  /** A server that has opened FIRST. */
  function Started(threads: map<Tid, Pc>): State {
    State([FIRST], 0, map[0 := Handle([Conn(0, Idle)], 0)], {}, {}, None, None, threads, [0])
  }

  /** A call's first query takes the one connection there is, and a collect renames SECOND over the path. */
  ghost predicate CallBeforeRename(s: State, left: nat) {
    && s.files == [FIRST, SECOND] && s.db == 0 && s.served == [0]
    && s.handles.Keys == {0} && s.handles[0] == Handle([Conn(0, Busy)], 0)
    && s.readers == {1} && s.parked == {} && s.writer == None && s.reloadMu == None
    && 1 in s.threads && s.threads[1] == CallRunning(0, [Read(0, true, 0, 0)], {0}, left)
  }

  lemma CallAdmitted(other: map<Tid, Pc>, queries: nat) returns (ss: seq<State>, acts: seq<Action>)
    requires 1 !in other && forall t :: t in other ==> other[t].ReloadStart?
    ensures Run(ss, acts) && |ss| > 0
    ensures ss[|ss| - 1] == Started(other[1 := CallRunning(0, [], {}, queries)]).(readers := {1})
  {
    hide NextHandles, AfterGet;
    var s0 := Started(other[1 := CallStart(queries)]);
    ss, acts := [s0], [];
    assert Run(ss, acts);
    hide Run;
    assert NextHandles(s0, 1, Advance) == s0.handles by {
      HandlesStay(s0, 1);
    }
    ss, acts := Moved(ss, acts, 1, Advance);
    assert s0.threads[1 := CallRunning(0, [], {}, queries)] == other[1 := CallRunning(0, [], {}, queries)];
  }

  lemma HandlesStay(s: State, t: Tid)
    requires Enabled(s, t, Advance) && s.threads[t].CallStart?
    ensures NextHandles(s, t, Advance) == s.handles
  {
  }

  lemma CallThenRename(other: map<Tid, Pc>, left: nat) returns (ss: seq<State>, acts: seq<Action>)
    requires 1 !in other && forall t :: t in other ==> other[t].ReloadStart?
    ensures Run(ss, acts) && CallBeforeRename(ss[|ss| - 1], left)
    ensures forall t :: t in other ==> t in ss[|ss| - 1].threads && ss[|ss| - 1].threads[t] == other[t]
  {
    hide Put, Close, Run;
    ss, acts := CallAdmitted(other, left + 1);
    var s1 := ss[|ss| - 1];
    assert IsIdle(s1.handles, 0, 0);
    assert SetUse(s1.handles, 0, 0, Busy)[0] == Handle([Conn(0, Busy)], 0);
    ss, acts := Moved(ss, acts, 1, Take(0));
    var s2 := ss[|ss| - 1];
    assert s2.threads[1] == CallRunning(0, [Read(0, true, 0, 0)], {0}, left);
    hide Step, NextPc, NextHandles, AfterGet, Query, SetUse;
    var s3 := s2.(files := s2.files + [SECOND]);
    RunExtends(ss, acts, Replace(SECOND), s3);
    ss, acts := ss + [s3], acts + [Replace(SECOND)];
    assert s3.files == [FIRST, SECOND];
  }

  /** One call reads two indexes: its first query still holds the connection on FIRST, so its second one opens
      another, on SECOND. */
  lemma OneCallReadsTwoIndexes() returns (ss: seq<State>, acts: seq<Action>)
    ensures Run(ss, acts)
    ensures var s := ss[|ss| - 1];
            && 1 in s.threads && InCall(s.threads[1]) && s.files == [FIRST, SECOND]
            && s.threads[1].seen == [Read(0, true, 0, 0), Read(0, true, 1, 1)]
  {
    ss, acts := CallThenRename(map[], 1);
    var s := ss[|ss| - 1];
    assert NoneIdle(s.handles, 0);
    assert AddConn(s.handles, 0, 1)[0].conns == [Conn(0, Busy), Conn(1, Busy)];
    assert Query(s, Dial) == Read(0, true, 1, 1);
    ss, acts := Moved(ss, acts, 1, Dial);
  }

  /** The reload of thread 2 has read the stamp of the handle it is about to replace. */
  ghost predicate StampMisread(s: State) {
    && s.files == [FIRST, SECOND] && s.db == 0
    && s.readers == {1, 2} && s.parked == {} && s.writer == None
    && HasConn(s.handles, 0, 0) && HasConn(s.handles, 1, 0)
    && Origin(s.handles, 0) == 0 && Origin(s.handles, 1) == 1
    && 1 in s.threads && s.threads[1] == CallRunning(0, [Read(0, true, 0, 0)], {0}, 0)
    && 2 in s.threads && s.threads[2] == StampRead(1, Report("second", "second", 1))
  }

  /** The reload of thread 2 has opened SECOND. */
  ghost predicate SecondDescribed(s: State) {
    && s.files == [FIRST, SECOND] && s.db == 0
    && s.readers == {1} && s.parked == {} && s.writer == None
    && s.handles.Keys == {0, 1}
    && s.handles[0] == Handle([Conn(0, Busy)], 0) && s.handles[1] == Handle([Conn(1, Idle)], 0)
    && 1 in s.threads && s.threads[1] == CallRunning(0, [Read(0, true, 0, 0)], {0}, 0)
    && 2 in s.threads && s.threads[2] == Described(1, "second")
  }

  lemma ReloadOpensSecond() returns (ss: seq<State>, acts: seq<Action>)
    ensures Run(ss, acts) && SecondDescribed(ss[|ss| - 1])
  {
    hide Put, Close, AfterGet, Run, Query;
    var other: map<Tid, Pc> := map[2 := ReloadStart];
    assert 2 in other && other[2] == ReloadStart;
    ss, acts := CallThenRename(other, 0);
    ss, acts := Moved(ss, acts, 2, Advance);
    assert ss[|ss| - 1].threads[2] == Entered;
    ss, acts := Moved(ss, acts, 2, OpenAs(1));
    assert ss[|ss| - 1].threads[2] == Opened(1) && Origin(ss[|ss| - 1].handles, 1) == 1;
    ss, acts := Moved(ss, acts, 2, Advance);
  }

  lemma ReadsTheWrongStamp() returns (ss: seq<State>, acts: seq<Action>)
    ensures Run(ss, acts) && StampMisread(ss[|ss| - 1])
  {
    hide Put, Close, Run;
    ss, acts := ReloadOpensSecond();
    ss, acts := Moved(ss, acts, 2, Advance);
    var s := ss[|ss| - 1];
    assert s.threads[2] == StampPinned(1, "second") && s.readers == {1, 2};
    assert NoneIdle(s.handles, 0);
    assert AfterGet(s, Dial)[0].conns == [Conn(0, Busy), Conn(1, Busy)];
    assert Query(s, Dial).file == 1 && Got(s, Dial) == 1;
    hide AfterGet, Query, Got;
    ss, acts := Moved(ss, acts, 2, Dial);
  }

  lemma CallEnds(ss: seq<State>, acts: seq<Action>) returns (longer: seq<State>, more: seq<Action>)
    requires Run(ss, acts) && StampMisread(ss[|ss| - 1])
    ensures Run(longer, more) && Grown(ss[|ss| - 1].handles, longer[|longer| - 1].handles)
    ensures var s := longer[|longer| - 1];
            && s.files == [FIRST, SECOND] && s.db == 0 && s.readers == {} && s.writer == None
            && 2 in s.threads && s.threads[2] == Stamped(1, Report("second", "second", 1))
  {
    hide Put, Close, AfterGet;
    longer, more := Moved(ss, acts, 2, Advance);
    var s := longer[|longer| - 1];
    assert s.readers == {1} && s.threads[1] == CallRunning(0, [Read(0, true, 0, 0)], {0}, 0);
    longer, more := Moved(longer, more, 1, Release(0));
    assert longer[|longer| - 1].threads[1] == CallRunning(0, [Read(0, true, 0, 0)], {}, 0);
    longer, more := Moved(longer, more, 1, Advance);
  }

  lemma ReloadSwaps(ss: seq<State>, acts: seq<Action>) returns (longer: seq<State>, more: seq<Action>)
    requires Run(ss, acts)
    requires var s := ss[|ss| - 1];
             && s.db == 0 && s.readers == {} && s.writer == None
             && 2 in s.threads && s.threads[2] == Stamped(1, Report("second", "second", 1))
    ensures Run(longer, more) && Grown(ss[|ss| - 1].handles, longer[|longer| - 1].handles)
    ensures var s := longer[|longer| - 1];
            && s.files == ss[|ss| - 1].files
            && 2 in s.threads && s.threads[2] == Swapped(1, Report("second", "second", 1), 0)
  {
    hide Put, Close, AfterGet, Run;
    longer, more := Moved(ss, acts, 2, Advance);
    assert longer[|longer| - 1].threads[2] == Draining(1, Report("second", "second", 1));
    longer, more := Moved(longer, more, 2, Advance);
    longer, more := Moved(longer, more, 2, Advance);
  }

  /** A reload that replaces a handle opened on FIRST by one opened on SECOND reports that nothing changed: with
      the only connection of the old handle in use, it read the old stamp on one that it opened after the
      rename. */
  lemma ChangeGoesUnreported() returns (ss: seq<State>, acts: seq<Action>)
    ensures Run(ss, acts)
    ensures var s := ss[|ss| - 1];
            && s.files == [FIRST, SECOND] && Origin(s.handles, 0) == 0 && Origin(s.handles, 1) == 1
            && 2 in s.threads && s.threads[2] == ReloadDone(Reloaded(1, 0, Report("second", "second", 1), false))
  {
    ss, acts := ReadsTheWrongStamp();
    ss, acts := CallEnds(ss, acts);
    hide Put, Close, AfterGet, Run;
    ss, acts := ReloadSwaps(ss, acts);
    ss, acts := Moved(ss, acts, 2, Advance);
    assert ss[|ss| - 1].threads[2] == Released(1, Report("second", "second", 1), 0);
    ss, acts := Moved(ss, acts, 2, Advance);
    assert ss[|ss| - 1].threads[2] == Leaving(Reloaded(1, 0, Report("second", "second", 1), false));
    ss, acts := Moved(ss, acts, 2, Advance);
  }
}
