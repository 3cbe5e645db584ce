/** What makes a reload fail, what it reports, and how many idle connections a handle keeps, over whole runs. */
module ReloadFacts {
  import opened Wrappers
  import opened IndexSwap
  import opened SwapRuns

  /** The file carries this herbarium's schema version and a stamp, and its tables can be counted. */
  ghost predicate IsSound(files: seq<Index>, f: FileId) {
    f < |files| && files[f].schemaMatches && files[f].stamp.Some? && files[f].countable
  }

  /** The handle a reload has described, or swapped in. */
  function Vouched(pc: Pc): Option<HandleId> {
    match pc
    case Described(next, _) => Some(next)
    case StampParked(next, _) => Some(next)
    case StampPinned(next, _) => Some(next)
    case StampRead(next, _) => Some(next)
    case Stamped(next, _) => Some(next)
    case Draining(next, _) => Some(next)
    case Exclusive(next, _) => Some(next)
    case Swapped(next, _, _) => Some(next)
    case Released(next, _, _) => Some(next)
    case Leaving(Reloaded(next, _, _, _)) => Some(next)
    case ReloadDone(Reloaded(next, _, _, _)) => Some(next)
    case _ => None
  }

  ghost predicate IsVetted(files: seq<Index>, handles: Handles, pc: Pc) {
    Vouched(pc).Some? ==> HasConn(handles, Vouched(pc).value, 0) && IsSound(files, Origin(handles, Vouched(pc).value))
  }

  /** The file a handle was opened on stays what it is. */
  lemma OriginStays(s: State, a: Action, s': State, h: HandleId)
    requires Inv(s) && Moves(s, a, s') && HasConn(s.handles, h, 0)
    ensures HasConn(s'.handles, h, 0) && Origin(s'.handles, h) == Origin(s.handles, h) < |s.files|
    ensures IsSound(s'.files, Origin(s.handles, h)) <==> IsSound(s.files, Origin(s.handles, h))
  {
    MoveGrows(s, a, s');
    assert ConnFile(s.handles, h, 0) < |s.files|;
    if a.Move? {
      StepParts(s, a.t, a.e);
    }
    hide Step, NextPc, NextHandles, Enabled;
  }

  /** Only the step that describes a handle vouches for one anew, and only for one on a sound file. */
  lemma NewlyVouched(s: State, t: Tid, e: Event)
    requires Enabled(s, t, e)
    ensures var pc := s.threads[t];
            var h := Vouched(NextPc(s, t, e));
            || h == None || h == Vouched(pc)
            || (pc.Opened? && h == Some(pc.next) && IsSound(s.files, Origin(s.handles, pc.next)))
  {
    hide CanGet, Query, Got, Origin;
  }

  lemma OpenedIsThere(s: State, t: Tid)
    requires Inv(s) && t in s.threads && s.threads[t].Opened?
    ensures HasConn(s.handles, s.threads[t].next, 0)
  {
    assert HandlesOf(s, s.threads[t]);
    hide LocksMatch, ReadsPinned, ServedInOrder, StampsExact, BusyIsHeld, ClosedIsGone;
  }

  lemma OwnMoveVets(s: State, t: Tid, e: Event)
    requires t in s.threads && Inv(s) && Enabled(s, t, e) && IsVetted(s.files, s.handles, s.threads[t])
    ensures IsVetted(s.files, NextHandles(s, t, e), NextPc(s, t, e))
  {
    hide NextHandles, NextPc, Enabled, Grown, Inv, IsSound, Vouched, Origin, HasConn;
    StepGrows(s, t, e);
    NewlyVouched(s, t, e);
    if s.threads[t].Opened? {
      OpenedIsThere(s, t);
    }
    if Vouched(NextPc(s, t, e)).Some? {
      ConnStays(s.handles, NextHandles(s, t, e), Vouched(NextPc(s, t, e)).value);
    }
  }

  lemma ConnStays(before: Handles, after: Handles, h: HandleId)
    requires Grown(before, after) && HasConn(before, h, 0)
    ensures HasConn(after, h, 0) && Origin(after, h) == Origin(before, h)
  {
  }

  lemma MoveVets(s: State, a: Action, s': State, t: Tid)
    requires Inv(s) && Moves(s, a, s') && t in s.threads && IsVetted(s.files, s.handles, s.threads[t])
    ensures t in s'.threads && IsVetted(s'.files, s'.handles, s'.threads[t])
  {
    if Vouched(s.threads[t]).Some? {
      OriginStays(s, a, s', Vouched(s.threads[t]).value);
    }
    if a.Move? {
      ThreadsStay(s, a.t, a.e);
      StepParts(s, a.t, a.e);
      if a.t == t {
        OwnMoveVets(s, t, a.e);
      } else {
        OthersStay(s, a.t, a.e, t);
      }
    }
    hide Inv, Step, NextPc, NextHandles, Enabled, IsSound;
  }

  lemma {:induction false} RunVets(ss: seq<State>, acts: seq<Action>, k: nat, t: Tid)
    requires Run(ss, acts) && k < |ss| && t in ss[k].threads
    ensures IsVetted(ss[k].files, ss[k].handles, ss[k].threads[t])
  {
    hide Inv, IsVetted;
    if k == 0 {
      StartsUnvouched(ss[0], t);
    } else {
      hide Init;
      RunKeepsInv(ss, acts, k - 1);
      assert Moves(ss[k - 1], acts[k - 1], ss[k]);
      if acts[k - 1].Move? {
        ThreadsStay(ss[k - 1], acts[k - 1].t, acts[k - 1].e);
      }
      hide Step, Enabled;
      RunVets(ss, acts, k - 1, t);
      MoveVets(ss[k - 1], acts[k - 1], ss[k], t);
    }
  }

  lemma StartsUnvouched(s: State, t: Tid)
    requires Init(s) && t in s.threads
    ensures IsVetted(s.files, s.handles, s.threads[t])
  {
  }

  /** Every handle ever served after the first was opened on a file that carries the schema version and a stamp and
      whose tables can be counted. */
  lemma ServedIndexesAreSound(ss: seq<State>, acts: seq<Action>, k: nat, i: nat)
    requires Run(ss, acts) && k < |ss| && 0 < i < |ss[k].served|
    ensures var s := ss[k];
            s.served[i] in s.handles && s.handles[s.served[i]].conns != []
    ensures var s := ss[k];
            var f := s.handles[s.served[i]].conns[0].file;
            f < |s.files| && s.files[f].schemaMatches && s.files[f].stamp.Some? && s.files[f].countable
  {
    RunKeepsInv(ss, acts, k);
    var s, h := ss[k], i - 1;
    assert SwapMade(s, s.served[h], s.served[i]);
    var t :| DidSwap(s, t, s.served[h], s.served[i]);
    RunVets(ss, acts, k, t);
    hide Run, Inv;
  }

  /** Where a reload may stand that opened the handle, on a sound file or not. */
  predicate IsAfterOpening(pc: Pc, next: HandleId, sound: bool) {
    match pc
    case Opened(h) => h == next
    case Rejected(h) => h == next && !sound
    case Leaving(o) => if o.Failed? then !sound else o.installed == next && sound
    case ReloadDone(o) => if o.Failed? then !sound else o.installed == next && sound
    case _ => sound && Vouched(pc) == Some(next)
  }

  lemma OwnStepGoesOn(s: State, t: Tid, e: Event, next: HandleId)
    requires Enabled(s, t, e) && IsAfterOpening(s.threads[t], next, IsSound(s.files, Origin(s.handles, next)))
    ensures IsAfterOpening(NextPc(s, t, e), next, IsSound(s.files, Origin(s.handles, next)))
  {
    hide CanGet, Query, Got, Origin;
  }

  lemma WokenGoesOn(db: HandleId, pc: Pc, next: HandleId, sound: bool)
    requires IsAfterOpening(pc, next, sound)
    ensures IsAfterOpening(Woken(db, pc), next, sound)
  {
  }

  lemma OpeningGoesOn(s: State, a: Action, s': State, t: Tid, next: HandleId)
    requires Inv(s) && Moves(s, a, s') && t in s.threads && HasConn(s.handles, next, 0)
    requires IsAfterOpening(s.threads[t], next, IsSound(s.files, Origin(s.handles, next)))
    ensures t in s'.threads && HasConn(s'.handles, next, 0) && Origin(s'.handles, next) == Origin(s.handles, next)
    ensures IsAfterOpening(s'.threads[t], next, IsSound(s'.files, Origin(s'.handles, next)))
  {
    hide Inv, Step, NextHandles, NextPc, Enabled, IsAfterOpening, IsSound, Origin, Woken, HasConn;
    OriginStays(s, a, s', next);
    if a.Move? {
      ThreadsStay(s, a.t, a.e);
      StepParts(s, a.t, a.e);
      if a.t != t {
        OthersStay(s, a.t, a.e, t);
        WokenGoesOn(s.db, s.threads[t], next, IsSound(s.files, Origin(s.handles, next)));
      } else {
        OwnStepGoesOn(s, t, a.e, next);
      }
    }
  }

  lemma {:induction false} OpeningIsFollowed(ss: seq<State>, acts: seq<Action>, a: nat, k: nat, t: Tid, next: HandleId)
    requires Run(ss, acts) && a <= k < |ss| && t in ss[a].threads && ss[a].threads[t] == Opened(next)
    ensures t in ss[k].threads && HasConn(ss[k].handles, next, 0)
    ensures Origin(ss[k].handles, next) == Origin(ss[a].handles, next)
    ensures IsAfterOpening(ss[k].threads[t], next, IsSound(ss[k].files, Origin(ss[k].handles, next)))
  {
    hide Inv, Moves, IsAfterOpening, IsSound, Init, Origin, HasConn;
    if a == k {
      RunKeepsInv(ss, acts, a);
      JustOpened(ss[a], t, next);
    } else {
      OpeningIsFollowed(ss, acts, a, k - 1, t, next);
      RunKeepsInv(ss, acts, k - 1);
      assert Moves(ss[k - 1], acts[k - 1], ss[k]);
      OpeningGoesOn(ss[k - 1], acts[k - 1], ss[k], t, next);
    }
  }

  lemma JustOpened(s: State, t: Tid, next: HandleId)
    requires Inv(s) && t in s.threads && s.threads[t] == Opened(next)
    ensures HasConn(s.handles, next, 0)
    ensures IsAfterOpening(s.threads[t], next, IsSound(s.files, Origin(s.handles, next)))
  {
    assert HandlesOf(s, s.threads[t]);
    hide LocksMatch, ReadsPinned, ServedInOrder, StampsExact, BusyIsHeld, ClosedIsGone;
  }

  /** A reload that has opened a handle ends in failure exactly when the file it opened lacks this schema version, a
      stamp or a table to count; otherwise it installs that handle. */
  lemma ReloadFailsExactlyWhen(ss: seq<State>, acts: seq<Action>, a: nat, k: nat, t: Tid, next: HandleId)
    requires Run(ss, acts) && a <= k < |ss| && t in ss[a].threads && ss[a].threads[t] == Opened(next)
    requires t in ss[k].threads && ss[k].threads[t].ReloadDone?
    ensures next in ss[a].handles && ss[a].handles[next].conns != []
    ensures var f, files := ss[a].handles[next].conns[0].file, ss[k].files;
            && f < |files|
            && (ss[k].threads[t].outcome.Failed? <==>
                  !files[f].schemaMatches || files[f].stamp.None? || !files[f].countable)
    ensures ss[k].threads[t].outcome.Reloaded? ==> ss[k].threads[t].outcome.installed == next
  {
    OpeningIsFollowed(ss, acts, a, k, t, next);
    RunKeepsInv(ss, acts, k);
    assert ConnFile(ss[k].handles, next, 0) < |ss[k].files|;
    RunKeepsInv(ss, acts, a);
    JustOpened(ss[a], t, next);
    hide Run, Inv;
  }

  /** What a reload reports are the stamps the two files carry, the empty string standing for none. */
  lemma ReportsTheFilesStamps(ss: seq<State>, acts: seq<Action>, k: nat, t: Tid)
    requires Run(ss, acts) && k < |ss| && t in ss[k].threads
    requires ss[k].threads[t].ReloadDone? && ss[k].threads[t].outcome.Reloaded?
    ensures var s, o := ss[k], ss[k].threads[t].outcome;
            var now, was := Origin(s.handles, o.installed), ConnFile(s.handles, o.replaced, o.report.conn);
            && now < |s.files| && was < |s.files|
            && s.files[now].stamp == Some(o.report.at)
            && o.report.prev == (if s.files[was].stamp.Some? then s.files[was].stamp.value else "")
  {
    ReportIsExact(ss, acts, k, t);
    RunVets(ss, acts, k, t);
    RunKeepsInv(ss, acts, k);
    var s, o := ss[k], ss[k].threads[t].outcome;
    assert ConnFile(s.handles, o.installed, 0) < |s.files|;
    assert ConnFile(s.handles, o.replaced, o.report.conn) < |s.files|;
    hide Run, Inv;
  }

  // ----- idle connections -----

  /** A query takes a connection of the served handle that is idle, and opens one, on the file the path now names, only
      if none is. */
  lemma OpensOnlyWhenNoneIsIdle(s: State, e: Event)
    requires s.db in s.handles && s.files != []
    ensures var conns := s.handles[s.db].conns;
            && (CanGet(s, e) <==>
                 match e
                 case Take(c) => c < |conns| && conns[c].use == Idle
                 case Dial => forall conn :: conn in conns ==> conn.use != Idle
                 case _ => false)
            && (CanGet(s, e) ==>
                  AfterGet(s, e)[s.db].conns ==
                    if e.Take? then conns[e.conn := conns[e.conn].(use := Busy)]
                    else conns + [Conn(|s.files| - 1, Busy)])
  {
    if e.Dial? {
      var conns := s.handles[s.db].conns;
      if NoneIdle(s.handles, s.db) {
        forall conn | conn in conns ensures conn.use != Idle {
          var i :| 0 <= i < |conns| && conns[i] == conn;
          assert !IsIdle(s.handles, s.db, i);
        }
      }
    }
  }

  /** Closing a handle drops its idle connections, leaves to the queries that use them those in use, and touches no
      other handle. */
  lemma ClosingDropsTheIdle(handles: Handles, h: HandleId, c: ConnId, g: HandleId)
    requires h in handles && c < |handles[h].conns| && g in handles && g != h
    ensures var after := Close(handles, h);
            && h in after && after[h].closes == handles[h].closes + 1 && |after[h].conns| == |handles[h].conns|
            && after[h].conns[c].file == handles[h].conns[c].file
            && (after[h].conns[c].use == Busy <==> handles[h].conns[c].use == Busy)
            && after[h].conns[c].use != Idle
            && g in after && after[g] == handles[g]
  {
  }

  /** The idle connections of a handle. */
  function IdleOnes(conns: seq<Conn>): set<ConnId> {
    set c | 0 <= c < |conns| && conns[c].use == Idle
  }

  /** A connection given back stays idle exactly when its handle is open and keeps fewer than two others idle; it is
      closed otherwise. */
  lemma GivenBackStaysIdleExactlyWhen(handles: Handles, h: HandleId, c: ConnId)
    requires HasConn(handles, h, c) && handles[h].conns[c].use.Busy?
    ensures var after := Put(handles, h, c);
            && HasConn(after, h, c)
            && (after[h].conns[c].use.Idle? <==> handles[h].closes == 0 && |IdleOnes(handles[h].conns)| < 2)
            && (after[h].conns[c].use.Idle? || after[h].conns[c].use.Gone?)
            && forall g, d: ConnId :: HasConn(handles, g, d) && (g != h || d != c) ==>
                 HasConn(after, g, d) && after[g].conns[d] == handles[g].conns[d]
  {
    assert IdleOnes(handles[h].conns) == set d | 0 <= d < |handles[h].conns| && handles[h].conns[d].use.Idle?;
  }

  ghost predicate FewIdle(handles: Handles) {
    forall h :: h in handles ==> |IdleOnes(handles[h].conns)| <= 2
  }

  lemma UseIdle(handles: Handles, h: HandleId, c: ConnId, use: Use)
    requires FewIdle(handles)
    requires HasConn(handles, h, c) && use.Idle? ==> |IdleOnes(handles[h].conns)| < 2
    ensures FewIdle(SetUse(handles, h, c, use))
  {
    if HasConn(handles, h, c) {
      var before, after := handles[h].conns, SetUse(handles, h, c, use)[h].conns;
      if use.Idle? {
        assert IdleOnes(after) <= IdleOnes(before) + {c};
        AtMostOneMore(IdleOnes(after), IdleOnes(before), c);
      } else {
        assert IdleOnes(after) <= IdleOnes(before);
        NoMore(IdleOnes(after), IdleOnes(before));
      }
    }
  }

  lemma NoMore(a: set<ConnId>, b: set<ConnId>)
    requires a <= b
    ensures |a| <= |b|
  {
    assert b == a + (b - a);
  }

  lemma AtMostOneMore(a: set<ConnId>, b: set<ConnId>, c: ConnId)
    requires a <= b + {c}
    ensures |a| <= |b| + 1
  {
    NoMore(a, b + {c});
  }

  lemma AddIdle(handles: Handles, h: HandleId, f: FileId)
    requires FewIdle(handles)
    ensures FewIdle(AddConn(handles, h, f))
  {
    if h in handles {
      var before, after := handles[h].conns, AddConn(handles, h, f)[h].conns;
      assert IdleOnes(after) == IdleOnes(before);
    }
  }

  lemma CloseIdle(handles: Handles, h: HandleId)
    requires FewIdle(handles)
    ensures FewIdle(Close(handles, h))
  {
    if h in handles {
      assert IdleOnes(Close(handles, h)[h].conns) == {};
    }
  }

  lemma OpenIdle(handles: Handles, h: HandleId, f: FileId)
    requires FewIdle(handles)
    ensures FewIdle(handles[h := Handle([Conn(f, Idle)], 0)])
  {
    var one := [Conn(f, Idle)];
    assert IdleOnes(one) == {0};
  }

  lemma PutIdle(handles: Handles, h: HandleId, c: ConnId)
    requires FewIdle(handles)
    ensures FewIdle(Put(handles, h, c))
  {
    if h in handles {
      assert IdleOnes(handles[h].conns) == set d | 0 <= d < |handles[h].conns| && handles[h].conns[d].use.Idle?;
    }
    var stays := h in handles && handles[h].closes == 0 && IdleCount(handles[h]) < MAX_IDLE;
    UseIdle(handles, h, c, if stays then Idle else Gone);
    hide SetUse, FewIdle;
  }

  lemma MoveKeepsFewIdle(s: State, a: Action, s': State)
    requires Moves(s, a, s') && FewIdle(s.handles)
    ensures FewIdle(s'.handles)
  {
    if a.Move? {
      StepChangesHandles(s, a.t, a.e);
      StepParts(s, a.t, a.e);
      var after := NextHandles(s, a.t, a.e);
      hide Step, Enabled, NextHandles, NextPc, FewIdle, Put, Close, SetUse, AddConn, NoneIdle;
      if CanGet(s, a.e) && after == AfterGet(s, a.e) {
        if a.e.Take? {
          UseIdle(s.handles, s.db, a.e.conn, Busy);
        } else {
          AddIdle(s.handles, s.db, Current(s.files));
        }
      } else if c: ConnId :| after == Put(s.handles, s.db, c) {
        PutIdle(s.handles, s.db, c);
      } else if h: HandleId :| after == Close(s.handles, h) {
        CloseIdle(s.handles, h);
      } else if h: HandleId :| h !in s.handles && after == s.handles[h := Handle([Conn(Current(s.files), Idle)], 0)] {
        OpenIdle(s.handles, h, Current(s.files));
      }
    }
  }

  /** No handle ever keeps more than two connections idle. */
  lemma {:induction false} AtMostTwoIdle(ss: seq<State>, acts: seq<Action>, k: nat)
    requires Run(ss, acts) && k < |ss|
    ensures forall h :: h in ss[k].handles ==> |IdleOnes(ss[k].handles[h].conns)| <= 2
  {
    if k == 0 {
      OpenIdle(map[], ss[0].db, Current(ss[0].files));
    } else {
      AtMostTwoIdle(ss, acts, k - 1);
      assert Moves(ss[k - 1], acts[k - 1], ss[k]);
      MoveKeepsFewIdle(ss[k - 1], acts[k - 1], ss[k]);
    }
  }
}
