/** What a run of a collect looks like from outside: which events its steps admit, how often it tries to reserve a name,
    when the journal's sidecars are there, and what the clean-up finds. */
module CollectFacts {
  import opened Wrappers
  import opened Publication

  predicate IsOver(pc: Pc) {
    pc.Ended? || pc.Crashed?
  }

  /** Every step but the last existence check may fail, every step may be the last, and a name is reserved by trying
      ones until one is free. */
  lemma EventsAre(s: State, c: Cid, e: Event)
    requires c in s.pcs && c in s.jobs
    ensures Enabled(s, c, e) <==>
              match e
              case Do => !IsOver(s.pcs[c]) && !s.pcs[c].Reserving?
              case Fail(_) => !IsOver(s.pcs[c]) && !s.pcs[c].Checking?
              case Crash(_) => !IsOver(s.pcs[c])
              case Collide => s.pcs[c].Reserving?
              case Pick(suffix, ino) =>
                && s.pcs[c].Reserving? && ino !in s.content
                && var tmp := Scratch(s.jobs[c].out, suffix); tmp !in s.dir && tmp !in s.used
  {
  }

  /** A step that fails or crashes leaves the sidecars it says it leaves, and every other name as it was. */
  lemma LeavesWhatItSays(dir: map<Path, Inode>, tmp: Path, ino: Inode, left: Left, p: Path)
    ensures var after := Littered(dir, tmp, ino, left);
            && (Wal(tmp) in after <==> left.wal) && (left.wal ==> after[Wal(tmp)] == ino)
            && (Shm(tmp) in after <==> left.shm) && (left.shm ==> after[Shm(tmp)] == ino)
            && (p != Wal(tmp) && p != Shm(tmp) ==> (p in after <==> p in dir) && (p in dir ==> after[p] == dir[p]))
  {
  }

  // ----- reserving a name -----

  /** How often the collect has run into a name that is taken. */
  function Collisions(acts: seq<Action>, c: Cid): nat {
    if acts == [] then 0
    else Collisions(acts[..|acts| - 1], c) + if acts[|acts| - 1] == Collect(c, Collide) then 1 else 0
  }

  ghost predicate CountsCollisions(s: State, c: Cid, n: nat) {
    c in s.pcs ==>
      && (s.pcs[c].Reserving? ==> s.pcs[c].attempt == n && n <= 10_000)
      && (s.pcs[c].Checking? ==> n == 0)
      && n <= 10_001
      && (n == 10_001 ==> s.pcs[c] == Ended(None, false))
  }

  lemma CollisionCounts(s: State, a: Action, s': State, c: Cid, n: nat)
    requires Moves(s, a, s') && CountsCollisions(s, c, n)
    ensures CountsCollisions(s', c, if a == Collect(c, Collide) then n + 1 else n)
  {
    hide Sidecars, Littered, Perform;
  }

  lemma {:induction false} RunCountsCollisions(ss: seq<State>, acts: seq<Action>, k: nat, c: Cid)
    requires Run(ss, acts) && k < |ss|
    ensures CountsCollisions(ss[k], c, Collisions(acts[..k], c))
  {
    hide Moves, CountsCollisions;
    if k == 0 {
      StartsUncounted(ss[0], c);
    } else {
      RunCountsCollisions(ss, acts, k - 1, c);
      CollisionCounts(ss[k - 1], acts[k - 1], ss[k], c, Collisions(acts[..k - 1], c));
      assert acts[..k] == acts[..k - 1] + [acts[k - 1]] && acts[..k][..k - 1] == acts[..k - 1];
    }
  }

  lemma StartsUncounted(s: State, c: Cid)
    requires Init(s)
    ensures CountsCollisions(s, c, 0)
  {
  }

  /** A collect tries at most ten thousand and one names: it goes on trying after ten thousand collisions and has
      given up after one more. */
  lemma GivesUpExactlyWhen(ss: seq<State>, acts: seq<Action>, k: nat, c: Cid)
    requires Run(ss, acts) && k + 1 < |ss| && acts[k] == Collect(c, Collide)
    ensures c in ss[k + 1].pcs
    ensures ss[k + 1].pcs[c] == Ended(None, false) <==> Collisions(acts[..k + 1], c) > 10_000
    ensures ss[k + 1].pcs[c].Reserving? <==> Collisions(acts[..k + 1], c) <= 10_000
  {
    RunCountsCollisions(ss, acts, k, c);
    RunCountsCollisions(ss, acts, k + 1, c);
    assert acts[..k + 1] == acts[..k] + [acts[k]] && acts[..k + 1][..k] == acts[..k];
    assert Moves(ss[k], acts[k], ss[k + 1]);
  }

  /** The file reserved is its own and empty, in no journalling mode and not open. */
  lemma ReservedIsEmpty(ss: seq<State>, acts: seq<Action>, k: nat, c: Cid)
    requires Run(ss, acts) && k < |ss| && c in ss[k].pcs && ss[k].pcs[c].Reserved?
    ensures var pc, s := ss[k].pcs[c], ss[k];
            && pc.tmp in s.dir && s.dir[pc.tmp] == pc.ino && pc.ino in s.content
            && s.content[pc.ino] == Index(false, false, [], false, DeleteMode)
  {
    RunKeepsInv(ss, acts, k);
    assert CollectOk(ss[k], c);
  }

  // ----- the sidecars -----

  /** The database is open. */
  predicate IsOpened(stage: Stage) {
    !stage.ToOpen? && !stage.ToSeal? && !stage.ToRename?
  }

  /** Sidecars lie beside the scratch file just while the database is open; after a successful rename nothing of it is
      left. */
  ghost predicate SidecarsRight(dir: map<Path, Inode>, pc: Pc) {
    match pc
    case Building(tmp, ino, stage) =>
      if IsOpened(stage) then IsAt(dir, Wal(tmp), ino) && IsAt(dir, Shm(tmp), ino)
      else Wal(tmp) !in dir && Shm(tmp) !in dir
    case Cleaning(tmp, _, true) => NothingOf(dir, tmp)
    case Ended(Some(tmp), true) => NothingOf(dir, tmp)
    case _ => true
  }

  predicate IsAt(dir: map<Path, Inode>, p: Path, ino: Inode) {
    p in dir && dir[p] == ino
  }

  predicate NothingOf(dir: map<Path, Inode>, tmp: Path) {
    tmp !in dir && Wal(tmp) !in dir && Shm(tmp) !in dir
  }

  lemma OwnStepKeepsSidecars(s: State, c: Cid, e: Event)
    requires Inv(s) && Enabled(s, c, e) && SidecarsRight(s.dir, s.pcs[c])
    ensures var s' := CollectStep(s, c, e); c in s'.pcs && SidecarsRight(s'.dir, s'.pcs[c])
  {
    StepOf(s, c, e);
    assert CollectOk(s, c);
    var swept := Swept(s.dir, s.pcs[c]);
    assert swept && NamesScratch(s, c);
    hide CollectStep, Inv, CollectOk, Littered, Perform;
  }

  lemma OtherStepKeepsSidecars(s: State, c: Cid, e: Event, d: Cid)
    requires Inv(s) && Enabled(s, c, e) && d in s.pcs && d != c && SidecarsRight(s.dir, s.pcs[d])
    ensures var s' := CollectStep(s, c, e); d in s'.pcs && SidecarsRight(s'.dir, s'.pcs[d])
  {
    assert CollectOk(s, c) && CollectOk(s, d);
    OthersStay(s, c, e, d);
    hide CollectOk, Inv, SidecarsRight;
    if TempOf(s.pcs[d]).Some? {
      var tmp := TempOf(s.pcs[d]).value;
      forall p | p in {tmp, Wal(tmp), Shm(tmp)} ensures SamePath(s.dir, CollectStep(s, c, e).dir, p) {
        OthersNamesStay(s, c, e, d, tmp, p);
      }
      SameNames(s.dir, CollectStep(s, c, e).dir, s.pcs[d], tmp);
    } else {
      NoNames(s.dir, CollectStep(s, c, e).dir, s.pcs[d]);
    }
  }

  predicate SamePath(a: map<Path, Inode>, b: map<Path, Inode>, p: Path) {
    (p in a <==> p in b) && (p in a ==> a[p] == b[p])
  }

  lemma OthersNamesStay(s: State, c: Cid, e: Event, d: Cid, tmp: Path, p: Path)
    requires Enabled(s, c, e) && d in s.pcs && d != c && TempOf(s.pcs[d]) == Some(tmp)
    requires NamesScratch(s, c) && NamesScratch(s, d) && NameIsOwn(s, c) && p in {tmp, Wal(tmp), Shm(tmp)}
    ensures SamePath(s.dir, CollectStep(s, c, e).dir, p)
  {
    assert c in s.pcs;
    hide Outcome, Perform, CollectStep, Enabled, NamesScratch, NameIsOwn;
    StepOf(s, c, e);
    TheirNames(s, c, d, tmp, p);
    TouchesOwnOnly(s, c, e, p);
  }

  predicate IsOwnName(s: State, c: Cid, p: Path)
    requires c in s.pcs
  {
    TempOf(s.pcs[c]).Some? && IsFileOf(p, TempOf(s.pcs[c]).value)
  }

  lemma TheirNames(s: State, c: Cid, d: Cid, tmp: Path, p: Path)
    requires c in s.pcs && d in s.pcs && d != c && TempOf(s.pcs[d]) == Some(tmp)
    requires NamesScratch(s, c) && NamesScratch(s, d) && NameIsOwn(s, c) && p in {tmp, Wal(tmp), Shm(tmp)}
    ensures !p.Out? && !IsOwnName(s, c, p) && (p.Scratch? ==> p in s.used)
  {
  }

  /** A step of a collect touches no name but that of its scratch file, those of its sidecars, a new one and --out. */
  lemma TouchesOwnOnly(s: State, c: Cid, e: Event, p: Path)
    requires Enabled(s, c, e) && !p.Out? && !IsOwnName(s, c, p) && (p.Scratch? ==> p in s.used)
    ensures SamePath(s.dir, Outcome(s, c, e).dir, p)
  {
    hide Perform, Sidecars, Littered;
    match s.pcs[c]
    case Building(tmp, ino, stage) =>
      SidecarsOnly(stage, tmp, ino, s.dir, p);
      if e.Fail? || e.Crash? {
        LeavesWhatItSays(s.dir, tmp, ino, e.left, p);
      }
    case _ =>
  }

  lemma SidecarsOnly(stage: Stage, tmp: Path, ino: Inode, dir: map<Path, Inode>, p: Path)
    requires p != Wal(tmp) && p != Shm(tmp)
    ensures SamePath(dir, Sidecars(stage, tmp, ino, dir), p)
  {
  }

  lemma SameNames(a: map<Path, Inode>, b: map<Path, Inode>, pc: Pc, tmp: Path)
    requires TempOf(pc) == Some(tmp) && SidecarsRight(a, pc)
    requires SamePath(a, b, tmp) && SamePath(a, b, Wal(tmp)) && SamePath(a, b, Shm(tmp))
    ensures SidecarsRight(b, pc)
  {
  }

  lemma NoNames(a: map<Path, Inode>, b: map<Path, Inode>, pc: Pc)
    requires TempOf(pc).None? && SidecarsRight(a, pc)
    ensures SidecarsRight(b, pc)
  {
  }

  /** At every state of every run. */
  lemma {:induction false} SidecarsAreRight(ss: seq<State>, acts: seq<Action>, k: nat, c: Cid)
    requires Run(ss, acts) && k < |ss|
    ensures c in ss[0].pcs ==> c in ss[k].pcs && SidecarsRight(ss[k].dir, ss[k].pcs[c])
  {
    hide Inv, SidecarsRight, CollectStep, Enabled;
    if k == 0 {
      StartsWithout(ss[0], c);
    } else if c in ss[0].pcs {
      SidecarsAreRight(ss, acts, k - 1, c);
      RunKeepsInv(ss, acts, k - 1);
      assert Moves(ss[k - 1], acts[k - 1], ss[k]);
      match acts[k - 1]
      case Collect(d, e) =>
        if c == d {
          OwnStepKeepsSidecars(ss[k - 1], c, e);
        } else {
          OtherStepKeepsSidecars(ss[k - 1], d, e, c);
        }
      case _ =>
    }
  }

  lemma StartsWithout(s: State, c: Cid)
    requires Init(s)
    ensures c in s.pcs ==> SidecarsRight(s.dir, s.pcs[c])
  {
  }
}
