/** The prune of unreferenced symbols and the three passes that resolve rows against the survivors: call
    edges with their inline flags, inline records, and ICF groups. */
module Prune {
  import opened Aggregate
  import Cgraph

  // ----- the rows a unit offers, before any symbol is dropped -----

  datatype CallRow = CallRow(caller: string, callee: string, inlined: bool)

  datatype InlineRow = InlineRow(caller: string, callee: string, record: InlineRecord, objectFile: string)

  datatype IcfRow = IcfRow(winner: string, losers: seq<string>, objectFile: string)

  type Resolves = map<string, Resolve>

  function ResolveFor(resolves: Resolves, u: Unit): Resolve {
    if u.objectFile in resolves then resolves[u.objectFile] else map[]
  }

  /** The resolved calls of one caller. */
  function CallsFrom(caller: string, calls: seq<Cgraph.Call>, res: Resolve): seq<CallRow> {
    if calls == [] then []
    else
      var c, front := calls[|calls| - 1], CallsFrom(caller, calls[..|calls| - 1], res);
      if c.target in res then front + [CallRow(caller, res[c.target], c.inlined)] else front
  }

  function CallsOfUnit(u: Unit, res: Resolve, k: nat): seq<CallRow>
    requires k <= |u.order|
  {
    if k == 0 then []
    else
      var id, front := u.order[k - 1], CallsOfUnit(u, res, k - 1);
      if id in res && id in u.symbols then front + CallsFrom(res[id], u.symbols[id].called, res) else front
  }

  function InlinesOf(u: Unit, res: Resolve, records: seq<InlineRecord>): seq<InlineRow> {
    if records == [] then []
    else
      var r, front := records[|records| - 1], InlinesOf(u, res, records[..|records| - 1]);
      if r.caller in res && r.callee in res then front + [InlineRow(res[r.caller], res[r.callee], r, u.objectFile)]
      else front
  }

  /** A name stands for the first of its local ids, in sorted order, that resolves. */
  function NameToUsr(u: Unit, res: Resolve, k: nat): map<string, string>
    requires k <= |u.order|
  {
    if k == 0 then map[]
    else
      var id, front := u.order[k - 1], NameToUsr(u, res, k - 1);
      if id in u.symbols && u.symbols[id].name != "" && u.symbols[id].name !in front && id in res
      then front[u.symbols[id].name := res[id]] else front
  }

  /** The losers of a group that resolve to something other than its winner. */
  function Losers(names: seq<string>, winner: string, byName: map<string, string>): seq<string> {
    if names == [] then []
    else
      var n, front := names[|names| - 1], Losers(names[..|names| - 1], winner, byName);
      if n in byName && byName[n] != winner then front + [byName[n]] else front
  }

  function GroupsOf(u: Unit, groups: seq<IcfGroup>, byName: map<string, string>): seq<IcfRow> {
    if groups == [] then []
    else
      var g, front := groups[|groups| - 1], GroupsOf(u, groups[..|groups| - 1], byName);
      if g.winner !in byName then front
      else
        var losers := Losers(g.losers, byName[g.winner], byName);
        if losers == [] then front else front + [IcfRow(byName[g.winner], losers, u.objectFile)]
  }

  // ----- the rows of all units, and those written for the symbols kept -----

  function UnitCalls(u: Unit, res: Resolve): seq<CallRow> {
    if u.hasCgraph then CallsOfUnit(u, res, |u.order|) else []
  }

  function UnitIcf(u: Unit, byName: map<string, string>): seq<IcfRow> {
    if u.hasCgraph then GroupsOf(u, u.icfGroups, byName) else []
  }

  function UnitNames(u: Unit, res: Resolve): map<string, string> {
    if u.hasCgraph then NameToUsr(u, res, |u.order|) else map[]
  }

  /** Restricting a name map to the symbols that have a row id. */
  function KeepNames(byName: map<string, string>, kept: set<string>): map<string, string> {
    map n | n in byName && byName[n] in kept :: byName[n]
  }

  function AllCalls(us: seq<Unit>, resolves: Resolves): seq<CallRow> {
    if us == [] then []
    else AllCalls(us[..|us| - 1], resolves) + UnitCalls(us[|us| - 1], ResolveFor(resolves, us[|us| - 1]))
  }

  function AllInlines(us: seq<Unit>, resolves: Resolves): seq<InlineRow> {
    if us == [] then []
    else
      var u := us[|us| - 1];
      AllInlines(us[..|us| - 1], resolves) + InlinesOf(u, ResolveFor(resolves, u), u.inlineRecords)
  }

  /** The ICF rows written when only the kept symbols have ids. */
  function WrittenIcf(us: seq<Unit>, resolves: Resolves, kept: set<string>): seq<IcfRow> {
    if us == [] then []
    else
      var u := us[|us| - 1];
      WrittenIcf(us[..|us| - 1], resolves, kept)
      + UnitIcf(u, KeepNames(UnitNames(u, ResolveFor(resolves, u)), kept))
  }

  function AllIcf(us: seq<Unit>, resolves: Resolves): seq<IcfRow> {
    if us == [] then []
    else
      var u := us[|us| - 1];
      AllIcf(us[..|us| - 1], resolves) + UnitIcf(u, UnitNames(u, ResolveFor(resolves, u)))
  }

  function KeptCalls(rows: seq<CallRow>, kept: set<string>): seq<CallRow> {
    if rows == [] then []
    else
      var r, front := rows[|rows| - 1], KeptCalls(rows[..|rows| - 1], kept);
      if r.caller in kept && r.callee in kept then front + [r] else front
  }

  function KeptInlines(rows: seq<InlineRow>, kept: set<string>): seq<InlineRow> {
    if rows == [] then []
    else
      var r, front := rows[|rows| - 1], KeptInlines(rows[..|rows| - 1], kept);
      if r.caller in kept && r.callee in kept then front + [r] else front
  }

  // ----- what refers to a symbol -----

  ghost predicate NamedByCalls(rows: seq<CallRow>, usr: string) {
    exists r :: r in rows && (r.caller == usr || r.callee == usr)
  }

  ghost predicate NamedByInlines(rows: seq<InlineRow>, usr: string) {
    exists r :: r in rows && (r.caller == usr || r.callee == usr)
  }

  ghost predicate NamedByIcf(rows: seq<IcfRow>, usr: string) {
    exists r :: r in rows && (r.winner == usr || usr in r.losers)
  }

  ghost predicate Referenced(us: seq<Unit>, resolves: Resolves, usr: string) {
    || NamedByCalls(AllCalls(us, resolves), usr)
    || NamedByInlines(AllInlines(us, resolves), usr)
    || NamedByIcf(AllIcf(us, resolves), usr)
  }

  /** The keep rule. */
  predicate Needed(rec: Rec) {
    |rec.defs| > 0 || rec.addressTaken || rec.linkage != Internal
  }

  function Pruned(symbols: Symbols, referenced: set<string>): Symbols {
    map usr | usr in symbols && (Needed(symbols[usr]) || usr in referenced) :: symbols[usr]
  }

  // ----- rows name resolved symbols only -----

  ghost predicate Within(res: Resolve, names: set<string>) {
    forall id :: id in res ==> res[id] in names
  }

  ghost predicate AllWithin(us: seq<Unit>, resolves: Resolves, names: set<string>) {
    forall u :: u in us ==> Within(ResolveFor(resolves, u), names)
  }

  lemma {:induction false} KeepsAllCalls(rows: seq<CallRow>, kept: set<string>)
    requires forall r :: r in rows ==> r.caller in kept && r.callee in kept
    ensures KeptCalls(rows, kept) == rows
  {
    if rows != [] {
      var front := rows[..|rows| - 1];
      assert rows == front + [rows[|rows| - 1]];
      KeepsAllCalls(front, kept);
    }
  }

  lemma {:induction false} KeepsAllInlines(rows: seq<InlineRow>, kept: set<string>)
    requires forall r :: r in rows ==> r.caller in kept && r.callee in kept
    ensures KeptInlines(rows, kept) == rows
  {
    if rows != [] {
      var front := rows[..|rows| - 1];
      assert rows == front + [rows[|rows| - 1]];
      KeepsAllInlines(front, kept);
    }
  }

  ghost predicate CallsWithin(rows: seq<CallRow>, names: set<string>) {
    forall r :: r in rows ==> r.caller in names && r.callee in names
  }

  ghost predicate InlinesWithin(rows: seq<InlineRow>, names: set<string>) {
    forall r :: r in rows ==> r.caller in names && r.callee in names
  }

  ghost predicate IcfWithin(rows: seq<IcfRow>, names: set<string>) {
    forall r :: r in rows ==> r.winner in names && forall l :: l in r.losers ==> l in names
  }

  ghost predicate NamesWithin(byName: map<string, string>, names: set<string>) {
    forall n :: n in byName ==> byName[n] in names
  }

  lemma {:induction false} CallsFromWithin(caller: string, calls: seq<Cgraph.Call>, res: Resolve, names: set<string>)
    requires Within(res, names) && caller in names
    ensures CallsWithin(CallsFrom(caller, calls, res), names)
  {
    if calls != [] {
      CallsFromWithin(caller, calls[..|calls| - 1], res, names);
    }
  }

  lemma {:induction false} UnitCallsWithin(u: Unit, res: Resolve, names: set<string>, k: nat)
    requires Within(res, names) && k <= |u.order|
    ensures CallsWithin(CallsOfUnit(u, res, k), names)
  {
    if k > 0 {
      UnitCallsWithin(u, res, names, k - 1);
      var id := u.order[k - 1];
      if id in res && id in u.symbols {
        CallsFromWithin(res[id], u.symbols[id].called, res, names);
      }
    }
  }

  lemma {:induction false} AllCallsWithin(us: seq<Unit>, resolves: Resolves, names: set<string>)
    requires AllWithin(us, resolves, names)
    ensures CallsWithin(AllCalls(us, resolves), names)
  {
    if us != [] {
      var u := us[|us| - 1];
      assert u in us;
      AllCallsWithin(us[..|us| - 1], resolves, names);
      UnitCallsWithin(u, ResolveFor(resolves, u), names, |u.order|);
    }
  }

  lemma {:induction false} InlinesOfWithin(u: Unit, res: Resolve, records: seq<InlineRecord>, names: set<string>)
    requires Within(res, names)
    ensures InlinesWithin(InlinesOf(u, res, records), names)
  {
    if records != [] {
      InlinesOfWithin(u, res, records[..|records| - 1], names);
    }
  }

  lemma {:induction false} AllInlinesWithin(us: seq<Unit>, resolves: Resolves, names: set<string>)
    requires AllWithin(us, resolves, names)
    ensures InlinesWithin(AllInlines(us, resolves), names)
  {
    if us != [] {
      var u := us[|us| - 1];
      assert u in us;
      AllInlinesWithin(us[..|us| - 1], resolves, names);
      InlinesOfWithin(u, ResolveFor(resolves, u), u.inlineRecords, names);
    }
  }

  lemma {:induction false} NameToUsrWithin(u: Unit, res: Resolve, names: set<string>, k: nat)
    requires Within(res, names) && k <= |u.order|
    ensures NamesWithin(NameToUsr(u, res, k), names)
  {
    if k > 0 {
      NameToUsrWithin(u, res, names, k - 1);
    }
  }

  lemma {:induction false} LosersWithin(ls: seq<string>, winner: string, byName: map<string, string>,
                                        names: set<string>)
    requires NamesWithin(byName, names)
    ensures forall l :: l in Losers(ls, winner, byName) ==> l in names && l != winner
  {
    if ls != [] {
      LosersWithin(ls[..|ls| - 1], winner, byName, names);
    }
  }

  lemma {:induction false} GroupsWithin(u: Unit, groups: seq<IcfGroup>, byName: map<string, string>, names: set<string>)
    requires NamesWithin(byName, names)
    ensures IcfWithin(GroupsOf(u, groups, byName), names)
  {
    if groups != [] {
      var g := groups[|groups| - 1];
      GroupsWithin(u, groups[..|groups| - 1], byName, names);
      if g.winner in byName {
        LosersWithin(g.losers, byName[g.winner], byName, names);
      }
    }
  }

  lemma {:induction false} AllIcfWithin(us: seq<Unit>, resolves: Resolves, names: set<string>)
    requires AllWithin(us, resolves, names)
    ensures IcfWithin(AllIcf(us, resolves), names)
  {
    if us != [] {
      var u := us[|us| - 1];
      assert u in us;
      var res := ResolveFor(resolves, u);
      AllIcfWithin(us[..|us| - 1], resolves, names);
      NameToUsrWithin(u, res, names, |u.order|);
      GroupsWithin(u, u.icfGroups, UnitNames(u, res), names);
    }
  }

  // ----- a group survives whole or was never a row -----

  lemma {:induction false} SameLosers(ls: seq<string>, winner: string, byName: map<string, string>, kept: set<string>)
    requires forall l :: l in Losers(ls, winner, byName) ==> l in kept
    ensures Losers(ls, winner, KeepNames(byName, kept)) == Losers(ls, winner, byName)
  {
    if ls != [] {
      var front, n := ls[..|ls| - 1], ls[|ls| - 1];
      if n in byName && byName[n] != winner {
        assert byName[n] in Losers(ls, winner, byName);
      }
      SameLosers(front, winner, byName, kept);
    }
  }

  lemma {:induction false} SameGroups(u: Unit, groups: seq<IcfGroup>, byName: map<string, string>, kept: set<string>)
    requires IcfWithin(GroupsOf(u, groups, byName), kept)
    ensures GroupsOf(u, groups, KeepNames(byName, kept)) == GroupsOf(u, groups, byName)
  {
    if groups != [] {
      var front, g := groups[..|groups| - 1], groups[|groups| - 1];
      assert forall r :: r in GroupsOf(u, front, byName) ==> r in GroupsOf(u, groups, byName);
      SameGroups(u, front, byName, kept);
      if g.winner in byName {
        var winner := byName[g.winner];
        var losers := Losers(g.losers, winner, byName);
        if losers != [] {
          assert IcfRow(winner, losers, u.objectFile) in GroupsOf(u, groups, byName);
        }
        SameLosers(g.losers, winner, byName, kept);
      }
    }
  }

  lemma {:induction false} IcfUntouched(us: seq<Unit>, resolves: Resolves, kept: set<string>)
    requires IcfWithin(AllIcf(us, resolves), kept)
    ensures WrittenIcf(us, resolves, kept) == AllIcf(us, resolves)
  {
    if us != [] {
      hide UnitNames, ResolveFor;
      var front, u := us[..|us| - 1], us[|us| - 1];
      var byName := UnitNames(u, ResolveFor(resolves, u));
      assert forall r :: r in AllIcf(front, resolves) ==> r in AllIcf(us, resolves);
      assert forall r :: r in UnitIcf(u, byName) ==> r in AllIcf(us, resolves);
      IcfUntouched(front, resolves, kept);
      if u.hasCgraph {
        SameGroups(u, u.icfGroups, byName, kept);
      }
    }
  }

  // ----- pruning is invisible, and exact -----

  /** Each unit's resolution, by object. */
  function ResolvesOf(us: seq<Unit>): Resolves {
    if us == [] then map[] else ResolvesOf(us[..|us| - 1])[us[|us| - 1].objectFile := Alone(us[|us| - 1]).res]
  }

  lemma {:induction false} ResolvesAreUnits(us: seq<Unit>, obj: string)
    requires obj in ResolvesOf(us)
    ensures exists u :: u in us && ResolvesOf(us)[obj] == Alone(u).res
  {
    hide Alone;
    var front, last := us[..|us| - 1], us[|us| - 1];
    assert last in us;
    if obj != last.objectFile {
      ResolvesAreUnits(front, obj);
      var u :| u in front && ResolvesOf(front)[obj] == Alone(u).res;
      assert u in us;
    }
  }

  lemma ResolvesWithin(us: seq<Unit>)
    ensures AllWithin(us, ResolvesOf(us), AggregateAll(us).Keys)
  {
    hide Alone, AggregateAll;
    forall v | v in us ensures Within(ResolveFor(ResolvesOf(us), v), AggregateAll(us).Keys) {
      if v.objectFile in ResolvesOf(us) {
        ResolvesAreUnits(us, v.objectFile);
        var u :| u in us && ResolvesOf(us)[v.objectFile] == Alone(u).res;
        forall id | id in Alone(u).res ensures Alone(u).res[id] in AggregateAll(us) {
          ResolvedArePresent(us, u, id);
        }
      }
    }
  }

  ghost predicate IsReferencedSet(us: seq<Unit>, resolves: Resolves, referenced: set<string>) {
    forall usr :: usr in referenced <==> Referenced(us, resolves, usr)
  }

  /** All rows stay within the symbols that survive. */
  lemma RowsWithinPruned(us: seq<Unit>, referenced: set<string>)
    requires IsReferencedSet(us, ResolvesOf(us), referenced)
    ensures var kept := Pruned(AggregateAll(us), referenced).Keys;
            && CallsWithin(AllCalls(us, ResolvesOf(us)), kept)
            && InlinesWithin(AllInlines(us, ResolvesOf(us)), kept)
            && IcfWithin(AllIcf(us, ResolvesOf(us)), kept)
  {
    var resolves, symbols := ResolvesOf(us), AggregateAll(us);
    var kept := Pruned(symbols, referenced).Keys;
    ResolvesWithin(us);
    AllCallsWithin(us, resolves, symbols.Keys);
    AllInlinesWithin(us, resolves, symbols.Keys);
    AllIcfWithin(us, resolves, symbols.Keys);
    hide AllCalls, AllInlines, AllIcf, AggregateAll, ResolvesOf, AllWithin;
    var calls, inlines, icf := AllCalls(us, resolves), AllInlines(us, resolves), AllIcf(us, resolves);
    forall r | r in calls ensures r.caller in kept && r.callee in kept {
      assert NamedByCalls(calls, r.caller) && NamedByCalls(calls, r.callee);
    }
    forall r | r in inlines ensures r.caller in kept && r.callee in kept {
      assert NamedByInlines(inlines, r.caller) && NamedByInlines(inlines, r.callee);
    }
    forall r | r in icf ensures r.winner in kept && forall l :: l in r.losers ==> l in kept {
      assert NamedByIcf(icf, r.winner);
      forall l | l in r.losers ensures l in kept {
        assert NamedByIcf(icf, l);
      }
    }
  }

  /** The call edges, inline records and ICF groups written for the pruned symbols are, row for row, those
      that would be written had nothing been dropped. */
  lemma PruningIsInvisible(us: seq<Unit>, referenced: set<string>)
    requires IsReferencedSet(us, ResolvesOf(us), referenced)
    ensures var resolves, all := ResolvesOf(us), AggregateAll(us).Keys;
            var kept := Pruned(AggregateAll(us), referenced).Keys;
            && KeptCalls(AllCalls(us, resolves), kept) == KeptCalls(AllCalls(us, resolves), all)
            && KeptInlines(AllInlines(us, resolves), kept) == KeptInlines(AllInlines(us, resolves), all)
            && WrittenIcf(us, resolves, kept) == WrittenIcf(us, resolves, all)
  {
    var resolves, all := ResolvesOf(us), AggregateAll(us).Keys;
    var kept := Pruned(AggregateAll(us), referenced).Keys;
    RowsWithinPruned(us, referenced);
    ResolvesWithin(us);
    AllCallsWithin(us, resolves, all);
    AllInlinesWithin(us, resolves, all);
    AllIcfWithin(us, resolves, all);
    hide AllCalls, AllInlines, AllIcf, AggregateAll, ResolvesOf, AllWithin, Pruned;
    KeepsAllCalls(AllCalls(us, resolves), kept);
    KeepsAllCalls(AllCalls(us, resolves), all);
    KeepsAllInlines(AllInlines(us, resolves), kept);
    KeepsAllInlines(AllInlines(us, resolves), all);
    IcfUntouched(us, resolves, kept);
    IcfUntouched(us, resolves, all);
  }

  /** A symbol that is internal, has no definition here and whose address is not taken survives exactly when
      some row that is written names it. */
  lemma PruningIsExact(us: seq<Unit>, referenced: set<string>, usr: string)
    requires IsReferencedSet(us, ResolvesOf(us), referenced)
    requires usr in AggregateAll(us) && !Needed(AggregateAll(us)[usr])
    ensures var resolves := ResolvesOf(us);
            var kept := Pruned(AggregateAll(us), referenced).Keys;
            usr in kept <==>
              || NamedByCalls(KeptCalls(AllCalls(us, resolves), kept), usr)
              || NamedByInlines(KeptInlines(AllInlines(us, resolves), kept), usr)
              || NamedByIcf(WrittenIcf(us, resolves, kept), usr)
  {
    var resolves := ResolvesOf(us);
    var kept := Pruned(AggregateAll(us), referenced).Keys;
    RowsWithinPruned(us, referenced);
    hide AllCalls, AllInlines, AllIcf, AggregateAll, ResolvesOf;
    KeepsAllCalls(AllCalls(us, resolves), kept);
    KeepsAllInlines(AllInlines(us, resolves), kept);
    IcfUntouched(us, resolves, kept);
    assert usr in kept <==> usr in referenced;
  }
}
