/** The ingest run over parsed units: aggregate, collect what is referenced, prune, number the survivors, and
    write the rows of the three passes. */
module Ingest {
  import opened Aggregate
  import opened Prune
  import opened RowFacts
  import opened SymbolFacts
  import Cgraph

  type Ids = map<string, int>

  ghost predicate Injective(ids: Ids) {
    forall a, b :: a in ids && b in ids && a != b ==> ids[a] != ids[b]
  }

  // ----- what the rows look like once ids stand for USRs -----

  type Pair = (int, int)

  function PairOf(r: CallRow, ids: Ids): Pair
    requires r.caller in ids && r.callee in ids
  {
    (ids[r.caller], ids[r.callee])
  }

  /** The distinct pairs, in order of first appearance. */
  function Edges(rows: seq<CallRow>, ids: Ids): seq<Pair>
    requires forall r :: r in rows ==> r.caller in ids && r.callee in ids
  {
    if rows == [] then []
    else
      assert rows[|rows| - 1] in rows;
      var front, p := Edges(rows[..|rows| - 1], ids), PairOf(rows[|rows| - 1], ids);
      if p in front then front else front + [p]
  }

  /** A pair is inlined if any of its rows is. */
  function Flags(rows: seq<CallRow>, ids: Ids): map<Pair, bool>
    requires forall r :: r in rows ==> r.caller in ids && r.callee in ids
  {
    if rows == [] then map[]
    else
      assert rows[|rows| - 1] in rows;
      var front, r := Flags(rows[..|rows| - 1], ids), rows[|rows| - 1];
      var p := PairOf(r, ids);
      front[p := (p in front && front[p]) || r.inlined]
  }

  datatype InlineIdRow = InlineIdRow(caller: int, callee: int, record: InlineRecord, objectFile: string)

  datatype IcfIdRow = IcfIdRow(winner: int, losers: seq<int>, objectFile: string)

  function NumberInlines(rows: seq<InlineRow>, ids: Ids): seq<InlineIdRow>
    requires forall r :: r in rows ==> r.caller in ids && r.callee in ids
  {
    if rows == [] then []
    else
      assert rows[|rows| - 1] in rows;
      var r := rows[|rows| - 1];
      NumberInlines(rows[..|rows| - 1], ids) + [InlineIdRow(ids[r.caller], ids[r.callee], r.record, r.objectFile)]
  }

  function NumberAll(usrs: seq<string>, ids: Ids): seq<int>
    requires forall u :: u in usrs ==> u in ids
  {
    if usrs == [] then []
    else
      assert usrs[|usrs| - 1] in usrs;
      NumberAll(usrs[..|usrs| - 1], ids) + [ids[usrs[|usrs| - 1]]]
  }

  function NumberIcf(rows: seq<IcfRow>, ids: Ids): seq<IcfIdRow>
    requires forall r :: r in rows ==> r.winner in ids && forall l :: l in r.losers ==> l in ids
  {
    if rows == [] then []
    else
      assert rows[|rows| - 1] in rows;
      var r := rows[|rows| - 1];
      NumberIcf(rows[..|rows| - 1], ids) + [IcfIdRow(ids[r.winner], NumberAll(r.losers, ids), r.objectFile)]
  }

  /** Every pair is written once, and exactly the pairs of the rows are written. */
  lemma {:induction false} EdgesAreDistinct(rows: seq<CallRow>, ids: Ids)
    requires CallsWithin(rows, ids.Keys)
    ensures forall i, j :: 0 <= i < j < |Edges(rows, ids)| ==> Edges(rows, ids)[i] != Edges(rows, ids)[j]
    ensures forall p :: p in Edges(rows, ids) <==> exists r :: r in rows && PairOf(r, ids) == p
  {
    if rows != [] {
      var front := rows[..|rows| - 1];
      assert rows == front + [rows[|rows| - 1]];
      EdgesAreDistinct(front, ids);
    }
  }

  /** inline_decisions has one row for every pair, inlined exactly when some call of the pair was. */
  lemma {:induction false} FlagsAreUnions(rows: seq<CallRow>, ids: Ids, p: Pair)
    requires CallsWithin(rows, ids.Keys)
    ensures p in Flags(rows, ids) <==> exists r :: r in rows && PairOf(r, ids) == p
    ensures p in Flags(rows, ids) ==>
              (Flags(rows, ids)[p] <==> exists r :: r in rows && PairOf(r, ids) == p && r.inlined)
  {
    if rows != [] {
      var front := rows[..|rows| - 1];
      assert rows == front + [rows[|rows| - 1]];
      FlagsAreUnions(front, ids, p);
    }
  }

  // ----- collecting what is referenced -----

  method MarkCalls(u: Unit, res: Resolve) returns (out: set<string>)
    requires u.hasCgraph && ValidUnit(u)
    ensures forall usr :: usr in out <==> NamedByCalls(UnitCalls(u, res), usr)
  {
    out := {};
    for k := 0 to |u.order|
      invariant forall usr :: usr in out <==> NamedByCalls(CallsOfUnit(u, res, k), usr)
    {
      var id := u.order[k];
      if id in res {
        ghost var before := CallsOfUnit(u, res, k);
        var calls := u.symbols[id].called;
        for i := 0 to |calls|
          invariant forall usr :: usr in out <==> NamedByCalls(before + CallsFrom(res[id], calls[..i], res), usr)
        {
          assert calls[..i + 1][..i] == calls[..i];
          ghost var sofar := before + CallsFrom(res[id], calls[..i], res);
          if calls[i].target in res {
            assert before + CallsFrom(res[id], calls[..i + 1], res)
                == sofar + [CallRow(res[id], res[calls[i].target], calls[i].inlined)];
            out := out + {res[id], res[calls[i].target]};
          }
        }
        assert calls[..|calls|] == calls;
      }
    }
  }

  method MarkInlines(u: Unit, res: Resolve) returns (out: set<string>)
    ensures forall usr :: usr in out <==> NamedByInlines(InlinesOf(u, res, u.inlineRecords), usr)
  {
    out := {};
    var rs := u.inlineRecords;
    for i := 0 to |rs|
      invariant forall usr :: usr in out <==> NamedByInlines(InlinesOf(u, res, rs[..i]), usr)
    {
      assert rs[..i + 1][..i] == rs[..i];
      if rs[i].caller in res && rs[i].callee in res {
        out := out + {res[rs[i].caller], res[rs[i].callee]};
      }
    }
    assert rs[..|rs|] == rs;
  }

  /** buildNameToUSR: the lowest sorted local id of a name wins. */
  method BuildNameToUsr(u: Unit, res: Resolve) returns (byName: map<string, string>)
    requires ValidUnit(u)
    ensures byName == UnitNames(u, res)
  {
    byName := map[];
    if !u.hasCgraph {
      return;
    }
    for k := 0 to |u.order|
      invariant byName == NameToUsr(u, res, k)
    {
      var id := u.order[k];
      var name := u.symbols[id].name;
      if name != "" && name !in byName && id in res {
        byName := byName[name := res[id]];
      }
    }
  }

  method CollectLosers(names: seq<string>, winner: string, byName: map<string, string>) returns (losers: seq<string>)
    ensures losers == Losers(names, winner, byName)
  {
    losers := [];
    for i := 0 to |names|
      invariant losers == Losers(names[..i], winner, byName)
    {
      assert names[..i + 1][..i] == names[..i];
      if names[i] in byName && byName[names[i]] != winner {
        losers := losers + [byName[names[i]]];
      }
    }
    assert names[..|names|] == names;
  }

  lemma {:induction false} NoNamesNoGroups(u: Unit, groups: seq<IcfGroup>)
    ensures GroupsOf(u, groups, map[]) == []
  {
    if groups != [] {
      NoNamesNoGroups(u, groups[..|groups| - 1]);
    }
  }

  method MarkIcf(u: Unit, res: Resolve) returns (out: set<string>)
    requires ValidUnit(u)
    ensures forall usr :: usr in out <==> NamedByIcf(UnitIcf(u, UnitNames(u, res)), usr)
  {
    out := {};
    var byName := BuildNameToUsr(u, res);
    var gs := u.icfGroups;
    for i := 0 to |gs|
      invariant forall usr :: usr in out <==> NamedByIcf(GroupsOf(u, gs[..i], byName), usr)
    {
      assert gs[..i + 1][..i] == gs[..i];
      if gs[i].winner in byName {
        var winner := byName[gs[i].winner];
        var losers := CollectLosers(gs[i].losers, winner, byName);
        if |losers| > 0 {
          out := out + (set l | l in losers) + {winner};
        }
      }
    }
    assert gs[..|gs|] == gs;
    NoNamesNoGroups(u, gs);
  }

  lemma ReferencedByOneMore(us: seq<Unit>, u: Unit, resolves: Resolves, usr: string)
    ensures Referenced(us + [u], resolves, usr)
       <==> || Referenced(us, resolves, usr)
            || NamedByCalls(UnitCalls(u, ResolveFor(resolves, u)), usr)
            || NamedByInlines(InlinesOf(u, ResolveFor(resolves, u), u.inlineRecords), usr)
            || NamedByIcf(UnitIcf(u, UnitNames(u, ResolveFor(resolves, u))), usr)
  {
    hide UnitCalls, InlinesOf, UnitIcf, UnitNames, ResolveFor;
    var res := ResolveFor(resolves, u);
    assert (us + [u])[..|us|] == us;
  }

  lemma NothingNamed(usr: string)
    ensures !NamedByCalls([], usr) && !NamedByInlines([], usr) && !NamedByIcf([], usr)
  {
  }

  ghost predicate AllValid(us: seq<Unit>) {
    forall u :: u in us ==> ValidUnit(u)
  }

  /** referencedUSRs: exactly the symbols that some row, resolved without regard to row ids, names. */
  method ReferencedUsrs(us: seq<Unit>, resolves: Resolves) returns (out: set<string>)
    requires AllValid(us)
    ensures IsReferencedSet(us, resolves, out)
  {
    hide NamedByCalls, NamedByInlines, NamedByIcf, UnitIcf, UnitNames, InlinesOf;
    out := {};
    assert forall usr :: !Referenced(us[..0], resolves, usr) by {
      forall usr ensures !Referenced(us[..0], resolves, usr) {
        NothingNamed(usr);
      }
    }
    for i := 0 to |us|
      invariant forall usr :: usr in out <==> Referenced(us[..i], resolves, usr)
    {
      var u := us[i];
      var res := ResolveFor(resolves, u);
      assert us[..i + 1] == us[..i] + [u];
      var calls: set<string> := {};
      if u.hasCgraph {
        calls := MarkCalls(u, res);
      }
      assert forall usr :: usr in calls <==> NamedByCalls(UnitCalls(u, res), usr) by {
        forall usr ensures usr in calls <==> NamedByCalls(UnitCalls(u, res), usr) {
          NothingNamed(usr);
        }
      }
      var inlines := MarkInlines(u, res);
      var icf := MarkIcf(u, res);
      forall usr
        ensures Referenced(us[..i + 1], resolves, usr)
           <==> usr in out + calls + inlines + icf
      {
        ReferencedByOneMore(us[..i], u, resolves, usr);
      }
      out := out + calls + inlines + icf;
    }
    assert us[..|us|] == us;
  }

  /** pruneUnreferenced: deletes from the map what nothing needs. */
  method PruneUnreferenced(all: Symbols, referenced: set<string>) returns (symbols: Symbols)
    ensures symbols == Pruned(all, referenced)
  {
    symbols := all;
    var todo := all.Keys;
    while todo != {}
      invariant todo <= all.Keys
      invariant symbols == map u | u in all && (u in todo || Needed(all[u]) || u in referenced) :: all[u]
      decreases |todo|
    {
      var u :| u in todo;
      todo := todo - {u};
      if !Needed(all[u]) && u !in referenced {
        symbols := symbols - {u};
      }
    }
  }

  /** insertSymbols: one row, and so one new id, for every symbol. */
  method InsertSymbols(symbols: Symbols) returns (ids: Ids)
    ensures ids.Keys == symbols.Keys && Injective(ids)
  {
    ids := map[];
    var todo, lastId := symbols.Keys, 0;
    while todo != {}
      invariant todo <= symbols.Keys && ids.Keys == symbols.Keys - todo
      invariant Injective(ids) && forall u :: u in ids ==> ids[u] <= lastId
      decreases |todo|
    {
      var u :| u in todo;
      todo := todo - {u};
      lastId := lastId + 1;
      ids := ids[u := lastId];
    }
  }

  // ----- call edges and inline flags -----

  lemma {:induction false} KeptCallsWithin(rows: seq<CallRow>, kept: set<string>)
    ensures CallsWithin(KeptCalls(rows, kept), kept)
  {
    if rows != [] {
      KeptCallsWithin(rows[..|rows| - 1], kept);
    }
  }

  lemma KeptOneMore(rows: seq<CallRow>, r: CallRow, kept: set<string>)
    ensures KeptCalls(rows + [r], kept)
         == if r.caller in kept && r.callee in kept then KeptCalls(rows, kept) + [r] else KeptCalls(rows, kept)
  {
    assert (rows + [r])[..|rows|] == rows;
  }

  /** Nothing is kept of a caller without an id. */
  lemma {:induction false} NothingKept(rows: seq<CallRow>, caller: string, calls: seq<Cgraph.Call>, res: Resolve,
                                       kept: set<string>)
    requires caller !in kept
    ensures KeptCalls(rows + CallsFrom(caller, calls, res), kept) == KeptCalls(rows, kept)
  {
    if calls == [] {
      assert rows + [] == rows;
    } else {
      var c, front := calls[|calls| - 1], CallsFrom(caller, calls[..|calls| - 1], res);
      NothingKept(rows, caller, calls[..|calls| - 1], res, kept);
      if c.target in res {
        var r := CallRow(caller, res[c.target], c.inlined);
        KeptOneMore(rows + front, r, kept);
        assert rows + (front + [r]) == rows + front + [r];
      }
    }
  }

  /** edgeAccum, with the rows of call_edges. */
  class EdgeAccum {
    var callEdges: seq<Pair>
    var seen: set<Pair>
    var inlineFlag: map<Pair, bool>

    /** What has been written for these rows. */
    ghost predicate Tracks(rows: seq<CallRow>, ids: Ids)
      reads this
    {
      && CallsWithin(rows, ids.Keys)
      && callEdges == Edges(rows, ids)
      && inlineFlag == Flags(rows, ids)
      && forall p :: p in seen <==> p in callEdges
    }

    constructor (ghost ids: Ids)
      ensures Tracks([], ids)
    {
      callEdges, seen, inlineFlag := [], {}, map[];
    }

    method Take(r: CallRow, ids: Ids, ghost rows: seq<CallRow>)
      requires Tracks(rows, ids) && r.caller in ids && r.callee in ids
      modifies this
      ensures Tracks(rows + [r], ids)
    {
      var k := PairOf(r, ids);
      if k !in seen {
        callEdges := callEdges + [k];
        seen := seen + {k};
      }
      inlineFlag := inlineFlag[k := (k in inlineFlag && inlineFlag[k]) || r.inlined];
    }

    /** insertEdges: the unit's resolved calls, both ends of which have an id. */
    method InsertEdges(u: Unit, res: Resolve, ids: Ids, ghost rows: seq<CallRow>)
      requires u.hasCgraph && ValidUnit(u) && Tracks(KeptCalls(rows, ids.Keys), ids)
      modifies this
      ensures Tracks(KeptCalls(rows + UnitCalls(u, res), ids.Keys), ids)
    {
      hide Tracks, KeptCalls;
      assert rows + [] == rows;
      for k := 0 to |u.order|
        invariant Tracks(KeptCalls(rows + CallsOfUnit(u, res, k), ids.Keys), ids)
      {
        var id := u.order[k];
        ghost var before := rows + CallsOfUnit(u, res, k);
        if id in res {
          ghost var from := CallsFrom(res[id], u.symbols[id].called, res);
          assert rows + (CallsOfUnit(u, res, k) + from) == before + from;
          if res[id] in ids {
            InsertCalls(res[id], u.symbols[id].called, res, ids, before);
          } else {
            NothingKept(before, res[id], u.symbols[id].called, res, ids.Keys);
          }
        }
      }
    }

    /** The calls of one caller. */
    method InsertCalls(caller: string, calls: seq<Cgraph.Call>, res: Resolve, ids: Ids, ghost rows: seq<CallRow>)
      requires caller in ids && Tracks(KeptCalls(rows, ids.Keys), ids)
      modifies this
      ensures Tracks(KeptCalls(rows + CallsFrom(caller, calls, res), ids.Keys), ids)
    {
      hide Tracks, KeptCalls;
      assert rows + [] == rows;
      for i := 0 to |calls|
        invariant Tracks(KeptCalls(rows + CallsFrom(caller, calls[..i], res), ids.Keys), ids)
      {
        assert calls[..i + 1][..i] == calls[..i];
        var c := calls[i];
        if c.target in res {
          var r := CallRow(caller, res[c.target], c.inlined);
          ghost var sofar := rows + CallsFrom(caller, calls[..i], res);
          assert rows + CallsFrom(caller, calls[..i + 1], res) == sofar + [r];
          KeptOneMore(sofar, r, ids.Keys);
          if r.callee in ids {
            Take(r, ids, KeptCalls(sofar, ids.Keys));
          }
        }
      }
      assert calls[..|calls|] == calls;
    }
  }

  // ----- inline records -----

  lemma {:induction false} KeptInlinesWithin(rows: seq<InlineRow>, kept: set<string>)
    ensures InlinesWithin(KeptInlines(rows, kept), kept)
  {
    if rows != [] {
      KeptInlinesWithin(rows[..|rows| - 1], kept);
    }
  }

  /** The inline_records rows for these rows: those with an end that has no id are dropped. */
  function NumberKept(rows: seq<InlineRow>, ids: Ids): seq<InlineIdRow> {
    KeptInlinesWithin(rows, ids.Keys);
    NumberInlines(KeptInlines(rows, ids.Keys), ids)
  }

  lemma NumberOneMore(rows: seq<InlineRow>, r: InlineRow, ids: Ids)
    ensures NumberKept(rows + [r], ids)
         == if r.caller in ids && r.callee in ids
            then NumberKept(rows, ids) + [InlineIdRow(ids[r.caller], ids[r.callee], r.record, r.objectFile)]
            else NumberKept(rows, ids)
  {
    assert (rows + [r])[..|rows|] == rows;
    KeptInlinesWithin(rows, ids.Keys);
    var kept := KeptInlines(rows, ids.Keys);
    assert (kept + [r])[..|kept|] == kept;
  }

  /** What a Go map of strings yields for a missing key. */
  function Lookup(res: Resolve, id: LocalId): string {
    if id in res then res[id] else ""
  }

  /** insertInlineRecords. An end that does not resolve looks "" up, which no symbol is called. */
  method InsertInlineRecords(us: seq<Unit>, resolves: Resolves, ids: Ids) returns (out: seq<InlineIdRow>)
    requires "" !in ids
    ensures out == NumberKept(AllInlines(us, resolves), ids)
  {
    hide NumberKept;
    out := [];
    assert NumberKept([], ids) == [] by {
      NothingNumbered(ids);
    }
    for i := 0 to |us|
      invariant out == NumberKept(AllInlines(us[..i], resolves), ids)
    {
      assert us[..i + 1][..i] == us[..i];
      var u := us[i];
      var res, rs := ResolveFor(resolves, u), u.inlineRecords;
      ghost var before := AllInlines(us[..i], resolves);
      assert before + [] == before;
      for j := 0 to |rs|
        invariant out == NumberKept(before + InlinesOf(u, res, rs[..j]), ids)
      {
        assert rs[..j + 1][..j] == rs[..j];
        var r := rs[j];
        var caller, callee := Lookup(res, r.caller), Lookup(res, r.callee);
        if r.caller in res && r.callee in res {
          ghost var row := InlineRow(caller, callee, r, u.objectFile);
          ghost var sofar := before + InlinesOf(u, res, rs[..j]);
          assert before + InlinesOf(u, res, rs[..j + 1]) == sofar + [row];
          NumberOneMore(sofar, row, ids);
        }
        if caller in ids && callee in ids {
          out := out + [InlineIdRow(ids[caller], ids[callee], r, u.objectFile)];
        }
      }
      assert rs[..|rs|] == rs;
    }
    assert us[..|us|] == us;
  }

  lemma NothingNumbered(ids: Ids)
    ensures NumberKept([], ids) == []
  {
  }

  // ----- ICF groups -----

  /** The symbol ids of a unit's names. */
  function NamedIds(byName: map<string, string>, ids: Ids): map<string, int> {
    map n | n in byName && byName[n] in ids :: ids[byName[n]]
  }

  method BuildNameToSymbolId(u: Unit, res: Resolve, ids: Ids) returns (out: map<string, int>)
    requires ValidUnit(u)
    ensures out == NamedIds(UnitNames(u, res), ids)
  {
    out := map[];
    var byName := BuildNameToUsr(u, res);
    var todo := byName.Keys;
    while todo != {}
      invariant todo <= byName.Keys
      invariant out == map n | n in byName && n !in todo && byName[n] in ids :: ids[byName[n]]
      decreases |todo|
    {
      var n :| n in todo;
      todo := todo - {n};
      if byName[n] in ids {
        out := out[n := ids[byName[n]]];
      }
    }
  }

  lemma {:induction false} KeepNamesWithin(u: Unit, groups: seq<IcfGroup>, byName: map<string, string>,
                                           kept: set<string>)
    ensures IcfWithin(GroupsOf(u, groups, KeepNames(byName, kept)), kept)
  {
    GroupsWithin(u, groups, KeepNames(byName, kept), kept);
  }

  lemma {:induction false} WrittenIcfWithin(us: seq<Unit>, resolves: Resolves, kept: set<string>)
    ensures IcfWithin(WrittenIcf(us, resolves, kept), kept)
  {
    if us != [] {
      var u := us[|us| - 1];
      WrittenIcfWithin(us[..|us| - 1], resolves, kept);
      KeepNamesWithin(u, u.icfGroups, UnitNames(u, ResolveFor(resolves, u)), kept);
    }
  }

  /** The loop compares row ids where the specification compares USRs: ids being distinct, it is the same. */
  method CollectLoserIds(names: seq<string>, winnerId: int, byId: map<string, int>,
                         ghost winner: string, ghost ids: Ids, ghost byName: map<string, string>)
    returns (loserIds: seq<int>)
    requires winner in ids && ids[winner] == winnerId && Injective(ids) && byId == NamedIds(byName, ids)
    ensures forall l :: l in Losers(names, winner, KeepNames(byName, ids.Keys)) ==> l in ids
    ensures loserIds == NumberAll(Losers(names, winner, KeepNames(byName, ids.Keys)), ids)
  {
    ghost var kept := KeepNames(byName, ids.Keys);
    loserIds := [];
    LosersWithin(names, winner, kept, ids.Keys);
    for i := 0 to |names|
      invariant forall l :: l in Losers(names[..i], winner, kept) ==> l in ids
      invariant loserIds == NumberAll(Losers(names[..i], winner, kept), ids)
    {
      assert names[..i + 1][..i] == names[..i];
      if names[i] in byId && byId[names[i]] != winnerId {
        ghost var front := Losers(names[..i], winner, kept);
        assert (front + [kept[names[i]]])[..|front|] == front;
        loserIds := loserIds + [byId[names[i]]];
      }
    }
    assert names[..|names|] == names;
  }

  /** The icf_groups rows and members for a list of resolved groups. */
  ghost predicate Wrote(out: seq<IcfIdRow>, rows: seq<IcfRow>, ids: Ids) {
    IcfWithin(rows, ids.Keys) && out == NumberIcf(rows, ids)
  }

  lemma WroteOneMore(out: seq<IcfIdRow>, rows: seq<IcfRow>, r: IcfRow, ids: Ids)
    requires Wrote(out, rows, ids) && r.winner in ids && forall l :: l in r.losers ==> l in ids
    ensures Wrote(out + [IcfIdRow(ids[r.winner], NumberAll(r.losers, ids), r.objectFile)], rows + [r], ids)
  {
    assert IcfWithin(rows + [r], ids.Keys);
  }

  lemma {:induction false} NumberAllLength(usrs: seq<string>, ids: Ids)
    requires forall u :: u in usrs ==> u in ids
    ensures |NumberAll(usrs, ids)| == |usrs|
  {
    if usrs != [] {
      NumberAllLength(usrs[..|usrs| - 1], ids);
    }
  }

  /** The groups of one unit. */
  method InsertGroups(u: Unit, byId: map<string, int>, before: seq<IcfIdRow>,
                      ghost ids: Ids, ghost byName: map<string, string>, ghost rows: seq<IcfRow>)
    returns (out: seq<IcfIdRow>)
    requires Injective(ids) && byId == NamedIds(byName, ids) && Wrote(before, rows, ids)
    ensures Wrote(out, rows + GroupsOf(u, u.icfGroups, KeepNames(byName, ids.Keys)), ids)
  {
    hide Wrote;
    out := before;
    var gs := u.icfGroups;
    ghost var kept := KeepNames(byName, ids.Keys);
    assert rows + [] == rows;
    for i := 0 to |gs|
      invariant Wrote(out, rows + GroupsOf(u, gs[..i], kept), ids)
    {
      assert gs[..i + 1][..i] == gs[..i];
      var g := gs[i];
      if g.winner in byId {
        ghost var winner := kept[g.winner];
        ghost var losers := Losers(g.losers, winner, kept);
        var loserIds := CollectLoserIds(g.losers, byId[g.winner], byId, winner, ids, byName);
        NumberAllLength(losers, ids);
        if |loserIds| > 0 {
          ghost var sofar, row := rows + GroupsOf(u, gs[..i], kept), IcfRow(winner, losers, u.objectFile);
          WroteOneMore(out, sofar, row, ids);
          assert rows + GroupsOf(u, gs[..i + 1], kept) == sofar + [row];
          out := out + [IcfIdRow(byId[g.winner], loserIds, u.objectFile)];
        }
      }
    }
    assert gs[..|gs|] == gs;
  }

  /** insertICFGroups. */
  method InsertIcfGroups(us: seq<Unit>, resolves: Resolves, ids: Ids) returns (out: seq<IcfIdRow>)
    requires AllValid(us) && Injective(ids)
    ensures Wrote(out, WrittenIcf(us, resolves, ids.Keys), ids)
  {
    out := [];
    for i := 0 to |us|
      invariant Wrote(out, WrittenIcf(us[..i], resolves, ids.Keys), ids)
    {
      hide Wrote, UnitNames, NamedIds, KeepNames, GroupsOf;
      assert us[..i + 1][..i] == us[..i];
      ghost var before := WrittenIcf(us[..i], resolves, ids.Keys);
      assert before + [] == before;
      var u := us[i];
      if u.hasCgraph {
        var res := ResolveFor(resolves, u);
        var byId := BuildNameToSymbolId(u, res, ids);
        out := InsertGroups(u, byId, out, ids, UnitNames(u, res), before);
      }
    }
    assert us[..|us|] == us;
  }

  // ----- the run -----

  /** What a run leaves in the index. */
  datatype Index = Index(
    symbols: Symbols, ids: Ids, callEdges: seq<Pair>, inlineDecisions: map<Pair, bool>,
    inlineRecords: seq<InlineIdRow>, icfGroups: seq<IcfIdRow>)

  /** Defined somewhere, taken the address of, or not internal. */
  predicate IsKept(rec: Rec) {
    rec.defs != [] || rec.addressTaken || !rec.linkage.Internal?
  }

  lemma KeptAreNeeded(symbols: Symbols)
    ensures forall usr :: usr in symbols ==> (IsKept(symbols[usr]) <==> Needed(symbols[usr]))
  {
  }

  /** The symbols are those of the aggregate that are needed or named by some row. */
  ghost predicate SymbolsAreRight(us: seq<Unit>, symbols: Symbols) {
    && (forall usr :: usr in symbols <==>
          usr in AggregateAll(us) && (IsKept(AggregateAll(us)[usr]) || Referenced(us, ResolvesOf(us), usr)))
    && forall usr :: usr in symbols ==> symbols[usr] == AggregateAll(us)[usr]
  }

  /** The rows are those of all resolved calls, inline records and groups: none is filtered out for want of
      a symbol. */
  ghost predicate RowsAreAll(us: seq<Unit>, x: Index) {
    var resolves := ResolvesOf(us);
    && CallsWithin(AllCalls(us, resolves), x.ids.Keys)
    && x.callEdges == Edges(AllCalls(us, resolves), x.ids)
    && x.inlineDecisions == Flags(AllCalls(us, resolves), x.ids)
    && InlinesWithin(AllInlines(us, resolves), x.ids.Keys)
    && x.inlineRecords == NumberInlines(AllInlines(us, resolves), x.ids)
    && Wrote(x.icfGroups, AllIcf(us, resolves), x.ids)
  }

  /** What a run promises of the index it leaves. */
  ghost predicate Written(us: seq<Unit>, x: Index) {
    SymbolsAreRight(us, x.symbols) && x.ids.Keys == x.symbols.Keys && Injective(x.ids) && RowsAreAll(us, x)
  }

  /** Every symbol written says what the units' dumps give under its USR. */
  ghost predicate SymbolsAreDumped(us: seq<Unit>, symbols: Symbols) {
    forall usr :: usr in symbols ==> SymbolIsDumped(us, usr, symbols[usr])
  }

  ghost predicate SymbolIsDumped(us: seq<Unit>, usr: string, rec: Rec) {
    IsSourced(us, usr, rec) && forall f :: FactIsDumped(us, usr, rec, f)
  }

  ghost predicate FactIsDumped(us: seq<Unit>, usr: string, rec: Rec, f: Fact) {
    && (MustComeFrom(us, usr, f) ==> Says(rec, f)) && (Says(rec, f) ==> MayComeFrom(us, usr, f))
    && (AllFlat(us) ==> (Says(rec, f) ==> MustComeFrom(us, usr, f)))
  }

  /** Some symbol of a unit calls another, inlined or not. */
  ghost predicate SomeCall(us: seq<Unit>, caller: string, callee: string, inlined: bool) {
    exists u, id, c :: u in us && IsCallRow(u, id, c, CallRow(caller, callee, inlined))
  }

  /** The rows written are the calls, inline records and groups of the units' dumps. */
  ghost predicate RowsAreDumped(us: seq<Unit>, x: Index) {
    && (forall a, b :: a in x.ids && b in x.ids ==> EdgeIsDumped(us, x, a, b))
    && (exists rows :: && InlinesWithin(rows, x.ids.Keys) && x.inlineRecords == NumberInlines(rows, x.ids)
                       && forall r :: r in rows <==> exists u, rec :: u in us && IsInlineRow(u, rec, r))
    && (exists rows :: && Wrote(x.icfGroups, rows, x.ids)
                       && forall r :: r in rows <==> exists u, g :: u in us && IsIcfRow(u, g, r))
  }

  ghost predicate EdgeIsDumped(us: seq<Unit>, x: Index, a: string, b: string)
    requires a in x.ids && b in x.ids
  {
    var p := (x.ids[a], x.ids[b]);
    && (p in x.callEdges <==> SomeCall(us, a, b, true) || SomeCall(us, a, b, false))
    && (p in x.inlineDecisions <==> SomeCall(us, a, b, true) || SomeCall(us, a, b, false))
    && (p in x.inlineDecisions ==> (x.inlineDecisions[p] <==> SomeCall(us, a, b, true)))
  }

  lemma OneFactIsDumped(us: seq<Unit>, usr: string, f: Fact)
    requires AllValid(us) && usr in AggregateAll(us)
    ensures FactIsDumped(us, usr, AggregateAll(us)[usr], f)
  {
    hide AggregateAll, MustComeFrom, MayComeFrom, Says, AllFlat;
    AggregateGives(us, usr, f);
  }

  lemma OneSymbolIsDumped(us: seq<Unit>, usr: string)
    requires AllValid(us) && usr in AggregateAll(us)
    ensures SymbolIsDumped(us, usr, AggregateAll(us)[usr])
  {
    hide AggregateAll, IsSourced, FactIsDumped;
    AggregateIsSourced(us, |us|);
    assert us[..|us|] == us;
    forall f ensures FactIsDumped(us, usr, AggregateAll(us)[usr], f) {
      OneFactIsDumped(us, usr, f);
    }
  }

  lemma WrittenSymbolsAreDumped(us: seq<Unit>, x: Index)
    requires AllValid(us) && Written(us, x)
    ensures SymbolsAreDumped(us, x.symbols)
  {
    hide AggregateAll, SymbolIsDumped, RowsAreAll, IsKept, Referenced;
    forall usr | usr in x.symbols ensures SymbolIsDumped(us, usr, x.symbols[usr]) {
      OneSymbolIsDumped(us, usr);
    }
  }

  ghost predicate HasCall(rows: seq<CallRow>, caller: string, callee: string, inlined: bool) {
    exists r :: r in rows && r.caller == caller && r.callee == callee && (inlined ==> r.inlined)
  }

  /** Ids being distinct, a pair of ids stands for one pair of USRs. */
  lemma PairsAreCalls(rows: seq<CallRow>, ids: Ids, a: string, b: string)
    requires CallsWithin(rows, ids.Keys) && Injective(ids) && a in ids && b in ids
    ensures var p := (ids[a], ids[b]);
            && (p in Edges(rows, ids) <==> HasCall(rows, a, b, false))
            && (p in Flags(rows, ids) <==> HasCall(rows, a, b, false))
            && (p in Flags(rows, ids) ==> (Flags(rows, ids)[p] <==> HasCall(rows, a, b, true)))
  {
    var p := (ids[a], ids[b]);
    EdgesAreDistinct(rows, ids);
    FlagsAreUnions(rows, ids, p);
    hide Edges, Flags;
    forall r | r in rows ensures PairOf(r, ids) == p <==> r.caller == a && r.callee == b {
    }
  }

  lemma CallsAreSome(us: seq<Unit>, a: string, b: string)
    requires AllValid(us) && DistinctObjects(us)
    ensures var rows := AllCalls(us, ResolvesOf(us));
            && (HasCall(rows, a, b, true) <==> SomeCall(us, a, b, true))
            && (HasCall(rows, a, b, false) <==> SomeCall(us, a, b, true) || SomeCall(us, a, b, false))
  {
    var rows := AllCalls(us, ResolvesOf(us));
    CallRowsAre(us, CallRow(a, b, true));
    CallRowsAre(us, CallRow(a, b, false));
    hide AllCalls, ResolvesOf, IsCallRow;
    var yes, no := CallRow(a, b, true), CallRow(a, b, false);
    assert forall r: CallRow :: r.caller == a && r.callee == b ==> r == yes || r == no;
    assert HasCall(rows, a, b, true) <==> yes in rows;
    assert HasCall(rows, a, b, false) <==> yes in rows || no in rows;
  }

  lemma WrittenRowsAreDumped(us: seq<Unit>, x: Index)
    requires AllValid(us) && DistinctObjects(us) && Written(us, x)
    ensures RowsAreDumped(us, x)
  {
    var resolves := ResolvesOf(us);
    var calls, inlines, groups := AllCalls(us, resolves), AllInlines(us, resolves), AllIcf(us, resolves);
    hide AllCalls, AllInlines, AllIcf, ResolvesOf, SymbolsAreRight, Edges, Flags, IsInlineRow, IsIcfRow, SomeCall,
         HasCall, Wrote;
    forall a, b | a in x.ids && b in x.ids ensures EdgeIsDumped(us, x, a, b) {
      PairsAreCalls(calls, x.ids, a, b);
      CallsAreSome(us, a, b);
    }
    forall r ensures r in inlines <==> exists u, rec :: u in us && IsInlineRow(u, rec, r) {
      InlineRowsAre(us, r);
    }
    forall r ensures r in groups <==> exists u, g :: u in us && IsIcfRow(u, g, r) {
      IcfRowsAre(us, r);
    }
    hide EdgeIsDumped;
  }

  method AggregateUnits(us: seq<Unit>) returns (symbols: Symbols, resolves: Resolves)
    requires AllValid(us)
    ensures symbols == AggregateAll(us) && resolves == ResolvesOf(us)
  {
    hide AggregateUnit;
    var agg := new Aggregator();
    resolves := map[];
    for i := 0 to |us|
      invariant agg.symbols == AggregateAll(us[..i]) && resolves == ResolvesOf(us[..i])
    {
      assert us[..i + 1][..i] == us[..i];
      var u := us[i];
      UnitAdds(u, agg.symbols);
      var res: Resolve := map[];
      if u.hasCgraph {
        res := agg.AggregateSymbols(u);
      } else {
        SkippedUnit(u, agg.symbols);
      }
      resolves := resolves[u.objectFile := res];
    }
    symbols := agg.symbols;
    assert us[..|us|] == us;
  }

  lemma SkippedUnit(u: Unit, symbols: Symbols)
    requires !u.hasCgraph
    ensures AggregateUnit(u, symbols) == State(symbols, map[])
  {
  }

  method InsertAllEdges(us: seq<Unit>, resolves: Resolves, ids: Ids)
    returns (callEdges: seq<Pair>, flags: map<Pair, bool>)
    requires AllValid(us)
    ensures CallsWithin(KeptCalls(AllCalls(us, resolves), ids.Keys), ids.Keys)
    ensures callEdges == Edges(KeptCalls(AllCalls(us, resolves), ids.Keys), ids)
    ensures flags == Flags(KeptCalls(AllCalls(us, resolves), ids.Keys), ids)
  {
    var seen := new EdgeAccum(ids);
    for i := 0 to |us|
      invariant seen.Tracks(KeptCalls(AllCalls(us[..i], resolves), ids.Keys), ids)
    {
      hide KeptCalls;
      assert us[..i + 1][..i] == us[..i];
      var u := us[i];
      ghost var before := AllCalls(us[..i], resolves);
      assert before + [] == before;
      if u.hasCgraph {
        seen.InsertEdges(u, ResolveFor(resolves, u), ids, before);
      }
    }
    assert us[..|us|] == us;
    callEdges, flags := seen.callEdges, seen.inlineFlag;
  }

  /** Compiler: pruning first and resolving against the survivors loses no row. */
  method Compiler(us: seq<Unit>) returns (x: Index)
    requires AllValid(us)
    ensures Written(us, x) && SymbolsAreDumped(us, x.symbols) && (DistinctObjects(us) ==> RowsAreDumped(us, x))
  {
    hide SymbolsAreDumped, RowsAreDumped, IsKept, AggregateAll, ResolvesOf, AllCalls, AllInlines, WrittenIcf, AllIcf,
         Needed, Referenced, Wrote, Edges, Flags, KeptCalls, KeptInlines;
    var all, resolves := AggregateUnits(us);
    var referenced := ReferencedUsrs(us, resolves);
    KeptAreNeeded(all);
    var symbols := PruneUnreferenced(all, referenced);
    var ids := InsertSymbols(symbols);
    AllProper(us);
    RowsWithinPruned(us, referenced);
    KeepsAllCalls(AllCalls(us, resolves), ids.Keys);
    KeepsAllInlines(AllInlines(us, resolves), ids.Keys);
    IcfUntouched(us, resolves, ids.Keys);
    var callEdges, flags := InsertAllEdges(us, resolves, ids);
    var inlines := InsertInlineRecords(us, resolves, ids);
    var groups := InsertIcfGroups(us, resolves, ids);
    x := Index(symbols, ids, callEdges, flags, inlines, groups);
    WrittenSymbolsAreDumped(us, x);
    if DistinctObjects(us) {
      WrittenRowsAreDumped(us, x);
    }
  }

  // ----- the order of the units -----

  ghost predicate SameUnits(us: seq<Unit>, vs: seq<Unit>) {
    && DistinctObjects(us) && DistinctObjects(vs)
    && forall u :: u in us <==> u in vs
  }

  /** The same rows are offered, in whatever order. */
  lemma SameRows(us: seq<Unit>, vs: seq<Unit>)
    requires SameUnits(us, vs)
    ensures forall r :: r in AllCalls(us, ResolvesOf(us)) <==> r in AllCalls(vs, ResolvesOf(vs))
    ensures forall r :: r in AllInlines(us, ResolvesOf(us)) <==> r in AllInlines(vs, ResolvesOf(vs))
    ensures forall r :: r in AllIcf(us, ResolvesOf(us)) <==> r in AllIcf(vs, ResolvesOf(vs))
  {
    var x, y := ResolvesOf(us), ResolvesOf(vs);
    forall u | u in us ensures ResolveFor(x, u) == ResolveFor(y, u) {
      ResolvesByItsOwn(us, u);
      ResolvesByItsOwn(vs, u);
    }
    hide ResolveFor, ResolvesOf, AllCalls, AllInlines, AllIcf, UnitCalls, InlinesOf, UnitIcf, UnitNames;
    forall r ensures r in AllCalls(us, x) <==> r in AllCalls(vs, y) {
      CallsComeFromUnits(us, x, r);
      CallsComeFromUnits(vs, y, r);
    }
    forall r ensures r in AllInlines(us, x) <==> r in AllInlines(vs, y) {
      InlinesComeFromUnits(us, x, r);
      InlinesComeFromUnits(vs, y, r);
    }
    forall r ensures r in AllIcf(us, x) <==> r in AllIcf(vs, y) {
      IcfComesFromUnits(us, x, r);
      IcfComesFromUnits(vs, y, r);
    }
  }

  lemma SameNeed(us: seq<Unit>, vs: seq<Unit>, usr: string)
    requires SameUnits(us, vs) && usr in AggregateAll(us)
    ensures usr in AggregateAll(vs) && (Needed(AggregateAll(us)[usr]) <==> Needed(AggregateAll(vs)[usr]))
  {
    OrderDoesNotMatter(us, vs, usr);
    hide AggregateAll;
    var a, b := AggregateAll(us)[usr].defs, AggregateAll(vs)[usr].defs;
    if |a| > 0 {
      assert a[0] in a && SameDef(a[0], a[0]);
      assert HasDef(b, a[0]);
    }
    if |b| > 0 {
      assert b[0] in b && SameDef(b[0], b[0]);
      assert HasDef(a, b[0]);
    }
  }

  lemma SameReferences(us: seq<Unit>, vs: seq<Unit>, usr: string)
    requires SameUnits(us, vs)
    ensures Referenced(us, ResolvesOf(us), usr) <==> Referenced(vs, ResolvesOf(vs), usr)
  {
    SameRows(us, vs);
    hide AllCalls, AllInlines, AllIcf, ResolvesOf, SameUnits;
  }

  lemma SameSymbols(us: seq<Unit>, vs: seq<Unit>, x: Index, y: Index)
    requires SameUnits(us, vs) && Written(us, x) && Written(vs, y)
    ensures x.ids.Keys == y.ids.Keys
  {
    KeptAreNeeded(AggregateAll(us));
    KeptAreNeeded(AggregateAll(vs));
    hide AggregateAll, ResolvesOf, RowsAreAll, Needed, IsKept, Referenced;
    forall usr ensures usr in x.symbols <==> usr in y.symbols {
      SameReferences(us, vs, usr);
      if usr in AggregateAll(us) {
        SameNeed(us, vs, usr);
      }
      if usr in AggregateAll(vs) {
        SameNeed(vs, us, usr);
      }
    }
  }

  lemma {:induction false} InlinesNameTheirUnit(u: Unit, res: Resolve, records: seq<InlineRecord>)
    ensures forall r :: r in InlinesOf(u, res, records) ==> r.objectFile == u.objectFile
  {
    if records != [] {
      InlinesNameTheirUnit(u, res, records[..|records| - 1]);
    }
  }

  lemma {:induction false} GroupsNameTheirUnit(u: Unit, groups: seq<IcfGroup>, byName: map<string, string>)
    ensures forall r :: r in GroupsOf(u, groups, byName) ==> r.objectFile == u.objectFile
  {
    hide Losers;
    if groups != [] {
      GroupsNameTheirUnit(u, groups[..|groups| - 1], byName);
    }
  }

  /** A row occurs as often as in the one unit whose object file it names. */
  lemma {:induction false} InlinesOfOneUnit(us: seq<Unit>, resolves: Resolves, u: Unit, r: InlineRow)
    requires DistinctObjects(us) && u in us && r.objectFile == u.objectFile
    ensures multiset(AllInlines(us, resolves))[r]
         == multiset(InlinesOf(u, ResolveFor(resolves, u), u.inlineRecords))[r]
  {
    var front, last := us[..|us| - 1], us[|us| - 1];
    var rows := InlinesOf(last, ResolveFor(resolves, last), last.inlineRecords);
    assert us == front + [last];
    InlinesNameTheirUnit(last, ResolveFor(resolves, last), last.inlineRecords);
    hide InlinesOf, ResolveFor;
    if u in front {
      var i :| 0 <= i < |front| && front[i] == u;
      assert us[i].objectFile != last.objectFile && r !in rows;
      InlinesOfOneUnit(front, resolves, u, r);
    } else {
      forall v | v in front ensures r !in InlinesOf(v, ResolveFor(resolves, v), v.inlineRecords) {
        var i :| 0 <= i < |front| && front[i] == v;
        assert us[i].objectFile != last.objectFile;
        InlinesNameTheirUnit(v, ResolveFor(resolves, v), v.inlineRecords);
      }
      InlinesComeFromUnits(front, resolves, r);
    }
  }

  lemma {:induction false} IcfOfOneUnit(us: seq<Unit>, resolves: Resolves, u: Unit, r: IcfRow)
    requires DistinctObjects(us) && u in us && r.objectFile == u.objectFile
    ensures multiset(AllIcf(us, resolves))[r] == multiset(UnitIcf(u, UnitNames(u, ResolveFor(resolves, u))))[r]
  {
    var front, last := us[..|us| - 1], us[|us| - 1];
    var rows := UnitIcf(last, UnitNames(last, ResolveFor(resolves, last)));
    assert us == front + [last];
    GroupsNameTheirUnit(last, last.icfGroups, UnitNames(last, ResolveFor(resolves, last)));
    hide GroupsOf, UnitNames, ResolveFor;
    if u in front {
      var i :| 0 <= i < |front| && front[i] == u;
      assert us[i].objectFile != last.objectFile && r !in rows;
      IcfOfOneUnit(front, resolves, u, r);
    } else {
      forall v | v in front ensures r !in UnitIcf(v, UnitNames(v, ResolveFor(resolves, v))) {
        var i :| 0 <= i < |front| && front[i] == v;
        assert us[i].objectFile != last.objectFile;
        GroupsNameTheirUnit(v, v.icfGroups, UnitNames(v, ResolveFor(resolves, v)));
      }
      IcfComesFromUnits(front, resolves, r);
    }
  }

  /** Inline records and groups are offered equally often. */
  lemma SameCounts(us: seq<Unit>, vs: seq<Unit>)
    requires SameUnits(us, vs)
    ensures multiset(AllInlines(us, ResolvesOf(us))) == multiset(AllInlines(vs, ResolvesOf(vs)))
    ensures multiset(AllIcf(us, ResolvesOf(us))) == multiset(AllIcf(vs, ResolvesOf(vs)))
  {
    var x, y := ResolvesOf(us), ResolvesOf(vs);
    forall u | u in us ensures ResolveFor(x, u) == ResolveFor(y, u) {
      ResolvesByItsOwn(us, u);
      ResolvesByItsOwn(vs, u);
    }
    SameRows(us, vs);
    hide ResolveFor, ResolvesOf, AllInlines, AllIcf, InlinesOf, UnitIcf, UnitNames;
    forall r ensures multiset(AllInlines(us, x))[r] == multiset(AllInlines(vs, y))[r] {
      InlinesComeFromUnits(us, x, r);
      if r in AllInlines(us, x) {
        var u :| u in us && r in InlinesOf(u, ResolveFor(x, u), u.inlineRecords);
        InlinesNameTheirUnit(u, ResolveFor(x, u), u.inlineRecords);
        InlinesOfOneUnit(us, x, u, r);
        InlinesOfOneUnit(vs, y, u, r);
      }
    }
    forall r ensures multiset(AllIcf(us, x))[r] == multiset(AllIcf(vs, y))[r] {
      IcfComesFromUnits(us, x, r);
      if r in AllIcf(us, x) {
        var u :| u in us && r in UnitIcf(u, UnitNames(u, ResolveFor(x, u)));
        UnitIcfNamesIt(u, UnitNames(u, ResolveFor(x, u)), r);
        IcfOfOneUnit(us, x, u, r);
        IcfOfOneUnit(vs, y, u, r);
      }
    }
  }

  lemma UnitIcfNamesIt(u: Unit, byName: map<string, string>, r: IcfRow)
    requires r in UnitIcf(u, byName)
    ensures r.objectFile == u.objectFile
  {
    GroupsNameTheirUnit(u, u.icfGroups, byName);
  }

  /** The inline records of two indexes are those of the same rows, equally often, whatever the order and the
      ids. */
  ghost predicate SameInlines(x: Index, y: Index) {
    exists rows, same ::
      && multiset(rows) == multiset(same)
      && InlinesWithin(rows, x.ids.Keys) && x.inlineRecords == NumberInlines(rows, x.ids)
      && InlinesWithin(same, y.ids.Keys) && y.inlineRecords == NumberInlines(same, y.ids)
  }

  /** The groups likewise. */
  ghost predicate SameGroupRows(x: Index, y: Index) {
    exists rows, same ::
      multiset(rows) == multiset(same) && Wrote(x.icfGroups, rows, x.ids) && Wrote(y.icfGroups, same, y.ids)
  }

  /** Two runs over the same units in different orders keep the same symbols and write the same call edges, inline
      decisions, inline records and groups, once ids are read as USRs. */
  lemma RunOrderDoesNotMatter(us: seq<Unit>, vs: seq<Unit>, x: Index, y: Index)
    requires SameUnits(us, vs) && Written(us, x) && Written(vs, y)
    ensures x.ids.Keys == y.ids.Keys
    ensures forall a, b :: a in x.ids && b in x.ids ==>
              var p, q := (x.ids[a], x.ids[b]), (y.ids[a], y.ids[b]);
              && (p in x.callEdges <==> q in y.callEdges)
              && (p in x.inlineDecisions <==> q in y.inlineDecisions)
              && (p in x.inlineDecisions ==> x.inlineDecisions[p] == y.inlineDecisions[q])
    ensures SameInlines(x, y) && SameGroupRows(x, y)
  {
    SameCounts(us, vs);
    SameSymbols(us, vs, x, y);
    SameRows(us, vs);
    var rows, same := AllCalls(us, ResolvesOf(us)), AllCalls(vs, ResolvesOf(vs));
    forall a, b | a in x.ids && b in x.ids
      ensures var p, q := (x.ids[a], x.ids[b]), (y.ids[a], y.ids[b]);
              && (p in x.callEdges <==> q in y.callEdges)
              && (p in x.inlineDecisions <==> q in y.inlineDecisions)
              && (p in x.inlineDecisions ==> x.inlineDecisions[p] == y.inlineDecisions[q])
    {
      hide Edges, Flags, AllCalls, AllInlines, AllIcf, ResolvesOf, SymbolsAreRight;
      PairsAreCalls(rows, x.ids, a, b);
      PairsAreCalls(same, y.ids, a, b);
      assert HasCall(rows, a, b, false) <==> HasCall(same, a, b, false);
      assert HasCall(rows, a, b, true) <==> HasCall(same, a, b, true);
    }
  }
}
