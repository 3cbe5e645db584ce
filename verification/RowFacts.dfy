/** The rows of the compiler plane, in terms of the calls, records and groups of the units' dumps. */
module RowFacts {
  import opened Aggregate
  import opened Prune
  import Cgraph

  // ----- rows come from units -----

  ghost predicate DistinctObjects(us: seq<Unit>) {
    forall i, j :: 0 <= i < j < |us| ==> us[i].objectFile != us[j].objectFile
  }

  /** With distinct object files every unit resolves by its own map. */
  lemma {:induction false} ResolvesByItsOwn(us: seq<Unit>, u: Unit)
    requires DistinctObjects(us) && u in us
    ensures u.objectFile in ResolvesOf(us) && ResolveFor(ResolvesOf(us), u) == Alone(u).res
  {
    hide Alone;
    var n := |us| - 1;
    var i :| 0 <= i < |us| && us[i] == u;
    if i < n {
      assert us[..n][i] == u;
      assert us[i].objectFile != us[n].objectFile;
      ResolvesByItsOwn(us[..n], u);
    }
  }

  lemma {:induction false} CallsComeFromUnits(us: seq<Unit>, resolves: Resolves, r: CallRow)
    ensures r in AllCalls(us, resolves) <==> exists u :: u in us && r in UnitCalls(u, ResolveFor(resolves, u))
  {
    hide UnitCalls, ResolveFor;
    if us != [] {
      var front, last := us[..|us| - 1], us[|us| - 1];
      assert us == front + [last];
      assert forall u :: u in us <==> u in front || u == last;
      CallsComeFromUnits(front, resolves, r);
    }
  }

  lemma {:induction false} InlinesComeFromUnits(us: seq<Unit>, resolves: Resolves, r: InlineRow)
    ensures r in AllInlines(us, resolves)
       <==> exists u :: u in us && r in InlinesOf(u, ResolveFor(resolves, u), u.inlineRecords)
  {
    hide InlinesOf, ResolveFor;
    if us != [] {
      var front, last := us[..|us| - 1], us[|us| - 1];
      assert us == front + [last];
      assert forall u :: u in us <==> u in front || u == last;
      InlinesComeFromUnits(front, resolves, r);
    }
  }

  lemma {:induction false} IcfComesFromUnits(us: seq<Unit>, resolves: Resolves, r: IcfRow)
    ensures r in AllIcf(us, resolves) <==> exists u :: u in us && r in UnitIcf(u, UnitNames(u, ResolveFor(resolves, u)))
  {
    hide UnitIcf, UnitNames, ResolveFor;
    if us != [] {
      var front, last := us[..|us| - 1], us[|us| - 1];
      assert us == front + [last];
      assert forall u :: u in us <==> u in front || u == last;
      IcfComesFromUnits(front, resolves, r);
    }
  }

  // ----- and in a unit from its dumps -----

  /** A call of a symbol, both ends resolved. */
  ghost predicate IsCallRow(u: Unit, id: LocalId, c: Cgraph.Call, r: CallRow) {
    var res := Alone(u).res;
    && u.hasCgraph && id in u.symbols && id in res && c in u.symbols[id].called && c.target in res
    && r == CallRow(res[id], res[c.target], c.inlined)
  }

  /** A record of the optimisation dump, both ends resolved. */
  ghost predicate IsInlineRow(u: Unit, rec: InlineRecord, r: InlineRow) {
    var res := Alone(u).res;
    && rec in u.inlineRecords && rec.caller in res && rec.callee in res
    && r.caller == res[rec.caller] && r.callee == res[rec.callee] && r.record == rec && r.objectFile == u.objectFile
  }

  /** A name stands for the first of the local ids of that name, in sorted order, that is resolved. */
  ghost predicate StandsFor(u: Unit, name: string, usr: string) {
    exists i :: && 0 <= i < |u.order| && IsResolvedAs(u, u.order[i], name) && usr == Alone(u).res[u.order[i]]
                && forall j :: 0 <= j < i ==> !IsResolvedAs(u, u.order[j], name)
  }

  ghost predicate IsResolvedAs(u: Unit, id: LocalId, name: string) {
    id in u.symbols && name != "" && u.symbols[id].name == name && id in Alone(u).res
  }

  /** A group whose winner and at least one other symbol are known. */
  ghost predicate IsIcfRow(u: Unit, g: IcfGroup, r: IcfRow) {
    && u.hasCgraph && g in u.icfGroups && StandsFor(u, g.winner, r.winner) && r.objectFile == u.objectFile
    && r.losers != [] && IsLosers(u, g.losers, r.winner, r.losers)
  }

  /** The symbols of the names that are known, in order, the winner's left out. */
  ghost predicate IsLosers(u: Unit, names: seq<string>, winner: string, losers: seq<string>) {
    if names == [] then losers == []
    else
      var front, last := names[..|names| - 1], names[|names| - 1];
      if exists usr :: StandsFor(u, last, usr) && usr != winner then
        && losers != [] && IsLosers(u, front, winner, losers[..|losers| - 1])
        && StandsFor(u, last, losers[|losers| - 1]) && losers[|losers| - 1] != winner
      else IsLosers(u, front, winner, losers)
  }

  lemma {:induction false} CallsFromAre(caller: string, calls: seq<Cgraph.Call>, res: Resolve, r: CallRow)
    ensures r in CallsFrom(caller, calls, res)
       <==> exists c :: c in calls && c.target in res && r == CallRow(caller, res[c.target], c.inlined)
  {
    if calls != [] {
      var front, c := calls[..|calls| - 1], calls[|calls| - 1];
      CallsFromAre(caller, front, res, r);
      assert calls == front + [c];
    }
  }

  lemma {:induction false} CallsOfUnitAre(u: Unit, k: nat, r: CallRow)
    requires k <= |u.order| && u.hasCgraph
    ensures r in CallsOfUnit(u, Alone(u).res, k)
       <==> exists i, c :: 0 <= i < k && IsCallRow(u, u.order[i], c, r)
    decreases k
  {
    hide Alone, CallsFrom;
    var res := Alone(u).res;
    if k > 0 {
      CallsOfUnitAre(u, k - 1, r);
      var id := u.order[k - 1];
      if id in res && id in u.symbols {
        CallsFromAre(res[id], u.symbols[id].called, res, r);
        forall c
          ensures IsCallRow(u, id, c, r) <==>
                    c in u.symbols[id].called && c.target in res && r == CallRow(res[id], res[c.target], c.inlined)
        {
        }
      }
      assert (exists i, c :: 0 <= i < k && IsCallRow(u, u.order[i], c, r))
        <==> (exists i, c :: 0 <= i < k - 1 && IsCallRow(u, u.order[i], c, r)) || exists c :: IsCallRow(u, id, c, r);
    }
  }

  /** The call rows are the resolved calls of the units' symbols. */
  lemma CallRowsAre(us: seq<Unit>, r: CallRow)
    requires DistinctObjects(us) && forall u :: u in us ==> ValidUnit(u)
    ensures r in AllCalls(us, ResolvesOf(us)) <==> exists u, id, c :: u in us && IsCallRow(u, id, c, r)
  {
    CallsComeFromUnits(us, ResolvesOf(us), r);
    forall u | u in us
      ensures r in UnitCalls(u, ResolveFor(ResolvesOf(us), u)) <==> exists id, c :: IsCallRow(u, id, c, r)
    {
      ResolvesByItsOwn(us, u);
      if u.hasCgraph {
        CallsOfUnitAre(u, |u.order|, r);
        hide IsCallRow, Alone, CallsOfUnit;
        forall id, c | IsCallRow(u, id, c, r) ensures exists i :: 0 <= i < |u.order| && IsCallRow(u, u.order[i], c, r) {
          CallerIsListed(u, id, c, r);
        }
      } else {
        hide Alone;
      }
    }
    hide IsCallRow, AllCalls, UnitCalls, ResolveFor, ResolvesOf;
  }

  lemma CallerIsListed(u: Unit, id: LocalId, c: Cgraph.Call, r: CallRow)
    requires ValidUnit(u) && IsCallRow(u, id, c, r)
    ensures exists i :: 0 <= i < |u.order| && IsCallRow(u, u.order[i], c, r)
  {
    hide Alone;
    var i :| 0 <= i < |u.order| && u.order[i] == id;
    assert IsCallRow(u, u.order[i], c, r);
  }

  lemma {:induction false} InlinesOfAre(u: Unit, records: seq<InlineRecord>, r: InlineRow)
    requires records <= u.inlineRecords
    ensures r in InlinesOf(u, Alone(u).res, records)
       <==> exists i :: 0 <= i < |records| && IsInlineRow(u, records[i], r)
  {
    hide Alone;
    if records != [] {
      var n := |records| - 1;
      InlinesOfAre(u, records[..n], r);
      assert records[n] == u.inlineRecords[n];
      assert (exists i :: 0 <= i < |records| && IsInlineRow(u, records[i], r))
        <==> (exists i :: 0 <= i < n && IsInlineRow(u, records[..n][i], r)) || IsInlineRow(u, records[n], r);
    }
  }

  /** The inline rows are the resolved records of the units. */
  lemma InlineRowsAre(us: seq<Unit>, r: InlineRow)
    requires DistinctObjects(us)
    ensures r in AllInlines(us, ResolvesOf(us)) <==> exists u, rec :: u in us && IsInlineRow(u, rec, r)
  {
    InlinesComeFromUnits(us, ResolvesOf(us), r);
    forall u | u in us
      ensures r in InlinesOf(u, ResolveFor(ResolvesOf(us), u), u.inlineRecords)
         <==> exists rec :: IsInlineRow(u, rec, r)
    {
      ResolvesByItsOwn(us, u);
      InlinesOfAre(u, u.inlineRecords, r);
      hide Alone, InlinesOf;
      forall rec | IsInlineRow(u, rec, r)
        ensures exists i :: 0 <= i < |u.inlineRecords| && IsInlineRow(u, u.inlineRecords[i], r)
      {
        var i :| 0 <= i < |u.inlineRecords| && u.inlineRecords[i] == rec;
        assert IsInlineRow(u, u.inlineRecords[i], r);
      }
    }
    hide IsInlineRow, AllInlines, InlinesOf, ResolveFor, ResolvesOf;
  }

  ghost predicate StandsForAmong(u: Unit, k: nat, name: string, usr: string)
    requires k <= |u.order|
  {
    exists i :: && 0 <= i < k && IsResolvedAs(u, u.order[i], name) && usr == Alone(u).res[u.order[i]]
                && forall j :: 0 <= j < i ==> !IsResolvedAs(u, u.order[j], name)
  }

  lemma {:induction false} NamesStand(u: Unit, k: nat, name: string)
    requires k <= |u.order|
    ensures var m := NameToUsr(u, Alone(u).res, k);
            && (name in m <==> exists i :: 0 <= i < k && IsResolvedAs(u, u.order[i], name))
            && forall usr :: StandsForAmong(u, k, name, usr) <==> name in m && m[name] == usr
    decreases k
  {
    hide Alone;
    if k > 0 {
      NamesStand(u, k - 1, name);
      hide IsResolvedAs, StandsForAmong, NameToUsr;
      NameOneMore(u, k, name);
      forall usr
        ensures StandsForAmong(u, k, name, usr)
           <==> || StandsForAmong(u, k - 1, name, usr)
                || (IsFirst(u, k - 1, name) && usr == Alone(u).res[u.order[k - 1]])
      {
        StandsOneMore(u, k, name, usr);
      }
    }
  }

  ghost predicate IsFirst(u: Unit, i: nat, name: string)
    requires i < |u.order|
    ensures IsFirst(u, i, name) ==> u.order[i] in Alone(u).res
  {
    IsResolvedAs(u, u.order[i], name) && forall j :: 0 <= j < i ==> !IsResolvedAs(u, u.order[j], name)
  }

  lemma StandsOneMore(u: Unit, k: nat, name: string, usr: string)
    requires 0 < k <= |u.order|
    ensures StandsForAmong(u, k, name, usr)
       <==> || StandsForAmong(u, k - 1, name, usr)
            || (IsFirst(u, k - 1, name) && usr == Alone(u).res[u.order[k - 1]])
  {
    hide Alone;
  }

  lemma NameOneMore(u: Unit, k: nat, name: string)
    requires 0 < k <= |u.order|
    ensures var front, m := NameToUsr(u, Alone(u).res, k - 1), NameToUsr(u, Alone(u).res, k);
            && (name in front ==> name in m && m[name] == front[name])
            && (name !in front ==> (name in m <==> IsResolvedAs(u, u.order[k - 1], name)))
            && (name !in front && name in m ==> m[name] == Alone(u).res[u.order[k - 1]])
  {
    hide Alone;
  }

  lemma StandsIs(u: Unit, name: string)
    requires u.hasCgraph
    ensures var m := UnitNames(u, Alone(u).res);
            forall usr :: StandsFor(u, name, usr) <==> name in m && m[name] == usr
  {
    NamesStand(u, |u.order|, name);
    hide Alone, NameToUsr, IsResolvedAs;
    forall usr ensures StandsFor(u, name, usr) <==> StandsForAmong(u, |u.order|, name, usr) {
    }
  }

  lemma {:induction false} LosersAre(u: Unit, names: seq<string>, winner: string, losers: seq<string>)
    requires u.hasCgraph
    ensures IsLosers(u, names, winner, losers) <==> losers == Losers(names, winner, UnitNames(u, Alone(u).res))
  {
    hide Alone, UnitNames, StandsFor;
    if names != [] {
      var front, last := names[..|names| - 1], names[|names| - 1];
      StandsIs(u, last);
      var m := UnitNames(u, Alone(u).res);
      if last in m && m[last] != winner {
        assert StandsFor(u, last, m[last]);
        if losers != [] {
          LosersAre(u, front, winner, losers[..|losers| - 1]);
          assert losers == losers[..|losers| - 1] + [losers[|losers| - 1]];
        }
      } else {
        LosersAre(u, front, winner, losers);
      }
    }
  }

  lemma GroupIs(u: Unit, g: IcfGroup, r: IcfRow)
    requires u.hasCgraph && g in u.icfGroups
    ensures var m := UnitNames(u, Alone(u).res);
            IsIcfRow(u, g, r) <==>
              && g.winner in m && Losers(g.losers, m[g.winner], m) != []
              && r == IcfRow(m[g.winner], Losers(g.losers, m[g.winner], m), u.objectFile)
  {
    StandsIs(u, g.winner);
    LosersAre(u, g.losers, r.winner, r.losers);
    hide Alone, UnitNames, StandsFor, IsLosers, Losers;
  }

  lemma {:induction false} GroupsOfAre(u: Unit, groups: seq<IcfGroup>, r: IcfRow)
    requires u.hasCgraph && groups <= u.icfGroups
    ensures r in GroupsOf(u, groups, UnitNames(u, Alone(u).res))
       <==> exists i :: 0 <= i < |groups| && IsIcfRow(u, groups[i], r)
  {
    hide Alone, UnitNames, IsIcfRow, Losers;
    if groups != [] {
      var n := |groups| - 1;
      GroupsOfAre(u, groups[..n], r);
      assert groups[n] == u.icfGroups[n];
      GroupIs(u, groups[n], r);
      assert (exists i :: 0 <= i < |groups| && IsIcfRow(u, groups[i], r))
        <==> (exists i :: 0 <= i < n && IsIcfRow(u, groups[..n][i], r)) || IsIcfRow(u, groups[n], r);
    }
  }

  /** The ICF rows are the resolved groups of the units. */
  lemma IcfRowsAre(us: seq<Unit>, r: IcfRow)
    requires DistinctObjects(us)
    ensures r in AllIcf(us, ResolvesOf(us)) <==> exists u, g :: u in us && IsIcfRow(u, g, r)
  {
    IcfComesFromUnits(us, ResolvesOf(us), r);
    forall u | u in us
      ensures r in UnitIcf(u, UnitNames(u, ResolveFor(ResolvesOf(us), u))) <==> exists g :: IsIcfRow(u, g, r)
    {
      ResolvesByItsOwn(us, u);
      if u.hasCgraph {
        GroupsOfAre(u, u.icfGroups, r);
        forall g | IsIcfRow(u, g, r) ensures exists i :: 0 <= i < |u.icfGroups| && IsIcfRow(u, u.icfGroups[i], r) {
          var i :| 0 <= i < |u.icfGroups| && u.icfGroups[i] == g;
          assert IsIcfRow(u, u.icfGroups[i], r);
        }
      }
      hide Alone, UnitNames, StandsFor, IsLosers, Losers, GroupsOf, ResolvesOf;
    }
    hide IsIcfRow, AllIcf, UnitIcf, UnitNames, ResolveFor, ResolvesOf;
  }
}
