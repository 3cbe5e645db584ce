/** Cross-TU symbol aggregation: every translation unit's cgraph is folded into one map by USR, clones are
    routed to their parents, and the result does not depend on the order of the units. */
module Aggregate {
  import opened Wrappers
  import Cgraph
  import Usr

  type LocalId = string

  datatype Linkage = External | Weak | Common | Internal

  function Rank(l: Linkage): nat {
    match l
    case External => 3
    case Weak => 2
    case Common => 2
    case Internal => 1
  }

  function Stronger(a: Linkage, b: Linkage): Linkage {
    if Rank(a) >= Rank(b) then a else b
  }

  datatype Def = Def(file: string, line: int, isWeak: bool, linkageName: string)

  datatype Rec = Rec(
    usr: string, name: string, kind: string, linkage: Linkage, addressTaken: bool,
    linkageNames: set<string>, defs: seq<Def>)

  datatype Decl = Decl(file: string, line: int)

  datatype InlineRecord = InlineRecord(caller: LocalId, callee: LocalId, inlined: bool, detail: string)

  datatype IcfGroup = IcfGroup(winner: string, losers: seq<string>)

  /** One object's parsed dumps. order lists the cgraph's local ids, sorted; sourcePath and nodes are the .ci
      dump's paths made project-relative, empty without one. */
  datatype Unit = Unit(
    objectFile: string,
    hasCgraph: bool,
    symbols: map<LocalId, Cgraph.Symbol>,
    order: seq<LocalId>,
    sourcePath: string,
    nodes: map<string, Decl>,
    inlineRecords: seq<InlineRecord>,
    icfGroups: seq<IcfGroup>)

  ghost predicate ValidUnit(u: Unit) {
    forall id :: id in u.order <==> id in u.symbols
  }

  type Symbols = map<string, Rec>

  type Resolve = map<LocalId, string>

  // ----- one observation -----

  function NameOf(fn: Cgraph.Symbol): string {
    if fn.name != "" then fn.name else fn.linkageName
  }

  function LinkageOf(fn: Cgraph.Symbol): Linkage {
    if "weak" in fn.visibility then Weak
    else if "public" in fn.visibility || "externally_visible" in fn.visibility then External
    else Internal
  }

  /** Statics are anchored at the unit's source; everything else has an empty path. */
  function UsrFor(fn: Cgraph.Symbol, u: Unit): string {
    var path := if LinkageOf(fn) == Internal then u.sourcePath else "";
    if fn.kind == "variable" then Usr.Variable(path, NameOf(fn)) else Usr.Function(path, NameOf(fn))
  }

  function DefsOf(fn: Cgraph.Symbol, u: Unit): seq<Def> {
    if !fn.analyzed || fn.bodyRemoved then []
    else
      var decl := if NameOf(fn) in u.nodes then u.nodes[NameOf(fn)] else Decl("", 0);
      [Def(if decl.file != "" then decl.file else u.sourcePath, decl.line, "weak" in fn.visibility, fn.linkageName)]
  }

  function RecordFor(fn: Cgraph.Symbol, u: Unit): Option<Rec> {
    if NameOf(fn) == "" then None
    else Some(Rec(UsrFor(fn, u), NameOf(fn), if fn.kind != "" then fn.kind else "function", LinkageOf(fn),
                  fn.addressTaken, {fn.linkageName, fn.name}, DefsOf(fn, u)))
  }

  predicate SameDef(a: Def, b: Def) {
    a.file == b.file && a.line == b.line && a.linkageName == b.linkageName
  }

  predicate HasDef(defs: seq<Def>, d: Def) {
    exists e :: e in defs && SameDef(e, d)
  }

  function AddDefs(defs: seq<Def>, more: seq<Def>): seq<Def>
    decreases |more|
  {
    if more == [] then defs
    else AddDefs(if HasDef(defs, more[0]) then defs else defs + [more[0]], more[1..])
  }

  function NonEmpty(names: set<string>): set<string> {
    names - {""}
  }

  function Merge(prev: Rec, obs: Rec): Rec {
    prev.(name := if prev.name == "" then obs.name else prev.name,
          kind := if prev.kind == "" then obs.kind else prev.kind,
          linkage := Stronger(prev.linkage, obs.linkage),
          addressTaken := prev.addressTaken || obs.addressTaken,
          linkageNames := prev.linkageNames + NonEmpty(obs.linkageNames),
          defs := AddDefs(prev.defs, obs.defs))
  }

  function MergeSymbol(symbols: Symbols, obs: Rec): Symbols {
    symbols[obs.usr := if obs.usr in symbols then Merge(symbols[obs.usr], obs) else obs]
  }

  /** A clone leaves its names and its address on its parent. */
  function NoteClone(symbols: Symbols, usr: string, fn: Cgraph.Symbol): Symbols {
    if usr in symbols then
      var rec := symbols[usr];
      symbols[usr := rec.(linkageNames := rec.linkageNames + NonEmpty({fn.name, fn.linkageName}),
                          addressTaken := rec.addressTaken || fn.addressTaken)]
    else symbols
  }

  // ----- one unit -----

  /** The map being filled and the unit's own local-id resolution. */
  datatype State = State(symbols: Symbols, res: Resolve)

  /** First phase: everything that is not a clone. */
  function TakeSymbol(u: Unit, st: State, id: LocalId): State {
    if id !in u.symbols || u.symbols[id].cloneOf != "" then st
    else
      var rec := RecordFor(u.symbols[id], u);
      if rec.None? then st
      else State(MergeSymbol(st.symbols, rec.value), st.res[id := rec.value.usr])
  }

  /** A clone's parent, recorded now if nothing has recorded it yet. */
  function ParentOf(u: Unit, st: State, parent: LocalId): State {
    if parent in st.res || parent !in u.symbols then st
    else
      var rec := RecordFor(u.symbols[parent], u);
      if rec.None? then st
      else State(MergeSymbol(st.symbols, rec.value), st.res[parent := rec.value.usr])
  }

  /** Second phase: clones. */
  function TakeClone(u: Unit, st: State, id: LocalId): State {
    if id !in u.symbols || u.symbols[id].cloneOf == "" then st
    else
      var fn := u.symbols[id];
      var st' := ParentOf(u, st, fn.cloneOf);
      if fn.cloneOf !in st'.res then st'
      else State(NoteClone(st'.symbols, st'.res[fn.cloneOf], fn), st'.res[id := st'.res[fn.cloneOf]])
  }

  function FirstPhase(u: Unit, symbols: Symbols, k: nat): State
    requires k <= |u.order|
  {
    if k == 0 then State(symbols, map[]) else TakeSymbol(u, FirstPhase(u, symbols, k - 1), u.order[k - 1])
  }

  function SecondPhase(u: Unit, symbols: Symbols, k: nat): State
    requires k <= |u.order|
  {
    if k == 0 then FirstPhase(u, symbols, |u.order|)
    else TakeClone(u, SecondPhase(u, symbols, k - 1), u.order[k - 1])
  }

  function AggregateUnit(u: Unit, symbols: Symbols): State {
    if u.hasCgraph then SecondPhase(u, symbols, |u.order|) else State(symbols, map[])
  }

  // ----- what a map says of a symbol -----

  /** The order-independent facts: that it is there, how strong its linkage is, that its address is taken,
      its non-empty linkage names and its definition keys. */
  datatype Fact =
    | Present
    | AtLeast(rank: nat)
    | AddressTaken
    | LinkName(name: string)
    | DefinedAt(file: string, line: int, linkageName: string)

  ghost predicate Says(rec: Rec, f: Fact) {
    match f
    case Present => true
    case AtLeast(r) => Rank(rec.linkage) >= r
    case AddressTaken => rec.addressTaken
    case LinkName(n) => n != "" && n in rec.linkageNames
    case DefinedAt(file, line, ln) => HasDef(rec.defs, Def(file, line, false, ln))
  }

  ghost predicate Holds(symbols: Symbols, usr: string, f: Fact) {
    usr in symbols && Says(symbols[usr], f)
  }

  lemma {:induction false} AddDefsHas(defs: seq<Def>, more: seq<Def>, d: Def)
    ensures HasDef(AddDefs(defs, more), d) <==> HasDef(defs, d) || HasDef(more, d)
    decreases |more|
  {
    if more != [] {
      var next := if HasDef(defs, more[0]) then defs else defs + [more[0]];
      AddDefsHas(next, more[1..], d);
      assert more == [more[0]] + more[1..];
      if HasDef(defs, more[0]) && SameDef(more[0], d) {
        var e :| e in defs && SameDef(e, more[0]);
        assert SameDef(e, d);
      }
    }
  }

  lemma MergeSays(prev: Rec, obs: Rec, f: Fact)
    ensures Says(Merge(prev, obs), f) <==> Says(prev, f) || Says(obs, f)
  {
    if f.DefinedAt? {
      AddDefsHas(prev.defs, obs.defs, Def(f.file, f.line, false, f.linkageName));
    }
  }

  /** Merging an observation in adds exactly its facts. */
  lemma MergeHolds(symbols: Symbols, obs: Rec, usr: string, f: Fact)
    ensures Holds(MergeSymbol(symbols, obs), usr, f) <==> Holds(symbols, usr, f) || (usr == obs.usr && Says(obs, f))
  {
    if obs.usr in symbols {
      MergeSays(symbols[obs.usr], obs, f);
    }
  }

  ghost predicate CloneSays(fn: Cgraph.Symbol, f: Fact) {
    match f
    case AddressTaken => fn.addressTaken
    case LinkName(n) => n != "" && (n == fn.name || n == fn.linkageName)
    case _ => false
  }

  lemma NoteCloneHolds(symbols: Symbols, parent: string, fn: Cgraph.Symbol, usr: string, f: Fact)
    requires parent in symbols
    ensures Holds(NoteClone(symbols, parent, fn), usr, f)
       <==> Holds(symbols, usr, f) || (usr == parent && CloneSays(fn, f))
  {
  }

  // ----- resolution never points outside the map -----

  ghost predicate Grounded(st: State) {
    forall id :: id in st.res ==> st.res[id] in st.symbols
  }

  lemma MergeGrounded(st: State, obs: Rec, id: LocalId)
    requires Grounded(st)
    ensures Grounded(State(MergeSymbol(st.symbols, obs), st.res[id := obs.usr]))
  {
  }

  lemma {:induction false} PhasesGrounded(u: Unit, symbols: Symbols, k: nat)
    requires k <= |u.order|
    ensures Grounded(FirstPhase(u, symbols, k)) && Grounded(SecondPhase(u, symbols, k))
    decreases k
  {
    FirstGrounded(u, symbols, |u.order|);
    FirstGrounded(u, symbols, k);
    if k > 0 {
      PhasesGrounded(u, symbols, k - 1);
    }
  }

  lemma {:induction false} FirstGrounded(u: Unit, symbols: Symbols, k: nat)
    requires k <= |u.order|
    ensures Grounded(FirstPhase(u, symbols, k))
    decreases k
  {
    if k > 0 {
      FirstGrounded(u, symbols, k - 1);
      var st, id := FirstPhase(u, symbols, k - 1), u.order[k - 1];
      if id in u.symbols && u.symbols[id].cloneOf == "" && RecordFor(u.symbols[id], u).Some? {
        MergeGrounded(st, RecordFor(u.symbols[id], u).value, id);
      }
    }
  }

  // ----- a unit adds the same facts whatever it is added to -----

  /** a is b with the facts of an earlier map added, and the same resolution. */
  ghost predicate AddsTo(base: Symbols, a: State, b: State) {
    && a.res == b.res && Grounded(a) && Grounded(b)
    && forall usr, f :: Holds(a.symbols, usr, f) <==> Holds(base, usr, f) || Holds(b.symbols, usr, f)
  }

  lemma MergeAddsTo(base: Symbols, a: State, b: State, obs: Rec, id: LocalId)
    requires AddsTo(base, a, b)
    ensures AddsTo(base, State(MergeSymbol(a.symbols, obs), a.res[id := obs.usr]),
                   State(MergeSymbol(b.symbols, obs), b.res[id := obs.usr]))
  {
    hide Says, MergeSymbol;
    MergeGrounded(a, obs, id);
    MergeGrounded(b, obs, id);
    forall usr, f
      ensures Holds(MergeSymbol(a.symbols, obs), usr, f)
         <==> Holds(base, usr, f) || Holds(MergeSymbol(b.symbols, obs), usr, f)
    {
      MergeHolds(a.symbols, obs, usr, f);
      MergeHolds(b.symbols, obs, usr, f);
    }
  }

  lemma ParentAddsTo(base: Symbols, u: Unit, a: State, b: State, parent: LocalId)
    requires AddsTo(base, a, b)
    ensures AddsTo(base, ParentOf(u, a, parent), ParentOf(u, b, parent))
  {
    hide AddsTo;
    assert a.res == b.res by {
      SameResolution(base, a, b);
    }
    if parent !in a.res && parent in u.symbols && RecordFor(u.symbols[parent], u).Some? {
      MergeAddsTo(base, a, b, RecordFor(u.symbols[parent], u).value, parent);
    }
  }

  lemma SameResolution(base: Symbols, a: State, b: State)
    requires AddsTo(base, a, b)
    ensures a.res == b.res
  {
  }

  lemma CloneAddsTo(base: Symbols, a: State, b: State, id: LocalId, parent: LocalId, fn: Cgraph.Symbol)
    requires AddsTo(base, a, b) && parent in a.res
    ensures AddsTo(base, State(NoteClone(a.symbols, a.res[parent], fn), a.res[id := a.res[parent]]),
                   State(NoteClone(b.symbols, b.res[parent], fn), b.res[id := b.res[parent]]))
  {
    var usr0 := a.res[parent];
    forall usr, f
      ensures Holds(NoteClone(a.symbols, usr0, fn), usr, f)
         <==> Holds(base, usr, f) || Holds(NoteClone(b.symbols, usr0, fn), usr, f)
    {
      NoteCloneHolds(a.symbols, usr0, fn, usr, f);
      NoteCloneHolds(b.symbols, usr0, fn, usr, f);
    }
  }

  lemma {:induction false} FirstAddsTo(u: Unit, base: Symbols, k: nat)
    requires k <= |u.order|
    ensures AddsTo(base, FirstPhase(u, base, k), FirstPhase(u, map[], k))
    decreases k
  {
    hide AddsTo;
    if k == 0 {
      StartAddsTo(base);
    } else {
      FirstAddsTo(u, base, k - 1);
      var a, b, id := FirstPhase(u, base, k - 1), FirstPhase(u, map[], k - 1), u.order[k - 1];
      if id in u.symbols && u.symbols[id].cloneOf == "" && RecordFor(u.symbols[id], u).Some? {
        MergeAddsTo(base, a, b, RecordFor(u.symbols[id], u).value, id);
      }
    }
  }

  lemma StartAddsTo(base: Symbols)
    ensures AddsTo(base, State(base, map[]), State(map[], map[]))
  {
  }

  lemma {:induction false} SecondAddsTo(u: Unit, base: Symbols, k: nat)
    requires k <= |u.order|
    ensures AddsTo(base, SecondPhase(u, base, k), SecondPhase(u, map[], k))
    decreases k
  {
    hide AddsTo;
    if k == 0 {
      FirstAddsTo(u, base, |u.order|);
    } else {
      SecondAddsTo(u, base, k - 1);
      var a, b, id := SecondPhase(u, base, k - 1), SecondPhase(u, map[], k - 1), u.order[k - 1];
      if id in u.symbols && u.symbols[id].cloneOf != "" {
        var parent := u.symbols[id].cloneOf;
        ParentAddsTo(base, u, a, b, parent);
        var a', b' := ParentOf(u, a, parent), ParentOf(u, b, parent);
        SameResolution(base, a', b');
        if parent in a'.res {
          CloneAddsTo(base, a', b', id, parent, u.symbols[id]);
        }
      }
    }
  }

  // ----- all units -----

  /** The unit on its own. */
  function Alone(u: Unit): State {
    AggregateUnit(u, map[])
  }

  function AggregateAll(us: seq<Unit>): Symbols {
    if us == [] then map[] else AggregateUnit(us[|us| - 1], AggregateAll(us[..|us| - 1])).symbols
  }

  lemma UnitAdds(u: Unit, base: Symbols)
    ensures AggregateUnit(u, base).res == Alone(u).res
    ensures forall usr, f :: Holds(AggregateUnit(u, base).symbols, usr, f)
                        <==> Holds(base, usr, f) || Holds(Alone(u).symbols, usr, f)
    ensures Grounded(Alone(u))
  {
    if u.hasCgraph {
      SecondAddsTo(u, base, |u.order|);
    }
  }

  /** The facts of the aggregate are the facts its units contribute on their own, no more and no less. */
  lemma {:induction false} FactsComeFromUnits(us: seq<Unit>, usr: string, f: Fact)
    ensures Holds(AggregateAll(us), usr, f) <==> exists u :: u in us && Holds(Alone(u).symbols, usr, f)
  {
    hide AggregateUnit, Alone, Holds;
    if us == [] {
      NothingHolds(usr, f);
    } else {
      var front, u := us[..|us| - 1], us[|us| - 1];
      FactsComeFromUnits(front, usr, f);
      UnitAdds(u, AggregateAll(front));
      assert us == front + [u];
      assert forall v :: v in us <==> v in front || v == u;
    }
  }

  lemma NothingHolds(usr: string, f: Fact)
    ensures !Holds(map[], usr, f)
  {
  }

  /** Every local id a unit resolves points at a symbol of the aggregate. */
  lemma ResolvedArePresent(us: seq<Unit>, u: Unit, id: LocalId)
    requires u in us && id in Alone(u).res
    ensures Alone(u).res[id] in AggregateAll(us)
  {
    UnitAdds(u, map[]);
    var usr := Alone(u).res[id];
    assert Holds(Alone(u).symbols, usr, Present);
    FactsComeFromUnits(us, usr, Present);
  }

  // ----- linkages and USRs the map can hold -----

  ghost predicate Proper(symbols: Symbols) {
    forall usr :: usr in symbols ==> usr != "" && symbols[usr].linkage != Common
  }

  lemma MergeProper(symbols: Symbols, fn: Cgraph.Symbol, u: Unit)
    requires Proper(symbols) && RecordFor(fn, u).Some?
    ensures Proper(MergeSymbol(symbols, RecordFor(fn, u).value))
  {
    Usr.UsrIsNotEmpty(if LinkageOf(fn) == Internal then u.sourcePath else "", NameOf(fn));
  }

  lemma ParentProper(u: Unit, st: State, parent: LocalId)
    requires Proper(st.symbols)
    ensures Proper(ParentOf(u, st, parent).symbols)
  {
    hide Proper, RecordFor, MergeSymbol;
    if parent in u.symbols && RecordFor(u.symbols[parent], u).Some? {
      MergeProper(st.symbols, u.symbols[parent], u);
    }
  }

  lemma NoteCloneProper(symbols: Symbols, usr: string, fn: Cgraph.Symbol)
    requires Proper(symbols)
    ensures Proper(NoteClone(symbols, usr, fn))
  {
  }

  lemma {:induction false} PhasesProper(u: Unit, symbols: Symbols, k: nat)
    requires k <= |u.order| && Proper(symbols)
    ensures Proper(SecondPhase(u, symbols, k).symbols)
    decreases k
  {
    hide Proper, ParentOf, NoteClone, FirstPhase;
    FirstProper(u, symbols, |u.order|);
    if k > 0 {
      PhasesProper(u, symbols, k - 1);
      var st, id := SecondPhase(u, symbols, k - 1), u.order[k - 1];
      if id in u.symbols && u.symbols[id].cloneOf != "" {
        var parent := u.symbols[id].cloneOf;
        var st' := ParentOf(u, st, parent);
        ParentProper(u, st, parent);
        if parent in st'.res {
          NoteCloneProper(st'.symbols, st'.res[parent], u.symbols[id]);
        }
      }
    }
  }

  lemma {:induction false} FirstProper(u: Unit, symbols: Symbols, k: nat)
    requires k <= |u.order| && Proper(symbols)
    ensures Proper(FirstPhase(u, symbols, k).symbols)
    decreases k
  {
    if k > 0 {
      FirstProper(u, symbols, k - 1);
      var st, id := FirstPhase(u, symbols, k - 1), u.order[k - 1];
      if id in u.symbols && RecordFor(u.symbols[id], u).Some? {
        MergeProper(st.symbols, u.symbols[id], u);
      }
    }
  }

  lemma {:induction false} AllProper(us: seq<Unit>)
    ensures Proper(AggregateAll(us))
  {
    if us != [] {
      AllProper(us[..|us| - 1]);
      PhasesProper(us[|us| - 1], AggregateAll(us[..|us| - 1]), |us[|us| - 1].order|);
    }
  }

  // ----- order independence -----

  function LinkNames(rec: Rec): set<string> { NonEmpty(rec.linkageNames) }

  ghost predicate SameDefKeys(a: seq<Def>, b: seq<Def>) {
    forall d :: HasDef(a, d) <==> HasDef(b, d)
  }

  /** Aggregating the units in any order gives the same USRs, and for each the same linkage, address-taken
      flag, non-empty linkage names and definition keys. */
  lemma OrderDoesNotMatter(us: seq<Unit>, vs: seq<Unit>, usr: string)
    requires forall u :: u in us <==> u in vs
    ensures usr in AggregateAll(us) <==> usr in AggregateAll(vs)
    ensures usr in AggregateAll(us) ==>
              var a, b := AggregateAll(us)[usr], AggregateAll(vs)[usr];
              && a.linkage == b.linkage && a.addressTaken == b.addressTaken
              && LinkNames(a) == LinkNames(b) && SameDefKeys(a.defs, b.defs)
  {
    hide AggregateAll, Alone;
    var x, y := AggregateAll(us), AggregateAll(vs);
    forall f ensures Holds(x, usr, f) <==> Holds(y, usr, f) {
      FactsComeFromUnits(us, usr, f);
      FactsComeFromUnits(vs, usr, f);
    }
    assert Holds(x, usr, Present) <==> usr in x;
    assert Holds(y, usr, Present) <==> usr in y;
    if usr in x {
      AllProper(us);
      AllProper(vs);
      FactsDetermine(x, y, usr);
    }
  }

  lemma FactsDetermine(x: Symbols, y: Symbols, usr: string)
    requires usr in x && usr in y && Proper(x) && Proper(y)
    requires forall f :: Holds(x, usr, f) <==> Holds(y, usr, f)
    ensures x[usr].linkage == y[usr].linkage && x[usr].addressTaken == y[usr].addressTaken
    ensures LinkNames(x[usr]) == LinkNames(y[usr]) && SameDefKeys(x[usr].defs, y[usr].defs)
  {
    var a, b := x[usr], y[usr];
    assert Holds(x, usr, AtLeast(Rank(a.linkage))) && Holds(y, usr, AtLeast(Rank(b.linkage)));
    assert Holds(x, usr, AddressTaken) <==> Holds(y, usr, AddressTaken);
    forall n ensures n in LinkNames(a) <==> n in LinkNames(b) {
      assert Holds(x, usr, LinkName(n)) <==> Holds(y, usr, LinkName(n));
    }
    forall d ensures HasDef(a.defs, d) <==> HasDef(b.defs, d) {
      var f := DefinedAt(d.file, d.line, d.linkageName);
      assert Holds(x, usr, f) <==> Holds(y, usr, f);
    }
  }

  // ----- the aggregation loops -----

  class Aggregator {
    var symbols: Symbols

    constructor ()
      ensures symbols == map[]
    {
      symbols := map[];
    }

    /** mergeSymbol: the record in the map is updated field by field. */
    method Merge(obs: Rec)
      modifies this
      ensures symbols == MergeSymbol(old(symbols), obs)
    {
      if obs.usr !in symbols {
        symbols := symbols[obs.usr := obs];
        return;
      }
      var prev := symbols[obs.usr];
      var name, kind := prev.name, prev.kind;
      if name == "" {
        name := obs.name;
      }
      if kind == "" {
        kind := obs.kind;
      }
      var defs := prev.defs;
      for i := 0 to |obs.defs|
        invariant AddDefs(prev.defs, obs.defs) == AddDefs(defs, obs.defs[i..])
      {
        assert obs.defs[i..][1..] == obs.defs[i + 1..];
        if !HasDef(defs, obs.defs[i]) {
          defs := defs + [obs.defs[i]];
        }
      }
      prev := prev.(name := name, kind := kind, linkage := Stronger(prev.linkage, obs.linkage),
                    addressTaken := prev.addressTaken || obs.addressTaken,
                    linkageNames := prev.linkageNames + NonEmpty(obs.linkageNames), defs := defs);
      symbols := symbols[obs.usr := prev];
    }

    /** aggregateSymbols: non-clones first, so that clones can look their parents up. */
    method AggregateSymbols(u: Unit) returns (res: Resolve)
      requires u.hasCgraph && ValidUnit(u)
      modifies this
      ensures State(symbols, res) == AggregateUnit(u, old(symbols))
    {
      hide MergeSymbol, NoteClone, RecordFor;
      ghost var symbols0 := symbols;
      res := map[];
      for k := 0 to |u.order|
        invariant State(symbols, res) == FirstPhase(u, symbols0, k)
      {
        var id := u.order[k];
        var fn := u.symbols[id];
        if fn.cloneOf == "" {
          var rec := RecordFor(fn, u);
          if rec.Some? {
            res := res[id := rec.value.usr];
            Merge(rec.value);
          }
        }
      }
      for k := 0 to |u.order|
        invariant State(symbols, res) == SecondPhase(u, symbols0, k)
      {
        var id := u.order[k];
        var fn := u.symbols[id];
        if fn.cloneOf != "" {
          if fn.cloneOf !in res && fn.cloneOf in u.symbols {
            var parent := RecordFor(u.symbols[fn.cloneOf], u);
            if parent.Some? {
              res := res[fn.cloneOf := parent.value.usr];
              Merge(parent.value);
            }
          }
          if fn.cloneOf in res {
            var usr := res[fn.cloneOf];
            res := res[id := usr];
            symbols := NoteClone(symbols, usr, fn);
          }
        }
      }
    }
  }
}
