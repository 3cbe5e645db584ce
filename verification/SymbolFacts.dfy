/** What the symbols of the units' dumps put into the aggregate, in terms of the dumps' own fields. */
module SymbolFacts {
  import opened Wrappers
  import opened Aggregate
  import Cgraph
  import Usr

  // ----- a symbol of a unit -----

  /** Neither weak nor public nor externally visible. */
  predicate IsStatic(fn: Cgraph.Symbol) {
    "weak" !in fn.visibility && "public" !in fn.visibility && "externally_visible" !in fn.visibility
  }

  /** The name, or failing that the linkage name, if there is either. */
  predicate IsCalled(fn: Cgraph.Symbol, name: string) {
    name != "" && name == if fn.name == "" then fn.linkageName else fn.name
  }

  predicate IsAnonymous(fn: Cgraph.Symbol) {
    fn.name == "" && fn.linkageName == ""
  }

  /** A static is keyed under the source file of its unit, anything else under no file. */
  ghost predicate HasUsr(u: Unit, fn: Cgraph.Symbol, usr: string) {
    exists name :: IsCalled(fn, name) && IsKey(u, fn, name, usr)
  }

  predicate IsKey(u: Unit, fn: Cgraph.Symbol, name: string, usr: string) {
    usr == "c:" + (if IsStatic(fn) then u.sourcePath else "") + (if fn.kind == "variable" then "@V@" else "@F@") + name
  }

  /** Where the .ci dump declares it, or else the unit's source file. */
  predicate IsDeclaredAt(u: Unit, name: string, file: string, line: int) {
    if name in u.nodes then
      line == u.nodes[name].line && file == if u.nodes[name].file == "" then u.sourcePath else u.nodes[name].file
    else file == u.sourcePath && line == 0
  }

  predicate HasBody(fn: Cgraph.Symbol) {
    fn.analyzed && !fn.bodyRemoved
  }

  /** The facts a symbol gives of itself: external is stronger than weak, weak stronger than internal. */
  ghost predicate Gives(u: Unit, fn: Cgraph.Symbol, f: Fact) {
    match f
    case Present => true
    case AtLeast(r) => r <= 1 || (r == 2 && !IsStatic(fn)) || (r == 3 && !IsStatic(fn) && "weak" !in fn.visibility)
    case AddressTaken => fn.addressTaken
    case LinkName(n) => n != "" && (n == fn.name || n == fn.linkageName)
    case DefinedAt(file, line, ln) =>
      HasBody(fn) && ln == fn.linkageName && exists name :: IsCalled(fn, name) && IsDeclaredAt(u, name, file, line)
  }

  /** A record that says of a symbol what its dump does. */
  ghost predicate IsRecordOf(u: Unit, fn: Cgraph.Symbol, rec: Rec) {
    && IsCalled(fn, rec.name) && IsKey(u, fn, rec.name, rec.usr)
    && rec.kind == (if fn.kind == "" then "function" else fn.kind)
    && (if "weak" in fn.visibility then rec.linkage.Weak?
        else if "public" in fn.visibility || "externally_visible" in fn.visibility then rec.linkage.External?
        else rec.linkage.Internal?)
    && (rec.addressTaken <==> fn.addressTaken)
    && (forall n :: n != "" ==> (n in rec.linkageNames <==> n == fn.name || n == fn.linkageName))
    && |rec.defs| == (if HasBody(fn) then 1 else 0)
    && forall d :: d in rec.defs ==> IsDefOf(u, fn, d)
  }

  ghost predicate IsDefOf(u: Unit, fn: Cgraph.Symbol, d: Def) {
    && HasBody(fn) && d.linkageName == fn.linkageName && (d.isWeak <==> "weak" in fn.visibility)
    && exists name :: IsCalled(fn, name) && IsDeclaredAt(u, name, d.file, d.line)
  }

  lemma RecordedAsDumped(u: Unit, fn: Cgraph.Symbol)
    ensures RecordFor(fn, u).None? <==> IsAnonymous(fn)
    ensures RecordFor(fn, u).Some? ==> IsRecordOf(u, fn, RecordFor(fn, u).value)
  {
    if !IsAnonymous(fn) {
      var rec := RecordFor(fn, u).value;
      assert IsCalled(fn, rec.name);
      UsrIsKey(u, fn, rec.name);
      forall d | d in rec.defs ensures IsDefOf(u, fn, d) {
        assert IsDeclaredAt(u, rec.name, d.file, d.line);
      }
    }
  }

  lemma UsrIsKey(u: Unit, fn: Cgraph.Symbol, name: string)
    requires IsCalled(fn, name)
    ensures IsKey(u, fn, name, UsrFor(fn, u))
  {
    var path := if IsStatic(fn) then u.sourcePath else "";
    assert "c:" + "" == "c:" && "c:@F@" == "c:" + "@F@" && "c:@V@" == "c:" + "@V@";
    assert Usr.Function(path, name) == "c:" + path + "@F@" + name;
    assert Usr.Variable(path, name) == "c:" + path + "@V@" + name;
  }

  lemma UsrIsUnique(u: Unit, fn: Cgraph.Symbol, a: string, b: string)
    requires HasUsr(u, fn, a) && HasUsr(u, fn, b)
    ensures a == b
  {
  }

  lemma SaysWhatIsGiven(u: Unit, fn: Cgraph.Symbol, rec: Rec, f: Fact)
    requires IsRecordOf(u, fn, rec)
    ensures HasUsr(u, fn, rec.usr) && (Says(rec, f) <==> Gives(u, fn, f))
  {
    assert IsCalled(fn, rec.name) && IsKey(u, fn, rec.name, rec.usr);
    hide IsKey;
    if f.DefinedAt? {
      var d := Def(f.file, f.line, false, f.linkageName);
      if HasBody(fn) {
        var e := rec.defs[0];
        assert rec.defs == [e] && IsDefOf(u, fn, e);
        DeclaredOnce(u, fn, rec.name, e, f);
      } else {
        assert rec.defs == [];
      }
    }
  }

  lemma DeclaredOnce(u: Unit, fn: Cgraph.Symbol, name: string, e: Def, f: Fact)
    requires f.DefinedAt? && IsCalled(fn, name) && IsDefOf(u, fn, e)
    ensures HasDef([e], Def(f.file, f.line, false, f.linkageName)) <==> Gives(u, fn, f)
  {
    var d := Def(f.file, f.line, false, f.linkageName);
    assert forall n :: IsCalled(fn, n) ==> n == name;
    assert IsDeclaredAt(u, name, e.file, e.line);
    assert HasDef([e], d) <==> SameDef(e, d) by {
      assert [e][0] == e && e in [e];
    }
    assert Gives(u, fn, f) <==> f.linkageName == fn.linkageName && IsDeclaredAt(u, name, f.file, f.line);
  }

  // ----- what two symbols share -----

  /** Two symbols of any two units have one USR exactly when they have one name, are both variables or both not, and
      are keyed under one path; that is, none or both are static in units of one source path, or a unit has no
      source path at all and its statics are keyed like everything else. Names and paths are free of '@'. */
  lemma ShareUsrExactlyWhen(u: Unit, fn: Cgraph.Symbol, v: Unit, gn: Cgraph.Symbol, a: string, b: string,
                            m: string, n: string)
    requires IsCalled(fn, m) && IsKey(u, fn, m, a) && IsCalled(gn, n) && IsKey(v, gn, n, b)
    requires '@' !in m && '@' !in n && '@' !in u.sourcePath && '@' !in v.sourcePath
    ensures a == b <==>
              && m == n && (fn.kind == "variable" <==> gn.kind == "variable")
              && if IsStatic(fn) && IsStatic(gn) then u.sourcePath == v.sourcePath
                 else (IsStatic(fn) ==> u.sourcePath == "") && (IsStatic(gn) ==> v.sourcePath == "")
  {
    var p, q := if IsStatic(fn) then u.sourcePath else "", if IsStatic(gn) then v.sourcePath else "";
    var x := if fn.kind == "variable" then Usr.AVariable(p, m) else Usr.AFunction(p, m);
    var y := if gn.kind == "variable" then Usr.AVariable(q, n) else Usr.AFunction(q, n);
    UsrIsKey(u, fn, m);
    UsrIsKey(v, gn, n);
    assert a == Usr.UsrOf(x) && b == Usr.UsrOf(y);
    hide IsKey, Usr.UsrOf, UsrFor;
    if a == b {
      Usr.UsrsIdentify(x, y);
    }
  }

  /** Without a .ci dump a unit has no source path: the statics of two such units that happen to have one name are
      one symbol, and the same as a public one of that name. */
  lemma StaticsOfNoPathMerge(u: Unit, fn: Cgraph.Symbol, v: Unit, gn: Cgraph.Symbol)
    requires u.sourcePath == "" && v.sourcePath == "" && fn.name == gn.name == "helper"
    requires fn.kind == gn.kind == "function" && IsStatic(fn)
    ensures HasUsr(u, fn, "c:@F@helper") && HasUsr(v, gn, "c:@F@helper")
  {
    assert IsCalled(fn, "helper") && IsCalled(gn, "helper");
    assert "c:" + "" + "@F@" + "helper" == "c:@F@helper";
    assert IsKey(u, fn, "helper", "c:@F@helper") && IsKey(v, gn, "helper", "c:@F@helper");
  }

  // ----- clones -----

  predicate IsClone(u: Unit, id: LocalId) {
    id in u.symbols && u.symbols[id].cloneOf != ""
  }

  predicate IsOriginal(u: Unit, id: LocalId) {
    id in u.symbols && u.symbols[id].cloneOf == ""
  }

  /** A clone of a symbol that is none itself. */
  predicate IsDirectClone(u: Unit, id: LocalId) {
    IsClone(u, id) && IsOriginal(u, u.symbols[id].cloneOf)
  }

  /** No clone has a clone for its parent. */
  ghost predicate IsFlat(u: Unit) {
    forall id :: IsClone(u, id) ==> !IsClone(u, u.symbols[id].cloneOf)
  }

  /** Each is a clone of the next. */
  ghost predicate IsChain(u: Unit, path: seq<LocalId>) {
    && path != [] && path[0] in u.symbols && path[|path| - 1] in u.symbols
    && (|path| > 1 ==>
          IsClone(u, path[0]) && u.symbols[path[0]].cloneOf == path[1] && IsChain(u, path[1..]))
  }

  /** The USR of the symbol, or of one it is a clone of at some remove. */
  ghost predicate HasUsrAlong(u: Unit, path: seq<LocalId>, usr: string) {
    IsChain(u, path) && HasUsr(u, u.symbols[path[|path| - 1]], usr)
  }

  ghost predicate Leads(u: Unit, id: LocalId, usr: string) {
    exists path :: HasUsrAlong(u, path, usr) && path[0] == id
  }

  /** A clone gives its parent its names and its address, and so on up. */
  ghost predicate GivesAsClone(u: Unit, id: LocalId, usr: string, f: Fact) {
    IsClone(u, id) && CloneSays(u.symbols[id], f) && Leads(u, u.symbols[id].cloneOf, usr)
  }

  ghost predicate GivesItself(u: Unit, id: LocalId, usr: string, f: Fact) {
    id in u.symbols && HasUsr(u, u.symbols[id], usr) && Gives(u, u.symbols[id], f)
  }

  /** A symbol speaks for itself if it is no clone, or a clone with a clone of its own. */
  ghost predicate MaySpeak(u: Unit, id: LocalId) {
    IsOriginal(u, id) || exists c :: IsClone(u, c) && u.symbols[c].cloneOf == id
  }

  ghost predicate MayCome(u: Unit, usr: string, f: Fact) {
    exists id :: (MaySpeak(u, id) && GivesItself(u, id, usr, f)) || GivesAsClone(u, id, usr, f)
  }

  /** What is sure to arrive: the facts of the originals and of their clones. */
  ghost predicate MustCome(u: Unit, usr: string, f: Fact) {
    exists id :: IsSureOf(u, id, usr, f)
  }

  ghost predicate IsSureOf(u: Unit, id: LocalId, usr: string, f: Fact) {
    || (IsOriginal(u, id) && GivesItself(u, id, usr, f))
    || (IsDirectClone(u, id) && HasUsr(u, u.symbols[u.symbols[id].cloneOf], usr) && CloneSays(u.symbols[id], f))
  }

  // ----- what a unit's own resolution and facts are, step by step -----

  ghost predicate OriginalsResolved(u: Unit, st: State) {
    forall id :: IsOriginal(u, id) ==>
      && (id in st.res <==> !IsAnonymous(u.symbols[id]))
      && (id in st.res ==> HasUsr(u, u.symbols[id], st.res[id]))
  }

  ghost predicate ResolvedLead(u: Unit, st: State) {
    forall id :: id in st.res ==> id in u.symbols && Leads(u, id, st.res[id])
  }

  ghost predicate FactsMayCome(u: Unit, st: State) {
    forall usr, f :: Holds(st.symbols, usr, f) ==> MayCome(u, usr, f)
  }

  lemma LeadsToItself(u: Unit, id: LocalId, usr: string)
    requires id in u.symbols && HasUsr(u, u.symbols[id], usr)
    ensures Leads(u, id, usr)
  {
    assert HasUsrAlong(u, [id], usr);
  }

  lemma ChainGrows(u: Unit, id: LocalId, path: seq<LocalId>)
    requires IsChain(u, path) && IsClone(u, id) && u.symbols[id].cloneOf == path[0]
    ensures IsChain(u, [id] + path)
  {
    assert ([id] + path)[1..] == path;
  }

  lemma LeadsOn(u: Unit, id: LocalId, usr: string)
    requires IsClone(u, id) && Leads(u, u.symbols[id].cloneOf, usr)
    ensures Leads(u, id, usr)
  {
    var path :| HasUsrAlong(u, path, usr) && path[0] == u.symbols[id].cloneOf;
    ChainGrows(u, id, path);
    var longer := [id] + path;
    assert longer[|longer| - 1] == path[|path| - 1];
    hide HasUsr, IsChain;
    assert HasUsrAlong(u, longer, usr);
  }

  /** Recording a symbol in its own right. */
  lemma RecordKeeps(u: Unit, st: State, id: LocalId)
    requires id in u.symbols && !IsAnonymous(u.symbols[id]) && MaySpeak(u, id)
    requires ResolvedLead(u, st) && FactsMayCome(u, st)
    ensures RecordFor(u.symbols[id], u).Some?
    ensures var rec := RecordFor(u.symbols[id], u).value;
            var st' := State(MergeSymbol(st.symbols, rec), st.res[id := rec.usr]);
            && ResolvedLead(u, st') && FactsMayCome(u, st') && HasUsr(u, u.symbols[id], rec.usr)
            && forall usr, f :: Holds(st'.symbols, usr, f)
                                <==> Holds(st.symbols, usr, f) || (usr == rec.usr && Gives(u, u.symbols[id], f))
  {
    var fn := u.symbols[id];
    RecordedAsDumped(u, fn);
    var rec := RecordFor(fn, u).value;
    var st' := State(MergeSymbol(st.symbols, rec), st.res[id := rec.usr]);
    hide RecordFor, MergeSymbol, IsRecordOf, Holds, Gives, HasUsr;
    SaysWhatIsGiven(u, fn, rec, Present);
    LeadsToItself(u, id, rec.usr);
    hide Leads;
    forall usr, f
      ensures Holds(st'.symbols, usr, f) <==> Holds(st.symbols, usr, f) || (usr == rec.usr && Gives(u, fn, f))
      ensures Holds(st'.symbols, usr, f) ==> MayCome(u, usr, f)
    {
      MergeHolds(st.symbols, rec, usr, f);
      SaysWhatIsGiven(u, fn, rec, f);
      if usr == rec.usr && Gives(u, fn, f) {
        assert MaySpeak(u, id) && GivesItself(u, id, usr, f);
      }
    }
  }

  /** Leaving a clone's names and address on the symbol its parent resolves to. */
  lemma NoteKeeps(u: Unit, st: State, id: LocalId)
    requires IsClone(u, id) && u.symbols[id].cloneOf in st.res && Grounded(st)
    requires ResolvedLead(u, st) && FactsMayCome(u, st)
    ensures var usr0 := st.res[u.symbols[id].cloneOf];
            var st' := State(NoteClone(st.symbols, usr0, u.symbols[id]), st.res[id := usr0]);
            && ResolvedLead(u, st') && FactsMayCome(u, st')
            && forall usr, f :: Holds(st'.symbols, usr, f)
                                <==> Holds(st.symbols, usr, f) || (usr == usr0 && CloneSays(u.symbols[id], f))
  {
    var fn := u.symbols[id];
    var usr0 := st.res[fn.cloneOf];
    LeadsOn(u, id, usr0);
    hide Leads, NoteClone, Holds, CloneSays;
    forall usr, f
      ensures Holds(NoteClone(st.symbols, usr0, fn), usr, f)
         <==> Holds(st.symbols, usr, f) || (usr == usr0 && CloneSays(fn, f))
      ensures Holds(NoteClone(st.symbols, usr0, fn), usr, f) ==> MayCome(u, usr, f)
    {
      NoteCloneHolds(st.symbols, usr0, fn, usr, f);
      if usr == usr0 && CloneSays(fn, f) {
        assert GivesAsClone(u, id, usr, f);
      }
    }
  }

  /** The originals among the first k have been recorded, and nothing else. */
  ghost predicate FirstTaken(u: Unit, k: nat, st: State)
    requires k <= |u.order|
  {
    && (forall id :: id in st.res ==> IsOriginal(u, id) && HasUsr(u, u.symbols[id], st.res[id]))
    && (forall i :: 0 <= i < k && IsOriginal(u, u.order[i]) && !IsAnonymous(u.symbols[u.order[i]]) ==>
          u.order[i] in st.res)
    && forall i, usr, f :: 0 <= i < k && IsOriginal(u, u.order[i]) && GivesItself(u, u.order[i], usr, f) ==>
         Holds(st.symbols, usr, f)
  }

  lemma {:induction false} FirstPhaseTakes(u: Unit, k: nat)
    requires k <= |u.order|
    ensures var st := FirstPhase(u, map[], k);
            Grounded(st) && ResolvedLead(u, st) && FactsMayCome(u, st) && FirstTaken(u, k, st)
    decreases k
  {
    FirstGrounded(u, map[], k);
    if k > 0 {
      FirstPhaseTakes(u, k - 1);
      hide Grounded, Gives, HasUsr, Leads;
      TakeSymbolKeeps(u, FirstPhase(u, map[], k - 1), k);
    }
  }

  /** The next original is recorded. */
  lemma NextRecorded(u: Unit, st: State, st': State, k: nat)
    requires 0 < k <= |u.order| && FirstTaken(u, k - 1, st) && IsOriginal(u, u.order[k - 1])
    requires var id := u.order[k - 1];
             && id in st'.res && HasUsr(u, u.symbols[id], st'.res[id]) && st'.res == st.res[id := st'.res[id]]
             && forall usr, f :: Holds(st'.symbols, usr, f)
                                 <==> Holds(st.symbols, usr, f)
                                      || (usr == st'.res[id] && Gives(u, u.symbols[id], f))
    ensures FirstTaken(u, k, st')
  {
    var id := u.order[k - 1];
    hide Gives, Holds, IsAnonymous;
    forall usr, f | GivesItself(u, id, usr, f) ensures Holds(st'.symbols, usr, f) {
      UsrIsUnique(u, u.symbols[id], usr, st'.res[id]);
    }
    hide HasUsr;
  }

  lemma TakeSymbolKeeps(u: Unit, st: State, k: nat)
    requires 0 < k <= |u.order|
    requires ResolvedLead(u, st) && FactsMayCome(u, st) && FirstTaken(u, k - 1, st)
    ensures var st' := TakeSymbol(u, st, u.order[k - 1]);
            ResolvedLead(u, st') && FactsMayCome(u, st') && FirstTaken(u, k, st')
  {
    var id := u.order[k - 1];
    if IsOriginal(u, id) {
      var fn := u.symbols[id];
      RecordedAsDumped(u, fn);
      hide RecordFor, ResolvedLead, FactsMayCome, MergeSymbol, IsRecordOf, HasUsr, Holds, Gives;
      if IsAnonymous(fn) {
        AnonymousHasNone(u, fn);
      } else {
        assert MaySpeak(u, id);
        RecordKeeps(u, st, id);
        var st' := TakeSymbol(u, st, id);
        hide FirstTaken, IsAnonymous, MaySpeak;
        NextRecorded(u, st, st', k);
      }
    }
  }

  lemma NamedIfKeyed(u: Unit, fn: Cgraph.Symbol, usr: string)
    requires HasUsr(u, fn, usr)
    ensures !IsAnonymous(fn)
  {
  }

  lemma AnonymousHasNone(u: Unit, fn: Cgraph.Symbol)
    requires IsAnonymous(fn)
    ensures forall usr :: !HasUsr(u, fn, usr)
  {
  }

  ghost predicate OriginalsHold(u: Unit, st: State) {
    forall id, usr, f :: IsOriginal(u, id) && GivesItself(u, id, usr, f) ==> Holds(st.symbols, usr, f)
  }

  /** What has become of the direct clones among the first k. */
  ghost predicate ClonesTaken(u: Unit, k: nat, st: State)
    requires k <= |u.order|
  {
    forall i :: 0 <= i < k && IsDirectClone(u, u.order[i]) ==> CloneTaken(u, u.order[i], st)
  }

  ghost predicate CloneTaken(u: Unit, id: LocalId, st: State)
    requires IsDirectClone(u, id)
  {
    var parent := u.symbols[id].cloneOf;
    !IsAnonymous(u.symbols[parent]) ==>
      && id in st.res && parent in st.res && st.res[id] == st.res[parent]
      && forall usr, f :: HasUsr(u, u.symbols[parent], usr) && CloneSays(u.symbols[id], f) ==> Holds(st.symbols, usr, f)
  }

  /** Everything that stays true through the second phase. */
  ghost predicate Sound(u: Unit, st: State) {
    && Grounded(st) && ResolvedLead(u, st) && FactsMayCome(u, st) && OriginalsResolved(u, st) && OriginalsHold(u, st)
  }

  lemma FirstPhaseIsSound(u: Unit)
    requires ValidUnit(u)
    ensures Sound(u, FirstPhase(u, map[], |u.order|))
  {
    FirstPhaseTakes(u, |u.order|);
    var st := FirstPhase(u, map[], |u.order|);
    hide FirstPhase, ResolvedLead, FactsMayCome, Gives, Holds;
    forall id | IsOriginal(u, id)
      ensures (id in st.res <==> !IsAnonymous(u.symbols[id])) && (id in st.res ==> HasUsr(u, u.symbols[id], st.res[id]))
      ensures forall usr, f :: GivesItself(u, id, usr, f) ==> Holds(st.symbols, usr, f)
    {
      var i :| 0 <= i < |u.order| && u.order[i] == id;
      if id in st.res && IsAnonymous(u.symbols[id]) {
        AnonymousHasNone(u, u.symbols[id]);
      }
    }
  }

  /** A state only grows, but for the resolution of one clone. */
  ghost predicate Grows(u: Unit, a: State, b: State, id: LocalId) {
    && (forall usr, f :: Holds(a.symbols, usr, f) ==> Holds(b.symbols, usr, f))
    && (forall x :: x in a.res && x != id ==> x in b.res && b.res[x] == a.res[x])
    && !IsOriginal(u, id) && forall x :: x in b.res && x != id ==> x in a.res
  }

  lemma OriginalsStay(u: Unit, a: State, b: State, id: LocalId)
    requires OriginalsResolved(u, a) && OriginalsHold(u, a) && Grows(u, a, b, id)
    ensures OriginalsResolved(u, b) && OriginalsHold(u, b)
  {
    hide Holds, HasUsr, Gives;
  }

  /** A clone that has a clone of its own is recorded. */
  lemma RecordKeepsSound(u: Unit, st: State, id: LocalId)
    requires Sound(u, st) && id in u.symbols && MaySpeak(u, id) && !IsOriginal(u, id)
    requires !IsAnonymous(u.symbols[id]) && id !in st.res
    ensures RecordFor(u.symbols[id], u).Some?
    ensures var rec := RecordFor(u.symbols[id], u).value;
            var st' := State(MergeSymbol(st.symbols, rec), st.res[id := rec.usr]);
            Sound(u, st') && Grows(u, st, st', id)
  {
    RecordKeeps(u, st, id);
    var rec := RecordFor(u.symbols[id], u).value;
    var st' := State(MergeSymbol(st.symbols, rec), st.res[id := rec.usr]);
    MergeGrounded(st, rec, id);
    hide RecordFor, ResolvedLead, FactsMayCome, MergeSymbol, Gives, Holds, HasUsr, Grounded, MaySpeak, OriginalsHold,
         OriginalsResolved, IsAnonymous;
    assert Grows(u, st, st', id);
    hide Grows;
    OriginalsStay(u, st, st', id);
  }

  lemma NoteKeepsSound(u: Unit, st: State, id: LocalId)
    requires Sound(u, st) && IsClone(u, id) && u.symbols[id].cloneOf in st.res
    ensures var usr := st.res[u.symbols[id].cloneOf];
            var st' := State(NoteClone(st.symbols, usr, u.symbols[id]), st.res[id := usr]);
            && Sound(u, st') && Grows(u, st, st', id)
            && forall f :: CloneSays(u.symbols[id], f) ==> Holds(st'.symbols, usr, f)
  {
    hide ResolvedLead, FactsMayCome, NoteClone, Gives, Holds, HasUsr, Grounded, OriginalsHold, OriginalsResolved,
         CloneSays;
    NoteKeeps(u, st, id);
    NoteGrounded(u, st, id);
    var usr := st.res[u.symbols[id].cloneOf];
    var st' := State(NoteClone(st.symbols, usr, u.symbols[id]), st.res[id := usr]);
    assert Grows(u, st, st', id);
    hide Grows;
    OriginalsStay(u, st, st', id);
  }

  lemma NoteGrounded(u: Unit, st: State, id: LocalId)
    requires IsClone(u, id) && u.symbols[id].cloneOf in st.res && Grounded(st)
    ensures var usr := st.res[u.symbols[id].cloneOf];
            Grounded(State(NoteClone(st.symbols, usr, u.symbols[id]), st.res[id := usr]))
  {
  }

  /** The originals of a sound state are resolved exactly when they have a name. */
  lemma OriginalIsResolved(u: Unit, st: State, id: LocalId)
    requires Sound(u, st) && IsOriginal(u, id)
    ensures id in st.res <==> !IsAnonymous(u.symbols[id])
    ensures forall usr :: id in st.res && HasUsr(u, u.symbols[id], usr) ==> usr == st.res[id]
  {
    hide Grounded, ResolvedLead, FactsMayCome, OriginalsHold, HasUsr, IsAnonymous;
    if id in st.res {
      forall usr | HasUsr(u, u.symbols[id], usr) ensures usr == st.res[id] {
        UsrIsUnique(u, u.symbols[id], usr, st.res[id]);
      }
    }
  }

  lemma ParentKeeps(u: Unit, st: State, id: LocalId)
    requires Sound(u, st) && IsClone(u, id)
    ensures var parent := u.symbols[id].cloneOf;
            var st' := ParentOf(u, st, parent);
            Sound(u, st') && (st' == st || Grows(u, st, st', parent))
  {
    var parent := u.symbols[id].cloneOf;
    if parent !in st.res && parent in u.symbols {
      RecordedAsDumped(u, u.symbols[parent]);
      if RecordFor(u.symbols[parent], u).Some? {
        if IsOriginal(u, parent) {
          OriginalIsResolved(u, st, parent);
        }
        assert MaySpeak(u, parent);
        hide Sound, RecordFor, MergeSymbol, IsRecordOf, Grows, MaySpeak, IsAnonymous;
        RecordKeepsSound(u, st, parent);
      }
    }
  }

  /** Taking a clone keeps the facts, and the resolutions of all but itself and its unresolved parent. */
  ghost predicate Taking(u: Unit, a: State, b: State, id: LocalId) {
    && (forall usr, f :: Holds(a.symbols, usr, f) ==> Holds(b.symbols, usr, f))
    && forall x :: x in a.res && x != id ==> x in b.res && b.res[x] == a.res[x]
  }

  lemma CloneSteps(u: Unit, st: State, id: LocalId)
    requires IsClone(u, id)
    ensures var fn := u.symbols[id];
            var st1 := ParentOf(u, st, fn.cloneOf);
            TakeClone(u, st, id) ==
            if fn.cloneOf in st1.res then
              State(NoteClone(st1.symbols, st1.res[fn.cloneOf], fn), st1.res[id := st1.res[fn.cloneOf]])
            else st1
  {
    hide ParentOf, NoteClone;
  }

  lemma NotedIsTaken(u: Unit, st: State, id: LocalId, st': State)
    requires Sound(u, st) && IsDirectClone(u, id)
    requires var parent := u.symbols[id].cloneOf;
             if parent in st.res then
               && st'.res == st.res[id := st.res[parent]]
               && forall f :: CloneSays(u.symbols[id], f) ==> Holds(st'.symbols, st.res[parent], f)
             else st' == st
    ensures CloneTaken(u, id, st')
  {
    hide Sound, Holds, HasUsr, CloneSays, IsAnonymous;
    OriginalIsResolved(u, st, u.symbols[id].cloneOf);
  }

  lemma TakeCloneKeeps(u: Unit, st: State, id: LocalId)
    requires Sound(u, st) && IsClone(u, id)
    ensures Sound(u, TakeClone(u, st, id)) && Taking(u, st, TakeClone(u, st, id), id)
    ensures IsDirectClone(u, id) ==> CloneTaken(u, id, TakeClone(u, st, id))
  {
    hide ParentOf, NoteClone, HasUsr, MaySpeak, CloneSays, Sound, Holds, IsAnonymous, TakeClone, CloneTaken;
    var fn := u.symbols[id];
    ParentKeeps(u, st, id);
    var st1 := ParentOf(u, st, fn.cloneOf);
    ParentResolves(u, st, fn.cloneOf);
    CloneSteps(u, st, id);
    if fn.cloneOf in st1.res {
      NoteKeepsSound(u, st1, id);
    }
    if IsDirectClone(u, id) {
      NotedIsTaken(u, st1, id, TakeClone(u, st, id));
    }
  }

  lemma ParentResolves(u: Unit, st: State, parent: LocalId)
    ensures forall x :: x in st.res ==> x in ParentOf(u, st, parent).res && ParentOf(u, st, parent).res[x] == st.res[x]
  {
  }

  lemma NextClone(u: Unit, st: State, k: nat)
    requires 0 < k <= |u.order| && Sound(u, st) && ClonesTaken(u, k - 1, st)
    ensures Sound(u, TakeClone(u, st, u.order[k - 1])) && ClonesTaken(u, k, TakeClone(u, st, u.order[k - 1]))
  {
    hide Sound, TakeClone, CloneTaken, Taking;
    var id := u.order[k - 1];
    var st' := TakeClone(u, st, id);
    if IsClone(u, id) {
      TakeCloneKeeps(u, st, id);
      forall i | 0 <= i < k && IsDirectClone(u, u.order[i]) ensures CloneTaken(u, u.order[i], st') {
        if u.order[i] != id {
          ClonesStayTaken(u, u.order[i], st, st', id);
        }
      }
    } else {
      NotTaken(u, st, id);
    }
  }

  lemma NotTaken(u: Unit, st: State, id: LocalId)
    requires !IsClone(u, id)
    ensures TakeClone(u, st, id) == st
  {
  }

  lemma {:induction false} SecondPhaseIsSound(u: Unit, k: nat)
    requires ValidUnit(u) && k <= |u.order|
    ensures Sound(u, SecondPhase(u, map[], k)) && ClonesTaken(u, k, SecondPhase(u, map[], k))
    decreases k
  {
    hide Sound, ClonesTaken, TakeClone, FirstPhase;
    if k == 0 {
      FirstPhaseIsSound(u);
      NoneTaken(u, SecondPhase(u, map[], 0));
    } else {
      SecondPhaseIsSound(u, k - 1);
      PhaseSteps(u, k);
      NextClone(u, SecondPhase(u, map[], k - 1), k);
    }
  }

  lemma NoneTaken(u: Unit, st: State)
    ensures ClonesTaken(u, 0, st)
  {
  }

  lemma PhaseSteps(u: Unit, k: nat)
    requires 0 < k <= |u.order|
    ensures SecondPhase(u, map[], k) == TakeClone(u, SecondPhase(u, map[], k - 1), u.order[k - 1])
  {
  }

  lemma ClonesStayTaken(u: Unit, c: LocalId, st: State, st': State, id: LocalId)
    requires IsDirectClone(u, c) && CloneTaken(u, c, st) && c != id && IsClone(u, id) && Taking(u, st, st', id)
    ensures CloneTaken(u, c, st')
  {
    hide Holds, HasUsr, CloneSays;
  }

  // ----- what a unit, and all units, give -----

  /** In a unit an original is resolved exactly when it has a name, and to its own USR; a clone of an original is
      resolved to what that is resolved to. */
  lemma ResolvesAsDumped(u: Unit, id: LocalId)
    requires ValidUnit(u) && u.hasCgraph
    ensures IsOriginal(u, id) ==>
              && (id in Alone(u).res <==> !IsAnonymous(u.symbols[id]))
              && (id in Alone(u).res ==> HasUsr(u, u.symbols[id], Alone(u).res[id]))
    ensures IsDirectClone(u, id) && !IsAnonymous(u.symbols[u.symbols[id].cloneOf]) ==>
              && id in Alone(u).res && u.symbols[id].cloneOf in Alone(u).res
              && Alone(u).res[id] == Alone(u).res[u.symbols[id].cloneOf]
  {
    SecondPhaseIsSound(u, |u.order|);
    var st := Alone(u);
    assert st == SecondPhase(u, map[], |u.order|);
    hide SecondPhase, Alone, Grounded, ResolvedLead, FactsMayCome, OriginalsHold, HasUsr;
    if IsDirectClone(u, id) {
      var i :| 0 <= i < |u.order| && u.order[i] == id;
      assert CloneTaken(u, u.order[i], st);
    }
  }

  lemma UnitGives(u: Unit, usr: string, f: Fact)
    requires ValidUnit(u) && u.hasCgraph
    ensures MustCome(u, usr, f) ==> Holds(Alone(u).symbols, usr, f)
    ensures Holds(Alone(u).symbols, usr, f) ==> MayCome(u, usr, f)
  {
    SecondPhaseIsSound(u, |u.order|);
    var st := Alone(u);
    assert st == SecondPhase(u, map[], |u.order|);
    hide SecondPhase, Alone, Grounded, ResolvedLead, OriginalsResolved, HasUsr, Holds, MayCome, CloneSays, Gives;
    if MustCome(u, usr, f) {
      var id :| IsSureOf(u, id, usr, f);
      if IsDirectClone(u, id) {
        var i :| 0 <= i < |u.order| && u.order[i] == id;
        assert CloneTaken(u, u.order[i], st);
        NamedIfKeyed(u, u.symbols[u.symbols[id].cloneOf], usr);
      }
    }
  }

  /** Where no clone has a clone for its parent, nothing else may come than must. */
  lemma FlatUnitsAreExact(u: Unit, usr: string, f: Fact)
    requires IsFlat(u)
    ensures MayCome(u, usr, f) <==> MustCome(u, usr, f)
  {
    hide HasUsr, Gives, CloneSays;
    forall id ensures (MaySpeak(u, id) && GivesItself(u, id, usr, f)) || GivesAsClone(u, id, usr, f)
                 <==> IsSureOf(u, id, usr, f)
    {
      if GivesAsClone(u, id, usr, f) {
        var path :| HasUsrAlong(u, path, usr) && path[0] == u.symbols[id].cloneOf;
        assert IsDirectClone(u, id);
      }
      if IsDirectClone(u, id) && HasUsr(u, u.symbols[u.symbols[id].cloneOf], usr) {
        LeadsToItself(u, u.symbols[id].cloneOf, usr);
      }
    }
    hide IsSureOf, GivesAsClone, GivesItself, MaySpeak;
  }

  ghost predicate AllFlat(us: seq<Unit>) {
    forall u :: u in us ==> IsFlat(u)
  }

  ghost predicate MustComeFrom(us: seq<Unit>, usr: string, f: Fact) {
    exists u :: u in us && u.hasCgraph && MustCome(u, usr, f)
  }

  ghost predicate MayComeFrom(us: seq<Unit>, usr: string, f: Fact) {
    exists u :: u in us && u.hasCgraph && MayCome(u, usr, f)
  }

  /** The facts of the aggregate: at least those of the originals and their clones, at most those and what chains of
      clones pass up; exactly the former where there are no chains. */
  lemma AggregateGives(us: seq<Unit>, usr: string, f: Fact)
    requires forall u :: u in us ==> ValidUnit(u)
    ensures MustComeFrom(us, usr, f) ==> Holds(AggregateAll(us), usr, f)
    ensures Holds(AggregateAll(us), usr, f) ==> MayComeFrom(us, usr, f)
    ensures AllFlat(us) ==> (Holds(AggregateAll(us), usr, f) <==> MustComeFrom(us, usr, f))
  {
    FactsComeFromUnits(us, usr, f);
    hide AggregateAll, MustCome, MayCome, Holds, IsFlat;
    forall u | u in us
      ensures u.hasCgraph && MustCome(u, usr, f) ==> Holds(Alone(u).symbols, usr, f)
      ensures Holds(Alone(u).symbols, usr, f) ==> u.hasCgraph && MayCome(u, usr, f)
      ensures IsFlat(u) ==> (MayCome(u, usr, f) <==> MustCome(u, usr, f))
    {
      if u.hasCgraph {
        UnitGives(u, usr, f);
      } else {
        EmptyGivesNothing(u, usr, f);
      }
      if IsFlat(u) {
        FlatUnitsAreExact(u, usr, f);
      }
    }
    hide Alone;
  }

  lemma EmptyGivesNothing(u: Unit, usr: string, f: Fact)
    requires !u.hasCgraph
    ensures !Holds(Alone(u).symbols, usr, f)
  {
  }

  // ----- names, kinds and definitions -----

  /** Some symbol of some unit has that USR. */
  ghost predicate IsSource(us: seq<Unit>, u: Unit, id: LocalId, usr: string) {
    u in us && u.hasCgraph && id in u.symbols && HasUsr(u, u.symbols[id], usr)
  }

  ghost predicate HasName(us: seq<Unit>, usr: string, name: string) {
    exists u, id :: IsSource(us, u, id, usr) && IsCalled(u.symbols[id], name)
  }

  ghost predicate HasKind(us: seq<Unit>, usr: string, kind: string) {
    exists u, id ::
      IsSource(us, u, id, usr) && kind == if u.symbols[id].kind == "" then "function" else u.symbols[id].kind
  }

  ghost predicate HasDefinition(us: seq<Unit>, usr: string, d: Def) {
    exists u, id :: IsSource(us, u, id, usr) && IsDefOf(u, u.symbols[id], d)
  }

  /** The record's name, kind and every definition, weak mark included, are those of symbols with its USR. */
  ghost predicate IsSourced(us: seq<Unit>, usr: string, rec: Rec) {
    rec.usr == usr && HasName(us, usr, rec.name) && HasKind(us, usr, rec.kind)
    && forall d :: d in rec.defs ==> HasDefinition(us, usr, d)
  }

  ghost predicate AllSourced(us: seq<Unit>, symbols: Symbols) {
    forall usr :: usr in symbols ==> IsSourced(us, usr, symbols[usr])
  }

  lemma RecordIsSourced(us: seq<Unit>, u: Unit, id: LocalId, rec: Rec)
    requires u in us && u.hasCgraph && id in u.symbols && IsRecordOf(u, u.symbols[id], rec)
    ensures IsSourced(us, rec.usr, rec) && rec.name != "" && rec.kind != ""
  {
    assert IsCalled(u.symbols[id], rec.name) && IsKey(u, u.symbols[id], rec.name, rec.usr);
    hide IsKey;
    assert IsSource(us, u, id, rec.usr);
    hide HasUsr;
  }

  lemma {:induction false} AddedDefsAreOld(defs: seq<Def>, more: seq<Def>)
    ensures forall d :: d in AddDefs(defs, more) ==> d in defs || d in more
    decreases |more|
  {
    if more != [] {
      AddedDefsAreOld(if HasDef(defs, more[0]) then defs else defs + [more[0]], more[1..]);
    }
  }

  lemma MergeIsSourced(us: seq<Unit>, symbols: Symbols, obs: Rec)
    requires AllSourced(us, symbols) && IsSourced(us, obs.usr, obs) && obs.name != "" && obs.kind != ""
    ensures AllSourced(us, MergeSymbol(symbols, obs))
  {
    hide HasName, HasKind, HasDefinition;
    if obs.usr in symbols {
      AddedDefsAreOld(symbols[obs.usr].defs, obs.defs);
      assert IsSourced(us, obs.usr, symbols[obs.usr]);
    }
  }

  lemma OneRecordIsSourced(us: seq<Unit>, u: Unit, symbols: Symbols, id: LocalId)
    requires AllSourced(us, symbols) && u in us && u.hasCgraph && id in u.symbols
    ensures RecordFor(u.symbols[id], u).Some? ==>
              AllSourced(us, MergeSymbol(symbols, RecordFor(u.symbols[id], u).value))
  {
    RecordedAsDumped(u, u.symbols[id]);
    hide AllSourced, IsRecordOf, RecordFor, MergeSymbol;
    if RecordFor(u.symbols[id], u).Some? {
      RecordIsSourced(us, u, id, RecordFor(u.symbols[id], u).value);
      MergeIsSourced(us, symbols, RecordFor(u.symbols[id], u).value);
    }
  }

  lemma NoteIsSourced(us: seq<Unit>, symbols: Symbols, usr: string, fn: Cgraph.Symbol)
    requires AllSourced(us, symbols)
    ensures AllSourced(us, NoteClone(symbols, usr, fn))
  {
    hide HasName, HasKind, HasDefinition;
  }

  lemma {:induction false} FirstIsSourced(us: seq<Unit>, u: Unit, symbols: Symbols, k: nat)
    requires AllSourced(us, symbols) && u in us && u.hasCgraph && k <= |u.order|
    ensures AllSourced(us, FirstPhase(u, symbols, k).symbols)
    decreases k
  {
    hide AllSourced, MergeSymbol, RecordFor;
    if k > 0 {
      FirstIsSourced(us, u, symbols, k - 1);
      if u.order[k - 1] in u.symbols {
        OneRecordIsSourced(us, u, FirstPhase(u, symbols, k - 1).symbols, u.order[k - 1]);
      }
    }
  }

  lemma {:induction false} SecondIsSourced(us: seq<Unit>, u: Unit, symbols: Symbols, k: nat)
    requires AllSourced(us, symbols) && u in us && u.hasCgraph && k <= |u.order|
    ensures AllSourced(us, SecondPhase(u, symbols, k).symbols)
    decreases k
  {
    hide AllSourced, MergeSymbol, RecordFor, NoteClone, FirstPhase;
    if k == 0 {
      FirstIsSourced(us, u, symbols, |u.order|);
    } else {
      SecondIsSourced(us, u, symbols, k - 1);
      var st, id := SecondPhase(u, symbols, k - 1), u.order[k - 1];
      if IsClone(u, id) {
        var parent := u.symbols[id].cloneOf;
        if parent in u.symbols {
          OneRecordIsSourced(us, u, st.symbols, parent);
        }
        var st1 := ParentOf(u, st, parent);
        if parent in st1.res {
          NoteIsSourced(us, st1.symbols, st1.res[parent], u.symbols[id]);
        }
      }
    }
  }

  lemma {:induction false} AggregateIsSourced(us: seq<Unit>, k: nat)
    requires k <= |us|
    ensures AllSourced(us, AggregateAll(us[..k]))
    decreases k
  {
    hide AllSourced, SecondPhase;
    if k == 0 {
      NothingToSource(us);
      assert us[..0] == [];
    } else {
      AggregateIsSourced(us, k - 1);
      assert us[..k][..k - 1] == us[..k - 1] && us[..k][k - 1] == us[k - 1];
      if us[k - 1].hasCgraph {
        SecondIsSourced(us, us[k - 1], AggregateAll(us[..k - 1]), |us[k - 1].order|);
      }
    }
  }

  lemma NothingToSource(us: seq<Unit>)
    ensures AllSourced(us, map[])
  {
  }

  // ----- which linkage a symbol ends with -----

  /** Without chains of clones: external if some symbol of that USR is public or externally visible and not weak,
      internal if all are static, and weak otherwise. */
  lemma LinkageIsStrongest(us: seq<Unit>, usr: string)
    requires (forall u :: u in us ==> ValidUnit(u)) && AllFlat(us) && usr in AggregateAll(us)
    ensures var l := AggregateAll(us)[usr].linkage;
            && (l.External? <==> exists u, id :: IsOriginalSource(us, u, id, usr)
                                                 && !IsStatic(u.symbols[id]) && "weak" !in u.symbols[id].visibility)
            && (l.Internal? <==> forall u, id :: IsOriginalSource(us, u, id, usr) ==> IsStatic(u.symbols[id]))
            && !l.Common?
  {
    AllProper(us);
    AggregateGives(us, usr, AtLeast(3));
    AggregateGives(us, usr, AtLeast(2));
    StrengthGiven(us, usr, 3);
    StrengthGiven(us, usr, 2);
    hide AggregateAll, MustComeFrom, MayComeFrom, AllFlat, IsOriginalSource;
  }

  ghost predicate IsOriginalSource(us: seq<Unit>, u: Unit, id: LocalId, usr: string) {
    IsSource(us, u, id, usr) && IsOriginal(u, id)
  }

  lemma StrengthIsOwn(u: Unit, id: LocalId, usr: string, r: nat)
    ensures IsSureOf(u, id, usr, AtLeast(r)) <==> IsOriginal(u, id) && GivesItself(u, id, usr, AtLeast(r))
  {
    hide HasUsr, Gives;
  }

  lemma StrengthGiven(us: seq<Unit>, usr: string, r: nat)
    ensures MustComeFrom(us, usr, AtLeast(r))
       <==> exists u, id :: IsOriginalSource(us, u, id, usr) && Gives(u, u.symbols[id], AtLeast(r))
  {
    hide HasUsr, Gives, IsSureOf;
    if MustComeFrom(us, usr, AtLeast(r)) {
      var u :| u in us && u.hasCgraph && MustCome(u, usr, AtLeast(r));
      var id :| IsSureOf(u, id, usr, AtLeast(r));
      StrengthIsOwn(u, id, usr, r);
      assert IsOriginalSource(us, u, id, usr) && Gives(u, u.symbols[id], AtLeast(r));
    }
    if u, id :| IsOriginalSource(us, u, id, usr) && Gives(u, u.symbols[id], AtLeast(r)) {
      StrengthIsOwn(u, id, usr, r);
      assert MustCome(u, usr, AtLeast(r));
    }
  }
}
