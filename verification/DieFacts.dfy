/** What reading an object file records, in terms of the entries of its forest, their own attributes and those of
    their ancestors. */
module DieFacts {
  import opened Wrappers
  import opened DieWalk

  // ----- the entries of a forest -----

  /** An entry outside the subtrees of structs, unions and enums, its ancestors, outermost first, and the direct
      children of a struct, union or enum. */
  datatype Entry = Entry(die: Die, ancestors: seq<Die>, members: seq<Die>)

  function ChildrenOf(t: Tree): (children: seq<Die>)
    ensures |children| == |t.kids|
  {
    seq(|t.kids|, i requires 0 <= i < |t.kids| => t.kids[i].die)
  }

  function TreeEntries(t: Tree, ancestors: seq<Die>): seq<Entry>
    decreases t, 1
  {
    if t.die.tag.StructType? || t.die.tag.UnionType? || t.die.tag.EnumerationType? then
      [Entry(t.die, ancestors, ChildrenOf(t))]
    else [Entry(t.die, ancestors, [])] + ForestEntries(t.kids, ancestors + [t.die])
  }

  function ForestEntries(ts: seq<Tree>, ancestors: seq<Die>): seq<Entry>
    decreases ts, 0
  {
    if ts == [] then [] else TreeEntries(ts[0], ancestors) + ForestEntries(ts[1..], ancestors)
  }

  /** The entries of an object file, in document order. */
  function EntriesOf(us: seq<Unit>): seq<Entry> {
    if us == [] then [] else TreeEntries(us[0].tree, []) + EntriesOf(us[1..])
  }

  // ----- what an entry is recorded as -----

  /** The innermost subprogram among the ancestors, or -1. */
  ghost predicate IsNearest(ancestors: seq<Die>, n: int) {
    && -1 <= n < |ancestors| && (n >= 0 ==> ancestors[n].tag.Subprogram?)
    && forall i :: n < i < |ancestors| ==> !ancestors[i].tag.Subprogram?
  }

  /** A subprogram without a name of its own has that of its abstract origin. */
  ghost predicate IsNameOf(ancestors: seq<Die>, n: int, name: string) {
    if 0 <= n < |ancestors| then
      name == if ancestors[n].name != "" then ancestors[n].name else ancestors[n].origin.GetOr("")
    else name == ""
  }

  predicate IsInlined(e: Die) { e.tag.InlinedSubroutine? }

  /** The name of the innermost inlined body below the n-th ancestor that has one. */
  ghost predicate IsParent(ancestors: seq<Die>, n: int, parent: string)
    requires -1 <= n
  {
    if parent == "" then
      forall i :: n < i < |ancestors| && IsInlined(ancestors[i]) ==> ancestors[i].origin.GetOr("") == ""
    else
      exists i :: && n < i < |ancestors| && IsInlined(ancestors[i]) && ancestors[i].origin == Some(parent)
                  && forall j :: i < j < |ancestors| && IsInlined(ancestors[j]) ==> ancestors[j].origin.GetOr("") == ""
  }

  ghost predicate IsFile(index: Option<int>, files: seq<string>, file: string) {
    file == if index.Some? && 0 <= index.value < |files| then files[index.value] else ""
  }

  /** The place an entry names itself. */
  ghost predicate IsPlace(e: Die, files: seq<string>, at: Location) {
    IsFile(e.callFile, files, at.file) && at.line == e.callLine.GetOr(0) && at.column == e.callColumn.GetOr(0)
  }

  /** The place of a call: the entry's own, or the line table's where that lacks a file or a line, its file kept if
      the line table knows none. */
  ghost predicate IsCallPlace(e: Die, files: seq<string>, at: Location) {
    exists own ::
      && IsPlace(e, files, own)
      && if (own.file == "" || own.line == 0) && e.lineOf.Some? then
           && at.line == e.lineOf.value.line && at.column == e.lineOf.value.column
           && at.file == if e.lineOf.value.file == "" then own.file else e.lineOf.value.file
         else at == own
  }

  ghost predicate IsInlineOf(e: Entry, files: seq<string>, ii: InlineInstance) {
    && e.die.tag.InlinedSubroutine? && ii.callee != "" && e.die.origin == Some(ii.callee)
    && IsPlace(e.die, files, ii.at) && IsInlinedInto(e.ancestors, ii)
  }

  ghost predicate IsInlinedInto(ancestors: seq<Die>, ii: InlineInstance) {
    exists n :: 0 <= n && IsNearest(ancestors, n) && InlinedInto(ancestors, n, ii)
  }

  ghost predicate InlinedInto(ancestors: seq<Die>, n: nat, ii: InlineInstance) {
    && IsNameOf(ancestors, n, ii.caller) && ii.caller != "" && IsParent(ancestors, n, ii.parent)
    && ii.depth == 1 + |set i | n < i < |ancestors| && IsInlined(ancestors[i])|
  }

  /** A call of what DW_AT_call_origin names, indirect without one, at a place that is known at all. */
  ghost predicate IsCallTo(e: Die, cs: CallSite) {
    && e.tag.CallSiteTag? && (cs.at.file != "" || cs.at.line != 0)
    && cs.callee == e.callOrigin.GetOr("") && (cs.indirect <==> e.callOrigin.None?)
  }

  ghost predicate IsCallOf(e: Entry, files: seq<string>, cs: CallSite) {
    IsCallTo(e.die, cs) && IsCallPlace(e.die, files, cs.at) && IsCalledFrom(e.ancestors, cs)
  }

  ghost predicate IsCalledFrom(ancestors: seq<Die>, cs: CallSite) {
    exists n :: IsNearest(ancestors, n) && CalledFrom(ancestors, n, cs)
  }

  ghost predicate CalledFrom(ancestors: seq<Die>, n: int, cs: CallSite) {
    && IsNameOf(ancestors, n, cs.enclosing) && -1 <= n < |ancestors|
    && cs.enclosingOff == (if n >= 0 then ancestors[n].offset else 0)
    && exists parent ::
         IsParent(ancestors, n, parent) && cs.sourceCaller == if parent != "" then parent else cs.enclosing
  }

  ghost predicate IsVariableOf(e: Entry, files: seq<string>, name: string) {
    && e.die.tag.Variable? && |e.ancestors| <= 1 && name != "" && e.die.name == name
    && exists file :: IsFile(e.die.declFile, files, file) && file != ""
  }

  ghost predicate IsTyped(e: Entry, name: string) {
    e.die.tag.Variable? && |e.ancestors| <= 1 && name != "" && e.die.name == name && e.die.typ.Some?
  }

  /** The file table in force is that of the last compile unit before that has one. */
  ghost predicate InForce(es: seq<Entry>, k: nat, files: seq<string>)
    requires k <= |es|
  {
    if forall i :: 0 <= i < k ==> !BringsFiles(es[i]) then files == []
    else exists i :: && 0 <= i < k && BringsFiles(es[i]) && es[i].die.files == Some(files)
                     && forall j :: i < j < k ==> !BringsFiles(es[j])
  }

  predicate BringsFiles(e: Entry) {
    e.die.tag.CompileUnit? && e.die.files.Some?
  }

  ghost predicate Inlines(es: seq<Entry>, j: nat, ii: InlineInstance)
    requires j < |es|
  {
    exists files :: InForce(es, j, files) && IsInlineOf(es[j], files, ii)
  }

  ghost predicate Calls(es: seq<Entry>, j: nat, cs: CallSite)
    requires j < |es|
  {
    exists files :: InForce(es, j, files) && IsCallOf(es[j], files, cs)
  }

  ghost predicate Declares(es: seq<Entry>, j: nat, name: string)
    requires j < |es|
  {
    exists files :: InForce(es, j, files) && IsVariableOf(es[j], files, name)
  }

  // ----- structs and enums -----

  /** The member children, in order. */
  function FieldsIn(members: seq<Die>): seq<(string, Option<Offset>, int)> {
    if members == [] then []
    else
      (if members[0].tag.Member? then [(members[0].name, members[0].typ, members[0].value)] else [])
      + FieldsIn(members[1..])
  }

  /** The named enumerators, in order. */
  function ConstantsIn(members: seq<Die>): seq<(string, int)> {
    if members == [] then []
    else
      (if members[0].tag.Enumerator? && members[0].name != "" then [(members[0].name, members[0].value)] else [])
      + ConstantsIn(members[1..])
  }

  function StructsIn(es: seq<Entry>): seq<StructInfo> {
    if es == [] then []
    else
      var e := es[0].die;
      (if e.tag.StructType? then [StructInfo("struct", e.name, FieldsIn(es[0].members))]
       else if e.tag.UnionType? then [StructInfo("union", e.name, FieldsIn(es[0].members))] else [])
      + StructsIn(es[1..])
  }

  function EnumsIn(es: seq<Entry>): seq<EnumInfo> {
    if es == [] then []
    else
      (if es[0].die.tag.EnumerationType? then [EnumInfo(es[0].die.name, ConstantsIn(es[0].members))] else [])
      + EnumsIn(es[1..])
  }

  function SubprogramsIn(es: seq<Entry>): seq<string> {
    if es == [] then [] else (if es[0].die.tag.Subprogram? then [es[0].die.name] else []) + SubprogramsIn(es[1..])
  }

  function TypedefsIn(es: seq<Entry>): seq<string> {
    if es == [] then []
    else (if es[0].die.tag.Typedef? && es[0].die.name != "" then [es[0].die.name] else []) + TypedefsIn(es[1..])
  }

  // ----- entries and visits -----

  function FramesOf(ds: seq<Die>): (frames: seq<Frame>)
    ensures |frames| == |ds|
  {
    seq(|ds|, i requires 0 <= i < |ds| => NewFrame(ds[i]))
  }

  function VisitOf(e: Entry): Visit {
    Visit(e.die, FramesOf(e.ancestors), e.members)
  }

  function VisitsOf(es: seq<Entry>): (vs: seq<Visit>)
    ensures |vs| == |es|
  {
    seq(|es|, i requires 0 <= i < |es| => VisitOf(es[i]))
  }

  lemma VisitsAppend(a: seq<Entry>, b: seq<Entry>)
    ensures VisitsOf(a + b) == VisitsOf(a) + VisitsOf(b)
  {
  }

  lemma {:induction false} RootsAreInOrder(ts: seq<Tree>)
    ensures |RootDies(ts)| == |ts| && forall i :: 0 <= i < |ts| ==> RootDies(ts)[i] == ts[i].die
  {
    if ts != [] {
      RootsAreInOrder(ts[1..]);
    }
  }

  lemma {:induction false} TreeVisitsAreEntries(t: Tree, ancestors: seq<Die>)
    ensures TreeVisits(t, FramesOf(ancestors)) == VisitsOf(TreeEntries(t, ancestors))
    decreases t, 1
  {
    var inner := ancestors + [t.die];
    if IsConsumed(t.die.tag) {
      RootsAreInOrder(t.kids);
      assert RootDies(t.kids) == ChildrenOf(t);
    } else {
      assert FramesOf(inner) == FramesOf(ancestors) + [NewFrame(t.die)];
      ForestVisitsAreEntries(t.kids, inner);
      VisitsAppend([Entry(t.die, ancestors, [])], ForestEntries(t.kids, inner));
    }
  }

  lemma {:induction false} ForestVisitsAreEntries(ts: seq<Tree>, ancestors: seq<Die>)
    ensures ForestVisits(ts, FramesOf(ancestors)) == VisitsOf(ForestEntries(ts, ancestors))
    decreases ts, 0
  {
    if ts != [] {
      TreeVisitsAreEntries(ts[0], ancestors);
      ForestVisitsAreEntries(ts[1..], ancestors);
      VisitsAppend(TreeEntries(ts[0], ancestors), ForestEntries(ts[1..], ancestors));
    }
  }

  lemma {:induction false} UnitVisitsAreEntries(us: seq<Unit>)
    ensures UnitVisits(us) == VisitsOf(EntriesOf(us))
  {
    if us != [] {
      assert FramesOf([]) == [];
      TreeVisitsAreEntries(us[0].tree, []);
      UnitVisitsAreEntries(us[1..]);
      VisitsAppend(TreeEntries(us[0].tree, []), EntriesOf(us[1..]));
    }
  }

  // ----- the attribution functions, on ancestors -----

  lemma {:induction false} NearestIs(ancestors: seq<Die>)
    ensures IsNearest(ancestors, NearestSubprogram(FramesOf(ancestors)))
  {
    var n := NearestSubprogram(FramesOf(ancestors));
    forall i | n < i < |ancestors| ensures !ancestors[i].tag.Subprogram? {
      assert FramesOf(ancestors)[i] == NewFrame(ancestors[i]);
    }
  }

  lemma NearestIsUnique(ancestors: seq<Die>, n: int, m: int)
    requires IsNearest(ancestors, n) && IsNearest(ancestors, m)
    ensures n == m
  {
  }

  lemma {:induction false} InnermostIs(ancestors: seq<Die>, n: int)
    requires -1 <= n < |ancestors|
    ensures IsParent(ancestors, n, InnermostInlined(FramesOf(ancestors)[n + 1..]))
    decreases |ancestors| - n
  {
    var frames := FramesOf(ancestors)[n + 1..];
    if n + 1 < |ancestors| {
      InnermostIs(ancestors, n + 1);
      assert frames[1..] == FramesOf(ancestors)[n + 2..] && frames[0] == NewFrame(ancestors[n + 1]);
    }
  }

  lemma ParentIsUnique(ancestors: seq<Die>, n: int, a: string, b: string)
    requires -1 <= n && IsParent(ancestors, n, a) && IsParent(ancestors, n, b)
    ensures a == b
  {
    if a != "" && b != "" {
      var i :| && n < i < |ancestors| && IsInlined(ancestors[i]) && ancestors[i].origin == Some(a)
               && forall j :: i < j < |ancestors| && IsInlined(ancestors[j]) ==> ancestors[j].origin.GetOr("") == "";
      var k :| && n < k < |ancestors| && IsInlined(ancestors[k]) && ancestors[k].origin == Some(b)
               && forall j :: k < j < |ancestors| && IsInlined(ancestors[j]) ==> ancestors[j].origin.GetOr("") == "";
      assert i == k;
    }
  }

  lemma {:induction false} CountIs(ancestors: seq<Die>, n: int)
    requires -1 <= n < |ancestors|
    ensures InlinedCount(FramesOf(ancestors)[n + 1..]) == |set i | n < i < |ancestors| && IsInlined(ancestors[i])|
    decreases |ancestors| - n
  {
    var frames := FramesOf(ancestors)[n + 1..];
    var all := set i | n < i < |ancestors| && IsInlined(ancestors[i]);
    if n + 1 < |ancestors| {
      CountIs(ancestors, n + 1);
      assert frames[1..] == FramesOf(ancestors)[n + 2..] && frames[0] == NewFrame(ancestors[n + 1]);
      var inner := set i | n + 1 < i < |ancestors| && IsInlined(ancestors[i]);
      assert all == inner + if IsInlined(ancestors[n + 1]) then {n + 1} else {};
    } else {
      assert all == {};
    }
  }

  lemma FilesAreInForceAt(es: seq<Entry>, k: nat)
    requires k <= |es|
    ensures InForce(es, k, FilesAt(VisitsOf(es), k))
  {
    if k > 0 {
      FilesAreInForceAt(es, k - 1);
    }
  }

  lemma InForceIsUnique(es: seq<Entry>, k: nat, a: seq<string>, b: seq<string>)
    requires k <= |es| && InForce(es, k, a) && InForce(es, k, b)
    ensures a == b
  {
  }

  lemma PlaceIs(e: Die, files: seq<string>, at: Location)
    ensures IsPlace(e, files, at) <==> at == CallLocation(e, files)
    ensures IsCallPlace(e, files, at) <==> at == SiteLocation(e, files)
  {
    var own := CallLocation(e, files);
    assert IsPlace(e, files, own);
  }

  lemma NameIs(anc: seq<Die>, n: int, name: string)
    requires IsNearest(anc, n)
    ensures IsNameOf(anc, n, name) <==> name == if n >= 0 then FramesOf(anc)[n].subprogramName else ""
    ensures n >= 0 ==> FramesOf(anc)[n].offset == anc[n].offset
  {
  }

  /** Given the nearest subprogram, the innermost named inlined body below it and how many there are. */
  lemma InlinedIntoOnly(anc: seq<Die>, n: int, parent: string, count: nat, ii: InlineInstance)
    requires IsNearest(anc, n) && IsParent(anc, n, parent)
    requires count == |set i | n < i < |anc| && IsInlined(anc[i])|
    ensures IsInlinedInto(anc, ii)
       <==> n >= 0 && IsNameOf(anc, n, ii.caller) && ii.caller != "" && ii.parent == parent && ii.depth == 1 + count
  {
    forall m | IsNearest(anc, m) ensures m == n {
      NearestIsUnique(anc, m, n);
    }
    forall p | IsParent(anc, n, p) ensures p == parent {
      ParentIsUnique(anc, n, p, parent);
    }
    hide IsNearest, IsParent, IsNameOf;
    assert n >= 0 ==> (InlinedInto(anc, n, ii) <==>
      IsNameOf(anc, n, ii.caller) && ii.caller != "" && ii.parent == parent && ii.depth == 1 + count);
  }

  lemma CalledFromOnly(anc: seq<Die>, n: int, parent: string, cs: CallSite)
    requires IsNearest(anc, n) && IsParent(anc, n, parent)
    ensures IsCalledFrom(anc, cs)
       <==> && IsNameOf(anc, n, cs.enclosing) && cs.enclosingOff == (if n >= 0 then anc[n].offset else 0)
            && cs.sourceCaller == if parent != "" then parent else cs.enclosing
  {
    forall m | IsNearest(anc, m) ensures m == n {
      NearestIsUnique(anc, m, n);
    }
    forall p | IsParent(anc, n, p) ensures p == parent {
      ParentIsUnique(anc, n, p, parent);
    }
    assert -1 <= n < |anc|;
    hide IsNearest, IsParent, IsNameOf;
    assert CalledFrom(anc, n, cs) <==>
      && IsNameOf(anc, n, cs.enclosing) && cs.enclosingOff == (if n >= 0 then anc[n].offset else 0)
      && cs.sourceCaller == if parent != "" then parent else cs.enclosing;
    hide CalledFrom;
  }

  /** What InlineInstanceOf yields, part by part. */
  lemma InlineParts(e: Die, files: seq<string>, frames: seq<Frame>, n: int, ii: InlineInstance)
    requires n == NearestSubprogram(frames)
    ensures InlineInstanceOf(e, files, frames) == Some(ii) <==>
              && n >= 0 && e.origin == Some(ii.callee) && ii.callee != "" && ii.at == CallLocation(e, files)
              && ii.caller == frames[n].subprogramName && ii.caller != ""
              && ii.parent == InnermostInlined(frames[n + 1..]) && ii.depth == 1 + InlinedCount(frames[n + 1..])
  {
    hide CallLocation, NearestSubprogram, InnermostInlined, InlinedCount;
  }

  lemma InlineIs(e: Entry, files: seq<string>, ii: InlineInstance)
    ensures IsInlineOf(e, files, ii)
       <==> e.die.tag.InlinedSubroutine? && InlineInstanceOf(e.die, files, FramesOf(e.ancestors)) == Some(ii)
  {
    hide NearestSubprogram, InnermostInlined, InlinedCount, IsPlace, CallLocation, IsNearest, IsInlinedInto, FramesOf,
         InlineInstanceOf, IsNameOf, IsParent;
    var anc, frames := e.ancestors, FramesOf(e.ancestors);
    var n := NearestSubprogram(frames);
    NearestIs(anc);
    InnermostIs(anc, n);
    CountIs(anc, n);
    InlinedIntoOnly(anc, n, InnermostInlined(frames[n + 1..]), InlinedCount(frames[n + 1..]), ii);
    NameIs(anc, n, ii.caller);
    PlaceIs(e.die, files, ii.at);
    InlineParts(e.die, files, frames, n, ii);
  }

  /** The caller's side of a call site, on frames. */
  ghost predicate FramedCall(frames: seq<Frame>, n: int, inlined: string, cs: CallSite)
    requires -1 <= n < |frames|
  {
    && cs.enclosing == (if n >= 0 then frames[n].subprogramName else "")
    && cs.enclosingOff == (if n >= 0 then frames[n].offset else 0)
    && cs.sourceCaller == (if inlined != "" then inlined else cs.enclosing)
  }

  lemma SiteParts(e: Entry, files: seq<string>, n: int, inlined: string, cs: CallSite)
    requires n == NearestSubprogram(FramesOf(e.ancestors))
    requires inlined == InnermostInlined(FramesOf(e.ancestors)[n + 1..])
    ensures IsSiteOf(VisitOf(e), files, cs) <==>
              && IsCallTo(e.die, cs) && cs.at == SiteLocation(e.die, files)
              && FramedCall(FramesOf(e.ancestors), n, inlined, cs)
  {
    hide SiteLocation, NearestSubprogram, InnermostInlined, FramesOf;
  }

  lemma CalledFromIs(anc: seq<Die>, n: int, inlined: string, cs: CallSite)
    requires IsNearest(anc, n) && IsParent(anc, n, inlined)
    ensures IsCalledFrom(anc, cs) <==> FramedCall(FramesOf(anc), n, inlined, cs)
  {
    CalledFromOnly(anc, n, inlined, cs);
    NameIs(anc, n, cs.enclosing);
    assert -1 <= n < |anc|;
    hide IsNearest, IsCalledFrom, FramesOf, IsNameOf, IsParent;
  }

  lemma Nearest(anc: seq<Die>) returns (n: int)
    ensures -1 <= n < |anc| && n == NearestSubprogram(FramesOf(anc)) && IsNearest(anc, n)
  {
    n := NearestSubprogram(FramesOf(anc));
    NearestIs(anc);
  }

  lemma Innermost(anc: seq<Die>, n: int) returns (inlined: string)
    requires -1 <= n < |anc|
    ensures inlined == InnermostInlined(FramesOf(anc)[n + 1..]) && IsParent(anc, n, inlined)
  {
    inlined := InnermostInlined(FramesOf(anc)[n + 1..]);
    InnermostIs(anc, n);
  }

  lemma CallIs(e: Entry, files: seq<string>, cs: CallSite)
    ensures IsCallOf(e, files, cs) <==> IsSiteOf(VisitOf(e), files, cs)
  {
    hide NearestSubprogram, InnermostInlined, IsCallPlace, SiteLocation, IsNearest, IsCalledFrom, FramesOf, IsCallTo,
         IsSiteOf, VisitOf, FramedCall, IsParent;
    var n := Nearest(e.ancestors);
    var inlined := Innermost(e.ancestors, n);
    SiteParts(e, files, n, inlined, cs);
    PlaceIs(e.die, files, cs.at);
    CalledFromIs(e.ancestors, n, inlined, cs);
  }

  lemma VariableIs(e: Entry, files: seq<string>, name: string)
    ensures IsVariableOf(e, files, name) <==> IsVariable(VisitOf(e), files, name)
    ensures IsTyped(e, name) <==> TypesVariable(VisitOf(e), name)
  {
    assert IsFile(e.die.declFile, files, FileFromIdx(files, e.die.declFile.GetOr(-1)));
  }

  lemma FieldsAre(members: seq<Die>)
    ensures Fields(members) == FieldsIn(members) && Constants(members) == ConstantsIn(members)
  {
    FieldsFromTheFront([], members);
    ConstantsFromTheFront([], members);
    assert [] + members == members;
  }

  lemma {:induction false} FieldsFromTheFront(a: seq<Die>, b: seq<Die>)
    ensures Fields(a + b) == Fields(a) + FieldsIn(b)
    decreases |b|
  {
    if b == [] {
      assert a + b == a;
    } else {
      var m, rest := b[0], b[1..];
      var one := if m.tag.Member? then [(m.name, m.typ, m.value)] else [];
      assert (a + [m])[..|a|] == a;
      assert Fields(a + [m]) == Fields(a) + one && FieldsIn(b) == one + FieldsIn(rest);
      FieldsFromTheFront(a + [m], rest);
      hide Fields, FieldsIn;
      assert a + [m] + rest == a + b;
    }
  }

  lemma {:induction false} ConstantsFromTheFront(a: seq<Die>, b: seq<Die>)
    ensures Constants(a + b) == Constants(a) + ConstantsIn(b)
    decreases |b|
  {
    if b == [] {
      assert a + b == a;
    } else {
      var m, rest := b[0], b[1..];
      var one := if m.tag.Enumerator? && m.name != "" then [(m.name, m.value)] else [];
      assert (a + [m])[..|a|] == a;
      assert Constants(a + [m]) == Constants(a) + one && ConstantsIn(b) == one + ConstantsIn(rest);
      ConstantsFromTheFront(a + [m], rest);
      hide Constants, ConstantsIn;
      assert a + [m] + rest == a + b;
    }
  }

  /** What one entry adds to the lists. */
  lemma OneEntry(info: Info, e: Entry)
    ensures var next := Record(info, VisitOf(e));
            && next.structs == info.structs + StructsIn([e]) && next.enums == info.enums + EnumsIn([e])
            && next.subprograms == info.subprograms + SubprogramsIn([e])
            && next.typedefs == info.typedefs + TypedefsIn([e])
  {
    FieldsAre(e.members);
    OneIn(e);
    hide InlineInstanceOf, CallSiteOf, Fields, Constants, FieldsIn, ConstantsIn, StructsIn, EnumsIn, SubprogramsIn,
         TypedefsIn, FileFromIdx;
  }

  lemma OneIn(e: Entry)
    ensures StructsIn([e]) == if e.die.tag.StructType? then [StructInfo("struct", e.die.name, FieldsIn(e.members))]
                              else if e.die.tag.UnionType? then [StructInfo("union", e.die.name, FieldsIn(e.members))]
                              else []
    ensures EnumsIn([e])
         == if e.die.tag.EnumerationType? then [EnumInfo(e.die.name, ConstantsIn(e.members))] else []
    ensures SubprogramsIn([e]) == if e.die.tag.Subprogram? then [e.die.name] else []
    ensures TypedefsIn([e]) == if e.die.tag.Typedef? && e.die.name != "" then [e.die.name] else []
  {
    assert [e][1..] == [];
    hide FieldsIn, ConstantsIn;
  }

  /** Structs, unions, enums, subprograms and typedefs are recorded in document order. */
  lemma {:induction false} ListsAreExact(info: Info, es: seq<Entry>)
    ensures var all := RecordAll(info, VisitsOf(es));
            && all.structs == info.structs + StructsIn(es) && all.enums == info.enums + EnumsIn(es)
            && all.subprograms == info.subprograms + SubprogramsIn(es) && all.typedefs == info.typedefs + TypedefsIn(es)
    decreases |es|
  {
    if es != [] {
      var rest, next := es[1..], Record(info, VisitOf(es[0]));
      assert VisitsOf(es)[0] == VisitOf(es[0]) && VisitsOf(es)[1..] == VisitsOf(rest);
      OneEntry(info, es[0]);
      ListsAreExact(next, rest);
      hide Record, FieldsIn, ConstantsIn, VisitOf;
      ListsPeel(es);
      hide StructsIn, EnumsIn, SubprogramsIn, TypedefsIn;
      Regrouped(info.structs, StructsIn([es[0]]), StructsIn(rest));
      Regrouped(info.enums, EnumsIn([es[0]]), EnumsIn(rest));
      Regrouped(info.subprograms, SubprogramsIn([es[0]]), SubprogramsIn(rest));
      Regrouped(info.typedefs, TypedefsIn([es[0]]), TypedefsIn(rest));
    }
  }

  lemma ListsPeel(es: seq<Entry>)
    requires es != []
    ensures StructsIn(es) == StructsIn([es[0]]) + StructsIn(es[1..])
    ensures EnumsIn(es) == EnumsIn([es[0]]) + EnumsIn(es[1..])
    ensures SubprogramsIn(es) == SubprogramsIn([es[0]]) + SubprogramsIn(es[1..])
    ensures TypedefsIn(es) == TypedefsIn([es[0]]) + TypedefsIn(es[1..])
  {
    OneIn(es[0]);
    hide FieldsIn, ConstantsIn;
  }

  // ----- the facts of an object file -----

  /** A variable has the type of the last typed entry of its name, and none if there is no such entry. */
  ghost predicate HasTypeOfLast(es: seq<Entry>, types: map<string, Offset>, name: string) {
    && (name in types <==> exists j :: 0 <= j < |es| && IsTyped(es[j], name))
    && (name in types ==> exists j :: && 0 <= j < |es| && IsTyped(es[j], name) && es[j].die.typ == Some(types[name])
                                      && forall l :: j < l < |es| ==> !IsTyped(es[l], name))
  }

  /** The recorded instances, call sites and variables are exactly those of some entry. */
  ghost predicate IsAttributed(es: seq<Entry>, info: Info) {
    && (forall ii :: ii in info.inlines <==> exists j :: 0 <= j < |es| && Inlines(es, j, ii))
    && (forall cs :: cs in info.sites <==> exists j :: 0 <= j < |es| && Calls(es, j, cs))
    && (forall name :: name in info.variables <==> exists j :: 0 <= j < |es| && Declares(es, j, name))
    && (forall name :: HasTypeOfLast(es, info.varTypes, name))
  }

  ghost predicate IsListed(es: seq<Entry>, info: Info) {
    && info.structs == StructsIn(es) && info.enums == EnumsIn(es)
    && info.subprograms == SubprogramsIn(es) && info.typedefs == TypedefsIn(es)
  }

  lemma InlinesYielded(es: seq<Entry>, j: nat, ii: InlineInstance)
    requires j < |es|
    ensures Inlines(es, j, ii) <==> YieldsInline(VisitsOf(es), j, ii)
  {
    var files := FilesAt(VisitsOf(es), j);
    FilesAreInForceAt(es, j);
    forall other | InForce(es, j, other) ensures other == files {
      InForceIsUnique(es, j, other, files);
    }
    InlineIs(es[j], files, ii);
    assert VisitsOf(es)[j] == VisitOf(es[j]);
    hide InForce, IsInlineOf, InlineInstanceOf, FilesAt, VisitsOf;
  }

  lemma CallsYielded(es: seq<Entry>, j: nat, cs: CallSite)
    requires j < |es|
    ensures Calls(es, j, cs) <==> YieldsSite(VisitsOf(es), j, cs)
  {
    var files := FilesAt(VisitsOf(es), j);
    FilesAreInForceAt(es, j);
    forall other | InForce(es, j, other) ensures other == files {
      InForceIsUnique(es, j, other, files);
    }
    CallIs(es[j], files, cs);
    assert VisitsOf(es)[j] == VisitOf(es[j]);
    hide InForce, IsCallOf, IsSiteOf, FilesAt, VisitsOf;
  }

  lemma VariablesYielded(es: seq<Entry>, j: nat, name: string)
    requires j < |es|
    ensures Declares(es, j, name) <==> YieldsVariable(VisitsOf(es), j, name)
    ensures IsTyped(es[j], name) <==> TypesVariable(VisitsOf(es)[j], name)
  {
    var files := FilesAt(VisitsOf(es), j);
    FilesAreInForceAt(es, j);
    forall other | InForce(es, j, other) ensures other == files {
      InForceIsUnique(es, j, other, files);
    }
    VariableIs(es[j], files, name);
    assert VisitsOf(es)[j] == VisitOf(es[j]);
    hide InForce, IsVariableOf, IsVariable, FilesAt, VisitsOf, IsTyped, TypesVariable;
  }

  lemma RecordedIsAttributed(es: seq<Entry>, info: Info)
    requires info == RecordAll(NOTHING, VisitsOf(es))
    ensures IsAttributed(es, info)
  {
    var vs := VisitsOf(es);
    hide Inlines, Calls, Declares, YieldsInline, YieldsSite, YieldsVariable, RecordAll, VisitsOf, HasTypeOfLast;
    assert vs[..|vs|] == vs;
    forall ii ensures ii in info.inlines <==> exists j :: 0 <= j < |es| && Inlines(es, j, ii) {
      InlinesAreExact(vs, |vs|, ii);
      forall j | 0 <= j < |es| ensures Inlines(es, j, ii) <==> YieldsInline(vs, j, ii) {
        InlinesYielded(es, j, ii);
      }
    }
    forall cs ensures cs in info.sites <==> exists j :: 0 <= j < |es| && Calls(es, j, cs) {
      SitesAreExact(vs, |vs|, cs);
      forall j | 0 <= j < |es| ensures Calls(es, j, cs) <==> YieldsSite(vs, j, cs) {
        CallsYielded(es, j, cs);
      }
    }
    forall name
      ensures name in info.variables <==> exists j :: 0 <= j < |es| && Declares(es, j, name)
      ensures HasTypeOfLast(es, info.varTypes, name)
    {
      VariablesAreExact(vs, |vs|, name);
      LastTypeWins(vs, |vs|, name);
      TypesOfLast(es, info.varTypes, name);
      forall j | 0 <= j < |es| ensures Declares(es, j, name) <==> YieldsVariable(vs, j, name) {
        VariablesYielded(es, j, name);
      }
    }
  }

  lemma TypesOfLast(es: seq<Entry>, types: map<string, Offset>, name: string)
    requires HasLastType(VisitsOf(es), types, name)
    ensures HasTypeOfLast(es, types, name)
  {
    var vs := VisitsOf(es);
    forall j | 0 <= j < |es| ensures (IsTyped(es[j], name) <==> TypesVariable(vs[j], name)) && vs[j].die == es[j].die {
      VariablesYielded(es, j, name);
    }
    assert forall j :: 0 <= j < |es| && TypesVariable(vs[j], name) ==> vs[j].die.typ.Some?;
    hide IsTyped, TypesVariable, VisitsOf;
    if name in types {
      var j :| && 0 <= j < |vs| && TypesVariable(vs[j], name) && types[name] == vs[j].die.typ.value
               && forall l :: j < l < |vs| ==> !TypesVariable(vs[l], name);
      assert IsTyped(es[j], name) && es[j].die.typ == Some(types[name]);
    }
  }

  /** Reading a serialised object file: its inline instances, call sites and variables are exactly those its
      entries yield from their own attributes and their ancestors', the types of the variables those of the last
      entries, and its structs, unions, enums, subprograms and typedefs those of the forest. */
  method ReadObject(us: seq<Unit>) returns (info: Info)
    requires forall u :: u in us ==> WellFormed(u.tree)
    ensures IsAttributed(EntriesOf(us), info) && IsListed(EntriesOf(us), info)
  {
    info := Read(SerialiseUnits(us));
    WholeFile(us);
    UnitVisitsAreEntries(us);
    hide IsAttributed, RecordAll, VisitsOf, Visits;
    RecordedIsAttributed(EntriesOf(us), info);
    ListsAreExact(NOTHING, EntriesOf(us));
  }
}
