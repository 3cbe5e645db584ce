/** The DWARF walker: a cursor over a flat stream of entries with an explicit stack of frames, set against
    the forest the stream serialises. */
module DieWalk {
  import opened Wrappers

  type Offset = nat

  datatype Tag =
    | CompileUnit | Subprogram | InlinedSubroutine | CallSiteTag | StructType | UnionType | EnumerationType
    | Typedef | Variable | Member | Enumerator | OtherTag

  datatype Location = Location(file: string, line: int, column: int)

  /** An entry's attributes as far as the walk uses them. origin and callOrigin are the names lookupName finds
      at DW_AT_abstract_origin and DW_AT_call_origin; lineOf is the line table's answer for the return
      address, files the file table of a compile unit. */
  datatype Die = Die(
    tag: Tag,
    children: bool,
    offset: Offset,
    name: string,
    origin: Option<string>,
    callOrigin: Option<string>,
    callFile: Option<int>,
    callLine: Option<int>,
    callColumn: Option<int>,
    lineOf: Option<Location>,
    files: Option<seq<string>>,
    declFile: Option<int>,
    typ: Option<Offset>,
    value: int)

  /** What the reader yields: an entry, or the null that ends a chain of siblings. */
  datatype Item = Null | Item(die: Die)

  datatype Frame = Frame(tag: Tag, subprogramName: string, inlinedFromName: string, offset: Offset)

  function NewFrame(e: Die): Frame {
    Frame(e.tag,
          if e.tag.Subprogram? then if e.name != "" then e.name else e.origin.GetOr("") else "",
          if e.tag.InlinedSubroutine? then e.origin.GetOr("") else "",
          e.offset)
  }

  // ----- the forest and its serialisation, section 2.3 of DWARF v5 -----

  datatype Tree = Node(die: Die, kids: seq<Tree>)

  /** Only an entry with the children flag has any; it may still have none. */
  predicate WellFormed(t: Tree) {
    (!t.die.children ==> t.kids == []) && forall k :: k in t.kids ==> WellFormed(k)
  }

  predicate AllWellFormed(ts: seq<Tree>) {
    forall t :: t in ts ==> WellFormed(t)
  }

  function SerialiseTree(t: Tree): seq<Item>
    decreases t, 1
  {
    [Item(t.die)] + if t.die.children then Serialise(t.kids) + [Null] else []
  }

  function Serialise(ts: seq<Tree>): seq<Item>
    decreases ts, 0
  {
    if ts == [] then [] else SerialiseTree(ts[0]) + Serialise(ts[1..])
  }

  // ----- the walk over a stream -----

  /** An entry the loop looks at, the stack at that moment, and for a struct, union or enum the direct
      children its parser reads. */
  datatype Visit = Visit(die: Die, stack: seq<Frame>, members: seq<Die>)

  predicate IsConsumed(tag: Tag) {
    tag.StructType? || tag.UnionType? || tag.EnumerationType?
  }

  /** SkipChildren: the stream after the null that closes the chain. */
  function Skip(items: seq<Item>): (rest: seq<Item>)
    ensures |rest| <= |items|
    decreases |items|
  {
    if items == [] then []
    else if items[0].Null? then items[1..]
    else if items[0].die.children then Skip(Skip(items[1..]))
    else Skip(items[1..])
  }

  /** The direct children on a chain, and the stream after its null. */
  function Members(items: seq<Item>): (r: (seq<Die>, seq<Item>))
    ensures |r.1| <= |items|
    decreases |items|
  {
    if items == [] then ([], [])
    else if items[0].Null? then ([], items[1..])
    else
      var r := Members(if items[0].die.children then Skip(items[1..]) else items[1..]);
      ([items[0].die] + r.0, r.1)
  }

  function Pop(stack: seq<Frame>): seq<Frame> {
    if |stack| > 0 then stack[..|stack| - 1] else stack
  }

  /** Everything the loop looks at, in order. */
  function Visits(items: seq<Item>, stack: seq<Frame>): seq<Visit>
    decreases |items|
  {
    if items == [] then []
    else if items[0].Null? then Visits(items[1..], Pop(stack))
    else
      var e := items[0].die;
      if IsConsumed(e.tag) then
        var r := if e.children then Members(items[1..]) else ([], items[1..]);
        [Visit(e, stack, r.0)] + Visits(r.1, stack)
      else
        [Visit(e, stack, [])] + Visits(items[1..], if e.children then stack + [NewFrame(e)] else stack)
  }

  // ----- the walk over the forest -----

  function RootDies(ts: seq<Tree>): seq<Die> {
    if ts == [] then [] else [ts[0].die] + RootDies(ts[1..])
  }

  /** Every entry outside the subtrees of structs, unions and enums, in document order, each with the frames
      of its ancestors, outermost first. */
  function TreeVisits(t: Tree, ancestors: seq<Frame>): seq<Visit>
    decreases t, 1
  {
    if IsConsumed(t.die.tag) then [Visit(t.die, ancestors, RootDies(t.kids))]
    else [Visit(t.die, ancestors, [])] + ForestVisits(t.kids, ancestors + [NewFrame(t.die)])
  }

  function ForestVisits(ts: seq<Tree>, ancestors: seq<Frame>): seq<Visit>
    decreases ts, 0
  {
    if ts == [] then [] else TreeVisits(ts[0], ancestors) + ForestVisits(ts[1..], ancestors)
  }

  lemma FirstTree(ts: seq<Tree>, tail: seq<Item>)
    requires ts != [] && AllWellFormed(ts)
    ensures AllWellFormed(ts[1..]) && AllWellFormed(ts[0].kids)
    ensures var items, t, more := Serialise(ts) + tail, ts[0], Serialise(ts[1..]) + tail;
            && items != [] && items[0] == Item(t.die)
            && items[1..] == if t.die.children then Serialise(t.kids) + ([Null] + more) else more
  {
    assert ts[0] in ts;
    assert Serialise(ts) == SerialiseTree(ts[0]) + Serialise(ts[1..]);
    hide Serialise, AllWellFormed;
    Regroup(ts[0].die, Serialise(ts[0].kids), Serialise(ts[1..]), tail);
  }

  lemma Regroup(e: Die, below: seq<Item>, after: seq<Item>, tail: seq<Item>)
    ensures var items := [Item(e)] + (below + [Null]) + after + tail;
            items[0] == Item(e) && items[1..] == below + ([Null] + (after + tail))
    ensures var items := [Item(e)] + [] + after + tail;
            items[0] == Item(e) && items[1..] == after + tail
  {
  }

  lemma {:induction false} SkipPassesForest(ts: seq<Tree>, rest: seq<Item>)
    requires AllWellFormed(ts)
    ensures Skip(Serialise(ts) + ([Null] + rest)) == rest
    decreases ts
  {
    var tail := [Null] + rest;
    assert tail[1..] == rest;
    if ts == [] {
      assert [] + tail == tail;
    } else {
      FirstTree(ts, tail);
      hide Serialise, AllWellFormed;
      SkipPassesForest(ts[1..], rest);
      if ts[0].die.children {
        SkipPassesForest(ts[0].kids, Serialise(ts[1..]) + tail);
      }
    }
  }

  lemma {:induction false} MembersOfForest(ts: seq<Tree>, rest: seq<Item>)
    requires AllWellFormed(ts)
    ensures Members(Serialise(ts) + ([Null] + rest)) == (RootDies(ts), rest)
    decreases ts
  {
    var tail := [Null] + rest;
    assert tail[1..] == rest;
    if ts == [] {
      assert [] + tail == tail;
    } else {
      FirstTree(ts, tail);
      hide Serialise, AllWellFormed;
      MembersOfForest(ts[1..], rest);
      if ts[0].die.children {
        SkipPassesForest(ts[0].kids, Serialise(ts[1..]) + tail);
      }
    }
  }

  /** On a serialised forest the stack at every entry is its ancestor chain, the subtrees of structs, unions
      and enums are consumed whole, and the stack is back where it was at the end. */
  lemma {:induction false} StackIsAncestorChain(ts: seq<Tree>, stack: seq<Frame>, rest: seq<Item>)
    requires AllWellFormed(ts)
    ensures Visits(Serialise(ts) + rest, stack) == ForestVisits(ts, stack) + Visits(rest, stack)
    decreases ts
  {
    if ts == [] {
      assert Serialise(ts) + rest == rest;
    } else {
      var t, more := ts[0], Serialise(ts[1..]) + rest;
      assert Serialise(ts) + rest == SerialiseTree(t) + more;
      StackIsAncestorChain(ts[1..], stack, rest);
      TreeStep(t, stack, more);
    }
  }

  lemma {:induction false} TreeStep(t: Tree, stack: seq<Frame>, more: seq<Item>)
    requires WellFormed(t)
    ensures Visits(SerialiseTree(t) + more, stack) == TreeVisits(t, stack) + Visits(more, stack)
    decreases t, 1
  {
    var items, e := SerialiseTree(t) + more, t.die;
    assert items[0] == Item(e);
    if !e.children {
      assert items[1..] == more;
    } else {
      assert items[1..] == Serialise(t.kids) + ([Null] + more);
      if IsConsumed(e.tag) {
        MembersOfForest(t.kids, more);
      } else {
        var inner := stack + [NewFrame(e)];
        StackIsAncestorChain(t.kids, inner, [Null] + more);
        assert Pop(inner) == stack;
        assert ([Null] + more)[1..] == more;
      }
    }
  }

  /** Compile units one after another, each possibly followed by padding nulls. */
  datatype Unit = Unit(tree: Tree, padding: nat)

  function SerialiseUnits(us: seq<Unit>): seq<Item> {
    if us == [] then []
    else SerialiseTree(us[0].tree) + seq(us[0].padding, _ => Null) + SerialiseUnits(us[1..])
  }

  function UnitVisits(us: seq<Unit>): seq<Visit> {
    if us == [] then [] else TreeVisits(us[0].tree, []) + UnitVisits(us[1..])
  }

  lemma {:induction false} PaddingIsIgnored(n: nat, rest: seq<Item>)
    ensures Visits(seq(n, _ => Null) + rest, []) == Visits(rest, [])
  {
    var items := seq(n, _ => Null) + rest;
    if n == 0 {
      assert items == rest;
    } else {
      PaddingIsIgnored(n - 1, rest);
      assert items[1..] == seq(n - 1, _ => Null) + rest;
    }
  }

  /** The walk of a whole object file visits its units' entries, each with its ancestor chain. */
  lemma {:induction false} WholeFile(us: seq<Unit>)
    requires forall u :: u in us ==> WellFormed(u.tree)
    ensures Visits(SerialiseUnits(us), []) == UnitVisits(us)
  {
    if us != [] {
      hide Visits, SerialiseTree, TreeVisits, WellFormed;
      var t, pad, more := us[0].tree, seq(us[0].padding, _ => Null), SerialiseUnits(us[1..]);
      assert us[0] in us;
      assert SerialiseTree(t) + pad + more == SerialiseTree(t) + (pad + more);
      TreeStep(t, [], pad + more);
      PaddingIsIgnored(us[0].padding, more);
      WholeFile(us[1..]);
    }
  }

  // ----- attribution along the ancestor chain -----

  /** The innermost subprogram on a stack, or -1. */
  function NearestSubprogram(stack: seq<Frame>): (n: int)
    ensures -1 <= n < |stack|
    ensures n >= 0 ==> stack[n].tag.Subprogram?
    ensures forall i :: n < i < |stack| ==> !stack[i].tag.Subprogram?
  {
    if stack == [] then -1
    else if stack[|stack| - 1].tag.Subprogram? then |stack| - 1
    else NearestSubprogram(stack[..|stack| - 1])
  }

  /** How many inlined bodies enclose, counting from the outermost of the given frames. */
  function InlinedCount(frames: seq<Frame>): nat {
    if frames == [] then 0
    else (if frames[0].tag.InlinedSubroutine? then 1 else 0) + InlinedCount(frames[1..])
  }

  /** The name of the innermost inlined body that has one. */
  function InnermostInlined(frames: seq<Frame>): string {
    if frames == [] then ""
    else
      var inner := InnermostInlined(frames[1..]);
      if inner != "" then inner
      else if frames[0].tag.InlinedSubroutine? then frames[0].inlinedFromName else ""
  }

  datatype InlineInstance = InlineInstance(
    callee: string, caller: string, parent: string, depth: nat, at: Location)

  datatype CallSite = CallSite(
    at: Location, enclosing: string, enclosingOff: Offset, sourceCaller: string, callee: string, indirect: bool)

  function FileFromIdx(files: seq<string>, idx: int): string {
    if idx < 0 || idx >= |files| then "" else files[idx]
  }

  function CallLocation(e: Die, files: seq<string>): Location {
    Location(if e.callFile.Some? then FileFromIdx(files, e.callFile.value) else "",
             e.callLine.GetOr(0), e.callColumn.GetOr(0))
  }

  /** Nesting depth is one more than the inlined bodies below the nearest subprogram, which is the caller;
      an instance without a callee name or a caller name is not recorded. */
  function InlineInstanceOf(e: Die, files: seq<string>, stack: seq<Frame>): Option<InlineInstance> {
    var n := NearestSubprogram(stack);
    if e.origin.GetOr("") == "" || n < 0 || stack[n].subprogramName == "" then None
    else Some(InlineInstance(e.origin.value, stack[n].subprogramName, InnermostInlined(stack[n + 1..]),
                             1 + InlinedCount(stack[n + 1..]), CallLocation(e, files)))
  }

  /** The line table is asked only when the entry does not say where the call was written. */
  function SiteLocation(e: Die, files: seq<string>): Location {
    var l := CallLocation(e, files);
    if (l.file == "" || l.line == 0) && e.lineOf.Some? then
      Location(if e.lineOf.value.file != "" then e.lineOf.value.file else l.file,
               e.lineOf.value.line, e.lineOf.value.column)
    else l
  }

  function CallSiteOf(e: Die, files: seq<string>, stack: seq<Frame>): CallSite {
    var n := NearestSubprogram(stack);
    var enclosing := if n >= 0 then stack[n].subprogramName else "";
    var inlined := InnermostInlined(stack[n + 1..]);
    CallSite(SiteLocation(e, files), enclosing, if n >= 0 then stack[n].offset else 0,
             if inlined != "" then inlined else enclosing,
             e.callOrigin.GetOr(""), e.callOrigin.None?)
  }

  /** The outward walk of parseInlineInstance. */
  method ParseInlineInstance(e: Die, files: seq<string>, stack: seq<Frame>) returns (ii: Option<InlineInstance>)
    ensures ii == InlineInstanceOf(e, files, stack)
  {
    if e.origin.GetOr("") == "" {
      return None;
    }
    var caller, parent, depth := "", "", 1;
    var i := |stack|;
    ghost var n := NearestSubprogram(stack);
    while i > 0
      invariant n < i <= |stack| && caller == ""
      invariant depth == 1 + InlinedCount(stack[i..]) && parent == InnermostInlined(stack[i..])
    {
      i := i - 1;
      var f := stack[i];
      assert stack[i..][0] == f && stack[i..][1..] == stack[i + 1..];
      if f.tag.InlinedSubroutine? {
        if parent == "" {
          parent := f.inlinedFromName;
        }
        depth := depth + 1;
      } else if f.tag.Subprogram? {
        caller := f.subprogramName;
        break;
      }
    }
    if caller == "" {
      return None;
    }
    return Some(InlineInstance(e.origin.value, caller, parent, depth, CallLocation(e, files)));
  }

  /** The outward walk of parseCallSite. */
  method ParseCallSite(e: Die, files: seq<string>, stack: seq<Frame>) returns (cs: CallSite)
    ensures cs == CallSiteOf(e, files, stack)
  {
    var enclosing, enclosingOff, sourceCaller := "", 0, "";
    var i := |stack|;
    ghost var n := NearestSubprogram(stack);
    while i > 0
      invariant n < i <= |stack|
      invariant enclosing == "" && enclosingOff == 0
      invariant sourceCaller == InnermostInlined(stack[i..])
    {
      i := i - 1;
      var f := stack[i];
      assert stack[i..][0] == f && stack[i..][1..] == stack[i + 1..];
      if f.tag.InlinedSubroutine? && sourceCaller == "" {
        sourceCaller := f.inlinedFromName;
      }
      if f.tag.Subprogram? {
        if enclosing == "" {
          enclosing, enclosingOff := f.subprogramName, f.offset;
        }
        if sourceCaller == "" {
          sourceCaller := f.subprogramName;
        }
        break;
      }
    }
    cs := CallSite(SiteLocation(e, files), enclosing, enclosingOff, sourceCaller,
                   e.callOrigin.GetOr(""), e.callOrigin.None?);
  }

  // ----- what the walk records -----

  datatype StructInfo = StructInfo(kind: string, name: string, fields: seq<(string, Option<Offset>, int)>)

  datatype EnumInfo = EnumInfo(name: string, constants: seq<(string, int)>)

  datatype Info = Info(
    files: seq<string>,
    subprograms: seq<string>,
    inlines: seq<InlineInstance>,
    sites: seq<CallSite>,
    structs: seq<StructInfo>,
    enums: seq<EnumInfo>,
    typedefs: seq<string>,
    variables: seq<string>,
    varTypes: map<string, Offset>)

  const NOTHING := Info([], [], [], [], [], [], [], [], map[])

  function Fields(members: seq<Die>): seq<(string, Option<Offset>, int)> {
    if members == [] then []
    else
      var m := members[|members| - 1];
      Fields(members[..|members| - 1]) + if m.tag.Member? then [(m.name, m.typ, m.value)] else []
  }

  function Constants(members: seq<Die>): seq<(string, int)> {
    if members == [] then []
    else
      var m := members[|members| - 1];
      Constants(members[..|members| - 1]) + if m.tag.Enumerator? && m.name != "" then [(m.name, m.value)] else []
  }

  function StructOf(e: Die, members: seq<Die>): StructInfo {
    StructInfo(if e.tag.UnionType? then "union" else "struct", e.name, Fields(members))
  }

  function Record(info: Info, v: Visit): Info {
    var e := v.die;
    match e.tag
    case CompileUnit => info.(files := e.files.GetOr(info.files))
    case Subprogram => info.(subprograms := info.subprograms + [e.name])
    case InlinedSubroutine =>
      var ii := InlineInstanceOf(e, info.files, v.stack);
      if ii.Some? then info.(inlines := info.inlines + [ii.value]) else info
    case CallSiteTag =>
      var cs := CallSiteOf(e, info.files, v.stack);
      if cs.at.file != "" || cs.at.line != 0 then info.(sites := info.sites + [cs]) else info
    case StructType => info.(structs := info.structs + [StructOf(e, v.members)])
    case UnionType => info.(structs := info.structs + [StructOf(e, v.members)])
    case EnumerationType => info.(enums := info.enums + [EnumInfo(e.name, Constants(v.members))])
    case Typedef => if e.name != "" then info.(typedefs := info.typedefs + [e.name]) else info
    case Variable =>
      var typed := if |v.stack| <= 1 && e.name != "" && e.typ.Some?
                   then info.(varTypes := info.varTypes[e.name := e.typ.value]) else info;
      if e.name != "" && FileFromIdx(info.files, e.declFile.GetOr(-1)) != "" && |v.stack| <= 1
      then typed.(variables := typed.variables + [e.name]) else typed
    case _ => info
  }

  function RecordAll(info: Info, vs: seq<Visit>): Info
    decreases |vs|
  {
    if vs == [] then info else RecordAll(Record(info, vs[0]), vs[1..])
  }

  /** One turn of the loop: what is visited next, and where that leaves the stream and the stack. */
  lemma VisitFirst(info: Info, items: seq<Item>, stack: seq<Frame>)
    requires items != []
    ensures items[0].Null? ==> Visits(items, stack) == Visits(items[1..], Pop(stack))
    ensures items[0].Item? ==>
              var e := items[0].die;
              if IsConsumed(e.tag) then
                var r := if e.children then Members(items[1..]) else ([], items[1..]);
                RecordAll(info, Visits(items, stack)) ==
                RecordAll(Record(info, Visit(e, stack, r.0)), Visits(r.1, stack))
              else
                RecordAll(info, Visits(items, stack)) ==
                RecordAll(Record(info, Visit(e, stack, [])),
                          Visits(items[1..], if e.children then stack + [NewFrame(e)] else stack))
  {
    hide Record, Members, NewFrame;
    if items[0].Item? {
      var e := items[0].die;
      if IsConsumed(e.tag) {
        var r := if e.children then Members(items[1..]) else ([], items[1..]);
      }
    }
  }

  // ----- the reading loop -----

  class Reader {
    const items: seq<Item>
    var at: nat

    ghost predicate Valid()
      reads this
    {
      at <= |items|
    }

    constructor (items: seq<Item>)
      ensures Valid() && Rest() == items && this.items == items
    {
      this.items, at := items, 0;
      new;
      assert items[0..] == items;
    }

    /** What is still to be read. */
    ghost function Rest(): seq<Item>
      requires Valid()
      reads this
    {
      items[at..]
    }

    method Next() returns (item: Option<Item>)
      requires Valid()
      modifies this`at
      ensures Valid()
      ensures if old(Rest()) == [] then item == None && Rest() == []
              else item == Some(old(Rest())[0]) && Rest() == old(Rest())[1..]
    {
      if at == |items| {
        return None;
      }
      item := Some(items[at]);
      at := at + 1;
    }

    method SkipChildren()
      requires Valid()
      modifies this`at
      ensures Valid() && Rest() == Skip(old(Rest()))
      decreases |Rest()|
    {
      ghost var whole := Rest();
      while true
        invariant Valid() && |Rest()| <= |whole| && Skip(Rest()) == Skip(whole)
        decreases |Rest()|
      {
        ghost var before := Rest();
        var item := Next();
        if item.None? || item.value.Null? {
          break;
        }
        if item.value.die.children {
          SkipChildren();
        }
      }
    }

    /** The child loop parseStruct and parseEnum share: the direct children up to the closing null, skipping
        whatever lies below them. */
    method ReadMembers() returns (members: seq<Die>)
      requires Valid()
      modifies this`at
      ensures Valid() && Members(old(Rest())) == (members, Rest())
    {
      ghost var whole := Rest();
      members := [];
      assert members + Members(whole).0 == Members(whole).0;
      while true
        invariant Valid() && |Rest()| <= |whole|
        invariant Members(whole) == (members + Members(Rest()).0, Members(Rest()).1)
        decreases |Rest()|
      {
        ghost var before := Rest();
        var item := Next();
        if item.None? || item.value.Null? {
          assert members + [] == members;
          break;
        }
        if item.value.die.children {
          SkipChildren();
        }
        assert members + ([item.value.die] + Members(Rest()).0) == members + [item.value.die] + Members(Rest()).0;
        members := members + [item.value.die];
      }
    }
  }

  lemma NothingVisited(info: Info, stack: seq<Frame>)
    ensures RecordAll(info, Visits([], stack)) == info
  {
  }

  /** The main loop: pop on a null, record the entry, let the struct and enum parsers consume their children,
      push a frame for any other entry that has some. */
  method Read(items: seq<Item>) returns (info: Info)
    ensures info == RecordAll(NOTHING, Visits(items, []))
  {
    var r := new Reader(items);
    var stack: seq<Frame> := [];
    info := NOTHING;
    hide Record, RecordAll, Visits, Members, NewFrame;
    while true
      invariant r.Valid() && fresh(r)
      invariant RecordAll(info, Visits(r.Rest(), stack)) == RecordAll(NOTHING, Visits(items, []))
      decreases |r.Rest()|
    {
      if r.Rest() != [] {
        VisitFirst(info, r.Rest(), stack);
      }
      var item := r.Next();
      if item.None? {
        NothingVisited(info, stack);
        break;
      }
      if item.value.Null? {
        if |stack| > 0 {
          stack := stack[..|stack| - 1];
        }
        continue;
      }
      var e := item.value.die;
      if IsConsumed(e.tag) {
        var members: seq<Die> := [];
        if e.children {
          members := r.ReadMembers();
        }
        info := RecordEntry(info, e, stack, members);
        continue;
      }
      info := RecordEntry(info, e, stack, []);
      if e.children {
        stack := stack + [NewFrame(e)];
      }
    }
  }

  /** The switch over the tag, with the attribution loops of inline instances and call sites. */
  method RecordEntry(info: Info, e: Die, stack: seq<Frame>, members: seq<Die>) returns (next: Info)
    ensures next == Record(info, Visit(e, stack, members))
  {
    next := info;
    match e.tag {
      case InlinedSubroutine =>
        var ii := ParseInlineInstance(e, info.files, stack);
        if ii.Some? {
          next := info.(inlines := info.inlines + [ii.value]);
        }
      case CallSiteTag =>
        var cs := ParseCallSite(e, info.files, stack);
        if cs.at.file != "" || cs.at.line != 0 {
          next := info.(sites := info.sites + [cs]);
        }
      case StructType =>
        var fields := ParseFields(members);
        next := info.(structs := info.structs + [StructInfo("struct", e.name, fields)]);
      case UnionType =>
        var fields := ParseFields(members);
        next := info.(structs := info.structs + [StructInfo("union", e.name, fields)]);
      case EnumerationType =>
        var constants := ParseConstants(members);
        next := info.(enums := info.enums + [EnumInfo(e.name, constants)]);
      case CompileUnit =>
        if e.files.Some? {
          next := info.(files := e.files.value);
        }
      case Subprogram =>
        next := info.(subprograms := info.subprograms + [e.name]);
      case Typedef =>
        if e.name != "" {
          next := info.(typedefs := info.typedefs + [e.name]);
        }
      case Variable =>
        if |stack| <= 1 && e.name != "" && e.typ.Some? {
          next := info.(varTypes := info.varTypes[e.name := e.typ.value]);
        }
        var declFile := "";
        if e.declFile.Some? {
          declFile := FileFromIdx(info.files, e.declFile.value);
        }
        if e.name != "" && declFile != "" && |stack| <= 1 {
          next := next.(variables := next.variables + [e.name]);
        }
      case _ =>
    }
  }

  method ParseFields(members: seq<Die>) returns (fields: seq<(string, Option<Offset>, int)>)
    ensures fields == Fields(members)
  {
    fields := [];
    for i := 0 to |members|
      invariant fields == Fields(members[..i])
    {
      assert members[..i + 1][..i] == members[..i];
      if members[i].tag.Member? {
        fields := fields + [(members[i].name, members[i].typ, members[i].value)];
      }
    }
    assert members[..|members|] == members;
  }

  method ParseConstants(members: seq<Die>) returns (constants: seq<(string, int)>)
    ensures constants == Constants(members)
  {
    constants := [];
    for i := 0 to |members|
      invariant constants == Constants(members[..i])
    {
      assert members[..i + 1][..i] == members[..i];
      if members[i].tag.Enumerator? && members[i].name != "" {
        constants := constants + [(members[i].name, members[i].value)];
      }
    }
    assert members[..|members|] == members;
  }

  // ----- the facts of an object file -----

  /** The file table in force at a visit. */
  function FilesAt(vs: seq<Visit>, k: nat): seq<string>
    requires k <= |vs|
  {
    if k == 0 then []
    else if vs[k - 1].die.tag.CompileUnit? then vs[k - 1].die.files.GetOr(FilesAt(vs, k - 1))
    else FilesAt(vs, k - 1)
  }

  lemma {:induction false} RecordSplits(info: Info, a: seq<Visit>, b: seq<Visit>)
    ensures RecordAll(info, a + b) == RecordAll(RecordAll(info, a), b)
    decreases |a|
  {
    hide Record;
    if a == [] {
      assert a + b == b;
    } else {
      assert (a + b)[1..] == a[1..] + b;
      RecordSplits(Record(info, a[0]), a[1..], b);
    }
  }

  lemma RecordLast(vs: seq<Visit>, k: nat)
    requires k < |vs|
    ensures RecordAll(NOTHING, vs[..k + 1]) == Record(RecordAll(NOTHING, vs[..k]), vs[k])
  {
    hide Record;
    assert vs[..k + 1] == vs[..k] + [vs[k]];
    RecordSplits(NOTHING, vs[..k], [vs[k]]);
    var info := RecordAll(NOTHING, vs[..k]);
    assert RecordAll(Record(info, vs[k]), []) == Record(info, vs[k]);
    assert [vs[k]][1..] == [];
  }

  lemma {:induction false} FilesAreInForce(vs: seq<Visit>, k: nat)
    requires k <= |vs|
    ensures RecordAll(NOTHING, vs[..k]).files == FilesAt(vs, k)
  {
    if k > 0 {
      FilesAreInForce(vs, k - 1);
      RecordLast(vs, k - 1);
      hide RecordAll, InlineInstanceOf, CallSiteOf;
    } else {
      assert vs[..0] == [];
    }
  }

  lemma NothingYet(vs: seq<Visit>)
    ensures RecordAll(NOTHING, vs[..0]) == NOTHING
  {
    assert vs[..0] == [];
  }

  lemma LastInline(info: Info, v: Visit, ii: InlineInstance)
    ensures ii in Record(info, v).inlines <==>
              ii in info.inlines
              || (v.die.tag.InlinedSubroutine? && InlineInstanceOf(v.die, info.files, v.stack) == Some(ii))
  {
    hide InlineInstanceOf, CallSiteOf;
  }

  /** A call site is recorded if its place in the source is known at all. */
  ghost predicate IsSiteOf(v: Visit, files: seq<string>, cs: CallSite) {
    && v.die.tag.CallSiteTag? && (cs.at.file != "" || cs.at.line != 0)
    && CallSiteOf(v.die, files, v.stack) == cs
  }

  lemma LastSite(info: Info, v: Visit, cs: CallSite)
    ensures cs in Record(info, v).sites <==>
              cs in info.sites || IsSiteOf(v, info.files, cs)
  {
    hide InlineInstanceOf, CallSiteOf;
  }

  /** The recorded inline instances are exactly those of the entries visited, each attributed along its own
      ancestor chain under the file table in force. */
  lemma {:induction false} InlinesAreExact(vs: seq<Visit>, k: nat, ii: InlineInstance)
    requires k <= |vs|
    ensures ii in RecordAll(NOTHING, vs[..k]).inlines <==> exists j :: 0 <= j < k && YieldsInline(vs, j, ii)
  {
    hide Record, RecordAll, InlineInstanceOf, FilesAt;
    NothingYet(vs);
    if k > 0 {
      var before, v := RecordAll(NOTHING, vs[..k - 1]), vs[k - 1];
      InlinesAreExact(vs, k - 1, ii);
      RecordLast(vs, k - 1);
      FilesAreInForce(vs, k - 1);
      LastInline(before, v, ii);
      assert ii in RecordAll(NOTHING, vs[..k]).inlines <==> ii in before.inlines || YieldsInline(vs, k - 1, ii);
    }
  }

  /** The recorded call sites likewise. */
  lemma {:induction false} SitesAreExact(vs: seq<Visit>, k: nat, cs: CallSite)
    requires k <= |vs|
    ensures cs in RecordAll(NOTHING, vs[..k]).sites <==> exists j :: 0 <= j < k && YieldsSite(vs, j, cs)
  {
    hide Record, RecordAll, IsSiteOf, FilesAt, CallSiteOf;
    NothingYet(vs);
    if k > 0 {
      var before, v := RecordAll(NOTHING, vs[..k - 1]), vs[k - 1];
      SitesAreExact(vs, k - 1, cs);
      RecordLast(vs, k - 1);
      FilesAreInForce(vs, k - 1);
      LastSite(before, v, cs);
      assert YieldsSite(vs, k - 1, cs) <==> IsSiteOf(v, before.files, cs);
      hide YieldsSite;
      assert cs in RecordAll(NOTHING, vs[..k]).sites <==> cs in before.sites || YieldsSite(vs, k - 1, cs);
    }
  }

  /** A variable declared in a known file, at the level of its unit. */
  ghost predicate YieldsVariable(vs: seq<Visit>, j: nat, name: string)
    requires j < |vs|
  {
    IsVariable(vs[j], FilesAt(vs, j), name)
  }

  ghost predicate IsVariable(v: Visit, files: seq<string>, name: string) {
    && v.die.tag.Variable? && |v.stack| <= 1 && v.die.name == name && name != ""
    && FileFromIdx(files, v.die.declFile.GetOr(-1)) != ""
  }

  /** A typed variable at the level of its unit, wherever it is declared. */
  ghost predicate TypesVariable(v: Visit, name: string) {
    v.die.tag.Variable? && |v.stack| <= 1 && v.die.name == name && name != "" && v.die.typ.Some?
  }

  lemma LastVariable(info: Info, v: Visit, name: string)
    ensures name in Record(info, v).variables <==> name in info.variables || IsVariable(v, info.files, name)
    ensures var types := Record(info, v).varTypes;
            if TypesVariable(v, name) then name in types && types[name] == v.die.typ.value
            else
              && (name in types <==> name in info.varTypes)
              && (name in types ==> types[name] == info.varTypes[name])
  {
    hide InlineInstanceOf, CallSiteOf;
  }

  /** The recorded variables are those declared in a known file at the level of their unit: no local is one. */
  lemma {:induction false} VariablesAreExact(vs: seq<Visit>, k: nat, name: string)
    requires k <= |vs|
    ensures name in RecordAll(NOTHING, vs[..k]).variables <==> exists j :: 0 <= j < k && YieldsVariable(vs, j, name)
  {
    hide Record, RecordAll, IsVariable, FilesAt;
    NothingYet(vs);
    if k > 0 {
      var before, v := RecordAll(NOTHING, vs[..k - 1]), vs[k - 1];
      VariablesAreExact(vs, k - 1, name);
      RecordLast(vs, k - 1);
      FilesAreInForce(vs, k - 1);
      LastVariable(before, v, name);
      assert name in RecordAll(NOTHING, vs[..k]).variables
        <==> name in before.variables || YieldsVariable(vs, k - 1, name);
    }
  }

  /** A variable has the type of the last typed entry of its name, and none if there is no such entry. */
  ghost predicate HasLastType(vs: seq<Visit>, types: map<string, Offset>, name: string) {
    && (name in types <==> exists j :: 0 <= j < |vs| && TypesVariable(vs[j], name))
    && (name in types ==> exists j :: 0 <= j < |vs| && TypesVariable(vs[j], name)
                                      && types[name] == vs[j].die.typ.value
                                      && forall l :: j < l < |vs| ==> !TypesVariable(vs[l], name))
  }

  /** The type by which the relocation route finds a variable is that of the last typed entry of the name. */
  lemma {:induction false} LastTypeWins(vs: seq<Visit>, k: nat, name: string)
    requires k <= |vs|
    ensures HasLastType(vs[..k], RecordAll(NOTHING, vs[..k]).varTypes, name)
  {
    hide Record, RecordAll, TypesVariable;
    NothingYet(vs);
    if k > 0 {
      LastTypeWins(vs, k - 1, name);
      RecordLast(vs, k - 1);
      LastVariable(RecordAll(NOTHING, vs[..k - 1]), vs[k - 1], name);
      assert vs[..k] == vs[..k - 1] + [vs[k - 1]];
    }
  }

  ghost predicate YieldsInline(vs: seq<Visit>, j: nat, ii: InlineInstance)
    requires j < |vs|
  {
    && vs[j].die.tag.InlinedSubroutine?
    && InlineInstanceOf(vs[j].die, FilesAt(vs, j), vs[j].stack) == Some(ii)
  }

  ghost predicate YieldsSite(vs: seq<Visit>, j: nat, cs: CallSite)
    requires j < |vs|
  {
    IsSiteOf(vs[j], FilesAt(vs, j), cs)
  }
}
