/** The type renderer: a memoised recursion over type entries that reserves a slot to break cycles, set
    against the plain recursion, and the two signature forms that have to join. */
module TypeRender {
  import opened Wrappers

  type Offset = nat

  datatype Tag =
    | BaseType | UnspecifiedType | PointerType | ConstType | VolatileType | Typedef
    | StructType | UnionType | EnumerationType | ArrayType | SubroutineType | OtherTag

  /** One of the entries the reader yields after a given one, down to the first null: the children of an
      entry that has some, the following siblings of one that has none. */
  datatype Child = FormalParameter(paramType: Option<Offset>) | UnspecifiedParameters | OtherChild

  datatype Entry = Entry(
    tag: Tag,
    name: Option<string>,
    typ: Option<Offset>,
    prototyped: bool,
    children: bool,
    following: seq<Child>)

  type Dies = map<Offset, Entry>

  // ----- the text forms -----

  predicate EndsWith(s: string, c: char) {
    s != "" && s[|s| - 1] == c
  }

  function IndexOf(s: string, c: char): (i: int)
    ensures -1 <= i < |s|
    ensures i >= 0 ==> s[i] == c && forall j :: 0 <= j < i ==> s[j] != c
    ensures i == -1 ==> c !in s
  {
    if s == "" then -1
    else if s[0] == c then 0
    else var i := IndexOf(s[1..], c); if i < 0 then -1 else i + 1
  }

  /** A pointer to a rendered type; the function form "ret (params)" gets its "(*)" spliced in. */
  function PointerTo(inner: string): string {
    if inner == "" then "void *"
    else if EndsWith(inner, ')') && IndexOf(inner, '(') > 0 then
      inner[..IndexOf(inner, '(')] + "(*)" + inner[IndexOf(inner, '(')..]
    else if EndsWith(inner, '*') then inner + "*"
    else inner + " *"
  }

  /** A pointer to a function whose return type has no parenthesis of its own reads "ret (*)(params)". */
  lemma PointerToFunction(ret: string, list: string)
    requires '(' !in ret && list != "" && list[0] == '(' && EndsWith(list, ')')
    ensures PointerTo(ret + " " + list) == ret + " (*)" + list
  {
    var head := ret + " ";
    var inner := head + list;
    FirstAt(head, list, '(');
    assert inner[..|head|] == head && inner[|head|..] == list;
    assert head + "(*)" == ret + " (*)";
  }

  lemma {:induction false} FirstAt(head: string, tail: string, c: char)
    requires c !in head && tail != "" && tail[0] == c
    ensures IndexOf(head + tail, c) == |head|
  {
    var s := head + tail;
    assert s[|head|] == c;
    forall j | 0 <= j < |head| ensures s[j] != c {
      assert s[j] == head[j] && head[j] in head;
    }
  }

  function Join(parts: seq<string>): string {
    if parts == [] then ""
    else if |parts| == 1 then parts[0]
    else parts[0] + ", " + Join(parts[1..])
  }

  function ParamList(params: seq<string>, variadic: bool, proto: bool): string {
    if |params| == 0 && !proto then "()"
    else if |params| == 0 && variadic then "(...)"
    else if |params| == 0 then "(void)"
    else if variadic then "(" + Join(params) + ", ...)"
    else "(" + Join(params) + ")"
  }

  function Tagged(keyword: string, name: Option<string>): string {
    if name.GetOr("") != "" then keyword + " " + name.value else keyword
  }

  /** The tags rendered around the text of their target. */
  predicate Wraps(tag: Tag) {
    tag in {PointerType, ConstType, VolatileType, ArrayType}
  }

  function Wrapped(e: Entry, inner: string): string
    requires Wraps(e.tag)
  {
    match e.tag
    case PointerType => PointerTo(inner)
    case ConstType => if e.typ.Some? then "const " + inner else "const"
    case VolatileType => if e.typ.Some? then "volatile " + inner else "volatile"
    case ArrayType => inner + "[]"
  }

  /** The tags rendered by name alone. */
  function Leaf(e: Entry): string
    requires !Wraps(e.tag) && !e.tag.SubroutineType?
  {
    match e.tag
    case StructType => Tagged("struct", e.name)
    case UnionType => Tagged("union", e.name)
    case EnumerationType => Tagged("enum", e.name)
    case _ => e.name.GetOr("")
  }

  // ----- the edges a rendering follows -----

  function ParamTypes(cs: seq<Child>): set<Offset> {
    set c | c in cs && c.FormalParameter? && c.paramType.Some? :: c.paramType.value
  }

  function Edges(e: Entry): set<Offset> {
    (if (Wraps(e.tag) || e.tag.SubroutineType?) && e.typ.Some? then {e.typ.value} else {})
    + (if e.tag.SubroutineType? then ParamTypes(e.following) else {})
  }

  ghost predicate Ranked(dies: Dies, rank: map<Offset, nat>) {
    && dies.Keys <= rank.Keys
    && forall o, to :: o in dies && to in dies && to in Edges(dies[o]) ==> rank[to] < rank[o]
  }

  /** No rendering leads back to where it started. */
  ghost predicate Acyclic(dies: Dies) {
    exists rank :: Ranked(dies, rank)
  }

  ghost function Height(dies: Dies, off: Offset): nat
    requires Acyclic(dies)
  {
    var rank :| Ranked(dies, rank);
    if off in dies then 1 + rank[off] else 0
  }

  lemma EdgesDescend(dies: Dies, off: Offset, to: Offset)
    requires Acyclic(dies) && off in dies && to in Edges(dies[off])
    ensures Height(dies, to) < Height(dies, off)
  {
  }

  // ----- the plain recursion -----

  /** The rendering of the type at an offset, with no cache. */
  ghost function Plain(dies: Dies, off: Offset): string
    requires Acyclic(dies)
    decreases Height(dies, off), 0
  {
    if off !in dies then ""
    else
      var e := dies[off];
      if e.tag.SubroutineType? then
        (if e.typ.Some? then PlainTarget(dies, off) else "void") + " " +
        ParamList(PlainParams(dies, off, e.following), IsVariadic(e.following), e.prototyped)
      else if Wraps(e.tag) then Wrapped(e, PlainTarget(dies, off))
      else Leaf(e)
  }

  /** The rendering of what an entry's type attribute points at; empty when it has none. */
  ghost function PlainTarget(dies: Dies, off: Offset): string
    requires Acyclic(dies) && off in dies
    requires Wraps(dies[off].tag) || dies[off].tag.SubroutineType?
    decreases Height(dies, off), 0, 0
  {
    if dies[off].typ.None? then ""
    else
      EdgesDescend(dies, off, dies[off].typ.value);
      Plain(dies, dies[off].typ.value)
  }

  /** A parameter without a type, or one that renders empty, shows as "?". */
  ghost function PlainParams(dies: Dies, off: Offset, cs: seq<Child>): seq<string>
    requires Acyclic(dies) && off in dies && dies[off].tag.SubroutineType?
    requires ParamTypes(cs) <= ParamTypes(dies[off].following)
    decreases Height(dies, off), 0, |cs|
  {
    if cs == [] then []
    else
      var c, front := cs[|cs| - 1], cs[..|cs| - 1];
      assert cs == front + [c];
      var before := PlainParams(dies, off, front);
      if !c.FormalParameter? then before
      else if c.paramType.None? then before + ["?"]
      else
        EdgesDescend(dies, off, c.paramType.value);
        var p := Plain(dies, c.paramType.value);
        before + [if p == "" then "?" else p]
  }

  predicate IsVariadic(cs: seq<Child>) {
    UnspecifiedParameters in cs
  }

  // ----- signatures -----

  ghost function ParamTexts(dies: Dies, cs: seq<Child>): seq<string>
    requires Acyclic(dies)
  {
    if cs == [] then []
    else
      var c, before := cs[|cs| - 1], ParamTexts(dies, cs[..|cs| - 1]);
      if !c.FormalParameter? then before else before + [ParamText(dies, c)]
  }

  ghost function ParamText(dies: Dies, c: Child): string
    requires Acyclic(dies) && c.FormalParameter?
  {
    var p := if c.paramType.Some? then Plain(dies, c.paramType.value) else "";
    if p == "" then "?" else p
  }

  ghost function ReturnText(dies: Dies, e: Entry): string
    requires Acyclic(dies)
  {
    if e.typ.Some? then Plain(dies, e.typ.value) else "void"
  }

  /** What renderSubroutineType says of an entry, and buildSignature of another. */
  ghost function SubroutineText(dies: Dies, e: Entry): string
    requires Acyclic(dies)
  {
    ReturnText(dies, e) + " " + ParamList(ParamTexts(dies, e.following), IsVariadic(e.following), e.prototyped)
  }

  ghost function SignatureText(dies: Dies, e: Entry): string
    requires Acyclic(dies)
  {
    ReturnText(dies, e) + " " +
    if e.children then ParamList(ParamTexts(dies, e.following), IsVariadic(e.following), e.prototyped)
    else ParamList([], false, e.prototyped)
  }

  lemma {:induction false} PlainParamsAreTexts(dies: Dies, off: Offset, cs: seq<Child>)
    requires Acyclic(dies) && off in dies && dies[off].tag.SubroutineType?
    requires ParamTypes(cs) <= ParamTypes(dies[off].following)
    ensures PlainParams(dies, off, cs) == ParamTexts(dies, cs)
  {
    if cs != [] {
      var front := cs[..|cs| - 1];
      assert cs == front + [cs[|cs| - 1]];
      PlainParamsAreTexts(dies, off, front);
    }
  }

  lemma PlainSubroutine(dies: Dies, off: Offset)
    requires Acyclic(dies) && off in dies && dies[off].tag.SubroutineType?
    ensures Plain(dies, off) == SubroutineText(dies, dies[off])
  {
    PlainParamsAreTexts(dies, off, dies[off].following);
  }

  // ----- what the cache may hold -----

  type Cache = map<Offset, string>

  ghost function Rise(dies: Dies, off: Offset): nat {
    if Acyclic(dies) then Height(dies, off) else 0
  }

  /** The graph is acyclic and below a height every cached text is the plain one. Offsets in progress hold
      the placeholder; they stand above everything they lead to. */
  ghost predicate Faithful(dies: Dies, cache: Cache, h: nat) {
    Acyclic(dies) && forall o :: o in cache && Height(dies, o) < h ==> cache[o] == Plain(dies, o)
  }

  ghost predicate AllPlain(dies: Dies, cache: Cache) {
    Acyclic(dies) && forall o :: o in cache ==> cache[o] == Plain(dies, o)
  }

  ghost predicate Kept(before: Cache, after: Cache) {
    forall o :: o in before ==> o in after && after[o] == before[o]
  }

  ghost predicate AddsPlain(dies: Dies, before: Cache, after: Cache) {
    Acyclic(dies) && forall o :: o in after && o !in before ==> after[o] == Plain(dies, o)
  }

  /** A renderer has extended the cache, with nothing but plain texts if it was faithful below h. */
  ghost predicate Extends(dies: Dies, before: Cache, after: Cache, h: nat) {
    Kept(before, after) && (Faithful(dies, before, h) ==> AddsPlain(dies, before, after))
  }

  /** What rendering an offset comes to: its plain text, if the cache was faithful up to it. */
  ghost predicate Rendered(dies: Dies, before: Cache, after: Cache, off: Offset, s: string) {
    && Extends(dies, before, after, Rise(dies, off) + 1)
    && (Faithful(dies, before, Rise(dies, off) + 1) ==> s == Plain(dies, off))
  }

  lemma Unchanged(dies: Dies, cache: Cache, h: nat)
    ensures Extends(dies, cache, cache, h)
  {
  }

  lemma Cached(dies: Dies, cache: Cache, off: Offset)
    requires off in cache
    ensures Rendered(dies, cache, cache, off, cache[off])
  {
    hide Plain;
  }

  lemma StillFaithful(dies: Dies, before: Cache, after: Cache, h: nat, k: nat)
    requires Faithful(dies, before, h) && Extends(dies, before, after, h) && k <= h
    ensures Faithful(dies, after, k)
  {
  }

  lemma ExtendsTwice(dies: Dies, a: Cache, b: Cache, c: Cache, h: nat, k: nat)
    requires Extends(dies, a, b, h) && Extends(dies, b, c, k) && k <= h
    ensures Extends(dies, a, c, h)
  {
  }

  lemma Fill(dies: Dies, cache: Cache, after: Cache, off: Offset, s: string)
    requires off !in cache
    requires Extends(dies, cache[off := ""], after, Rise(dies, off))
    requires Faithful(dies, cache[off := ""], Rise(dies, off)) ==> s == Plain(dies, off)
    ensures Rendered(dies, cache, after[off := s], off, s)
  {
    hide Plain;
  }

  lemma Reserved(dies: Dies, cache: Cache, off: Offset)
    requires off !in cache
    ensures |dies.Keys - cache[off := ""].Keys| == |dies.Keys - cache.Keys| - if off in dies then 1 else 0
  {
    var less := dies.Keys - cache[off := ""].Keys;
    assert dies.Keys - cache.Keys == if off in dies then less + {off} else less;
  }

  lemma NoMore(dies: Dies, before: Cache, after: Cache)
    requires Kept(before, after)
    ensures |dies.Keys - after.Keys| <= |dies.Keys - before.Keys|
  {
    var a, b := dies.Keys - after.Keys, dies.Keys - before.Keys;
    assert b == a + (b - a);
  }

  /** Everything an entry leads to stands below h. */
  ghost predicate LeadsBelow(dies: Dies, e: Entry, h: nat) {
    && (e.typ.Some? ==> Rise(dies, e.typ.value) < h)
    && ParamsBelow(dies, e.following, h)
  }

  ghost predicate ParamsBelow(dies: Dies, cs: seq<Child>, h: nat) {
    forall c :: c in cs && c.FormalParameter? && c.paramType.Some? ==> Rise(dies, c.paramType.value) < h
  }

  lemma SubroutineLeadsBelow(dies: Dies, off: Offset)
    requires Acyclic(dies) && off in dies && dies[off].tag.SubroutineType?
    ensures LeadsBelow(dies, dies[off], Rise(dies, off))
  {
    var e := dies[off];
    if e.typ.Some? {
      EdgesDescend(dies, off, e.typ.value);
    }
    forall c | c in e.following && c.FormalParameter? && c.paramType.Some?
      ensures Rise(dies, c.paramType.value) < Rise(dies, off)
    {
      EdgesDescend(dies, off, c.paramType.value);
    }
  }

  // ----- the memoised renderer -----

  class TypeCache {
    const dies: Dies
    var cache: Cache

    constructor (dies: Dies)
      ensures this.dies == dies && cache == map[]
    {
      this.dies, cache := dies, map[];
    }

    /** Terminates on any graph: whoever goes deeper has put one more of its offsets into the cache. */
    method Render(off: Offset) returns (s: string)
      modifies this`cache
      ensures Rendered(dies, old(cache), cache, off, s)
      decreases |dies.Keys - cache.Keys|, 1, 0
    {
      hide *;
      if off in cache {
        s := cache[off];
        Cached(dies, cache, off);
      } else {
        ghost var before := cache;
        cache := cache[off := ""];
        Reserved(dies, before, off);
        s := RenderNoCache(off);
        Fill(dies, before, cache, off, s);
        cache := cache[off := s];
      }
    }

    method RenderNoCache(off: Offset) returns (s: string)
      modifies this`cache
      ensures Extends(dies, old(cache), cache, Rise(dies, off))
      ensures Faithful(dies, old(cache), Rise(dies, off)) ==> s == Plain(dies, off)
      decreases |dies.Keys - cache.Keys|, if off in dies then 2 else 0, 2
    {
      hide Faithful, Extends, Wraps, Wrapped, Leaf;
      Unchanged(dies, cache, Rise(dies, off));
      if Faithful(dies, cache, Rise(dies, off)) {
        IsAcyclic(dies, cache, Rise(dies, off));
      }
      if off !in dies {
        return "";
      }
      var e := dies[off];
      if e.tag.SubroutineType? {
        if Acyclic(dies) {
          PlainSubroutine(dies, off);
          SubroutineLeadsBelow(dies, off);
        }
        hide Plain;
        s := RenderSubroutineType(e, Rise(dies, off));
      } else if Wraps(e.tag) {
        var inner := RenderTarget(off);
        s := Wrapped(e, inner);
      } else {
        s := Leaf(e);
      }
    }

    /** The rendering of an entry's type attribute, empty without one. */
    method RenderTarget(off: Offset) returns (s: string)
      requires off in dies && Wraps(dies[off].tag)
      modifies this`cache
      ensures Extends(dies, old(cache), cache, Rise(dies, off))
      ensures Faithful(dies, old(cache), Rise(dies, off)) ==> s == PlainTarget(dies, off)
      decreases |dies.Keys - cache.Keys|, 2, 1
    {
      Unchanged(dies, cache, Rise(dies, off));
      if dies[off].typ.None? {
        return "";
      }
      var to := dies[off].typ.value;
      if Acyclic(dies) {
        EdgesDescend(dies, off, to);
      }
      s := Render(to);
    }

    /** renderSubroutineType, also called on its own by the indirect-call resolver. */
    method RenderSubroutineType(e: Entry, ghost h: nat) returns (s: string)
      requires Acyclic(dies) ==> LeadsBelow(dies, e, h)
      modifies this`cache
      ensures Extends(dies, old(cache), cache, h)
      ensures Faithful(dies, old(cache), h) ==> s == SubroutineText(dies, e)
      decreases |dies.Keys - cache.Keys|, 2, 1
    {
      hide Faithful, Extends, ParamTexts, ReturnText;
      ghost var before := cache;
      var ret := RenderReturn(e, h);
      ghost var between := cache;
      KeptBy(dies, before, between, h);
      NoMore(dies, before, between);
      var params, variadic := WalkParams(e.following, h);
      s := ret + " " + ParamList(params, variadic, e.prototyped);
      ExtendsTwice(dies, before, between, cache, h, h);
      if Faithful(dies, before, h) {
        IsAcyclic(dies, before, h);
        StillFaithful(dies, before, between, h, h);
      }
    }

    method RenderReturn(e: Entry, ghost h: nat) returns (s: string)
      requires Acyclic(dies) ==> LeadsBelow(dies, e, h)
      modifies this`cache
      ensures Extends(dies, old(cache), cache, h)
      ensures Faithful(dies, old(cache), h) ==> s == ReturnText(dies, e)
      decreases |dies.Keys - cache.Keys|, 2, 0, 0
    {
      s := "void";
      if e.typ.Some? {
        s := Render(e.typ.value);
      }
    }

    /** One formal parameter's text. */
    method RenderParam(c: Child, ghost h: nat) returns (p: string)
      requires c.FormalParameter?
      requires Acyclic(dies) && c.paramType.Some? ==> Rise(dies, c.paramType.value) < h
      modifies this`cache
      ensures Extends(dies, old(cache), cache, h)
      ensures Faithful(dies, old(cache), h) ==> p == ParamText(dies, c)
      decreases |dies.Keys - cache.Keys|, 2, 0, 0
    {
      p := "";
      if c.paramType.Some? {
        p := Render(c.paramType.value);
      }
      if p == "" {
        p := "?";
      }
    }

    /** The loop over the entries that follow: every formal parameter is rendered, and unspecified
        parameters are noted. */
    method WalkParams(following: seq<Child>, ghost h: nat) returns (params: seq<string>, variadic: bool)
      requires Acyclic(dies) ==> ParamsBelow(dies, following, h)
      modifies this`cache
      ensures Extends(dies, old(cache), cache, h)
      ensures variadic == IsVariadic(following)
      ensures Faithful(dies, old(cache), h) ==> params == ParamTexts(dies, following)
      decreases |dies.Keys - cache.Keys|, 2, 0, 1
    {
      hide Faithful, Extends, ParamText;
      ghost var before := cache;
      params, variadic := [], false;
      Unchanged(dies, cache, h);
      if Faithful(dies, before, h) {
        IsAcyclic(dies, before, h);
      }
      for i := 0 to |following|
        invariant Extends(dies, before, cache, h)
        invariant |dies.Keys - cache.Keys| <= |dies.Keys - before.Keys|
        invariant variadic == IsVariadic(following[..i])
        invariant Faithful(dies, before, h) ==> Acyclic(dies) && params == ParamTexts(dies, following[..i])
      {
        var c := following[i];
        assert following[..i + 1][..i] == following[..i];
        ghost var between := cache;
        match c {
          case FormalParameter(_) =>
            var p := RenderParam(c, h);
            params := params + [p];
            ExtendsTwice(dies, before, between, cache, h, h);
            KeptBy(dies, before, cache, h);
            NoMore(dies, before, cache);
            if Faithful(dies, before, h) {
              StillFaithful(dies, before, between, h, h);
            }
          case UnspecifiedParameters => variadic := true;
          case OtherChild =>
        }
      }
      assert following[..|following|] == following;
    }

    /** buildSignature: the same walk, but only over an entry that has children. */
    method BuildSignature(e: Entry) returns (s: string)
      modifies this`cache
      ensures AllPlain(dies, old(cache)) ==> AllPlain(dies, cache) && s == SignatureText(dies, e)
    {
      ghost var h := SomeHeight(dies, e);
      ghost var before := cache;
      var ret := RenderReturn(e, h);
      if !e.children {
        return ret + " " + ParamList([], false, e.prototyped);
      }
      var params, variadic := WalkParams(e.following, h);
      s := ret + " " + ParamList(params, variadic, e.prototyped);
    }
  }

  lemma KeptBy(dies: Dies, before: Cache, after: Cache, h: nat)
    requires Extends(dies, before, after, h)
    ensures Kept(before, after)
  {
  }

  lemma IsAcyclic(dies: Dies, cache: Cache, h: nat)
    requires Faithful(dies, cache, h)
    ensures Acyclic(dies)
  {
  }

  /** A height above everything the entry leads to. */
  lemma SomeHeight(dies: Dies, e: Entry) returns (h: nat)
    ensures LeadsBelow(dies, e, h)
  {
    h := 1 + if e.typ.Some? then Rise(dies, e.typ.value) else 0;
    for i := 0 to |e.following|
      invariant e.typ.Some? ==> Rise(dies, e.typ.value) < h
      invariant ParamsBelow(dies, e.following[..i], h)
    {
      var c := e.following[i];
      assert e.following[..i + 1] == e.following[..i] + [c];
      if c.FormalParameter? && c.paramType.Some? && Rise(dies, c.paramType.value) >= h {
        h := Rise(dies, c.paramType.value) + 1;
      }
    }
    assert e.following[..|e.following|] == e.following;
  }

  // ----- the two forms agree, and when they do not -----

  /** The children a parameter list is made of: a subprogram has others, its variables, blocks and calls. */
  function OfParams(cs: seq<Child>): seq<Child> {
    if cs == [] then []
    else
      var front := OfParams(cs[..|cs| - 1]);
      if cs[|cs| - 1].OtherChild? then front else front + [cs[|cs| - 1]]
  }

  lemma OneMoreChild(dies: Dies, cs: seq<Child>, c: Child)
    requires Acyclic(dies)
    ensures ParamTexts(dies, cs + [c])
         == ParamTexts(dies, cs) + if c.FormalParameter? then [ParamText(dies, c)] else []
    ensures IsVariadic(cs + [c]) <==> IsVariadic(cs) || c.UnspecifiedParameters?
  {
    hide Plain, ParamText;
    assert (cs + [c])[..|cs|] == cs;
  }

  lemma {:induction false} OtherChildrenDoNotShow(dies: Dies, cs: seq<Child>)
    requires Acyclic(dies)
    ensures ParamTexts(dies, OfParams(cs)) == ParamTexts(dies, cs) && IsVariadic(OfParams(cs)) == IsVariadic(cs)
  {
    if cs != [] {
      var front, c := cs[..|cs| - 1], cs[|cs| - 1];
      OtherChildrenDoNotShow(dies, front);
      assert cs == front + [c];
      hide ParamTexts, IsVariadic;
      OneMoreChild(dies, front, c);
      OneMoreChild(dies, OfParams(front), c);
    }
  }

  /** Pairs of offsets, of one object's entries or of two, that stand for the same C type. */
  type Pairs = set<(Offset, Offset)>

  predicate SameTarget(same: Pairs, a: Option<Offset>, b: Option<Offset>) {
    if a.Some? && b.Some? then (a.value, b.value) in same else a == b
  }

  predicate SameChild(same: Pairs, a: Child, b: Child) {
    if a.FormalParameter? && b.FormalParameter? then SameTarget(same, a.paramType, b.paramType) else a == b
  }

  ghost predicate SameParams(same: Pairs, a: seq<Child>, b: seq<Child>) {
    |a| == |b| && forall i :: 0 <= i < |a| ==> SameChild(same, a[i], b[i])
  }

  /** Same tag, and the same in everything that tag is rendered by, up to the pairs. */
  ghost predicate SameEntry(same: Pairs, a: Entry, b: Entry) {
    && a.tag == b.tag
    && if a.tag.SubroutineType? then
         && SameTarget(same, a.typ, b.typ) && a.prototyped == b.prototyped
         && SameParams(same, OfParams(a.following), OfParams(b.following))
       else if Wraps(a.tag) then SameTarget(same, a.typ, b.typ)
       else a.name.GetOr("") == b.name.GetOr("")
  }

  ghost predicate Corresponds(left: Dies, right: Dies, same: Pairs) {
    forall a, b :: (a, b) in same ==>
      && (a in left <==> b in right)
      && (a in left && b in right ==> SameEntry(same, left[a], right[b]))
  }

  /** The pairs below a height of the left graph render alike. */
  ghost predicate AlikeBelow(left: Dies, right: Dies, same: Pairs, h: nat)
    requires Acyclic(left) && Acyclic(right)
  {
    forall a, b :: (a, b) in same && Height(left, a) < h ==> Plain(left, a) == Plain(right, b)
  }

  lemma {:induction false} ParamsAlike(left: Dies, right: Dies, same: Pairs, a: seq<Child>, b: seq<Child>, h: nat)
    requires Acyclic(left) && Acyclic(right) && AlikeBelow(left, right, same, h) && SameParams(same, a, b)
    requires forall o :: o in ParamTypes(a) ==> Height(left, o) < h
    ensures ParamTexts(left, a) == ParamTexts(right, b) && IsVariadic(a) == IsVariadic(b)
  {
    hide Plain;
    if a != [] {
      var n := |a| - 1;
      assert a == a[..n] + [a[n]] && b == b[..n] + [b[n]];
      assert SameChild(same, a[n], b[n]);
      assert ParamTypes(a[..n]) <= ParamTypes(a);
      if a[n].FormalParameter? && a[n].paramType.Some? {
        assert a[n].paramType.value in ParamTypes(a);
      }
      ParamsAlike(left, right, same, a[..n], b[..n], h);
    }
  }

  lemma {:induction false} OfParamsAreThere(cs: seq<Child>)
    ensures forall c :: c in OfParams(cs) <==> c in cs && !c.OtherChild?
  {
    if cs != [] {
      var front, c := cs[..|cs| - 1], cs[|cs| - 1];
      OfParamsAreThere(front);
      assert cs == front + [c];
    }
  }

  /** Function types whose parts render alike do. */
  lemma SubroutinesAlike(left: Dies, right: Dies, same: Pairs, a: Entry, b: Entry, h: nat)
    requires Acyclic(left) && Acyclic(right) && AlikeBelow(left, right, same, h) && LeadsBelow(left, a, h)
    requires SameTarget(same, a.typ, b.typ) && SameParams(same, OfParams(a.following), OfParams(b.following))
    ensures ReturnText(left, a) == ReturnText(right, b)
    ensures ParamTexts(left, a.following) == ParamTexts(right, b.following)
    ensures IsVariadic(a.following) == IsVariadic(b.following)
  {
    hide Plain;
    OtherChildrenDoNotShow(left, a.following);
    OtherChildrenDoNotShow(right, b.following);
    OfParamsAreThere(a.following);
    ParamsAlike(left, right, same, OfParams(a.following), OfParams(b.following), h);
  }

  /** Types that correspond entry by entry render alike, wherever they lie. */
  lemma {:induction false} CorrespondingTypesRenderAlike(left: Dies, right: Dies, same: Pairs, a: Offset, b: Offset)
    requires Acyclic(left) && Acyclic(right) && Corresponds(left, right, same) && (a, b) in same
    ensures Plain(left, a) == Plain(right, b)
    decreases Height(left, a)
  {
    var h := Height(left, a);
    forall x, y | (x, y) in same && Height(left, x) < h ensures Plain(left, x) == Plain(right, y) {
      CorrespondingTypesRenderAlike(left, right, same, x, y);
    }
    if a in left {
      var e, f := left[a], right[b];
      if e.tag.SubroutineType? {
        PlainSubroutine(left, a);
        PlainSubroutine(right, b);
        SubroutineLeadsBelow(left, a);
        SubroutinesAlike(left, right, same, e, f, h);
      } else if Wraps(e.tag) && e.typ.Some? {
        EdgesDescend(left, a, e.typ.value);
      }
    }
  }

  /** A symbol's signature and a function pointer's callee type, of one object or of two, are the same text
      whenever the subprogram has children and return type, parameters and prototyping correspond, whatever
      else the subprogram holds. */
  lemma SignaturesJoin(left: Dies, right: Dies, same: Pairs, subprogram: Entry, subroutine: Entry)
    requires Acyclic(left) && Acyclic(right) && Corresponds(left, right, same)
    requires subprogram.children && subprogram.prototyped == subroutine.prototyped
    requires SameTarget(same, subprogram.typ, subroutine.typ)
    requires SameParams(same, OfParams(subprogram.following), OfParams(subroutine.following))
    ensures SignatureText(left, subprogram) == SubroutineText(right, subroutine)
  {
    var h := SomeHeight(left, subprogram);
    forall x, y | (x, y) in same && Height(left, x) < h ensures Plain(left, x) == Plain(right, y) {
      CorrespondingTypesRenderAlike(left, right, same, x, y);
    }
    SubroutinesAlike(left, right, same, subprogram, subroutine, h);
  }

  /** The join through the caches as the code has them: one shared by both renderings, or one for each of two
      objects, warm with any renderings made before. */
  method BuildBoth(tc: TypeCache, uc: TypeCache, subprogram: Entry, subroutine: Entry, ghost same: Pairs)
    returns (signature: string, calleeType: string)
    requires AllPlain(tc.dies, tc.cache) && AllPlain(uc.dies, uc.cache) && Corresponds(tc.dies, uc.dies, same)
    requires subprogram.children && subprogram.prototyped == subroutine.prototyped
    requires SameTarget(same, subprogram.typ, subroutine.typ)
    requires SameParams(same, OfParams(subprogram.following), OfParams(subroutine.following))
    modifies tc`cache, uc`cache
    ensures signature == calleeType == SignatureText(tc.dies, subprogram)
    ensures AllPlain(tc.dies, tc.cache) && AllPlain(uc.dies, uc.cache)
  {
    SignaturesJoin(tc.dies, uc.dies, same, subprogram, subroutine);
    hide Corresponds, SameTarget, SameParams, SignatureText, SubroutineText;
    signature := tc.BuildSignature(subprogram);
    ghost var h := SomeHeight(uc.dies, subroutine);
    calleeType := uc.RenderSubroutineType(subroutine, h);
  }

  lemma {:induction false} NoEmptyParam(dies: Dies, cs: seq<Child>)
    requires Acyclic(dies)
    ensures forall p :: p in ParamTexts(dies, cs) ==> p != ""
  {
    if cs != [] {
      NoEmptyParam(dies, cs[..|cs| - 1]);
    }
  }

  lemma JoinLength(parts: seq<string>)
    ensures |parts| > 1 ==> ',' in Join(parts)
    ensures |parts| == 1 ==> Join(parts) == parts[0]
  {
    if |parts| > 1 {
      assert Join(parts)[|parts[0]|] == ',';
    }
  }

  /** The three empty-looking lists are told apart, and nothing else looks like them but a single parameter
      that itself renders as "void" or "...". */
  lemma EmptyListsDiffer(params: seq<string>, variadic: bool, proto: bool)
    requires forall p :: p in params ==> p != ""
    ensures var l := ParamList(params, variadic, proto);
            && (l == "()" <==> params == [] && !proto)
            && (l == "(void)" <==> (params == [] && proto && !variadic) || (params == ["void"] && !variadic))
            && (l == "(...)" <==> (params == [] && proto && variadic) || (params == ["..."] && !variadic))
  {
    JoinLength(params);
    if params != [] {
      assert params[0] in params;
      Bracketed(Join(params), variadic);
      if |params| == 1 {
        assert params == [params[0]];
      }
    }
  }

  lemma Bracketed(inner: string, variadic: bool)
    ensures !variadic ==> ("(" + inner + ")")[1..|inner| + 1] == inner
    ensures var l := if variadic then "(" + inner + ", ...)" else "(" + inner + ")";
            && (l == "()" <==> inner == "" && !variadic)
            && (l == "(void)" <==> inner == "void" && !variadic)
            && (l == "(...)" <==> inner == "..." && !variadic)
  {
    if variadic {
      assert ("(" + inner + ", ...)")[|inner| + 1] == ',';
    } else {
      assert ("(" + inner + ")")[1..|inner| + 1] == inner;
      assert "(void)"[1..5] == "void" && "(...)"[1..4] == "...";
    }
  }

  lemma ReturnsAlike(left: Dies, right: Dies, same: Pairs, a: Entry, b: Entry)
    requires Acyclic(left) && Acyclic(right) && Corresponds(left, right, same) && SameTarget(same, a.typ, b.typ)
    ensures ReturnText(left, a) == ReturnText(right, b)
  {
    if a.typ.Some? {
      CorrespondingTypesRenderAlike(left, right, same, a.typ.value, b.typ.value);
    }
  }

  /** The parameters an entry has of its own. */
  function OwnParams(e: Entry): seq<Child> {
    if e.children then OfParams(e.following) else []
  }

  lemma NoOwnParams(dies: Dies, subprogram: Entry)
    requires Acyclic(dies) && OwnParams(subprogram) == []
    ensures SignatureText(dies, subprogram)
         == ReturnText(dies, subprogram) + " " + ParamList([], false, subprogram.prototyped)
  {
    hide Plain;
    OtherChildrenDoNotShow(dies, subprogram.following);
  }

  /** Of a subprogram without parameters buildSignature writes an empty list, while renderSubroutineType of the
      childless function type that corresponds to it reads on into the siblings; the two agree exactly when the
      siblings add nothing to see. */
  lemma ChildlessAgreesExactlyWhen(left: Dies, right: Dies, same: Pairs, subprogram: Entry, subroutine: Entry)
    requires Acyclic(left) && Acyclic(right) && Corresponds(left, right, same)
    requires SameTarget(same, subprogram.typ, subroutine.typ) && subprogram.prototyped == subroutine.prototyped
    requires OwnParams(subprogram) == [] && !subroutine.children
    ensures var params, variadic := ParamTexts(right, subroutine.following), IsVariadic(subroutine.following);
            SignatureText(left, subprogram) == SubroutineText(right, subroutine)
            <==> (params == [] && (!variadic || !subroutine.prototyped))
                 || (params == ["void"] && !variadic && subroutine.prototyped)
  {
    var proto, variadic := subroutine.prototyped, IsVariadic(subroutine.following);
    var params := ParamTexts(right, subroutine.following);
    ReturnsAlike(left, right, same, subprogram, subroutine);
    NoOwnParams(left, subprogram);
    NoEmptyParam(right, subroutine.following);
    EmptyListsDiffer(params, variadic, proto);
    hide Corresponds, SameTarget, SignatureText, ReturnText, ParamTexts, IsVariadic;
    var head := ReturnText(right, subroutine) + " ";
    var a, b := ParamList([], false, proto), ParamList(params, variadic, proto);
    assert (head + a)[|head|..] == a && (head + b)[|head|..] == b;
  }

  /** A function without parameters, and a pointer to such functions whose type has some other function's
      parameter behind it. */
  lemma ChildlessDisagrees()
    ensures var f := Entry(OtherTag, Some("f"), None, true, true, [OtherChild]);
            var t := Entry(SubroutineType, None, None, true, false, [FormalParameter(None)]);
            && Acyclic(map[]) && OwnParams(f) == []
            && SignatureText(map[], f) == "void (void)" && SubroutineText(map[], t) == "void (?)"
  {
    assert Ranked(map[], map[]);
    var cs := [FormalParameter(None)];
    assert cs[..0] == [];
    assert ParamTexts(map[], cs) == ["?"];
    var others := [OtherChild];
    assert others[..0] == [] && OfParams(others) == [];
    NoOwnParams(map[], Entry(OtherTag, Some("f"), None, true, true, others));
  }
}
