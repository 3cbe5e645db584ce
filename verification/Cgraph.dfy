/** The .cgraph dump parser: a block machine over classified lines, and the fold that merges every
    observation of a symbol across the dump's repeated symbol tables. */
module Cgraph {
  import opened Wrappers

  datatype Ref = Ref(target: string, kind: string)

  datatype Call = Call(target: string, inlined: bool)

  /** One entry of a symbol table. */
  datatype Symbol = Symbol(
    localId: string,
    name: string,
    linkageName: string,
    kind: string,
    analyzed: bool,
    bodyRemoved: bool,
    visibility: seq<string>,
    addressTaken: bool,
    flags: seq<string>,
    cloneOf: string,
    refs: seq<Ref>,
    called: seq<Call>,
    indirect: seq<nat>)

  /** An indented line under a symbol header, with its tokens. */
  datatype Detail =
    | TypeLine(tokens: seq<string>, definition: bool)
    | BodyRemovedLine
    | VisibilityLine(tokens: seq<string>)
    | AddressTakenLine
    | FlagsLine(tokens: seq<string>)
    | CloneOfLine(parent: string)
    | ReferencesLine(refs: seq<Ref>)
    | ReferringLine(refs: seq<Ref>)
    | CallsLine(calls: seq<Call>)
    | IndirectLine(targets: nat)
    | OtherDetail

  /** A classified line. Other stands for every line that ends a block and starts none: a table marker, a
      blank line, a Removing, Reclaiming or Clearing notice, and any other line in column 0. */
  datatype Line =
    | TriviallyNeeded(ids: seq<string>)
    | Header(id: string, name: string, linkageName: string)
    | Indented(detail: Detail)
    | Other

  function Fresh(id: string, name: string, linkageName: string): Symbol {
    Symbol(id, name, linkageName, "", false, false, [], false, [], "", [], [], [])
  }

  predicate IsDigit(c: char) { '0' <= c <= '9' }

  /** The count token and parenthesised remarks are not flags. */
  predicate IsFlag(token: string) {
    && !("count:" <= token && |token| > 6 && IsDigit(token[6]))
    && !(token != "" && (token[0] == '(' || token[|token| - 1] == ')'))
  }

  function Flags(tokens: seq<string>): seq<string> {
    if tokens == [] then []
    else Flags(tokens[..|tokens| - 1]) + if IsFlag(tokens[|tokens| - 1]) then [tokens[|tokens| - 1]] else []
  }

  predicate AnyAddress(refs: seq<Ref>) {
    exists r :: r in refs && r.kind == "addr"
  }

  /** What one indented line adds to the symbol being read. */
  function Read(cur: Symbol, d: Detail): Symbol {
    match d
    case TypeLine(tokens, definition) =>
      cur.(kind := if |tokens| > 0 then tokens[0] else cur.kind, analyzed := definition)
    case BodyRemovedLine => cur.(bodyRemoved := true)
    case VisibilityLine(tokens) => cur.(visibility := tokens)
    case AddressTakenLine => cur.(addressTaken := true)
    case FlagsLine(tokens) => cur.(flags := cur.flags + Flags(tokens))
    case CloneOfLine(parent) => cur.(cloneOf := parent)
    case ReferencesLine(refs) => cur.(refs := cur.refs + refs)
    case ReferringLine(refs) => cur.(addressTaken := cur.addressTaken || AnyAddress(refs))
    case CallsLine(calls) => cur.(called := cur.called + calls)
    case IndirectLine(n) => cur.(indirect := cur.indirect + [n])
    case OtherDetail => cur
  }

  // ----- the fold -----

  /** A list with something in it displaces one that is no longer. */
  function Richer<T>(prev: seq<T>, obs: seq<T>): seq<T> {
    if |obs| >= |prev| && |obs| > 0 then obs else prev
  }

  function Newer(prev: string, obs: string): string {
    if obs != "" then obs else prev
  }

  function Combine(prev: Symbol, obs: Symbol): Symbol {
    prev.(name := Newer(prev.name, obs.name),
          linkageName := Newer(prev.linkageName, obs.linkageName),
          kind := Newer(prev.kind, obs.kind),
          analyzed := prev.analyzed || obs.analyzed,
          bodyRemoved := prev.bodyRemoved || obs.bodyRemoved,
          addressTaken := prev.addressTaken || obs.addressTaken,
          cloneOf := Newer(prev.cloneOf, obs.cloneOf),
          visibility := Richer(prev.visibility, obs.visibility),
          flags := Richer(prev.flags, obs.flags),
          refs := Richer(prev.refs, obs.refs),
          called := Richer(prev.called, obs.called),
          indirect := Richer(prev.indirect, obs.indirect))
  }

  function Merged(dst: map<string, Symbol>, obs: Symbol): map<string, Symbol> {
    dst[obs.localId := if obs.localId in dst then Combine(dst[obs.localId], obs) else obs]
  }

  function MergeAll(observations: seq<Symbol>): map<string, Symbol> {
    if observations == [] then map[]
    else Merged(MergeAll(observations[..|observations| - 1]), observations[|observations| - 1])
  }

  // ----- cutting the dump into blocks -----

  /** A header with the run of indented lines below it. */
  datatype Block = Block(id: string, name: string, linkageName: string, details: seq<Detail>)

  /** The longest run of indented lines at the front. */
  function Run(lines: seq<Line>): (details: seq<Detail>)
    ensures |details| <= |lines|
    ensures forall i :: 0 <= i < |details| ==> lines[i] == Indented(details[i])
    ensures |details| < |lines| ==> !lines[|details|].Indented?
  {
    if lines == [] || !lines[0].Indented? then [] else [lines[0].detail] + Run(lines[1..])
  }

  function Blocks(lines: seq<Line>): seq<Block>
    decreases |lines|
  {
    if lines == [] then []
    else if lines[0].Header? then
      var details := Run(lines[1..]);
      [Block(lines[0].id, lines[0].name, lines[0].linkageName, details)] + Blocks(lines[1 + |details|..])
    else Blocks(lines[1..])
  }

  function ReadAll(cur: Symbol, details: seq<Detail>): Symbol
    decreases |details|
  {
    if details == [] then cur else ReadAll(Read(cur, details[0]), details[1..])
  }

  function Observe(b: Block): Symbol {
    ReadAll(Fresh(b.id, b.name, b.linkageName), b.details)
  }

  function ObserveAll(bs: seq<Block>): seq<Symbol> {
    if bs == [] then [] else [Observe(bs[0])] + ObserveAll(bs[1..])
  }

  function TrivialIds(lines: seq<Line>): seq<string> {
    if lines == [] then []
    else TrivialIds(lines[..|lines| - 1]) +
         if lines[|lines| - 1].TriviallyNeeded? then lines[|lines| - 1].ids else []
  }

  // ----- what an observation says of its block -----

  function CallsIn(ds: seq<Detail>): seq<Call> {
    if ds == [] then [] else (if ds[0].CallsLine? then ds[0].calls else []) + CallsIn(ds[1..])
  }

  /** Only the References lines: Referring is the other direction. */
  function RefsIn(ds: seq<Detail>): seq<Ref> {
    if ds == [] then [] else (if ds[0].ReferencesLine? then ds[0].refs else []) + RefsIn(ds[1..])
  }

  function IndirectIn(ds: seq<Detail>): seq<nat> {
    if ds == [] then [] else (if ds[0].IndirectLine? then [ds[0].targets] else []) + IndirectIn(ds[1..])
  }

  predicate IsCount(token: string) {
    |token| >= 7 && token[..6] == "count:" && token[6] in "0123456789"
  }

  predicate IsRemark(token: string) {
    token != "" && (token[0] == '(' || token[|token| - 1] == ')')
  }

  function PlainTokens(tokens: seq<string>): seq<string> {
    if tokens == [] then []
    else
      var front, last := PlainTokens(tokens[..|tokens| - 1]), tokens[|tokens| - 1];
      if IsCount(last) || IsRemark(last) then front else front + [last]
  }

  function FlagsIn(ds: seq<Detail>): seq<string> {
    if ds == [] then [] else (if ds[0].FlagsLine? then PlainTokens(ds[0].tokens) else []) + FlagsIn(ds[1..])
  }

  /** The last value given, or the one before when none is. */
  ghost predicate IsLastSome<T(!new)>(given: seq<Option<T>>, before: T, r: T) {
    if forall i :: 0 <= i < |given| ==> given[i].None? then r == before
    else exists i :: 0 <= i < |given| && given[i] == Some(r) && forall j :: i < j < |given| ==> given[j].None?
  }

  function KindsGiven(ds: seq<Detail>): seq<Option<string>> {
    seq(|ds|, i requires 0 <= i < |ds| =>
      if ds[i].TypeLine? && |ds[i].tokens| > 0 then Some(ds[i].tokens[0]) else None)
  }

  function DefinitionsGiven(ds: seq<Detail>): seq<Option<bool>> {
    seq(|ds|, i requires 0 <= i < |ds| => if ds[i].TypeLine? then Some(ds[i].definition) else None)
  }

  function VisibilitiesGiven(ds: seq<Detail>): seq<Option<seq<string>>> {
    seq(|ds|, i requires 0 <= i < |ds| => if ds[i].VisibilityLine? then Some(ds[i].tokens) else None)
  }

  function ParentsGiven(ds: seq<Detail>): seq<Option<string>> {
    seq(|ds|, i requires 0 <= i < |ds| => if ds[i].CloneOfLine? then Some(ds[i].parent) else None)
  }

  predicate TakesAddress(d: Detail) {
    d.AddressTakenLine? || (d.ReferringLine? && exists r :: r in d.refs && r.kind == "addr")
  }

  /** Lists are concatenations over the lines of their kind. */
  ghost predicate GathersLists(cur: Symbol, ds: seq<Detail>, f: Symbol) {
    && f.called == cur.called + CallsIn(ds) && f.refs == cur.refs + RefsIn(ds)
    && f.indirect == cur.indirect + IndirectIn(ds) && f.flags == cur.flags + FlagsIn(ds)
  }

  /** A mark once seen stays. */
  ghost predicate GathersMarks(cur: Symbol, ds: seq<Detail>, f: Symbol) {
    && (f.addressTaken <==> cur.addressTaken || exists i :: 0 <= i < |ds| && TakesAddress(ds[i]))
    && (f.bodyRemoved <==> cur.bodyRemoved || exists i :: 0 <= i < |ds| && ds[i].BodyRemovedLine?)
  }

  /** Of everything else the last line decides. */
  ghost predicate TakesLast(cur: Symbol, ds: seq<Detail>, f: Symbol) {
    && IsLastSome(KindsGiven(ds), cur.kind, f.kind) && IsLastSome(DefinitionsGiven(ds), cur.analyzed, f.analyzed)
    && IsLastSome(VisibilitiesGiven(ds), cur.visibility, f.visibility)
    && IsLastSome(ParentsGiven(ds), cur.cloneOf, f.cloneOf)
  }

  ghost predicate KeepsNames(cur: Symbol, f: Symbol) {
    f.localId == cur.localId && f.name == cur.name && f.linkageName == cur.linkageName
  }

  lemma {:induction false} FlagsArePlain(tokens: seq<string>)
    ensures Flags(tokens) == PlainTokens(tokens)
  {
    if tokens != [] {
      FlagsArePlain(tokens[..|tokens| - 1]);
      var t := tokens[|tokens| - 1];
      assert "count:" <= t && |t| > 6 ==> t[..6] == "count:";
    }
  }

  lemma OneLine(d: Detail)
    ensures CallsIn([d]) == (if d.CallsLine? then d.calls else [])
    ensures RefsIn([d]) == (if d.ReferencesLine? then d.refs else [])
    ensures IndirectIn([d]) == (if d.IndirectLine? then [d.targets] else [])
    ensures FlagsIn([d]) == (if d.FlagsLine? then PlainTokens(d.tokens) else [])
  {
    assert [d][1..] == [];
    hide PlainTokens;
  }

  lemma OneLineLists(cur: Symbol, d: Detail)
    ensures GathersLists(cur, [d], Read(cur, d))
  {
    if d.FlagsLine? {
      FlagsArePlain(d.tokens);
    }
    OneLine(d);
    hide PlainTokens, Flags, CallsIn, RefsIn, IndirectIn, FlagsIn;
  }

  lemma ListsPeel(ds: seq<Detail>)
    requires ds != []
    ensures CallsIn(ds) == CallsIn([ds[0]]) + CallsIn(ds[1..]) && RefsIn(ds) == RefsIn([ds[0]]) + RefsIn(ds[1..])
    ensures IndirectIn(ds) == IndirectIn([ds[0]]) + IndirectIn(ds[1..])
    ensures FlagsIn(ds) == FlagsIn([ds[0]]) + FlagsIn(ds[1..])
  {
    OneLine(ds[0]);
    hide PlainTokens;
  }

  lemma {:induction false} ListsGathered(cur: Symbol, ds: seq<Detail>)
    ensures GathersLists(cur, ds, ReadAll(cur, ds))
    decreases |ds|
  {
    if ds != [] {
      var d, rest := ds[0], ds[1..];
      OneLineLists(cur, d);
      ListsGathered(Read(cur, d), rest);
      ListsPeel(ds);
      hide Read, CallsIn, RefsIn, IndirectIn, FlagsIn;
      Regrouped(cur.called, CallsIn([d]), CallsIn(rest));
      Regrouped(cur.refs, RefsIn([d]), RefsIn(rest));
      Regrouped(cur.indirect, IndirectIn([d]), IndirectIn(rest));
      Regrouped(cur.flags, FlagsIn([d]), FlagsIn(rest));
    }
  }

  lemma {:induction false} MarksGathered(cur: Symbol, ds: seq<Detail>)
    ensures GathersMarks(cur, ds, ReadAll(cur, ds))
    decreases |ds|
  {
    if ds != [] {
      var rest := ds[1..];
      MarksGathered(Read(cur, ds[0]), rest);
      assert forall i :: 0 <= i < |rest| ==> rest[i] == ds[i + 1];
      assert (exists i :: 0 <= i < |ds| && TakesAddress(ds[i]))
        <==> TakesAddress(ds[0]) || exists i :: 0 <= i < |rest| && TakesAddress(rest[i]);
      assert (exists i :: 0 <= i < |ds| && ds[i].BodyRemovedLine?)
        <==> ds[0].BodyRemovedLine? || exists i :: 0 <= i < |rest| && rest[i].BodyRemovedLine?;
      hide TakesAddress;
    }
  }

  lemma {:induction false} NamesKept(cur: Symbol, ds: seq<Detail>)
    ensures KeepsNames(cur, ReadAll(cur, ds))
    decreases |ds|
  {
    if ds != [] {
      NamesKept(Read(cur, ds[0]), ds[1..]);
    }
  }

  lemma LastSomeGrows<T(!new)>(first: seq<Option<T>>, rest: seq<Option<T>>, before: T, r: T)
    requires |first| == 1 && IsLastSome(rest, first[0].GetOr(before), r)
    ensures IsLastSome(first + rest, before, r)
  {
    var given := first + rest;
    assert forall j :: 0 <= j < |rest| ==> given[j + 1] == rest[j];
    if i :| 0 <= i < |rest| && rest[i].Some? {
      assert given[i + 1].Some?;
      var k :| 0 <= k < |rest| && rest[k] == Some(r) && forall j :: k < j < |rest| ==> rest[j].None?;
      assert given[k + 1] == Some(r);
      forall j | k + 1 < j < |given| ensures given[j].None? {
        assert given[j] == rest[j - 1];
      }
    } else {
      forall j | 0 < j < |given| ensures given[j].None? {
        assert given[j] == rest[j - 1];
      }
      assert given[0] == first[0];
    }
  }

  lemma OneLineLast(cur: Symbol, d: Detail)
    ensures var next := Read(cur, d);
            && next.kind == KindsGiven([d])[0].GetOr(cur.kind)
            && next.analyzed == DefinitionsGiven([d])[0].GetOr(cur.analyzed)
            && next.visibility == VisibilitiesGiven([d])[0].GetOr(cur.visibility)
            && next.cloneOf == ParentsGiven([d])[0].GetOr(cur.cloneOf)
  {
  }

  lemma GivenPeels(ds: seq<Detail>)
    requires ds != []
    ensures KindsGiven(ds) == KindsGiven([ds[0]]) + KindsGiven(ds[1..])
    ensures DefinitionsGiven(ds) == DefinitionsGiven([ds[0]]) + DefinitionsGiven(ds[1..])
    ensures VisibilitiesGiven(ds) == VisibilitiesGiven([ds[0]]) + VisibilitiesGiven(ds[1..])
    ensures ParentsGiven(ds) == ParentsGiven([ds[0]]) + ParentsGiven(ds[1..])
  {
  }

  lemma {:induction false} LastTaken(cur: Symbol, ds: seq<Detail>)
    ensures TakesLast(cur, ds, ReadAll(cur, ds))
    decreases |ds|
  {
    if ds != [] {
      var d, next, f := ds[0], Read(cur, ds[0]), ReadAll(cur, ds);
      LastTaken(next, ds[1..]);
      OneLineLast(cur, d);
      GivenPeels(ds);
      assert |KindsGiven([d])| == |DefinitionsGiven([d])| == |VisibilitiesGiven([d])| == |ParentsGiven([d])| == 1;
      hide IsLastSome, Read, KindsGiven, DefinitionsGiven, VisibilitiesGiven, ParentsGiven;
      LastSomeGrows(KindsGiven([d]), KindsGiven(ds[1..]), cur.kind, f.kind);
      LastSomeGrows(DefinitionsGiven([d]), DefinitionsGiven(ds[1..]), cur.analyzed, f.analyzed);
      LastSomeGrows(VisibilitiesGiven([d]), VisibilitiesGiven(ds[1..]), cur.visibility, f.visibility);
      LastSomeGrows(ParentsGiven([d]), ParentsGiven(ds[1..]), cur.cloneOf, f.cloneOf);
    }
  }

  const BLANK := Symbol("", "", "", "", false, false, [], false, [], "", [], [], [])

  /** A symbol says what its block does, and starts from nothing. */
  ghost predicate Describes(b: Block, f: Symbol) {
    && f.localId == b.id && f.name == b.name && f.linkageName == b.linkageName
    && GathersLists(BLANK, b.details, f) && GathersMarks(BLANK, b.details, f) && TakesLast(BLANK, b.details, f)
  }

  lemma ObservedAsDescribed(b: Block)
    ensures Describes(b, Observe(b))
  {
    var cur := Fresh(b.id, b.name, b.linkageName);
    ListsGathered(cur, b.details);
    MarksGathered(cur, b.details);
    LastTaken(cur, b.details);
    NamesKept(cur, b.details);
    hide ReadAll, IsLastSome, CallsIn, RefsIn, IndirectIn, FlagsIn;
  }

  ghost predicate DescribesEach(bs: seq<Block>, observations: seq<Symbol>) {
    |observations| == |bs| && forall i :: 0 <= i < |bs| ==> Describes(bs[i], observations[i])
  }

  lemma {:induction false} EachObservedAsDescribed(bs: seq<Block>)
    ensures DescribesEach(bs, ObserveAll(bs))
  {
    hide Describes, Observe;
    if bs != [] {
      ObservedAsDescribed(bs[0]);
      EachObservedAsDescribed(bs[1..]);
    }
  }

  // ----- the line machine cuts the same blocks -----

  function Flushed(cur: Option<Symbol>): seq<Symbol> {
    match cur case Some(f) => [f] case None => []
  }

  /** The observations the machine still makes of the remaining lines, with cur in flight. */
  function Observations(cur: Option<Symbol>, lines: seq<Line>): seq<Symbol>
    decreases |lines|
  {
    if lines == [] then Flushed(cur)
    else
      match lines[0]
      case Indented(d) =>
        Observations(if cur.Some? then Some(Read(cur.value, d)) else None, lines[1..])
      case Header(id, name, linkageName) =>
        Flushed(cur) + Observations(Some(Fresh(id, name, linkageName)), lines[1..])
      case _ => Flushed(cur) + Observations(None, lines[1..])
  }

  lemma {:induction false} InFlight(cur: Symbol, lines: seq<Line>)
    ensures Observations(Some(cur), lines)
         == [ReadAll(cur, Run(lines))] + Observations(None, lines[|Run(lines)|..])
    decreases |lines|
  {
    hide Read;
    if lines != [] && lines[0].Indented? {
      var d := lines[0].detail;
      var rest := lines[1..];
      InFlight(Read(cur, d), rest);
      assert Run(lines)[1..] == Run(rest);
      assert lines[|Run(lines)|..] == rest[|Run(rest)|..];
    } else {
      assert lines[0..] == lines;
    }
  }

  /** The machine's observations are those of the header-led blocks, one each, in order. */
  lemma {:induction false} MachineCutsBlocks(lines: seq<Line>)
    ensures Observations(None, lines) == ObserveAll(Blocks(lines))
    decreases |lines|
  {
    if lines != [] {
      if lines[0].Header? {
        var cur := Fresh(lines[0].id, lines[0].name, lines[0].linkageName);
        var rest := lines[1..];
        var details := Run(rest);
        InFlight(cur, rest);
        assert lines[1 + |details|..] == rest[|details|..];
        MachineCutsBlocks(rest[|details|..]);
        var bs := Blocks(lines);
        assert bs[0] == Block(lines[0].id, lines[0].name, lines[0].linkageName, details);
        assert bs[1..] == Blocks(rest[|details|..]);
      } else {
        MachineCutsBlocks(lines[1..]);
      }
    }
  }

  function MergeOnto(dst: map<string, Symbol>, observations: seq<Symbol>): map<string, Symbol>
    decreases |observations|
  {
    if observations == [] then dst else MergeOnto(Merged(dst, observations[0]), observations[1..])
  }

  lemma {:induction false} MergeContinues(done: seq<Symbol>, more: seq<Symbol>)
    ensures MergeOnto(MergeAll(done), more) == MergeAll(done + more)
    decreases |more|
  {
    hide Merged;
    if more == [] {
      assert done + more == done;
    } else {
      var longer := done + [more[0]];
      assert longer[..|longer| - 1] == done;
      MergeContinues(longer, more[1..]);
      assert longer + more[1..] == done + more;
    }
  }

  class Parser {
    var symbols: map<string, Symbol>
    var trivialNeeded: seq<string>
    var cur: Option<Symbol>

    constructor ()
      ensures symbols == map[] && trivialNeeded == [] && cur == None
    {
      symbols, trivialNeeded, cur := map[], [], None;
    }

    /** mergeSymbol: the stored record's fields are overwritten one after another. */
    method MergeSymbol(obs: Symbol)
      modifies this`symbols
      ensures symbols == Merged(old(symbols), obs)
    {
      if obs.localId !in symbols {
        symbols := symbols[obs.localId := obs];
        return;
      }
      var prev := symbols[obs.localId];
      prev := MergeNames(prev, obs);
      prev := MergeLists(prev, obs);
      symbols := symbols[obs.localId := prev];
    }

    /** Names keep the newer, booleans are or-ed, and the clone parent is only overwritten by one that is set. */
    static method MergeNames(rec: Symbol, obs: Symbol) returns (prev: Symbol)
      ensures prev == Combine(rec, obs).(visibility := rec.visibility, flags := rec.flags, refs := rec.refs,
                                         called := rec.called, indirect := rec.indirect)
    {
      var name, linkageName, kind, cloneOf := rec.name, rec.linkageName, rec.kind, rec.cloneOf;
      if obs.name != "" {
        name := obs.name;
      }
      if obs.linkageName != "" {
        linkageName := obs.linkageName;
      }
      if obs.kind != "" {
        kind := obs.kind;
      }
      if obs.cloneOf != "" {
        cloneOf := obs.cloneOf;
      }
      prev := rec.(name := name, linkageName := linkageName, kind := kind, cloneOf := cloneOf,
                   analyzed := rec.analyzed || obs.analyzed,
                   bodyRemoved := rec.bodyRemoved || obs.bodyRemoved,
                   addressTaken := rec.addressTaken || obs.addressTaken);
    }

    /** Lists: the later wins on ties, and an empty one never replaces anything. */
    static method MergeLists(rec: Symbol, obs: Symbol) returns (prev: Symbol)
      ensures prev == rec.(visibility := Richer(rec.visibility, obs.visibility), flags := Richer(rec.flags, obs.flags),
                           refs := Richer(rec.refs, obs.refs), called := Richer(rec.called, obs.called),
                           indirect := Richer(rec.indirect, obs.indirect))
    {
      var visibility, flags := rec.visibility, rec.flags;
      if |obs.visibility| >= |visibility| && |obs.visibility| > 0 {
        visibility := obs.visibility;
      }
      if |obs.flags| >= |flags| && |obs.flags| > 0 {
        flags := obs.flags;
      }
      var refs, called, indirect := rec.refs, rec.called, rec.indirect;
      if |obs.refs| >= |refs| && |obs.refs| > 0 {
        refs := obs.refs;
      }
      if |obs.called| >= |called| && |obs.called| > 0 {
        called := obs.called;
      }
      if |obs.indirect| >= |indirect| && |obs.indirect| > 0 {
        indirect := obs.indirect;
      }
      prev := rec.(visibility := visibility, flags := flags, refs := refs, called := called, indirect := indirect);
    }

    method Flush()
      modifies this`symbols, this`cur
      ensures cur == None && symbols == MergeOnto(old(symbols), Flushed(old(cur)))
    {
      if cur.Some? {
        MergeSymbol(cur.value);
        cur := None;
      }
    }

    method Take(line: Line)
      modifies this
      ensures forall rest :: MergeOnto(symbols, Observations(cur, rest))
                          == MergeOnto(old(symbols), Observations(old(cur), [line] + rest))
      ensures trivialNeeded == old(trivialNeeded) + if line.TriviallyNeeded? then line.ids else []
    {
      ghost var symbols0, cur0 := symbols, cur;
      match line {
        case TriviallyNeeded(ids) =>
          Flush();
          trivialNeeded := trivialNeeded + ids;
        case Header(id, name, linkageName) =>
          Flush();
          cur := Some(Fresh(id, name, linkageName));
        case Other =>
          Flush();
        case Indented(d) =>
          if cur.Some? {
            cur := Some(Read(cur.value, d));
          }
      }
      forall rest ensures MergeOnto(symbols, Observations(cur, rest))
                       == MergeOnto(symbols0, Observations(cur0, [line] + rest))
      {
        assert ([line] + rest)[1..] == rest;
        if !line.Indented? {
          FlushFirst(symbols0, cur0, Observations(cur, rest));
        }
      }
    }
  }

  lemma FlushFirst(dst: map<string, Symbol>, cur: Option<Symbol>, more: seq<Symbol>)
    ensures MergeOnto(MergeOnto(dst, Flushed(cur)), more) == MergeOnto(dst, Flushed(cur) + more)
  {
    if cur.Some? {
      assert ([cur.value] + more)[1..] == more;
    } else {
      assert [] + more == more;
    }
  }

  // ----- what the fold keeps -----

  /** The observations of one symbol, in order. */
  function Of(observations: seq<Symbol>, id: string): seq<Symbol> {
    if observations == [] then []
    else
      var o := observations[|observations| - 1];
      Of(observations[..|observations| - 1], id) + if o.localId == id then [o] else []
  }

  /** The last of the longest lists; empty only when all are. */
  ghost predicate IsLastLongest<T>(lists: seq<seq<T>>, r: seq<T>) {
    && (forall j :: 0 <= j < |lists| ==> |lists[j]| <= |r|)
    && (r == [] || exists i :: 0 <= i < |lists| && lists[i] == r && forall j :: i < j < |lists| ==> |lists[j]| < |r|)
  }

  /** The last non-empty string; empty only when all are. */
  ghost predicate IsLastGiven(names: seq<string>, r: string) {
    if r == "" then forall j :: 0 <= j < |names| ==> names[j] == ""
    else exists i :: 0 <= i < |names| && names[i] == r && forall j :: i < j < |names| ==> names[j] == ""
  }

  lemma RicherKeepsLastLongest<T>(lists: seq<seq<T>>, r: seq<T>, obs: seq<T>)
    requires IsLastLongest(lists, r)
    ensures IsLastLongest(lists + [obs], Richer(r, obs))
  {
    var more := lists + [obs];
    if |obs| >= |r| && |obs| > 0 {
      assert more[|lists|] == obs;
    } else if r != [] {
      var i :| 0 <= i < |lists| && lists[i] == r && forall j :: i < j < |lists| ==> |lists[j]| < |r|;
      assert more[i] == r;
    }
  }

  lemma NewerKeepsLastGiven(names: seq<string>, r: string, obs: string)
    requires IsLastGiven(names, r)
    ensures IsLastGiven(names + [obs], Newer(r, obs))
  {
    var more := names + [obs];
    if obs != "" {
      assert more[|names|] == obs;
    } else if r != "" {
      var i :| 0 <= i < |names| && names[i] == r && forall j :: i < j < |names| ==> names[j] == "";
      assert more[i] == r;
    }
  }

  function Each<T>(fs: seq<Symbol>, field: Symbol -> T): (r: seq<T>)
    ensures |r| == |fs| && forall i :: 0 <= i < |fs| ==> r[i] == field(fs[i])
  {
    seq(|fs|, i requires 0 <= i < |fs| => field(fs[i]))
  }

  lemma EachAppends<T>(fs: seq<Symbol>, f: Symbol, field: Symbol -> T)
    ensures Each(fs + [f], field) == Each(fs, field) + [field(f)]
  {
  }

  function NameOf(f: Symbol): string { f.name }
  function LinkageNameOf(f: Symbol): string { f.linkageName }
  function KindOf(f: Symbol): string { f.kind }
  function CloneOf(f: Symbol): string { f.cloneOf }
  function VisibilityOf(f: Symbol): seq<string> { f.visibility }
  function FlagsOf(f: Symbol): seq<string> { f.flags }
  function RefsOf(f: Symbol): seq<Ref> { f.refs }
  function CalledOf(f: Symbol): seq<Call> { f.called }
  function IndirectOf(f: Symbol): seq<nat> { f.indirect }

  /** r says of the observations everything the fold is meant to keep: a flag seen once stays, each list is
      the last of the longest, each name and the clone parent the last one given. */
  ghost predicate Summarises(fs: seq<Symbol>, r: Symbol) {
    SummarisesFlags(fs, r) && SummarisesLists(fs, r) && SummarisesNames(fs, r)
  }

  ghost predicate SummarisesFlags(fs: seq<Symbol>, r: Symbol) {
    && (r.analyzed <==> exists f :: f in fs && f.analyzed)
    && (r.bodyRemoved <==> exists f :: f in fs && f.bodyRemoved)
    && (r.addressTaken <==> exists f :: f in fs && f.addressTaken)
  }

  ghost predicate SummarisesLists(fs: seq<Symbol>, r: Symbol) {
    && IsLastLongest(Each(fs, VisibilityOf), r.visibility)
    && IsLastLongest(Each(fs, FlagsOf), r.flags)
    && IsLastLongest(Each(fs, RefsOf), r.refs)
    && IsLastLongest(Each(fs, CalledOf), r.called)
    && IsLastLongest(Each(fs, IndirectOf), r.indirect)
  }

  ghost predicate SummarisesNames(fs: seq<Symbol>, r: Symbol) {
    && IsLastGiven(Each(fs, NameOf), r.name)
    && IsLastGiven(Each(fs, LinkageNameOf), r.linkageName)
    && IsLastGiven(Each(fs, KindOf), r.kind)
    && IsLastGiven(Each(fs, CloneOf), r.cloneOf)
  }

  lemma ListGrows<T>(fs: seq<Symbol>, field: Symbol -> seq<T>, r: seq<T>, obs: Symbol)
    requires IsLastLongest(Each(fs, field), r)
    ensures IsLastLongest(Each(fs + [obs], field), Richer(r, field(obs)))
  {
    EachAppends(fs, obs, field);
    RicherKeepsLastLongest(Each(fs, field), r, field(obs));
  }

  lemma NameGrows(fs: seq<Symbol>, field: Symbol -> string, r: string, obs: Symbol)
    requires IsLastGiven(Each(fs, field), r)
    ensures IsLastGiven(Each(fs + [obs], field), Newer(r, field(obs)))
  {
    EachAppends(fs, obs, field);
    NewerKeepsLastGiven(Each(fs, field), r, field(obs));
  }

  lemma CombineSummarises(fs: seq<Symbol>, r: Symbol, obs: Symbol)
    requires Summarises(fs, r)
    ensures Summarises(fs + [obs], Combine(r, obs))
  {
    CombineFlags(fs, r, obs);
    CombineLists(fs, r, obs);
    CombineNames(fs, r, obs);
    hide SummarisesFlags, SummarisesLists, SummarisesNames, Combine;
  }

  lemma CombineFlags(fs: seq<Symbol>, r: Symbol, obs: Symbol)
    requires SummarisesFlags(fs, r)
    ensures SummarisesFlags(fs + [obs], Combine(r, obs))
  {
    hide Richer, Newer;
  }

  lemma CombineLists(fs: seq<Symbol>, r: Symbol, obs: Symbol)
    requires SummarisesLists(fs, r)
    ensures SummarisesLists(fs + [obs], Combine(r, obs))
  {
    hide IsLastLongest, Each, Richer, Newer;
    ListGrows(fs, VisibilityOf, r.visibility, obs);
    ListGrows(fs, FlagsOf, r.flags, obs);
    ListGrows(fs, RefsOf, r.refs, obs);
    ListGrows(fs, CalledOf, r.called, obs);
    ListGrows(fs, IndirectOf, r.indirect, obs);
  }

  lemma CombineNames(fs: seq<Symbol>, r: Symbol, obs: Symbol)
    requires SummarisesNames(fs, r)
    ensures SummarisesNames(fs + [obs], Combine(r, obs))
  {
    hide IsLastGiven, Each, Richer, Newer;
    NameGrows(fs, NameOf, r.name, obs);
    NameGrows(fs, LinkageNameOf, r.linkageName, obs);
    NameGrows(fs, KindOf, r.kind, obs);
    NameGrows(fs, CloneOf, r.cloneOf, obs);
  }

  lemma OneList<T>(obs: Symbol, field: Symbol -> seq<T>)
    ensures IsLastLongest(Each([obs], field), field(obs))
  {
    var lists := Each([obs], field);
    assert lists[0] == field(obs);
  }

  lemma OneName(obs: Symbol, field: Symbol -> string)
    ensures IsLastGiven(Each([obs], field), field(obs))
  {
    var names := Each([obs], field);
    assert names[0] == field(obs);
  }

  lemma OneSummarises(obs: Symbol)
    ensures Summarises([obs], obs)
  {
    hide IsLastLongest, IsLastGiven, Each;
    OneList(obs, VisibilityOf);
    OneList(obs, FlagsOf);
    OneList(obs, RefsOf);
    OneList(obs, CalledOf);
    OneList(obs, IndirectOf);
    OneName(obs, NameOf);
    OneName(obs, LinkageNameOf);
    OneName(obs, KindOf);
    OneName(obs, CloneOf);
  }

  /** After any number of tables, a symbol is in the table exactly when it was observed, and its record
      summarises all its observations. */
  lemma {:induction false} FoldSummarises(observations: seq<Symbol>, id: string)
    ensures id in MergeAll(observations) <==> Of(observations, id) != []
    ensures id in MergeAll(observations) ==> Summarises(Of(observations, id), MergeAll(observations)[id])
    ensures id in MergeAll(observations) ==> MergeAll(observations)[id].localId == id
  {
    if observations != [] {
      hide Summarises, Combine;
      var n := |observations| - 1;
      var o, before := observations[n], observations[..n];
      FoldSummarises(before, id);
      assert MergeAll(observations) == Merged(MergeAll(before), o);
      if o.localId == id {
        if id in MergeAll(before) {
          CombineSummarises(Of(before, id), MergeAll(before)[id], o);
        } else {
          OneSummarises(o);
          assert Of(observations, id) == [o];
        }
      } else {
        assert Of(observations, id) == Of(before, id);
      }
    }
  }

  /** A clone parent, once named, is never lost: the record always names one some table gave. */
  lemma CloneParentIsKept(observations: seq<Symbol>, k: nat)
    requires k < |observations| && observations[k].cloneOf != ""
    ensures var id := observations[k].localId;
            && id in MergeAll(observations)
            && MergeAll(observations)[id].cloneOf != ""
            && exists f :: f in observations && f.localId == id && f.cloneOf == MergeAll(observations)[id].cloneOf
  {
    var id := observations[k].localId;
    var fs := Of(observations, id);
    OfHolds(observations, id, observations[k]);
    FoldSummarises(observations, id);
    var r := MergeAll(observations)[id].cloneOf;
    hide MergeAll, Of;
    assert IsLastGiven(Each(fs, CloneOf), r);
    var f := GivenBySomeone(fs, r, observations[k]);
    OfHolds(observations, id, f);
  }

  lemma GivenBySomeone(fs: seq<Symbol>, r: string, g: Symbol) returns (f: Symbol)
    requires IsLastGiven(Each(fs, CloneOf), r) && g in fs && g.cloneOf != ""
    ensures f in fs && f.cloneOf == r && r != ""
  {
    var names := Each(fs, CloneOf);
    var j :| 0 <= j < |fs| && fs[j] == g;
    assert names[j] == g.cloneOf;
    var i :| 0 <= i < |names| && names[i] == r;
    f := fs[i];
  }

  lemma {:induction false} OfHolds(observations: seq<Symbol>, id: string, f: Symbol)
    ensures f in Of(observations, id) <==> f in observations && f.localId == id
  {
    if observations != [] {
      var n := |observations| - 1;
      OfHolds(observations[..n], id, f);
      assert observations == observations[..n] + [observations[n]];
    }
  }

  /** Every symbol observed, under its own id, with a record that summarises its observations. */
  ghost predicate IsTable(observations: seq<Symbol>, symbols: map<string, Symbol>) {
    forall id ::
      && (id in symbols <==> Of(observations, id) != [])
      && (id in symbols ==> symbols[id].localId == id && Summarises(Of(observations, id), symbols[id]))
  }

  lemma TableOf(observations: seq<Symbol>)
    ensures IsTable(observations, MergeAll(observations))
  {
    hide Summarises, MergeAll, Of;
    forall id
      ensures id in MergeAll(observations) <==> Of(observations, id) != []
      ensures id in MergeAll(observations) ==>
                && MergeAll(observations)[id].localId == id
                && Summarises(Of(observations, id), MergeAll(observations)[id])
    {
      FoldSummarises(observations, id);
    }
  }

  lemma TableIsRight(bs: seq<Block>)
    ensures exists observations :: DescribesEach(bs, observations) && IsTable(observations, MergeAll(ObserveAll(bs)))
  {
    EachObservedAsDescribed(bs);
    TableOf(ObserveAll(bs));
    hide DescribesEach, IsTable;
    assert DescribesEach(bs, ObserveAll(bs)) && IsTable(ObserveAll(bs), MergeAll(ObserveAll(bs)));
  }

  /** The parser's table is mergeSymbol folded once per header-led block, in order; each block's observation says
      what its lines do, and each record what its observations do. */
  method ParseCgraph(lines: seq<Line>) returns (symbols: map<string, Symbol>, trivialNeeded: seq<string>)
    ensures symbols == MergeAll(ObserveAll(Blocks(lines)))
    ensures trivialNeeded == TrivialIds(lines)
    ensures exists observations :: DescribesEach(Blocks(lines), observations) && IsTable(observations, symbols)
  {
    hide DescribesEach, IsTable;
    var p := new Parser();
    for i := 0 to |lines|
      invariant MergeOnto(p.symbols, Observations(p.cur, lines[i..])) == MergeOnto(map[], Observations(None, lines))
      invariant p.trivialNeeded == TrivialIds(lines[..i])
    {
      assert [lines[i]] + lines[i + 1..] == lines[i..];
      assert lines[..i + 1][..i] == lines[..i];
      p.Take(lines[i]);
    }
    assert lines[|lines|..] == [] && lines[..|lines|] == lines;
    p.Flush();
    MachineCutsBlocks(lines);
    MergeContinues([], ObserveAll(Blocks(lines)));
    assert [] + ObserveAll(Blocks(lines)) == ObserveAll(Blocks(lines));
    TableIsRight(Blocks(lines));
    return p.symbols, p.trivialNeeded;
  }
}
