/** Which parameter a register held on entry: the replay of x86-64 argument passing, set against the full
    assignment of section 3.2.3 of the System V AMD64 psABI. */
module ArgPassing {
  import opened Wrappers
  import opened CallTarget

  // ----- types, as far as passing them goes -----

  /** The classes of the psABI, as far as registers go: so many INTEGER and SSE registers (none at all for void
      and empty structures), the x87 classes, passed in memory but returned on the x87 stack, and MEMORY. */
  datatype Class = InRegisters(ints: nat, sses: nat) | X87 | Memory

  /** Type entries. Aggregates and base types that are no integers carry the class the psABI gives them, which
      DWARF alone does not determine: _Float128 and long double have one encoding and one size. A qualifier is
      a const, volatile, restrict or typedef entry; one without a type is a qualified void. _Atomic is an
      entry of its own kind. A subroutine type carries the text renderSubroutineType gives it. Other is any
      entry the code has no case for, and the type of a parameter that leaves it to another entry. */
  datatype Type =
    | Pointer(to: Option<Type>)
    | Enumeration(bytes: nat)
    | Base(encoding: Option<nat>, size: Option<nat>, abi: Class)
    | Aggregate(abi: Class)
    | Subroutine(text: string)
    | Qualified(inner: Type)
    | QualifiedVoid
    | Atomic(inner: Type)
    | Other(abi: Class)

  /** What a function returns, and whether its own entry says so: one that completes a declaration by
      DW_AT_specification leaves the type there. */
  datatype Return = Return(typ: Option<Type>, onEntry: bool)

  /** returnTypeOff */
  function Seen(ret: Return): Option<Type> {
    if ret.onEntry then ret.typ else None
  }

  const ENC_ADDRESS := 0x01
  const ENC_BOOLEAN := 0x02
  const ENC_SIGNED := 0x05
  const ENC_SIGNED_CHAR := 0x06
  const ENC_UNSIGNED := 0x07
  const ENC_UNSIGNED_CHAR := 0x08

  predicate IsIntegerEncoding(enc: nat) {
    enc in {ENC_ADDRESS, ENC_BOOLEAN, ENC_SIGNED, ENC_SIGNED_CHAR, ENC_UNSIGNED, ENC_UNSIGNED_CHAR}
  }

  /** The entry below the qualifiers the code follows. */
  function Core(t: Type): Type {
    if t.Qualified? then Core(t.inner) else t
  }

  function Depth(t: Type): nat {
    if t.Qualified? then 1 + Depth(t.inner) else 0
  }

  const STRIP_LIMIT := 32

  /** stripQualifiers: at most thirty-two entries are looked at. */
  method StripQualifiers(t: Type) returns (stripped: Option<Type>)
    ensures stripped == if Depth(t) < STRIP_LIMIT then Some(Core(t)) else None
  {
    var cur := t;
    for i := 0 to STRIP_LIMIT
      invariant Depth(t) == i + Depth(cur) && Core(t) == Core(cur)
    {
      if !cur.Qualified? {
        return Some(cur);
      }
      cur := cur.inner;
    }
    return None;
  }

  function Stripped(t: Type): Option<Type> {
    if Depth(t) < STRIP_LIMIT then Some(Core(t)) else None
  }

  /** Any enumeration passes, whatever its size. */
  predicate IsIntegerClass(t: Type) {
    match Stripped(t)
    case Some(Pointer(_)) => true
    case Some(Enumeration(_)) => true
    case Some(Base(Some(enc), Some(size), _)) => IsIntegerEncoding(enc) && size <= 8
    case _ => false
  }

  predicate IsAggregate(t: Option<Type>) {
    t.Some? && Stripped(t.value).Some? && Stripped(t.value).value.Aggregate?
  }

  // ----- the psABI's assignment -----

  /** The type below everything that does not change how it is passed, _Atomic included. */
  function Bare(t: Type): Type {
    if t.Qualified? || t.Atomic? then Bare(t.inner) else t
  }

  /** Integers up to eight bytes take one INTEGER register and up to sixteen a pair; wider ones, which only
      _BitInt makes, are in memory. */
  function ClassOfInteger(size: nat): Class {
    if size <= 8 then InRegisters(1, 0) else if size <= 16 then InRegisters(2, 0) else Memory
  }

  function ClassOf(t: Type): Class {
    match Bare(t)
    case Pointer(_) => InRegisters(1, 0)
    case Enumeration(bytes) => ClassOfInteger(bytes)
    case Base(enc, size, abi) =>
      if enc.Some? && size.Some? && IsIntegerEncoding(enc.value) then ClassOfInteger(size.value) else abi
    case Aggregate(abi) => abi
    case Other(abi) => abi
    case _ => InRegisters(0, 0)
  }

  /** Any return value of class MEMORY is written through a hidden pointer, which takes the first INTEGER
      register. */
  predicate HasHiddenPointer(ret: Return) {
    ret.typ.Some? && ClassOf(ret.typ.value) == Memory
  }

  /** rdi, rsi, rdx, rcx, r8, r9 by their DWARF numbers. */
  const INT_REGISTERS: seq<nat> := [5, 4, 1, 2, 8, 9]

  const SSE_REGISTERS := 8

  datatype Place = Registers(ints: seq<nat>, sses: nat) | Stack

  /** How many registers of each kind are taken. */
  datatype Taken = Taken(ints: nat, sses: nat)

  predicate Fits(c: Class, taken: Taken) {
    c.InRegisters? && taken.ints + c.ints <= |INT_REGISTERS| && taken.sses + c.sses <= SSE_REGISTERS
  }

  /** A parameter gets all its registers or none. */
  function PlaceOf(c: Class, taken: Taken): Place {
    if Fits(c, taken) then Registers(INT_REGISTERS[taken.ints..taken.ints + c.ints], c.sses) else Stack
  }

  function Take(c: Class, taken: Taken): Taken {
    if Fits(c, taken) then Taken(taken.ints + c.ints, taken.sses + c.sses) else taken
  }

  /** Where each parameter goes, when so many registers are taken. */
  function Places(params: seq<Type>, taken: Taken): (places: seq<Place>)
    ensures |places| == |params|
  {
    if params == [] then []
    else
      var c := ClassOf(params[0]);
      [PlaceOf(c, taken)] + Places(params[1..], Take(c, taken))
  }

  /** What is taken once these parameters have been placed. */
  function TakenBy(params: seq<Type>, taken: Taken): Taken {
    if params == [] then taken else TakenBy(params[1..], Take(ClassOf(params[0]), taken))
  }

  function AtFirst(ret: Return): Taken {
    Taken(if HasHiddenPointer(ret) then 1 else 0, 0)
  }

  function Assignment(params: seq<Type>, ret: Return): (places: seq<Place>)
    ensures |places| == |params|
  {
    Places(params, AtFirst(ret))
  }

  // ----- the code's shortcut -----

  /** The scan: the i-th parameter is in the i-th register as long as all so far are of the integer class. */
  method ArgIndexForReg(integerClass: seq<bool>, reg: nat) returns (index: int)
    ensures index == ArgIndex(integerClass, reg)
  {
    for i := 0 to |integerClass|
      invariant i <= |INT_REGISTERS|
      invariant forall j :: 0 <= j < i ==> integerClass[j] && INT_REGISTERS[j] != reg
    {
      if !integerClass[i] || i >= |INT_REGISTERS| {
        return -1;
      }
      if INT_REGISTERS[i] == reg {
        return i;
      }
    }
    return -1;
  }

  /** Where the register stands in the order, provided every parameter up to there is of the integer class. */
  function ArgIndex(integerClass: seq<bool>, reg: nat): (index: int)
    ensures index >= -1
    ensures index >= 0 ==>
              && index < |integerClass| && index < |INT_REGISTERS| && INT_REGISTERS[index] == reg
              && forall j :: 0 <= j <= index ==> integerClass[j]
  {
    var k := RankOf(reg, 0);
    if k < |INT_REGISTERS| && k < |integerClass| && (forall j :: 0 <= j <= k ==> integerClass[j]) then k else -1
  }

  function RankOf(reg: nat, from: nat): (k: nat)
    requires from <= |INT_REGISTERS|
    ensures from <= k <= |INT_REGISTERS|
    ensures k < |INT_REGISTERS| ==> INT_REGISTERS[k] == reg
    ensures forall j :: from <= j < k ==> INT_REGISTERS[j] != reg
    decreases |INT_REGISTERS| - from
  {
    if from == |INT_REGISTERS| || INT_REGISTERS[from] == reg then from else RankOf(reg, from + 1)
  }

  function IntegerClasses(params: seq<Type>): seq<bool> {
    seq(|params|, i requires 0 <= i < |params| => IsIntegerClass(params[i]))
  }

  /** The parameter the call-target route names for a register, or -1: aggregate returns are declined. */
  function RouteIndex(params: seq<Type>, ret: Return, reg: nat): int {
    if IsAggregate(Seen(ret)) then -1 else ArgIndex(IntegerClasses(params), reg)
  }

  // ----- the shortcut against the psABI -----

  lemma {:induction false} SameBelow(t: Type)
    ensures !Core(t).Atomic? ==> Bare(t) == Core(t)
    ensures Bare(Core(t)) == Bare(t)
  {
    if t.Qualified? {
      SameBelow(t.inner);
    }
  }

  /** An enumeration the code takes for an integer in one register, and that is in a pair or in memory. */
  predicate IsWideEnumeration(t: Type) {
    Stripped(t).Some? && Stripped(t).value.Enumeration? && Stripped(t).value.bytes > 8
  }

  /** The code's integer class is one INTEGER register, but for wide enumerations. */
  lemma IntegerClassIsOneRegister(t: Type)
    requires IsIntegerClass(t)
    ensures ClassOf(t) == InRegisters(1, 0) <==> !IsWideEnumeration(t)
    ensures ClassOf(t).InRegisters? ==> ClassOf(t).sses == 0
  {
    SameBelow(t);
  }

  lemma FirstPlaced(params: seq<Type>, taken: Taken)
    requires params != []
    ensures Places(params, taken)
         == [PlaceOf(ClassOf(params[0]), taken)] + Places(params[1..], Take(ClassOf(params[0]), taken))
  {
  }

  lemma {:induction false} PlacedBehind(params: seq<Type>, taken: Taken, i: nat)
    requires i < |params|
    ensures Places(params, taken)[i] == PlaceOf(ClassOf(params[i]), TakenBy(params[..i], taken))
    decreases i
  {
    hide ClassOf, PlaceOf, Take;
    if i > 0 {
      PlacedBehind(params[1..], Take(ClassOf(params[0]), taken), i - 1);
      assert params[..i][0] == params[0] && params[..i][1..] == params[1..][..i - 1];
    }
  }

  lemma {:induction false} NoSseTaken(params: seq<Type>, taken: Taken)
    requires forall p :: p in params ==> IsIntegerClass(p)
    requires taken.ints <= |INT_REGISTERS|
    ensures TakenBy(params, taken).sses == taken.sses && TakenBy(params, taken).ints <= |INT_REGISTERS|
  {
    hide ClassOf, IsIntegerClass;
    if params != [] {
      IntegerClassIsOneRegister(params[0]);
      NoSseTaken(params[1..], Take(ClassOf(params[0]), taken));
    }
  }

  /** While all parameters take one INTEGER register each, the assignment hands out the registers in order, and
      then the stack. */
  lemma {:induction false} IntegersGoInOrder(params: seq<Type>, ints: nat, i: nat)
    requires i < |params| && ints <= |INT_REGISTERS|
    requires forall j :: 0 <= j <= i ==> ClassOf(params[j]) == InRegisters(1, 0)
    ensures Places(params, Taken(ints, 0))[i]
         == if ints + i < |INT_REGISTERS| then Registers([INT_REGISTERS[ints + i]], 0) else Stack
    decreases i
  {
    hide ClassOf;
    if ints < |INT_REGISTERS| {
      assert INT_REGISTERS[ints..ints + 1] == [INT_REGISTERS[ints]];
    }
    if i > 0 {
      IntegersGoInOrder(params[1..], if ints < |INT_REGISTERS| then ints + 1 else ints, i - 1);
    }
  }

  lemma NamedAreIntegers(params: seq<Type>, ret: Return, reg: nat)
    requires RouteIndex(params, ret, reg) >= 0
    ensures var i := RouteIndex(params, ret, reg);
            && i < |params| && i < |INT_REGISTERS| && INT_REGISTERS[i] == reg
            && forall j :: 0 <= j <= i ==> IsIntegerClass(params[j])
  {
    var i := RouteIndex(params, ret, reg);
    forall j | 0 <= j <= i ensures IsIntegerClass(params[j]) {
      assert IntegerClasses(params)[j];
    }
  }

  lemma NamedFromItsRank(params: seq<Type>, ret: Return, i: nat)
    requires !IsAggregate(Seen(ret)) && i < |params| && i < |INT_REGISTERS|
    requires forall j :: 0 <= j <= i ==> IsIntegerClass(params[j])
    ensures RouteIndex(params, ret, INT_REGISTERS[i]) == i
  {
    hide IsIntegerClass;
    assert forall j :: 0 <= j <= i ==> IntegerClasses(params)[j];
  }

  // ----- case by case -----

  /** The class the psABI gives a type. Qualifiers, typedefs and _Atomic do not change it. */
  predicate IsPassedAs(t: Type, c: Class) {
    match t
    case Qualified(inner) => IsPassedAs(inner, c)
    case Atomic(inner) => IsPassedAs(inner, c)
    case Pointer(_) => c == InRegisters(1, 0)
    case Enumeration(bytes) => IsPassedByWidth(bytes, c)
    case Base(Some(enc), Some(size), abi) => if enc in {1, 2, 5, 6, 7, 8} then IsPassedByWidth(size, c) else c == abi
    case Base(_, _, abi) => c == abi
    case Aggregate(abi) => c == abi
    case Other(abi) => c == abi
    case Subroutine(_) => c == InRegisters(0, 0)
    case QualifiedVoid => c == InRegisters(0, 0)
  }

  predicate IsPassedByWidth(bytes: nat, c: Class) {
    if bytes <= 8 then c == InRegisters(1, 0) else if bytes <= 16 then c == InRegisters(2, 0) else c == Memory
  }

  lemma {:induction false} ClassIs(t: Type)
    ensures forall c :: IsPassedAs(t, c) <==> ClassOf(t) == c
  {
    match t
    case Qualified(inner) => ClassIs(inner);
    case Atomic(inner) => ClassIs(inner);
    case _ =>
  }

  /** The return value goes through a hidden pointer. */
  predicate TakesHiddenPointer(ret: Return) {
    ret.typ.Some? && IsPassedAs(ret.typ.value, Memory)
  }

  function IntsIn(places: seq<Place>): nat {
    if places == [] then 0 else (if places[0].Registers? then |places[0].ints| else 0) + IntsIn(places[1..])
  }

  function SsesIn(places: seq<Place>): nat {
    if places == [] then 0 else (if places[0].Registers? then places[0].sses else 0) + SsesIn(places[1..])
  }

  /** A parameter is in the next registers of rdi, rsi, rdx, rcx, r8, r9 if they and xmm0 to xmm7 still have all it
      needs, and else on the stack. */
  ghost predicate IsRightPlace(p: Type, ints: nat, sses: nat, place: Place) {
    exists c :: IsPassedAs(p, c) && place ==
      if c.InRegisters? && ints + c.ints <= 6 && sses + c.sses <= 8
      then Registers([5, 4, 1, 2, 8, 9][ints..ints + c.ints], c.sses) else Stack
  }

  /** Every parameter is in its right place, given the registers the hidden pointer and those before it have. */
  ghost predicate AreRightPlaces(params: seq<Type>, ret: Return, places: seq<Place>) {
    && |places| == |params|
    && forall i :: 0 <= i < |params| ==>
         IsRightPlace(params[i], (if TakesHiddenPointer(ret) then 1 else 0) + IntsIn(places[..i]), SsesIn(places[..i]),
                      places[i])
  }

  lemma PlaceIs(p: Type, taken: Taken)
    ensures IsRightPlace(p, taken.ints, taken.sses, PlaceOf(ClassOf(p), taken))
  {
    ClassIs(p);
    hide ClassOf, IsPassedAs;
    assert IsPassedAs(p, ClassOf(p));
  }

  lemma {:induction false} TakenIs(params: seq<Type>, taken: Taken, i: nat)
    requires i <= |params| && taken.ints <= 6
    ensures var t := TakenBy(params[..i], taken);
            && t.ints == taken.ints + IntsIn(Places(params, taken)[..i]) <= 6
            && t.sses == taken.sses + SsesIn(Places(params, taken)[..i])
    decreases i
  {
    hide ClassOf, Fits;
    var places := Places(params, taken);
    if i > 0 {
      var c := ClassOf(params[0]);
      var next, rest := Take(c, taken), params[1..];
      assert params[..i][0] == params[0] && params[..i][1..] == rest[..i - 1];
      assert places[..i][0] == PlaceOf(c, taken) && places[..i][1..] == Places(rest, next)[..i - 1];
      FitsInSix(c, taken);
      TakenIs(rest, next, i - 1);
    }
  }

  lemma FitsInSix(c: Class, taken: Taken)
    ensures Fits(c, taken) ==> c.InRegisters? && taken.ints + c.ints <= |INT_REGISTERS| == 6
  {
  }

  /** The assignment puts every parameter there. */
  lemma PlacesAreRight(params: seq<Type>, ret: Return)
    ensures AreRightPlaces(params, ret, Assignment(params, ret))
  {
    hide ClassOf, PlaceOf, TakenBy, IntsIn, SsesIn, IsRightPlace, IsPassedAs, Places;
    var places, first := Assignment(params, ret), AtFirst(ret);
    if ret.typ.Some? {
      ClassIs(ret.typ.value);
    }
    assert TakesHiddenPointer(ret) == HasHiddenPointer(ret);
    forall i | 0 <= i < |params|
      ensures IsRightPlace(params[i], first.ints + IntsIn(places[..i]), SsesIn(places[..i]), places[i])
    {
      PlacedBehind(params, first, i);
      TakenIs(params, first, i);
      PlaceIs(params[i], TakenBy(params[..i], first));
    }
  }

  lemma OneRightPlace(p: Type, ints: nat, sses: nat, here: Place, there: Place)
    requires IsRightPlace(p, ints, sses, here) && IsRightPlace(p, ints, sses, there)
    ensures here == there
  {
    ClassIs(p);
    hide IsPassedAs;
  }

  /** There is only one such assignment. */
  lemma {:induction false} OneAssignment(params: seq<Type>, ret: Return, places: seq<Place>, n: nat)
    requires AreRightPlaces(params, ret, places) && n <= |params|
    ensures places[..n] == Assignment(params, ret)[..n]
  {
    PlacesAreRight(params, ret);
    var other := Assignment(params, ret);
    hide Assignment, IsRightPlace, TakesHiddenPointer, IntsIn, SsesIn;
    if n > 0 {
      OneAssignment(params, ret, places, n - 1);
      var ints := (if TakesHiddenPointer(ret) then 1 else 0) + IntsIn(places[..n - 1]);
      OneRightPlace(params[n - 1], ints, SsesIn(places[..n - 1]), places[n - 1], other[n - 1]);
      assert places[..n] == places[..n - 1] + [places[n - 1]] && other[..n] == other[..n - 1] + [other[n - 1]];
    }
  }

  /** So many qualifiers over a type. */
  function Under(qualifiers: nat, t: Type): Type {
    if qualifiers == 0 then t else Qualified(Under(qualifiers - 1, t))
  }

  lemma {:induction false} UnderKeepsCore(n: nat, t: Type)
    requires !t.Qualified?
    ensures Core(Under(n, t)) == t && Depth(Under(n, t)) == n
  {
    if n > 0 {
      UnderKeepsCore(n - 1, t);
    }
  }

  lemma {:induction false} IsUnder(t: Type)
    ensures t == Under(Depth(t), Core(t)) && !Core(t).Qualified?
  {
    if t.Qualified? {
      IsUnder(t.inner);
    }
  }

  /** The type is this one, which is no qualifier, under fewer than thirty-two. */
  ghost predicate IsWithin(t: Type, core: Type) {
    !core.Qualified? && exists n: nat :: n < 32 && t == Under(n, core)
  }

  lemma StrippedIs(t: Type)
    ensures forall core :: IsWithin(t, core) <==> Stripped(t) == Some(core)
  {
    IsUnder(t);
    forall core | IsWithin(t, core) ensures Stripped(t) == Some(core) {
      var n: nat :| n < 32 && t == Under(n, core);
      UnderKeepsCore(n, core);
    }
  }

  /** What the code takes for an integer: pointers, enumerations, and base types of six encodings up to eight bytes. */
  ghost predicate LooksInteger(t: Type) {
    exists core :: IsWithin(t, core) && match core
      case Pointer(_) => true
      case Enumeration(_) => true
      case Base(Some(enc), Some(size), _) => enc in {1, 2, 5, 6, 7, 8} && size <= 8
      case _ => false
  }

  /** What it takes for an aggregate. */
  ghost predicate LooksAggregate(ret: Return) {
    ret.onEntry && ret.typ.Some? && exists core: Type :: IsWithin(ret.typ.value, core) && core.Aggregate?
  }

  lemma LooksAre(t: Type, ret: Return)
    ensures LooksInteger(t) <==> IsIntegerClass(t)
    ensures LooksAggregate(ret) <==> IsAggregate(Seen(ret))
  {
    hide IsWithin, Stripped;
    StrippedIs(t);
    if ret.typ.Some? {
      StrippedIs(ret.typ.value);
    }
    if Stripped(t).Some? {
      assert IsWithin(t, Stripped(t).value);
    }
  }

  /** The i-th of rdi, rsi, rdx, rcx, r8, r9, every parameter up to there looks like an integer, and the return is not
      declined. */
  ghost predicate IsNamed(params: seq<Type>, ret: Return, reg: nat, i: nat) {
    && i < |params| && i < 6 && reg == [5, 4, 1, 2, 8, 9][i] && !LooksAggregate(ret)
    && forall j :: 0 <= j <= i ==> LooksInteger(params[j])
  }

  /** The route names just these. */
  lemma RouteIs(params: seq<Type>, ret: Return, reg: nat, i: nat)
    ensures RouteIndex(params, ret, reg) == i <==> IsNamed(params, ret, reg, i)
  {
    hide IsIntegerClass, LooksInteger, LooksAggregate, IsAggregate;
    LooksAre(Pointer(None), ret);
    forall p ensures LooksInteger(p) <==> IsIntegerClass(p) {
      LooksAre(p, ret);
    }
    if IsNamed(params, ret, reg, i) {
      NamedFromItsRank(params, ret, i);
    }
    if RouteIndex(params, ret, reg) == i {
      NamedAreIntegers(params, ret, reg);
    }
  }

  // ----- right, sound and complete -----

  /** The i-th parameter takes one INTEGER register, and the hidden pointer and the parameters before it have
      taken i of them. */
  predicate InOrder(params: seq<Type>, ret: Return, i: nat)
    requires i < |params|
  {
    !IsWideEnumeration(params[i]) && TakenBy(params[..i], AtFirst(ret)).ints == i
  }

  /** A parameter the route names is in that register exactly when it is no wide enumeration and as many INTEGER
      registers were taken before it as there are parameters before it. */
  lemma RouteIsSound(params: seq<Type>, ret: Return, reg: nat)
    requires RouteIndex(params, ret, reg) >= 0
    ensures RouteIndex(params, ret, reg) < |params|
    ensures Assignment(params, ret)[RouteIndex(params, ret, reg)] == Registers([reg], 0)
       <==> InOrder(params, ret, RouteIndex(params, ret, reg))
  {
    NamedAreIntegers(params, ret, reg);
    var i := RouteIndex(params, ret, reg);
    PlacedBehind(params, AtFirst(ret), i);
    NoSseTaken(params[..i], AtFirst(ret));
    IntegerClassIsOneRegister(params[i]);
    OneRegister(ClassOf(params[i]), TakenBy(params[..i], AtFirst(ret)), i);
  }

  lemma OneRegister(c: Class, taken: Taken, i: nat)
    requires i < |INT_REGISTERS| && taken.sses == 0 && (c.InRegisters? ==> c.sses == 0)
    ensures PlaceOf(c, taken) == Registers([INT_REGISTERS[i]], 0) <==> c == InRegisters(1, 0) && taken.ints == i
  {
    if Fits(c, taken) {
      var given := INT_REGISTERS[taken.ints..taken.ints + c.ints];
      assert given == [INT_REGISTERS[i]] ==> |given| == 1 && given[0] == INT_REGISTERS[i];
      if c.ints == 1 {
        assert given == [INT_REGISTERS[taken.ints]];
      }
    }
  }

  /** Every register the route names a parameter for did hold that parameter. */
  ghost predicate AlwaysRight(params: seq<Type>, ret: Return) {
    forall reg :: RouteIndex(params, ret, reg) >= 0 ==>
      Assignment(params, ret)[RouteIndex(params, ret, reg)] == Registers([reg], 0)
  }

  /** The route names no parameter for any register. */
  predicate Declines(params: seq<Type>, ret: Return) {
    IsAggregate(Seen(ret)) || params == [] || !IsIntegerClass(params[0])
  }

  /** A wide enumeration among the first six parameters, behind none but such as are of the integer class. */
  predicate HasWideEnumeration(params: seq<Type>) {
    exists j :: 0 <= j < |params| && j < |INT_REGISTERS| && WideBehindIntegers(params, j)
  }

  predicate WideBehindIntegers(params: seq<Type>, j: nat)
    requires j < |params|
  {
    IsWideEnumeration(params[j]) && forall l :: 0 <= l < j ==> IsIntegerClass(params[l])
  }

  /** A parameter that takes one INTEGER register, behind none but such, within the six: the route finds it from
      its register unless the return is declined, and the psABI puts it there unless there is a hidden pointer. */
  lemma RouteIsComplete(params: seq<Type>, ret: Return, i: nat)
    requires i < |params| && i < |INT_REGISTERS|
    requires forall j :: 0 <= j <= i ==> IsIntegerClass(params[j]) && !IsWideEnumeration(params[j])
    ensures RouteIndex(params, ret, INT_REGISTERS[i]) == if IsAggregate(Seen(ret)) then -1 else i
    ensures Assignment(params, ret)[i] == Registers([INT_REGISTERS[i]], 0) <==> !HasHiddenPointer(ret)
  {
    forall j | 0 <= j <= i ensures ClassOf(params[j]) == InRegisters(1, 0) {
      IntegerClassIsOneRegister(params[j]);
    }
    if !IsAggregate(Seen(ret)) {
      NamedFromItsRank(params, ret, i);
    }
    hide HasHiddenPointer, IsAggregate, IsWideEnumeration, IsIntegerClass, ClassOf;
    IntegersGoInOrder(params, AtFirst(ret).ints, i);
  }

  /** The route is right for every register exactly when it declines them all, or there is neither a hidden
      pointer nor a wide enumeration where it would count. */
  lemma RouteIsRightExactlyWhen(params: seq<Type>, ret: Return)
    ensures AlwaysRight(params, ret)
       <==> Declines(params, ret) || (!HasHiddenPointer(ret) && !HasWideEnumeration(params))
  {
    hide HasHiddenPointer, IsAggregate, IsWideEnumeration, IsIntegerClass, ClassOf, RouteIndex, Places;
    if Declines(params, ret) {
      NothingIsNamed(params, ret);
    } else if HasHiddenPointer(ret) {
      NamedFromItsRank(params, ret, 0);
      RouteIsSound(params, ret, INT_REGISTERS[0]);
      assert params[..0] == [];
    } else if HasWideEnumeration(params) {
      var j :| 0 <= j < |params| && j < |INT_REGISTERS| && WideBehindIntegers(params, j);
      WideIsInteger(params[j]);
      NamedFromItsRank(params, ret, j);
      RouteIsSound(params, ret, INT_REGISTERS[j]);
    } else {
      forall reg | RouteIndex(params, ret, reg) >= 0
        ensures RouteIndex(params, ret, reg) < |params|
        ensures Assignment(params, ret)[RouteIndex(params, ret, reg)] == Registers([reg], 0)
      {
        NamedAreIntegers(params, ret, reg);
        var i := RouteIndex(params, ret, reg);
        forall j | 0 <= j <= i ensures !IsWideEnumeration(params[j]) {
          assert !WideBehindIntegers(params, j);
        }
        RouteIsComplete(params, ret, i);
      }
    }
  }

  lemma WideIsInteger(t: Type)
    requires IsWideEnumeration(t)
    ensures IsIntegerClass(t)
  {
  }

  lemma NothingIsNamed(params: seq<Type>, ret: Return)
    requires Declines(params, ret)
    ensures forall reg :: RouteIndex(params, ret, reg) == -1
  {
    forall reg ensures RouteIndex(params, ret, reg) == -1 {
      if RouteIndex(params, ret, reg) >= 0 {
        NamedAreIntegers(params, ret, reg);
      }
    }
  }

  /** A hidden pointer that the code's guard does not decline, before a first parameter of the integer class. */
  predicate SlipsThrough(params: seq<Type>, ret: Return) {
    HasHiddenPointer(ret) && !Declines(params, ret)
  }

  /** Under a hidden pointer the route declines every register exactly when nothing slips through. */
  lemma HiddenPointerIsDeclined(params: seq<Type>, ret: Return)
    requires HasHiddenPointer(ret)
    ensures (forall reg :: RouteIndex(params, ret, reg) == -1) <==> !SlipsThrough(params, ret)
  {
    if SlipsThrough(params, ret) {
      NamedFromItsRank(params, ret, 0);
    } else {
      NothingIsNamed(params, ret);
    }
  }

  /** The return types of class MEMORY that the guard lets pass: those left to another entry, those under
      thirty-two qualifiers or more, those under _Atomic, and any that are no aggregates. */
  lemma GuardPasses(ret: Return)
    requires HasHiddenPointer(ret)
    ensures !IsAggregate(Seen(ret))
       <==> || !ret.onEntry || Depth(ret.typ.value) >= STRIP_LIMIT || Core(ret.typ.value).Atomic?
            || Core(ret.typ.value).Base? || Core(ret.typ.value).Enumeration? || Core(ret.typ.value).Other?
  {
    SameBelow(ret.typ.value);
  }

  /** What slipping through does: the hidden pointer is in rdi and the first parameter behind it, but the route
      takes the parameter to be in rdi. */
  lemma TakenForTheHiddenPointer(param: Type, ret: Return)
    requires SlipsThrough([param], ret)
    ensures RouteIndex([param], ret, INT_REGISTERS[0]) == 0
    ensures Assignment([param], ret) == [PlaceOf(ClassOf(param), Taken(1, 0))]
    ensures !IsWideEnumeration(param) ==> Assignment([param], ret) == [Registers([INT_REGISTERS[1]], 0)]
  {
    IntegerClassIsOneRegister(param);
    hide ClassOf, IsIntegerClass, IsWideEnumeration, HasHiddenPointer, IsAggregate, RouteIndex, PlaceOf, Take;
    NamedFromItsRank([param], ret, 0);
    OneRegister(ClassOf(param), Taken(1, 0), 1);
    FirstPlaced([param], Taken(1, 0));
  }

  const CALLBACK := Pointer(Some(Subroutine("void (void)")))

  const HOOK := Pointer(Some(Subroutine("int (void)")))

  /** One of each: a structure under thirty-two qualifiers, an _Atomic structure, a _BitInt(256), and a structure
      returned by a function whose entry completes a declaration. */
  lemma FourThatSlip(ret: Return)
    requires || ret == Return(Some(Under(STRIP_LIMIT, Aggregate(Memory))), true)
             || ret == Return(Some(Atomic(Aggregate(Memory))), true)
             || ret == Return(Some(Base(Some(ENC_SIGNED), Some(32), Memory)), true)
             || ret == Return(Some(Aggregate(Memory)), false)
    ensures && SlipsThrough([CALLBACK], ret) && FnPtrSignature(CALLBACK) == Some("void (void)")
            && RouteIndex([CALLBACK], ret, 5) == 0
            && Assignment([CALLBACK], ret) == [Registers([4], 0)]
  {
    Callback();
    if ret == Return(Some(Under(STRIP_LIMIT, Aggregate(Memory))), true) {
      UnderKeepsCore(STRIP_LIMIT, Aggregate(Memory));
      SameBelow(ret.typ.value);
    }
    assert HasHiddenPointer(ret) && !IsAggregate(Seen(ret));
    hide HasHiddenPointer, IsAggregate, Under, IsIntegerClass, ClassOf, IsWideEnumeration, FnPtrSignature, RouteIndex,
         Assignment, PlaceOf;
    TakenForTheHiddenPointer(CALLBACK, ret);
  }

  lemma Callback()
    ensures IsIntegerClass(CALLBACK) && ClassOf(CALLBACK) == InRegisters(1, 0) && !IsWideEnumeration(CALLBACK)
    ensures IsIntegerClass(HOOK) && ClassOf(HOOK) == InRegisters(1, 0) && !IsWideEnumeration(HOOK)
    ensures FnPtrSignature(CALLBACK) == Some("void (void)") && FnPtrSignature(HOOK) == Some("int (void)")
  {
    assert '(' == "void (void)"[5] && '(' == "int (void)"[4];
  }

  // ----- the route itself -----

  datatype Param = Param(name: string, ptype: Type)

  datatype Answer = Answer(calleeType: string, fieldHint: string)

  function TypesOf(params: seq<Param>): seq<Type> {
    seq(|params|, i requires 0 <= i < |params| => params[i].ptype)
  }

  /** fnPtrSignature: the text of the function a pointer points to, qualifiers stripped on both sides, and
      nothing for any other type. */
  function FnPtrSignature(t: Type): (sig: Option<string>)
    ensures sig.Some? ==> Core(t).Pointer? && Core(t).to.Some? && Core(Core(t).to.value) == Subroutine(sig.value)
    ensures sig.Some? ==> '(' in sig.value
  {
    if Depth(t) >= STRIP_LIMIT || !Core(t).Pointer? || Core(t).to.None? then None
    else
      var to := Core(t).to.value;
      if Depth(to) >= STRIP_LIMIT || !Core(to).Subroutine? || '(' !in Core(to).text then None
      else Some(Core(to).text)
  }

  /** What the route answers: decode the register, decline aggregate returns, replay the assignment, and check
      that what it finds is a function pointer. */
  ghost predicate Answers(callTarget: Expr, inSubprogram: bool, params: seq<Param>, ret: Return, answer: Answer) {
    && inSubprogram && DecodeRegExpr(callTarget).Register?
    && var i := RouteIndex(TypesOf(params), ret, DecodeRegExpr(callTarget).number);
       && 0 <= i < |params| && FnPtrSignature(params[i].ptype) == Some(answer.calleeType)
       && params[i].name == answer.fieldHint
  }

  /** A pointer to a function type, each under fewer than thirty-two qualifiers. */
  ghost predicate PointsToFunction(t: Type, text: string) {
    '(' in text && exists to: Type :: IsWithin(t, Pointer(Some(to))) && IsWithin(to, Subroutine(text))
  }

  /** The bytes name the register of a parameter that points to a function: its type and its name. */
  ghost predicate IsAnswered(callTarget: Expr, params: seq<Param>, ret: Return, answer: Answer) {
    exists reg: nat, i: nat :: NamesRegister(callTarget, reg) && IsNamed(TypesOf(params), ret, reg, i)
                               && i < |params| && PointsToFunction(params[i].ptype, answer.calleeType)
                               && params[i].name == answer.fieldHint
  }

  lemma PointsToIs(t: Type, text: string)
    ensures PointsToFunction(t, text) <==> FnPtrSignature(t) == Some(text)
  {
    hide IsWithin;
    StrippedIs(t);
    if Stripped(t).Some? && Stripped(t).value.Pointer? && Stripped(t).value.to.Some? {
      var to := Stripped(t).value.to.value;
      StrippedIs(to);
      assert IsWithin(t, Pointer(Some(to)));
    }
    forall to: Type | IsWithin(t, Pointer(Some(to))) && IsWithin(to, Subroutine(text))
      ensures Depth(to) < STRIP_LIMIT && Core(to) == Subroutine(text)
    {
      StrippedIs(to);
    }
  }

  /** The answers are these. */
  lemma AnswersAre(callTarget: Expr, params: seq<Param>, ret: Return, answer: Answer)
    ensures Answers(callTarget, true, params, ret, answer) <==> IsAnswered(callTarget, params, ret, answer)
  {
    hide DecodeRegExpr, NamesRegister, IsNamed, RouteIndex, FnPtrSignature, PointsToFunction;
    forall reg ensures DecodeRegExpr(callTarget) == Register(reg) <==> NamesRegister(callTarget, reg) {
      DecodesExactly(callTarget, reg);
    }
    forall reg, i: nat ensures IsNamed(TypesOf(params), ret, reg, i) <==> RouteIndex(TypesOf(params), ret, reg) == i {
      RouteIs(TypesOf(params), ret, reg, i);
    }
    forall t ensures PointsToFunction(t, answer.calleeType) <==> FnPtrSignature(t) == Some(answer.calleeType) {
      PointsToIs(t, answer.calleeType);
    }
  }

  /** resolveViaCallTarget */
  method ResolveViaCallTarget(callTarget: Expr, inSubprogram: bool, params: seq<Param>, ret: Return)
    returns (answer: Option<Answer>)
    requires DecodeRegExpr(callTarget) != OutOfRange
    ensures answer.Some? ==> Answers(callTarget, inSubprogram, params, ret, answer.value)
    ensures answer.None? ==> forall a :: !Answers(callTarget, inSubprogram, params, ret, a)
    ensures answer.Some? ==> inSubprogram && IsAnswered(callTarget, params, ret, answer.value)
    ensures answer.None? && inSubprogram ==> forall a :: !IsAnswered(callTarget, params, ret, a)
  {
    forall a ensures Answers(callTarget, true, params, ret, a) <==> IsAnswered(callTarget, params, ret, a) {
      AnswersAre(callTarget, params, ret, a);
    }
    hide IsAnswered;
    var reg := DecodeRegExpr(callTarget);
    if !reg.Register? || !inSubprogram {
      return None;
    }
    if IsAggregate(Seen(ret)) {
      return None;
    }
    var classes := IntegerClasses(TypesOf(params));
    var argIdx := ArgIndexForReg(classes, reg.number);
    if argIdx < 0 {
      return None;
    }
    match FnPtrSignature(params[argIdx].ptype)
    case None => return None;
    case Some(sig) => return Some(Answer(sig, params[argIdx].name));
  }

  /** End to end, from the bytes of a register expression: an answer names a pointer to a function of the type
      answered, and the psABI put that parameter in the register on entry exactly when the hidden pointer and the
      parameters before it have taken as many INTEGER registers as there are parameters before it. */
  lemma AnswerNamesTheRightParameter(e: RegExpr, params: seq<Param>, ret: Return, answer: Answer)
    requires IsRegExpr(e) && Answers(Serialise(e), true, params, ret, answer)
    ensures var i := RouteIndex(TypesOf(params), ret, RegisterOf(e));
            && 0 <= i < |params| && params[i].name == answer.fieldHint
            && Core(params[i].ptype).Pointer? && Core(params[i].ptype).to.Some?
            && Core(Core(params[i].ptype).to.value) == Subroutine(answer.calleeType)
            && (Assignment(TypesOf(params), ret)[i] == Registers([RegisterOf(e)], 0)
                <==> TakenBy(TypesOf(params)[..i], AtFirst(ret)).ints == i)
  {
    DecodesRegExpr(e);
    RouteIsSound(TypesOf(params), ret, RegisterOf(e));
  }

  /** Whatever is answered for any call through a register of this function names the parameter that was in it. */
  ghost predicate AnswersRightly(params: seq<Param>, ret: Return) {
    forall e, answer :: IsRegExpr(e) && Answers(Serialise(e), true, params, ret, answer) ==>
      IsPlaced(TypesOf(params), ret, RouteIndex(TypesOf(params), ret, RegisterOf(e)), RegisterOf(e))
  }

  ghost predicate IsPlaced(params: seq<Type>, ret: Return, i: int, reg: nat) {
    0 <= i < |params| && Assignment(params, ret)[i] == Registers([reg], 0)
  }

  /** A function pointer among the first six parameters, behind none but such as are of the integer class. */
  predicate IsReached(params: seq<Param>, i: nat)
    requires i < |params|
  {
    && i < |INT_REGISTERS| && FnPtrSignature(params[i].ptype).Some?
    && forall j :: 0 <= j < i ==> IsIntegerClass(params[j].ptype)
  }

  /** Before every such function pointer as many INTEGER registers are taken as there are parameters. */
  predicate CallbacksInOrder(params: seq<Param>, ret: Return) {
    forall i :: 0 <= i < |params| && IsReached(params, i) ==> TakenBy(TypesOf(params)[..i], AtFirst(ret)).ints == i
  }

  /** All answers of a function are right exactly when it is declined or its function pointers are in order. */
  lemma AnswersAreRightExactlyWhen(params: seq<Param>, ret: Return)
    ensures AnswersRightly(params, ret) <==> IsAggregate(Seen(ret)) || CallbacksInOrder(params, ret)
  {
    if IsAggregate(Seen(ret)) || CallbacksInOrder(params, ret) {
      forall e, answer | IsRegExpr(e) && Answers(Serialise(e), true, params, ret, answer)
        ensures IsPlaced(TypesOf(params), ret, RouteIndex(TypesOf(params), ret, RegisterOf(e)), RegisterOf(e))
      {
        AnswerIsReached(e, params, ret, answer);
        AnswerNamesTheRightParameter(e, params, ret, answer);
      }
    } else {
      var i :| 0 <= i < |params| && IsReached(params, i)
               && TakenBy(TypesOf(params)[..i], AtFirst(ret)).ints != i;
      var e := RegN(INT_REGISTERS[i]);
      var answer := ReachedIsAnswered(params, ret, i, e);
      AnswerNamesTheRightParameter(e, params, ret, answer);
      hide IsReached, CallbacksInOrder, TakenBy, Answers, IsAggregate;
    }
  }

  lemma AnswerIsReached(e: RegExpr, params: seq<Param>, ret: Return, answer: Answer)
    requires IsRegExpr(e) && Answers(Serialise(e), true, params, ret, answer)
    ensures !IsAggregate(Seen(ret))
    ensures var i := RouteIndex(TypesOf(params), ret, RegisterOf(e)); 0 <= i < |params| && IsReached(params, i)
  {
    DecodesRegExpr(e);
    NamedAreIntegers(TypesOf(params), ret, RegisterOf(e));
    var i := RouteIndex(TypesOf(params), ret, RegisterOf(e));
    forall j | 0 <= j < i ensures IsIntegerClass(params[j].ptype) {
      assert IsIntegerClass(TypesOf(params)[j]);
    }
  }

  lemma ReachedIsAnswered(params: seq<Param>, ret: Return, i: nat, e: RegExpr) returns (answer: Answer)
    requires !IsAggregate(Seen(ret)) && i < |params| && IsReached(params, i) && e == RegN(INT_REGISTERS[i])
    ensures IsRegExpr(e) && RouteIndex(TypesOf(params), ret, RegisterOf(e)) == i
    ensures Answers(Serialise(e), true, params, ret, answer)
  {
    answer := Answer(FnPtrSignature(params[i].ptype).value, params[i].name);
    FnPtrIsInteger(params[i].ptype);
    forall j | 0 <= j <= i ensures IsIntegerClass(TypesOf(params)[j]) {
      assert IsIntegerClass(params[j].ptype);
    }
    hide IsIntegerClass, IsAggregate, FnPtrSignature, RouteIndex;
    NamedFromItsRank(TypesOf(params), ret, i);
    DecodesRegExpr(e);
  }

  lemma FnPtrIsInteger(t: Type)
    requires FnPtrSignature(t).Some?
    ensures IsIntegerClass(t)
  {
  }

  /** A call through a, which is in rdx behind a sixteen-byte enumeration, is answered with b's type and name. */
  lemma WideEnumerationMisleads(params: seq<Param>, ret: Return)
    requires params == [Param("e", Enumeration(16)), Param("a", CALLBACK), Param("b", HOOK)]
    requires ret == Return(Some(Base(Some(ENC_SIGNED), Some(4), Memory)), true)
    ensures !HasHiddenPointer(ret)
    ensures Assignment(TypesOf(params), ret) == [Registers([5, 4], 0), Registers([1], 0), Registers([2], 0)]
    ensures Answers([0xa3, 1, 0x51], true, params, ret, Answer("int (void)", "b"))
  {
    var types := TypesOf(params);
    assert types == [Enumeration(16), CALLBACK, HOOK];
    var e := EntryValue([1], RegN(1), []);
    NamesTheThird(types, ret, e);
    hide FnPtrSignature, RouteIndex, Assignment, DecodeRegExpr, Serialise;
    Callback();
    assert ClassOf(Enumeration(16)) == InRegisters(2, 0);
    hide ClassOf;
    BehindAPair(Enumeration(16), CALLBACK, HOOK, ret);
  }

  lemma NamesTheThird(types: seq<Type>, ret: Return, e: RegExpr)
    requires types == [Enumeration(16), CALLBACK, HOOK] && !IsAggregate(Seen(ret))
    requires e == EntryValue([1], RegN(1), [])
    ensures Serialise(e) == [OP_ENTRY_VALUE, 1, OP_REG0 + 1] && DecodeRegExpr(Serialise(e)) == Register(1)
    ensures RouteIndex(types, ret, 1) == 2
  {
    Callback();
    hide ClassOf, FnPtrSignature, Assignment, DecodeRegExpr, RouteIndex;
    assert Serialise(e) == [OP_ENTRY_VALUE, 1, OP_REG0 + 1];
    DecodesRegExpr(e);
    NamedFromItsRank(types, ret, 2);
  }

  lemma APair()
    ensures PlaceOf(InRegisters(2, 0), Taken(0, 0)) == Registers([5, 4], 0)
    ensures Take(InRegisters(2, 0), Taken(0, 0)) == Taken(2, 0)
  {
    assert INT_REGISTERS[0..2] == [5, 4];
  }

  lemma BehindAPair(wide: Type, p: Type, q: Type, ret: Return)
    requires ClassOf(wide) == InRegisters(2, 0) && ClassOf(p) == ClassOf(q) == InRegisters(1, 0)
    requires !HasHiddenPointer(ret)
    ensures Assignment([wide, p, q], ret) == [Registers([5, 4], 0), Registers([1], 0), Registers([2], 0)]
  {
    hide ClassOf, HasHiddenPointer, Places, PlaceOf, Take;
    APair();
    var params, rest := [wide, p, q], [p, q];
    FirstPlaced(params, Taken(0, 0));
    assert params[1..] == rest;
    IntegersGoInOrder(rest, 2, 0);
    IntegersGoInOrder(rest, 2, 1);
  }
}
