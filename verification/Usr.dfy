/** USR construction, the index's only join key: the constructors, the number formatting they rest on, and
    a parser that takes every USR apart again. */
module Usr {
  import opened Wrappers

  // ----- itoa -----

  function Digit(d: nat): char
    requires d < 10
  {
    ['0', '1', '2', '3', '4', '5', '6', '7', '8', '9'][d]
  }

  function DigitValue(c: char): nat {
    if '0' <= c <= '9' then (c - '0') as nat else 0
  }

  function Digits(n: nat): (s: string)
    ensures s != [] && s[0] != '-' && forall c :: c in s ==> '0' <= c <= '9'
  {
    if n < 10 then [Digit(n)] else Digits(n / 10) + [Digit(n % 10)]
  }

  /** The decimal numeral of an integer. */
  function Decimal(n: int): string {
    if n < 0 then "-" + Digits(-n) else Digits(n)
  }

  function Value(s: string): nat {
    if s == [] then 0 else 10 * Value(s[..|s| - 1]) + DigitValue(s[|s| - 1])
  }

  lemma {:induction false} ValueOfDigits(n: nat)
    ensures Value(Digits(n)) == n
  {
    if n < 10 {
      assert Digits(n)[..0] == [];
    } else {
      var s := Digits(n);
      assert s[..|s| - 1] == Digits(n / 10);
      ValueOfDigits(n / 10);
    }
  }

  function Pow10(k: nat): (p: nat)
    ensures p >= 1
  {
    if k == 0 then 1 else 10 * Pow10(k - 1)
  }

  lemma {:induction false} DigitsFit(n: nat, k: nat)
    requires k >= 1
    ensures |Digits(n)| <= k <==> n < Pow10(k)
    decreases k
  {
    if k == 1 {
      assert Pow10(1) == 10 * Pow10(0);
    } else if n >= 10 {
      DigitsFit(n / 10, k - 1);
      assert n / 10 < Pow10(k - 1) <==> n < 10 * Pow10(k - 1);
    }
  }

  const BUFFER := 12

  /** The numeral fits the twelve-byte buffer exactly in this range. */
  lemma ItoaFitsExactly(n: int)
    ensures |Decimal(n)| <= BUFFER <==> -100_000_000_000 < n < 1_000_000_000_000
  {
    DigitsFit(if n < 0 then -n else n, if n < 0 then 11 else 12);
  }

  lemma LastDigit(m: nat, tail: string)
    requires m > 0
    ensures Digits(m) + tail == (if m / 10 > 0 then Digits(m / 10) else []) + ([Digit(m % 10)] + tail)
    ensures |Digits(m)| == (if m / 10 > 0 then |Digits(m / 10)| else 0) + 1
  {
  }

  const MIN_INT: int := -0x8000_0000_0000_0000
  const MAX_INT: int := 0x7fff_ffff_ffff_ffff

  lemma Fits(n: int)
    ensures n != 0 ==> Decimal(n) == (if n < 0 then "-" + Digits(-n) else Digits(n))
    ensures -100_000_000_000 < n < 1_000_000_000_000
       <==> |Digits(if n < 0 then -n else n)| + (if n < 0 then 1 else 0) <= BUFFER
  {
    ItoaFitsExactly(n);
  }

  /** Negation in 64 bits, in which the smallest integer stays what it is. */
  function Negated(n: int): int {
    if n == MIN_INT then n else -n
  }

  /** The formatting loop: the buffer is filled from its end, sign last. Nothing is where the source indexes
      before the start of its buffer. */
  method Itoa(n: int) returns (s: Option<string>)
    requires MIN_INT <= n <= MAX_INT
    ensures n == MIN_INT ==> s == Some("-")
    ensures n > MIN_INT && -100_000_000_000 < n < 1_000_000_000_000 ==> s == Some(Decimal(n))
    ensures n > MIN_INT && !(-100_000_000_000 < n < 1_000_000_000_000) ==> s == None
  {
    if n == 0 {
      return Some("0");
    }
    hide Digits, Digit, Decimal;
    Fits(n);
    var buf := new char[BUFFER];
    var neg := n < 0;
    var at := FillDigits(buf, if neg then Negated(n) else n);
    if at.None? {
      return None;
    }
    var i := at.value;
    if neg {
      if i == 0 {
        return None;
      }
      i := i - 1;
      ghost var tail := buf[i + 1..];
      buf[i] := '-';
      assert buf[i..] == ['-'] + tail;
      assert n == MIN_INT ==> |tail| == 0 && ['-'] + tail == "-";
    }
    return Some(buf[i..]);
  }

  /** The loop proper: it ends before the start of the buffer exactly when the digits fit. */
  method FillDigits(buf: array<char>, n: int) returns (at: Option<nat>)
    modifies buf
    ensures n <= 0 ==> at == Some(buf.Length)
    ensures n > 0 ==> (at.Some? <==> |Digits(n)| <= buf.Length)
    ensures n > 0 && at.Some? ==> at.value == buf.Length - |Digits(n)| && buf[at.value..] == Digits(n)
  {
    hide Digits, Digit;
    var i: nat := buf.Length;
    var m := n;
    ghost var tail := "";
    assert n > 0 ==> Digits(n) == Digits(m) + tail;
    while m > 0
      invariant i <= buf.Length && |tail| == buf.Length - i && (n <= 0 ==> m == n && i == buf.Length)
      invariant buf[i..] == tail
      invariant n > 0 ==> Digits(n) == (if m > 0 then Digits(m) else []) + tail
    {
      LastDigit(m, tail);
      if i == 0 {
        return None;
      }
      i := i - 1;
      buf[i] := Digit(m % 10);
      tail := [Digit(m % 10)] + tail;
      m := m / 10;
    }
    return Some(i);
  }

  /** Recovers an integer from its numeral, and nothing from any other string. */
  function ParseInt(s: string): Option<int> {
    var v := if s != [] && s[0] == '-' then -(Value(s[1..]) as int) else Value(s);
    if s == Decimal(v) then Some(v) else None
  }

  lemma ParseIntInverts(n: int)
    ensures ParseInt(Decimal(n)) == Some(n)
  {
    ValueOfDigits(if n < 0 then -n else n);
    hide Digits, Value;
    if n < 0 {
      assert Decimal(n)[1..] == Digits(-n) && Decimal(n)[0] == '-';
    }
  }

  // ----- the constructors -----

  function Function(path: string, name: string): string {
    if path == "" then "c:@F@" + name else "c:" + path + "@F@" + name
  }

  function Variable(path: string, name: string): string {
    if path == "" then "c:@V@" + name else "c:" + path + "@V@" + name
  }

  function Typedef(path: string, name: string): string {
    "c:" + path + "@T@" + name
  }

  function ResolveTagName(name: string, line: int, col: int): string {
    if name != "" then name else "__anon_" + Decimal(line) + "_" + Decimal(col)
  }

  function Struct(path: string, name: string, line: int, col: int): string {
    "c:" + path + "@S@" + ResolveTagName(name, line, col)
  }

  function Union(path: string, name: string, line: int, col: int): string {
    "c:" + path + "@U@" + ResolveTagName(name, line, col)
  }

  function Enum(path: string, name: string, line: int, col: int): string {
    "c:" + path + "@E@" + ResolveTagName(name, line, col)
  }

  function EnumMember(path: string, enumName: string, line: int, col: int, member: string): string {
    "c:" + path + "@E@" + ResolveTagName(enumName, line, col) + "@" + member
  }

  function Field(container: string, field: string): string {
    container + "@F@" + field
  }

  // ----- what a USR identifies -----

  datatype Tag = Named(name: string) | Anonymous(line: int, col: int)

  datatype Entity =
    | AFunction(path: string, name: string)
    | AVariable(path: string, name: string)
    | ATypedef(path: string, name: string)
    | AStruct(path: string, tag: Tag)
    | AUnion(path: string, tag: Tag)
    | AnEnum(path: string, tag: Tag)
    | AMember(path: string, tag: Tag, member: string)
    | AStructField(path: string, tag: Tag, field: string)
    | AUnionField(path: string, tag: Tag, field: string)

  function TagName(t: Tag): string { if t.Named? then t.name else "" }
  function TagLine(t: Tag): int { if t.Anonymous? then t.line else 0 }
  function TagCol(t: Tag): int { if t.Anonymous? then t.col else 0 }

  function UsrOf(e: Entity): string {
    match e
    case AFunction(p, n) => Function(p, n)
    case AVariable(p, n) => Variable(p, n)
    case ATypedef(p, n) => Typedef(p, n)
    case AStruct(p, t) => Struct(p, TagName(t), TagLine(t), TagCol(t))
    case AUnion(p, t) => Union(p, TagName(t), TagLine(t), TagCol(t))
    case AnEnum(p, t) => Enum(p, TagName(t), TagLine(t), TagCol(t))
    case AMember(p, t, m) => EnumMember(p, TagName(t), TagLine(t), TagCol(t), m)
    case AStructField(p, t, f) => Field(Struct(p, TagName(t), TagLine(t), TagCol(t)), f)
    case AUnionField(p, t, f) => Field(Union(p, TagName(t), TagLine(t), TagCol(t)), f)
  }

  /** No path or name holds an '@', and no tag name is empty or starts like an anonymous one. */
  ghost predicate WellFormed(e: Entity) {
    && '@' !in e.path
    && match e
       case AFunction(_, n) => '@' !in n
       case AVariable(_, n) => '@' !in n
       case ATypedef(_, n) => '@' !in n
       case AStruct(_, t) => TagOk(t)
       case AUnion(_, t) => TagOk(t)
       case AnEnum(_, t) => TagOk(t)
       case AMember(_, t, m) => TagOk(t) && '@' !in m
       case AStructField(_, t, f) => TagOk(t) && '@' !in f
       case AUnionField(_, t, f) => TagOk(t) && '@' !in f
  }

  ghost predicate TagOk(t: Tag) {
    t.Named? ==> t.name != "" && '@' !in t.name && !("__anon_" <= t.name)
  }

  // ----- taking a USR apart -----

  function Split(s: string, sep: char): (parts: seq<string>)
    ensures |parts| >= 1
  {
    if s == [] then [[]]
    else
      var rest := Split(s[1..], sep);
      if s[0] == sep then [[]] + rest else [[s[0]] + rest[0]] + rest[1..]
  }

  function Join(parts: seq<string>, sep: char): string
    requires |parts| >= 1
  {
    if |parts| == 1 then parts[0] else parts[0] + [sep] + Join(parts[1..], sep)
  }

  lemma {:induction false} SplitWhole(a: string, sep: char)
    requires sep !in a
    ensures Split(a, sep) == [a]
  {
    if a != [] {
      SplitWhole(a[1..], sep);
      assert [a[0]] + a[1..] == a;
    }
  }

  lemma {:induction false} SplitFirst(a: string, rest: string, sep: char)
    requires sep !in a
    ensures Split(a + [sep] + rest, sep) == [a] + Split(rest, sep)
  {
    var s := a + [sep] + rest;
    if a == [] {
      assert s[1..] == rest;
    } else {
      SplitFirst(a[1..], rest, sep);
      assert s[1..] == a[1..] + [sep] + rest;
      assert s[0] == a[0] && [a[0]] + a[1..] == a;
      assert ([a[1..]] + Split(rest, sep))[1..] == Split(rest, sep);
    }
  }

  lemma {:induction false} JoinSplit(s: string, sep: char)
    ensures Join(Split(s, sep), sep) == s
    ensures forall part :: part in Split(s, sep) ==> sep !in part
  {
    if s != [] {
      JoinSplit(s[1..], sep);
      var rest, parts := Split(s[1..], sep), Split(s, sep);
      if s[0] == sep {
        assert parts[1..] == rest;
      } else {
        assert parts[1..] == rest[1..];
        if |parts| > 1 {
          assert Join(parts, sep) == [s[0]] + rest[0] + [sep] + Join(rest[1..], sep);
        }
      }
    }
  }

  function ParseTag(s: string): Option<Tag> {
    if "__anon_" <= s then
      var parts := Split(s[7..], '_');
      if |parts| == 2 && ParseInt(parts[0]).Some? && ParseInt(parts[1]).Some?
      then Some(Anonymous(ParseInt(parts[0]).value, ParseInt(parts[1]).value)) else None
    else if s == "" then None
    else Some(Named(s))
  }

  function ParseUsr(s: string): Option<Entity> {
    var parts := Split(s, '@');
    if |parts| < 3 || !("c:" <= parts[0]) then None
    else
      var path := parts[0][2..];
      if |parts| == 3 && parts[1] == "F" then Some(AFunction(path, parts[2]))
      else if |parts| == 3 && parts[1] == "V" then Some(AVariable(path, parts[2]))
      else if |parts| == 3 && parts[1] == "T" then Some(ATypedef(path, parts[2]))
      else
        var tag := ParseTag(parts[2]);
        if tag.None? then None
        else if |parts| == 3 && parts[1] == "S" then Some(AStruct(path, tag.value))
        else if |parts| == 3 && parts[1] == "U" then Some(AUnion(path, tag.value))
        else if |parts| == 3 && parts[1] == "E" then Some(AnEnum(path, tag.value))
        else if |parts| == 4 && parts[1] == "E" then Some(AMember(path, tag.value, parts[3]))
        else if |parts| == 5 && parts[1] == "S" && parts[3] == "F" then Some(AStructField(path, tag.value, parts[4]))
        else if |parts| == 5 && parts[1] == "U" && parts[3] == "F" then Some(AUnionField(path, tag.value, parts[4]))
        else None
  }

  function TagText(t: Tag): string {
    ResolveTagName(TagName(t), TagLine(t), TagCol(t))
  }

  lemma NumeralIsPlain(n: int, c: char)
    requires c == '@' || c == '_'
    ensures c !in Decimal(n)
  {
  }

  lemma AnonymousText(l: string, c: string)
    requires '@' !in l && '@' !in c
    ensures var s := "__anon_" + l + "_" + c;
            '@' !in s && "__anon_" <= s && s[7..] == l + ['_'] + c
  {
    var s := "__anon_" + l + "_" + c;
    assert s == "__anon_" + (l + ['_'] + c);
  }

  lemma TagRoundTrip(t: Tag)
    requires TagOk(t)
    ensures '@' !in TagText(t) && ParseTag(TagText(t)) == Some(t)
  {
    hide Split, ParseInt, Decimal;
    if t.Anonymous? {
      var l, c := Decimal(t.line), Decimal(t.col);
      NumeralIsPlain(t.line, '_');
      NumeralIsPlain(t.line, '@');
      NumeralIsPlain(t.col, '_');
      NumeralIsPlain(t.col, '@');
      AnonymousText(l, c);
      SplitFirst(l, c, '_');
      SplitWhole(c, '_');
      ParseIntInverts(t.line);
      ParseIntInverts(t.col);
    }
  }

  /** A parsed tag is one that would be written this way, and a proper one. */
  lemma ParsedTag(s: string)
    requires ParseTag(s).Some? && '@' !in s
    ensures TagText(ParseTag(s).value) == s && TagOk(ParseTag(s).value)
  {
    if "__anon_" <= s {
      var parts := Split(s[7..], '_');
      var l, c := ParseInt(parts[0]).value, ParseInt(parts[1]).value;
      NumeralPairs(s[7..], l, c);
      assert s == "__anon_" + s[7..];
    }
  }

  lemma ParsedInt(s: string)
    requires ParseInt(s).Some?
    ensures s == Decimal(ParseInt(s).value)
  {
  }

  lemma NumeralPairs(s: string, l: int, c: int)
    requires |Split(s, '_')| == 2
    requires ParseInt(Split(s, '_')[0]) == Some(l) && ParseInt(Split(s, '_')[1]) == Some(c)
    ensures "__anon_" + s == "__anon_" + Decimal(l) + "_" + Decimal(c)
  {
    hide Split, Decimal, ParseInt, Join;
    var parts := Split(s, '_');
    JoinSplit(s, '_');
    ParsedInt(parts[0]);
    ParsedInt(parts[1]);
    Join2(parts);
    assert "__anon_" + (parts[0] + ['_'] + parts[1]) == "__anon_" + parts[0] + "_" + parts[1];
  }

  lemma Join2(p: seq<string>)
    requires |p| == 2
    ensures Join(p, '_') == p[0] + ['_'] + p[1]
  {
  }

  /** The text between the '@' signs of a well-formed entity's USR. */
  function PartsOf(e: Entity): seq<string> {
    var head := "c:" + e.path;
    match e
    case AFunction(_, n) => [head, "F", n]
    case AVariable(_, n) => [head, "V", n]
    case ATypedef(_, n) => [head, "T", n]
    case AStruct(_, t) => [head, "S", TagText(t)]
    case AUnion(_, t) => [head, "U", TagText(t)]
    case AnEnum(_, t) => [head, "E", TagText(t)]
    case AMember(_, t, m) => [head, "E", TagText(t), m]
    case AStructField(_, t, f) => [head, "S", TagText(t), "F", f]
    case AUnionField(_, t, f) => [head, "U", TagText(t), "F", f]
  }

  lemma JoinOfParts(e: Entity)
    ensures UsrOf(e) == Join(PartsOf(e), '@')
  {
    hide Join, ResolveTagName, TagText;
    match e
    case AFunction(p, n) => Joined3(p, "F", "@F@", n);
    case AVariable(p, n) => Joined3(p, "V", "@V@", n);
    case ATypedef(p, n) => Joined3(p, "T", "@T@", n);
    case AStruct(p, t) => Joined3(p, "S", "@S@", TagText(t)); TagTextIs(t);
    case AUnion(p, t) => Joined3(p, "U", "@U@", TagText(t)); TagTextIs(t);
    case AnEnum(p, t) => Joined3(p, "E", "@E@", TagText(t)); TagTextIs(t);
    case AMember(p, t, m) => Joined4(p, TagText(t), m); TagTextIs(t);
    case AStructField(p, t, f) => Joined5(p, "S", "@S@", TagText(t), f); TagTextIs(t);
    case AUnionField(p, t, f) => Joined5(p, "U", "@U@", TagText(t), f); TagTextIs(t);
  }

  lemma TagTextIs(t: Tag)
    ensures TagText(t) == ResolveTagName(TagName(t), TagLine(t), TagCol(t))
  {
  }

  lemma Joined3(path: string, kind: string, sep: string, x: string)
    requires sep == "@" + kind + "@"
    ensures "c:" + path + sep + x == Join(["c:" + path, kind, x], '@')
    ensures path == "" ==> "c:" + (sep + x) == Join(["c:" + path, kind, x], '@')
  {
    Join3(["c:" + path, kind, x]);
    hide Join;
    assert "c:" + path + ("@" + kind + "@") + x == "c:" + path + "@" + kind + "@" + x;
    if path == "" {
      assert "c:" + path == "c:";
      assert "c:" + (sep + x) == "c:" + sep + x;
    }
  }

  lemma Joined4(path: string, tag: string, m: string)
    ensures "c:" + path + "@E@" + tag + "@" + m == Join(["c:" + path, "E", tag, m], '@')
  {
    Join4(["c:" + path, "E", tag, m]);
    hide Join;
    assert "@E@" == "@" + "E" + "@";
    assert "c:" + path + ("@" + "E" + "@") + tag == "c:" + path + "@" + "E" + "@" + tag;
  }

  lemma Joined5(path: string, kind: string, sep: string, tag: string, f: string)
    requires sep == "@" + kind + "@"
    ensures "c:" + path + sep + tag + "@F@" + f == Join(["c:" + path, kind, tag, "F", f], '@')
  {
    Join5(["c:" + path, kind, tag, "F", f]);
    hide Join;
    var head := "c:" + path + "@" + kind + "@" + tag;
    assert "c:" + path + ("@" + kind + "@") + tag == head;
    assert "@F@" == "@" + "F" + "@";
    assert head + ("@" + "F" + "@") + f == head + "@" + "F" + "@" + f;
  }

  lemma JoinStep(p: seq<string>)
    requires |p| > 1
    ensures Join(p, '@') == p[0] + "@" + Join(p[1..], '@')
  {
  }

  lemma Join3(p: seq<string>)
    requires |p| == 3
    ensures Join(p, '@') == p[0] + "@" + p[1] + "@" + p[2]
  {
    JoinStep(p);
    JoinStep(p[1..]);
    assert p[1..][1..] == [p[2]];
    assert p[0] + "@" + (p[1] + "@" + p[2]) == p[0] + "@" + p[1] + "@" + p[2];
  }

  lemma Assoc(a: string, b: string, c: string)
    ensures a + (b + c) == a + b + c
  {
  }

  lemma Join4(p: seq<string>)
    requires |p| == 4
    ensures Join(p, '@') == p[0] + "@" + p[1] + "@" + p[2] + "@" + p[3]
  {
    hide Join;
    JoinStep(p);
    Join3(p[1..]);
    var a, b := p[0] + "@", p[1] + "@";
    Assoc(a, b + p[2] + "@", p[3]);
    Assoc(a, b + p[2], "@");
    Assoc(a, b, p[2]);
    Assoc(a, p[1], "@");
  }

  lemma Join5(p: seq<string>)
    requires |p| == 5
    ensures Join(p, '@') == p[0] + "@" + p[1] + "@" + p[2] + "@" + p[3] + "@" + p[4]
  {
    hide Join;
    JoinStep(p);
    Join4(p[1..]);
    var a, b := p[0] + "@", p[1] + "@";
    var c := b + p[2] + "@";
    Assoc(a, c + p[3] + "@", p[4]);
    Assoc(a, c + p[3], "@");
    Assoc(a, c, p[3]);
    Assoc(a, b + p[2], "@");
    Assoc(a, b, p[2]);
    Assoc(a, p[1], "@");
  }

  lemma {:induction false} SplitJoin(parts: seq<string>)
    requires |parts| >= 1 && forall p :: p in parts ==> '@' !in p
    ensures Split(Join(parts, '@'), '@') == parts
  {
    if |parts| == 1 {
      SplitWhole(parts[0], '@');
    } else {
      SplitFirst(parts[0], Join(parts[1..], '@'), '@');
      SplitJoin(parts[1..]);
      assert parts == [parts[0]] + parts[1..];
    }
  }

  /** The parser inverts all the constructors together on well-formed entities. */
  lemma ParseInverts(e: Entity)
    requires WellFormed(e)
    ensures ParseUsr(UsrOf(e)) == Some(e)
  {
    hide Split, Join, UsrOf, ParseTag, TagText, TagOk;
    if Tagged(e) {
      TagRoundTrip(e.tag);
    }
    var parts := PartsOf(e);
    JoinOfParts(e);
    SplitJoin(parts);
    assert ("c:" + e.path)[2..] == e.path;
  }

  /** Whatever parses is the USR of the well-formed entity it parses to. */
  lemma ParsedUsr(s: string)
    requires ParseUsr(s).Some?
    ensures WellFormed(ParseUsr(s).value) && UsrOf(ParseUsr(s).value) == s
  {
    hide Split, Join, ParseTag, TagText, TagOk, UsrOf, WellFormed;
    var parts, e := Split(s, '@'), ParseUsr(s).value;
    JoinSplit(s, '@');
    assert parts[0] == "c:" + parts[0][2..];
    if Tagged(e) {
      assert parts[2] in parts;
      assert ParseTag(parts[2]) == Some(e.tag);
      ParsedTag(parts[2]);
    }
    assert PartsOf(e) == parts;
    PlainPartsAreWellFormed(e);
    JoinOfParts(e);
  }

  predicate Tagged(e: Entity) {
    !e.AFunction? && !e.AVariable? && !e.ATypedef?
  }

  lemma PlainPartsAreWellFormed(e: Entity)
    requires forall p :: p in PartsOf(e) ==> '@' !in p
    requires Tagged(e) ==> TagOk(e.tag)
    ensures WellFormed(e)
  {
    hide TagOk, TagText;
    var parts := PartsOf(e);
    assert parts[0] in parts && parts[|parts| - 1] in parts;
    assert parts[0][2..] == e.path;
  }

  /** A USR gives its entity back exactly when the entity is well-formed. */
  lemma ParseInvertsExactlyWhen(e: Entity)
    ensures ParseUsr(UsrOf(e)) == Some(e) <==> WellFormed(e)
  {
    if WellFormed(e) {
      ParseInverts(e);
    }
    if ParseUsr(UsrOf(e)).Some? {
      ParsedUsr(UsrOf(e));
    }
  }

  /** No two well-formed entities, of the same or of different kinds, share a USR. */
  lemma UsrsIdentify(a: Entity, b: Entity)
    requires WellFormed(a) && WellFormed(b) && UsrOf(a) == UsrOf(b)
    ensures a == b
  {
    ParseInverts(a);
    ParseInverts(b);
  }

  // ----- exactly which entities share a USR -----

  ghost predicate PlainTag(t: Tag) {
    t.Named? ==> t.name != "" && '@' !in t.name
  }

  /** No path, name, tag, member or field holds an '@', and named tags have a name. */
  ghost predicate Plain(e: Entity) {
    && '@' !in e.path
    && match e
       case AFunction(_, n) => '@' !in n
       case AVariable(_, n) => '@' !in n
       case ATypedef(_, n) => '@' !in n
       case AStruct(_, t) => PlainTag(t)
       case AUnion(_, t) => PlainTag(t)
       case AnEnum(_, t) => PlainTag(t)
       case AMember(_, t, m) => PlainTag(t) && '@' !in m
       case AStructField(_, t, f) => PlainTag(t) && '@' !in f
       case AUnionField(_, t, f) => PlainTag(t) && '@' !in f
  }

  /** One tag is anonymous and the other is named with the very text that stands for it. */
  ghost predicate SpellsAnonymous(anonymous: Tag, named: Tag) {
    && anonymous.Anonymous? && named.Named?
    && named.name == "__anon_" + Decimal(anonymous.line) + "_" + Decimal(anonymous.col)
  }

  /** The same entity but for such a pair of tags. */
  ghost predicate DifferInSpelling(a: Entity, b: Entity) {
    && Tagged(a) && Tagged(b) && a.(tag := b.tag) == b
    && (SpellsAnonymous(a.tag, b.tag) || SpellsAnonymous(b.tag, a.tag))
  }

  lemma TagTextsAgree(s: Tag, t: Tag)
    requires PlainTag(s) && PlainTag(t)
    ensures '@' !in TagText(s)
    ensures TagText(s) == TagText(t) <==> s == t || SpellsAnonymous(s, t) || SpellsAnonymous(t, s)
  {
    if s.Anonymous? {
      TagRoundTrip(s);
    }
    if t.Anonymous? {
      TagRoundTrip(t);
    }
    hide Decimal;
  }

  lemma PlainParts(e: Entity)
    requires Plain(e)
    ensures forall p :: p in PartsOf(e) ==> '@' !in p
  {
    if Tagged(e) {
      TagTextsAgree(e.tag, e.tag);
    }
    hide TagText;
  }

  lemma SamePartsExactlyWhen(a: Entity, b: Entity)
    requires Plain(a) && Plain(b)
    ensures PartsOf(a) == PartsOf(b) <==> a == b || DifferInSpelling(a, b)
  {
    if Tagged(a) && Tagged(b) {
      TagTextsAgree(a.tag, b.tag);
    }
    hide TagText, SpellsAnonymous, PlainTag;
    if PartsOf(a) == PartsOf(b) {
      assert PartsOf(a)[0][2..] == a.path && PartsOf(b)[0][2..] == b.path;
      assert PartsOf(a)[1] == PartsOf(b)[1] && PartsOf(a)[2] == PartsOf(b)[2];
      assert |PartsOf(a)| > 3 ==> PartsOf(a)[|PartsOf(a)| - 1] == PartsOf(b)[|PartsOf(b)| - 1];
    }
  }

  /** Two entities without an '@' share a USR exactly when they are the same or differ in nothing but that one
      names its tag with the text that stands for the other's anonymous one. */
  lemma UsrsCollideExactlyWhen(a: Entity, b: Entity)
    requires Plain(a) && Plain(b)
    ensures UsrOf(a) == UsrOf(b) <==> a == b || DifferInSpelling(a, b)
  {
    hide UsrOf, PartsOf, Plain, DifferInSpelling, Join, Split;
    PlainParts(a);
    PlainParts(b);
    JoinOfParts(a);
    JoinOfParts(b);
    SamePartsExactlyWhen(a, b);
    PartsNotEmpty(a);
    PartsNotEmpty(b);
    SplitJoin(PartsOf(a));
    SplitJoin(PartsOf(b));
  }

  lemma PartsNotEmpty(e: Entity)
    ensures |PartsOf(e)| >= 1
  {
  }

  /** One collision of each kind: an '@' in a path, and a tag spelled like an anonymous one. */
  lemma CollisionsOutside()
    ensures UsrOf(AFunction("p@S@t", "f")) == UsrOf(AStructField("p", Named("t"), "f"))
    ensures UsrOf(AStruct("p", Named("__anon_1_2"))) == UsrOf(AStruct("p", Anonymous(1, 2)))
  {
    assert Decimal(1) == "1" && Decimal(2) == "2";
  }

  /** Every symbol's USR starts with "c:" and so is never the empty string. */
  lemma UsrIsNotEmpty(path: string, name: string)
    ensures Function(path, name) != "" && Variable(path, name) != ""
  {
    assert Function(path, name)[0] == 'c' && Variable(path, name)[0] == 'c';
  }
}
