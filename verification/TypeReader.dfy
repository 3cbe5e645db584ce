/** What the renderer writes for each kind of type, spelled out, and a reader that takes the qualifiers, pointers,
    arrays and the tagged name back out of a rendered type. */
module TypeReader {
  import opened Wrappers
  import opened TypeRender

  // ----- the text of each kind of type -----

  /** Separated by a comma and a space, built from the end. */
  function CommaList(parts: seq<string>): string {
    if parts == [] then ""
    else if |parts| == 1 then parts[0]
    else CommaList(parts[..|parts| - 1]) + ", " + parts[|parts| - 1]
  }

  /** Of the empty lists "(void)" takes nothing, "()" says nothing and "(...)" takes anything; "..." after some
      parameters follows a comma. */
  ghost predicate IsList(params: seq<string>, variadic: bool, proto: bool, list: string) {
    if params == [] then list == if !proto then "()" else if variadic then "(...)" else "(void)"
    else if variadic then list == "(" + CommaList(params) + ", ...)"
    else list == "(" + CommaList(params) + ")"
  }

  /** A star goes in its own parentheses before the first ones of a function type, after a star without a space, and
      after anything else with one; of nothing the pointer is to void. */
  ghost predicate IsPointerTo(inner: string, s: string) {
    if inner == "" then s == "void *"
    else if inner[|inner| - 1] == ')' && inner[0] != '(' && '(' in inner then
      exists k :: && 0 < k < |inner| && inner[k] == '(' && '(' !in inner[..k]
                  && s == inner[..k] + "(*)" + inner[k..]
    else if inner[|inner| - 1] == '*' then s == inner + "*"
    else s == inner + " *"
  }

  ghost predicate IsTagged(keyword: string, name: Option<string>, s: string) {
    s == if name.None? || name.value == "" then keyword else keyword + " " + name.value
  }

  /** The texts of the formal parameters in order; one without a type, or of a type that renders empty, is "?". */
  ghost predicate AreParams(dies: Dies, cs: seq<Child>, texts: seq<string>)
    requires Acyclic(dies)
  {
    if cs == [] then texts == []
    else
      match cs[0]
      case FormalParameter(None) => texts != [] && texts[0] == "?" && AreParams(dies, cs[1..], texts[1..])
      case FormalParameter(Some(off)) =>
        && texts != [] && texts[0] == (if Plain(dies, off) == "" then "?" else Plain(dies, off))
        && AreParams(dies, cs[1..], texts[1..])
      case _ => AreParams(dies, cs[1..], texts)
  }

  /** A return type, void without one, a space and a parameter list. */
  ghost predicate IsFunction(dies: Dies, e: Entry, cs: seq<Child>, s: string)
    requires Acyclic(dies)
  {
    exists params, list ::
      && AreParams(dies, cs, params) && IsList(params, UnspecifiedParameters in cs, e.prototyped, list)
      && s == (if e.typ.Some? then TargetText(dies, e) else "void") + " " + list
  }

  /** What the type an entry leads to renders as, the empty string without one. */
  ghost function TargetText(dies: Dies, e: Entry): string
    requires Acyclic(dies)
  {
    if e.typ.Some? then Plain(dies, e.typ.value) else ""
  }

  /** The text of a type entry, from that of the type it leads to and of its parameters. */
  ghost predicate IsTextOf(dies: Dies, e: Entry, s: string)
    requires Acyclic(dies)
  {
    var target := TargetText(dies, e);
    match e.tag
    case BaseType => s == e.name.GetOr("")
    case UnspecifiedType => s == e.name.GetOr("")
    case PointerType => IsPointerTo(target, s)
    case ConstType => s == if e.typ.Some? then "const " + target else "const"
    case VolatileType => s == if e.typ.Some? then "volatile " + target else "volatile"
    case Typedef => s == e.name.GetOr("")
    case StructType => IsTagged("struct", e.name, s)
    case UnionType => IsTagged("union", e.name, s)
    case EnumerationType => IsTagged("enum", e.name, s)
    case ArrayType => s == target + "[]"
    case SubroutineType => IsFunction(dies, e, e.following, s)
    case OtherTag => s == e.name.GetOr("")
  }

  lemma {:induction false} JoinIsCommaList(parts: seq<string>)
    ensures Join(parts) == CommaList(parts)
  {
    JoinFromTheFront(parts, |parts|);
    assert parts[..|parts|] == parts;
  }

  lemma {:induction false} JoinAppends(parts: seq<string>, last: string)
    requires parts != []
    ensures Join(parts + [last]) == Join(parts) + ", " + last
  {
    var more := parts + [last];
    if |parts| == 1 {
      assert more[1..] == [last];
    } else {
      assert more[1..] == parts[1..] + [last];
      JoinAppends(parts[1..], last);
    }
  }

  lemma {:induction false} JoinFromTheFront(parts: seq<string>, k: nat)
    requires k <= |parts|
    ensures Join(parts[..k]) == CommaList(parts[..k])
  {
    if k > 1 {
      JoinFromTheFront(parts, k - 1);
      JoinAppends(parts[..k - 1], parts[k - 1]);
      assert parts[..k] == parts[..k - 1] + [parts[k - 1]] && parts[..k][..k - 1] == parts[..k - 1];
    }
  }

  lemma ListIs(params: seq<string>, variadic: bool, proto: bool)
    ensures IsList(params, variadic, proto, ParamList(params, variadic, proto))
  {
    JoinIsCommaList(params);
    hide Join, CommaList;
  }

  lemma PointerIs(inner: string)
    ensures IsPointerTo(inner, PointerTo(inner))
  {
    var k := IndexOf(inner, '(');
    if k > 0 {
      assert inner[k] == '(' && '(' !in inner[..k];
    }
  }

  lemma {:induction false} MoreParams(dies: Dies, cs: seq<Child>, texts: seq<string>, c: Child)
    requires Acyclic(dies) && AreParams(dies, cs, texts)
    ensures AreParams(dies, cs + [c], texts + if c.FormalParameter? then [ParamText(dies, c)] else [])
  {
    hide Plain;
    var more := if c.FormalParameter? then [ParamText(dies, c)] else [];
    if cs == [] {
      assert (cs + [c])[1..] == [] && texts + more == more;
    } else {
      assert (cs + [c])[1..] == cs[1..] + [c];
      if cs[0].FormalParameter? {
        MoreParams(dies, cs[1..], texts[1..], c);
        assert (texts + more)[1..] == texts[1..] + more;
      } else {
        MoreParams(dies, cs[1..], texts, c);
      }
    }
  }

  lemma {:induction false} ParamsAre(dies: Dies, cs: seq<Child>)
    requires Acyclic(dies)
    ensures AreParams(dies, cs, ParamTexts(dies, cs))
  {
    hide ParamText, Plain;
    if cs != [] {
      var n := |cs| - 1;
      ParamsAre(dies, cs[..n]);
      MoreParams(dies, cs[..n], ParamTexts(dies, cs[..n]), cs[n]);
      assert cs[..n] + [cs[n]] == cs;
      assert ParamTexts(dies, cs[..n]) + [] == ParamTexts(dies, cs[..n]);
    }
  }

  lemma SubroutineIs(dies: Dies, e: Entry)
    requires Acyclic(dies)
    ensures IsFunction(dies, e, e.following, SubroutineText(dies, e))
  {
    hide Plain, AreParams, IsList;
    ParamsAre(dies, e.following);
    ListIs(ParamTexts(dies, e.following), IsVariadic(e.following), e.prototyped);
  }

  lemma PlainIs(dies: Dies, off: Offset)
    requires Acyclic(dies) && off in dies && !dies[off].tag.SubroutineType?
    ensures var e := dies[off]; Plain(dies, off) == if Wraps(e.tag) then Wrapped(e, TargetText(dies, e)) else Leaf(e)
  {
    hide Wraps, Wrapped, Leaf, ParamList, Join;
  }

  /** Every rendering is the text spelled out above. */
  lemma RendersAsSpelled(dies: Dies, off: Offset)
    requires Acyclic(dies) && off in dies
    ensures IsTextOf(dies, dies[off], Plain(dies, off))
  {
    hide Plain, IsFunction, SubroutineText, IsPointerTo, TargetText, Acyclic;
    var e := dies[off];
    if e.tag.SubroutineType? {
      PlainSubroutine(dies, off);
      SubroutineIs(dies, e);
    } else {
      PlainIs(dies, off);
      PointerIs(TargetText(dies, e));
    }
  }

  /** A signature is so spelled too, but an entry that has no children of its own shows none of those that follow. */
  lemma SignatureIs(dies: Dies, e: Entry)
    requires Acyclic(dies)
    ensures IsFunction(dies, e, if e.children then e.following else [], SignatureText(dies, e))
  {
    hide Plain, AreParams, IsList;
    var cs := if e.children then e.following else [];
    ParamsAre(dies, cs);
    ListIs(ParamTexts(dies, cs), IsVariadic(cs), e.prototyped);
  }

  /** Any sequence of renderings through one shared cache gives, on an acyclic graph, what the plain recursive
      renderer gives for each. */
  method RenderAll(dies: Dies, offs: seq<Offset>) returns (texts: seq<string>)
    ensures |texts| == |offs|
    ensures Acyclic(dies) ==> forall i :: 0 <= i < |offs| ==> texts[i] == Plain(dies, offs[i])
    ensures Acyclic(dies) ==> forall i :: 0 <= i < |offs| && offs[i] in dies ==>
              IsTextOf(dies, dies[offs[i]], texts[i])
  {
    hide IsTextOf;
    if Acyclic(dies) {
      forall off | off in dies ensures IsTextOf(dies, dies[off], Plain(dies, off)) {
        RendersAsSpelled(dies, off);
      }
    }
    var tc := new TypeCache(dies);
    texts := [];
    for i := 0 to |offs|
      invariant |texts| == i && tc.dies == dies
      invariant Acyclic(dies) ==> AllPlain(dies, tc.cache)
      invariant Acyclic(dies) ==> forall j :: 0 <= j < i ==> texts[j] == Plain(dies, offs[j])
    {
      var s := tc.Render(offs[i]);
      texts := texts + [s];
    }
  }

  // ----- reading a type back -----

  datatype Prefix = Const | Volatile

  datatype Suffix = Pointer | Array

  /** Qualifiers from the left, what they and the stars and brackets stand around, and these from the left. */
  datatype Reading = Reading(prefixes: seq<Prefix>, base: string, suffixes: seq<Suffix>)

  function PrefixText(p: Prefix): string {
    match p case Const => "const " case Volatile => "volatile "
  }

  function PrefixesText(ps: seq<Prefix>): string {
    if ps == [] then "" else PrefixText(ps[0]) + PrefixesText(ps[1..])
  }

  predicate EndsIn(s: string, end: string) {
    |s| >= |end| && s[|s| - |end|..] == end
  }

  function Suffixed(base: string, ss: seq<Suffix>): string {
    if ss == [] then base
    else
      var t := Suffixed(base, ss[..|ss| - 1]);
      match ss[|ss| - 1]
      case Pointer => if EndsIn(t, "*") then t + "*" else t + " *"
      case Array => t + "[]"
  }

  function TextOf(r: Reading): string {
    PrefixesText(r.prefixes) + Suffixed(r.base, r.suffixes)
  }

  function ReadPrefixes(s: string): (seq<Prefix>, string) {
    if "const " <= s then
      var r := ReadPrefixes(s[6..]); ([Const] + r.0, r.1)
    else if "volatile " <= s then
      var r := ReadPrefixes(s[9..]); ([Volatile] + r.0, r.1)
    else ([], s)
  }

  function ReadSuffixes(s: string): (string, seq<Suffix>) {
    if EndsIn(s, "[]") then
      var r := ReadSuffixes(s[..|s| - 2]); (r.0, r.1 + [Array])
    else if EndsIn(s, "**") then
      var r := ReadSuffixes(s[..|s| - 1]); (r.0, r.1 + [Pointer])
    else if EndsIn(s, " *") then
      var r := ReadSuffixes(s[..|s| - 2]); (r.0, r.1 + [Pointer])
    else (s, [])
  }

  function ReadType(s: string): Reading {
    var p := ReadPrefixes(s);
    var r := ReadSuffixes(p.1);
    Reading(p.0, r.0, r.1)
  }

  /** A base that does not itself end in a star or brackets that would be read off it. */
  predicate EndsPlainly(base: string) {
    !EndsIn(base, "[]") && !EndsIn(base, "**") && !EndsIn(base, " *")
  }

  /** A base that does not begin with a qualifier, nor is one that the space before a star would complete. */
  predicate BeginsPlainly(base: string, ss: seq<Suffix>) {
    && !("const " <= base) && !("volatile " <= base)
    && (ss != [] && ss[0].Pointer? ==> base != "const" && base != "volatile")
  }

  lemma OnePrefixReadBack(p: Prefix, t: string)
    ensures ReadPrefixes(PrefixText(p) + t) == ([p] + ReadPrefixes(t).0, ReadPrefixes(t).1)
  {
    var s := PrefixText(p) + t;
    assert s[|PrefixText(p)|..] == t;
    if p.Volatile? {
      assert s[0] == 'v';
    }
  }

  lemma {:induction false} PrefixesReadBack(ps: seq<Prefix>, rest: string)
    ensures ReadPrefixes(PrefixesText(ps) + rest) == (ps + ReadPrefixes(rest).0, ReadPrefixes(rest).1)
  {
    hide ReadPrefixes, PrefixText;
    var r := ReadPrefixes(rest);
    if ps == [] {
      assert PrefixesText(ps) + rest == rest && ps + r.0 == r.0;
    } else {
      var tail := PrefixesText(ps[1..]) + rest;
      PrefixesReadBack(ps[1..], rest);
      OnePrefixReadBack(ps[0], tail);
      assert PrefixesText(ps) + rest == PrefixText(ps[0]) + tail;
      hide PrefixesText;
      assert [ps[0]] + (ps[1..] + r.0) == ps + r.0;
    }
  }

  lemma OneSuffixReadBack(t: string, suffix: Suffix)
    ensures var s := match suffix
                     case Pointer => if EndsIn(t, "*") then t + "*" else t + " *"
                     case Array => t + "[]";
            ReadSuffixes(s) == (ReadSuffixes(t).0, ReadSuffixes(t).1 + [suffix])
  {
    match suffix
    case Array =>
      var s := t + "[]";
      assert s[|s| - 2..] == "[]" && s[..|s| - 2] == t;
    case Pointer =>
      if EndsIn(t, "*") {
        var s := t + "*";
        assert s[|s| - 1] == '*' && s[|s| - 2] == '*' && s[..|s| - 1] == t;
        assert s[|s| - 2..] == "**";
      } else {
        var s := t + " *";
        assert s[|s| - 2..] == " *" && s[..|s| - 2] == t;
      }
  }

  lemma {:induction false} SuffixesReadBack(base: string, ss: seq<Suffix>)
    ensures ReadSuffixes(Suffixed(base, ss)) == (ReadSuffixes(base).0, ReadSuffixes(base).1 + ss)
  {
    if ss == [] {
      assert ReadSuffixes(base).1 + ss == ReadSuffixes(base).1;
    } else {
      var front, last := ss[..|ss| - 1], ss[|ss| - 1];
      SuffixesReadBack(base, front);
      OneSuffixReadBack(Suffixed(base, front), last);
      assert ReadSuffixes(base).1 + front + [last] == ReadSuffixes(base).1 + ss;
      hide ReadSuffixes;
    }
  }

  lemma {:induction false} SuffixedBegins(base: string, ss: seq<Suffix>)
    ensures |Suffixed(base, ss)| >= |base| && Suffixed(base, ss)[..|base|] == base
    ensures ss != [] ==>
              && |Suffixed(base, ss)| > |base|
              && (Suffixed(base, ss)[|base|] == ' ' <==> ss[0].Pointer? && !EndsIn(base, "*"))
  {
    if ss != [] {
      SuffixedBegins(base, ss[..|ss| - 1]);
      if |ss| == 1 {
        assert ss[..0] == [];
      }
    }
  }

  lemma BeginsWith(base: string, ss: seq<Suffix>, word: string)
    requires word == "const" || word == "volatile"
    ensures word + " " <= Suffixed(base, ss)
       <==> word + " " <= base || (ss != [] && ss[0].Pointer? && base == word)
  {
    var s, w := Suffixed(base, ss), word + " ";
    SuffixedBegins(base, ss);
    assert w[|word|] == ' ' && w[..|word|] == word;
    if w <= s {
      if |base| >= |w| {
        assert s[..|w|] == base[..|w|];
      } else {
        assert base == w[..|base|];
        if |base| < |word| && ss != [] {
          NoStarInside(base, ss, word);
        }
        if |base| == |word| {
          assert base == word;
          assert s[|base|] == ' ';
        }
      }
    }
    if w <= base {
      assert s[..|w|] == base[..|w|];
    }
  }

  /** What follows a base is a space, a star or a bracket, none of which is inside a qualifier. */
  lemma NoStarInside(base: string, ss: seq<Suffix>, word: string)
    requires (word == "const" || word == "volatile") && ss != [] && |base| < |word| && base == word[..|base|]
    ensures |Suffixed(base, ss)| > |base| && Suffixed(base, ss)[|base|] != word[|base|]
  {
    FollowsBase(base, ss);
  }

  lemma {:induction false} FollowsBase(base: string, ss: seq<Suffix>)
    requires ss != []
    ensures |Suffixed(base, ss)| > |base| && Suffixed(base, ss)[|base|] in " *["
  {
    var front := ss[..|ss| - 1];
    SuffixedBegins(base, front);
    if front != [] {
      FollowsBase(base, front);
    }
  }

  lemma EndsPlainlyReads(base: string)
    ensures ReadSuffixes(base) == (base, []) <==> EndsPlainly(base)
  {
    if !EndsPlainly(base) {
      assert ReadSuffixes(base).1 != [];
    }
  }

  lemma BeginsPlainlyReads(base: string, ss: seq<Suffix>)
    ensures ReadPrefixes(Suffixed(base, ss)).0 == [] <==> BeginsPlainly(base, ss)
    ensures BeginsPlainly(base, ss) ==> ReadPrefixes(Suffixed(base, ss)).1 == Suffixed(base, ss)
  {
    BeginsWith(base, ss, "const");
    BeginsWith(base, ss, "volatile");
    assert "const" + " " == "const " && "volatile" + " " == "volatile ";
    hide Suffixed;
  }

  lemma LongerDiffers<T>(a: seq<T>, b: seq<T>)
    ensures a + b == a <==> b == []
    ensures b + a == a <==> b == []
  {
    assert |a + b| == |a| + |b|;
  }

  /** A type reads back from its text exactly when its base neither begins nor ends like what is around it. */
  lemma ReadsBackExactlyWhen(r: Reading)
    ensures ReadType(TextOf(r)) == r <==> EndsPlainly(r.base) && BeginsPlainly(r.base, r.suffixes)
  {
    var rest := Suffixed(r.base, r.suffixes);
    PrefixesReadBack(r.prefixes, rest);
    SuffixesReadBack(r.base, r.suffixes);
    EndsPlainlyReads(r.base);
    BeginsPlainlyReads(r.base, r.suffixes);
    LongerDiffers(r.prefixes, ReadPrefixes(rest).0);
    LongerDiffers(r.suffixes, ReadSuffixes(r.base).1);
    hide Suffixed, EndsPlainly, BeginsPlainly, ReadPrefixes, ReadSuffixes, PrefixesText;
  }

  // ----- the chain of a type entry -----

  /** The text of a function type, or of pointers to one: a pointer to it is spliced in, not appended. */
  predicate IsFunctionForm(s: string) {
    s != "" && s[|s| - 1] == ')' && s[0] != '(' && '(' in s
  }

  predicate IsQualifier(tag: Tag) { tag.ConstType? || tag.VolatileType? }

  /** The qualifiers, pointers and arrays from an entry down to the first that is none of these, where a pointer to
      nothing is one to void, and a pointer to a function type stands for itself. */
  ghost function ChainOf(dies: Dies, off: Offset): Reading
    requires Acyclic(dies)
    decreases Height(dies, off), 0
  {
    if off !in dies then Reading([], "", [])
    else
      var e := dies[off];
      if IsQualifier(e.tag) && e.typ.Some? then
        var r := TargetChain(dies, off);
        Reading([if e.tag.ConstType? then Const else Volatile] + r.prefixes, r.base, r.suffixes)
      else if e.tag.ArrayType? then
        var r := TargetChain(dies, off);
        Reading(r.prefixes, r.base, r.suffixes + [Array])
      else if e.tag.PointerType? && TargetText(dies, e) == "" then Reading([], "void", [Pointer])
      else if e.tag.PointerType? && !IsFunctionForm(TargetText(dies, e)) then
        var r := TargetChain(dies, off);
        Reading(r.prefixes, r.base, r.suffixes + [Pointer])
      else Reading([], Plain(dies, off), [])
  }

  ghost function TargetChain(dies: Dies, off: Offset): Reading
    requires Acyclic(dies) && off in dies && Wraps(dies[off].tag)
    decreases Height(dies, off), 0, 0
  {
    if dies[off].typ.None? then Reading([], "", [])
    else
      EdgesDescend(dies, off, dies[off].typ.value);
      ChainOf(dies, dies[off].typ.value)
  }

  lemma MoreSuffixed(r: Reading, suffix: Suffix)
    ensures var t := TextOf(r);
            TextOf(r.(suffixes := r.suffixes + [suffix]))
            == match suffix
               case Array => t + "[]"
               case Pointer => if t != "" && t[|t| - 1] == '*' then t + "*" else t + " *"
  {
    hide PrefixesText, EndsIn;
    var p, more, t := PrefixesText(r.prefixes), r.suffixes + [suffix], Suffixed(r.base, r.suffixes);
    assert more[..|more| - 1] == r.suffixes && more[|more| - 1] == suffix;
    PrefixesEndInSpace(r.prefixes);
    StarBehind(p, t);
    Regrouped(p, t, "[]");
    Regrouped(p, t, "*");
    Regrouped(p, t, " *");
  }

  lemma StarBehind(p: string, t: string)
    requires p != "" ==> p[|p| - 1] == ' '
    ensures EndsIn(t, "*") <==> p + t != "" && (p + t)[|p + t| - 1] == '*'
  {
    if t == "" {
      assert p + t == p;
    } else {
      assert t[|t| - 1..] == [t[|t| - 1]];
    }
  }

  lemma {:induction false} PrefixesEndInSpace(ps: seq<Prefix>)
    ensures ps != [] ==> PrefixesText(ps) != "" && PrefixesText(ps)[|PrefixesText(ps)| - 1] == ' '
    ensures ps == [] ==> PrefixesText(ps) == ""
  {
    if ps != [] {
      PrefixesEndInSpace(ps[1..]);
    }
  }

  lemma MorePrefixed(r: Reading, p: Prefix)
    ensures TextOf(r.(prefixes := [p] + r.prefixes)) == PrefixText(p) + TextOf(r)
  {
    var ps := [p] + r.prefixes;
    assert ps[1..] == r.prefixes;
    hide PrefixText, Suffixed;
  }

  lemma JustBase(base: string)
    ensures TextOf(Reading([], base, [])) == base
  {
  }

  lemma NothingThere(dies: Dies, off: Offset)
    requires Acyclic(dies) && off !in dies
    ensures Plain(dies, off) == ""
  {
  }

  lemma TargetIs(dies: Dies, e: Entry)
    requires Acyclic(dies)
    ensures TargetText(dies, e) == if e.typ.Some? then Plain(dies, e.typ.value) else ""
  {
    hide Plain;
  }

  /** Every rendering is the text of its chain. */
  lemma {:induction false} RendersItsChain(dies: Dies, off: Offset)
    requires Acyclic(dies)
    ensures Plain(dies, off) == TextOf(ChainOf(dies, off))
    decreases Height(dies, off)
  {
    hide TextOf, Plain, IsFunction, TargetText;
    if off !in dies {
      JustBase("");
      NothingThere(dies, off);
    } else {
      var e := dies[off];
      RendersAsSpelled(dies, off);
      if Wraps(e.tag) {
        if e.typ.Some? {
          EdgesDescend(dies, off, e.typ.value);
          RendersItsChain(dies, e.typ.value);
        } else {
          JustBase("");
        }
        var r := TargetChain(dies, off);
        TargetIs(dies, e);
        MoreSuffixed(r, Array);
        MoreSuffixed(r, Pointer);
        MorePrefixed(r, Const);
        MorePrefixed(r, Volatile);
      }
      VoidPointer();
      JustBase(Plain(dies, off));
    }
  }

  lemma VoidPointer()
    ensures TextOf(Reading([], "void", [Pointer])) == "void *"
  {
    MoreSuffixed(Reading([], "void", []), Pointer);
    JustBase("void");
    assert [] + [Pointer] == [Pointer];
  }

  /** The chain of a type is read back from its rendering exactly when its base neither begins nor ends like what
      is around it. */
  lemma ChainReadsBackExactlyWhen(dies: Dies, off: Offset)
    requires Acyclic(dies)
    ensures var r := ChainOf(dies, off);
            ReadType(Plain(dies, off)) == r <==> EndsPlainly(r.base) && BeginsPlainly(r.base, r.suffixes)
  {
    RendersItsChain(dies, off);
    ReadsBackExactlyWhen(ChainOf(dies, off));
    hide Plain, ChainOf, TextOf, ReadType;
  }

  // ----- tagged names -----

  /** The tag a name stands under and the name, empty for a tag alone. */
  datatype Named = Named(tag: Tag, name: string)

  function ReadTagged(s: string): Named {
    if s == "struct" then Named(StructType, "")
    else if s == "union" then Named(UnionType, "")
    else if s == "enum" then Named(EnumerationType, "")
    else if "struct " <= s then Named(StructType, s[7..])
    else if "union " <= s then Named(UnionType, s[6..])
    else if "enum " <= s then Named(EnumerationType, s[5..])
    else Named(OtherTag, s)
  }

  predicate HasTag(tag: Tag) { tag.StructType? || tag.UnionType? || tag.EnumerationType? }

  /** Entries known by their names, with a tag or without. */
  predicate IsNamed(tag: Tag) {
    HasTag(tag) || tag.BaseType? || tag.UnspecifiedType? || tag.Typedef? || tag.OtherTag?
  }

  predicate LooksTagged(name: string) {
    name in {"struct", "union", "enum"} || "struct " <= name || "union " <= name || "enum " <= name
  }

  /** Tag and name read back from the rendering, except where a name without a tag is spelled like one with. */
  lemma TaggedReadsBackExactlyWhen(dies: Dies, off: Offset)
    requires Acyclic(dies) && off in dies && IsNamed(dies[off].tag)
    ensures var e := dies[off];
            ReadTagged(Plain(dies, off)) == Named(if HasTag(e.tag) then e.tag else OtherTag, e.name.GetOr(""))
            <==> HasTag(e.tag) || !LooksTagged(e.name.GetOr(""))
  {
    RendersAsSpelled(dies, off);
    var e, s := dies[off], Plain(dies, off);
    hide Plain;
    var name := e.name.GetOr("");
    match e.tag
    case StructType => if name != "" { assert s[7..] == name; }
    case UnionType => if name != "" { assert s[6..] == name && s[0] == 'u'; }
    case EnumerationType => if name != "" { assert s[5..] == name && s[0] == 'e'; }
    case _ =>
  }
}
