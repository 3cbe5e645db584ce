/** The decoder behind the call-target route for indirect calls: ULEB128 numbers and the DWARF expressions
    that name a register. */
module CallTarget {
  type Byte = x: nat | x < 256

  type Expr = seq<Byte>

  const U64 := 0x1_0000_0000_0000_0000
  const I63 := 0x8000_0000_0000_0000

  // ----- ULEB128, section 7.6 of DWARF v5 -----

  function Pow128(k: nat): (p: nat)
    ensures p >= 1
  {
    if k == 0 then 1 else 128 * Pow128(k - 1)
  }

  /** The number a ULEB128 encodes: seven bits a byte, least significant first. */
  function Payload(code: Expr): nat {
    if code == [] then 0 else Payload(code[..|code| - 1]) + code[|code| - 1] % 128 * Pow128(|code| - 1)
  }

  /** All bytes but the last carry the continuation bit, and at most ten bytes are read. */
  predicate IsUleb(code: Expr) {
    && 0 < |code| <= 10 && code[|code| - 1] < 128
    && forall i :: 0 <= i < |code| - 1 ==> code[i] >= 128
  }

  /** The reader's answer: the value in 64 bits and the bytes it took, or no bytes. */
  datatype Decoded = Decoded(value: nat, width: nat)

  ghost predicate IsUlebAnswer(b: Expr, d: Decoded) {
    if d.width == 0 then d.value == 0 && forall n :: 0 < n <= |b| ==> !IsUleb(b[..n])
    else d.width <= |b| && IsUleb(b[..d.width]) && d.value == Payload(b[..d.width]) % U64
  }

  /** The end of the first number in b, or 0. */
  function UlebWidth(b: Expr, from: nat): (w: nat)
    requires from <= |b|
    ensures w != 0 ==> from < w <= |b|
    decreases |b| - from
  {
    if from >= 10 || from == |b| then 0
    else if b[from] < 128 then from + 1
    else UlebWidth(b, from + 1)
  }

  function Uleb(b: Expr): (d: Decoded)
    ensures d.width <= |b| && d.value < U64
  {
    var w := UlebWidth(b, 0);
    if w == 0 then Decoded(0, 0) else Decoded(Payload(b[..w]) % U64, w)
  }

  lemma {:induction false} WidthIsExact(b: Expr, from: nat)
    requires from <= |b| && from <= 10
    requires forall i :: 0 <= i < from ==> b[i] >= 128
    ensures var w := UlebWidth(b, from);
            if w == 0 then forall n :: 0 < n <= |b| ==> !IsUleb(b[..n]) else IsUleb(b[..w])
    decreases |b| - from
  {
    var w := UlebWidth(b, from);
    if from < 10 && from < |b| && b[from] >= 128 {
      WidthIsExact(b, from + 1);
    } else if w == 0 {
      forall n | 0 < n <= |b| ensures !IsUleb(b[..n]) {
        assert b[..n][n - 1] == b[n - 1];
      }
    }
  }

  lemma OneNumberInFront(b: Expr, m: nat, n: nat)
    requires 0 < m < n <= |b| && IsUleb(b[..m])
    ensures !IsUleb(b[..n])
  {
    assert b[..n][m - 1] == b[..m][m - 1];
  }

  /** There is at most one number at the front of any bytes, and the reader finds it if there is one. */
  lemma UlebIsExact(b: Expr)
    ensures IsUlebAnswer(b, Uleb(b))
  {
    WidthIsExact(b, 0);
  }

  lemma UlebOfCode(code: Expr, rest: Expr)
    requires IsUleb(code)
    ensures Uleb(code + rest) == Decoded(Payload(code) % U64, |code|)
  {
    var b := code + rest;
    UlebIsExact(b);
    var w := Uleb(b).width;
    assert b[..|code|] == code;
    assert w != 0;
    if w < |code| {
      OneNumberInFront(b, w, |code|);
      assert false;
    } else if w > |code| {
      OneNumberInFront(b, |code|, w);
      assert false;
    }
  }

  lemma GroupIsBounded(g: nat, p: nat)
    requires g < 128
    ensures g * p <= 127 * p
  {
  }

  lemma {:induction false} PayloadIsBounded(code: Expr)
    ensures Payload(code) < Pow128(|code|)
  {
    if code != [] {
      var n := |code| - 1;
      PayloadIsBounded(code[..n]);
      GroupIsBounded(code[n] % 128, Pow128(n));
    }
  }

  /** The loop: each byte's seven bits are or-ed in at the shift, in 64-bit arithmetic. The bits below the
      shift are the only ones already set, so the or is a sum. */
  method ReadUleb(b: Expr) returns (v: nat, n: nat)
    ensures Decoded(v, n) == Uleb(b)
  {
    v := 0;
    var shift := 0;
    for i := 0 to |b|
      invariant shift == 7 * i && i <= 10
      invariant v < U64 && v == Payload(b[..i]) % U64
      invariant UlebWidth(b, 0) == UlebWidth(b, i)
    {
      var c := b[i];
      if shift >= 64 {
        return 0, 0;
      }
      OrIsSum(b, i, v);
      v := v + c % 128 * Pow128(i) % U64;
      if c < 128 {
        return v, i + 1;
      }
      shift := shift + 7;
    }
    return 0, 0;
  }

  lemma TenGroups()
    ensures Pow128(9) == I63
  {
    assert Pow128(4) == 0x1000_0000;
    assert Pow128(8) == 0x100_0000_0000_0000;
  }

  lemma {:induction false} Pow128Grows(i: nat, j: nat)
    requires i <= j
    ensures Pow128(i) <= Pow128(j)
  {
    if i < j {
      Pow128Grows(i, j - 1);
    }
  }

  lemma OrIsSum(b: Expr, i: nat, v: nat)
    requires i < |b| && i < 10 && v == Payload(b[..i]) % U64
    ensures v < Pow128(i)
    ensures v + b[i] % 128 * Pow128(i) % U64 == Payload(b[..i + 1]) % U64
    ensures v + b[i] % 128 * Pow128(i) % U64 < U64
  {
    TenGroups();
    Pow128Grows(i, 9);
    PayloadIsBounded(b[..i]);
    assert b[..i + 1][..i] == b[..i];
    var g, p, low := b[i] % 128, Pow128(i), Payload(b[..i]);
    assert Payload(b[..i + 1]) == low + g * p;
    assert p <= I63;
    if i < 9 {
      Pow128Grows(i + 1, 9);
      assert 128 * p <= I63;
    }
    hide Payload, Pow128;
    GroupAdds(low, g, p, i == 9);
  }

  /** Adding a group above the bits already set stays within 64 bits, or loses the top group's high bits. */
  lemma GroupAdds(low: nat, g: nat, p: nat, top: bool)
    requires g < 128 && low < p && (if top then p == I63 else 128 * p <= I63)
    ensures low % U64 == low
    ensures low + g * p % U64 == (low + g * p) % U64 && low + g * p % U64 < U64
  {
    GroupIsBounded(g, p);
    SmallMod(low);
    if top {
      TopGroup(g);
      ModAdds(low, g * p);
    } else {
      SmallMod(g * p);
      SmallMod(low + g * p);
    }
  }

  lemma SmallMod(x: nat)
    requires x < U64
    ensures x % U64 == x
  {
  }

  lemma ModAdds(low: nat, high: nat)
    requires low + high % U64 < U64
    ensures (low + high) % U64 == low + high % U64
  {
  }

  lemma TopGroup(g: nat)
    requires g < 128
    ensures g * I63 % U64 == g % 2 * I63
  {
    assert g == g / 2 * 2 + g % 2;
    assert g * I63 == g / 2 * U64 + g % 2 * I63;
    ModOfMultiple(g / 2, g % 2 * I63);
  }

  lemma ModOfMultiple(q: nat, r: nat)
    requires r < U64
    ensures (q * U64 + r) % U64 == r
  {
  }

  /** The shortest encoding of a number. */
  function EncodeUleb(v: nat): Expr {
    if v < 128 then [v] else [128 + v % 128] + EncodeUleb(v / 128)
  }

  lemma {:induction false} PayloadFromFront(c: Byte, code: Expr)
    ensures Payload([c] + code) == c % 128 + 128 * Payload(code)
  {
    if code == [] {
      assert Payload([c]) == Payload([c][..0]) + c % 128 * Pow128(0);
    } else {
      var n := |code| - 1;
      PayloadFromFront(c, code[..n]);
      var whole := [c] + code;
      assert whole[..n + 1] == [c] + code[..n];
      assert code[n] % 128 * Pow128(n + 1) == 128 * (code[n] % 128 * Pow128(n));
    }
  }

  lemma NoPayload()
    ensures Payload([]) == 0
  {
  }

  lemma QuotientFits(v: nat, k: nat)
    requires 128 <= v < Pow128(k)
    ensures k > 1 && v / 128 < Pow128(k - 1)
  {
    assert Pow128(1) == 128 * Pow128(0);
  }

  lemma {:induction false} EncodingIsUleb(v: nat, k: nat)
    requires v < Pow128(k) && k > 0
    ensures 0 < |EncodeUleb(v)| <= k && EncodeUleb(v)[|EncodeUleb(v)| - 1] < 128
    ensures forall i :: 0 <= i < |EncodeUleb(v)| - 1 ==> EncodeUleb(v)[i] >= 128
    ensures Payload(EncodeUleb(v)) == v
    decreases k
  {
    hide Payload, Pow128;
    if v < 128 {
      NoPayload();
      PayloadFromFront(v, []);
      assert [v] + [] == [v];
    } else {
      QuotientFits(v, k);
      EncodingIsUleb(v / 128, k - 1);
      PayloadFromFront(128 + v % 128, EncodeUleb(v / 128));
    }
  }

  /** Every number below 2^64 is read back, with the exact length of its encoding, whatever follows. */
  lemma UlebRoundTrip(v: nat, rest: Expr)
    requires v < U64
    ensures Uleb(EncodeUleb(v) + rest) == Decoded(v, |EncodeUleb(v)|)
  {
    TenGroups();
    assert Pow128(10) == 128 * Pow128(9);
    EncodingIsUleb(v, 10);
    UlebOfCode(EncodeUleb(v), rest);
  }

  // ----- register expressions -----

  const OP_REG0 := 0x50
  const OP_REG31 := 0x6f
  const OP_REGX := 0x90
  const OP_ENTRY_VALUE := 0xa3

  /** OutOfRange is where the code slices with a length that its conversion to int made negative. */
  datatype RegAnswer = Register(number: nat) | NotARegister | OutOfRange

  function DecodeRegExpr(expr: Expr): RegAnswer
    decreases |expr|
  {
    if |expr| == 0 then NotARegister
    else if expr[0] == OP_ENTRY_VALUE then
      var d := Uleb(expr[1..]);
      if d.width == 0 then NotARegister
      else if d.value >= I63 then OutOfRange
      else if d.value > |expr| - 1 - d.width then NotARegister
      else DecodeRegExpr(expr[1 + d.width..1 + d.width + d.value])
    else if OP_REG0 <= expr[0] <= OP_REG31 && |expr| == 1 then Register(expr[0] - OP_REG0)
    else if expr[0] == OP_REGX then
      var d := Uleb(expr[1..]);
      if d.width == 0 || d.width != |expr| - 1 then NotARegister else Register(d.value)
    else NotARegister
  }

  /** The expressions that name a register: DW_OP_regN, DW_OP_regx with any encoding of the number, and
      either of them under any number of DW_OP_entry_value wrappers, each with any encoding of the length
      and anything after the wrapped expression. */
  datatype RegExpr =
    | RegN(number: nat)
    | RegX(code: Expr)
    | EntryValue(code: Expr, inner: RegExpr, trailing: Expr)

  predicate IsRegExpr(e: RegExpr) {
    match e
    case RegN(n) => n < 32
    case RegX(code) => IsUleb(code)
    case EntryValue(code, inner, _) =>
      IsRegExpr(inner) && IsUleb(code) && Payload(code) % U64 == |Serialise(inner)| < I63
  }

  function Serialise(e: RegExpr): Expr {
    match e
    case RegN(n) => if n < 32 then [OP_REG0 + n] else []
    case RegX(code) => [OP_REGX] + code
    case EntryValue(code, inner, trailing) => [OP_ENTRY_VALUE] + code + Serialise(inner) + trailing
  }

  function RegisterOf(e: RegExpr): nat {
    match e
    case RegN(n) => n
    case RegX(code) => Payload(code) % U64
    case EntryValue(_, inner, _) => RegisterOf(inner)
  }

  lemma {:induction false} DecodesRegExpr(e: RegExpr)
    requires IsRegExpr(e)
    ensures DecodeRegExpr(Serialise(e)) == Register(RegisterOf(e))
  {
    assert e.RegX? ==> |e.code| > 0;
    assert e.EntryValue? ==> |e.code| > 0;
    hide Uleb, Payload, IsUleb;
    var s := Serialise(e);
    match e
    case RegN(_) =>
    case RegX(code) =>
      assert s[1..] == code + [];
      UlebOfCode(code, []);
    case EntryValue(code, inner, trailing) =>
      var body := Serialise(inner);
      assert s[1..] == code + (body + trailing);
      UlebOfCode(code, body + trailing);
      assert s[1 + |code|..1 + |code| + |body|] == body;
      DecodesRegExpr(inner);
  }

  /** Whatever decodes to a register is such an expression. */
  lemma {:induction false} OnlyRegExprsDecode(expr: Expr) returns (e: RegExpr)
    requires DecodeRegExpr(expr).Register?
    ensures IsRegExpr(e) && Serialise(e) == expr && RegisterOf(e) == DecodeRegExpr(expr).number
    decreases |expr|
  {
    var d := Uleb(expr[1..]);
    UlebIsExact(expr[1..]);
    if expr[0] == OP_ENTRY_VALUE {
      var w, n := d.width, d.value;
      var code, body, trailing := expr[1..][..w], expr[1 + w..1 + w + n], expr[1 + w + n..];
      assert IsUleb(code) && Payload(code) % U64 == n;
      hide Uleb, Payload, IsUleb, UlebWidth;
      var inner := OnlyRegExprsDecode(body);
      e := EntryValue(code, inner, trailing);
      FourParts(expr, w, n);
    } else if OP_REG0 <= expr[0] <= OP_REG31 && |expr| == 1 {
      e := RegN(expr[0] - OP_REG0);
      assert expr == [expr[0]];
    } else {
      e := RegX(expr[1..]);
      assert expr[1..][..|expr| - 1] == expr[1..];
      assert expr == [OP_REGX] + expr[1..];
    }
  }

  lemma FourParts(expr: Expr, w: nat, n: nat)
    requires 1 + w + n <= |expr|
    ensures expr == [expr[0]] + expr[1..][..w] + expr[1 + w..1 + w + n] + expr[1 + w + n..]
  {
  }

  /** Every length an entry_value announces, down to where decoding stops, fits a signed 64-bit integer. */
  predicate LengthsFit(expr: Expr)
    decreases |expr|
  {
    |expr| > 0 && expr[0] == OP_ENTRY_VALUE ==>
      var d := Uleb(expr[1..]);
      d.width > 0 ==>
        d.value < I63 &&
        (d.value <= |expr| - 1 - d.width ==> LengthsFit(expr[1 + d.width..1 + d.width + d.value]))
  }

  /** Decoding stays in range exactly when they do. */
  lemma {:induction false} InRangeExactlyWhen(expr: Expr)
    ensures DecodeRegExpr(expr) != OutOfRange <==> LengthsFit(expr)
    decreases |expr|
  {
    if |expr| > 0 && expr[0] == OP_ENTRY_VALUE {
      var d := Uleb(expr[1..]);
      if d.width > 0 && d.value < I63 && d.value <= |expr| - 1 - d.width {
        InRangeExactlyWhen(expr[1 + d.width..1 + d.width + d.value]);
      }
    }
  }

  /** A length of 2^63, ten bytes long, is already out of range. */
  lemma LengthTooLong()
    ensures DecodeRegExpr([OP_ENTRY_VALUE] + EncodeUleb(I63)) == OutOfRange
  {
    UlebRoundTrip(I63, []);
    var expr := [OP_ENTRY_VALUE] + EncodeUleb(I63);
    assert expr[1..] == EncodeUleb(I63) + [];
  }

  // ----- the bytes that name a register -----

  /** The number whose groups of seven bits these are, the first the least significant. */
  function Sevens(code: Expr): nat {
    if code == [] then 0 else code[0] % 128 + 128 * Sevens(code[1..])
  }

  /** One to ten bytes, the high bit of all but the last set; of the number, what fits in 64 bits. */
  predicate IsNumber(code: Expr, v: nat) {
    && 1 <= |code| <= 10 && code[|code| - 1] < 128 && (forall i :: 0 <= i < |code| - 1 ==> code[i] >= 128)
    && v == Sevens(code) % 18_446_744_073_709_551_616
  }

  /** One byte from 0x50 to 0x6f; 0x90 and a number; or 0xa3, a number and at least so many bytes, the first so many
      of which name the register. */
  ghost predicate NamesRegister(b: Expr, reg: nat)
    decreases |b|
  {
    || (|b| == 1 && 0x50 <= b[0] <= 0x6f && reg == b[0] - 0x50)
    || (|b| > 1 && b[0] == 0x90 && IsNumber(b[1..], reg))
    || exists w: nat, n: nat :: IsWrapper(b, w, n) && NamesRegister(b[1 + w..1 + w + n], reg)
  }

  predicate IsWrapper(b: Expr, w: nat, n: nat) {
    1 + w + n <= |b| && b[0] == 0xa3 && IsNumber(b[1..1 + w], n) && n < 0x8000_0000_0000_0000
  }

  lemma {:induction false} PayloadIs(code: Expr)
    ensures Payload(code) == Sevens(code)
  {
    if code == [] {
      NoPayload();
    } else {
      PayloadIs(code[1..]);
      PayloadFromFront(code[0], code[1..]);
      assert [code[0]] + code[1..] == code;
    }
  }

  lemma NumberIs(b: Expr, w: nat, v: nat)
    requires w <= |b|
    ensures IsNumber(b[..w], v) <==> w != 0 && Uleb(b) == Decoded(v, w)
  {
    hide Payload, Sevens, Uleb;
    PayloadIs(b[..w]);
    UlebIsExact(b);
    if IsUleb(b[..w]) {
      assert b[..w] + b[w..] == b;
      UlebOfCode(b[..w], b[w..]);
    }
  }

  /** Just these bytes decode to a register. */
  lemma {:induction false} DecodesExactly(b: Expr, reg: nat)
    ensures DecodeRegExpr(b) == Register(reg) <==> NamesRegister(b, reg)
    decreases |b|
  {
    hide IsNumber, Uleb;
    if |b| > 1 && b[0] == 0x90 {
      NumberIs(b[1..], |b| - 1, reg);
      assert b[1..][..|b| - 1] == b[1..];
    } else if |b| > 1 && b[0] == 0xa3 {
      var d := Uleb(b[1..]);
      forall w: nat, n: nat | IsWrapper(b, w, n) ensures w != 0 && d == Decoded(n, w) {
        NumberIs(b[1..], w, n);
        assert b[1..][..w] == b[1..1 + w];
      }
      if d.width != 0 && d.value < I63 && d.value <= |b| - 1 - d.width {
        NumberIs(b[1..], d.width, d.value);
        assert b[1..][..d.width] == b[1..1 + d.width];
        assert IsWrapper(b, d.width, d.value);
        DecodesExactly(b[1 + d.width..1 + d.width + d.value], reg);
      }
    }
  }
}
