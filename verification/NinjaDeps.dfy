/** The reader of ninja's binary dependency log: length-prefixed records, path ids checked by their
    complement, last record wins, and a tail cut off at any byte tolerated. */
module NinjaDeps {
  import opened Wrappers

  newtype Byte = x: int | 0 <= x < 256

  type Bytes = seq<Byte>

  const MAGIC: Bytes := [0x23, 0x20, 0x6e, 0x69, 0x6e, 0x6a, 0x61, 0x64, 0x65, 0x70, 0x73, 0x0a]
  const SUPPORTED_VERSION := 4
  const HEADER_SIZE := 16
  const DEPS_BIT := 0x8000_0000
  const MAX_SIZE := 0x100_0000
  const U32 := 0x1_0000_0000

  /** binary.LittleEndian.Uint32 */
  function U32At(b: Bytes, at: nat): (v: nat)
    requires at + 4 <= |b|
    ensures v < U32
  {
    b[at] as nat + 0x100 * b[at + 1] as nat + 0x1_0000 * b[at + 2] as nat + 0x100_0000 * b[at + 3] as nat
  }

  function EncodeU32(v: nat): (b: Bytes)
    requires v < U32
    ensures |b| == 4 && U32At(b, 0) == v
  {
    var high := v / 0x100;
    var higher := high / 0x100;
    [(v % 0x100) as Byte, (high % 0x100) as Byte, (higher % 0x100) as Byte, (higher / 0x100) as Byte]
  }

  /** The checksum of the id-th path: the complement of the id, in 32 bits. */
  function Complement(id: nat): (c: nat)
    ensures c < U32
  {
    U32 - 1 - id % U32
  }

  // ----- what a log means -----

  datatype Record =
    | PathRecord(path: Bytes)
    | DepsRecord(out: nat, mtime: nat, inputs: seq<nat>)

  /** The paths registered so far, in order of their ids, and the inputs last recorded for each output. */
  datatype Replay = Replay(paths: seq<Bytes>, deps: map<Bytes, seq<Bytes>>)

  const START := Replay([], map[])

  /** Ids of paths not registered are passed over. */
  function Resolve(paths: seq<Bytes>, ids: seq<nat>): seq<Bytes> {
    if ids == [] then []
    else
      var rest := Resolve(paths, ids[..|ids| - 1]);
      if ids[|ids| - 1] < |paths| then rest + [paths[ids[|ids| - 1]]] else rest
  }

  function Apply(st: Replay, r: Record): Replay {
    match r
    case PathRecord(path) => st.(paths := st.paths + [path])
    case DepsRecord(out, _, inputs) =>
      if out < |st.paths| then st.(deps := st.deps[st.paths[out] := Resolve(st.paths, inputs)]) else st
  }

  /** The records replayed in order, the last one for an output winning. */
  function ReplayAll(rs: seq<Record>): Replay {
    if rs == [] then START else Apply(ReplayAll(rs[..|rs| - 1]), rs[|rs| - 1])
  }

  // ----- how ninja writes it -----

  function Padding(n: nat): nat { (4 - n % 4) % 4 }

  predicate ValidRecord(r: Record) {
    match r
    case PathRecord(path) =>
      && (path != [] ==> path[|path| - 1] != 0)
      && |path| + Padding(|path|) + 4 <= MAX_SIZE
    case DepsRecord(out, mtime, inputs) =>
      && out < U32 && mtime < U32 * U32 && 12 + 4 * |inputs| <= MAX_SIZE
      && forall i :: 0 <= i < |inputs| ==> inputs[i] < U32
  }

  function EncodeIds(ids: seq<nat>): (b: Bytes)
    requires forall i :: 0 <= i < |ids| ==> ids[i] < U32
    ensures |b| == 4 * |ids|
  {
    if ids == [] then [] else EncodeIds(ids[..|ids| - 1]) + EncodeU32(ids[|ids| - 1])
  }

  function Zeros(n: nat): Bytes {
    seq(n, _ => 0)
  }

  function Body(r: Record, id: nat): (b: Bytes)
    requires ValidRecord(r)
    ensures 4 <= |b| <= MAX_SIZE
  {
    match r
    case PathRecord(path) => path + Zeros(Padding(|path|)) + EncodeU32(Complement(id))
    case DepsRecord(out, mtime, inputs) =>
      EncodeU32(out) + EncodeU32(mtime % U32) + EncodeU32(mtime / U32) + EncodeIds(inputs)
  }

  /** One record, given how many paths come before it. */
  function EncodeRecord(r: Record, id: nat): Bytes
    requires ValidRecord(r)
  {
    var body := Body(r, id);
    EncodeU32(|body| + if r.DepsRecord? then DEPS_BIT else 0) + body
  }

  ghost predicate ValidLog(rs: seq<Record>) {
    forall i :: 0 <= i < |rs| ==> ValidRecord(rs[i])
  }

  /** Records one after another, the first of them with pathCount paths before it. */
  function EncodeRecords(rs: seq<Record>, pathCount: nat): Bytes
    requires forall i :: 0 <= i < |rs| ==> ValidRecord(rs[i])
  {
    if rs == [] then []
    else
      EncodeRecord(rs[0], pathCount) + EncodeRecords(rs[1..], if rs[0].PathRecord? then pathCount + 1 else pathCount)
  }

  function Encode(rs: seq<Record>): Bytes
    requires forall i :: 0 <= i < |rs| ==> ValidRecord(rs[i])
  {
    MAGIC + EncodeU32(SUPPORTED_VERSION) + EncodeRecords(rs, 0)
  }

  // ----- how herbarium reads it -----

  datatype Problem = ShortHeader | BadMagic | ShortVersion | Unsupported | MalformedDeps | BadChecksum

  /** Read gives the log back alone, or with an error about a record, or an error alone. */
  datatype Result =
    | Ok(deps: map<Bytes, seq<Bytes>>)
    | Partial(deps: map<Bytes, seq<Bytes>>, problem: Problem)
    | Refused(problem: Problem)

  /** What the reader makes of the bytes from here on. */
  datatype Taken =
    | Stop
    | Bad(problem: Problem)
    | Took(record: Record, size: nat)

  function TrimZeros(b: Bytes): (t: Bytes)
    ensures t <= b
    ensures t != [] ==> t[|t| - 1] != 0
    ensures forall i :: |t| <= i < |b| ==> b[i] == 0
  {
    if b != [] && b[|b| - 1] == 0 then TrimZeros(b[..|b| - 1]) else b
  }

  function DecodeIds(b: Bytes, at: nat, n: nat): (ids: seq<nat>)
    requires at + 4 * n <= |b|
    ensures |ids| == n
  {
    if n == 0 then [] else DecodeIds(b, at, n - 1) + [U32At(b, at + 4 * (n - 1))]
  }

  /** One record off the front of b, when pathCount paths have been registered. */
  function TakeRecord(b: Bytes, pathCount: nat): (t: Taken)
    ensures t.Took? ==> 4 < t.size <= |b|
  {
    if |b| < 4 then Stop
    else
      var head := U32At(b, 0);
      var size := head % DEPS_BIT;
      if size < 4 || size > MAX_SIZE || |b| < 4 + size then Stop
      else
        var body := b[4..4 + size];
        if head / DEPS_BIT == 1 then
          if size < 12 || (size - 12) % 4 != 0 then Bad(MalformedDeps)
          else
            Took(DepsRecord(U32At(body, 0), U32At(body, 4) + U32 * U32At(body, 8),
                            DecodeIds(body, 12, (size - 12) / 4)), 4 + size)
        else if U32At(body, size - 4) != Complement(pathCount) then Bad(BadChecksum)
        else Took(PathRecord(TrimZeros(body[..size - 4])), 4 + size)
  }

  function ReadRecords(b: Bytes, st: Replay): Result
    decreases |b|
  {
    match TakeRecord(b, |st.paths|)
    case Stop => Ok(st.deps)
    case Bad(p) => Partial(st.deps, p)
    case Took(r, n) => ReadRecords(b[n..], Apply(st, r))
  }

  function ReadLog(b: Bytes): Result {
    if |b| < |MAGIC| then Refused(ShortHeader)
    else if b[..|MAGIC|] != MAGIC then Refused(BadMagic)
    else if |b| < HEADER_SIZE then Refused(ShortVersion)
    else if U32At(b, |MAGIC|) != SUPPORTED_VERSION then Refused(Unsupported)
    else ReadRecords(b[HEADER_SIZE..], START)
  }

  // ----- the reader inverts the encoder, record by record -----

  lemma Subslice(b: Bytes, lo: nat, hi: nat, i: nat, j: nat)
    requires lo <= hi <= |b| && i <= j <= hi - lo
    ensures b[lo..hi][i..j] == b[lo + i..lo + j]
  {
    var s, t := b[lo..hi][i..j], b[lo + i..lo + j];
    assert |s| == |t|;
    forall k | 0 <= k < |s| ensures s[k] == t[k] {
      assert s[k] == b[lo..hi][i + k];
    }
  }

  lemma U32AtIs(b: Bytes, at: nat, v: nat)
    requires v < U32 && at + 4 <= |b| && b[at..at + 4] == EncodeU32(v)
    ensures U32At(b, at) == v
  {
    var e := b[at..at + 4];
    assert U32At(e, 0) == v;
    assert e[0] == b[at] && e[1] == b[at + 1] && e[2] == b[at + 2] && e[3] == b[at + 3];
  }

  lemma {:induction false} TrimPadded(path: Bytes, n: nat)
    requires path != [] ==> path[|path| - 1] != 0
    ensures TrimZeros(path + Zeros(n)) == path
  {
    if n == 0 {
      assert path + Zeros(0) == path;
    } else {
      var b := path + Zeros(n);
      assert b[..|b| - 1] == path + Zeros(n - 1);
      TrimPadded(path, n - 1);
    }
  }

  lemma {:induction false} DecodeEncodedIds(b: Bytes, at: nat, ids: seq<nat>)
    requires forall i :: 0 <= i < |ids| ==> ids[i] < U32
    requires at + 4 * |ids| <= |b| && b[at..at + 4 * |ids|] == EncodeIds(ids)
    ensures DecodeIds(b, at, |ids|) == ids
  {
    hide EncodeU32, U32At;
    if ids != [] {
      var n := |ids| - 1;
      var whole := b[at..at + 4 * |ids|];
      var front, last := EncodeIds(ids[..n]), EncodeU32(ids[n]);
      assert whole == front + last;
      Subslice(b, at, at + 4 * |ids|, 0, 4 * n);
      Subslice(b, at, at + 4 * |ids|, 4 * n, 4 * n + 4);
      assert whole[0..4 * n] == front && whole[4 * n..4 * n + 4] == last;
      hide EncodeIds;
      DecodeEncodedIds(b, at, ids[..n]);
      U32AtIs(b, at + 4 * n, ids[n]);
      assert ids == ids[..n] + [ids[n]];
    }
  }

  lemma HeadOfRecord(r: Record, id: nat, rest: Bytes)
    requires ValidRecord(r)
    ensures var b, body := EncodeRecord(r, id) + rest, Body(r, id);
            && |b| >= 4 + |body| && b[4..4 + |body|] == body
            && U32At(b, 0) == |body| + (if r.DepsRecord? then DEPS_BIT else 0)
  {
    var body := Body(r, id);
    var b := EncodeRecord(r, id) + rest;
    var head := |body| + if r.DepsRecord? then DEPS_BIT else 0;
    assert b[0..4] == EncodeU32(head);
    U32AtIs(b, 0, head);
  }

  lemma PathBodyDecodes(path: Bytes, id: nat)
    requires ValidRecord(PathRecord(path))
    ensures var body := Body(PathRecord(path), id);
            && U32At(body, |body| - 4) == Complement(id)
            && TrimZeros(body[..|body| - 4]) == path
  {
    var body := Body(PathRecord(path), id);
    var padded := path + Zeros(Padding(|path|));
    assert body == padded + EncodeU32(Complement(id));
    assert body[..|body| - 4] == padded && body[|body| - 4..|body| - 4 + 4] == EncodeU32(Complement(id));
    U32AtIs(body, |body| - 4, Complement(id));
    TrimPadded(path, Padding(|path|));
  }

  lemma DepsBodyDecodes(out: nat, mtime: nat, inputs: seq<nat>, id: nat)
    requires ValidRecord(DepsRecord(out, mtime, inputs))
    ensures var body := Body(DepsRecord(out, mtime, inputs), id);
            && |body| == 12 + 4 * |inputs|
            && U32At(body, 0) == out && U32At(body, 4) + U32 * U32At(body, 8) == mtime
            && DecodeIds(body, 12, |inputs|) == inputs
  {
    hide EncodeU32, U32At, EncodeIds, DecodeIds;
    var lo, hi := mtime % U32, mtime / U32;
    var a, b, c, d := EncodeU32(out), EncodeU32(lo), EncodeU32(hi), EncodeIds(inputs);
    var body := a + b + c + d;
    assert body == Body(DepsRecord(out, mtime, inputs), id);
    assert body[0..4] == a && body[4..8] == b && body[8..12] == c && body[12..12 + 4 * |inputs|] == d;
    U32AtIs(body, 0, out);
    U32AtIs(body, 4, lo);
    U32AtIs(body, 8, hi);
    DecodeEncodedIds(body, 12, inputs);
  }

  lemma HeadWord(size: nat, bit: nat)
    requires size < DEPS_BIT && (bit == 0 || bit == 1)
    ensures (size + bit * DEPS_BIT) % DEPS_BIT == size && (size + bit * DEPS_BIT) / DEPS_BIT == bit
  {
  }

  /** A whole record is taken back exactly as it was written, whatever follows it. */
  lemma TakesWholeRecord(r: Record, id: nat, rest: Bytes)
    requires ValidRecord(r)
    ensures TakeRecord(EncodeRecord(r, id) + rest, id) == Took(r, |EncodeRecord(r, id)|)
  {
    hide EncodeRecord, Body, ValidRecord, U32At, TrimZeros, DecodeIds;
    HeadOfRecord(r, id, rest);
    HeadWord(|Body(r, id)|, if r.DepsRecord? then 1 else 0);
    RecordLength(r, id);
    match r
    case PathRecord(path) => PathBodyDecodes(path, id);
    case DepsRecord(out, mtime, inputs) => DepsBodyDecodes(out, mtime, inputs, id);
  }

  lemma RecordLength(r: Record, id: nat)
    requires ValidRecord(r)
    ensures |EncodeRecord(r, id)| == 4 + |Body(r, id)|
    ensures 4 <= |Body(r, id)| <= MAX_SIZE
  {
  }

  /** A record cut short anywhere, its length word included, is not taken at all. */
  lemma StopsAtCutRecord(r: Record, id: nat, c: nat)
    requires ValidRecord(r) && c < |EncodeRecord(r, id)|
    ensures TakeRecord(EncodeRecord(r, id)[..c], id) == Stop
  {
    var whole := EncodeRecord(r, id);
    RecordLength(r, id);
    HeadOfRecord(r, id, []);
    assert whole + [] == whole;
    if c >= 4 {
      var b := whole[..c];
      assert b[0] == whole[0] && b[1] == whole[1] && b[2] == whole[2] && b[3] == whole[3];
      assert U32At(b, 0) == U32At(whole, 0);
    }
  }

  // ----- the whole log, cut anywhere -----

  function ReplayFrom(rs: seq<Record>, st: Replay): Replay {
    if rs == [] then st else ReplayFrom(rs[1..], Apply(st, rs[0]))
  }

  lemma {:induction false} ReplayContinues(done: seq<Record>, rs: seq<Record>)
    ensures ReplayFrom(rs, ReplayAll(done)) == ReplayAll(done + rs)
    decreases |rs|
  {
    if rs == [] {
      assert done + rs == done;
    } else {
      var more := done + [rs[0]];
      assert more[..|more| - 1] == done;
      ReplayContinues(more, rs[1..]);
      assert more + rs[1..] == done + rs;
    }
  }

  lemma PathsGrow(st: Replay, r: Record)
    ensures |Apply(st, r).paths| == |st.paths| + if r.PathRecord? then 1 else 0
  {
  }

  /** Reading a log from any point, cut c bytes further on, replays the k records that lie before the cut. */
  lemma {:induction false} ReadsUpToCut(rs: seq<Record>, st: Replay, k: nat, c: nat)
    requires ValidLog(rs) && k <= |rs|
    requires |EncodeRecords(rs[..k], |st.paths|)| <= c <= |EncodeRecords(rs, |st.paths|)|
    requires k < |rs| ==> c < |EncodeRecords(rs[..k + 1], |st.paths|)|
    ensures ReadRecords(EncodeRecords(rs, |st.paths|)[..c], st) == Ok(ReplayFrom(rs[..k], st).deps)
  {
    hide EncodeRecord, Apply, TakeRecord;
    var n := |st.paths|;
    if rs == [] {
      NothingLeft(n);
    } else {
      var first, st' := EncodeRecord(rs[0], n), Apply(st, rs[0]);
      PathsGrow(st, rs[0]);
      var n' := |st'.paths|;
      var tail := EncodeRecords(rs[1..], n');
      if k == 0 {
        CutSplits(rs, n, n', 1);
        assert EncodeRecords(rs, n)[..c] == first[..c];
        StopsAtCutRecord(rs[0], n, c);
      } else {
        CutSplits(rs, n, n', k);
        var c' := c - |first|;
        var b := first + tail[..c'];
        assert EncodeRecords(rs, n)[..c] == b;
        TakesWholeRecord(rs[0], n, tail[..c']);
        assert b[|first|..] == tail[..c'];
        if k < |rs| {
          CutSplits(rs, n, n', k + 1);
        }
        ReadsUpToCut(rs[1..], st', k - 1, c');
      }
    }
  }

  lemma NothingLeft(n: nat)
    ensures TakeRecord([], n) == Stop
  {
  }

  lemma CutSplits(rs: seq<Record>, n: nat, n': nat, k: nat)
    requires ValidLog(rs) && 0 < k <= |rs|
    requires n' == if rs[0].PathRecord? then n + 1 else n
    ensures EncodeRecords(rs[..k], n) == EncodeRecord(rs[0], n) + EncodeRecords(rs[1..][..k - 1], n')
    ensures forall st :: ReplayFrom(rs[..k], st) == ReplayFrom(rs[1..][..k - 1], Apply(st, rs[0]))
    ensures k == 1 ==> EncodeRecords(rs[..k], n) == EncodeRecord(rs[0], n)
  {
    hide EncodeRecord, Apply;
    assert rs[..k][0] == rs[0] && rs[..k][1..] == rs[1..][..k - 1];
  }

  lemma HeaderReads(tail: Bytes)
    ensures var b := MAGIC + EncodeU32(SUPPORTED_VERSION) + tail;
            ReadLog(b) == ReadRecords(tail, START)
  {
    var b := MAGIC + EncodeU32(SUPPORTED_VERSION) + tail;
    assert b[..12] == MAGIC && b[12..16] == EncodeU32(SUPPORTED_VERSION) && b[16..] == tail;
    U32AtIs(b, 12, SUPPORTED_VERSION);
  }

  /** A valid log cut anywhere at or after its header reads without error as the replay of the records
      that lie wholly before the cut. */
  lemma TruncationIsTolerated(rs: seq<Record>, k: nat, c: nat)
    requires ValidLog(rs) && k <= |rs|
    requires |Encode(rs[..k])| <= c <= |Encode(rs)|
    requires k < |rs| ==> c < |Encode(rs[..k + 1])|
    ensures ReadLog(Encode(rs)[..c]) == Ok(ReplayAll(rs[..k]).deps)
  {
    var head := MAGIC + EncodeU32(SUPPORTED_VERSION);
    var c' := c - 16;
    assert Encode(rs)[..c] == head + EncodeRecords(rs, 0)[..c'];
    HeaderReads(EncodeRecords(rs, 0)[..c']);
    ReadsUpToCut(rs, START, k, c');
    ReplayContinues([], rs[..k]);
    assert [] + rs[..k] == rs[..k];
  }

  /** Uncut, the reader inverts the encoder. */
  lemma ReadInvertsEncode(rs: seq<Record>)
    requires ValidLog(rs)
    ensures ReadLog(Encode(rs)) == Ok(ReplayAll(rs).deps)
  {
    assert rs[..|rs|] == rs;
    assert Encode(rs)[..|Encode(rs)|] == Encode(rs);
    TruncationIsTolerated(rs, |rs|, |Encode(rs)|);
  }

  /** Every cut past the header falls inside or at the end of some record. */
  lemma {:induction false} CutFallsSomewhere(rs: seq<Record>, c: nat) returns (k: nat)
    requires ValidLog(rs) && HEADER_SIZE <= c <= |Encode(rs)|
    ensures k <= |rs| && |Encode(rs[..k])| <= c && (k < |rs| ==> c < |Encode(rs[..k + 1])|)
  {
    k := |rs|;
    assert rs[..|rs|] == rs;
    while |Encode(rs[..k])| > c
      invariant k <= |rs|
      invariant k < |rs| ==> c < |Encode(rs[..k + 1])|
      decreases k
    {
      assert k > 0 by {
        assert rs[..0] == [];
      }
      k := k - 1;
    }
  }

  // ----- what a log says, byte by byte -----

  /** Four bytes, the least significant first. */
  predicate IsWord(b: Bytes, at: nat, v: nat) {
    && at + 4 <= |b|
    && v == b[at] as nat + 256 * b[at + 1] as nat + 65_536 * b[at + 2] as nat + 16_777_216 * b[at + 3] as nat
  }

  /** Twelve characters and a version. */
  predicate IsHeader(file: Bytes) {
    HasMagic(file) && IsWord(file, 12, 4)
  }

  predicate HasMagic(file: Bytes) {
    |file| >= 12 && forall i :: 0 <= i < 12 ==> file[i] as int == "# ninjadeps\n"[i] as int
  }

  /** A record's bytes: the size of its body, bit 31 set for dependencies; then a path, zeros, and the bits of its id
      flipped; or the output, the time in two halves and the inputs. */
  predicate IsRecordOf(b: Bytes, r: Record, id: nat, zeros: nat) {
    match r
    case PathRecord(path) =>
      && |b| == 4 + |path| + zeros + 4 && IsWord(b, 0, |b| - 4)
      && b[4..4 + |path|] == path && (path != [] ==> path[|path| - 1] != 0)
      && (forall i :: 4 + |path| <= i < 4 + |path| + zeros ==> b[i] == 0)
      && IsWord(b, |b| - 4, 4_294_967_295 - id % 4_294_967_296)
    case DepsRecord(out, mtime, inputs) =>
      && zeros == 0 && |b| == 16 + 4 * |inputs| && IsWord(b, 0, 2_147_483_648 + |b| - 4)
      && IsWord(b, 4, out) && IsWord(b, 8, mtime % 4_294_967_296) && IsWord(b, 12, mtime / 4_294_967_296)
      && forall i :: 0 <= i < |inputs| ==> IsWord(b, 16 + 4 * i, inputs[i])
  }

  /** No whole record is in front: the length word is cut short, or says less than 4 or more than 2^24, or more than
      there is. */
  ghost predicate IsCutShort(b: Bytes) {
    forall head: nat :: IsWord(b, 0, head) ==>
      var size := head % 2_147_483_648; size < 4 || size > 16_777_216 || 4 + size > |b|
  }

  /** The length word says dependencies, but the size is that of no such record. */
  ghost predicate IsMalformed(b: Bytes, size: nat) {
    IsWord(b, 0, 2_147_483_648 + size) && (size < 12 || size % 4 != 0)
  }

  ghost predicate HasBadChecksum(b: Bytes, size: nat, id: nat) {
    && IsWord(b, 0, size) && size < 2_147_483_648 && 4 <= size && 4 + size <= |b|
    && !IsWord(b, size, 4_294_967_295 - id % 4_294_967_296)
  }

  /** What ends the reading: nothing whole any more, or a record that is wrong. */
  ghost predicate Ends(b: Bytes, id: nat, problem: Option<Problem>) {
    match problem
    case None => IsCutShort(b)
    case Some(MalformedDeps) => !IsCutShort(b) && exists size :: IsMalformed(b, size)
    case Some(BadChecksum) => !IsCutShort(b) && exists size :: HasBadChecksum(b, size, id)
    case Some(_) => false
  }

  /** The bytes are these records, the paths among them numbered from id, and then what ends the reading. */
  ghost predicate IsChain(b: Bytes, rs: seq<Record>, id: nat, problem: Option<Problem>)
    decreases |rs|
  {
    if rs == [] then Ends(b, id, problem)
    else exists n: nat, zeros: nat :: IsLink(b, n, rs[0], id, zeros)
                            && IsChain(b[n..], rs[1..], if rs[0].PathRecord? then id + 1 else id, problem)
  }

  /** The first n bytes are the record, which is no longer than the cap. */
  ghost predicate IsLink(b: Bytes, n: nat, r: Record, id: nat, zeros: nat) {
    4 <= n <= |b| && n - 4 <= 16_777_216 && IsRecordOf(b[..n], r, id, zeros)
  }

  /** The paths of the path records, in order. */
  function PathsIn(rs: seq<Record>): seq<Bytes> {
    if rs == [] then [] else (if rs[0].PathRecord? then [rs[0].path] else []) + PathsIn(rs[1..])
  }

  /** The paths under these ids, in order, and nothing for an id there is no path under. */
  function Known(paths: seq<Bytes>, ids: seq<nat>): seq<Bytes> {
    if ids == [] then [] else (if ids[0] < |paths| then [paths[ids[0]]] else []) + Known(paths, ids[1..])
  }

  /** A record for the output: its id is that of a path registered before, which is the output. */
  ghost predicate Sets(rs: seq<Record>, i: nat, output: Bytes)
    requires i < |rs|
  {
    && rs[i].DepsRecord?
    && var paths := PathsIn(rs[..i]); rs[i].out < |paths| && paths[rs[i].out] == output
  }

  /** The last such record. */
  ghost predicate SetsLast(rs: seq<Record>, i: nat, output: Bytes) {
    i < |rs| && Sets(rs, i, output) && forall j :: i < j < |rs| ==> !Sets(rs, j, output)
  }

  /** There is an answer for just the outputs some record is for: the inputs of the last one that were registered
      before it. */
  ghost predicate AreAnswers(rs: seq<Record>, deps: map<Bytes, seq<Bytes>>) {
    && (forall output :: output in deps ==> exists i: nat :: SetsLast(rs, i, output))
    && forall output, i: nat :: SetsLast(rs, i, output) ==>
         output in deps && deps[output] == Known(PathsIn(rs[..i]), rs[i].inputs)
  }

  /** What a file reads as: refused over its header, or the answers of the records in front of whatever ended the
      reading. */
  ghost predicate ReadsAs(file: Bytes, result: Result) {
    match result
    case Refused(ShortHeader) => |file| < 12
    case Refused(BadMagic) => |file| >= 12 && !HasMagic(file)
    case Refused(ShortVersion) => HasMagic(file) && |file| < 16
    case Refused(Unsupported) => HasMagic(file) && |file| >= 16 && !IsWord(file, 12, 4)
    case Refused(_) => false
    case Ok(deps) => IsHeader(file) && exists rs :: IsChain(file[16..], rs, 0, None) && AreAnswers(rs, deps)
    case Partial(deps, p) => IsHeader(file) && exists rs :: IsChain(file[16..], rs, 0, Some(p)) && AreAnswers(rs, deps)
  }

  lemma WordIs(b: Bytes, at: nat)
    requires at + 4 <= |b|
    ensures forall v: nat :: IsWord(b, at, v) <==> v == U32At(b, at)
  {
  }

  lemma WordInSlice(b: Bytes, lo: nat, hi: nat, at: nat)
    requires lo <= hi <= |b| && at + 4 <= hi - lo
    ensures U32At(b[lo..hi], at) == U32At(b, lo + at)
  {
  }

  lemma WordInTail(whole: Bytes, body: Bytes, at: nat)
    requires |whole| >= 4 && whole[4..] == body && at + 4 <= |body|
    ensures IsWord(whole, 4 + at, U32At(body, at))
  {
    assert forall k :: 0 <= k < |body| ==> body[k] == whole[4 + k];
  }

  lemma {:induction false} IdsAre(b: Bytes, at: nat, n: nat)
    requires at + 4 * n <= |b|
    ensures forall i :: 0 <= i < n ==> DecodeIds(b, at, n)[i] == U32At(b, at + 4 * i)
  {
    hide U32At;
    if n > 0 {
      IdsAre(b, at, n - 1);
    }
  }

  lemma {:induction false} TrimmedIs(path: Bytes, raw: Bytes)
    requires path <= raw && (path != [] ==> path[|path| - 1] != 0)
    requires forall i :: |path| <= i < |raw| ==> raw[i] == 0
    ensures TrimZeros(raw) == path
  {
    if path != raw {
      TrimmedIs(path, raw[..|raw| - 1]);
    }
  }

  /** What is taken is a record, spelled as it should be. */
  lemma OnlyRecordsAreTaken(b: Bytes, id: nat)
    requires TakeRecord(b, id).Took?
    ensures var t := TakeRecord(b, id); exists zeros :: IsLink(b, t.size, t.record, id, zeros)
  {
    hide U32At, DecodeIds, TrimZeros, IsWord;
    var head := U32At(b, 0);
    var size, n := head % DEPS_BIT, 4 + head % DEPS_BIT;
    var whole, body := b[..n], b[4..n];
    WordIs(whole, 0);
    WordInSlice(b, 0, n, 0);
    if head / DEPS_BIT == 1 {
      DepsAreSpelled(whole, body, size, id);
      assert IsLink(b, n, TakeRecord(b, id).record, id, 0);
    } else {
      var path := TrimZeros(body[..size - 4]);
      PathIsSpelled(whole, body, size, id);
      assert IsLink(b, n, PathRecord(path), id, size - 4 - |path|);
    }
  }

  lemma DepsAreSpelled(whole: Bytes, body: Bytes, size: nat, id: nat)
    requires 12 <= size == |body| && size % 4 == 0 && |whole| == 4 + size && whole[4..] == body
    requires IsWord(whole, 0, DEPS_BIT + size)
    ensures IsRecordOf(whole, DepsRecord(U32At(body, 0), U32At(body, 4) + U32 * U32At(body, 8),
                                         DecodeIds(body, 12, (size - 12) / 4)), id, 0)
  {
    hide U32At, DecodeIds, IsWord;
    var k := (size - 12) / 4;
    IdsAre(body, 12, k);
    forall at: nat | at + 4 <= size ensures IsWord(whole, 4 + at, U32At(body, at)) {
      WordInTail(whole, body, at);
    }
    Halves(U32At(body, 4), U32At(body, 8));
    forall i | 0 <= i < k ensures IsWord(whole, 16 + 4 * i, DecodeIds(body, 12, k)[i]) {
      assert IsWord(whole, 4 + (12 + 4 * i), U32At(body, 12 + 4 * i));
    }
    assert IsWord(whole, 4 + 0, U32At(body, 0)) && IsWord(whole, 4 + 4, U32At(body, 4));
    assert IsWord(whole, 4 + 8, U32At(body, 8));
  }

  lemma Halves(lo: nat, hi: nat)
    requires lo < U32
    ensures (lo + U32 * hi) % 4_294_967_296 == lo && (lo + U32 * hi) / 4_294_967_296 == hi
  {
  }

  lemma PathIsSpelled(whole: Bytes, body: Bytes, size: nat, id: nat)
    requires 4 <= size == |body| && |whole| == 4 + size && whole[4..] == body
    requires IsWord(whole, 0, size) && U32At(body, size - 4) == Complement(id)
    ensures var path := TrimZeros(body[..size - 4]);
            |path| <= size - 4 && IsRecordOf(whole, PathRecord(path), id, size - 4 - |path|)
  {
    hide U32At, TrimZeros, IsWord;
    var path := TrimZeros(body[..size - 4]);
    WordInTail(whole, body, size - 4);
    assert whole[4..4 + |path|] == path;
    forall i | 4 + |path| <= i < size ensures whole[i] == 0 {
      assert whole[i] == body[..size - 4][i - 4];
    }
  }

  /** A record in front, so spelled, is taken. */
  lemma RecordsAreTaken(b: Bytes, n: nat, r: Record, id: nat, zeros: nat)
    requires IsLink(b, n, r, id, zeros)
    ensures TakeRecord(b, id) == Took(r, n)
  {
    hide U32At, DecodeIds, TrimZeros, IsWord;
    var whole, size := b[..n], n - 4;
    var body := b[4..4 + size];
    assert body == whole[4..];
    WordIs(whole, 0);
    WordInSlice(b, 0, n, 0);
    forall at: nat | at + 4 <= size ensures IsWord(whole, 4 + at, U32At(body, at)) {
      WordInTail(whole, body, at);
    }
    match r
    case PathRecord(path) =>
      HeadWord(size, 0);
      WordIs(whole, size);
      assert IsWord(whole, 4 + (size - 4), U32At(body, size - 4));
      var raw := body[..size - 4];
      forall i | |path| <= i < |raw| ensures raw[i] == 0 {
        assert raw[i] == whole[4 + i];
      }
      assert raw[..|path|] == path;
      TrimmedIs(path, raw);
    case DepsRecord(out, mtime, inputs) =>
      HeadWord(size, 1);
      DepsAreTaken(whole, body, r, id);
  }

  lemma DepsAreTaken(whole: Bytes, body: Bytes, r: Record, id: nat)
    requires r.DepsRecord? && IsRecordOf(whole, r, id, 0) && whole[4..] == body
    requires forall at: nat :: at + 4 <= |body| ==> IsWord(whole, 4 + at, U32At(body, at))
    ensures r == DepsRecord(U32At(body, 0), U32At(body, 4) + U32 * U32At(body, 8),
                            DecodeIds(body, 12, (|body| - 12) / 4))
  {
    hide U32At, DecodeIds, IsWord;
    var k := |r.inputs|;
    WordIs(whole, 4);
    WordIs(whole, 8);
    WordIs(whole, 12);
    assert IsWord(whole, 4 + 0, U32At(body, 0)) && IsWord(whole, 4 + 4, U32At(body, 4));
    assert IsWord(whole, 4 + 8, U32At(body, 8));
    IdsAre(body, 12, k);
    forall i | 0 <= i < k ensures r.inputs[i] == DecodeIds(body, 12, k)[i] {
      WordIs(whole, 16 + 4 * i);
      assert IsWord(whole, 4 + (12 + 4 * i), U32At(body, 12 + 4 * i));
    }
    assert r.inputs == DecodeIds(body, 12, k);
  }

  /** Where no record is taken, one of the three ends is there. */
  lemma EndsAre(b: Bytes, id: nat)
    requires !TakeRecord(b, id).Took?
    ensures var t := TakeRecord(b, id); Ends(b, id, if t.Stop? then None else Some(t.problem))
  {
    hide U32At, DecodeIds, TrimZeros, IsWord;
    if |b| >= 4 {
      WordIs(b, 0);
      var head := U32At(b, 0);
      var size := head % DEPS_BIT;
      if TakeRecord(b, id).Bad? {
        assert IsWord(b, 0, head);
        if head / DEPS_BIT == 1 {
          assert IsMalformed(b, size);
        } else {
          WordInSlice(b, 4, 4 + size, size - 4);
          WordIs(b, size);
          assert HasBadChecksum(b, size, id);
        }
      }
    } else {
      NoWord(b);
    }
  }

  lemma NoWord(b: Bytes)
    requires |b| < 4
    ensures forall v :: !IsWord(b, 0, v)
  {
  }

  /** Reading goes along a chain to its end. */
  lemma {:induction false} ReadsAChain(b: Bytes, st: Replay) returns (rs: seq<Record>)
    ensures var result := ReadRecords(b, st);
            && IsChain(b, rs, |st.paths|, if result.Partial? then Some(result.problem) else None)
            && !result.Refused? && result.deps == ReplayFrom(rs, st).deps
    decreases |b|
  {
    hide TakeRecord, IsLink, Ends, Apply;
    var id := |st.paths|;
    match TakeRecord(b, id)
    case Took(r, n) =>
      OnlyRecordsAreTaken(b, id);
      var zeros :| IsLink(b, n, r, id, zeros);
      PathsGrow(st, r);
      LinkFits(b, n, r, id, zeros);
      var rest := ReadsAChain(b[n..], Apply(st, r));
      rs := [r] + rest;
      assert rs[1..] == rest;
      assert ReadRecords(b, st) == ReadRecords(b[n..], Apply(st, r));
      hide ReadRecords, ReplayFrom;
      assert IsLink(b, n, rs[0], id, zeros);
    case _ =>
      EndsAre(b, id);
      rs := [];
  }

  lemma LinkFits(b: Bytes, n: nat, r: Record, id: nat, zeros: nat)
    requires IsLink(b, n, r, id, zeros)
    ensures n <= |b|
  {
  }

  // ----- last record wins -----

  lemma {:induction false} PathsInMore(rs: seq<Record>, r: Record)
    ensures PathsIn(rs + [r]) == PathsIn(rs) + if r.PathRecord? then [r.path] else []
  {
    if rs == [] {
      assert (rs + [r])[1..] == [];
    } else {
      PathsInMore(rs[1..], r);
      assert (rs + [r])[1..] == rs[1..] + [r];
    }
  }

  lemma {:induction false} KnownMore(paths: seq<Bytes>, ids: seq<nat>, id: nat)
    ensures Known(paths, ids + [id]) == Known(paths, ids) + if id < |paths| then [paths[id]] else []
  {
    if ids == [] {
      assert (ids + [id])[1..] == [];
    } else {
      KnownMore(paths, ids[1..], id);
      assert (ids + [id])[1..] == ids[1..] + [id];
    }
  }

  /** The replay's paths are those of the path records, in order, so a path's id is its rank. */
  lemma {:induction false} IdsAreRanks(rs: seq<Record>)
    ensures ReplayAll(rs).paths == PathsIn(rs)
  {
    if rs != [] {
      var n := |rs| - 1;
      IdsAreRanks(rs[..n]);
      PathsInMore(rs[..n], rs[n]);
      assert rs == rs[..n] + [rs[n]];
    }
  }

  lemma {:induction false} ResolvesTheKnown(paths: seq<Bytes>, ids: seq<nat>)
    ensures Resolve(paths, ids) == Known(paths, ids)
  {
    if ids != [] {
      var n := |ids| - 1;
      ResolvesTheKnown(paths, ids[..n]);
      KnownMore(paths, ids[..n], ids[n]);
      assert ids == ids[..n] + [ids[n]];
    }
  }

  lemma SetsInPrefix(rs: seq<Record>, n: nat, i: nat, output: Bytes)
    requires i < n <= |rs|
    ensures Sets(rs[..n], i, output) <==> Sets(rs, i, output)
  {
    assert rs[..n][..i] == rs[..i];
  }

  /** The log's answer for an output is that of the last record that sets it. */
  lemma {:induction false} LastRecordWins(rs: seq<Record>, output: Bytes, i: nat)
    requires i < |rs| && Sets(rs, i, output)
    requires forall j :: i < j < |rs| ==> !Sets(rs, j, output)
    ensures output in ReplayAll(rs).deps
    ensures ReplayAll(rs).deps[output] == Known(PathsIn(rs[..i]), rs[i].inputs)
  {
    hide Sets, Resolve;
    var n := |rs| - 1;
    LastStep(rs, output);
    if i < n {
      assert rs[..n][..i] == rs[..i];
      SetsInPrefix(rs, n, i, output);
      forall j | i < j < n ensures !Sets(rs[..n], j, output) {
        SetsInPrefix(rs, n, j, output);
      }
      LastRecordWins(rs[..n], output, i);
    }
  }

  /** There is an answer for an output only if some record sets it. */
  lemma {:induction false} AnswersComeFromRecords(rs: seq<Record>, output: Bytes)
    requires output in ReplayAll(rs).deps
    ensures exists i :: 0 <= i < |rs| && Sets(rs, i, output)
  {
    hide Sets;
    var n := |rs| - 1;
    LastStep(rs, output);
    if !Sets(rs, n, output) {
      AnswersComeFromRecords(rs[..n], output);
      var i :| 0 <= i < n && Sets(rs[..n], i, output);
      SetsInPrefix(rs, n, i, output);
    }
  }

  /** The last record either sets the output or leaves its entry as the records before it made it. */
  lemma LastStep(rs: seq<Record>, output: Bytes)
    requires rs != []
    ensures var n := |rs| - 1;
            var before, after := ReplayAll(rs[..n]), ReplayAll(rs);
            if Sets(rs, n, output) then
              output in after.deps && after.deps[output] == Known(PathsIn(rs[..n]), rs[n].inputs)
            else
              && (output in after.deps <==> output in before.deps)
              && (output in before.deps ==> after.deps[output] == before.deps[output])
  {
    hide Resolve, Known, PathsIn;
    var n := |rs| - 1;
    IdsAreRanks(rs[..n]);
    if rs[n].DepsRecord? {
      ResolvesTheKnown(PathsIn(rs[..n]), rs[n].inputs);
    }
  }

  lemma {:induction false} LastOf(rs: seq<Record>, output: Bytes, n: nat) returns (i: nat)
    requires n <= |rs| && exists j :: 0 <= j < n && Sets(rs, j, output)
    requires forall j :: n <= j < |rs| ==> !Sets(rs, j, output)
    ensures SetsLast(rs, i, output)
  {
    hide Sets;
    if Sets(rs, n - 1, output) {
      i := n - 1;
    } else {
      i := LastOf(rs, output, n - 1);
    }
  }

  /** The answers of a log are those of its records. */
  lemma AnswersAreExact(rs: seq<Record>)
    ensures AreAnswers(rs, ReplayAll(rs).deps)
  {
    hide Known, PathsIn, ReplayAll;
    forall output | output in ReplayAll(rs).deps ensures exists i: nat :: SetsLast(rs, i, output) {
      AnswersComeFromRecords(rs, output);
      var i := LastOf(rs, output, |rs|);
    }
    forall output, i: nat | SetsLast(rs, i, output)
      ensures output in ReplayAll(rs).deps
      ensures ReplayAll(rs).deps[output] == Known(PathsIn(rs[..i]), rs[i].inputs)
    {
      LastRecordWins(rs, output, i);
    }
  }

  /** Every file reads as it is spelled. */
  lemma ReadsAsSpelled(file: Bytes)
    ensures ReadsAs(file, ReadLog(file))
  {
    hide ReadRecords, IsChain, AreAnswers, U32At, IsWord, MAGIC, HasMagic, ReplayFrom;
    MagicIs(file);
    if |file| >= 16 {
      WordIs(file, 12);
      if file[..12] == MAGIC && U32At(file, 12) == 4 {
        var rs := ReadsAChain(file[16..], START);
        ReplayContinues([], rs);
        assert [] + rs == rs;
        AnswersAreExact(rs);
        assert IsHeader(file) && ReadLog(file) == ReadRecords(file[16..], START);
      }
    }
  }

  lemma MagicIs(file: Bytes)
    ensures |MAGIC| == 12 && (HasMagic(file) <==> |file| >= 12 && file[..12] == MAGIC)
  {
    if |file| >= 12 {
      var text := "# ninjadeps\n";
      assert forall i :: 0 <= i < 12 ==> MAGIC[i] as int == text[i] as int;
      assert forall i :: 0 <= i < 12 ==> file[..12][i] == file[i];
    }
  }

  /** What ninja writes is so spelled, each record padded to four bytes. */
  lemma WritesRecords(r: Record, id: nat)
    requires ValidRecord(r)
    ensures exists zeros :: zeros < 4 && IsRecordOf(EncodeRecord(r, id), r, id, zeros)
    ensures |EncodeRecord(r, id)| % 4 == 0
  {
    hide EncodeRecord, TakeRecord, IsWord;
    var whole := EncodeRecord(r, id);
    TakesWholeRecord(r, id, []);
    assert whole + [] == whole;
    OnlyRecordsAreTaken(whole, id);
    var zeros :| IsLink(whole, |whole|, r, id, zeros);
    assert whole[..|whole|] == whole;
    EncodedLength(r, id);
    assert zeros < 4;
  }

  lemma EncodedLength(r: Record, id: nat)
    requires ValidRecord(r)
    ensures |EncodeRecord(r, id)| == if r.PathRecord? then 8 + |r.path| + Padding(|r.path|) else 16 + 4 * |r.inputs|
  {
  }

  // ----- the reading loop -----

  method TrimTrailingZeros(raw: Bytes) returns (t: Bytes)
    ensures t == TrimZeros(raw)
  {
    t := raw;
    while |t| > 0 && t[|t| - 1] == 0
      invariant TrimZeros(t) == TrimZeros(raw)
      decreases |t|
    {
      t := t[..|t| - 1];
    }
  }

  method CollectInputs(buf: Bytes, numDeps: nat, paths: seq<Bytes>) returns (inputs: seq<Bytes>)
    requires 12 + 4 * numDeps <= |buf|
    ensures inputs == Resolve(paths, DecodeIds(buf, 12, numDeps))
  {
    inputs := [];
    for i := 0 to numDeps
      invariant inputs == Resolve(paths, DecodeIds(buf, 12, i))
    {
      var id := U32At(buf, 12 + 4 * i);
      var ids := DecodeIds(buf, 12, i + 1);
      assert ids == DecodeIds(buf, 12, i) + [id];
      assert ids[..i] == DecodeIds(buf, 12, i);
      if id < |paths| {
        inputs := inputs + [paths[id]];
      }
    }
  }

  /** Read: the records are taken one at a time off the file, paths grows, deps is overwritten, and the
      first thing that is not a whole record ends the loop. */
  method Read(file: Bytes) returns (result: Result)
    ensures result == ReadLog(file) && ReadsAs(file, result)
  {
    ReadsAsSpelled(file);
    hide ReadsAs;
    if |file| < |MAGIC| {
      return Refused(ShortHeader);
    }
    if file[..|MAGIC|] != MAGIC {
      return Refused(BadMagic);
    }
    if |file| < HEADER_SIZE {
      return Refused(ShortVersion);
    }
    if U32At(file, |MAGIC|) != SUPPORTED_VERSION {
      return Refused(Unsupported);
    }
    hide MAGIC, U32At, TrimZeros, Resolve, DecodeIds;
    var deps: map<Bytes, seq<Bytes>> := map[];
    var paths: seq<Bytes> := [];
    var at := HEADER_SIZE;
    while true
      invariant HEADER_SIZE <= at <= |file|
      invariant ReadLog(file) == ReadRecords(file[at..], Replay(paths, deps))
      decreases |file| - at
    {
      ghost var rest := file[at..];
      if |file| - at < 4 {
        return Ok(deps);
      }
      var head := U32At(file[at..], 0);
      var isDeps, size := head / DEPS_BIT, head % DEPS_BIT;
      if size < 4 || size > MAX_SIZE {
        return Ok(deps);
      }
      if |file| - at - 4 < size {
        return Ok(deps);
      }
      var buf := file[at..][4..4 + size];
      at := at + 4 + size;
      assert file[at..] == rest[4 + size..];
      if isDeps == 1 {
        if size < 12 || (size - 12) % 4 != 0 {
          return Partial(deps, MalformedDeps);
        }
        var outId := U32At(buf, 0);
        var numDeps := (size - 12) / 4;
        if outId >= |paths| {
          continue;
        }
        var inputs := CollectInputs(buf, numDeps, paths);
        deps := deps[paths[outId] := inputs];
        continue;
      }
      var raw := TrimTrailingZeros(buf[..size - 4]);
      if U32At(buf, size - 4) != Complement(|paths|) {
        return Partial(deps, BadChecksum);
      }
      paths := paths + [raw];
    }
  }
}
