/** search_source on a literal pattern: nested loops over tables, files, lines and occurrences under two
    separate caps, one on the rows returned and one on the matches counted. */
module SourceSearch {
  import opened Wrappers
  import TopCounts

  type Text = seq<char>

  const SCAN_LIMIT := 100_000
  const MAX_LIMIT := 2_000

  const MAX_BY_FILE := 200

  /** A match: file, line from one, column from one. */
  datatype Hit = Hit(path: Text, line: nat, column: nat)

  /** A row of a source table: whether the filters admit it, and its blob when that can be read. */
  datatype Row = Row(path: Text, admitted: bool, blob: Option<Text>)

  // ----- occurrences in a line -----

  predicate OccursAt(line: Text, pattern: Text, at: int) {
    0 <= at && at + |pattern| <= |line| && line[at..at + |pattern|] == pattern
  }

  /** bytes.Index from a position on: the leftmost occurrence, or -1. */
  function IndexFrom(line: Text, pattern: Text, from: nat): (at: int)
    ensures at >= 0 ==> at >= from && OccursAt(line, pattern, at)
    ensures forall i :: from <= i && (at >= 0 ==> i < at) ==> !OccursAt(line, pattern, i)
    ensures at >= -1
    decreases |line| - from
  {
    if from + |pattern| > |line| then -1
    else if OccursAt(line, pattern, from) then from
    else if from == |line| then -1
    else IndexFrom(line, pattern, from + 1)
  }

  /** The positions the inner loop stops at, from a position on. */
  function Found(line: Text, pattern: Text, from: nat): seq<nat>
    requires pattern != []
    decreases |line| - from
  {
    var at := IndexFrom(line, pattern, from);
    if at < 0 then [] else [at] + Found(line, pattern, at + |pattern|)
  }

  ghost predicate NoneBetween(line: Text, pattern: Text, lo: nat, hi: nat) {
    forall i :: lo <= i < hi ==> !OccursAt(line, pattern, i)
  }

  ghost predicate NoneFrom(line: Text, pattern: Text, lo: nat) {
    forall i :: lo <= i ==> !OccursAt(line, pattern, i)
  }

  /** Where the search for the k-th occurrence starts. */
  function StartOf(pattern: Text, from: nat, ps: seq<nat>, k: nat): nat
    requires k <= |ps|
  {
    if k == 0 then from else ps[k - 1] + |pattern|
  }

  ghost predicate IsNext(line: Text, pattern: Text, from: nat, ps: seq<nat>, k: nat)
    requires k < |ps|
  {
    && OccursAt(line, pattern, ps[k]) && StartOf(pattern, from, ps, k) <= ps[k]
    && NoneBetween(line, pattern, StartOf(pattern, from, ps, k), ps[k])
  }

  /** Leftmost and non-overlapping: every position is an occurrence, each at or after the end of the one
      before it, and no other occurrence starts in between, before the first, or after the last. */
  ghost predicate LeftmostNonOverlapping(line: Text, pattern: Text, from: nat, ps: seq<nat>) {
    && (forall k :: 0 <= k < |ps| ==> IsNext(line, pattern, from, ps, k))
    && NoneFrom(line, pattern, StartOf(pattern, from, ps, |ps|))
  }

  lemma NextShifts(line: Text, pattern: Text, from: nat, ps: seq<nat>, k: nat)
    requires k + 1 <= |ps|
    ensures StartOf(pattern, from, ps, k + 1) == StartOf(pattern, ps[0] + |pattern|, ps[1..], k)
    ensures k + 1 < |ps| ==>
              (IsNext(line, pattern, from, ps, k + 1) <==> IsNext(line, pattern, ps[0] + |pattern|, ps[1..], k))
  {
  }

  /** The whole sequence is leftmost exactly when its first position is and its tail is. */
  lemma LeftmostPeels(line: Text, pattern: Text, from: nat, ps: seq<nat>)
    requires ps != []
    ensures LeftmostNonOverlapping(line, pattern, from, ps)
       <==> IsNext(line, pattern, from, ps, 0) && LeftmostNonOverlapping(line, pattern, ps[0] + |pattern|, ps[1..])
  {
    hide IsNext, NoneFrom;
    var tail, next := ps[1..], ps[0] + |pattern|;
    forall k | 0 <= k < |tail|
      ensures IsNext(line, pattern, next, tail, k) <==> IsNext(line, pattern, from, ps, k + 1)
    {
      NextShifts(line, pattern, from, ps, k);
    }
    NextShifts(line, pattern, from, ps, |tail|);
    if IsNext(line, pattern, from, ps, 0) && LeftmostNonOverlapping(line, pattern, next, tail) {
      forall k | 0 <= k < |ps| ensures IsNext(line, pattern, from, ps, k) {
        if k > 0 {
          assert IsNext(line, pattern, next, tail, k - 1);
        }
      }
    }
  }

  lemma IndexIsNext(line: Text, pattern: Text, from: nat, ps: seq<nat>)
    requires ps != []
    ensures IsNext(line, pattern, from, ps, 0) <==> ps[0] == IndexFrom(line, pattern, from)
  {
  }

  lemma IndexIsNone(line: Text, pattern: Text, from: nat)
    ensures NoneFrom(line, pattern, from) <==> IndexFrom(line, pattern, from) == -1
  {
  }

  /** What the loop finds is the one leftmost non-overlapping sequence of occurrences. */
  lemma {:induction false} FoundExactly(line: Text, pattern: Text, from: nat, ps: seq<nat>)
    requires pattern != []
    ensures LeftmostNonOverlapping(line, pattern, from, ps) <==> ps == Found(line, pattern, from)
    decreases |line| - from
  {
    hide OccursAt, IsNext, NoneFrom, IndexFrom;
    var at := IndexFrom(line, pattern, from);
    IndexIsNone(line, pattern, from);
    if ps != [] {
      IndexIsNext(line, pattern, from, ps);
      LeftmostPeels(line, pattern, from, ps);
      if at == ps[0] {
        IndexInside(line, pattern, from);
        FoundExactly(line, pattern, at + |pattern|, ps[1..]);
        assert ps == [at] + ps[1..];
      }
    }
  }

  lemma IndexInside(line: Text, pattern: Text, from: nat)
    requires IndexFrom(line, pattern, from) >= 0
    ensures from <= IndexFrom(line, pattern, from) <= |line| - |pattern|
  {
  }

  // ----- all the hits, in scan order -----

  function SplitLines(content: Text): (lines: seq<Text>)
    ensures |lines| >= 1
  {
    if content == [] then [[]]
    else
      var rest := SplitLines(content[1..]);
      if content[0] == '\n' then [[]] + rest else [[content[0]] + rest[0]] + rest[1..]
  }

  /** The newline-separated lines, without an empty last one. */
  function Lines(content: Text): seq<Text> {
    var lines := SplitLines(content);
    if lines[|lines| - 1] == [] then lines[..|lines| - 1] else lines
  }

  function HitsAt(path: Text, line: nat, positions: seq<nat>): seq<Hit> {
    if positions == [] then [] else [Hit(path, line, positions[0] + 1)] + HitsAt(path, line, positions[1..])
  }

  /** The hits from a position of the i-th line on. */
  function HitsFrom(path: Text, lines: seq<Text>, pattern: Text, i: nat, from: nat): seq<Hit>
    requires pattern != [] && i <= |lines|
    decreases |lines| - i
  {
    if i == |lines| then []
    else HitsAt(path, i + 1, Found(lines[i], pattern, from)) + HitsFrom(path, lines, pattern, i + 1, 0)
  }

  function FileHits(path: Text, content: Text, pattern: Text): seq<Hit>
    requires pattern != []
  {
    HitsFrom(path, Lines(content), pattern, 0, 0)
  }

  function RowHits(row: Row, pattern: Text): seq<Hit>
    requires pattern != []
  {
    if row.admitted && row.blob.Some? then FileHits(row.path, row.blob.value, pattern) else []
  }

  function TableHits(rows: seq<Row>, pattern: Text): seq<Hit>
    requires pattern != []
  {
    if rows == [] then [] else RowHits(rows[0], pattern) + TableHits(rows[1..], pattern)
  }

  /** Every match there is, through the tables in order. */
  function AllHits(tables: seq<seq<Row>>, pattern: Text): seq<Hit>
    requires pattern != []
  {
    if tables == [] then [] else TableHits(tables[0], pattern) + AllHits(tables[1..], pattern)
  }

  // ----- accounting -----

  /** The directory key of a path: everything before its last slash, "." at the root. */
  function DirOf(path: Text): Text {
    var i := LastSlash(path);
    if i > 0 then path[..i] else "."
  }

  /** All of the path before its last slash, "." if it has none past its start. */
  ghost predicate IsDirOf(path: Text, dir: Text) {
    if exists i :: 0 < i < |path| && path[i] == '/' then
      |dir| < |path| && dir != [] && path[..|dir|] == dir && path[|dir|] == '/' && '/' !in path[|dir| + 1..]
    else dir == "."
  }

  lemma DirOfIs(path: Text, dir: Text)
    ensures DirOf(path) == dir <==> IsDirOf(path, dir)
  {
    var i := LastSlash(path);
    if k :| 0 < k < |path| && path[k] == '/' {
      if |dir| < i {
        InTail(path, |dir| + 1, i);
      } else if i < |dir| < |path| {
        assert path[|dir|] != '/';
      }
      NoneInTail(path, i + 1);
    }
  }

  lemma InTail(path: Text, n: nat, i: nat)
    requires n <= i < |path| && path[i] == '/'
    ensures '/' in path[n..]
  {
    assert path[n..][i - n] == '/';
  }

  lemma NoneInTail(path: Text, n: nat)
    requires n <= |path| && forall j :: n <= j < |path| ==> path[j] != '/'
    ensures '/' !in path[n..]
  {
  }

  function LastSlash(path: Text): (i: int)
    ensures -1 <= i < |path|
    ensures i >= 0 ==> path[i] == '/'
    ensures forall j :: i < j < |path| ==> path[j] != '/'
  {
    if path == [] then -1
    else if path[|path| - 1] == '/' then |path| - 1
    else LastSlash(path[..|path| - 1])
  }

  function CountOf(hits: seq<Hit>, path: Text): nat {
    if hits == [] then 0
    else CountOf(hits[..|hits| - 1], path) + if hits[|hits| - 1].path == path then 1 else 0
  }

  function CountUnder(hits: seq<Hit>, dir: Text): nat {
    if hits == [] then 0
    else CountUnder(hits[..|hits| - 1], dir) + if DirOf(hits[|hits| - 1].path) == dir then 1 else 0
  }

  function Get(m: map<Text, nat>, k: Text): nat {
    if k in m then m[k] else 0
  }

  ghost function Sum(m: map<Text, nat>): nat
    decreases |m|
  {
    if m == map[] then 0
    else
      var k :| k in m;
      m[k] + Sum(m - {k})
  }

  lemma {:induction false} SumSplits(m: map<Text, nat>, k: Text)
    requires k in m
    ensures Sum(m) == m[k] + Sum(m - {k})
    decreases |m|
  {
    var j :| j in m && Sum(m) == m[j] + Sum(m - {j});
    if j != k {
      SumSplits(m - {j}, k);
      SumSplits(m - {k}, j);
      assert m - {j} - {k} == m - {k} - {j};
    }
  }

  lemma SumAdds(m: map<Text, nat>, k: Text, n: nat)
    ensures Sum(m[k := Get(m, k) + n]) == Sum(m) + n
  {
    var m' := m[k := Get(m, k) + n];
    SumSplits(m', k);
    assert m' - {k} == m - {k};
    if k in m {
      SumSplits(m, k);
    } else {
      assert m - {k} == m;
    }
  }

  lemma {:induction false} CountOfAppend(a: seq<Hit>, b: seq<Hit>, path: Text)
    ensures CountOf(a + b, path) == CountOf(a, path) + CountOf(b, path)
    ensures CountUnder(a + b, path) == CountUnder(a, path) + CountUnder(b, path)
    decreases |b|
  {
    if b == [] {
      assert a + b == a;
    } else {
      var n := |b| - 1;
      assert (a + b)[..|a + b| - 1] == a + b[..n];
      CountOfAppend(a, b[..n], path);
    }
  }

  lemma {:induction false} CountOfOneFile(hits: seq<Hit>, path: Text, other: Text)
    requires forall h :: h in hits ==> h.path == path
    ensures CountOf(hits, other) == (if other == path then |hits| else 0)
    ensures CountUnder(hits, other) == (if other == DirOf(path) then |hits| else 0)
  {
    if hits != [] {
      assert hits[|hits| - 1] in hits;
      CountOfOneFile(hits[..|hits| - 1], path, other);
    }
  }

  lemma {:induction false} HitsCarryPath(path: Text, lines: seq<Text>, pattern: Text, i: nat, from: nat)
    requires pattern != [] && i <= |lines|
    ensures forall h :: h in HitsFrom(path, lines, pattern, i, from) ==> h.path == path
    decreases |lines| - i
  {
    if i < |lines| {
      HitsCarryPath(path, lines, pattern, i + 1, 0);
      HitsAtCarryPath(path, i + 1, Found(lines[i], pattern, from));
    }
  }

  lemma {:induction false} HitsAtCarryPath(path: Text, line: nat, positions: seq<nat>)
    ensures forall h :: h in HitsAt(path, line, positions) ==> h.path == path
  {
    if positions != [] {
      HitsAtCarryPath(path, line, positions[1..]);
    }
  }

  lemma {:induction false} LineHits(path: Text, line: nat, positions: seq<nat>, h: Hit)
    ensures h in HitsAt(path, line, positions)
       <==> h.path == path && h.line == line && h.column > 0 && h.column - 1 in positions
  {
    if positions != [] {
      LineHits(path, line, positions[1..], h);
      assert h.column - 1 in positions <==> h.column - 1 == positions[0] || h.column - 1 in positions[1..];
    }
  }

  ghost predicate IsHit(path: Text, lines: seq<Text>, pattern: Text, h: Hit)
    requires pattern != []
  {
    && h.path == path && 1 <= h.line <= |lines|
    && h.column > 0 && h.column - 1 in Found(lines[h.line - 1], pattern, 0)
  }

  /** The hits of a file are the found positions of its lines, each with its line and column from one. */
  lemma {:induction false} HitsExactly(path: Text, lines: seq<Text>, pattern: Text, i: nat, h: Hit)
    requires pattern != [] && i <= |lines|
    ensures h in HitsFrom(path, lines, pattern, i, 0) <==> IsHit(path, lines, pattern, h) && h.line > i
    decreases |lines| - i
  {
    if i < |lines| {
      HitsExactly(path, lines, pattern, i + 1, h);
      LineHits(path, i + 1, Found(lines[i], pattern, 0), h);
    }
  }

  ghost predicate Precedes(a: Hit, b: Hit) {
    a.line < b.line || (a.line == b.line && a.column < b.column)
  }

  ghost predicate Ascending(hits: seq<Hit>) {
    forall a, b :: 0 <= a < b < |hits| ==> Precedes(hits[a], hits[b])
  }

  lemma {:induction false} LineAscends(path: Text, line: Text, at: nat, pattern: Text, from: nat)
    requires pattern != []
    ensures var hits := HitsAt(path, at, Found(line, pattern, from));
            Ascending(hits) && forall h :: h in hits ==> h.line == at && h.column > from
    decreases |line| - from
  {
    var i := IndexFrom(line, pattern, from);
    if i >= 0 {
      IndexInside(line, pattern, from);
      LineAscends(path, line, at, pattern, i + |pattern|);
    }
  }

  /** They come line by line and left to right, so each appears once. */
  lemma {:induction false} HitsAscend(path: Text, lines: seq<Text>, pattern: Text, i: nat)
    requires pattern != [] && i <= |lines|
    ensures Ascending(HitsFrom(path, lines, pattern, i, 0))
    decreases |lines| - i
  {
    if i < |lines| {
      var line, later := HitsAt(path, i + 1, Found(lines[i], pattern, 0)), HitsFrom(path, lines, pattern, i + 1, 0);
      LineAscends(path, lines[i], i + 1, pattern, 0);
      HitsAscend(path, lines, pattern, i + 1);
      forall b | 0 <= b < |later| ensures later[b].line > i + 1 {
        HitsExactly(path, lines, pattern, i + 1, later[b]);
      }
    }
  }

  // ----- the scan -----

  /** The rows kept when more hits come in: those that still fit under the limit. */
  function Keep(rows: seq<Hit>, more: seq<Hit>, limit: nat): seq<Hit> {
    if |rows| >= limit then rows else rows + First(more, limit - |rows|)
  }

  /** A scan of hits `all` with room for that many more counts has counted the first n of them, and `rest` is
      still to come; rows0 is what was kept before it started. */
  ghost predicate Counting(all: seq<Hit>, rest: seq<Hit>, n: nat, rows0: seq<Hit>, rows: seq<Hit>, limit: nat,
                           room: nat) {
    n < room && n <= |all| && all[n..] == rest && rows == Keep(rows0, all[..n], limit)
  }

  ghost predicate Counted(all: seq<Hit>, n: nat, full: bool, rows0: seq<Hit>, rows: seq<Hit>, limit: nat, room: nat) {
    n == |First(all, room)| && (full <==> |all| >= room) && rows == Keep(rows0, First(all, room), limit)
  }

  lemma CountNone(path: Text, content: Text, pattern: Text, rows: seq<Hit>, limit: nat, room: nat)
    requires pattern != [] && room > 0
    ensures Counting(FileHits(path, content, pattern), HitsFrom(path, Lines(content), pattern, 0, 0), 0, rows, rows,
                     limit, room)
  {
  }

  lemma CountOne(all: seq<Hit>, hit: Hit, rest: seq<Hit>, n: nat, rows0: seq<Hit>, rows: seq<Hit>, limit: nat,
                 room: nat)
    requires Counting(all, [hit] + rest, n, rows0, rows, limit, room)
    ensures var rows' := if |rows| < limit then rows + [hit] else rows;
            if n + 1 < room then Counting(all, rest, n + 1, rows0, rows', limit, room)
            else Counted(all, n + 1, true, rows0, rows', limit, room)
  {
    assert all[n..][0] == hit && all[n..][1..] == rest;
    assert all[..n + 1] == all[..n] + [hit];
  }

  lemma CountedAll(all: seq<Hit>, n: nat, rows0: seq<Hit>, rows: seq<Hit>, limit: nat, room: nat)
    requires Counting(all, [], n, rows0, rows, limit, room)
    ensures Counted(all, n, false, rows0, rows, limit, room)
  {
    assert all[..n] == all;
  }

  /** What the response says is what the hits counted so far amount to. */
  ghost predicate Accounts(counted: seq<Hit>, limit: nat, matches: seq<Hit>, total: nat,
                           byFile: map<Text, nat>, byDir: map<Text, nat>, fileOrder: seq<Text>) {
    && total == |counted| <= SCAN_LIMIT
    && matches == First(counted, limit)
    && CountsMatch(counted, byFile, byDir)
    && Sum(byFile) == total && Sum(byDir) == total
    && FilesMatch(fileOrder, byFile)
  }

  lemma AccountsStart(limit: nat)
    ensures Accounts([], limit, [], 0, map[], map[], [])
  {
  }

  /** The hits of one more file. */
  lemma AccountsGrow(counted: seq<Hit>, limit: nat, matches: seq<Hit>, total: nat,
                     byFile: map<Text, nat>, byDir: map<Text, nat>, fileOrder: seq<Text>,
                     path: Text, content: Text, pattern: Text, n: nat, full: bool, rows: seq<Hit>)
    requires pattern != [] && total < SCAN_LIMIT
    requires Accounts(counted, limit, matches, total, byFile, byDir, fileOrder)
    requires Counted(FileHits(path, content, pattern), n, full, matches, rows, limit, SCAN_LIMIT - total)
    ensures var more := First(FileHits(path, content, pattern), SCAN_LIMIT - total);
            if n == 0 then Accounts(counted + more, limit, rows, total, byFile, byDir, fileOrder)
            else
              Accounts(counted + more, limit, rows, total + n, byFile[path := Get(byFile, path) + n],
                       byDir[DirOf(path) := Get(byDir, DirOf(path)) + n],
                       if Get(byFile, path) == 0 then fileOrder + [path] else fileOrder)
  {
    hide DirOf, FileHits, CountsMatch, FilesMatch, Keep, First;
    var more := First(FileHits(path, content, pattern), SCAN_LIMIT - total);
    FirstsGrow(counted, more, limit);
    FirstFits(FileHits(path, content, pattern), SCAN_LIMIT - total);
    CountMore(counted, more, path, content, pattern, SCAN_LIMIT - total, byFile, byDir);
    SumAdds(byFile, path, n);
    SumAdds(byDir, DirOf(path), n);
    FilesGrow(counted, fileOrder, byFile, byDir, path, n);
  }

  lemma FirstsGrow(a: seq<Hit>, b: seq<Hit>, limit: nat)
    ensures Keep(First(a, limit), b, limit) == First(a + b, limit)
  {
    assert [] + (a + b) == a + b && [] + a == a;
  }

  lemma FirstFits(s: seq<Hit>, n: nat)
    ensures |First(s, n)| <= n
  {
  }

  lemma FilesGrow(counted: seq<Hit>, fileOrder: seq<Text>, byFile: map<Text, nat>, byDir: map<Text, nat>,
                  path: Text, n: nat)
    requires FilesMatch(fileOrder, byFile) && CountsMatch(counted, byFile, byDir)
    ensures FilesMatch(if Get(byFile, path) == 0 then fileOrder + [path] else fileOrder,
                       byFile[path := Get(byFile, path) + n])
  {
  }

  class Scan {
    const pattern: Text
    const limit: nat
    var matches: seq<Hit>
    var total: nat
    var byFile: map<Text, nat>
    var byDir: map<Text, nat>
    var fileOrder: seq<Text>
    var filesScanned: nat
    ghost var counted: seq<Hit>

    ghost predicate Valid()
      reads this
    {
      && pattern != [] && total == |counted|
      && Accounts(counted, limit, matches, total, byFile, byDir, fileOrder)
    }

    constructor (pattern: Text, limit: nat)
      requires pattern != []
      ensures Valid() && counted == [] && filesScanned == 0
      ensures this.pattern == pattern && this.limit == limit
    {
      this.pattern, this.limit := pattern, limit;
      matches, total, byFile, byDir, fileOrder, filesScanned, counted := [], 0, map[], map[], [], 0, [];
      AccountsStart(limit);
    }

    /** The closure inside searchInBlob: count the hit, keep it if it fits, and report the ceiling. */
    method Record(n: nat, hit: Hit) returns (n': nat, full: bool)
      modifies this`matches
      ensures n' == n + 1 && full == (total + n + 1 >= SCAN_LIMIT)
      ensures matches == if |old(matches)| < limit then old(matches) + [hit] else old(matches)
    {
      n' := n + 1;
      if |matches| < limit {
        matches := matches + [hit];
      }
      full := total + n' >= SCAN_LIMIT;
    }

    /** One file: every occurrence on every line is counted until the ceiling, and those that fit are kept. */
    method SearchInBlob(path: Text, content: Text) returns (n: nat, full: bool)
      requires pattern != [] && total < SCAN_LIMIT
      modifies this`matches
      ensures Counted(FileHits(path, content, pattern), n, full, old(matches), matches, limit, SCAN_LIMIT - total)
    {
      hide IndexFrom, HitsFrom, FileHits, Lines, OccursAt, Counting, Counted;
      var lines := Lines(content);
      ghost var all, room := FileHits(path, content, pattern), SCAN_LIMIT - total;
      n := 0;
      CountNone(path, content, pattern, matches, limit, room);
      for i := 0 to |lines|
        invariant Counting(all, HitsFrom(path, lines, pattern, i, 0), n, old(matches), matches, limit, room)
      {
        var line := lines[i];
        var start := 0;
        while true
          invariant Counting(all, HitsFrom(path, lines, pattern, i, start), n, old(matches), matches, limit, room)
          decreases |line| - start
        {
          LoopTurn(path, lines, pattern, i, start, all, n, old(matches), matches, limit, room);
          var at := IndexFrom(line, pattern, start);
          if at < 0 {
            break;
          }
          IndexInside(line, pattern, start);
          var hit := Hit(path, i + 1, at + 1);
          start := at + |pattern|;
          n, full := Record(n, hit);
          if full {
            return;
          }
        }
      }
      NoMoreLines(path, lines, pattern);
      CountedAll(all, n, old(matches), matches, limit, room);
      full := false;
    }

    /** The accounting around searchInBlob, for one file the filters admit. */
    method CountFile(path: Text, content: Text) returns (full: bool)
      requires Valid() && total < SCAN_LIMIT
      modifies this
      ensures Valid()
      ensures counted == old(counted) + First(FileHits(path, content, pattern), SCAN_LIMIT - |old(counted)|)
      ensures full <==> |FileHits(path, content, pattern)| >= SCAN_LIMIT - |old(counted)|
      ensures filesScanned == old(filesScanned) + 1
    {
      hide Accounts, FileHits, DirOf;
      filesScanned := filesScanned + 1;
      var n: nat;
      n, full := SearchInBlob(path, content);
      AccountsGrow(counted, limit, old(matches), total, byFile, byDir, fileOrder,
                   path, content, pattern, n, full, matches);
      counted := counted + First(FileHits(path, content, pattern), SCAN_LIMIT - total);
      if n > 0 {
        if Get(byFile, path) == 0 {
          fileOrder := fileOrder + [path];
        }
        byFile := byFile[path := Get(byFile, path) + n];
        byDir := byDir[DirOf(path) := Get(byDir, DirOf(path)) + n];
        total := total + n;
      }
    }

    /** One table, row by row; a file whose blob cannot be read is passed over. */
    method ScanTable(rows: seq<Row>) returns (full: bool)
      requires Valid() && total < SCAN_LIMIT
      modifies this
      ensures Valid()
      ensures counted == old(counted) + First(TableHits(rows, pattern), SCAN_LIMIT - |old(counted)|)
      ensures full <==> |TableHits(rows, pattern)| >= SCAN_LIMIT - |old(counted)|
    {
      hide Accounts, FileHits;
      full := false;
      ghost var all := counted + TableHits(rows, pattern);
      assert rows[0..] == rows;
      for r := 0 to |rows|
        invariant Valid() && total < SCAN_LIMIT
        invariant all == counted + TableHits(rows[r..], pattern)
      {
        ghost var rest := TableHits(rows[r + 1..], pattern);
        assert rows[r..][0] == rows[r] && rows[r..][1..] == rows[r + 1..];
        if rows[r].admitted && rows[r].blob.Some? {
          ghost var before := counted;
          full := CountFile(rows[r].path, rows[r].blob.value);
          TookSome(all, before, RowHits(rows[r], pattern), rest);
          if full {
            TookAll(old(counted), TableHits(rows, pattern));
            return;
          }
        }
      }
      TookAll(old(counted), TableHits(rows, pattern));
    }

    /** The loop over the tables. */
    method Run(tables: seq<seq<Row>>) returns (scanFull: bool)
      requires Valid() && counted == []
      modifies this
      ensures Valid() && counted == First(AllHits(tables, pattern), SCAN_LIMIT)
      ensures scanFull <==> |AllHits(tables, pattern)| >= SCAN_LIMIT
    {
      hide Accounts, TableHits;
      scanFull := false;
      ghost var all := AllHits(tables, pattern);
      assert tables[0..] == tables && all == [] + all;
      for t := 0 to |tables|
        invariant Valid() && total < SCAN_LIMIT
        invariant all == counted + AllHits(tables[t..], pattern)
      {
        assert tables[t..][0] == tables[t] && tables[t..][1..] == tables[t + 1..];
        ghost var before := counted;
        scanFull := ScanTable(tables[t]);
        TookSome(all, before, TableHits(tables[t], pattern), AllHits(tables[t + 1..], pattern));
        if scanFull {
          return;
        }
      }
    }
  }

  /** Hits counted up to the ceiling are a prefix of all there are, and when the ceiling was not reached
      nothing was left out. */
  lemma TookSome(all: seq<Hit>, before: seq<Hit>, hits: seq<Hit>, rest: seq<Hit>)
    requires |before| < SCAN_LIMIT && all == before + (hits + rest)
    ensures var after := before + First(hits, SCAN_LIMIT - |before|);
            if |hits| >= SCAN_LIMIT - |before| then after == First(all, SCAN_LIMIT) && |all| >= SCAN_LIMIT
            else |after| < SCAN_LIMIT && all == after + rest
  {
  }

  lemma TookAll(before: seq<Hit>, hits: seq<Hit>)
    requires |before| < SCAN_LIMIT
    ensures First(before + hits, SCAN_LIMIT) == before + First(hits, SCAN_LIMIT - |before|)
  {
  }

  lemma NoMoreLines(path: Text, lines: seq<Text>, pattern: Text)
    requires pattern != []
    ensures HitsFrom(path, lines, pattern, |lines|, 0) == []
  {
  }

  lemma NextHit(path: Text, lines: seq<Text>, pattern: Text, i: nat, from: nat)
    requires pattern != [] && i < |lines|
    ensures var at := IndexFrom(lines[i], pattern, from);
            HitsFrom(path, lines, pattern, i, from) ==
            if at < 0 then HitsFrom(path, lines, pattern, i + 1, 0)
            else [Hit(path, i + 1, at + 1)] + HitsFrom(path, lines, pattern, i, at + |pattern|)
  {
    var at := IndexFrom(lines[i], pattern, from);
    var ps := Found(lines[i], pattern, from);
    var next := HitsFrom(path, lines, pattern, i + 1, 0);
    assert HitsFrom(path, lines, pattern, i, from) == HitsAt(path, i + 1, ps) + next;
    if at < 0 {
      assert [] + next == next;
    } else {
      var qs := Found(lines[i], pattern, at + |pattern|);
      assert HitsFrom(path, lines, pattern, i, at + |pattern|) == HitsAt(path, i + 1, qs) + next;
      assert ps == [at] + qs;
      hide IndexFrom, Found, HitsFrom;
      assert ps[0] == at && ps[1..] == qs;
      var h := Hit(path, i + 1, at + 1);
      assert HitsAt(path, i + 1, ps) == [h] + HitsAt(path, i + 1, qs);
      hide HitsAt;
      assert [h] + HitsAt(path, i + 1, qs) + next == [h] + (HitsAt(path, i + 1, qs) + next);
    }
  }

  /** One turn of the inner loop: either the line is done, or one more hit is counted. */
  lemma LoopTurn(path: Text, lines: seq<Text>, pattern: Text, i: nat, from: nat,
                 all: seq<Hit>, n: nat, rows0: seq<Hit>, rows: seq<Hit>, limit: nat, room: nat)
    requires pattern != [] && i < |lines|
    requires Counting(all, HitsFrom(path, lines, pattern, i, from), n, rows0, rows, limit, room)
    ensures var at := IndexFrom(lines[i], pattern, from);
            if at < 0 then Counting(all, HitsFrom(path, lines, pattern, i + 1, 0), n, rows0, rows, limit, room)
            else
              var rows' := if |rows| < limit then rows + [Hit(path, i + 1, at + 1)] else rows;
              if n + 1 < room then
                Counting(all, HitsFrom(path, lines, pattern, i, at + |pattern|), n + 1, rows0, rows', limit, room)
              else Counted(all, n + 1, true, rows0, rows', limit, room)
  {
    hide IndexFrom, HitsFrom, Counting, Counted;
    var at := IndexFrom(lines[i], pattern, from);
    NextHit(path, lines, pattern, i, from);
    if at >= 0 {
      var rest := HitsFrom(path, lines, pattern, i, at + |pattern|);
      CountOne(all, Hit(path, i + 1, at + 1), rest, n, rows0, rows, limit, room);
    }
  }

  ghost predicate CountsMatch(counted: seq<Hit>, byFile: map<Text, nat>, byDir: map<Text, nat>) {
    && (forall p :: Get(byFile, p) == CountOf(counted, p))
    && (forall d :: Get(byDir, d) == CountUnder(counted, d))
    && (forall p :: p in byFile ==> byFile[p] > 0)
    && (forall d :: d in byDir ==> byDir[d] > 0)
  }

  ghost predicate FilesMatch(fileOrder: seq<Text>, byFile: map<Text, nat>) {
    && (forall p :: p in fileOrder <==> p in byFile)
    && (forall i, j :: 0 <= i < j < |fileOrder| ==> fileOrder[i] != fileOrder[j])
  }

  lemma FirstCarryPath(path: Text, content: Text, pattern: Text, room: nat)
    requires pattern != []
    ensures forall h :: h in First(FileHits(path, content, pattern), room) ==> h.path == path
  {
    HitsCarryPath(path, Lines(content), pattern, 0, 0);
  }

  /** Hits of one file move its count and its directory's count, and no other. */
  lemma CountMore(counted: seq<Hit>, more: seq<Hit>, path: Text, content: Text, pattern: Text, room: nat,
                  byFile: map<Text, nat>, byDir: map<Text, nat>)
    requires pattern != [] && more == First(FileHits(path, content, pattern), room)
    requires CountsMatch(counted, byFile, byDir)
    ensures if |more| == 0 then CountsMatch(counted + more, byFile, byDir)
            else CountsMatch(counted + more, byFile[path := Get(byFile, path) + |more|],
                             byDir[DirOf(path) := Get(byDir, DirOf(path)) + |more|])
  {
    hide DirOf, CountOf, CountUnder, FileHits;
    FirstCarryPath(path, content, pattern, room);
    forall p ensures CountOf(counted + more, p) == CountOf(counted, p) + (if p == path then |more| else 0) {
      CountOfAppend(counted, more, p);
      CountOfOneFile(more, path, p);
    }
    forall d
      ensures CountUnder(counted + more, d) == CountUnder(counted, d) + (if d == DirOf(path) then |more| else 0)
    {
      CountOfAppend(counted, more, d);
      CountOfOneFile(more, path, d);
    }
  }

  /** The hits of each file that has some, and of each directory. */
  function FileCounts(hits: seq<Hit>): map<Text, nat> {
    map p | p in (set h | h in hits :: h.path) :: CountOf(hits, p)
  }

  function DirCounts(hits: seq<Hit>): map<Text, nat> {
    map d | d in (set h | h in hits :: DirOf(h.path)) :: CountUnder(hits, d)
  }

  lemma {:induction false} CountedAreThere(hits: seq<Hit>, k: Text)
    ensures CountOf(hits, k) > 0 <==> exists h :: h in hits && h.path == k
    ensures CountUnder(hits, k) > 0 <==> exists h :: h in hits && DirOf(h.path) == k
  {
    hide DirOf;
    if hits != [] {
      var front, h := hits[..|hits| - 1], hits[|hits| - 1];
      CountedAreThere(front, k);
      assert hits == front + [h];
    }
  }

  lemma CountsAreThese(counted: seq<Hit>, byFile: map<Text, nat>, byDir: map<Text, nat>)
    requires CountsMatch(counted, byFile, byDir)
    ensures byFile == FileCounts(counted) && byDir == DirCounts(counted)
  {
    hide CountOf, CountUnder, DirOf;
    var files, dirs := FileCounts(counted), DirCounts(counted);
    forall k ensures (k in byFile <==> k in files) && (k in byFile ==> byFile[k] == files[k]) {
      CountedAreThere(counted, k);
      assert Get(byFile, k) == CountOf(counted, k);
    }
    forall k ensures (k in byDir <==> k in dirs) && (k in byDir ==> byDir[k] == dirs[k]) {
      CountedAreThere(counted, k);
      assert Get(byDir, k) == CountUnder(counted, k);
    }
  }

  datatype SearchFile = SearchFile(path: Text, matches: nat)

  datatype Response = Response(
    files: seq<SearchFile>, matches: seq<Hit>, total: nat, returned: nat, filesWithMatches: nat,
    byFile: map<Text, nat>, byDir: map<Text, nat>, truncated: bool, scanTruncated: bool)

  function Clamp(v: int, lo: int, hi: int): int {
    if v < lo then lo else if v > hi then hi else v
  }

  lemma AccountsOf(counted: seq<Hit>, limit: nat, matches: seq<Hit>, total: nat,
                   byFile: map<Text, nat>, byDir: map<Text, nat>, fileOrder: seq<Text>)
    requires Accounts(counted, limit, matches, total, byFile, byDir, fileOrder)
    ensures FilesMatch(fileOrder, byFile)
  {
  }

  /** What the scan has accounted for, with the maps cut, is the answer. */
  lemma AccountsAnswer(all: seq<Hit>, limit: nat, byFile: map<Text, nat>, byDir: map<Text, nat>,
                       fileOrder: seq<Text>, resp: Response)
    requires Accounts(First(all, SCAN_LIMIT), limit, resp.matches, resp.total, byFile, byDir, fileOrder)
    requires ListsEach(resp.files, byFile) && resp.filesWithMatches == |fileOrder|
    requires TopCounts.IsTop(byFile, MAX_BY_FILE, resp.byFile) && TopCounts.IsTop(byDir, MAX_BY_FILE, resp.byDir)
    requires resp.returned == |resp.matches| && (resp.truncated <==> |resp.matches| < resp.total)
    requires resp.scanTruncated <==> |all| >= SCAN_LIMIT
    ensures IsAnswer(all, limit, resp)
  {
    hide CountsMatch, FilesMatch, ListsEach, Sum, Summarises, First, TopCounts.IsTop;
    AccountsSummarise(First(all, SCAN_LIMIT), limit, byFile, byDir, fileOrder, resp);
    FirstOfFirst(all, SCAN_LIMIT, limit);
  }

  lemma FirstOfFirst(s: seq<Hit>, n: nat, limit: nat)
    ensures var total := if |s| < n then |s| else n;
            var kept := if limit < total then limit else total;
            && |First(s, n)| == total && First(s, n) == s[..total]
            && First(First(s, n), limit) == s[..kept] && (|s[..kept]| < total <==> limit < total)
  {
  }

  lemma AccountsSummarise(counted: seq<Hit>, limit: nat, byFile: map<Text, nat>, byDir: map<Text, nat>,
                          fileOrder: seq<Text>, resp: Response)
    requires Accounts(counted, limit, resp.matches, resp.total, byFile, byDir, fileOrder)
    requires ListsEach(resp.files, byFile) && resp.filesWithMatches == |fileOrder|
    requires TopCounts.IsTop(byFile, MAX_BY_FILE, resp.byFile) && TopCounts.IsTop(byDir, MAX_BY_FILE, resp.byDir)
    ensures Summarises(counted, resp)
  {
    CountsAreThese(counted, byFile, byDir);
    FilesCounted(fileOrder, byFile);
    hide CountsMatch, FilesMatch, ListsEach, Sum, FileCounts, DirCounts, First, TopCounts.IsTop;
  }

  /** The counts are written into the file list at the end. */
  method ListFiles(fileOrder: seq<Text>, byFile: map<Text, nat>) returns (files: seq<SearchFile>)
    requires FilesMatch(fileOrder, byFile)
    ensures ListsEach(files, byFile)
  {
    files := [];
    for i := 0 to |fileOrder|
      invariant |files| == i
      invariant forall j :: 0 <= j < i ==> fileOrder[j] in byFile
                                           && files[j] == SearchFile(fileOrder[j], byFile[fileOrder[j]])
    {
      files := files + [SearchFile(fileOrder[i], byFile[fileOrder[i]])];
    }
    forall p | p in byFile ensures SearchFile(p, byFile[p]) in files {
      var i :| 0 <= i < |fileOrder| && fileOrder[i] == p;
      assert files[i] == SearchFile(p, byFile[p]);
    }
  }

  /** Every file with a count is listed once, with that count. */
  ghost predicate ListsEach(files: seq<SearchFile>, byFile: map<Text, nat>) {
    && (forall f :: f in files <==> f.path in byFile && f.matches == byFile[f.path])
    && (forall i, j :: 0 <= i < j < |files| ==> files[i].path != files[j].path)
  }

  /** The summary of the hits counted. */
  ghost predicate Summarises(counted: seq<Hit>, resp: Response) {
    && Sum(FileCounts(counted)) == resp.total && Sum(DirCounts(counted)) == resp.total
    && ListsEach(resp.files, FileCounts(counted)) && resp.filesWithMatches == |FileCounts(counted)|
    && TopCounts.IsTop(FileCounts(counted), 200, resp.byFile)
    && TopCounts.IsTop(DirCounts(counted), 200, resp.byDir)
  }

  ghost predicate IsAnswer(all: seq<Hit>, limit: nat, resp: Response) {
    && resp.total == (if |all| < 100_000 then |all| else 100_000)
    && resp.matches == all[..if limit < resp.total then limit else resp.total] && resp.returned == |resp.matches|
    && Summarises(all[..resp.total], resp)
    && (resp.truncated <==> limit < resp.total)
    && (resp.scanTruncated <==> |all| >= 100_000)
  }

  lemma FilesCounted(fileOrder: seq<Text>, byFile: map<Text, nat>)
    requires FilesMatch(fileOrder, byFile)
    ensures |fileOrder| == |byFile|
  {
    DistinctCount(fileOrder);
    assert (set p | p in fileOrder) == byFile.Keys;
  }

  // ----- what scan_truncated says -----

  /** The summary undercounts exactly when there are more matches than the ceiling, but scan_truncated is
      also set when there are exactly as many. */
  lemma ScanTruncatedMeans(all: seq<Hit>, limit: nat, resp: Response)
    requires IsAnswer(all, limit, resp)
    ensures resp.total < |all| <==> |all| > 100_000
    ensures (resp.scanTruncated ==> resp.total < |all|) <==> |all| != 100_000
  {
  }

  function Line(n: nat): Text {
    seq(n, _ => 'x')
  }

  lemma {:induction false} EveryPositionFound(n: nat, from: nat)
    requires from <= n
    ensures |Found(Line(n), "x", from)| == n - from
    decreases n - from
  {
    if from < n {
      assert OccursAt(Line(n), "x", from);
      EveryPositionFound(n, from + 1);
    }
  }

  lemma {:induction false} OneLine(content: Text)
    requires '\n' !in content
    ensures SplitLines(content) == [content]
  {
    if content != [] {
      OneLine(content[1..]);
      assert content == [content[0]] + content[1..];
    }
  }

  lemma {:induction false} HitPerPosition(path: Text, line: nat, positions: seq<nat>)
    ensures |HitsAt(path, line, positions)| == |positions|
  {
    if positions != [] {
      HitPerPosition(path, line, positions[1..]);
    }
  }

  /** One file of a single line is enough to reach the ceiling with nothing left to count. */
  lemma CeilingReachedExactly()
    ensures |AllHits([[Row("f", true, Some(Line(SCAN_LIMIT)))]], "x")| == SCAN_LIMIT
  {
    var content := Line(SCAN_LIMIT);
    OneLine(content);
    EveryPositionFound(SCAN_LIMIT, 0);
    HitPerPosition("f", 1, Found(content, "x", 0));
    assert Lines(content) == [content];
    NoMoreLines("f", [content], "x");
    var row := Row("f", true, Some(content));
    assert RowHits(row, "x") == HitsAt("f", 1, Found(content, "x", 0));
    var rows, tables := [row], [[row]];
    assert rows[1..] == [] && tables[1..] == [];
    assert TableHits(rows, "x") == RowHits(row, "x") + TableHits([], "x");
    assert AllHits(tables, "x") == TableHits(rows, "x") + AllHits([], "x");
  }
}
