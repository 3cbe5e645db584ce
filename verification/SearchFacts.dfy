/** What search_source finds, said of whole texts: line by line it finds just what searching each text from end to end
    would, each match at its line and column, and nothing for a pattern that spans lines. */
module SearchFacts {
  import opened Wrappers
  import opened SourceSearch
  import TopCounts

  // ----- searching a text from end to end -----

  predicate IsAt(content: Text, pattern: Text, o: nat) {
    o + |pattern| <= |content| && forall i :: 0 <= i < |pattern| ==> content[o + i] == pattern[i]
  }

  predicate Covers(o: nat, pattern: Text, p: nat) {
    o <= p < o + |pattern|
  }

  /** Offsets where the pattern is, none overlapping the one before, and every other place where it is starts within one
      of them. */
  ghost predicate AreFound(content: Text, pattern: Text, os: seq<nat>) {
    && (forall k :: 0 <= k < |os| ==> IsAt(content, pattern, os[k]))
    && (forall k, l :: 0 <= k && l == k + 1 < |os| ==> os[k] + |pattern| <= os[l])
    && forall p :: IsAt(content, pattern, p) ==> exists k :: 0 <= k < |os| && Covers(os[k], pattern, p)
  }

  ghost predicate IsSearch(content: Text, pattern: Text, os: seq<nat>) {
    if '\n' in pattern then os == [] else AreFound(content, pattern, os)
  }

  function Newlines(text: Text): nat {
    if text == [] then 0 else (if text[0] == '\n' then 1 else 0) + Newlines(text[1..])
  }

  /** As many newlines before the offset as lines before the hit's, above the first n, and none in the columns before
      the hit's. */
  predicate IsPlaceOf(content: Text, o: nat, n: nat, h: Hit) {
    && o <= |content| && h.line == n + Newlines(content[..o]) + 1
    && 1 <= h.column <= o + 1 && '\n' !in content[o + 1 - h.column..o]
    && (h.column <= o ==> content[o - h.column] == '\n')
  }

  ghost predicate AreHitsAt(path: Text, content: Text, n: nat, os: seq<nat>, hits: seq<Hit>) {
    |hits| == |os| && forall k :: 0 <= k < |os| ==> hits[k].path == path && IsPlaceOf(content, os[k], n, hits[k])
  }

  /** The matches of a file. */
  ghost predicate AreHitsOf(path: Text, content: Text, pattern: Text, hits: seq<Hit>) {
    exists os :: IsSearch(content, pattern, os) && AreHitsAt(path, content, 0, os, hits)
  }

  // ----- one line -----

  lemma OccursIs(line: Text, pattern: Text, o: nat)
    ensures IsAt(line, pattern, o) <==> OccursAt(line, pattern, o)
  {
    if o + |pattern| <= |line| {
      var s := line[o..o + |pattern|];
      assert |s| == |pattern|;
      assert forall i :: 0 <= i < |pattern| ==> s[i] == line[o + i];
    }
  }

  /** An occurrence before the end of the k-th one found is covered by one of the first k. */
  lemma {:induction false} CoveredBefore(line: Text, pattern: Text, ps: seq<nat>, o: nat, k: nat)
    requires LeftmostNonOverlapping(line, pattern, 0, ps) && OccursAt(line, pattern, o)
    requires k <= |ps| && o < StartOf(pattern, 0, ps, k)
    ensures exists m :: 0 <= m < |ps| && Covers(ps[m], pattern, o)
    decreases k
  {
    hide OccursAt;
    if k > 0 && ps[k - 1] <= o {
      assert Covers(ps[k - 1], pattern, o);
    } else if k > 0 {
      assert IsNext(line, pattern, 0, ps, k - 1);
      CoveredBefore(line, pattern, ps, o, k - 1);
    }
  }

  lemma FoundIsAt(line: Text, pattern: Text, ps: seq<nat>, k: nat)
    requires LeftmostNonOverlapping(line, pattern, 0, ps) && k < |ps|
    ensures IsAt(line, pattern, ps[k]) && StartOf(pattern, 0, ps, k) <= ps[k]
  {
    assert IsNext(line, pattern, 0, ps, k);
    OccursIs(line, pattern, ps[k]);
    hide OccursAt, IsAt;
  }

  lemma AllAreCovered(line: Text, pattern: Text, ps: seq<nat>, p: nat)
    requires LeftmostNonOverlapping(line, pattern, 0, ps) && IsAt(line, pattern, p)
    ensures exists k :: 0 <= k < |ps| && Covers(ps[k], pattern, p)
  {
    OccursIs(line, pattern, p);
    hide OccursAt, IsAt, IsNext;
    CoveredBefore(line, pattern, ps, p, |ps|);
  }

  lemma LeftmostAreFound(line: Text, pattern: Text, ps: seq<nat>)
    requires LeftmostNonOverlapping(line, pattern, 0, ps)
    ensures AreFound(line, pattern, ps)
  {
    hide IsAt, LeftmostNonOverlapping, Covers, StartOf;
    forall k | 0 <= k < |ps| ensures IsAt(line, pattern, ps[k]) {
      FoundIsAt(line, pattern, ps, k);
    }
    forall k, l | 0 <= k && l == k + 1 < |ps| ensures ps[k] + |pattern| <= ps[l] {
      FoundIsAt(line, pattern, ps, l);
      StartsBehind(pattern, ps, l);
    }
    forall p: nat | IsAt(line, pattern, p) ensures exists k :: 0 <= k < |ps| && Covers(ps[k], pattern, p) {
      AllAreCovered(line, pattern, ps, p);
    }
  }

  lemma StartsBehind(pattern: Text, ps: seq<nat>, k: nat)
    requires 0 < k <= |ps|
    ensures StartOf(pattern, 0, ps, k) == ps[k - 1] + |pattern|
  {
  }

  lemma LineIsSearched(line: Text, pattern: Text)
    requires pattern != [] && '\n' !in line
    ensures IsSearch(line, pattern, Found(line, pattern, 0))
  {
    hide Found, AreFound, IsAt;
    var ps := Found(line, pattern, 0);
    FoundExactly(line, pattern, 0, ps);
    LeftmostAreFound(line, pattern, ps);
    if '\n' in pattern && ps != [] {
      FoundIsAt(line, pattern, ps, 0);
      NotAcross(line, pattern, ps[0]);
    }
  }

  lemma NotAcross(line: Text, pattern: Text, o: nat)
    requires '\n' !in line && '\n' in pattern
    ensures !IsAt(line, pattern, o)
  {
    var i :| 0 <= i < |pattern| && pattern[i] == '\n';
    if o + |pattern| <= |line| {
      assert line[o + i] in line;
    }
  }

  lemma {:induction false} HitsAtAre(path: Text, line: nat, positions: seq<nat>)
    ensures |HitsAt(path, line, positions)| == |positions|
    ensures forall k :: 0 <= k < |positions| ==> HitsAt(path, line, positions)[k] == Hit(path, line, positions[k] + 1)
  {
    if positions != [] {
      HitsAtAre(path, line, positions[1..]);
    }
  }

  lemma {:induction false} NoNewlines(text: Text)
    requires '\n' !in text
    ensures Newlines(text) == 0
  {
    if text != [] {
      NoNewlines(text[1..]);
    }
  }

  lemma {:induction false} NewlinesAdd(a: Text, b: Text)
    ensures Newlines(a + b) == Newlines(a) + Newlines(b)
  {
    if a == [] {
      assert a + b == b;
    } else {
      NewlinesAdd(a[1..], b);
      assert (a + b)[1..] == a[1..] + b;
    }
  }

  lemma LineHitsAre(path: Text, line: Text, pattern: Text, n: nat)
    requires pattern != [] && '\n' !in line
    ensures var ps := Found(line, pattern, 0);
            IsSearch(line, pattern, ps) && AreHitsAt(path, line, n, ps, HitsAt(path, n + 1, ps))
  {
    hide Found, IsSearch, HitsAt, IsPlaceOf;
    var ps := Found(line, pattern, 0);
    LineIsSearched(line, pattern);
    HitsAtAre(path, n + 1, ps);
    forall k | 0 <= k < |ps| ensures IsPlaceOf(line, ps[k], n, Hit(path, n + 1, ps[k] + 1)) {
      FoundInside(line, pattern, ps, k);
      PlaceInLine(path, line, ps[k], n);
    }
  }

  lemma PlaceInLine(path: Text, line: Text, o: nat, n: nat)
    requires '\n' !in line && o <= |line|
    ensures IsPlaceOf(line, o, n, Hit(path, n + 1, o + 1))
  {
    NoNewlines(line[..o]);
  }

  lemma FoundInside(line: Text, pattern: Text, ps: seq<nat>, k: nat)
    requires pattern != [] && ps == Found(line, pattern, 0) && k < |ps|
    ensures ps[k] <= |line|
  {
    FoundExactly(line, pattern, 0, ps);
    hide Found;
    assert IsNext(line, pattern, 0, ps, k);
  }

  // ----- all lines -----

  /** The hits of lines that follow n others. */
  function HitsOver(path: Text, lines: seq<Text>, pattern: Text, n: nat): seq<Hit>
    requires pattern != []
  {
    if lines == [] then []
    else HitsAt(path, n + 1, Found(lines[0], pattern, 0)) + HitsOver(path, lines[1..], pattern, n + 1)
  }

  lemma {:induction false} HitsFromIs(path: Text, lines: seq<Text>, pattern: Text, i: nat)
    requires pattern != [] && i <= |lines|
    ensures HitsFrom(path, lines, pattern, i, 0) == HitsOver(path, lines[i..], pattern, i)
    decreases |lines| - i
  {
    if i < |lines| {
      HitsFromIs(path, lines, pattern, i + 1);
      assert lines[i..][1..] == lines[i + 1..];
    }
  }

  lemma {:induction false} EmptyLastLine(path: Text, lines: seq<Text>, pattern: Text, n: nat)
    requires pattern != []
    ensures HitsOver(path, lines + [[]], pattern, n) == HitsOver(path, lines, pattern, n)
  {
    if lines == [] {
      assert (lines + [[]])[1..] == [];
    } else {
      EmptyLastLine(path, lines[1..], pattern, n + 1);
      assert (lines + [[]])[1..] == lines[1..] + [[]];
    }
  }

  lemma {:induction false} SplitAtFirst(content: Text, j: nat)
    requires j < |content| && content[j] == '\n' && '\n' !in content[..j]
    ensures SplitLines(content) == [content[..j]] + SplitLines(content[j + 1..])
  {
    if j == 0 {
      assert content[..0] == [];
    } else {
      assert content[0] == content[..j][0] && content[1..][..j - 1] == content[..j][1..];
      SplitAtFirst(content[1..], j - 1);
      assert content[1..][j..] == content[j + 1..];
      assert [content[0]] + content[1..][..j - 1] == content[..j];
    }
  }

  /** The offsets found in a first line and in the text behind it make those of the whole text. */
  lemma SearchJoins(content: Text, pattern: Text, j: nat, a: seq<nat>, b: seq<nat>)
    requires j < |content| && content[j] == '\n' && pattern != []
    requires IsSearch(content[..j], pattern, a) && IsSearch(content[j + 1..], pattern, b)
    ensures IsSearch(content, pattern, a + Shifted(b, j + 1))
  {
    hide IsAt, Covers;
    var os := a + Shifted(b, j + 1);
    if '\n' !in pattern {
      forall k | 0 <= k < |os| ensures IsAt(content, pattern, os[k]) {
        JoinedAt(content, pattern, j, a, b, k);
      }
      forall k, l | 0 <= k && l == k + 1 < |os| ensures os[k] + |pattern| <= os[l] {
        if l == |a| {
          AtEnds(content[..j], pattern, a[k]);
        }
      }
      forall p: nat | IsAt(content, pattern, p) ensures exists k :: 0 <= k < |os| && Covers(os[k], pattern, p) {
        JoinedCovers(content, pattern, j, a, b, p);
      }
    }
  }

  lemma JoinedAt(content: Text, pattern: Text, j: nat, a: seq<nat>, b: seq<nat>, k: nat)
    requires j < |content| && content[j] == '\n' && pattern != [] && '\n' !in pattern && k < |a| + |b|
    requires AreFound(content[..j], pattern, a) && AreFound(content[j + 1..], pattern, b)
    ensures IsAt(content, pattern, (a + Shifted(b, j + 1))[k])
  {
    hide IsAt, Covers;
    AtOneSide(content, pattern, j, if k < |a| then a[k] else b[k - |a|] + j + 1);
  }

  lemma JoinedCovers(content: Text, pattern: Text, j: nat, a: seq<nat>, b: seq<nat>, p: nat)
    requires j < |content| && content[j] == '\n' && pattern != [] && '\n' !in pattern
    requires AreFound(content[..j], pattern, a) && AreFound(content[j + 1..], pattern, b)
    requires IsAt(content, pattern, p)
    ensures var os := a + Shifted(b, j + 1); exists k :: 0 <= k < |os| && Covers(os[k], pattern, p)
  {
    hide IsAt;
    var os := a + Shifted(b, j + 1);
    AtOneSide(content, pattern, j, p);
    if IsAt(content[..j], pattern, p) {
      var k :| 0 <= k < |a| && Covers(a[k], pattern, p);
      assert os[k] == a[k];
    } else {
      var k :| 0 <= k < |b| && Covers(b[k], pattern, p - j - 1);
      assert os[|a| + k] == b[k] + j + 1;
    }
  }

  function Shifted(os: seq<nat>, n: nat): (r: seq<nat>)
    ensures |r| == |os| && forall k :: 0 <= k < |os| ==> r[k] == os[k] + n
  {
    seq(|os|, k requires 0 <= k < |os| => os[k] + n)
  }

  lemma AtEnds(line: Text, pattern: Text, o: nat)
    requires IsAt(line, pattern, o)
    ensures o + |pattern| <= |line|
  {
  }

  lemma AtOneSide(content: Text, pattern: Text, j: nat, p: nat)
    requires j < |content| && content[j] == '\n' && pattern != [] && '\n' !in pattern
    ensures IsAt(content, pattern, p)
       <==> IsAt(content[..j], pattern, p) || (p > j && IsAt(content[j + 1..], pattern, p - j - 1))
  {
    if IsAt(content, pattern, p) && p <= j < p + |pattern| {
      MeetsNewline(content, pattern, j, p);
    }
  }

  lemma MeetsNewline(content: Text, pattern: Text, j: nat, p: nat)
    requires j < |content| && content[j] == '\n' && IsAt(content, pattern, p) && p <= j < p + |pattern|
    ensures '\n' in pattern
  {
    assert pattern[j - p] == content[p + (j - p)];
  }

  lemma PlaceJoins(content: Text, j: nat, o: nat, n: nat, h: Hit)
    requires j < |content| && content[j] == '\n' && '\n' !in content[..j]
    ensures o <= j && IsPlaceOf(content[..j], o, n, h) ==> IsPlaceOf(content, o, n, h)
    ensures IsPlaceOf(content[j + 1..], o, n + 1, h) ==> IsPlaceOf(content, o + j + 1, n, h)
  {
    var first, rest := content[..j], content[j + 1..];
    if o <= j && IsPlaceOf(first, o, n, h) {
      assert first[..o] == content[..o];
      assert first[o + 1 - h.column..o] == content[o + 1 - h.column..o];
    }
    if IsPlaceOf(rest, o, n + 1, h) {
      var q := o + j + 1;
      NoNewlines(first);
      NewlinesAdd(first + ['\n'], rest[..o]);
      NewlinesAdd(first, ['\n']);
      assert content[..q] == first + ['\n'] + rest[..o];
      assert rest[o + 1 - h.column..o] == content[q + 1 - h.column..q];
      assert content[q - h.column] == if h.column <= o then rest[o - h.column] else content[j];
    }
  }

  lemma HitsJoin(path: Text, content: Text, j: nat, n: nat, a: seq<nat>, b: seq<nat>, early: seq<Hit>, late: seq<Hit>)
    requires j < |content| && content[j] == '\n' && '\n' !in content[..j]
    requires AreHitsAt(path, content[..j], n, a, early) && AreHitsAt(path, content[j + 1..], n + 1, b, late)
    ensures AreHitsAt(path, content, n, a + Shifted(b, j + 1), early + late)
  {
    var os, hits := a + Shifted(b, j + 1), early + late;
    forall k | 0 <= k < |os| ensures hits[k].path == path && IsPlaceOf(content, os[k], n, hits[k]) {
      if k < |a| {
        assert IsPlaceOf(content[..j], a[k], n, early[k]);
        PlaceJoins(content, j, a[k], n, early[k]);
      } else {
        PlaceJoins(content, j, b[k - |a|], n, late[k - |a|]);
      }
    }
  }

  function FirstNewline(content: Text): (j: nat)
    requires '\n' in content
    ensures j < |content| && content[j] == '\n' && '\n' !in content[..j]
  {
    if content[0] == '\n' then 0
    else
      assert content == [content[0]] + content[1..];
      var j := FirstNewline(content[1..]);
      assert content[..j + 1] == [content[0]] + content[1..][..j];
      j + 1
  }

  lemma {:induction false} LinesAreTheText(path: Text, content: Text, pattern: Text, n: nat) returns (os: seq<nat>)
    requires pattern != []
    ensures IsSearch(content, pattern, os)
    ensures AreHitsAt(path, content, n, os, HitsOver(path, SplitLines(content), pattern, n))
    decreases |content|
  {
    hide IsSearch, AreHitsAt, Found, HitsAt;
    if '\n' in content {
      var j := FirstNewline(content);
      SplitAtFirst(content, j);
      LineHitsAre(path, content[..j], pattern, n);
      var late := LinesAreTheText(path, content[j + 1..], pattern, n + 1);
      var early := Found(content[..j], pattern, 0);
      SearchJoins(content, pattern, j, early, late);
      HitsJoin(path, content, j, n, early, late, HitsAt(path, n + 1, early),
               HitsOver(path, SplitLines(content[j + 1..]), pattern, n + 1));
      os := early + Shifted(late, j + 1);
      OneMoreLine(path, content[..j], SplitLines(content[j + 1..]), pattern, n);
    } else {
      OneLine(content);
      LineHitsAre(path, content, pattern, n);
      os := Found(content, pattern, 0);
      OneMoreLine(path, content, [], pattern, n);
    }
  }

  lemma OneMoreLine(path: Text, line: Text, lines: seq<Text>, pattern: Text, n: nat)
    requires pattern != []
    ensures var hits := HitsAt(path, n + 1, Found(line, pattern, 0));
            && HitsOver(path, [line] + lines, pattern, n) == hits + HitsOver(path, lines, pattern, n + 1)
            && HitsOver(path, [line] + [], pattern, n) == hits && [line] + [] == [line]
  {
    assert ([line] + lines)[1..] == lines && ([line] + [])[1..] == [];
  }

  /** The hits of a file are those of its text. */
  lemma FileHitsAre(path: Text, content: Text, pattern: Text)
    requires pattern != []
    ensures AreHitsOf(path, content, pattern, FileHits(path, content, pattern))
  {
    hide IsSearch, AreHitsAt, HitsOver;
    var os := LinesAreTheText(path, content, pattern, 0);
    var all, lines := SplitLines(content), Lines(content);
    HitsFromIs(path, lines, pattern, 0);
    assert lines[0..] == lines;
    if all != lines {
      EmptyLastLine(path, lines, pattern, 0);
      assert lines + [[]] == all;
    }
  }

  // ----- all files -----

  ghost predicate AreHitsOfRow(row: Row, pattern: Text, hits: seq<Hit>) {
    if row.admitted && row.blob.Some? then AreHitsOf(row.path, row.blob.value, pattern, hits) else hits == []
  }

  /** The hits of the admitted and readable rows, one row after another. */
  ghost predicate AreHitsOfRows(rows: seq<Row>, pattern: Text, hits: seq<Hit>)
    decreases |rows|
  {
    if rows == [] then hits == []
    else exists n :: && 0 <= n <= |hits| && AreHitsOfRow(rows[0], pattern, hits[..n])
                     && AreHitsOfRows(rows[1..], pattern, hits[n..])
  }

  function Flatten(tables: seq<seq<Row>>): seq<Row> {
    if tables == [] then [] else tables[0] + Flatten(tables[1..])
  }

  lemma {:induction false} TableHitsAre(rows: seq<Row>, pattern: Text)
    requires pattern != []
    ensures AreHitsOfRows(rows, pattern, TableHits(rows, pattern))
  {
    hide FileHits, AreHitsOf;
    if rows != [] {
      var row := rows[0];
      if row.admitted && row.blob.Some? {
        FileHitsAre(row.path, row.blob.value, pattern);
      }
      TableHitsAre(rows[1..], pattern);
      var own, hits := RowHits(row, pattern), TableHits(rows, pattern);
      var n := |own|;
      assert hits[..n] == own && hits[n..] == TableHits(rows[1..], pattern);
    }
  }

  lemma {:induction false} TableHitsAdd(a: seq<Row>, b: seq<Row>, pattern: Text)
    requires pattern != []
    ensures TableHits(a + b, pattern) == TableHits(a, pattern) + TableHits(b, pattern)
  {
    hide RowHits;
    if a == [] {
      assert a + b == b;
    } else {
      TableHitsAdd(a[1..], b, pattern);
      assert (a + b)[1..] == a[1..] + b;
    }
  }

  lemma {:induction false} AllHitsAreOne(tables: seq<seq<Row>>, pattern: Text)
    requires pattern != []
    ensures AllHits(tables, pattern) == TableHits(Flatten(tables), pattern)
  {
    hide TableHits;
    if tables == [] {
      assert TableHits([], pattern) == [] by {
        NoRows(pattern);
      }
    } else {
      AllHitsAreOne(tables[1..], pattern);
      TableHitsAdd(tables[0], Flatten(tables[1..]), pattern);
    }
  }

  lemma NoRows(pattern: Text)
    requires pattern != []
    ensures TableHits([], pattern) == []
  {
  }

  /** The hits of all tables are those of all their rows' texts. */
  lemma AllHitsAre(tables: seq<seq<Row>>, pattern: Text)
    requires pattern != []
    ensures AreHitsOfRows(Flatten(tables), pattern, AllHits(tables, pattern))
  {
    AllHitsAreOne(tables, pattern);
    TableHitsAre(Flatten(tables), pattern);
  }

  // ----- the counts -----

  ghost function IndicesIn(hits: seq<Hit>, path: Text): set<int> {
    set i | 0 <= i < |hits| && hits[i].path == path
  }

  ghost function IndicesUnder(hits: seq<Hit>, dir: Text): set<int> {
    set i | 0 <= i < |hits| && IsDirOf(hits[i].path, dir)
  }

  /** The number of hits for each file, and for each directory, that has some. */
  ghost predicate CountHits(hits: seq<Hit>, byFile: map<Text, nat>, byDir: map<Text, nat>) {
    && (forall k :: k in byFile <==> IndicesIn(hits, k) != {})
    && (forall k :: k in byFile ==> byFile[k] == |IndicesIn(hits, k)|)
    && (forall k :: k in byDir <==> IndicesUnder(hits, k) != {})
    && (forall k :: k in byDir ==> byDir[k] == |IndicesUnder(hits, k)|)
  }

  lemma {:induction false} CountIs(hits: seq<Hit>, k: Text)
    ensures CountOf(hits, k) == |IndicesIn(hits, k)| && CountUnder(hits, k) == |IndicesUnder(hits, k)|
  {
    hide DirOf, IsDirOf;
    if hits == [] {
      assert IndicesIn(hits, k) == {} && IndicesUnder(hits, k) == {};
    } else {
      var n := |hits| - 1;
      CountIs(hits[..n], k);
      DirOfIs(hits[n].path, k);
      OneMoreIndex(hits, k);
    }
  }

  lemma OneMoreIndex(hits: seq<Hit>, k: Text)
    requires hits != []
    ensures var n := |hits| - 1;
            && IndicesIn(hits, k) == IndicesIn(hits[..n], k) + (if hits[n].path == k then {n} else {})
            && IndicesUnder(hits, k) == IndicesUnder(hits[..n], k) + (if IsDirOf(hits[n].path, k) then {n} else {})
            && n !in IndicesIn(hits[..n], k) && n !in IndicesUnder(hits[..n], k)
  {
    hide IsDirOf;
  }

  /** The counts are these. */
  lemma CountsAre(hits: seq<Hit>)
    ensures CountHits(hits, FileCounts(hits), DirCounts(hits))
  {
    hide CountOf, CountUnder, DirOf, IndicesIn, IndicesUnder;
    forall k ensures CountOf(hits, k) == |IndicesIn(hits, k)| && CountUnder(hits, k) == |IndicesUnder(hits, k)| {
      CountIs(hits, k);
    }
    forall k ensures k in FileCounts(hits) <==> CountOf(hits, k) > 0
             ensures k in DirCounts(hits) <==> CountUnder(hits, k) > 0 {
      CountedAreThere(hits, k);
    }
  }

  /** Over all the hits there are, with what the summary's maps count. */
  ghost predicate IsSummedUp(all: seq<Hit>, resp: Response) {
    resp.total <= |all| && var counted := all[..resp.total];
    CountHits(counted, FileCounts(counted), DirCounts(counted))
  }

  /** search_source on a literal pattern: the true total up to the ceiling, the first rows under the limit,
      every file with its count, and the highest of the per-file and per-directory counts, which before the cut
      each add up to the total. */
  method HandleSearchSource(tables: seq<seq<Row>>, pattern: Text, requestedLimit: int)
    returns (answer: Option<Response>)
    ensures answer.None? <==> pattern == []
    ensures answer.Some? ==>
              IsAnswer(AllHits(tables, pattern),
                       if requestedLimit < 1 then 1 else if requestedLimit > 2000 then 2000 else requestedLimit,
                       answer.value)
    ensures answer.Some? ==>
              exists all :: AreHitsOfRows(Flatten(tables), pattern, all) && IsSummedUp(all, answer.value)
                            && all == AllHits(tables, pattern)
  {
    if pattern == [] {
      return None;
    }
    var limit := Clamp(requestedLimit, 1, MAX_LIMIT);
    var scan := new Scan(pattern, limit);
    var scanFull := scan.Run(tables);
    hide IsAnswer, IsSummedUp, AreHitsOfRows, Accounts, AllHits, ListsEach, FilesMatch, TopCounts.IsTop;
    AccountsOf(scan.counted, limit, scan.matches, scan.total, scan.byFile, scan.byDir, scan.fileOrder);
    var files := ListFiles(scan.fileOrder, scan.byFile);
    var byFile := TopCounts.TopCounts(scan.byFile, MAX_BY_FILE);
    var byDir := TopCounts.TopCounts(scan.byDir, MAX_BY_FILE);
    var resp := Response(files, scan.matches, scan.total, |scan.matches|, |scan.fileOrder|, byFile, byDir,
                         |scan.matches| < scan.total, scanFull);
    AccountsAnswer(AllHits(tables, pattern), limit, scan.byFile, scan.byDir, scan.fileOrder, resp);
    AllHitsAre(tables, pattern);
    SummedUp(AllHits(tables, pattern), limit, resp);
    answer := Some(resp);
  }

  lemma SummedUp(all: seq<Hit>, limit: nat, resp: Response)
    requires IsAnswer(all, limit, resp)
    ensures IsSummedUp(all, resp)
  {
    hide Summarises, CountHits;
    CountsAre(all[..resp.total]);
  }
}
