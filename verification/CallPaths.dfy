/** Call-path enumeration: the backtracking search behind list_call_paths and the result cap laid over it. */
module CallPaths {
  import opened Wrappers

  type Node = int
  type Path = seq<Node>
  type Graph = map<Node, seq<Node>>

  const DEFAULT_DEPTH := 6
  const MAX_DEPTH := 16
  const RESULT_LIMIT := 50

  function Succ(adj: Graph, n: Node): seq<Node> {
    if n in adj then adj[n] else []
  }

  ghost predicate NoDup<T>(s: seq<T>) {
    |s| == 0 || (s[|s| - 1] !in s[..|s| - 1] && NoDup(s[..|s| - 1]))
  }

  ghost predicate Pairwise<T>(s: seq<T>) {
    forall i, j :: 0 <= i < j < |s| ==> s[i] != s[j]
  }

  lemma {:induction false} NoDupIsPairwise<T>(s: seq<T>)
    ensures NoDup(s) <==> Pairwise(s)
  {
    if |s| > 0 {
      var t := s[..|s| - 1];
      NoDupIsPairwise(t);
      if Pairwise(s) {
        assert forall k :: 0 <= k < |t| ==> t[k] == s[k];
      }
      if NoDup(s) {
        forall i, j | 0 <= i < j < |s| ensures s[i] != s[j] {
          assert s[i] == t[i];
          if j < |t| {
            assert s[j] == t[j];
          }
        }
      }
    }
  }

  ghost function Elements<T>(s: seq<T>): set<T> {
    if |s| == 0 then {} else Elements(s[..|s| - 1]) + {s[|s| - 1]}
  }

  lemma {:induction false} ElementsOf<T>(s: seq<T>, x: T)
    ensures x in Elements(s) <==> x in s
  {
    if |s| > 0 {
      var t := s[..|s| - 1];
      ElementsOf(t, x);
      assert s == t + [s[|s| - 1]];
    }
  }

  /** Every adjacency list is free of duplicates. */
  ghost predicate Deduplicated(adj: Graph) {
    forall n :: n in adj ==> NoDup(adj[n])
  }

  ghost predicate Chain(adj: Graph, p: Path) {
    forall k :: 0 < k < |p| ==> EdgeInto(adj, p, k)
  }

  ghost predicate EdgeInto(adj: Graph, p: Path, k: nat)
    requires 0 < k < |p|
  {
    p[k] in Succ(adj, p[k - 1])
  }

  /** The reference definition: a simple path along edges from start to end of at most maxDepth edges. */
  ghost predicate IsCallPath(adj: Graph, p: Path, start: Node, end: Node, maxDepth: int) {
    && |p| > 0 && p[0] == start && p[|p| - 1] == end
    && NoDup(p) && Chain(adj, p) && |p| - 1 <= maxDepth
  }

  /** What the search keeps on its stack: a simple path that has not reached the end. */
  ghost predicate IsStack(adj: Graph, stack: Path, end: Node) {
    |stack| > 0 && NoDup(stack) && Chain(adj, stack) && end !in stack
  }

  ghost predicate Completes(adj: Graph, p: Path, stack: Path, end: Node, maxDepth: int) {
    && |stack| > 0 && stack <= p && |stack| < |p|
    && IsCallPath(adj, p, stack[0], end, maxDepth)
  }

  ghost predicate ListedBefore(s: seq<Node>, x: Node, y: Node) {
    exists i, j :: 0 <= i < j < |s| && s[i] == x && s[j] == y
  }

  // ----- the full enumeration -----

  /** Every completion of the stack, in the order an uncapped search meets them. */
  function PathsFrom(adj: Graph, stack: Path, end: Node, maxDepth: int): seq<Path>
    requires |stack| > 0
    decreases maxDepth + 1 - |stack|, 1, 0
  {
    if |stack| - 1 >= maxDepth then [] else ExtendFrom(adj, stack, end, maxDepth, 0)
  }

  /** The completions through the successors of the stack's top from position i on. */
  function ExtendFrom(adj: Graph, stack: Path, end: Node, maxDepth: int, i: nat): seq<Path>
    requires 0 < |stack| <= maxDepth
    requires i <= |Succ(adj, stack[|stack| - 1])|
    decreases maxDepth + 1 - |stack|, 0, |Succ(adj, stack[|stack| - 1])| - i
  {
    if i == |Succ(adj, stack[|stack| - 1])| then []
    else Through(adj, stack, end, maxDepth, i) + ExtendFrom(adj, stack, end, maxDepth, i + 1)
  }

  function Through(adj: Graph, stack: Path, end: Node, maxDepth: int, i: nat): seq<Path>
    requires 0 < |stack| <= maxDepth
    requires i < |Succ(adj, stack[|stack| - 1])|
    decreases maxDepth + 1 - |stack|, 0, |Succ(adj, stack[|stack| - 1])| - i, 0
  {
    var next := Succ(adj, stack[|stack| - 1])[i];
    if next in stack then []
    else if next == end then [stack + [next]]
    else PathsFrom(adj, stack + [next], end, maxDepth)
  }

  function Enumeration(adj: Graph, start: Node, end: Node, maxDepth: int): seq<Path> {
    if start == end then [[start]] else PathsFrom(adj, [start], end, maxDepth)
  }

  // ----- the enumeration is exactly the set of call paths -----

  lemma PushKeepsStack(adj: Graph, stack: Path, hop: Node)
    requires |stack| > 0 && NoDup(stack) && Chain(adj, stack)
    requires hop in Succ(adj, stack[|stack| - 1]) && hop !in stack
    ensures NoDup(stack + [hop]) && Chain(adj, stack + [hop])
  {
    var longer := stack + [hop];
    assert longer[..|stack|] == stack;
    forall k | 0 < k < |longer| ensures EdgeInto(adj, longer, k) {
      if k < |stack| {
        assert EdgeInto(adj, stack, k);
      }
    }
  }

  lemma {:induction false} ExtendSound(adj: Graph, stack: Path, end: Node, maxDepth: int, i: nat, p: Path)
    requires IsStack(adj, stack, end) && |stack| <= maxDepth
    requires i <= |Succ(adj, stack[|stack| - 1])|
    requires p in ExtendFrom(adj, stack, end, maxDepth, i)
    ensures Completes(adj, p, stack, end, maxDepth)
    ensures p[|stack|] in Succ(adj, stack[|stack| - 1])[i..]
    decreases maxDepth + 1 - |stack|, |Succ(adj, stack[|stack| - 1])| - i
  {
    var next := Succ(adj, stack[|stack| - 1])[i];
    if p in Through(adj, stack, end, maxDepth, i) {
      ThroughSound(adj, stack, end, maxDepth, i, p);
    } else {
      ExtendSound(adj, stack, end, maxDepth, i + 1, p);
      assert Succ(adj, stack[|stack| - 1])[i + 1..] <= Succ(adj, stack[|stack| - 1])[i + 1..];
    }
  }

  lemma {:induction false} ThroughSound(adj: Graph, stack: Path, end: Node, maxDepth: int, i: nat, p: Path)
    requires IsStack(adj, stack, end) && |stack| <= maxDepth
    requires i < |Succ(adj, stack[|stack| - 1])|
    requires p in Through(adj, stack, end, maxDepth, i)
    ensures Completes(adj, p, stack, end, maxDepth)
    ensures p[|stack|] == Succ(adj, stack[|stack| - 1])[i]
    ensures p[|stack|] != end ==> |p| > |stack| + 1
    decreases maxDepth + 1 - |stack|, |Succ(adj, stack[|stack| - 1])| - i, 0
  {
    var next := Succ(adj, stack[|stack| - 1])[i];
    PushKeepsStack(adj, stack, next);
    var child := stack + [next];
    if next != end {
      ExtendSound(adj, child, end, maxDepth, 0, p);
      assert p[|stack|] == child[|stack|];
      assert stack <= child <= p;
    }
  }

  lemma {:induction false} ExtendComplete(adj: Graph, stack: Path, end: Node, maxDepth: int, i: nat, j: nat, p: Path)
    requires IsStack(adj, stack, end) && |stack| <= maxDepth
    requires i <= j < |Succ(adj, stack[|stack| - 1])|
    requires Completes(adj, p, stack, end, maxDepth)
    requires p[|stack|] == Succ(adj, stack[|stack| - 1])[j]
    ensures p in ExtendFrom(adj, stack, end, maxDepth, i)
    decreases maxDepth + 1 - |stack|, |Succ(adj, stack[|stack| - 1])| - i
  {
    if i < j {
      ExtendComplete(adj, stack, end, maxDepth, i + 1, j, p);
    } else {
      var next := p[|stack|];
      var child := stack + [next];
      assert child <= p;
      NoDupIsPairwise(p);
      assert next !in stack by {
        assert forall k :: 0 <= k < |stack| ==> stack[k] == p[k];
      }
      if next == end {
        assert |p| == |child| by {
          assert p[|stack|] == p[|p| - 1];
        }
        assert p == child;
      } else {
        PushKeepsStack(adj, stack, next);
        assert EdgeInto(adj, p, |child|);
        assert p[|child|] in Succ(adj, p[|child| - 1]);
        var k :| 0 <= k < |Succ(adj, next)| && Succ(adj, next)[k] == p[|child|];
        ExtendComplete(adj, child, end, maxDepth, 0, k, p);
      }
      assert p in Through(adj, stack, end, maxDepth, i);
    }
  }

  /** The uncapped enumeration holds exactly the simple start-to-end paths within the depth bound. */
  lemma EnumerationIsExact(adj: Graph, start: Node, end: Node, maxDepth: nat, p: Path)
    ensures p in Enumeration(adj, start, end, maxDepth) <==> IsCallPath(adj, p, start, end, maxDepth)
  {
    if start == end {
      if IsCallPath(adj, p, start, end, maxDepth) {
        assert p == [start];
      }
      assert NoDup([start]) && Chain(adj, [start]);
    } else {
      var stack := [start];
      assert IsStack(adj, stack, end);
      if p in Enumeration(adj, start, end, maxDepth) {
        ExtendSound(adj, stack, end, maxDepth, 0, p);
      }
      if IsCallPath(adj, p, start, end, maxDepth) {
        assert |p| > 1;
        assert EdgeInto(adj, p, 1);
        var j :| 0 <= j < |Succ(adj, start)| && Succ(adj, start)[j] == p[1];
        ExtendComplete(adj, stack, end, maxDepth, 0, j, p);
      }
    }
  }

  // ----- the enumeration is ordered -----

  /** p and q part ways at some node, where p takes a successor listed earlier. */
  ghost predicate Before(adj: Graph, p: Path, q: Path) {
    exists k :: 0 < k < |p| && k < |q| && PartsAt(adj, p, q, k)
  }

  ghost predicate PartsAt(adj: Graph, p: Path, q: Path, k: nat)
    requires 0 < k < |p| && k < |q|
  {
    p[..k] == q[..k] && ListedBefore(Succ(adj, p[k - 1]), p[k], q[k])
  }

  ghost predicate Ordered(adj: Graph, ps: seq<Path>) {
    forall a, b :: 0 <= a < b < |ps| ==> Before(adj, ps[a], ps[b])
  }

  lemma BeforeIsStrict(adj: Graph, p: Path, q: Path)
    requires Deduplicated(adj) && Before(adj, p, q)
    ensures p != q
  {
    forall n | n in adj ensures Pairwise(adj[n]) {
      NoDupIsPairwise(adj[n]);
    }
    var k :| 0 < k < |p| && k < |q| && PartsAt(adj, p, q, k);
  }

  lemma ThroughBeforeExtend(adj: Graph, stack: Path, end: Node, maxDepth: int, i: nat, p: Path, q: Path)
    requires IsStack(adj, stack, end) && |stack| <= maxDepth
    requires i < |Succ(adj, stack[|stack| - 1])|
    requires p in Through(adj, stack, end, maxDepth, i)
    requires q in ExtendFrom(adj, stack, end, maxDepth, i + 1)
    ensures Before(adj, p, q)
  {
    ThroughSound(adj, stack, end, maxDepth, i, p);
    ExtendSound(adj, stack, end, maxDepth, i + 1, q);
    var s := Succ(adj, stack[|stack| - 1]);
    assert p[..|stack|] == stack == q[..|stack|];
    assert p[|stack| - 1] == stack[|stack| - 1];
    var j :| 0 <= j < |s[i + 1..]| && s[i + 1..][j] == q[|stack|];
    assert s[i + 1 + j] == q[|stack|];
    assert PartsAt(adj, p, q, |stack|);
  }

  lemma {:induction false} ExtendOrdered(adj: Graph, stack: Path, end: Node, maxDepth: int, i: nat)
    requires IsStack(adj, stack, end) && |stack| <= maxDepth
    requires i <= |Succ(adj, stack[|stack| - 1])|
    ensures Ordered(adj, ExtendFrom(adj, stack, end, maxDepth, i))
    decreases maxDepth + 1 - |stack|, |Succ(adj, stack[|stack| - 1])| - i
  {
    var s := Succ(adj, stack[|stack| - 1]);
    if i < |s| {
      var c := Through(adj, stack, end, maxDepth, i);
      var rest := ExtendFrom(adj, stack, end, maxDepth, i + 1);
      ExtendOrdered(adj, stack, end, maxDepth, i + 1);
      if s[i] in stack || s[i] == end {
        assert |c| <= 1;
      } else if |stack| == maxDepth {
        assert c == PathsFrom(adj, stack + [s[i]], end, maxDepth) == [];
      } else {
        PushKeepsStack(adj, stack, s[i]);
        ExtendOrdered(adj, stack + [s[i]], end, maxDepth, 0);
        assert c == PathsFrom(adj, stack + [s[i]], end, maxDepth) == ExtendFrom(adj, stack + [s[i]], end, maxDepth, 0);
      }
      assert Ordered(adj, c);
      forall a, b | 0 <= a < b < |c + rest|
        ensures Before(adj, (c + rest)[a], (c + rest)[b])
      {
        if a < |c| <= b {
          ThroughBeforeExtend(adj, stack, end, maxDepth, i, c[a], rest[b - |c|]);
        } else if |c| <= a {
          assert Before(adj, rest[a - |c|], rest[b - |c|]);
        }
      }
    }
  }

  /** Paths come out in lexicographic order of adjacency position, so each appears once. */
  lemma EnumerationIsOrdered(adj: Graph, start: Node, end: Node, maxDepth: int)
    requires Deduplicated(adj)
    ensures Ordered(adj, Enumeration(adj, start, end, maxDepth))
    ensures NoDup(Enumeration(adj, start, end, maxDepth))
  {
    var f := Enumeration(adj, start, end, maxDepth);
    if start != end && 1 <= maxDepth {
      ExtendOrdered(adj, [start], end, maxDepth, 0);
    }
    forall a, b | 0 <= a < b < |f| ensures f[a] != f[b] {
      BeforeIsStrict(adj, f[a], f[b]);
    }
    NoDupIsPairwise(f);
  }

  // ----- the cap -----

  /** The frame whose stack was p[..lo] still has the end in its list, after the successor p took. */
  ghost predicate EndComesLater(adj: Graph, p: Path, end: Node, lo: nat)
    requires 0 < lo < |p|
  {
    ListedBefore(Succ(adj, p[lo - 1]), p[lo], end)
  }

  /** The paths appended after the cap was reached at p: at most one from each frame that encloses
      the one that reached it, innermost first, down to the frame whose stack was p[..lo]. */
  ghost function Late(adj: Graph, p: Path, end: Node, lo: nat): seq<Path>
    requires lo > 0
    decreases |p| - lo
  {
    if lo + 1 >= |p| then []
    else Late(adj, p, end, lo + 1) + if EndComesLater(adj, p, end, lo) then [p[..lo] + [end]] else []
  }

  /** What a search with room for that many more results appends, given its full enumeration. */
  ghost function Capped(adj: Graph, full: seq<Path>, room: nat, end: Node, lo: nat): seq<Path>
    requires room > 0 && lo > 0
  {
    if |full| < room then full else full[..room] + Late(adj, full[room - 1], end, lo)
  }

  lemma {:induction false} LateIsBounded(adj: Graph, p: Path, end: Node, lo: nat)
    requires 0 < lo < |p|
    ensures |Late(adj, p, end, lo)| <= |p| - 1 - lo
    decreases |p| - lo
  {
    if lo + 1 < |p| {
      LateIsBounded(adj, p, end, lo + 1);
    }
  }

  lemma {:induction false} LateIsEmpty(adj: Graph, p: Path, end: Node, lo: nat)
    requires lo > 0
    ensures Late(adj, p, end, lo) == [] <==> forall k :: lo <= k < |p| - 1 ==> !EndComesLater(adj, p, end, k)
    decreases |p| - lo
  {
    if lo + 1 < |p| {
      LateIsEmpty(adj, p, end, lo + 1);
      assert Late(adj, p, end, lo) == [] <==> Late(adj, p, end, lo + 1) == [] && !EndComesLater(adj, p, end, lo);
    }
  }

  // ----- the search -----

  /** Where a frame with stack st stands before looking at successor i: the successors passed so far
      contribute `full`, and if that already reaches the cap it was reached in a frame above this one,
      and the end has not been met since. */
  ghost predicate Passed(adj: Graph, st: Path, end: Node, maxDepth: int, i: nat, full: seq<Path>, room: nat) {
    && IsStack(adj, st, end) && |st| <= maxDepth && room > 0
    && i <= |Succ(adj, st[|st| - 1])|
    && PathsFrom(adj, st, end, maxDepth) == full + ExtendFrom(adj, st, end, maxDepth, i)
    && (|full| >= room ==> CapPending(adj, st, end, i, full[room - 1]))
  }

  ghost predicate CapPending(adj: Graph, st: Path, end: Node, i: nat, p: Path)
    requires |st| > 0 && i <= |Succ(adj, st[|st| - 1])|
  {
    && st <= p && |p| > |st| + 1
    && p[|st|] in Succ(adj, st[|st| - 1])[..i]
    && !ListedBefore(Succ(adj, st[|st| - 1])[..i], p[|st|], end)
  }

  lemma ListedBeforeLast(s: seq<Node>, i: nat, x: Node, y: Node)
    requires i < |s| && NoDup(s)
    ensures s[i] == y && x in s[..i] ==> ListedBefore(s, x, y)
    ensures s[i] != y && !ListedBefore(s[..i], x, y) ==> !ListedBefore(s[..i + 1], x, y)
    ensures s[i] == x ==> !ListedBefore(s[..i + 1], x, y)
  {
    NoDupIsPairwise(s);
    var t := s[..i + 1];
    if s[i] == y && x in s[..i] {
      var a :| 0 <= a < i && s[..i][a] == x;
      assert s[a] == x && s[i] == y;
    }
    if s[i] != y && ListedBefore(t, x, y) {
      var a, b :| 0 <= a < b < |t| && t[a] == x && t[b] == y;
      assert b < i && s[..i][a] == x && s[..i][b] == y;
    }
  }

  /** The output of a search that starts with out0 and has room for that many more results. */
  ghost predicate Emitted(adj: Graph, out: seq<Path>, out0: seq<Path>, full: seq<Path>, room: int, end: Node, lo: nat)
    requires lo > 0
  {
    out == out0 + if room <= 0 then [] else Capped(adj, full, room, end, lo)
  }

  /** The cap is reached, or was pending, when the end itself is met: the frame appends and stops. */
  lemma CapMetAtEnd(adj: Graph, st: Path, end: Node, maxDepth: int, i: nat, full: seq<Path>,
                    out0: seq<Path>, out: seq<Path>, room: nat)
    requires Deduplicated(adj)
    requires Passed(adj, st, end, maxDepth, i, full, room)
    requires i < |Succ(adj, st[|st| - 1])| && Succ(adj, st[|st| - 1])[i] == end
    requires Emitted(adj, out, out0, full, room, end, |st| + 1)
    requires |out| + 1 >= |out0| + room
    ensures Emitted(adj, out + [st + [end]], out0, PathsFrom(adj, st, end, maxDepth), room, end, |st|)
  {
    var all := PathsFrom(adj, st, end, maxDepth);
    assert Through(adj, st, end, maxDepth, i) == [st + [end]];
    if |full| < room {
      assert all[..room] == full + [st + [end]];
      assert all[room - 1] == st + [end];
      assert Late(adj, st + [end], end, |st|) == [];
    } else {
      var p := full[room - 1];
      assert all[..room] == full[..room] && all[room - 1] == p;
      ListedBeforeLast(Succ(adj, st[|st| - 1]), i, p[|st|], end);
      assert p[..|st|] == st && p[|st| - 1] == st[|st| - 1];
      assert EndComesLater(adj, p, end, |st|);
      var deeper := Late(adj, p, end, |st| + 1);
      assert Late(adj, p, end, |st|) == deeper + [st + [end]];
      assert out0 + (full[..room] + deeper) + [st + [end]] == out0 + (full[..room] + (deeper + [st + [end]]));
    }
  }

  /** A successor already on the stack contributes nothing. */
  lemma PassVisited(adj: Graph, st: Path, end: Node, maxDepth: int, i: nat, full: seq<Path>, room: nat)
    requires Deduplicated(adj)
    requires Passed(adj, st, end, maxDepth, i, full, room)
    requires i < |Succ(adj, st[|st| - 1])| && Succ(adj, st[|st| - 1])[i] in st
    ensures Passed(adj, st, end, maxDepth, i + 1, full, room)
  {
    var s := Succ(adj, st[|st| - 1]);
    assert ExtendFrom(adj, st, end, maxDepth, i) == ExtendFrom(adj, st, end, maxDepth, i + 1);
    if |full| >= room {
      ListedBeforeLast(s, i, full[room - 1][|st|], end);
      assert s[..i] <= s[..i + 1];
    }
  }

  /** The end met with room to spare contributes one path. */
  lemma PassEnd(adj: Graph, st: Path, end: Node, maxDepth: int, i: nat, full: seq<Path>,
                out0: seq<Path>, out: seq<Path>, room: nat)
    requires Passed(adj, st, end, maxDepth, i, full, room)
    requires i < |Succ(adj, st[|st| - 1])| && Succ(adj, st[|st| - 1])[i] == end
    requires Emitted(adj, out, out0, full, room, end, |st| + 1)
    requires |out| + 1 < |out0| + room
    ensures Passed(adj, st, end, maxDepth, i + 1, full + [st + [end]], room)
    ensures Emitted(adj, out + [st + [end]], out0, full + [st + [end]], room, end, |st| + 1)
  {
    var tail := ExtendFrom(adj, st, end, maxDepth, i + 1);
    assert Through(adj, st, end, maxDepth, i) == [st + [end]];
    assert full + ([st + [end]] + tail) == full + [st + [end]] + tail;
    assert out0 + full + [st + [end]] == out0 + (full + [st + [end]]);
  }

  /** A frame opened on successor i contributes its own capped enumeration. */
  lemma PassChild(adj: Graph, st: Path, end: Node, maxDepth: int, i: nat, full: seq<Path>, room: nat)
    requires Deduplicated(adj)
    requires Passed(adj, st, end, maxDepth, i, full, room)
    requires i < |Succ(adj, st[|st| - 1])|
    requires Succ(adj, st[|st| - 1])[i] !in st && Succ(adj, st[|st| - 1])[i] != end
    ensures Passed(adj, st, end, maxDepth, i + 1, full + Through(adj, st, end, maxDepth, i), room)
    ensures Through(adj, st, end, maxDepth, i) == PathsFrom(adj, st + [Succ(adj, st[|st| - 1])[i]], end, maxDepth)
  {
    var s := Succ(adj, st[|st| - 1]);
    var c := Through(adj, st, end, maxDepth, i);
    var tail := ExtendFrom(adj, st, end, maxDepth, i + 1);
    assert full + (c + tail) == full + c + tail;
    if |full| >= room {
      ListedBeforeLast(s, i, full[room - 1][|st|], end);
      assert s[..i] <= s[..i + 1];
    } else if |full + c| >= room {
      var p := c[room - |full| - 1];
      assert (full + c)[room - 1] == p && p in c;
      ThroughSound(adj, st, end, maxDepth, i, p);
      ListedBeforeLast(s, i, p[|st|], end);
      assert s[..i + 1][i] == p[|st|];
    }
  }

  lemma EmitMore(adj: Graph, out0: seq<Path>, out1: seq<Path>, out2: seq<Path>, full: seq<Path>, c: seq<Path>,
                 limit: int, end: Node, lo: nat)
    requires lo > 0 && |out0| < limit
    requires Emitted(adj, out1, out0, full, limit - |out0|, end, lo)
    requires Emitted(adj, out2, out1, c, limit - |out1|, end, lo)
    ensures Emitted(adj, out2, out0, full + c, limit - |out0|, end, lo)
  {
    hide Late;
    var room := limit - |out0|;
    if |full| >= room {
      assert (full + c)[..room] == full[..room];
    } else {
      assert out2 == out0 + full + Capped(adj, c, room - |full|, end, lo);
      assert out2 == out0 + (full + Capped(adj, c, room - |full|, end, lo));
    }
  }

  lemma AllPassed(adj: Graph, st: Path, end: Node, maxDepth: int, full: seq<Path>,
                  out0: seq<Path>, out: seq<Path>, room: nat)
    requires IsStack(adj, st, end)
    requires Passed(adj, st, end, maxDepth, |Succ(adj, st[|st| - 1])|, full, room)
    requires Emitted(adj, out, out0, full, room, end, |st| + 1)
    ensures Emitted(adj, out, out0, PathsFrom(adj, st, end, maxDepth), room, end, |st|)
  {
    var s := Succ(adj, st[|st| - 1]);
    assert full == PathsFrom(adj, st, end, maxDepth);
    if |full| >= room {
      assert s[..|s|] == s;
      assert !EndComesLater(adj, full[room - 1], end, |st|);
    }
  }

  /** Pushing a successor keeps the stack and the visited set in step, and popping it undoes both. */
  lemma PushAndPop(adj: Graph, st: Path, end: Node, hop: Node)
    requires IsStack(adj, st, end)
    requires hop in Succ(adj, st[|st| - 1]) && hop !in st && hop != end
    ensures IsStack(adj, st + [hop], end) && (st + [hop])[..|st|] == st
    ensures Elements(st + [hop]) == Elements(st) + {hop}
    ensures Elements(st) + {hop} - {hop} == Elements(st)
  {
    PushKeepsStack(adj, st, hop);
    ElementsOf(st, hop);
    assert (st + [hop])[..|st|] == st;
  }

  /** A frame with stack st, entered when the output was out0, has passed its first i successors. */
  ghost predicate Midway(adj: Graph, st: Path, end: Node, maxDepth: int, limit: int, i: nat,
                         out0: seq<Path>, out: seq<Path>)
    requires |st| > 0
  {
    |out0| < limit && exists full :: Contributed(adj, st, end, maxDepth, limit, i, out0, out, full)
  }

  ghost predicate Contributed(adj: Graph, st: Path, end: Node, maxDepth: int, limit: int, i: nat,
                              out0: seq<Path>, out: seq<Path>, full: seq<Path>)
    requires |st| > 0 && |out0| < limit
  {
    && Passed(adj, st, end, maxDepth, i, full, limit - |out0|)
    && Emitted(adj, out, out0, full, limit - |out0|, end, |st| + 1)
  }

  /** That frame is done: the output has grown by the capped enumeration of the stack's completions. */
  ghost predicate Done(adj: Graph, st: Path, end: Node, maxDepth: int, limit: int, out0: seq<Path>, out: seq<Path>)
    requires |st| > 0
  {
    Emitted(adj, out, out0, PathsFrom(adj, st, end, maxDepth), limit - |out0|, end, |st|)
  }

  lemma Start(adj: Graph, st: Path, end: Node, maxDepth: int, limit: int, out: seq<Path>)
    requires IsStack(adj, st, end) && |st| <= maxDepth && |out| < limit
    ensures Midway(adj, st, end, maxDepth, limit, 0, out, out)
  {
    assert Contributed(adj, st, end, maxDepth, limit, 0, out, out, []);
  }

  lemma StepVisited(adj: Graph, st: Path, end: Node, maxDepth: int, limit: int, i: nat, out0: seq<Path>, out: seq<Path>)
    requires Deduplicated(adj) && |st| > 0 && Midway(adj, st, end, maxDepth, limit, i, out0, out)
    requires i < |Succ(adj, st[|st| - 1])| && Succ(adj, st[|st| - 1])[i] in st
    ensures Midway(adj, st, end, maxDepth, limit, i + 1, out0, out)
  {
    hide Passed, Emitted;
    var room := limit - |out0|;
    var full :| Contributed(adj, st, end, maxDepth, limit, i, out0, out, full);
    PassVisited(adj, st, end, maxDepth, i, full, room);
    assert Contributed(adj, st, end, maxDepth, limit, i + 1, out0, out, full);
  }

  lemma StepEnd(adj: Graph, st: Path, end: Node, maxDepth: int, limit: int, i: nat, out0: seq<Path>, out: seq<Path>)
    requires Deduplicated(adj) && |st| > 0 && Midway(adj, st, end, maxDepth, limit, i, out0, out)
    requires i < |Succ(adj, st[|st| - 1])| && Succ(adj, st[|st| - 1])[i] == end
    ensures |out| + 1 >= limit ==> Done(adj, st, end, maxDepth, limit, out0, out + [st + [end]])
    ensures |out| + 1 < limit ==> Midway(adj, st, end, maxDepth, limit, i + 1, out0, out + [st + [end]])
  {
    hide Passed, Emitted;
    var room := limit - |out0|;
    var full :| Contributed(adj, st, end, maxDepth, limit, i, out0, out, full);
    if |out| + 1 >= limit {
      CapMetAtEnd(adj, st, end, maxDepth, i, full, out0, out, room);
    } else {
      PassEnd(adj, st, end, maxDepth, i, full, out0, out, room);
      assert Contributed(adj, st, end, maxDepth, limit, i + 1, out0, out + [st + [end]], full + [st + [end]]);
    }
  }

  lemma StepChild(adj: Graph, st: Path, end: Node, maxDepth: int, limit: int, i: nat, out0: seq<Path>,
                  out1: seq<Path>, out: seq<Path>)
    requires Deduplicated(adj) && |st| > 0 && Midway(adj, st, end, maxDepth, limit, i, out0, out1)
    requires i < |Succ(adj, st[|st| - 1])|
    requires Succ(adj, st[|st| - 1])[i] !in st && Succ(adj, st[|st| - 1])[i] != end
    requires Done(adj, st + [Succ(adj, st[|st| - 1])[i]], end, maxDepth, limit, out1, out)
    ensures Midway(adj, st, end, maxDepth, limit, i + 1, out0, out)
  {
    hide Passed, Emitted;
    var room := limit - |out0|;
    var full :| Contributed(adj, st, end, maxDepth, limit, i, out0, out1, full);
    var c := PathsFrom(adj, st + [Succ(adj, st[|st| - 1])[i]], end, maxDepth);
    PassChild(adj, st, end, maxDepth, i, full, room);
    EmitMore(adj, out0, out1, out, full, c, limit, end, |st| + 1);
    assert Contributed(adj, st, end, maxDepth, limit, i + 1, out0, out, full + c);
  }

  lemma Finish(adj: Graph, st: Path, end: Node, maxDepth: int, limit: int, out0: seq<Path>, out: seq<Path>)
    requires IsStack(adj, st, end)
    requires Midway(adj, st, end, maxDepth, limit, |Succ(adj, st[|st| - 1])|, out0, out)
    ensures Done(adj, st, end, maxDepth, limit, out0, out)
  {
    hide Passed, Emitted;
    var room, n := limit - |out0|, |Succ(adj, st[|st| - 1])|;
    var full :| Contributed(adj, st, end, maxDepth, limit, n, out0, out, full);
    AllPassed(adj, st, end, maxDepth, full, out0, out, room);
  }

  lemma NothingToDo(adj: Graph, st: Path, end: Node, maxDepth: int, limit: int, out: seq<Path>)
    requires |st| > 0 && (|out| >= limit || |st| - 1 >= maxDepth)
    ensures Done(adj, st, end, maxDepth, limit, out, out)
  {
  }

  /** The mutable state the search closure shares between its frames. */
  class PathSearch {
    const adj: Graph
    const end: Node
    const maxDepth: int
    const limit: int
    var stack: Path
    var visited: set<Node>
    var out: seq<Path>

    ghost predicate Valid()
      reads this
    {
      && Deduplicated(adj)
      && IsStack(adj, stack, end)
      && visited == Elements(stack)
    }

    constructor (adj: Graph, start: Node, end: Node, maxDepth: int, limit: int)
      requires Deduplicated(adj) && start != end
      ensures Valid() && stack == [start] && out == []
      ensures this.adj == adj && this.end == end && this.maxDepth == maxDepth && this.limit == limit
    {
      this.adj, this.end, this.maxDepth, this.limit := adj, end, maxDepth, limit;
      stack, visited, out := [start], {start}, [];
    }

    /** One frame of the search: stack and visited come back as they were. */
    method Dfs()
      requires Valid()
      modifies this
      ensures Valid() && stack == old(stack) && visited == old(visited)
      ensures Done(adj, stack, end, maxDepth, limit, old(out), out)
      decreases maxDepth + 1 - |stack|, 1
    {
      hide Midway, Done, NoDup, Chain, Deduplicated, Elements;
      if |out| >= limit || |stack| - 1 >= maxDepth {
        NothingToDo(adj, stack, end, maxDepth, limit, out);
        return;
      }
      ghost var st, out0 := stack, out;
      var next := Succ(adj, stack[|stack| - 1]);
      Start(adj, st, end, maxDepth, limit, out);
      for i := 0 to |next|
        invariant Valid() && stack == st && visited == old(visited)
        invariant Midway(adj, st, end, maxDepth, limit, i, out0, out)
      {
        var hop := next[i];
        ghost var out1 := out;
        ElementsOf(st, hop);
        if hop in visited {
          StepVisited(adj, st, end, maxDepth, limit, i, out0, out);
        } else if hop == end {
          StepEnd(adj, st, end, maxDepth, limit, i, out0, out);
          Emit(hop);
          if |out| >= limit {
            return;
          }
        } else {
          Descend(hop);
          StepChild(adj, st, end, maxDepth, limit, i, out0, out1, out);
        }
      }
      Finish(adj, st, end, maxDepth, limit, out0, out);
    }

    /** The successor is the end: push it, copy the stack out, pop it. */
    method Emit(hop: Node)
      modifies this`stack, this`out
      ensures stack == old(stack) && out == old(out) + [stack + [hop]]
    {
      stack := stack + [hop];
      out := out + [stack];
      stack := stack[..|stack| - 1];
    }

    /** The successor is some other node off the stack: push it, search on from it, pop it. */
    method Descend(hop: Node)
      requires Valid() && |stack| <= maxDepth
      requires hop in Succ(adj, stack[|stack| - 1]) && hop !in stack && hop != end
      modifies this
      ensures Valid() && stack == old(stack) && visited == old(visited)
      ensures Done(adj, stack + [hop], end, maxDepth, limit, old(out), out)
      decreases maxDepth + 1 - |stack|, 0
    {
      hide Done, NoDup, Chain, Deduplicated, Elements;
      PushAndPop(adj, stack, end, hop);
      stack := stack + [hop];
      visited := visited + {hop};
      Dfs();
      visited := visited - {hop};
      stack := stack[..|stack| - 1];
    }
  }

  /** The whole search: its raw list is the full enumeration cut at the limit, followed by the paths
      the enclosing frames still append. */
  method EnumeratePaths(adj: Graph, start: Node, end: Node, maxDepth: int, limit: int) returns (out: seq<Path>)
    requires Deduplicated(adj)
    ensures limit >= 1 ==> out == Capped(adj, Enumeration(adj, start, end, maxDepth), limit, end, 1)
    ensures limit < 1 ==> out == if start == end then [[start]] else []
  {
    if start == end {
      out := [[start]];
      assert out[..1] == out;
      return;
    }
    var search := new PathSearch(adj, start, end, maxDepth, limit);
    search.Dfs();
    out := search.out;
  }

  /** Whatever the cap, the results up to it are the first ones of the full enumeration, and the raw
      list never runs more than depth - 1 past it. */
  lemma CapKeepsThePrefix(adj: Graph, start: Node, end: Node, maxDepth: nat, limit: nat)
    requires maxDepth >= 1 && limit >= 1
    ensures var full := Enumeration(adj, start, end, maxDepth);
            var raw := Capped(adj, full, limit, end, 1);
            First(raw, limit) == First(full, limit) && |raw| <= limit + maxDepth - 1
  {
    var full := Enumeration(adj, start, end, maxDepth);
    if |full| >= limit {
      var p := full[limit - 1];
      assert p in full;
      EnumerationIsExact(adj, start, end, maxDepth, p);
      if |p| > 1 {
        LateIsBounded(adj, p, end, 1);
      }
    }
  }

  /** The raw list stays within its limit exactly when the enumeration is shorter than the limit or no
      frame on the way to the path that reaches the limit has the end later in its list. */
  lemma CapHoldsExactlyWhen(adj: Graph, start: Node, end: Node, maxDepth: nat, limit: nat)
    requires limit >= 1
    ensures var full := Enumeration(adj, start, end, maxDepth);
            |Capped(adj, full, limit, end, 1)| <= limit
            <==> (|full| >= limit ==>
                    var p := full[limit - 1];
                    forall k :: 1 <= k < |p| - 1 ==> !EndComesLater(adj, p, end, k))
  {
    var full := Enumeration(adj, start, end, maxDepth);
    if |full| >= limit {
      LateIsEmpty(adj, full[limit - 1], end, 1);
    }
  }

  /** A diamond of three nodes already overruns a limit of one. */
  lemma CapIsOverrun()
    ensures var adj := map[0 := [1, 2], 1 := [2]];
            var full := Enumeration(adj, 0, 2, 2);
            full == [[0, 1, 2], [0, 2]] && Capped(adj, full, 1, 2, 1) == [[0, 1, 2], [0, 2]]
  {
    var adj: Graph := map[0 := [1, 2], 1 := [2]];
    assert Succ(adj, 0) == [1, 2] && Succ(adj, 1) == [2];
    assert [0] + [1] == [0, 1] && [0] + [2] == [0, 2] && [0, 1] + [2] == [0, 1, 2];
    assert PathsFrom(adj, [0, 1], 2, 2) == [[0, 1, 2]] by {
      assert Through(adj, [0, 1], 2, 2, 0) == [[0, 1, 2]];
      assert ExtendFrom(adj, [0, 1], 2, 2, 1) == [];
    }
    assert PathsFrom(adj, [0], 2, 2) == [[0, 1, 2], [0, 2]] by {
      assert Through(adj, [0], 2, 2, 0) == [[0, 1, 2]];
      assert Through(adj, [0], 2, 2, 1) == [[0, 2]];
      assert ExtendFrom(adj, [0], 2, 2, 2) == [];
      assert ExtendFrom(adj, [0], 2, 2, 1) == [[0, 2]];
    }
    var p := [0, 1, 2];
    var s := Succ(adj, p[0]);
    assert s[0] == p[1] && s[1] == 2;
    assert EndComesLater(adj, p, 2, 1);
    assert Late(adj, p, 2, 1) == Late(adj, p, 2, 2) + [p[..1] + [2]];
    assert p[..1] + [2] == [0, 2];
  }

  function ClampDepth(requested: int): (depth: nat)
    ensures 1 <= depth <= 16
    ensures depth == requested || (depth == 6 && !(1 <= requested <= 16))
  {
    if requested <= 0 || requested > MAX_DEPTH then DEFAULT_DEPTH else requested
  }

  /** list_call_paths asks for one path more than it returns. */
  method ListCallPaths(adj: Graph, fromId: Node, toId: Node, requestedDepth: int)
    returns (paths: seq<Path>, truncated: bool)
    requires Deduplicated(adj)
    ensures paths == First(Enumeration(adj, fromId, toId, ClampDepth(requestedDepth)), 50)
    ensures truncated <==> |Enumeration(adj, fromId, toId, ClampDepth(requestedDepth))| > 50
  {
    var maxDepth := ClampDepth(requestedDepth);
    var raw := EnumeratePaths(adj, fromId, toId, maxDepth, RESULT_LIMIT + 1);
    ghost var full := Enumeration(adj, fromId, toId, maxDepth);
    CapKeepsThePrefix(adj, fromId, toId, maxDepth, RESULT_LIMIT + 1);
    truncated := |raw| > RESULT_LIMIT;
    paths := if truncated then raw[..RESULT_LIMIT] else raw;
    if truncated {
      assert First(raw, RESULT_LIMIT + 1)[..RESULT_LIMIT] == raw[..RESULT_LIMIT];
      assert First(full, RESULT_LIMIT + 1)[..RESULT_LIMIT] == First(full, RESULT_LIMIT);
    }
  }
}
