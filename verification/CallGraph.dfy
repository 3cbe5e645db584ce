/** The adjacency lists list_call_paths searches, loaded from call-edge rows, and the tool end to end. */
module CallGraph {
  import opened Wrappers
  import opened CallPaths

  // ----- loading the adjacency lists -----

  type Row = (Node, Node)

  /** A node missing from the symbol table compares under the empty name. */
  function NameOf(names: map<Node, string>, n: Node): string {
    if n in names then names[n] else ""
  }

  /** The names of the ids ascend, the empty one standing for those that have none. */
  ghost predicate InNameOrder(names: map<Node, string>, ids: seq<Node>) {
    forall i, j :: 0 <= i < j < |ids| ==>
      Ascends(if ids[i] in names then names[ids[i]] else "", if ids[j] in names then names[ids[j]] else "")
  }

  lemma InOrderByName(names: map<Node, string>, ids: seq<Node>)
    ensures InNameOrder(names, ids)
       <==> forall i, j :: 0 <= i < j < |ids| ==> NameLeq(NameOf(names, ids[i]), NameOf(names, ids[j]))
  {
    hide NameLeq, Ascends;
    forall i, j | 0 <= i < j < |ids|
      ensures NameLeq(NameOf(names, ids[i]), NameOf(names, ids[j])) <==>
                Ascends(if ids[i] in names then names[ids[i]] else "", if ids[j] in names then names[ids[j]] else "")
    {
      NameLeqAscends(NameOf(names, ids[i]), NameOf(names, ids[j]));
    }
  }

  /** Stands for the library sort: nothing is promised about the order of equal names. */
  method SortByName(names: map<Node, string>, ids: seq<Node>) returns (sorted: seq<Node>)
    ensures multiset(sorted) == multiset(ids)
    ensures InNameOrder(names, sorted)
  {
    sorted := [];
    for i := 0 to |ids|
      invariant multiset(sorted) == multiset(ids[..i])
      invariant InNameOrder(names, sorted)
    {
      sorted := InsertByName(names, sorted, ids[i]);
      assert ids[..i + 1] == ids[..i] + [ids[i]];
    }
    assert ids[..|ids|] == ids;
  }

  method InsertByName(names: map<Node, string>, ids: seq<Node>, x: Node) returns (longer: seq<Node>)
    requires InNameOrder(names, ids)
    ensures multiset(longer) == multiset(ids) + multiset{x}
    ensures InNameOrder(names, longer)
  {
    hide NameLeq, NameOf, InNameOrder;
    var k := 0;
    while k < |ids| && NameLeq(NameOf(names, ids[k]), NameOf(names, x))
      invariant 0 <= k <= |ids|
      invariant forall j :: 0 <= j < k ==> NameLeq(NameOf(names, ids[j]), NameOf(names, x))
    {
      k := k + 1;
    }
    longer := ids[..k] + [x] + ids[k..];
    assert ids == ids[..k] + ids[k..];
    if k < |ids| {
      NameLeqTotal(NameOf(names, x), NameOf(names, ids[k]));
    }
    InsertKeepsOrder(names, ids, k, x);
  }

  lemma InsertKeepsOrder(names: map<Node, string>, ids: seq<Node>, k: nat, x: Node)
    requires InNameOrder(names, ids) && k <= |ids|
    requires forall j :: 0 <= j < k ==> NameLeq(NameOf(names, ids[j]), NameOf(names, x))
    requires k < |ids| ==> NameLeq(NameOf(names, x), NameOf(names, ids[k]))
    ensures InNameOrder(names, ids[..k] + [x] + ids[k..])
  {
    var s := ids[..k] + [x] + ids[k..];
    InOrderByName(names, ids);
    InOrderByName(names, s);
    hide NameLeq, NameOf, InNameOrder;
    forall i, j | 0 <= i < j < |s| ensures NameLeq(NameOf(names, s[i]), NameOf(names, s[j])) {
      if i == k && j > k + 1 {
        assert s[j] == ids[j - 1];
        NameLeqTransitive(NameOf(names, x), NameOf(names, ids[k]), NameOf(names, ids[j - 1]));
      } else if i < k {
        assert s[i] == ids[i];
        assert j < k ==> s[j] == ids[j];
        assert j > k ==> s[j] == ids[j - 1];
      } else if i > k {
        assert s[i] == ids[i - 1] && s[j] == ids[j - 1];
      }
    }
  }

  /** A row counts unless a target restricts the graph to symbols that include both its ends. */
  predicate Admitted(names: map<Node, string>, restricted: bool, row: Row) {
    restricted ==> row.0 in names && row.1 in names
  }

  ghost predicate IsEdge(rows: seq<Row>, names: map<Node, string>, restricted: bool, from: Node, to: Node) {
    (from, to) in rows && (restricted ==> from in names && to in names)
  }

  ghost predicate HoldsEdges(adj: Graph, rows: seq<Row>, names: map<Node, string>, restricted: bool) {
    forall c, d :: d in Succ(adj, c) <==> IsEdge(rows, names, restricted, c, d)
  }

  lemma AppendKeepsDistinct<T>(s: seq<T>, x: T)
    requires NoDup(s) && x !in s
    ensures NoDup(s + [x])
  {
    assert (s + [x])[..|s|] == s;
  }

  lemma SortKeepsDistinct<T>(s: seq<T>, t: seq<T>)
    requires NoDup(s) && multiset(s) == multiset(t)
    ensures NoDup(t)
    ensures forall x :: x in s <==> x in t
  {
    NoDupIsPairwise(s);
    forall x ensures x in s <==> x in t {
      assert x in multiset(s) <==> x in multiset(t);
    }
    forall i, j | 0 <= i < j < |t| ensures t[i] != t[j] {
      if t[i] == t[j] {
        assert t == t[..i] + [t[i]] + t[i + 1..j] + [t[j]] + t[j + 1..];
        assert multiset(t)[t[i]] >= 2;
        OnceOnly(s, t[i]);
      }
    }
    NoDupIsPairwise(t);
  }

  lemma {:induction false} OnceOnly<T>(s: seq<T>, x: T)
    requires NoDup(s)
    ensures multiset(s)[x] <= 1
  {
    if |s| > 0 {
      var t := s[..|s| - 1];
      OnceOnly(t, x);
      assert s == t + [s[|s| - 1]];
    }
  }

  ghost predicate HasSeen(adj: Graph, seen: set<Row>) {
    forall c, d :: (c, d) in seen <==> d in Succ(adj, c)
  }

  /** One row either adds one edge at the end of its caller's list or changes nothing. */
  lemma TakeRow(adj: Graph, seen: set<Row>, rows: seq<Row>, row: Row, names: map<Node, string>, restricted: bool)
    requires Deduplicated(adj) && HoldsEdges(adj, rows, names, restricted) && HasSeen(adj, seen)
    ensures if Admitted(names, restricted, row) && row !in seen then
              var adj' := adj[row.0 := Succ(adj, row.0) + [row.1]];
              && Deduplicated(adj') && HoldsEdges(adj', rows + [row], names, restricted)
              && HasSeen(adj', seen + {row})
            else
              HoldsEdges(adj, rows + [row], names, restricted)
  {
    var (caller, callee) := row;
    var longer := rows + [row];
    assert forall r :: r in longer <==> r in rows || r == row;
    if Admitted(names, restricted, row) && row !in seen {
      assert (caller, callee) !in seen;
      AppendKeepsDistinct(Succ(adj, caller), callee);
      var adj' := adj[caller := Succ(adj, caller) + [callee]];
      forall c, d ensures d in Succ(adj', c) <==> d in Succ(adj, c) || (c, d) == row {
      }
    }
  }

  method LoadCgraphAdjacency(rows: seq<Row>, names: map<Node, string>, restricted: bool) returns (adj: Graph)
    ensures Deduplicated(adj)
    ensures HoldsEdges(adj, rows, names, restricted)
    ensures forall c :: c in adj ==> InNameOrder(names, adj[c])
  {
    adj := map[];
    var seen: set<Row> := {};
    for i := 0 to |rows|
      invariant Deduplicated(adj)
      invariant HoldsEdges(adj, rows[..i], names, restricted)
      invariant HasSeen(adj, seen)
    {
      hide *;
      assert rows[..i + 1] == rows[..i] + [rows[i]];
      TakeRow(adj, seen, rows[..i], rows[i], names, restricted);
      if Admitted(names, restricted, rows[i]) && rows[i] !in seen {
        seen := seen + {rows[i]};
        adj := adj[rows[i].0 := Succ(adj, rows[i].0) + [rows[i].1]];
      }
    }
    assert rows[..|rows|] == rows;
    adj := SortLists(names, adj);
  }

  lemma Inhabited(s: set<Node>)
    requires s != {}
    ensures exists c :: c in s
  {
    if forall c :: c !in s {
      assert false;
    }
  }

  method SortLists(names: map<Node, string>, lists: Graph) returns (adj: Graph)
    requires Deduplicated(lists)
    ensures Deduplicated(adj)
    ensures forall c :: c in adj ==> InNameOrder(names, adj[c])
    ensures forall c, d :: d in Succ(adj, c) <==> d in Succ(lists, c)
  {
    hide NoDup, NameLeq, NameOf, InNameOrder;
    adj := lists;
    var todo := adj.Keys;
    while todo != {}
      invariant todo <= adj.Keys
      invariant adj.Keys == lists.Keys
      invariant forall c :: c in adj ==> NoDup(adj[c]) && forall d :: d in adj[c] <==> d in lists[c]
      invariant forall c :: c in adj && c !in todo ==> InNameOrder(names, adj[c])
    {
      Inhabited(todo);
      var c :| c in todo;
      var sorted := SortByName(names, adj[c]);
      SortKeepsDistinct(adj[c], sorted);
      adj := adj[c := sorted];
      todo := todo - {c};
    }
  }

  // ----- the tool, end to end -----

  /** A simple chain of compiler_cgraph rows between the two symbols, within the depth bound. */
  ghost predicate IsRowPath(rows: seq<Row>, names: map<Node, string>, restricted: bool, p: Path,
                            start: Node, end: Node, maxDepth: int) {
    && |p| > 0 && p[0] == start && p[|p| - 1] == end && Pairwise(p) && |p| - 1 <= maxDepth
    && forall k :: 0 < k < |p| ==> IsEdge(rows, names, restricted, p[k - 1], p[k])
  }

  lemma GraphPathsAreRowPaths(adj: Graph, rows: seq<Row>, names: map<Node, string>, restricted: bool, p: Path,
                              start: Node, end: Node, maxDepth: int)
    requires HoldsEdges(adj, rows, names, restricted)
    ensures IsCallPath(adj, p, start, end, maxDepth)
       <==> IsRowPath(rows, names, restricted, p, start, end, maxDepth)
  {
    NoDupIsPairwise(p);
    forall k | 0 < k < |p| ensures EdgeInto(adj, p, k) <==> IsEdge(rows, names, restricted, p[k - 1], p[k]) {
      assert p[k] in Succ(adj, p[k - 1]) <==> IsEdge(rows, names, restricted, p[k - 1], p[k]);
    }
  }

  ghost predicate IsLoaded(adj: Graph, rows: seq<Row>, names: map<Node, string>, restricted: bool) {
    && Deduplicated(adj) && HoldsEdges(adj, rows, names, restricted)
    && forall c :: c in adj ==> InNameOrder(names, adj[c])
  }

  /** They part at some node, where p goes on to another symbol than q, and to one whose name does not come after that
      of q's. */
  ghost predicate NamedBefore(names: map<Node, string>, p: Path, q: Path) {
    exists k :: && 0 < k < |p| && k < |q| && p[..k] == q[..k] && p[k] != q[k]
                && Ascends(if p[k] in names then names[p[k]] else "", if q[k] in names then names[q[k]] else "")
  }

  lemma BeforeIsByName(adj: Graph, names: map<Node, string>, p: Path, q: Path)
    requires Deduplicated(adj) && (forall c :: c in adj ==> InNameOrder(names, adj[c])) && Before(adj, p, q)
    ensures NamedBefore(names, p, q)
  {
    hide Ascends;
    var k :| 0 < k < |p| && k < |q| && PartsAt(adj, p, q, k);
    var c := p[k - 1];
    NoDupIsPairwise(Succ(adj, c));
    assert c in adj;
    assert p[k] != q[k];
  }

  lemma FirstByName(adj: Graph, names: map<Node, string>, all: seq<Path>, paths: seq<Path>)
    requires Deduplicated(adj) && (forall c :: c in adj ==> InNameOrder(names, adj[c])) && Ordered(adj, all)
    requires paths <= all
    ensures forall a, b :: 0 <= a < b < |paths| ==> NamedBefore(names, paths[a], paths[b])
  {
    hide Before, NamedBefore, InNameOrder, Deduplicated;
    forall a, b | 0 <= a < b < |paths| ensures NamedBefore(names, paths[a], paths[b]) {
      assert paths[a] == all[a] && paths[b] == all[b];
      BeforeIsByName(adj, names, paths[a], paths[b]);
    }
  }

  /** list_call_paths on a set of rows: the first fifty row paths in the order of the loaded lists, each once,
      or all of them when there are no more. */
  method HandleListCallPaths(rows: seq<Row>, names: map<Node, string>, restricted: bool,
                             fromId: Node, toId: Node, requestedDepth: int)
    returns (paths: seq<Path>, truncated: bool)
    ensures exists adj :: IsLoaded(adj, rows, names, restricted)
              && Ordered(adj, Enumeration(adj, fromId, toId, ClampDepth(requestedDepth)))
              && paths == First(Enumeration(adj, fromId, toId, ClampDepth(requestedDepth)), 50)
    ensures forall a, b :: 0 <= a < b < |paths| ==> NamedBefore(names, paths[a], paths[b])
    ensures Pairwise(paths)
    ensures forall p :: p in paths ==> IsRowPath(rows, names, restricted, p, fromId, toId, ClampDepth(requestedDepth))
    ensures truncated ==> |paths| == 50
    ensures !truncated ==>
              forall p :: IsRowPath(rows, names, restricted, p, fromId, toId, ClampDepth(requestedDepth)) ==> p in paths
    ensures truncated <==> exists more: seq<Path> ::
              && |more| > 50 && Pairwise(more)
              && forall p :: p in more ==>
                   IsRowPath(rows, names, restricted, p, fromId, toId, ClampDepth(requestedDepth))
  {
    var adj := LoadCgraphAdjacency(rows, names, restricted);
    assert IsLoaded(adj, rows, names, restricted);
    paths, truncated := ListCallPaths(adj, fromId, toId, requestedDepth);
    ghost var depth := ClampDepth(requestedDepth);
    ghost var full := Enumeration(adj, fromId, toId, depth);
    EnumerationIsOrdered(adj, fromId, toId, depth);
    FirstByName(adj, names, full, paths);
    NoDupIsPairwise(full);
    forall p ensures p in full <==> IsRowPath(rows, names, restricted, p, fromId, toId, depth) {
      EnumerationIsExact(adj, fromId, toId, depth, p);
      GraphPathsAreRowPaths(adj, rows, names, restricted, p, fromId, toId, depth);
    }
    if !truncated {
      forall more: seq<Path> | Pairwise(more) && forall p :: p in more ==> p in full
        ensures |more| <= 50
      {
        DistinctWithin(more, full);
      }
    }
  }

  lemma DistinctWithin<T>(s: seq<T>, t: seq<T>)
    requires Pairwise(s) && forall x :: x in s ==> x in t
    ensures |s| <= |t|
  {
    DistinctCount(s);
    CountAtMost(t);
    var a, b := set x | x in s, set x | x in t;
    assert a <= b;
    SubsetSize(a, b);
  }

  lemma {:induction false} CountAtMost<T>(s: seq<T>)
    ensures |set x | x in s| <= |s|
  {
    if |s| > 0 {
      var t := s[..|s| - 1];
      CountAtMost(t);
      assert s == t + [s[|s| - 1]];
      assert (set x | x in s) == (set x | x in t) + {s[|s| - 1]};
    }
  }

  lemma {:induction false} SubsetSize<T>(a: set<T>, b: set<T>)
    requires a <= b
    ensures |a| <= |b|
  {
    if a != {} {
      var x :| x in a;
      SubsetSize(a - {x}, b - {x});
    }
  }
}
