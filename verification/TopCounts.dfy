/** The counts of a summary cut to the highest: a sort by count, ties by key, and a prefix of it. */
module TopCounts {
  import opened Wrappers

  type Counts = map<string, nat>

  /** Higher counts come first, equal ones in key order. */
  predicate Ahead(m: Counts, a: string, b: string)
    requires a in m && b in m
  {
    m[a] > m[b] || (m[a] == m[b] && a != b && NameLeq(a, b))
  }

  lemma AheadIsTotal(m: Counts, a: string, b: string)
    requires a in m && b in m
    ensures !(Ahead(m, a, b) && Ahead(m, b, a))
    ensures a != b ==> Ahead(m, a, b) || Ahead(m, b, a)
  {
    NameLeqTotal(a, b);
    if NameLeq(a, b) && NameLeq(b, a) {
      NameLeqAntisymmetric(a, b);
    }
  }

  lemma AheadMeans(m: Counts, a: string, b: string)
    requires a in m && b in m && Ahead(m, a, b)
    ensures m[a] > m[b] || (m[a] == m[b] && a != b && Ascends(a, b))
  {
    NameLeqAscends(a, b);
    hide NameLeq, Ascends;
  }

  lemma AheadIsTransitive(m: Counts, a: string, b: string, c: string)
    requires a in m && b in m && c in m && Ahead(m, a, b) && Ahead(m, b, c)
    ensures Ahead(m, a, c)
  {
    if m[a] == m[b] == m[c] {
      NameLeqTransitive(a, b, c);
      if NameLeq(a, b) && NameLeq(b, a) {
        NameLeqAntisymmetric(a, b);
      }
    }
  }

  /** The counts of n keys, or of all there are: every key kept has a higher count than any key dropped, or as high
      a one and comes before it byte by byte. */
  ghost predicate IsTop(m: Counts, n: nat, out: Counts) {
    && out.Keys <= m.Keys && (forall k :: k in out ==> out[k] == m[k])
    && |out| == (if |m| <= n then |m| else n)
    && forall k, l :: k in out && l in m && l !in out ==> m[k] > m[l] || (m[k] == m[l] && k != l && Ascends(k, l))
  }

  /** That says which map it is: the answer does not depend on the order keys come out of a map. */
  lemma TopIsUnique(m: Counts, n: nat, a: Counts, b: Counts)
    requires IsTop(m, n, a) && IsTop(m, n, b)
    ensures a == b
  {
    if a.Keys != b.Keys {
      Differ(a.Keys, b.Keys);
      Differ(b.Keys, a.Keys);
      var k :| k in a && k !in b;
      var l :| l in b && l !in a;
      NameLeqAscends(k, l);
      NameLeqAscends(l, k);
      AheadIsTotal(m, k, l);
    }
  }

  lemma SameSize(a: set<string>, b: set<string>)
    requires a <= b && |a| == |b|
    ensures a == b
  {
    assert b == a + (b - a);
  }

  lemma Differ(a: set<string>, b: set<string>)
    requires |a| == |b| && a != b
    ensures exists k :: k in a && k !in b
  {
    if a <= b {
      SameSize(a, b);
    }
  }

  /** Up to n counts are left as they are. */
  lemma FewAreKept(m: Counts, n: nat, out: Counts)
    requires IsTop(m, n, out) && |m| <= n
    ensures out == m
  {
    SameSize(out.Keys, m.Keys);
  }

  ghost predicate Ranked(m: Counts, keys: seq<string>) {
    && (forall k :: k in keys ==> k in m)
    && forall i, j :: 0 <= i < j < |keys| ==> Ahead(m, keys[i], keys[j])
  }

  lemma InsertKeepsRanked(m: Counts, keys: seq<string>, k: nat, x: string)
    requires Ranked(m, keys) && k <= |keys| && x in m
    requires k > 0 ==> Ahead(m, keys[k - 1], x)
    requires k < |keys| ==> Ahead(m, x, keys[k])
    ensures Ranked(m, keys[..k] + [x] + keys[k..])
  {
    hide Ahead;
    var s := keys[..k] + [x] + keys[k..];
    forall i, j | 0 <= i < j < |s| ensures Ahead(m, s[i], s[j]) {
      if j == k && i < k - 1 {
        AheadIsTransitive(m, keys[i], keys[k - 1], x);
      } else if i == k && j > k + 1 {
        AheadIsTransitive(m, x, keys[k], keys[j - 1]);
      }
    }
  }

  /** The library sort under the order above. */
  method SortKeys(m: Counts) returns (keys: seq<string>)
    ensures Ranked(m, keys) && forall k :: k in keys <==> k in m
  {
    keys := [];
    var todo := m.Keys;
    while todo != {}
      invariant todo <= m.Keys && Ranked(m, keys)
      invariant forall k :: k in keys <==> k in m && k !in todo
      decreases |todo|
    {
      hide Ahead, Ranked;
      var x :| x in todo;
      keys := Insert(m, keys, x);
      todo := todo - {x};
    }
  }

  method Insert(m: Counts, keys: seq<string>, x: string) returns (longer: seq<string>)
    requires Ranked(m, keys) && x in m && x !in keys
    ensures Ranked(m, longer) && forall k :: k in longer <==> k in keys || k == x
  {
    hide Ahead;
    var k := 0;
    while k < |keys| && Ahead(m, keys[k], x)
      invariant k <= |keys| && (k > 0 ==> Ahead(m, keys[k - 1], x))
    {
      k := k + 1;
    }
    if k < |keys| {
      AheadIsTotal(m, keys[k], x);
    }
    InsertKeepsRanked(m, keys, k, x);
    longer := keys[..k] + [x] + keys[k..];
    assert keys == keys[..k] + keys[k..];
  }

  /** topCounts */
  method TopCounts(m: Counts, n: nat) returns (out: Counts)
    ensures IsTop(m, n, out)
  {
    var keys := SortKeys(m);
    ghost var all := keys;
    if |keys| > n {
      keys := keys[..n];
    }
    out := map[];
    for i := 0 to |keys|
      invariant forall k :: k in out <==> k in keys[..i]
      invariant forall k :: k in out ==> out[k] == m[k]
    {
      hide Ahead;
      assert keys[..i + 1] == keys[..i] + [keys[i]];
      out := out[keys[i] := m[keys[i]]];
    }
    assert keys[..|keys|] == keys;
    PrefixIsTop(m, n, all, keys, out);
  }

  lemma PrefixIsTop(m: Counts, n: nat, all: seq<string>, keys: seq<string>, out: Counts)
    requires Ranked(m, all) && (forall k :: k in all <==> k in m) && keys == First(all, n)
    requires forall k :: k in out <==> k in keys
    requires forall k :: k in out ==> out[k] == m[k]
    ensures IsTop(m, n, out)
  {
    hide Ahead, Ascends;
    PrefixCounts(m, all, keys, out);
    forall k, l | k in out && l in m && l !in out
      ensures m[k] > m[l] || (m[k] == m[l] && k != l && Ascends(k, l))
    {
      PrefixIsAhead(m, all, keys, k, l);
      AheadMeans(m, k, l);
    }
  }

  lemma PrefixIsAhead(m: Counts, all: seq<string>, keys: seq<string>, k: string, l: string)
    requires Ranked(m, all) && keys <= all && k in keys && l in all && l !in keys
    ensures Ahead(m, k, l)
  {
    hide Ahead;
    var i :| 0 <= i < |keys| && keys[i] == k;
    var j :| 0 <= j < |all| && all[j] == l;
    assert all[i] == k && forall x :: 0 <= x < |keys| ==> keys[x] == all[x];
  }

  lemma PrefixCounts(m: Counts, all: seq<string>, keys: seq<string>, out: Counts)
    requires Ranked(m, all) && (forall k :: k in all <==> k in m) && keys <= all
    requires forall k :: k in out <==> k in keys
    ensures |m| == |all| && |out| == |keys|
  {
    hide Ahead;
    forall i, j | 0 <= i < j < |all| ensures all[i] != all[j] {
      AheadIsTotal(m, all[i], all[j]);
    }
    DistinctCount(all);
    DistinctCount(keys);
    assert (set k | k in all) == m.Keys && (set k | k in keys) == out.Keys;
  }
}
