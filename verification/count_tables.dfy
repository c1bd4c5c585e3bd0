/**
 * Word-count tables: the HashMap<String, Integer> the reducer fills, with
 * getOrDefault and put, and the merge of two tables that sums the counts
 * word by word. Counts are unbounded integers (Java's int overflow is not
 * modelled).
 */
module CountTables {
  type Table = map<string, int>

  /** `t.getOrDefault(w, 0)`. */
  function Get(t: Table, w: string): int {
    if w in t then t[w] else 0
  }

  /** `t.put(w, t.getOrDefault(w, 0) + n)`. */
  function Add(t: Table, w: string, n: int): (r: Table)
    ensures r.Keys == t.Keys + {w}
    ensures Get(r, w) == Get(t, w) + n
    ensures forall v :: v != w ==> Get(r, v) == Get(t, v)
  {
    t[w := Get(t, w) + n]
  }

  /** Both tables' words, each with the sum of its counts. */
  function Merge(a: Table, b: Table): (r: Table)
    ensures r.Keys == a.Keys + b.Keys
    ensures forall w :: Get(r, w) == Get(a, w) + Get(b, w)
  {
    map w | w in a.Keys + b.Keys :: Get(a, w) + Get(b, w)
  }

  /** Two tables are equal when they have the same words and the same counts. */
  lemma TableExt(a: Table, b: Table)
    requires a.Keys == b.Keys
    requires forall w :: Get(a, w) == Get(b, w)
    ensures a == b
  {
    forall w | w in a.Keys ensures a[w] == b[w] {
      assert Get(a, w) == Get(b, w);
    }
  }

  lemma MergeCommutes(a: Table, b: Table)
    ensures Merge(a, b) == Merge(b, a)
  {
    TableExt(Merge(a, b), Merge(b, a));
  }

  lemma MergeAssociates(a: Table, b: Table, c: Table)
    ensures Merge(Merge(a, b), c) == Merge(a, Merge(b, c))
  {
    TableExt(Merge(Merge(a, b), c), Merge(a, Merge(b, c)));
  }

  /** Merging two tables into a third, in either order, gives the same table. */
  lemma MergeSwap(a: Table, b: Table, c: Table)
    ensures Merge(Merge(a, b), c) == Merge(Merge(a, c), b)
  {
    TableExt(Merge(Merge(a, b), c), Merge(Merge(a, c), b));
  }

  lemma MergeEmpty(a: Table)
    ensures Merge(a, map[]) == a
    ensures Merge(map[], a) == a
  {
    TableExt(Merge(a, map[]), a);
    TableExt(Merge(map[], a), a);
  }

  /** One put is a merge with a one-word table. */
  lemma AddIsMerge(t: Table, w: string, n: int)
    ensures Add(t, w, n) == Merge(t, map[w := n])
  {
    TableExt(Add(t, w, n), Merge(t, map[w := n]));
  }
}
