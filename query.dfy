/**
 * `SELECT * FROM t WHERE <filter> ORDER BY <column> [ASC|DESC] [LIMIT n]`
 * over a table keyed by a text primary key.  Rows that tie on the ordering
 * column may come back in any order, as in SQLite; a negative LIMIT means
 * "no limit", as in SQLite.
 */
module Query {

  /** The number of rows a query with this LIMIT returns when `count` rows match. */
  function Limited(count: nat, limit: int): (n: nat)
    ensures n <= count
    ensures limit >= 0 ==> n <= limit
    ensures n < count ==> limit >= 0 && n == limit
  {
    if limit < 0 || count <= limit then count else limit
  }

  /** Every non-empty finite set of keys has a row of least rank. */
  lemma {:induction false} LeastExists<T>(m: map<string, T>, rank: T -> int, s: set<string>)
    requires s != {} && s <= m.Keys
    ensures exists k :: k in s && forall k' :: k' in s ==> rank(m[k]) <= rank(m[k'])
    decreases |s|
  {
    var x :| x in s;
    if s != {x} {
      var rest := s - {x};
      LeastExists(m, rank, rest);
      var y :| y in rest && forall k' :: k' in rest ==> rank(m[y]) <= rank(m[k']);
      if rank(m[x]) <= rank(m[y]) {
        assert forall k' :: k' in s ==> rank(m[x]) <= rank(m[k']);
      } else {
        assert forall k' :: k' in s ==> rank(m[y]) <= rank(m[k']);
      }
    }
  }

  /** The keys of the rows the query returns, in the order it returns them:
      distinct matching rows, sorted by non-decreasing `rank`, as many as the
      LIMIT allows, and no row left out ranks before a row returned.  With no
      effective limit every matching row is returned.  `matching` names the
      set of keys the WHERE clause keeps, as the caller defines it. */
  method Select<T>(m: map<string, T>, keep: T -> bool, rank: T -> int, limit: int, ghost matching: set<string>)
    returns (ks: seq<string>)
    requires forall k :: k in matching <==> k in m && keep(m[k])
    ensures forall i :: 0 <= i < |ks| ==> ks[i] in m && keep(m[ks[i]])
    ensures forall i, j :: 0 <= i < j < |ks| ==> ks[i] != ks[j]
    ensures forall i, j :: 0 <= i < j < |ks| ==> rank(m[ks[i]]) <= rank(m[ks[j]])
    ensures |ks| == Limited(|matching|, limit)
    ensures forall k, i :: k in matching && k !in ks && 0 <= i < |ks| ==>
              rank(m[ks[i]]) <= rank(m[k])
    ensures |ks| == |matching| ==> forall k :: k in matching ==> k in ks
  {
    ghost var all := matching;
    var rest := set k | k in m && keep(m[k]);
    assert rest == all;
    ks := [];
    while rest != {} && (limit < 0 || |ks| < limit)
      invariant rest <= all
      invariant forall i :: 0 <= i < |ks| ==> ks[i] in all && ks[i] !in rest
      invariant forall k :: k in all && k !in rest ==> k in ks
      invariant forall i, j :: 0 <= i < j < |ks| ==> ks[i] != ks[j]
      invariant forall i, j :: 0 <= i < j < |ks| ==> rank(m[ks[i]]) <= rank(m[ks[j]])
      invariant forall i, k :: 0 <= i < |ks| && k in rest ==> rank(m[ks[i]]) <= rank(m[k])
      invariant |ks| + |rest| == |all|
      invariant limit >= 0 ==> |ks| <= limit
      decreases |rest|
    {
      LeastExists(m, rank, rest);
      var k :| k in rest && forall k' :: k' in rest ==> rank(m[k]) <= rank(m[k']);
      ks := ks + [k];
      rest := rest - {k};
    }
  }

  /** The rows stored under the given keys, in the same order. */
  function RowsOf<T>(m: map<string, T>, ks: seq<string>): (rows: seq<T>)
    requires forall i :: 0 <= i < |ks| ==> ks[i] in m
    ensures |rows| == |ks|
    ensures forall i :: 0 <= i < |ks| ==> rows[i] == m[ks[i]]
  {
    seq(|ks|, i requires 0 <= i < |ks| => m[ks[i]])
  }
}
