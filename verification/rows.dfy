/** The query engine underneath the DAOs: a table is a map from primary key to
    row; `Select` lists the rows a WHERE clause keeps, in ORDER BY order. Rows
    that tie on the ORDER BY key come out in an order SQL leaves unspecified,
    which is why the listing is a ghost choice. */
module Rows {

  /** An ORDER BY comparison: total and transitive. */
  ghost predicate TotalPreorder<V(!new)>(le: (V, V) -> bool) {
    && (forall a, b :: le(a, b) || le(b, a))
    && (forall a, b, c :: le(a, b) && le(b, c) ==> le(a, c))
  }

  predicate SortedBy<V>(s: seq<V>, le: (V, V) -> bool) {
    forall i, j :: 0 <= i < j < |s| ==> le(s[i], s[j])
  }

  function Insert<V>(x: V, s: seq<V>, le: (V, V) -> bool): (r: seq<V>)
    ensures multiset(r) == multiset(s) + multiset{x}
    ensures |r| == |s| + 1
  {
    if |s| == 0 then [x]
    else if le(x, s[0]) then [x] + s
    else
      assert s == [s[0]] + s[1..];
      [s[0]] + Insert(x, s[1..], le)
  }

  lemma {:induction false} InsertSorted<V(!new)>(x: V, s: seq<V>, le: (V, V) -> bool)
    requires TotalPreorder(le)
    requires SortedBy(s, le)
    ensures SortedBy(Insert(x, s, le), le)
  {
    if |s| == 0 {
    } else if le(x, s[0]) {
      var r := [x] + s;
      forall i, j | 0 <= i < j < |r| ensures le(r[i], r[j]) {
        if i == 0 && j > 1 {
          assert le(s[0], s[j - 1]);
        }
      }
    } else {
      assert le(s[0], x);
      var rest := Insert(x, s[1..], le);
      InsertSorted(x, s[1..], le);
      var r := [s[0]] + rest;
      forall j | 0 <= j < |rest| ensures le(s[0], rest[j]) {
        assert rest[j] in multiset(rest);
        if rest[j] != x {
          assert rest[j] in multiset(s[1..]);
          var k :| 0 <= k < |s[1..]| && s[1..][k] == rest[j];
          assert le(s[0], s[k + 1]);
        }
      }
      forall i, j | 0 <= i < j < |r| ensures le(r[i], r[j]) {
        if i > 0 {
          assert le(rest[i - 1], rest[j - 1]);
        } else {
          assert le(s[0], rest[j - 1]);
        }
      }
    }
  }

  /** Insertion sort. */
  function Sort<V(!new)>(s: seq<V>, le: (V, V) -> bool): (r: seq<V>)
    requires TotalPreorder(le)
    ensures SortedBy(r, le)
    ensures multiset(r) == multiset(s)
    ensures |r| == |s|
  {
    if |s| == 0 then []
    else
      assert s == [s[0]] + s[1..];
      var rest := Sort(s[1..], le);
      InsertSorted(s[0], rest, le);
      Insert(s[0], rest, le)
  }

  /** Rows a WHERE clause keeps, still keyed. */
  function Restrict<K(!new), V>(m: map<K, V>, keep: V -> bool): (r: map<K, V>)
    ensures r.Keys <= m.Keys
    ensures forall k :: k in r <==> k in m && keep(m[k])
    ensures forall k :: k in r ==> r[k] == m[k]
  {
    map k | k in m && keep(m[k]) :: m[k]
  }

  /** The values of a map, one entry per key, in an unspecified order. */
  ghost function Listing<K(!new), V(!new)>(m: map<K, V>): (r: seq<V>)
    ensures |r| == |m|
    ensures forall v :: v in r <==> v in m.Values
    decreases |m|
  {
    if |m| == 0 then []
    else
      var k :| k in m;
      var rest := m - {k};
      assert |rest| == |m| - 1;
      assert forall v :: v in m.Values <==> v == m[k] || v in rest.Values by {
        forall v | v in m.Values ensures v == m[k] || v in rest.Values {
          var j :| j in m && m[j] == v;
          if j != k {
            assert j in rest;
          }
        }
      }
      [m[k]] + Listing(rest)
  }

  /** `SELECT * FROM m WHERE keep ORDER BY le`. Which rows it lists is stated
      by `SelectMembers` and its two halves, so that callers only pay for the
      facts they use. */
  ghost function Select<K(!new), V(!new)>(m: map<K, V>, keep: V -> bool, le: (V, V) -> bool): (r: seq<V>)
    requires TotalPreorder(le)
    ensures SortedBy(r, le)
    ensures |r| == |Restrict(m, keep)|
  {
    Sort(Listing(Restrict(m, keep)), le)
  }

  /** The listing holds exactly the kept rows. */
  lemma SelectMembers<K(!new), V(!new)>(m: map<K, V>, keep: V -> bool, le: (V, V) -> bool)
    requires TotalPreorder(le)
    ensures forall v :: v in Select(m, keep, le) <==> v in m.Values && keep(v)
  {
    var kept := Restrict(m, keep);
    var l := Listing(kept);
    assert forall v :: v in kept.Values <==> v in m.Values && keep(v) by {
      forall v | v in m.Values && keep(v) ensures v in kept.Values {
        var j :| j in m && m[j] == v;
        assert j in kept;
      }
    }
    var r := Sort(l, le);
    assert forall v :: v in r <==> v in multiset(r);
    assert forall v :: v in l <==> v in multiset(l);
  }

  /** Some row satisfies `keep` (`EXISTS (SELECT ... WHERE keep)`). */
  predicate Any<K(!new), V>(m: map<K, V>, keep: V -> bool) {
    exists k :: k in m && keep(m[k])
  }

  /** A value of a map is stored under some key. */
  lemma KeyOfValue<K, V>(m: map<K, V>, v: V)
    requires v in m.Values
    ensures exists k :: k in m && m[k] == v
  {
  }

  /** A row the WHERE clause keeps is listed. */
  lemma SelectHasRow<K(!new), V(!new)>(m: map<K, V>, keep: V -> bool, le: (V, V) -> bool, k: K)
    requires TotalPreorder(le)
    requires k in m && keep(m[k])
    ensures m[k] in Select(m, keep, le)
  {
    SelectMembers(m, keep, le);
    assert m[k] in m.Values;
  }

  /** Every listed entry is a row the WHERE clause keeps. */
  lemma SelectRowIsKept<K(!new), V(!new)>(m: map<K, V>, keep: V -> bool, le: (V, V) -> bool, i: int)
    requires TotalPreorder(le)
    requires 0 <= i < |Select(m, keep, le)|
    ensures Select(m, keep, le)[i] in m.Values && keep(Select(m, keep, le)[i])
  {
    SelectMembers(m, keep, le);
    assert Select(m, keep, le)[i] in Select(m, keep, le);
  }

  /** The listing is empty exactly when no row is kept. */
  lemma SelectEmpty<K(!new), V(!new)>(m: map<K, V>, keep: V -> bool, le: (V, V) -> bool)
    requires TotalPreorder(le)
    ensures |Select(m, keep, le)| == 0 <==> !Any(m, keep)
  {
    var r := Select(m, keep, le);
    if |r| > 0 {
      SelectRowIsKept(m, keep, le, 0);
      KeyOfValue(m, r[0]);
      var k :| k in m && m[k] == r[0];
      assert keep(m[k]);
    }
    if Any(m, keep) {
      var k :| k in m && keep(m[k]);
      SelectHasRow(m, keep, le, k);
    }
  }

  /** The first entry of the listing comes no later than any kept row. */
  lemma SelectFirstLeast<K(!new), V(!new)>(m: map<K, V>, keep: V -> bool, le: (V, V) -> bool, k: K)
    requires TotalPreorder(le)
    requires k in m && keep(m[k])
    ensures |Select(m, keep, le)| > 0 && le(Select(m, keep, le)[0], m[k])
  {
    var r := Select(m, keep, le);
    SelectHasRow(m, keep, le, k);
    var j :| 0 <= j < |r| && r[j] == m[k];
    assert j == 0 || le(r[0], r[j]);
  }

  /** Number of rows a WHERE clause keeps (`SELECT COUNT(*)`). */
  function Count<K(!new), V>(m: map<K, V>, keep: V -> bool): (n: nat)
    ensures n <= |m|
  {
    var r := Restrict(m, keep);
    assert r.Keys <= m.Keys;
    CardSubset(r.Keys, m.Keys);
    |r|
  }

  lemma CardSubset<K>(a: set<K>, b: set<K>)
    requires a <= b
    ensures |a| <= |b|
  {
    assert b == a + (b - a);
  }

  /** A filter that splits into two exclusive cases counts their sum. */
  lemma CountSplit<K(!new), V>(m: map<K, V>, p: V -> bool, r: V -> bool, q: V -> bool)
    requires forall k :: k in m ==> (q(m[k]) <==> p(m[k]) || r(m[k]))
    requires forall k :: k in m ==> !(p(m[k]) && r(m[k]))
    ensures Count(m, p) + Count(m, r) == Count(m, q)
  {
    var a, b := Restrict(m, p).Keys, Restrict(m, r).Keys;
    assert a !! b;
    assert Restrict(m, q).Keys == a + b;
  }

  /** A stronger filter keeps no more rows. */
  lemma CountMonotone<K(!new), V>(m: map<K, V>, p: V -> bool, q: V -> bool)
    requires forall k :: k in m && p(m[k]) ==> q(m[k])
    ensures Count(m, p) <= Count(m, q)
  {
    CardSubset(Restrict(m, p).Keys, Restrict(m, q).Keys);
  }
}
