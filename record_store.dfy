/**
 * The relational store behind both tables, reduced to what the handlers rely
 * on: a table is a map from primary key to row, an `order` listing each key
 * once in the table's natural (insertion) order, and the next key the store
 * will hand out.  `Where` is a select's WHERE clause, `Page` its OFFSET/LIMIT.
 */
module RecordStore {
  import opened Common

  ghost predicate Distinct(s: seq<int>) {
    forall i, j | 0 <= i < j < |s| :: s[i] != s[j]
  }

  /** The bookkeeping invariant of a table. */
  ghost predicate WellFormed<R>(rows: map<int, R>, order: seq<int>, nextId: int) {
    && (forall i | 0 <= i < |order| :: order[i] in rows)
    && (forall k | k in rows :: k in order && k < nextId)
    && Distinct(order)
  }

  /** The rows of a table in natural order, as a select without clauses yields them. */
  function InOrder<R>(rows: map<int, R>, order: seq<int>): (s: seq<R>)
    requires forall i | 0 <= i < |order| :: order[i] in rows
    ensures |s| == |order|
    ensures forall i | 0 <= i < |order| :: s[i] == rows[order[i]]
  {
    seq(|order|, i requires 0 <= i < |order| => rows[order[i]])
  }

  /** The position of `id` in `order`. */
  function IndexOf(order: seq<int>, id: int): (k: nat)
    requires id in order
    ensures k < |order| && order[k] == id
    ensures forall i | 0 <= i < k :: order[i] != id
  {
    if order[0] == id then 0 else 1 + IndexOf(order[1..], id)
  }

  /** `order` with every occurrence of `id` dropped (DELETE ... WHERE id = `id`). */
  function Without(order: seq<int>, id: int): (r: seq<int>)
    ensures forall x :: x in r <==> x in order && x != id
    ensures |r| <= |order|
  {
    if order == [] then []
    else (if order[0] == id then [] else [order[0]]) + Without(order[1..], id)
  }

  /** The rows of `s` that satisfy `p`, in the order of `s`. */
  function Where<R>(s: seq<R>, p: R -> bool): (r: seq<R>)
    ensures |r| <= |s|
    ensures forall x | x in r :: x in s && p(x)
  {
    if s == [] then [] else (if p(s[0]) then [s[0]] else []) + Where(s[1..], p)
  }

  /** OFFSET `skip` LIMIT `limit`: the rows at positions `skip` up to `skip + limit`. */
  function Page<R>(s: seq<R>, skip: nat, limit: nat): (r: seq<R>)
    ensures |r| == Min(limit, Max(0, |s| - skip))
    ensures forall i | 0 <= i < |r| :: r[i] == s[skip + i]
  {
    if skip >= |s| then [] else s[skip..Min(|s|, skip + limit)]
  }

  /** Splicing out position `k` of a duplicate-free order is what `Without` does. */
  lemma {:induction false} WithoutSplices(order: seq<int>, k: nat)
    requires k < |order| && Distinct(order)
    ensures Without(order, order[k]) == order[..k] + order[k + 1..]
  {
    if k == 0 {
      assert order[0] !in order[1..];
      WithoutAbsent(order[1..], order[0]);
      assert order[1..] == order[..0] + order[1..];
    } else {
      assert Distinct(order[1..]);
      WithoutSplices(order[1..], k - 1);
      assert order[1..][k - 1] == order[k];
      assert order[..k] == [order[0]] + order[1..][..k - 1];
      assert order[k + 1..] == order[1..][k..];
    }
  }

  /** Dropping a key that is not there changes nothing. */
  lemma {:induction false} WithoutAbsent(order: seq<int>, id: int)
    requires id !in order
    ensures Without(order, id) == order
  {
    if order != [] {
      assert id !in order[1..];
      WithoutAbsent(order[1..], id);
      assert order == [order[0]] + order[1..];
    }
  }

  /** Every row `p` accepts is kept. */
  lemma {:induction false} WhereComplete<R>(s: seq<R>, p: R -> bool, x: R)
    requires x in s && p(x)
    ensures x in Where(s, p)
  {
    if s[0] != x {
      WhereComplete(s[1..], p, x);
    }
  }

  /** A row is selected exactly when it is in the table and satisfies the clause. */
  lemma WhereMembers<R>(s: seq<R>, p: R -> bool)
    ensures forall x :: x in Where(s, p) <==> x in s && p(x)
  {
    forall x | x in s && p(x) ensures x in Where(s, p) {
      WhereComplete(s, p, x);
    }
  }

  /** Selecting distributes over concatenation, so the natural order is kept. */
  lemma {:induction false} WhereAppend<R>(a: seq<R>, b: seq<R>, p: R -> bool)
    ensures Where(a + b, p) == Where(a, p) + Where(b, p)
  {
    if a != [] {
      assert (a + b)[1..] == a[1..] + b;
      WhereAppend(a[1..], b, p);
    } else {
      assert a + b == b;
    }
  }

  /** Two clauses that agree on every row of `s` select the same rows. */
  lemma {:induction false} WhereCongruent<R>(s: seq<R>, p: R -> bool, q: R -> bool)
    requires forall i | 0 <= i < |s| :: p(s[i]) == q(s[i])
    ensures Where(s, p) == Where(s, q)
  {
    if s != [] {
      assert forall i | 0 <= i < |s| - 1 :: s[1..][i] == s[i + 1];
      WhereCongruent(s[1..], p, q);
    }
  }

  /** A clause no row satisfies selects nothing. */
  lemma {:induction false} WhereNone<R>(s: seq<R>, p: R -> bool)
    requires forall i | 0 <= i < |s| :: !p(s[i])
    ensures Where(s, p) == []
  {
    if s != [] {
      assert forall i | 0 <= i < |s| - 1 :: s[1..][i] == s[i + 1];
      WhereNone(s[1..], p);
    }
  }

  /** A clause only position `k` satisfies selects exactly that row. */
  lemma {:induction false} WhereOne<R>(s: seq<R>, p: R -> bool, k: nat)
    requires k < |s| && p(s[k])
    requires forall i | 0 <= i < |s| && i != k :: !p(s[i])
    ensures Where(s, p) == [s[k]]
  {
    assert forall i | 0 <= i < |s| - 1 :: s[1..][i] == s[i + 1];
    if k == 0 {
      WhereNone(s[1..], p);
    } else {
      WhereOne(s[1..], p, k - 1);
    }
  }

  /**
   * A select on the primary key (a clause that holds of a stored row exactly
   * when its key is `id`) yields that one row, or nothing when the key is absent.
   */
  lemma SelectByKey<R>(rows: map<int, R>, order: seq<int>, nextId: int, p: R -> bool, id: int)
    requires WellFormed(rows, order, nextId)
    requires forall k | k in rows :: p(rows[k]) <==> k == id
    ensures Where(InOrder(rows, order), p) == if id in rows then [rows[id]] else []
  {
    var s := InOrder(rows, order);
    if id in rows {
      var k := IndexOf(order, id);
      forall i | 0 <= i < |s| && i != k ensures !p(s[i]) {
        assert order[i] != order[k];
      }
      WhereOne(s, p, k);
    } else {
      forall i | 0 <= i < |s| ensures !p(s[i]) {
        assert order[i] in rows && order[i] != id;
        assert s[i] == rows[order[i]];
      }
      WhereNone(s, p);
    }
  }

  /** Consecutive pages concatenate: paging through a result misses and repeats no row. */
  lemma PagesConcatenate<R>(s: seq<R>, skip: nat, a: nat, b: nat)
    ensures Page(s, skip, a) + Page(s, skip + a, b) == Page(s, skip, a + b)
  {
    var lhs, rhs := Page(s, skip, a) + Page(s, skip + a, b), Page(s, skip, a + b);
    assert |lhs| == |rhs|;
    forall i | 0 <= i < |lhs| ensures lhs[i] == rhs[i] {
      if i >= |Page(s, skip, a)| {
        assert lhs[i] == Page(s, skip + a, b)[i - |Page(s, skip, a)|];
      }
    }
  }

  /** Inserting under the next key keeps the table well formed and appends the row. */
  lemma InsertKeepsTable<R>(rows: map<int, R>, order: seq<int>, nextId: int, row: R)
    requires WellFormed(rows, order, nextId)
    ensures nextId !in rows && nextId !in order
    ensures WellFormed(rows[nextId := row], order + [nextId], nextId + 1)
    ensures InOrder(rows[nextId := row], order + [nextId]) == InOrder(rows, order) + [row]
  {
    assert nextId !in order;
    var s', s := InOrder(rows[nextId := row], order + [nextId]), InOrder(rows, order);
    assert |s'| == |s + [row]|;
    forall i | 0 <= i < |s'| ensures s'[i] == (s + [row])[i] {
      if i < |order| { assert order[i] != nextId; }
    }
  }

  /** Overwriting a stored row keeps the table well formed and replaces it in place. */
  lemma ReplaceKeepsTable<R>(rows: map<int, R>, order: seq<int>, nextId: int, id: int, row: R)
    requires WellFormed(rows, order, nextId) && id in rows
    ensures WellFormed(rows[id := row], order, nextId)
    ensures forall i | 0 <= i < |order| ::
      InOrder(rows[id := row], order)[i] == if order[i] == id then row else InOrder(rows, order)[i]
  {
  }

  /** Splicing one position out of a duplicate-free order leaves it duplicate-free. */
  lemma SpliceDistinct(order: seq<int>, k: nat)
    requires k < |order| && Distinct(order)
    ensures Distinct(order[..k] + order[k + 1..])
  {
    var order' := order[..k] + order[k + 1..];
    forall i, j | 0 <= i < j < |order'| ensures order'[i] != order'[j] {
      var i0 := if i < k then i else i + 1;
      var j0 := if j < k then j else j + 1;
      assert order'[i] == order[i0] && order'[j] == order[j0];
    }
  }

  /** Deleting a stored row keeps the table well formed and splices out its position. */
  lemma RemoveKeepsTable<R>(rows: map<int, R>, order: seq<int>, nextId: int, id: int)
    requires WellFormed(rows, order, nextId) && id in rows
    ensures WellFormed(rows - {id}, Without(order, id), nextId)
    ensures
      var s, k := InOrder(rows, order), IndexOf(order, id);
      InOrder(rows - {id}, Without(order, id)) == s[..k] + s[k + 1..]
  {
    var k := IndexOf(order, id);
    WithoutSplices(order, k);
    var order', rows' := Without(order, id), rows - {id};
    SpliceDistinct(order, k);
    assert forall i | 0 <= i < |order'| :: order'[i] in rows' by {
      forall i | 0 <= i < |order'| ensures order'[i] in rows' {
        assert order'[i] in order;
      }
    }
    var s, s' := InOrder(rows, order), InOrder(rows', order');
    forall i | 0 <= i < |s'| ensures s'[i] == (s[..k] + s[k + 1..])[i] {
      if i < k {
        assert order'[i] == order[i];
      } else {
        assert order'[i] == order[i + 1];
      }
    }
  }

}
