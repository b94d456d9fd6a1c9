/** A table of the store: rows keyed by their identity, and the next identity the
 *  store hands out (identities are never reused). Queries without an ordering
 *  return rows in ascending identity order. */
module Tables {
  import opened Wrappers
  import opened Sequences

  datatype Table<T> = Table(rows: map<int, T>, next: int)
  {
    /** Every identity in use was handed out before. */
    ghost predicate Wf() {
      next >= 1 && forall id :: id in rows ==> 1 <= id < next
    }

    /** Add: the row gets the next identity. */
    function Add(row: T): (r: Table<T>)
      ensures r.rows == rows[next := row] && r.next == next + 1
      ensures Wf() ==> r.Wf() && next !in rows
    {
      Table(rows[next := row], next + 1)
    }

    /** Remove / RemoveRange. */
    function Remove(ids: set<int>): (r: Table<T>)
      ensures r.rows == rows - ids && r.next == next
      ensures Wf() ==> r.Wf()
    {
      Table(rows - ids, next)
    }

    /** An update of the tracked row `id`. */
    function Put(id: int, row: T): (r: Table<T>)
      requires id in rows
      ensures r.rows == rows[id := row] && r.next == next
      ensures Wf() ==> r.Wf()
    {
      Table(rows[id := row], next)
    }

    /** The identities in use below `n`, ascending. */
    function IdsBelow(n: int): (r: seq<int>)
      ensures forall i :: 0 <= i < |r| ==> r[i] in rows && r[i] < n
      ensures forall id :: id in rows && 1 <= id < n ==> id in r
      ensures forall i, j :: 0 <= i < j < |r| ==> r[i] < r[j]
      decreases n
    {
      if n <= 1 then []
      else IdsBelow(n - 1) + (if n - 1 in rows then [n - 1] else [])
    }

    /** All identities in use, ascending. */
    function Ids(): (r: seq<int>)
      ensures forall i :: 0 <= i < |r| ==> r[i] in rows
      ensures Wf() ==> forall id :: id in rows ==> id in r
      ensures forall i, j :: 0 <= i < j < |r| ==> r[i] < r[j]
    {
      IdsBelow(next)
    }

    /** The identities whose rows pass `p`. */
    function Holds(p: T -> bool): int -> bool {
      id => id in rows && p(rows[id])
    }

    /** Where(p), as the identities of the matching rows in store order. */
    function IdsWhere(p: T -> bool): (r: seq<int>)
      ensures forall i :: 0 <= i < |r| ==> r[i] in rows && p(rows[r[i]])
      ensures Wf() ==> forall id :: id in rows && p(rows[id]) ==> id in r
      ensures forall i, j :: 0 <= i < j < |r| ==> r[i] < r[j]
    {
      var ids := Ids();
      var q := Holds(p);
      var r := Where(ids, q);
      assert forall id :: id in r <==> id in ids && q(id) by {
        forall id | true ensures id in r <==> id in ids && q(id) {
          WhereMembers(ids, q, id);
        }
      }
      WhereOrdered(ids, q);
      r
    }

    /** The matching rows themselves, in store order. */
    function RowsWhere(p: T -> bool): (r: seq<T>)
      ensures |r| == |IdsWhere(p)|
      ensures forall i :: 0 <= i < |r| ==> p(r[i])
    {
      var ids := IdsWhere(p);
      seq(|ids|, i requires 0 <= i < |ids| => rows[ids[i]])
    }

    /** The rows of `ids` paired with their identities. */
    function Entries(ids: seq<int>): (r: seq<(int, T)>)
      requires forall i :: 0 <= i < |ids| ==> ids[i] in rows
      ensures |r| == |ids|
      ensures forall i :: 0 <= i < |r| ==> r[i] == (ids[i], rows[ids[i]])
    {
      seq(|ids|, i requires 0 <= i < |ids| => (ids[i], rows[ids[i]]))
    }

    /** Where(p) over the rows with their identities, in store order. */
    function EntriesWhere(p: T -> bool): (r: seq<(int, T)>)
      ensures |r| == |IdsWhere(p)|
      ensures forall i :: 0 <= i < |r| ==> r[i].0 in rows && r[i].1 == rows[r[i].0] && p(r[i].1)
      ensures Wf() ==> forall id :: id in rows && p(rows[id]) ==> (id, rows[id]) in r
      ensures forall i, j :: 0 <= i < j < |r| ==> r[i].0 < r[j].0
    {
      var ids := IdsWhere(p);
      var r := Entries(ids);
      assert forall id :: id in ids ==> (id, rows[id]) in r by {
        forall id | id in ids ensures (id, rows[id]) in r {
          var i :| 0 <= i < |ids| && ids[i] == id;
          assert r[i] == (id, rows[id]);
        }
      }
      r
    }

    /** FirstOrDefault(p) without an ordering: the least identity whose row passes. */
    function FirstWhere(p: T -> bool): (r: Option<int>)
      ensures r.Some? ==> r.value in rows && p(rows[r.value])
      ensures Wf() && r.Some? ==> forall id :: id in rows && p(rows[id]) ==> r.value <= id
      ensures Wf() ==> (r.None? <==> !Any(p))
    {
      var ids := IdsWhere(p);
      if |ids| == 0 then None
      else
        assert ids[0] in rows && p(rows[ids[0]]);
        assert Wf() ==> forall id :: id in rows && p(rows[id]) ==> ids[0] <= id by {
          if Wf() {
            forall id | id in rows && p(rows[id]) ensures ids[0] <= id {
              var i :| 0 <= i < |ids| && ids[i] == id;
            }
          }
        }
        Some(ids[0])
    }

    /** Any(p) */
    predicate Any(p: T -> bool) {
      exists id :: id in rows && p(rows[id])
    }

    /** Count(p) */
    function CountWhere(p: T -> bool): (r: nat)
      ensures r == |IdsWhere(p)|
      ensures Wf() && r == 0 ==> !Any(p)
      ensures r > 0 ==> Any(p)
    {
      var ids := IdsWhere(p);
      if |ids| > 0 then
        assert ids[0] in rows && p(rows[ids[0]]);
        |ids|
      else
        |ids|
    }
  }

  /** Count() / Count(p): a weaker condition counts at least as many rows, and no
   *  condition counts more than all of them. */
  lemma CountWhereMono<T>(t: Table<T>, p: T -> bool, q: T -> bool)
    requires forall x :: p(x) ==> q(x)
    ensures t.CountWhere(p) <= t.CountWhere(q) && t.CountWhere(p) <= |t.Ids()|
  {
    WhereLengthMono(t.Ids(), t.Holds(p), t.Holds(q));
  }

  /** An empty table whose first identity is 1. */
  function Empty<T>(): (r: Table<T>)
    ensures r.Wf() && r.rows == map[] && r.next == 1
  {
    Table(map[], 1)
  }

  /** Adds the rows one after the other, as a loop of Add calls does. */
  method AddEach<T>(t: Table<T>, rs: seq<T>) returns (r: Table<T>)
    requires t.Wf()
    ensures r == AddAll(t, rs)
  {
    AddAllNone(t);
    r := t;
    var i := 0;
    while i < |rs|
      invariant 0 <= i <= |rs|
      invariant r == AddAll(t, rs[..i])
    {
      AddAllStep(t, rs[..i], rs[i]);
      assert rs[..i + 1] == rs[..i] + [rs[i]];
      r := r.Add(rs[i]);
      i := i + 1;
    }
    assert rs[..i] == rs;
  }

  /** A sequence of Add calls, one row after the other: the i-th row gets identity
   *  next + i. */
  function AddAll<T>(t: Table<T>, rs: seq<T>): (r: Table<T>)
    requires t.Wf()
    ensures r.Wf() && r.next == t.next + |rs|
    ensures forall id :: id in r.rows <==> id in t.rows || t.next <= id < t.next + |rs|
    ensures forall id :: id in t.rows ==> r.rows[id] == t.rows[id]
    ensures forall id :: t.next <= id < t.next + |rs| ==> r.rows[id] == rs[id - t.next]
  {
    Table(t.rows + map id | id in Span(t.next, |rs|) :: rs[id - t.next], t.next + |rs|)
  }

  /** The rows of AddAll split at the old next identity: below it the old rows, from it
   *  on the added ones. */
  lemma AddAllSplit<T>(t: Table<T>, rs: seq<T>)
    requires t.Wf()
    ensures var r := AddAll(t, rs);
      && (forall k :: k in r.rows && k < t.next <==> k in t.rows)
      && (forall k :: k in r.rows && k < t.next ==> r.rows[k] == t.rows[k])
      && (forall k :: k in r.rows && k >= t.next <==> t.next <= k < t.next + |rs|)
      && (forall k :: t.next <= k < t.next + |rs| ==> r.rows[k] == rs[k - t.next])
  {
  }

  /** The `n` identities from `start` on. */
  function Span(start: int, n: nat): (r: set<int>)
    ensures forall id :: id in r <==> start <= id < start + n
  {
    if n == 0 then {} else Span(start, n - 1) + {start + n - 1}
  }

  /** Adding no rows changes nothing. */
  lemma AddAllNone<T>(t: Table<T>)
    requires t.Wf()
    ensures AddAll(t, []) == t
  {
    assert AddAll(t, []).rows == t.rows;
  }

  /** Adding the rows one at a time is AddAll. */
  lemma AddAllStep<T>(t: Table<T>, rs: seq<T>, x: T)
    requires t.Wf()
    ensures AddAll(t, rs + [x]) == AddAll(t, rs).Add(x)
  {
    var rx := rs + [x];
    var a := AddAll(t, rx);
    var p := AddAll(t, rs);
    var b := p.Add(x);
    forall id | id in a.rows ensures id in b.rows && a.rows[id] == b.rows[id] {
      if id in t.rows {
      } else if id < t.next + |rs| {
        assert rx[id - t.next] == rs[id - t.next];
        assert a.rows[id] == rx[id - t.next];
        assert p.rows[id] == rs[id - t.next];
      } else {
        assert a.rows[id] == rx[|rs|];
      }
    }
    assert a.rows.Keys == b.rows.Keys;
    assert a.rows == b.rows;
  }

  /** The rows of `a` that pass `p` and whose `key` names a row of `b`, in store order. */
  function JoinEntries<A, B>(a: Table<A>, p: A -> bool, key: A -> int, b: Table<B>): (r: seq<(int, A)>)
    ensures forall i :: 0 <= i < |r| ==> r[i].0 in a.rows && r[i].1 == a.rows[r[i].0] && p(r[i].1) && key(r[i].1) in b.rows
    ensures a.Wf() ==> forall k :: k in a.rows && p(a.rows[k]) && key(a.rows[k]) in b.rows ==> (k, a.rows[k]) in r
    ensures forall i, j :: 0 <= i < j < |r| ==> r[i].0 < r[j].0
  {
    a.EntriesWhere(x => p(x) && key(x) in b.rows)
  }

  /** An inner join: for each row of `a` that passes `p`, in store order, the row of `b`
   *  its `key` names (rows naming no row of `b` drop out). */
  function Join<A, B>(a: Table<A>, p: A -> bool, key: A -> int, b: Table<B>): (r: seq<(int, B)>)
    ensures forall i :: 0 <= i < |r| ==> r[i].0 in b.rows && r[i].1 == b.rows[r[i].0]
  {
    var es := JoinEntries(a, p, key, b);
    seq(|es|, i requires 0 <= i < |es| => (key(es[i].1), b.rows[key(es[i].1)]))
  }

  /** Every joined row is named by a row of `a` that passes `p`. */
  lemma JoinSound<A, B>(a: Table<A>, p: A -> bool, key: A -> int, b: Table<B>, i: int)
    requires 0 <= i < |Join(a, p, key, b)|
    ensures exists k :: k in a.rows && p(a.rows[k]) && key(a.rows[k]) == Join(a, p, key, b)[i].0
  {
    var es := JoinEntries(a, p, key, b);
    assert es[i].0 in a.rows && p(a.rows[es[i].0]);
  }

  /** Every row of `b` named by a row of `a` that passes `p` is joined. */
  lemma JoinComplete<A, B>(a: Table<A>, p: A -> bool, key: A -> int, b: Table<B>, k: int)
    requires a.Wf() && k in a.rows && p(a.rows[k]) && key(a.rows[k]) in b.rows
    ensures exists i :: 0 <= i < |Join(a, p, key, b)| && Join(a, p, key, b)[i].0 == key(a.rows[k])
  {
    var es := JoinEntries(a, p, key, b);
    var i :| 0 <= i < |es| && es[i] == (k, a.rows[k]);
    assert Join(a, p, key, b)[i].0 == key(a.rows[k]);
  }

  /** When no two rows passing `p` name the same row of `b`, no row is joined twice. */
  lemma JoinNoDup<A, B>(a: Table<A>, p: A -> bool, key: A -> int, b: Table<B>)
    requires forall j, k :: j in a.rows && k in a.rows && j != k && p(a.rows[j]) && p(a.rows[k]) ==>
               key(a.rows[j]) != key(a.rows[k])
    ensures var r := Join(a, p, key, b);
      forall i, j :: 0 <= i < j < |r| ==> r[i].0 != r[j].0
  {
    var es := JoinEntries(a, p, key, b);
    var r := Join(a, p, key, b);
    forall i, j | 0 <= i < j < |r| ensures r[i].0 != r[j].0 {
      assert es[i].0 != es[j].0;
    }
  }

  /** Keeping the distinct entries of a list of stored rows keeps distinct identities:
   *  two entries with one identity are the same stored row. */
  lemma DistinctKeys<T(!new)>(js: seq<(int, T)>, rows: map<int, T>)
    requires forall i :: 0 <= i < |js| ==> js[i].0 in rows && js[i].1 == rows[js[i].0]
    ensures var xs := Distinct(js);
      forall i, j :: 0 <= i < j < |xs| ==> xs[i].0 != xs[j].0
  {
    var xs := Distinct(js);
    forall i, j | 0 <= i < j < |xs| ensures xs[i].0 != xs[j].0 {
      assert xs[i] in js && xs[j] in js;
    }
  }

  lemma WhereOrdered(s: seq<int>, p: int -> bool)
    requires forall i, j :: 0 <= i < j < |s| ==> s[i] < s[j]
    ensures forall i, j :: 0 <= i < j < |Where(s, p)| ==> Where(s, p)[i] < Where(s, p)[j]
    decreases |s|
  {
    if |s| > 0 {
      var init := s[..|s| - 1];
      WhereOrdered(init, p);
      var w := Where(init, p);
      forall i | 0 <= i < |w| ensures w[i] < s[|s| - 1] {
        WhereMembers(init, p, w[i]);
        var k :| 0 <= k < |init| && init[k] == w[i];
      }
    }
  }
}
