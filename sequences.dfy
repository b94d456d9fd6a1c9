/** The LINQ operators the services compose: Where, Select, Skip, Take, Distinct and the
 *  stable OrderBy, on finite sequences. */
module Sequences {

  /** Where: the elements satisfying `p`, in their original order. */
  function Where<T>(s: seq<T>, p: T -> bool): (r: seq<T>)
    ensures |r| <= |s|
    ensures forall i :: 0 <= i < |r| ==> p(r[i])
    decreases |s|
  {
    if |s| == 0 then []
    else
      assert s == s[..|s| - 1] + [s[|s| - 1]];
      Where(s[..|s| - 1], p) + (if p(s[|s| - 1]) then [s[|s| - 1]] else [])
  }

  lemma {:induction false} WhereMembers<T>(s: seq<T>, p: T -> bool, x: T)
    ensures x in Where(s, p) <==> x in s && p(x)
    decreases |s|
  {
    if |s| > 0 {
      WhereMembers(s[..|s| - 1], p, x);
      assert s == s[..|s| - 1] + [s[|s| - 1]];
    }
  }

  /** A weaker condition keeps at least as many elements. */
  lemma {:induction false} WhereLengthMono<T>(s: seq<T>, p: T -> bool, q: T -> bool)
    requires forall x :: p(x) ==> q(x)
    ensures |Where(s, p)| <= |Where(s, q)|
    decreases |s|
  {
    if |s| > 0 {
      WhereLengthMono(s[..|s| - 1], p, q);
    }
  }

  lemma WhereAppend<T>(s: seq<T>, t: seq<T>, p: T -> bool)
    ensures Where(s + t, p) == Where(s, p) + Where(t, p)
    decreases |t|
  {
    if |t| > 0 {
      assert (s + t)[..|s + t| - 1] == s + t[..|t| - 1];
      assert (s + t)[|s + t| - 1] == t[|t| - 1];
      WhereAppend(s, t[..|t| - 1], p);
    } else {
      assert s + t == s;
    }
  }

  /** The elements of `s` that belong to `keep`, in their original order. */
  function Among<T(==, !new)>(s: seq<T>, keep: set<T>): (r: seq<T>)
    ensures |r| <= |s|
    ensures forall x :: x in r <==> x in s && x in keep
    ensures NoDup(s) ==> NoDup(r)
    decreases |s|
  {
    if |s| == 0 then []
    else
      var init := s[..|s| - 1];
      var x := s[|s| - 1];
      assert s == init + [x];
      var p := Among(init, keep);
      assert NoDup(s) ==> NoDup(init) && x !in init;
      if x in keep then p + [x] else p
  }

  /** Nothing of `s` in `keep`: Among is empty. */
  lemma {:induction false} AmongNone<T(!new)>(s: seq<T>, keep: set<T>)
    requires forall i :: 0 <= i < |s| ==> s[i] !in keep
    ensures Among(s, keep) == []
    decreases |s|
  {
    if |s| > 0 {
      AmongNone(s[..|s| - 1], keep);
    }
  }

  /** Except(drop): the elements of `s` outside `drop`, in their original order. */
  function Except<T(==, !new)>(s: seq<T>, drop: set<T>): (r: seq<T>)
    ensures |r| <= |s|
    ensures forall x :: x in r <==> x in s && x !in drop
    decreases |s|
  {
    if |s| == 0 then []
    else
      var init := s[..|s| - 1];
      var x := s[|s| - 1];
      assert s == init + [x];
      var p := Except(init, drop);
      if x !in drop then p + [x] else p
  }

  /** The set of the elements of `s`. */
  function Elements<T(!new)>(s: seq<T>): (r: set<T>)
    ensures forall x :: x in r <==> x in s
  {
    set x | x in s
  }

  /** Count(p): the number of elements satisfying `p`. */
  function Count<T>(s: seq<T>, p: T -> bool): (r: nat)
    ensures r <= |s|
  {
    |Where(s, p)|
  }

  /** Select */
  function Select<A, B>(s: seq<A>, f: A -> B): (r: seq<B>)
    ensures |r| == |s| && forall i :: 0 <= i < |s| ==> r[i] == f(s[i])
  {
    seq(|s|, i requires 0 <= i < |s| => f(s[i]))
  }

  /** The C# LINQ Skip: a count of zero or less skips nothing, a count past the end
   *  skips everything. */
  function Skip<T>(s: seq<T>, n: int): (r: seq<T>)
    ensures n <= 0 ==> r == s
    ensures 0 <= n <= |s| ==> r == s[n..]
    ensures |s| <= n ==> r == []
  {
    if n <= 0 then s else if n >= |s| then [] else s[n..]
  }

  /** The C# LINQ Take: a count of zero or less takes nothing, a count past the end
   *  takes everything. */
  function Take<T>(s: seq<T>, n: int): (r: seq<T>)
    ensures n <= 0 ==> r == []
    ensures 0 <= n <= |s| ==> r == s[..n]
    ensures |s| <= n ==> r == s
  {
    if n <= 0 then [] else if n >= |s| then s else s[..n]
  }

  predicate NoDup<T(==)>(s: seq<T>) {
    forall i, j :: 0 <= i < j < |s| ==> s[i] != s[j]
  }

  /** Distinct: every element once, at the position of its first occurrence. */
  function Distinct<T(==, !new)>(s: seq<T>): (r: seq<T>)
    ensures NoDup(r)
    ensures forall x :: x in r <==> x in s
    ensures |r| <= |s|
    decreases |s|
  {
    if |s| == 0 then []
    else
      var d := Distinct(s[..|s| - 1]);
      var x := s[|s| - 1];
      assert forall i :: 0 <= i < |s| - 1 ==> s[i] == s[..|s| - 1][i];
      if x in d then d else d + [x]
  }

  /** A sequence without repetitions is its own Distinct. */
  lemma {:induction false} DistinctOfNoDup<T(!new)>(s: seq<T>)
    requires NoDup(s)
    ensures Distinct(s) == s
    decreases |s|
  {
    if |s| > 0 {
      var p := s[..|s| - 1];
      assert NoDup(p);
      DistinctOfNoDup(p);
      assert s[|s| - 1] !in p;
      assert s == p + [s[|s| - 1]];
    }
  }

  ghost predicate Total<T(!new)>(le: (T, T) -> bool) {
    forall a, b :: le(a, b) || le(b, a)
  }

  ghost predicate Transitive<T(!new)>(le: (T, T) -> bool) {
    forall a, b, c :: le(a, b) && le(b, c) ==> le(a, c)
  }

  ghost predicate Sorted<T>(s: seq<T>, le: (T, T) -> bool) {
    forall i, j :: 0 <= i < j < |s| ==> le(s[i], s[j])
  }

  lemma SortedSlice<T>(s: seq<T>, le: (T, T) -> bool, i: int, j: int)
    requires Sorted(s, le) && 0 <= i <= j <= |s|
    ensures Sorted(s[i..j], le)
  {
    forall a, b | 0 <= a < b < j - i ensures le(s[i..j][a], s[i..j][b]) {
      assert s[i..j][a] == s[i + a] && s[i..j][b] == s[i + b];
    }
  }

  /** `x` placed before the first element it is not after. */
  function Insert<T>(x: T, s: seq<T>, le: (T, T) -> bool): (r: seq<T>)
    ensures |r| == |s| + 1
    ensures multiset(r) == multiset(s) + multiset{x}
    decreases |s|
  {
    if |s| == 0 then [x]
    else if le(x, s[0]) then [x] + s
    else
      assert s == [s[0]] + s[1..];
      [s[0]] + Insert(x, s[1..], le)
  }

  /** OrderBy with the comparison `le` (a stable insertion sort). */
  function SortBy<T>(s: seq<T>, le: (T, T) -> bool): (r: seq<T>)
    ensures |r| == |s|
    ensures multiset(r) == multiset(s)
    decreases |s|
  {
    if |s| == 0 then []
    else
      assert s == [s[0]] + s[1..];
      Insert(s[0], SortBy(s[1..], le), le)
  }

  lemma {:induction false} InsertSorted<T(!new)>(x: T, s: seq<T>, le: (T, T) -> bool)
    requires Total(le) && Transitive(le) && Sorted(s, le)
    ensures Sorted(Insert(x, s, le), le)
    decreases |s|
  {
    if |s| > 0 && !le(x, s[0]) {
      var t := Insert(x, s[1..], le);
      InsertSorted(x, s[1..], le);
      forall j | 0 <= j < |t| ensures le(s[0], t[j]) {
        assert t[j] in multiset(t);
        assert t[j] == x || t[j] in multiset(s[1..]);
        if t[j] != x {
          var k :| 0 <= k < |s[1..]| && s[1..][k] == t[j];
          assert s[k + 1] == t[j];
        }
      }
      var r := [s[0]] + t;
      forall i, j | 0 <= i < j < |r| ensures le(r[i], r[j]) {
        if i > 0 {
          assert r[i] == t[i - 1] && r[j] == t[j - 1];
        } else {
          assert r[j] == t[j - 1];
        }
      }
    }
  }

  /** Under a total, transitive comparison the result of SortBy is ordered. */
  lemma {:induction false} SortBySorted<T(!new)>(s: seq<T>, le: (T, T) -> bool)
    requires Total(le) && Transitive(le)
    ensures Sorted(SortBy(s, le), le)
    decreases |s|
  {
    if |s| > 0 {
      SortBySorted(s[1..], le);
      InsertSorted(s[0], SortBy(s[1..], le), le);
    }
  }

  function Min(a: int, b: int): int {
    if a <= b then a else b
  }

  /** OrderBy(le).Take(n): ordered, drawn from the input, n items (all of them when
   *  there are fewer), and no item left out comes before an item kept. */
  lemma TopSorted<T(!new)>(s: seq<T>, le: (T, T) -> bool, n: int)
    requires Total(le) && Transitive(le)
    ensures Sorted(Take(SortBy(s, le), n), le)
    ensures forall x :: x in Take(SortBy(s, le), n) ==> x in s
    ensures |Take(SortBy(s, le), n)| == if n <= 0 then 0 else Min(n, |s|)
    ensures forall x, y :: x in Take(SortBy(s, le), n) && y in multiset(s) - multiset(Take(SortBy(s, le), n))
              ==> le(x, y)
  {
    TopFirst(s, le, n);
    var t := SortBy(s, le);
    SortBySorted(s, le);
    if 0 <= n <= |t| {
      SortedSlice(t, le, 0, n);
      assert t[0..n] == t[..n];
    }
    forall x | x in Take(t, n) ensures x in s {
      assert x in t;
      assert x in multiset(t);
    }
  }

  /** No item OrderBy(le).Take(n) leaves out comes before an item it keeps. */
  lemma TopFirst<T(!new)>(s: seq<T>, le: (T, T) -> bool, n: int)
    requires Total(le) && Transitive(le)
    ensures forall x, y :: x in Take(SortBy(s, le), n) && y in multiset(s) - multiset(Take(SortBy(s, le), n))
              ==> le(x, y)
  {
    var t := SortBy(s, le);
    if 0 < n < |t| {
      SortBySorted(s, le);
      var a, b := t[..n], t[n..];
      assert t == a + b;
      assert multiset(t) == multiset(a) + multiset(b);
      assert multiset(s) - multiset(a) == multiset(b);
      forall x, y | x in a && y in multiset(b) ensures le(x, y) {
        var i :| 0 <= i < |a| && a[i] == x;
        assert y in b;
        var j :| 0 <= j < |b| && b[j] == y;
        assert t[i] == x && t[n + j] == y;
      }
    } else if n >= |t| {
      assert multiset(s) - multiset(t) == multiset{};
    }
  }
}
