/** Python's ordering of tuples of an integer and texts, and its stable `sorted`. */
module Ordering {

  /** A sort key: a leading integer (0 when the source's tuple has none) and the texts after it. */
  datatype Key = Key(rank: int, texts: seq<string>)

  predicate TextLeq(a: string, b: string) {
    a == [] || (b != [] && (a[0] < b[0] || (a[0] == b[0] && TextLeq(a[1..], b[1..]))))
  }

  predicate TextsLeq(a: seq<string>, b: seq<string>) {
    a == [] ||
    (b != [] && if a[0] == b[0] then TextsLeq(a[1..], b[1..]) else TextLeq(a[0], b[0]))
  }

  predicate Leq(a: Key, b: Key) {
    a.rank < b.rank || (a.rank == b.rank && TextsLeq(a.texts, b.texts))
  }

  lemma TextOrder(a: string, b: string, c: string)
    ensures TextLeq(a, b) || TextLeq(b, a)
    ensures TextLeq(a, b) && TextLeq(b, a) ==> a == b
    ensures TextLeq(a, b) && TextLeq(b, c) ==> TextLeq(a, c)
    decreases |a| + |b| + |c|
  {
    if a != [] && b != [] {
      TextOrder(a[1..], b[1..], if c == [] then [] else c[1..]);
      if a[0] == b[0] && a[1..] == b[1..] { assert a == [a[0]] + a[1..] == b; }
    }
  }

  lemma TextsOrder(a: seq<string>, b: seq<string>, c: seq<string>)
    ensures TextsLeq(a, b) || TextsLeq(b, a)
    ensures TextsLeq(a, b) && TextsLeq(b, a) ==> a == b
    ensures TextsLeq(a, b) && TextsLeq(b, c) ==> TextsLeq(a, c)
    decreases |a| + |b| + |c|
  {
    if a != [] && b != [] {
      TextsOrder(a[1..], b[1..], if c == [] then [] else c[1..]);
      TextOrder(a[0], b[0], if c == [] then [] else c[0]);
      if a[0] == b[0] && a[1..] == b[1..] { assert a == [a[0]] + a[1..] == b; }
    }
  }

  /** The order is total, antisymmetric and transitive. */
  lemma Order(a: Key, b: Key, c: Key)
    ensures Leq(a, b) || Leq(b, a)
    ensures Leq(a, b) && Leq(b, a) ==> a == b
    ensures Leq(a, b) && Leq(b, c) ==> Leq(a, c)
  {
    TextsOrder(a.texts, b.texts, c.texts);
  }

  function Last<T>(s: seq<T>): T
    requires s != []
  {
    s[|s| - 1]
  }

  function Init<T>(s: seq<T>): seq<T>
    requires s != []
  {
    s[..|s| - 1]
  }

  lemma InitLast<T>(s: seq<T>)
    requires s != []
    ensures s == Init(s) + [Last(s)]
    ensures multiset(s) == multiset(Init(s)) + multiset{Last(s)}
  {
    assert s == Init(s) + [Last(s)];
  }

  /** Places `x` after every element whose key is not greater than its own. */
  function InsertLast<T>(s: seq<T>, x: T, key: T -> Key): seq<T> {
    if s == [] then [x]
    else if Leq(key(Last(s)), key(x)) then s + [x]
    else InsertLast(Init(s), x, key) + [Last(s)]
  }

  /** Python's `sorted(s, key=key)`. */
  function SortBy<T>(s: seq<T>, key: T -> Key): seq<T> {
    if s == [] then [] else InsertLast(SortBy(Init(s), key), Last(s), key)
  }

  ghost predicate Sorted<T>(s: seq<T>, key: T -> Key) {
    forall i, j :: 0 <= i < j < |s| ==> Leq(key(s[i]), key(s[j]))
  }

  /** The elements carrying key `k`, in order. */
  function With<T>(s: seq<T>, k: Key, key: T -> Key): seq<T> {
    if s == [] then []
    else With(Init(s), k, key) + (if key(Last(s)) == k then [Last(s)] else [])
  }

  /** What makes `r` the stable sort of `s`: same elements, sorted, equal keys in input order. */
  ghost predicate StablySorts<T(!new)>(r: seq<T>, s: seq<T>, key: T -> Key) {
    Sorted(r, key) && multiset(r) == multiset(s) && forall k :: With(r, k, key) == With(s, k, key)
  }

  lemma {:induction false} InsertLastElements<T>(s: seq<T>, x: T, key: T -> Key)
    ensures multiset(InsertLast(s, x, key)) == multiset(s) + multiset{x}
    ensures |InsertLast(s, x, key)| == |s| + 1
  {
    if s != [] && !Leq(key(Last(s)), key(x)) {
      InsertLastElements(Init(s), x, key);
      InitLast(s);
    }
  }

  lemma {:induction false} InsertLastSorted<T>(s: seq<T>, x: T, key: T -> Key)
    requires Sorted(s, key)
    ensures Sorted(InsertLast(s, x, key), key)
  {
    if s != [] {
      var last := key(Last(s));
      if Leq(last, key(x)) {
        forall i | 0 <= i < |s| ensures Leq(key(s[i]), key(x)) {
          Order(key(s[i]), last, key(x));
          Order(last, last, last);
        }
      } else {
        var t := InsertLast(Init(s), x, key);
        InsertLastSorted(Init(s), x, key);
        InsertLastElements(Init(s), x, key);
        Order(last, key(x), last);
        forall i | 0 <= i < |t| ensures Leq(key(t[i]), last) {
          assert t[i] in multiset(t);
          if t[i] != x {
            var j :| 0 <= j < |Init(s)| && Init(s)[j] == t[i];
            assert s[j] == t[i];
          }
        }
      }
    }
  }

  lemma {:induction false} InsertLastStable<T>(s: seq<T>, x: T, key: T -> Key, k: Key)
    ensures With(InsertLast(s, x, key), k, key) == With(s, k, key) + (if key(x) == k then [x] else [])
  {
    if s == [] {
      assert Init([x]) == [];
    } else if Leq(key(Last(s)), key(x)) {
      assert Init(s + [x]) == s;
    } else {
      var t := InsertLast(Init(s), x, key);
      InsertLastStable(Init(s), x, key, k);
      assert Init(t + [Last(s)]) == t;
      Order(key(x), key(x), key(x));
    }
  }

  lemma {:induction false} SortBySpec<T>(s: seq<T>, key: T -> Key, k: Key)
    ensures var r := SortBy(s, key);
            Sorted(r, key) && multiset(r) == multiset(s) && |r| == |s| && With(r, k, key) == With(s, k, key)
  {
    if s != [] {
      InitLast(s);
      SortBySpec(Init(s), key, k);
      InsertLastElements(SortBy(Init(s), key), Last(s), key);
      InsertLastSorted(SortBy(Init(s), key), Last(s), key);
      InsertLastStable(SortBy(Init(s), key), Last(s), key, k);
    }
  }

  /** `sorted` is a stable sort, and the only one: sorted, same elements and ties in input order
      leave no freedom. */
  lemma StableSortUnique<T(!new)>(r: seq<T>, s: seq<T>, key: T -> Key)
    ensures StablySorts(r, s, key) <==> r == SortBy(s, key)
  {
    SortBySpec(s, key, Key(0, []));
    forall k ensures With(SortBy(s, key), k, key) == With(s, k, key) { SortBySpec(s, key, k); }
    if StablySorts(r, s, key) {
      SameClassesSameList(r, SortBy(s, key), key);
    }
  }

  lemma {:induction false} SameClassesSameList<T(!new)>(r: seq<T>, t: seq<T>, key: T -> Key)
    requires Sorted(r, key) && Sorted(t, key)
    requires forall k :: With(r, k, key) == With(t, k, key)
    ensures r == t
  {
    if r == [] {
      if t != [] { LastCarriesItsKey(t, key); }
    } else if t == [] {
      LastCarriesItsKey(r, key);
    } else {
      LastKeyBound(r, t, key);
      LastKeyBound(t, r, key);
      Order(key(Last(r)), key(Last(t)), key(Last(r)));
      var k := key(Last(r));
      assert With(r, k, key) == With(t, k, key);
      assert Last(With(r, k, key)) == Last(r) && Last(With(t, k, key)) == Last(t);
      forall k' ensures With(Init(r), k', key) == With(Init(t), k', key) {
        assert With(r, k', key) == With(t, k', key);
        DropLast(r, k', key);
        DropLast(t, k', key);
      }
      SameClassesSameList(Init(r), Init(t), key);
      InitLast(r); InitLast(t);
    }
  }

  lemma LastCarriesItsKey<T>(s: seq<T>, key: T -> Key)
    requires s != []
    ensures With(s, key(Last(s)), key) != []
  {
  }

  lemma DropLast<T>(s: seq<T>, k: Key, key: T -> Key)
    requires s != []
    ensures With(Init(s), k, key) == if key(Last(s)) == k then Init(With(s, k, key)) else With(s, k, key)
  {
    assert Init(With(Init(s), k, key) + [Last(s)]) == With(Init(s), k, key);
  }

  lemma LastKeyBound<T>(r: seq<T>, t: seq<T>, key: T -> Key)
    requires r != [] && t != [] && Sorted(t, key)
    requires With(r, key(Last(r)), key) == With(t, key(Last(r)), key)
    ensures Leq(key(Last(r)), key(Last(t)))
  {
    var k := key(Last(r));
    WithMember(t, k, key, Last(r));
    var i :| 0 <= i < |t| && t[i] == Last(r);
    Order(k, k, k);
  }

  lemma WithMember<T>(s: seq<T>, k: Key, key: T -> Key, x: T)
    requires x in With(s, k, key)
    ensures x in s && key(x) == k
  {
  }

  ghost predicate InjectiveOn<T>(s: seq<T>, key: T -> Key) {
    forall x, y :: x in s && y in s && key(x) == key(y) ==> x == y
  }

  lemma SameLast<T>(r: seq<T>, t: seq<T>, key: T -> Key)
    requires r != [] && t != [] && Sorted(r, key) && Sorted(t, key) && multiset(r) == multiset(t)
    requires InjectiveOn(r, key)
    ensures Last(r) == Last(t)
  {
    hide Leq, Sorted;
    assert Last(t) in multiset(r) && Last(r) in multiset(t);
    LastIsGreatest(r, key, Last(t));
    LastIsGreatest(t, key, Last(r));
    Order(key(Last(r)), key(Last(t)), key(Last(r)));
  }

  /** With injective keys the sorted order depends only on the elements. */
  lemma SortedIsUnique<T>(r: seq<T>, t: seq<T>, key: T -> Key)
    requires Sorted(r, key) && Sorted(t, key) && multiset(r) == multiset(t)
    requires InjectiveOn(r, key)
    ensures r == t
  {
    hide Leq, InjectiveOn;
    assert |multiset(r)| == |r| && |multiset(t)| == |t|;
    if r != [] {
      SameLast(r, t, key);
      InitLast(r);
      InitLast(t);
      assert multiset(Init(r)) == multiset(r) - multiset{Last(r)} == multiset(Init(t));
      InjectiveInit(r, key);
      SortedIsUnique(Init(r), Init(t), key);
    }
  }

  lemma InjectiveInit<T>(r: seq<T>, key: T -> Key)
    requires r != [] && InjectiveOn(r, key)
    ensures InjectiveOn(Init(r), key)
  {
    InitLast(r);
  }

  lemma LastIsGreatest<T>(s: seq<T>, key: T -> Key, x: T)
    requires Sorted(s, key) && x in s
    ensures Leq(key(x), key(Last(s)))
  {
    Order(key(x), key(x), key(x));
  }

  lemma SortOne<T>(x: T, key: T -> Key)
    ensures SortBy([x], key) == [x]
  {
    assert Init([x]) == [];
  }

  /** Sorting a sorted list changes nothing. */
  lemma {:induction false} SortOfSorted<T>(s: seq<T>, key: T -> Key)
    requires Sorted(s, key)
    ensures SortBy(s, key) == s
  {
    if s != [] {
      InitLast(s);
      SortOfSorted(Init(s), key);
      if Init(s) != [] { assert Last(Init(s)) == s[|s| - 2]; }
    }
  }

  // ---- lists whose elements differ in some attribute ----

  ghost predicate Distinct<T, K>(s: seq<T>, f: T -> K) {
    forall i, j :: 0 <= i < j < |s| ==> f(s[i]) != f(s[j])
  }

  lemma DistinctCount<T, K>(s: seq<T>, f: T -> K, x: T)
    requires Distinct(s, f)
    ensures multiset(s)[x] <= 1
  {
    if s != [] {
      DistinctCount(Init(s), f, x);
      InitLast(s);
      assert forall i :: 0 <= i < |Init(s)| ==> Init(s)[i] == s[i] && f(s[i]) != f(s[|s| - 1]);
    }
  }

  lemma TwiceCounted<T>(s: seq<T>, i: nat, j: nat)
    requires i < j < |s| && s[i] == s[j]
    ensures multiset(s)[s[i]] >= 2
  {
    assert s == s[..j] + [s[j]] + s[j + 1..];
    assert s[..j][i] == s[i];
  }

  lemma DistinctPermute<T, K>(a: seq<T>, b: seq<T>, f: T -> K)
    requires Distinct(a, f) && multiset(a) == multiset(b)
    ensures Distinct(b, f)
  {
    forall i, j | 0 <= i < j < |b| ensures f(b[i]) != f(b[j]) {
      assert b[i] in multiset(a) && b[j] in multiset(a);
      var p :| 0 <= p < |a| && a[p] == b[i];
      var q :| 0 <= q < |a| && a[q] == b[j];
      if p == q {
        DistinctCount(a, f, b[i]);
        TwiceCounted(b, i, j);
      }
    }
  }

  /** Elements of a list that agree on an attribute distinct in it are one element. */
  lemma DistinctDetermines<T, K>(s: seq<T>, f: T -> K, x: T, y: T)
    requires Distinct(s, f) && x in s && y in s && f(x) == f(y)
    ensures x == y
  {
    var i :| 0 <= i < |s| && s[i] == x;
    var j :| 0 <= j < |s| && s[j] == y;
  }
}
