/** The few `Array.prototype` operations the colour search is built from,
    on immutable sequences: `filter` and `map` (ECMA-262, sections 23.1.3.8
    and 23.1.3.21), `slice(0, end)` (section 23.1.3.28) and the stable `sort`
    that section 23.1.3.30 requires, here on a real-valued key. */
module JsArray {

  function Min(a: int, b: int): int { if a <= b then a else b }

  function Max(a: int, b: int): int { if a <= b then b else a }

  // ---------------------------------------------------------------------
  // filter

  /** `s.filter(p)`: the elements that satisfy `p`, in their order in `s`. */
  function Filter<T(!new)>(p: T -> bool, s: seq<T>): (r: seq<T>)
    ensures |r| <= |s|
    ensures forall x :: x in r <==> x in s && p(x)
    ensures forall x :: multiset(r)[x] == if p(x) then multiset(s)[x] else 0
  {
    if s == [] then []
    else
      var rest := Filter(p, s[1..]);
      assert s == [s[0]] + s[1..];
      if p(s[0]) then [s[0]] + rest else rest
  }

  /** Filtering commutes with concatenation: no element is moved past
      another, so the kept elements stay in their original order. */
  lemma {:induction false} FilterAppend<T(!new)>(p: T -> bool, a: seq<T>, b: seq<T>)
    ensures Filter(p, a + b) == Filter(p, a) + Filter(p, b)
    decreases |a|
  {
    if a == [] {
      assert a + b == b;
    } else {
      assert (a + b)[1..] == a[1..] + b;
      FilterAppend(p, a[1..], b);
    }
  }

  /** Filtering a non-empty sequence: its head, when kept, comes first. */
  lemma FilterHead<T(!new)>(p: T -> bool, s: seq<T>)
    requires s != []
    ensures Filter(p, s) == (if p(s[0]) then [s[0]] else []) + Filter(p, s[1..])
  {
  }

  /** Filtering a prefix gives a prefix of the filtered sequence. */
  lemma FilterPrefix<T(!new)>(p: T -> bool, s: seq<T>, k: nat)
    requires k <= |s|
    ensures var f := Filter(p, s[..k]);
      |f| <= |Filter(p, s)| && f == Filter(p, s)[..|f|]
  {
    assert s == s[..k] + s[k..];
    FilterAppend(p, s[..k], s[k..]);
  }

  // ---------------------------------------------------------------------
  // map

  /** `s.map(f)`: `f` applied to every element, position by position. */
  function Map<T, U>(f: T -> U, s: seq<T>): (r: seq<U>)
    ensures |r| == |s|
    ensures forall i :: 0 <= i < |s| ==> r[i] == f(s[i])
  {
    if s == [] then [] else [f(s[0])] + Map(f, s[1..])
  }

  // ---------------------------------------------------------------------
  // slice

  /** `s.slice(0, end)` for an integer `end`: a negative `end` counts from
      the back, and the end is clamped to the bounds of `s`. */
  function Slice<T>(s: seq<T>, end: int): (r: seq<T>)
    ensures |r| <= |s| && r == s[..|r|]
    ensures 0 <= end ==> |r| == Min(end, |s|)
    ensures end < 0 ==> |r| == Max(|s| + end, 0)
  {
    var last := if end < 0 then Max(|s| + end, 0) else Min(end, |s|);
    s[..last]
  }

  // ---------------------------------------------------------------------
  // stable sort on a real-valued key

  /** Every element's key is at most the key of every later element. */
  ghost predicate SortedBy<T>(s: seq<T>, key: T -> real) {
    forall i, j :: 0 <= i < j < |s| ==> key(s[i]) <= key(s[j])
  }

  /** The predicate "has key `k`": filtering by it gives one tie class. */
  function HasKey<T>(key: T -> real, k: real): T -> bool {
    x => key(x) == k
  }

  /** Puts `x` in front of the first element whose key is not smaller, so
      that `x` precedes every element of `s` it ties with. */
  function Insert<T>(x: T, s: seq<T>, key: T -> real): (r: seq<T>)
    ensures multiset(r) == multiset(s) + multiset{x}
  {
    if s == [] || key(x) <= key(s[0]) then [x] + s
    else
      assert s == [s[0]] + s[1..];
      [s[0]] + Insert(x, s[1..], key)
  }

  /** Inserting into a sorted sequence keeps it sorted. */
  lemma {:induction false} InsertSorted<T>(x: T, s: seq<T>, key: T -> real)
    requires SortedBy(s, key)
    ensures SortedBy(Insert(x, s, key), key)
    decreases |s|
  {
    if s != [] && key(s[0]) < key(x) {
      var rest := Insert(x, s[1..], key);
      InsertSorted(x, s[1..], key);
      forall j | 0 <= j < |rest| ensures key(s[0]) <= key(rest[j]) {
        assert rest[j] in multiset(rest);
        if rest[j] != x {
          assert rest[j] in multiset(s[1..]);
          var i :| 0 <= i < |s[1..]| && s[1..][i] == rest[j];
          assert s[i + 1] == rest[j];
        }
      }
    }
  }

  /** The comparison sort `s.sort((a, b) => key(a) - key(b))`, written as an
      insertion sort: ascending by key, a permutation of `s`. */
  function SortBy<T>(s: seq<T>, key: T -> real): (r: seq<T>)
    ensures multiset(r) == multiset(s)
    ensures SortedBy(r, key)
  {
    if s == [] then []
    else
      assert s == [s[0]] + s[1..];
      InsertSorted(s[0], SortBy(s[1..], key), key);
      Insert(s[0], SortBy(s[1..], key), key)
  }

  /** Inserting `x` adds it at the front of its own tie class and leaves
      every other tie class as it was. */
  lemma {:induction false} InsertStable<T(!new)>(x: T, s: seq<T>, key: T -> real, k: real)
    ensures Filter(HasKey(key, k), Insert(x, s, key))
         == (if key(x) == k then [x] else []) + Filter(HasKey(key, k), s)
    decreases |s|
  {
    var p := HasKey(key, k);
    if s == [] || key(x) <= key(s[0]) {
      assert ([x] + s)[1..] == s;
    } else {
      InsertStable(x, s[1..], key, k);
      var r := [s[0]] + Insert(x, s[1..], key);
      assert r[1..] == Insert(x, s[1..], key);
    }
  }

  /** Stability: every tie class appears in the sorted sequence in the same
      order as in the input. */
  lemma {:induction false} SortByStable<T(!new)>(s: seq<T>, key: T -> real, k: real)
    ensures Filter(HasKey(key, k), SortBy(s, key)) == Filter(HasKey(key, k), s)
    decreases |s|
  {
    if s != [] {
      InsertStable(s[0], SortBy(s[1..], key), key, k);
      SortByStable(s[1..], key, k);
    }
  }

  /** A sorted sequence starts with an element of least key. */
  lemma SortedFirstIsLeast<T>(s: seq<T>, key: T -> real, x: T)
    requires SortedBy(s, key) && x in s
    ensures key(s[0]) <= key(x)
  {
  }

  /** In a sorted sequence nothing in a prefix has a larger key than anything
      after it. */
  lemma SortedSplit<T>(s: seq<T>, key: T -> real, k: nat)
    requires SortedBy(s, key) && k <= |s|
    ensures forall x, y :: x in s[..k] && y in s[k..] ==> key(x) <= key(y)
  {
  }

  /** Sorting and keeping a prefix selects the elements of least key: the
      prefix is drawn from `s`, and nothing left out has a smaller key than
      anything kept. */
  lemma SortedPrefixOptimal<T>(s: seq<T>, key: T -> real, end: int)
    ensures var r := Slice(SortBy(s, key), end);
      && multiset(r) <= multiset(s)
      && forall x, y :: x in r && y in multiset(s) - multiset(r) ==> key(x) <= key(y)
  {
    var sorted := SortBy(s, key);
    var r := Slice(sorted, end);
    var rest := sorted[|r|..];
    assert sorted == r + rest;
    assert multiset(sorted) == multiset(r) + multiset(rest);
    assert multiset(s) - multiset(r) == multiset(rest);
    SortedSplit(sorted, key, |r|);
    assert r == sorted[..|r|];
  }

  /** Two sorted sequences with the same tie classes are either both empty
      or both non-empty. */
  lemma SameClassesSameLength<T(!new)>(a: seq<T>, b: seq<T>, key: T -> real)
    requires forall k :: Filter(HasKey(key, k), a) == Filter(HasKey(key, k), b)
    ensures a == [] <==> b == []
  {
    if a != [] {
      assert a[0] in Filter(HasKey(key, key(a[0])), a);
    }
    if b != [] {
      assert b[0] in Filter(HasKey(key, key(b[0])), b);
    }
  }

  /** Two non-empty sorted sequences with the same tie classes start with
      the same element: the first of the class of least key. */
  lemma SameClassesSameHead<T(!new)>(a: seq<T>, b: seq<T>, key: T -> real)
    requires SortedBy(a, key) && SortedBy(b, key) && a != [] && b != []
    requires forall k :: Filter(HasKey(key, k), a) == Filter(HasKey(key, k), b)
    ensures a[0] == b[0]
  {
    var m := key(a[0]);
    assert a[0] in Filter(HasKey(key, m), b);
    SortedFirstIsLeast(b, key, a[0]);
    assert b[0] in Filter(HasKey(key, key(b[0])), a);
    SortedFirstIsLeast(a, key, b[0]);
    FilterHead(HasKey(key, m), a);
    FilterHead(HasKey(key, m), b);
  }

  /** Dropping the same head from both keeps the tie classes equal. */
  lemma SameClassesTail<T(!new)>(a: seq<T>, b: seq<T>, key: T -> real)
    requires a != [] && b != [] && a[0] == b[0]
    requires forall k :: Filter(HasKey(key, k), a) == Filter(HasKey(key, k), b)
    ensures forall k :: Filter(HasKey(key, k), a[1..]) == Filter(HasKey(key, k), b[1..])
  {
    forall k
      ensures Filter(HasKey(key, k), a[1..]) == Filter(HasKey(key, k), b[1..])
    {
      var p := HasKey(key, k);
      FilterHead(p, a);
      FilterHead(p, b);
      if p(a[0]) {
        assert Filter(p, a[1..]) == Filter(p, a)[1..];
        assert Filter(p, b[1..]) == Filter(p, b)[1..];
      } else {
        assert Filter(p, a[1..]) == Filter(p, a);
        assert Filter(p, b[1..]) == Filter(p, b);
      }
    }
  }

  /** Sorted by key with the same tie classes determines a sequence: there is
      exactly one stable sort of any input. */
  lemma {:induction false} StableSortUnique<T(!new)>(a: seq<T>, b: seq<T>, key: T -> real)
    requires SortedBy(a, key) && SortedBy(b, key)
    requires forall k :: Filter(HasKey(key, k), a) == Filter(HasKey(key, k), b)
    ensures a == b
    decreases |a|
  {
    SameClassesSameLength(a, b, key);
    if a != [] {
      SameClassesSameHead(a, b, key);
      SameClassesTail(a, b, key);
      StableSortUnique(a[1..], b[1..], key);
      assert a == [a[0]] + a[1..] && b == [b[0]] + b[1..];
    }
  }

  /** `SortBy` is the stable sort: any sorted sequence whose tie classes are
      those of `s` is `SortBy(s, key)`. */
  lemma SortByIsTheStableSort<T(!new)>(s: seq<T>, t: seq<T>, key: T -> real)
    requires SortedBy(t, key)
    requires forall k :: Filter(HasKey(key, k), t) == Filter(HasKey(key, k), s)
    ensures t == SortBy(s, key)
  {
    forall k ensures Filter(HasKey(key, k), t) == Filter(HasKey(key, k), SortBy(s, key)) {
      SortByStable(s, key, k);
    }
    StableSortUnique(t, SortBy(s, key), key);
  }
}
