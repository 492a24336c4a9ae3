/** Byte-wise string order and the stable sort the Rust code relies on. */
module Order {
  import opened Text

  predicate LexLe(a: string, b: string) {
    a == "" || (b != "" && (a[0] < b[0] || (a[0] == b[0] && LexLe(a[1..], b[1..]))))
  }

  /** `a` is smaller at the first place where the two differ. */
  ghost predicate SmallerAt(a: string, b: string, i: nat) {
    i < |a| && i < |b| && a[i] < b[i] && forall k :: 0 <= k < i ==> a[k] == b[k]
  }

  /** A string is at most another exactly if it is a prefix of it or smaller at the first difference. */
  lemma {:induction false} LexLeMeans(a: string, b: string)
    ensures LexLe(a, b) <==> a <= b || exists i: nat :: SmallerAt(a, b, i)
  {
    if a != "" && b != "" {
      LexLeMeans(a[1..], b[1..]);
      if i: nat :| SmallerAt(a[1..], b[1..], i) {
        if a[0] == b[0] { assert SmallerAt(a, b, i + 1); }
      }
      if i: nat :| SmallerAt(a, b, i) {
        if i > 0 { assert SmallerAt(a[1..], b[1..], i - 1); }
      }
      if a[0] < b[0] { assert SmallerAt(a, b, 0); }
    }
  }

  lemma {:induction false} LexLeTotal(a: string, b: string)
    ensures LexLe(a, b) || LexLe(b, a)
  {
    if a != "" && b != "" { LexLeTotal(a[1..], b[1..]); }
  }

  lemma {:induction false} LexLeTransitive(a: string, b: string, c: string)
    requires LexLe(a, b) && LexLe(b, c)
    ensures LexLe(a, c)
  {
    if a != "" && a[0] == b[0] && b[0] == c[0] { LexLeTransitive(a[1..], b[1..], c[1..]); }
  }

  lemma {:induction false} LexLeAntisymmetric(a: string, b: string)
    requires LexLe(a, b) && LexLe(b, a)
    ensures a == b
  {
    if a != "" {
      LexLeAntisymmetric(a[1..], b[1..]);
      assert a == [a[0]] + a[1..] && b == [b[0]] + b[1..];
    }
  }

  ghost predicate TotalPreorder<T(!new)>(le: (T, T) -> bool) {
    (forall a, b :: le(a, b) || le(b, a)) &&
    (forall a, b, c :: le(a, b) && le(b, c) ==> le(a, c))
  }

  ghost predicate Sorted<T>(s: seq<T>, le: (T, T) -> bool) {
    forall i, j :: 0 <= i < j < |s| ==> le(s[i], s[j])
  }

  /** Places `x` before the first element it is not greater than, so before its equals. */
  function Insert<T>(x: T, s: seq<T>, le: (T, T) -> bool): seq<T> {
    if s == [] then [x] else if le(x, s[0]) then [x] + s else [s[0]] + Insert(x, s[1..], le)
  }

  /** The stable sort by `le`: equal elements keep their order. */
  function SortBy<T>(s: seq<T>, le: (T, T) -> bool): seq<T> {
    if s == [] then [] else Insert(s[0], SortBy(s[1..], le), le)
  }

  lemma {:induction false} InsertKeepsElements<T>(x: T, s: seq<T>, le: (T, T) -> bool)
    ensures multiset(Insert(x, s, le)) == multiset([x]) + multiset(s)
  {
    if s != [] && !le(x, s[0]) {
      InsertKeepsElements(x, s[1..], le);
      assert s == [s[0]] + s[1..];
    }
  }

  lemma {:induction false} SortKeepsElements<T>(s: seq<T>, le: (T, T) -> bool)
    ensures multiset(SortBy(s, le)) == multiset(s)
  {
    if s != [] {
      SortKeepsElements(s[1..], le);
      InsertKeepsElements(s[0], SortBy(s[1..], le), le);
      assert s == [s[0]] + s[1..];
    }
  }

  lemma {:induction false} InsertKeepsSorted<T(!new)>(x: T, s: seq<T>, le: (T, T) -> bool)
    requires TotalPreorder(le) && Sorted(s, le)
    ensures Sorted(Insert(x, s, le), le)
  {
    if s != [] && !le(x, s[0]) {
      InsertKeepsSorted(x, s[1..], le);
      InsertKeepsElements(x, s[1..], le);
      var r := Insert(x, s[1..], le);
      forall j | 0 <= j < |r| ensures le(s[0], r[j]) {
        assert r[j] in multiset(r);
        assert r[j] in multiset(s[1..]) || r[j] == x;
      }
    }
  }

  lemma {:induction false} SortSorts<T(!new)>(s: seq<T>, le: (T, T) -> bool)
    requires TotalPreorder(le)
    ensures Sorted(SortBy(s, le), le)
  {
    if s != [] {
      SortSorts(s[1..], le);
      InsertKeepsSorted(s[0], SortBy(s[1..], le), le);
    }
  }

  lemma {:induction false} InsertMapped<T(!new), U>(f: T -> U, x: T, s: seq<T>, le: (T, T) -> bool, leU: (U, U) -> bool)
    requires forall a, b :: le(a, b) == leU(f(a), f(b))
    ensures MapSeq(f, Insert(x, s, le)) == Insert(f(x), MapSeq(f, s), leU)
  {
    if s != [] {
      assert MapSeq(f, s)[0] == f(s[0]);
      if !le(x, s[0]) {
        InsertMapped(f, x, s[1..], le, leU);
        assert MapSeq(f, s)[1..] == MapSeq(f, s[1..]);
      }
    }
  }

  /** Sorting commutes with any view that the order cannot tell apart from what it views. */
  lemma {:induction false} SortMapped<T(!new), U>(f: T -> U, s: seq<T>, le: (T, T) -> bool, leU: (U, U) -> bool)
    requires forall a, b :: le(a, b) == leU(f(a), f(b))
    ensures MapSeq(f, SortBy(s, le)) == SortBy(MapSeq(f, s), leU)
  {
    if s != [] {
      SortMapped(f, s[1..], le, leU);
      InsertMapped(f, s[0], SortBy(s[1..], le), le, leU);
      assert MapSeq(f, s)[1..] == MapSeq(f, s[1..]);
    }
  }

  lemma LexLePreorder()
    ensures TotalPreorder(LexLe)
  {
    forall a, b ensures LexLe(a, b) || LexLe(b, a) { LexLeTotal(a, b); }
    forall a, b, c | LexLe(a, b) && LexLe(b, c) ensures LexLe(a, c) { LexLeTransitive(a, b, c); }
  }

  lemma SameElements<T>(a: seq<T>, b: seq<T>)
    requires multiset(a) == multiset(b)
    ensures |a| == |b| && forall x :: x in a <==> x in b
  {
    assert |a| == |multiset(a)| && |b| == |multiset(b)|;
    assert forall x :: x in a <==> x in multiset(a);
  }

  /** The members of a hash set in whatever order its iterator yields them. */
  method Enumerate<T(==)>(s: set<T>) returns (names: seq<T>)
    ensures multiset(names) == multiset(s)
  {
    names := [];
    var rest := s;
    while rest != {}
      invariant multiset(names) + multiset(rest) == multiset(s)
      decreases rest
    {
      var x :| x in rest;
      names := names + [x];
      rest := rest - {x};
    }
  }

  /** A collection's keys, sorted: deterministic although the iteration order is not. */
  method SortedKeys(s: set<string>) returns (names: seq<string>)
    ensures multiset(names) == multiset(s)
    ensures Sorted(names, LexLe)
  {
    var any := Enumerate(s);
    names := SortBy(any, LexLe);
    SortKeepsElements(any, LexLe);
    LexLePreorder();
    SortSorts(any, LexLe);
  }
}
