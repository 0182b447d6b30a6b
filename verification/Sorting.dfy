/** The stable sort behind `sorted(...)` and `Array.prototype.sort`, for a comparison that is a total
    preorder on the elements at hand, and the dictionary order Python uses on strings and tuples. */
module Sorting {

  /** `le` is total and transitive on the elements of `s`. */
  ghost predicate PreorderOn<T(!new)>(s: seq<T>, le: (T, T) -> bool) {
    && (forall a, b :: a in s && b in s ==> le(a, b) || le(b, a))
    && (forall a, b, c :: a in s && b in s && c in s && le(a, b) && le(b, c) ==> le(a, c))
  }

  ghost predicate Sorted<T>(s: seq<T>, le: (T, T) -> bool) {
    forall i, j :: 0 <= i < j < |s| ==> le(s[i], s[j])
  }

  function Insert<T>(x: T, s: seq<T>, le: (T, T) -> bool): seq<T> {
    if s == [] then [x]
    else if le(x, s[0]) then [x] + s
    else [s[0]] + Insert(x, s[1..], le)
  }

  function Sort<T>(s: seq<T>, le: (T, T) -> bool): seq<T> {
    if s == [] then [] else Insert(s[0], Sort(s[1..], le), le)
  }

  lemma {:induction false} InsertPermutes<T>(x: T, s: seq<T>, le: (T, T) -> bool)
    ensures multiset(Insert(x, s, le)) == multiset{x} + multiset(s)
  {
    if s != [] && !le(x, s[0]) {
      InsertPermutes(x, s[1..], le);
      assert s == [s[0]] + s[1..];
    }
  }

  lemma {:induction false} SortPermutes<T>(s: seq<T>, le: (T, T) -> bool)
    ensures multiset(Sort(s, le)) == multiset(s)
    ensures |Sort(s, le)| == |s|
  {
    if s == [] {
    } else {
      SortPermutes(s[1..], le);
      InsertPermutes(s[0], Sort(s[1..], le), le);
      assert s == [s[0]] + s[1..];
    }
    assert |Sort(s, le)| == |multiset(Sort(s, le))| == |multiset(s)| == |s|;
  }

  lemma SortMembers<T>(s: seq<T>, le: (T, T) -> bool)
    ensures forall x :: x in Sort(s, le) <==> x in s
  {
    SortPermutes(s, le);
    forall x ensures x in Sort(s, le) <==> x in s {
      assert x in Sort(s, le) <==> x in multiset(Sort(s, le));
      assert x in s <==> x in multiset(s);
    }
  }

  lemma {:induction false} InsertSorted<T(!new)>(x: T, s: seq<T>, le: (T, T) -> bool)
    requires PreorderOn([x] + s, le) && Sorted(s, le)
    ensures Sorted(Insert(x, s, le), le)
  {
    if s == [] {
    } else if le(x, s[0]) {
      forall i | 0 <= i < |s| ensures le(x, s[i]) {
        assert x in [x] + s && s[0] in [x] + s && s[i] in [x] + s;
      }
    } else {
      var t := s[1..];
      assert forall y :: y in [x] + t ==> y in [x] + s;
      InsertSorted(x, t, le);
      var r := Insert(x, t, le);
      InsertPermutes(x, t, le);
      forall i | 0 <= i < |r| ensures le(s[0], r[i]) {
        assert r[i] in multiset(r);
        assert x in [x] + s && s[0] in [x] + s;
        if r[i] != x {
          assert r[i] in multiset(t);
          var k :| 0 <= k < |t| && t[k] == r[i];
          assert s[k + 1] == r[i];
        }
      }
    }
  }

  lemma {:induction false} SortSorts<T(!new)>(s: seq<T>, le: (T, T) -> bool)
    requires PreorderOn(s, le)
    ensures Sorted(Sort(s, le), le)
  {
    if s == [] {
    } else {
      assert forall y :: y in s[1..] ==> y in s;
      SortSorts(s[1..], le);
      SortMembers(s[1..], le);
      assert forall y :: y in [s[0]] + Sort(s[1..], le) ==> y in s;
      InsertSorted(s[0], Sort(s[1..], le), le);
    }
  }

  lemma HeadIsLeast<T>(s: seq<T>, t: seq<T>, le: (T, T) -> bool)
    requires multiset(s) == multiset(t) && Sorted(s, le) && s != [] && t != []
    ensures s[0] == t[0] || le(s[0], t[0])
  {
    assert t[0] in multiset(s);
    var j :| 0 <= j < |s| && s[j] == t[0];
  }

  /** Two sorted arrangements of the same elements are the same sequence when ties mean equality. */
  lemma {:induction false} SortedUnique<T(!new)>(s: seq<T>, t: seq<T>, le: (T, T) -> bool)
    requires multiset(s) == multiset(t) && Sorted(s, le) && Sorted(t, le)
    requires forall a, b :: le(a, b) && le(b, a) ==> a == b
    ensures s == t
  {
    assert |s| == |multiset(s)| == |multiset(t)| == |t|;
    if s != [] {
      HeadIsLeast(s, t, le);
      HeadIsLeast(t, s, le);
      hide Sorted;
      SortedTail(s, le);
      SortedTail(t, le);
      SameTails(s, t);
      SortedUnique(s[1..], t[1..], le);
      assert s == [s[0]] + s[1..] && t == [t[0]] + t[1..];
    }
  }

  lemma SortedTail<T>(s: seq<T>, le: (T, T) -> bool)
    requires Sorted(s, le) && s != []
    ensures Sorted(s[1..], le)
  {}

  lemma SameTails<T>(s: seq<T>, t: seq<T>)
    requires s != [] && t != [] && s[0] == t[0] && multiset(s) == multiset(t)
    ensures multiset(s[1..]) == multiset(t[1..])
  {
    assert s == [s[0]] + s[1..] && t == [t[0]] + t[1..];
    assert multiset(s[1..]) == multiset(s) - multiset{s[0]};
  }

  /** Dictionary order over a strict order on the elements: Python's `<=` on str and on tuple. */
  function LexLe<T(==)>(a: seq<T>, b: seq<T>, less: (T, T) -> bool): bool {
    if a == [] then true
    else if b == [] then false
    else if a[0] == b[0] then LexLe(a[1..], b[1..], less)
    else less(a[0], b[0])
  }

  ghost predicate StrictTotal<T(!new)>(less: (T, T) -> bool) {
    && (forall a, b :: less(a, b) || less(b, a) || a == b)
    && (forall a, b :: less(a, b) ==> !less(b, a))
    && (forall a, b, c :: less(a, b) && less(b, c) ==> less(a, c))
  }

  lemma {:induction false} LexTotal<T(!new)>(a: seq<T>, b: seq<T>, less: (T, T) -> bool)
    requires StrictTotal(less)
    ensures LexLe(a, b, less) || LexLe(b, a, less)
    ensures LexLe(a, b, less) && LexLe(b, a, less) ==> a == b
  {
    if a != [] && b != [] && a[0] == b[0] {
      LexTotal(a[1..], b[1..], less);
      assert a == [a[0]] + a[1..] && b == [b[0]] + b[1..];
    }
  }

  lemma {:induction false} LexTransitive<T(!new)>(a: seq<T>, b: seq<T>, c: seq<T>, less: (T, T) -> bool)
    requires StrictTotal(less) && LexLe(a, b, less) && LexLe(b, c, less)
    ensures LexLe(a, c, less)
  {
    if a != [] && a[0] == b[0] && b[0] == c[0] {
      LexTransitive(a[1..], b[1..], c[1..], less);
    }
  }

  function CharLess(a: char, b: char): bool { a < b }

  function StringLe(a: string, b: string): bool { LexLe(a, b, CharLess) }

  function StringLess(a: string, b: string): bool { a != b && StringLe(a, b) }

  lemma StringOrder()
    ensures StrictTotal(CharLess) && StrictTotal(StringLess)
  {
    assert StrictTotal(CharLess);
    forall a, b ensures StringLe(a, b) || StringLe(b, a)
      ensures StringLe(a, b) && StringLe(b, a) ==> a == b {
      LexTotal(a, b, CharLess);
    }
    forall a, b, c | StringLess(a, b) && StringLess(b, c) ensures StringLess(a, c) {
      LexTransitive(a, b, c, CharLess);
      LexTotal(a, b, CharLess);
      LexTotal(b, c, CharLess);
    }
  }

  function TupleLe(a: seq<string>, b: seq<string>): bool { LexLe(a, b, StringLess) }

  lemma StringPreorder(s: seq<string>)
    ensures PreorderOn(s, StringLe)
    ensures forall a, b :: StringLe(a, b) && StringLe(b, a) ==> a == b
  {
    StringOrder();
    forall a, b ensures StringLe(a, b) || StringLe(b, a)
      ensures StringLe(a, b) && StringLe(b, a) ==> a == b {
      LexTotal(a, b, CharLess);
    }
    forall a, b, c | StringLe(a, b) && StringLe(b, c) ensures StringLe(a, c) {
      LexTransitive(a, b, c, CharLess);
    }
  }

  lemma TuplePreorder(s: seq<seq<string>>)
    ensures PreorderOn(s, TupleLe)
    ensures forall a, b :: TupleLe(a, b) && TupleLe(b, a) ==> a == b
  {
    StringOrder();
    forall a, b ensures TupleLe(a, b) || TupleLe(b, a)
      ensures TupleLe(a, b) && TupleLe(b, a) ==> a == b {
      LexTotal(a, b, StringLess);
    }
    forall a, b, c | TupleLe(a, b) && TupleLe(b, c) ensures TupleLe(a, c) {
      LexTransitive(a, b, c, StringLess);
    }
  }
}
