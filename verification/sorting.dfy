/**
 * Python's `sorted(xs, key=k)` for string keys: a stable sort, here an
 * insertion sort, with the facts the rest of the model needs about it.
 */
module Sorting {
  import opened Strings

  /** Ascending by key; equal keys allowed. */
  ghost predicate SortedBy<T>(s: seq<T>, key: T -> string)
  {
    forall i, j :: 0 <= i < j < |s| ==> !Less(key(s[j]), key(s[i]))
  }

  /** Strictly ascending by key, hence no two elements share a key. */
  ghost predicate StrictlySortedBy<T>(s: seq<T>, key: T -> string)
  {
    forall i, j :: 0 <= i < j < |s| ==> Less(key(s[i]), key(s[j]))
  }

  /** Elements that share a key are the same element. */
  ghost predicate KeyInjective<T>(s: seq<T>, key: T -> string)
  {
    forall i, j :: 0 <= i < |s| && 0 <= j < |s| && key(s[i]) == key(s[j]) ==> s[i] == s[j]
  }

  /** Appending an element above every key keeps a strictly ascending sequence strictly ascending. */
  lemma StrictlySortedAppend<T>(s: seq<T>, x: T, key: T -> string)
    requires StrictlySortedBy(s, key)
    requires forall i :: 0 <= i < |s| ==> Less(key(s[i]), key(x))
    ensures StrictlySortedBy(s + [x], key)
  {
    var r := s + [x];
    forall i, j | 0 <= i < j < |r| ensures Less(key(r[i]), key(r[j])) {
      assert r[i] == s[i];
      if j < |s| {
        assert r[j] == s[j];
      }
    }
  }

  /** Puts `x` before the first element whose key is not smaller than its own. */
  function Insert<T>(x: T, s: seq<T>, key: T -> string): (r: seq<T>)
  {
    if s == [] || !Less(key(s[0]), key(x)) then [x] + s
    else [s[0]] + Insert(x, s[1..], key)
  }

  /** `sorted(s, key=key)` */
  function SortBy<T>(s: seq<T>, key: T -> string): (r: seq<T>)
  {
    if s == [] then [] else Insert(s[0], SortBy(s[1..], key), key)
  }

  lemma {:induction false} InsertPermutes<T>(x: T, s: seq<T>, key: T -> string)
    ensures multiset(Insert(x, s, key)) == multiset(s) + multiset{x}
  {
    if s != [] && Less(key(s[0]), key(x)) {
      InsertPermutes(x, s[1..], key);
      assert s == [s[0]] + s[1..];
    }
  }

  /** The sorted sequence is a permutation of its input. */
  lemma {:induction false} SortByPermutes<T>(s: seq<T>, key: T -> string)
    ensures multiset(SortBy(s, key)) == multiset(s)
  {
    if s != [] {
      SortByPermutes(s[1..], key);
      InsertPermutes(s[0], SortBy(s[1..], key), key);
      assert s == [s[0]] + s[1..];
    }
  }

  /** "Not smaller than" is transitive. */
  lemma NotLessTransitive(a: string, b: string, c: string)
    requires !Less(b, a) && !Less(c, b)
    ensures !Less(c, a)
  {
    LessTotal(a, b);
    LessTotal(b, c);
    if Less(a, b) && Less(b, c) {
      LessTransitive(a, b, c);
    }
    LessAsymmetric(a, c);
    LessIrreflexive(a);
  }

  lemma {:induction false} InsertSorted<T>(x: T, s: seq<T>, key: T -> string)
    requires SortedBy(s, key)
    ensures SortedBy(Insert(x, s, key), key)
  {
    if s == [] {
    } else if !Less(key(s[0]), key(x)) {
      var r := [x] + s;
      forall i, j | 0 <= i < j < |r| ensures !Less(key(r[j]), key(r[i])) {
        if i == 0 && j > 1 {
          NotLessTransitive(key(x), key(s[0]), key(s[j - 1]));
        }
      }
    } else {
      InsertSorted(x, s[1..], key);
      var t := Insert(x, s[1..], key);
      InsertPermutes(x, s[1..], key);
      forall j | 0 <= j < |t| ensures !Less(key(t[j]), key(s[0])) {
        assert t[j] in multiset(t);
        if t[j] == x {
          LessAsymmetric(key(s[0]), key(x));
        } else {
          assert t[j] in multiset(s[1..]);
          var k :| 0 <= k < |s[1..]| && s[1..][k] == t[j];
          assert s[k + 1] == t[j];
        }
      }
    }
  }

  /** The sorted sequence ascends by key. */
  lemma {:induction false} SortBySorted<T>(s: seq<T>, key: T -> string)
    ensures SortedBy(SortBy(s, key), key)
  {
    if s != [] {
      SortBySorted(s[1..], key);
      InsertSorted(s[0], SortBy(s[1..], key), key);
    }
  }

  /** Sorting what is already in order changes nothing, ties included: the sort is stable. */
  lemma {:induction false} SortBySortedIsIdentity<T>(s: seq<T>, key: T -> string)
    requires SortedBy(s, key)
    ensures SortBy(s, key) == s
  {
    if s != [] {
      var tail := s[1..];
      assert SortedBy(tail, key) by {
        forall i, j | 0 <= i < j < |tail| ensures !Less(key(tail[j]), key(tail[i])) {
          assert tail[i] == s[i + 1] && tail[j] == s[j + 1];
        }
      }
      SortBySortedIsIdentity(tail, key);
      if tail != [] {
        assert !Less(key(s[1]), key(s[0]));
      }
      assert s == [s[0]] + tail;
    }
  }

  /**
   * Two ascending arrangements of the same elements coincide when elements
   * that share a key are equal: the order by key leaves no choice.
   */
  lemma {:induction false} SortedArrangementUnique<T>(a: seq<T>, b: seq<T>, key: T -> string)
    requires SortedBy(a, key) && SortedBy(b, key)
    requires multiset(a) == multiset(b)
    requires KeyInjective(a, key)
    ensures a == b
  {
    assert |a| == |multiset(a)| == |b|;
    if a != [] {
      SameFirst(a, b, key);
      assert a == [a[0]] + a[1..] && b == [b[0]] + b[1..];
      assert multiset(a) == multiset{a[0]} + multiset(a[1..]);
      assert multiset(b) == multiset{b[0]} + multiset(b[1..]);
      assert multiset(a[1..]) == multiset(a) - multiset{a[0]};
      assert multiset(b[1..]) == multiset(b) - multiset{b[0]};
      var a', b' := a[1..], b[1..];
      TailSorted(a, key);
      TailSorted(b, key);
      TailKeyInjective(a, key);
      SortedArrangementUnique(a', b', key);
    }
  }

  /** Dropping the first element keeps a sequence ascending. */
  lemma TailSorted<T>(a: seq<T>, key: T -> string)
    requires SortedBy(a, key) && a != []
    ensures SortedBy(a[1..], key)
  {
    var a' := a[1..];
    forall i, j | 0 <= i < j < |a'| ensures !Less(key(a'[j]), key(a'[i])) {
      assert a'[i] == a[i + 1] && a'[j] == a[j + 1];
    }
  }

  /** Dropping the first element keeps keys telling elements apart. */
  lemma TailKeyInjective<T>(a: seq<T>, key: T -> string)
    requires KeyInjective(a, key) && a != []
    ensures KeyInjective(a[1..], key)
  {
    var a' := a[1..];
    forall i, j | 0 <= i < |a'| && 0 <= j < |a'| && key(a'[i]) == key(a'[j]) ensures a'[i] == a'[j] {
      assert a'[i] == a[i + 1] && a'[j] == a[j + 1];
    }
  }

  /** Both arrangements start with the element of least key. */
  lemma SameFirst<T>(a: seq<T>, b: seq<T>, key: T -> string)
    requires SortedBy(a, key) && SortedBy(b, key)
    requires multiset(a) == multiset(b)
    requires KeyInjective(a, key)
    requires a != [] && b != []
    ensures a[0] == b[0]
  {
    assert a[0] in multiset(b);
    var i :| 0 <= i < |b| && b[i] == a[0];
    assert b[0] in multiset(a);
    var j :| 0 <= j < |a| && a[j] == b[0];
    if a[j] != a[0] {
      assert key(a[0]) != key(a[j]) && i != 0;
      assert !Less(key(a[j]), key(a[0]));
      assert !Less(key(b[i]), key(b[0]));
      LessTotal(key(a[0]), key(a[j]));
    }
  }

  /**
   * Sorting the same elements, in whatever input order, gives the same
   * sequence when elements that share a key are equal.
   */
  lemma SortByOrderIndependent<T>(a: seq<T>, b: seq<T>, key: T -> string)
    requires multiset(a) == multiset(b)
    requires KeyInjective(a, key)
    ensures SortBy(a, key) == SortBy(b, key)
  {
    SortByPermutes(a, key);
    SortByPermutes(b, key);
    SortBySorted(a, key);
    SortBySorted(b, key);
    KeyInjectivePermutation(a, SortBy(a, key), key);
    SortedArrangementUnique(SortBy(a, key), SortBy(b, key), key);
  }

  /** Key-injectivity depends only on which elements occur. */
  lemma KeyInjectivePermutation<T>(a: seq<T>, b: seq<T>, key: T -> string)
    requires multiset(a) == multiset(b)
    requires KeyInjective(a, key)
    ensures KeyInjective(b, key)
  {
    forall i, j | 0 <= i < |b| && 0 <= j < |b| && key(b[i]) == key(b[j]) ensures b[i] == b[j] {
      assert b[i] in multiset(a) && b[j] in multiset(a);
      var p :| 0 <= p < |a| && a[p] == b[i];
      var q :| 0 <= q < |a| && a[q] == b[j];
    }
  }
}
