/**
 * Python's ordering of tuples of integers and of strings, and `sorted` over a
 * collection of distinct elements.
 *
 * Python compares tuples and strings lexicographically: the first differing
 * element decides, and a proper prefix comes first. Strings are compared by
 * the codes of their characters, so both orders are `Less` on a `seq<nat>`.
 */
module Order {

  /** Lexicographic strict order on sequences of naturals. */
  predicate Less(a: seq<nat>, b: seq<nat>)
    decreases |a|
  {
    if |a| == 0 then |b| > 0
    else if |b| == 0 then false
    else if a[0] != b[0] then a[0] < b[0]
    else Less(a[1..], b[1..])
  }

  lemma {:induction false} LessIrreflexive(a: seq<nat>)
    ensures !Less(a, a)
    decreases |a|
  {
    if |a| > 0 {
      LessIrreflexive(a[1..]);
    }
  }

  lemma {:induction false} LessTransitive(a: seq<nat>, b: seq<nat>, c: seq<nat>)
    requires Less(a, b) && Less(b, c)
    ensures Less(a, c)
    decreases |a|
  {
    if |a| > 0 && a[0] == b[0] && b[0] == c[0] {
      LessTransitive(a[1..], b[1..], c[1..]);
    }
  }

  lemma {:induction false} LessTotal(a: seq<nat>, b: seq<nat>)
    requires a != b
    ensures Less(a, b) || Less(b, a)
    decreases |a|
  {
    if |a| > 0 && |b| > 0 && a[0] == b[0] {
      assert a == [a[0]] + a[1..] && b == [b[0]] + b[1..];
      LessTotal(a[1..], b[1..]);
    }
  }

  lemma {:induction false} LessAsymmetric(a: seq<nat>, b: seq<nat>)
    requires Less(a, b)
    ensures !Less(b, a)
    decreases |a|
  {
    if |a| > 0 && a[0] == b[0] {
      LessAsymmetric(a[1..], b[1..]);
    }
  }

  /** The character codes of a string, the key Python compares strings by. */
  function Codes(s: string): (r: seq<nat>)
    ensures |r| == |s|
    ensures forall i :: 0 <= i < |s| ==> r[i] == s[i] as nat
  {
    seq(|s|, i requires 0 <= i < |s| => s[i] as nat)
  }

  lemma CodesInjective(a: string, b: string)
    requires Codes(a) == Codes(b)
    ensures a == b
  {
    assert |a| == |b|;
    forall i | 0 <= i < |a| ensures a[i] == b[i] {
      assert Codes(a)[i] == Codes(b)[i];
    }
  }

  /** Distinct strings have distinct keys. */
  lemma CodesInjectiveOn(s: set<string>)
    ensures Injective(s, Codes)
  {
    forall x, y | x in s && y in s && Codes(x) == Codes(y)
      ensures x == y
    {
      CodesInjective(x, y);
    }
  }

  /** Python's `a < b` on two strings. */
  predicate StrLess(a: string, b: string) {
    Less(Codes(a), Codes(b))
  }

  /** No two distinct elements of `s` share a key. */
  ghost predicate Injective<T>(s: set<T>, key: T -> seq<nat>) {
    forall x, y :: x in s && y in s && key(x) == key(y) ==> x == y
  }

  /** `r` is strictly increasing by key. */
  ghost predicate Sorted<T>(r: seq<T>, key: T -> seq<nat>) {
    forall i, j :: 0 <= i < j < |r| ==> Less(key(r[i]), key(r[j]))
  }

  /** A strictly increasing sequence holds no element twice. */
  lemma SortedDistinct<T>(r: seq<T>, key: T -> seq<nat>, i: nat, j: nat)
    requires Sorted(r, key)
    requires i < j < |r|
    ensures r[i] != r[j]
  {
    LessIrreflexive(key(r[i]));
  }

  /** `m` is the element of `s` with the least key. */
  ghost predicate IsLeast<T>(m: T, s: set<T>, key: T -> seq<nat>) {
    m in s && forall y :: y in s && y != m ==> Less(key(m), key(y))
  }

  /** A non-empty set whose elements have distinct keys has an element of least key. */
  lemma {:induction false} LeastExists<T>(s: set<T>, key: T -> seq<nat>) returns (m: T)
    requires s != {}
    requires Injective(s, key)
    ensures IsLeast(m, s, key)
    decreases s
  {
    var z :| z in s;
    var rest := s - {z};
    if rest == {} {
      m := z;
      forall y | y in s
        ensures y == z
      {
        assert y !in rest;
      }
    } else {
      var n := LeastExists(rest, key);
      if Less(key(z), key(n)) {
        m := z;
        forall y | y in s && y != z
          ensures Less(key(z), key(y))
        {
          if y != n {
            LessTransitive(key(z), key(n), key(y));
          }
        }
      } else {
        m := n;
        assert key(n) != key(z);
        LessTotal(key(n), key(z));
        forall y | y in s && y != n
          ensures Less(key(n), key(y))
        {
          if y != z {
            assert y in rest;
          }
        }
      }
    }
  }

  /** `r` lists the elements of `s`, once each, in increasing order of key. */
  ghost predicate SortedOf<T(!new)>(r: seq<T>, s: set<T>, key: T -> seq<nat>) {
    Sorted(r, key) && forall x :: x in r <==> x in s
  }

  /** The first element of a sorted listing of `s` is the least element of `s`. */
  lemma SortedHead<T(!new)>(r: seq<T>, s: set<T>, key: T -> seq<nat>)
    requires SortedOf(r, s, key) && s != {}
    ensures |r| > 0 && IsLeast(r[0], s, key)
    ensures SortedOf(r[1..], s - {r[0]}, key)
  {
    var z :| z in s;
    assert z in r;
    forall y | y in s && y != r[0]
      ensures Less(key(r[0]), key(y))
    {
      var j :| 0 <= j < |r| && r[j] == y;
    }
    forall x | x in r[1..]
      ensures x != r[0]
    {
      var j :| 0 < j < |r| && r[j] == x;
      SortedDistinct(r, key, 0, j);
    }
    forall x | x in s - {r[0]}
      ensures x in r[1..]
    {
      var j :| 0 <= j < |r| && r[j] == x;
      assert r[1..][j - 1] == x;
    }
  }

  lemma HeadIn<T>(r: seq<T>)
    ensures |r| > 0 ==> r[0] in r
  {
  }

  /** A set has only one sorted listing. */
  lemma {:induction false} SortedUnique<T(!new)>(r1: seq<T>, r2: seq<T>, s: set<T>, key: T -> seq<nat>)
    requires SortedOf(r1, s, key) && SortedOf(r2, s, key)
    ensures r1 == r2
    decreases |r1|
  {
    if s == {} {
      HeadIn(r1);
      HeadIn(r2);
    } else {
      SortedHead(r1, s, key);
      SortedHead(r2, s, key);
      if r1[0] != r2[0] {
        LessAsymmetric(key(r1[0]), key(r2[0]));
      }
      SortedUnique(r1[1..], r2[1..], s - {r1[0]}, key);
      assert r1 == [r1[0]] + r1[1..] && r2 == [r2[0]] + r2[1..];
    }
  }

  /** Python's `sorted(s)` for a set of distinct keys, as a value. */
  ghost function SortedList<T(!new)>(s: set<T>, key: T -> seq<nat>): (r: seq<T>)
    requires Injective(s, key)
    ensures SortedOf(r, s, key)
    decreases s
  {
    if s == {} then []
    else
      LeastIsSome(s, key);
      var m :| IsLeast(m, s, key);
      var rest := SortedList(s - {m}, key);
      assert forall x :: x in [m] + rest <==> x == m || x in rest;
      [m] + rest
  }

  lemma LeastIsSome<T>(s: set<T>, key: T -> seq<nat>)
    requires s != {} && Injective(s, key)
    ensures exists m :: IsLeast(m, s, key)
  {
    var m := LeastExists(s, key);
  }

  /**
   * Midway through a selection sort of `s`: `r` lists the elements already
   * taken, in order, and each of them is below everything still in `rest`.
   */
  ghost predicate Selecting<T(!new)>(r: seq<T>, rest: set<T>, s: set<T>, key: T -> seq<nat>) {
    rest <= s && SortedOf(r, s - rest, key) &&
    forall i, y :: 0 <= i < |r| && y in rest ==> Less(key(r[i]), key(y))
  }

  /** Taking the least remaining element keeps a selection sort on track. */
  lemma SelectNext<T(!new)>(r: seq<T>, rest: set<T>, s: set<T>, key: T -> seq<nat>, m: T)
    requires Selecting(r, rest, s, key)
    requires IsLeast(m, rest, key)
    ensures Selecting(r + [m], rest - {m}, s, key)
  {
    var r' := r + [m];
    forall i, j | 0 <= i < j < |r'|
      ensures Less(key(r'[i]), key(r'[j]))
    {
      if j < |r| {
        assert r'[i] == r[i] && r'[j] == r[j];
      }
    }
    forall x
      ensures x in r' <==> x in s - (rest - {m})
    {
      assert x in r' <==> x in r || x == m;
    }
  }

  /**
   * Python's `sorted` applied to a collection of distinct elements: the
   * elements of `s` listed once each in increasing order of key.
   */
  method SortedBy<T(!new)>(s: set<T>, key: T -> seq<nat>) returns (r: seq<T>)
    requires Injective(s, key)
    ensures r == SortedList(s, key)
  {
    r := [];
    var rest := s;
    while rest != {}
      invariant Selecting(r, rest, s, key)
      decreases rest
    {
      ghost var least := LeastExists(rest, key);
      var m :| m in rest && forall y :: y in rest && y != m ==> Less(key(m), key(y));
      SelectNext(r, rest, s, key, m);
      r := r + [m];
      rest := rest - {m};
    }
    assert s - rest == s;
    SortedUnique(r, SortedList(s, key), s, key);
  }
}
