/** Stable sorting, and the byte order of strings. */
module Sorting {

  ghost predicate TotalPreorder<T(!new)>(leq: (T, T) -> bool) {
    && (forall x, y :: leq(x, y) || leq(y, x))
    && (forall x, y, z :: leq(x, y) && leq(y, z) ==> leq(x, z))
  }

  predicate SortedBy<T>(leq: (T, T) -> bool, s: seq<T>) {
    forall i, j :: 0 <= i < j < |s| ==> leq(s[i], s[j])
  }

  /** Puts x after every element that is not above it. */
  function Insert<T>(leq: (T, T) -> bool, s: seq<T>, x: T): seq<T> {
    if s == [] then [x]
    else if leq(s[|s| - 1], x) then s + [x]
    else Insert(leq, s[..|s| - 1], x) + [s[|s| - 1]]
  }

  /** A stable sort: elements that compare equal keep their order. */
  function Sort<T>(leq: (T, T) -> bool, s: seq<T>): seq<T> {
    if s == [] then [] else Insert(leq, Sort(leq, s[..|s| - 1]), s[|s| - 1])
  }

  lemma {:induction false} InsertKeeps<T>(leq: (T, T) -> bool, s: seq<T>, x: T)
    ensures multiset(Insert(leq, s, x)) == multiset(s) + multiset{x}
  {
    if s != [] && !leq(s[|s| - 1], x) {
      InsertKeeps(leq, s[..|s| - 1], x);
      assert s == s[..|s| - 1] + [s[|s| - 1]];
    }
  }

  lemma {:induction false} InsertSorts<T(!new)>(leq: (T, T) -> bool, s: seq<T>, x: T)
    requires TotalPreorder(leq) && SortedBy(leq, s)
    ensures SortedBy(leq, Insert(leq, s, x))
  {
    if s != [] && !leq(s[|s| - 1], x) {
      var front, last := s[..|s| - 1], s[|s| - 1];
      InsertSorts(leq, front, x);
      InsertKeeps(leq, front, x);
      forall i | 0 <= i < |Insert(leq, front, x)|
        ensures leq(Insert(leq, front, x)[i], last)
      {
        assert Insert(leq, front, x)[i] in multiset(front) + multiset{x};
      }
    }
  }

  lemma {:induction false} SortKeeps<T>(leq: (T, T) -> bool, s: seq<T>)
    ensures multiset(Sort(leq, s)) == multiset(s) && |Sort(leq, s)| == |s|
  {
    if s != [] {
      SortKeeps(leq, s[..|s| - 1]);
      InsertKeeps(leq, Sort(leq, s[..|s| - 1]), s[|s| - 1]);
      assert s == s[..|s| - 1] + [s[|s| - 1]];
    }
    assert |multiset(Sort(leq, s))| == |Sort(leq, s)| && |multiset(s)| == |s|;
  }

  lemma {:induction false} SortSorts<T(!new)>(leq: (T, T) -> bool, s: seq<T>)
    requires TotalPreorder(leq)
    ensures SortedBy(leq, Sort(leq, s))
  {
    if s != [] {
      SortSorts(leq, s[..|s| - 1]);
      InsertSorts(leq, Sort(leq, s[..|s| - 1]), s[|s| - 1]);
    }
  }

  // ----- Stability ---------------------------------------------------------------------------

  /** The elements of s under one key, in their order. */
  function OfKey<T>(place: T -> string, s: seq<T>, key: string): seq<T> {
    if s == [] then []
    else OfKey(place, s[..|s| - 1], key) + if place(s[|s| - 1]) == key then [s[|s| - 1]] else []
  }

  lemma OfKeyPush<T>(place: T -> string, s: seq<T>, x: T, key: string)
    ensures OfKey(place, s + [x], key) == OfKey(place, s, key) + if place(x) == key then [x] else []
  {
    assert (s + [x])[..|s|] == s;
  }

  lemma {:induction false} OfKeyAppend<T>(place: T -> string, a: seq<T>, b: seq<T>, key: string)
    ensures OfKey(place, a + b, key) == OfKey(place, a, key) + OfKey(place, b, key)
  {
    if b == [] {
      assert a + b == a;
    } else {
      OfKeyAppend(place, a, b[..|b| - 1], key);
      assert a + b == a + b[..|b| - 1] + [b[|b| - 1]];
      OfKeyPush(place, a + b[..|b| - 1], b[|b| - 1], key);
    }
  }

  predicate Ties<T>(leq: (T, T) -> bool, place: T -> string, s: seq<T>) {
    forall i, j :: 0 <= i < |s| && 0 <= j < |s| && place(s[i]) == place(s[j]) ==> leq(s[i], s[j])
  }

  lemma {:induction false} InsertStable<T>(leq: (T, T) -> bool, place: T -> string, s: seq<T>, x: T, key: string)
    requires forall i :: 0 <= i < |s| && place(s[i]) == place(x) ==> leq(s[i], x)
    ensures OfKey(place, Insert(leq, s, x), key) == OfKey(place, s + [x], key)
  {
    OfKeyPush(place, s, x, key);
    if s == [] {
      assert s + [x] == [x];
    } else if !leq(s[|s| - 1], x) {
      var front, last := s[..|s| - 1], s[|s| - 1];
      InsertStable(leq, place, front, x, key);
      OfKeyPush(place, front, x, key);
      OfKeyPush(place, Insert(leq, front, x), last, key);
    }
  }

  /** Elements under one key keep their order, when the sort does not tell them apart. */
  lemma {:induction false} SortStable<T>(leq: (T, T) -> bool, place: T -> string, s: seq<T>, key: string)
    requires Ties(leq, place, s)
    ensures OfKey(place, Sort(leq, s), key) == OfKey(place, s, key)
  {
    if s != [] {
      var front, last := s[..|s| - 1], s[|s| - 1];
      SortStable(leq, place, front, key);
      SortKeeps(leq, front);
      forall i | 0 <= i < |front| && place(Sort(leq, front)[i]) == place(last)
        ensures leq(Sort(leq, front)[i], last)
      {
        var k := Member(Sort(leq, front), front, i);
        assert s[k] == front[k];
      }
      InsertStable(leq, place, Sort(leq, front), last, key);
      OfKeyPush(place, Sort(leq, front), last, key);
    }
  }

  // ----- Rearrangements ----------------------------------------------------------------------

  lemma SameAppended<T>(a: seq<T>, b: seq<T>, c: seq<T>, d: seq<T>)
    requires multiset(a) == multiset(c) && multiset(b) == multiset(d)
    ensures multiset(a + b) == multiset(c + d)
  {
  }

  lemma SameSize<T>(s: seq<T>, p: seq<T>)
    requires multiset(s) == multiset(p)
    ensures |s| == |p|
  {
    assert |s| == |multiset(s)| && |p| == |multiset(p)|;
  }

  lemma DropLasts<T>(s: seq<T>, p: seq<T>)
    requires multiset(s) == multiset(p) && s != [] && p != [] && s[|s| - 1] == p[|p| - 1]
    ensures multiset(s[..|s| - 1]) == multiset(p[..|p| - 1])
  {
    assert s == s[..|s| - 1] + [s[|s| - 1]] && p == p[..|p| - 1] + [p[|p| - 1]];
    WithoutLast(s);
    WithoutLast(p);
  }

  lemma Without<T>(u: seq<T>, x: T, v: seq<T>)
    ensures multiset(u + v) == multiset(u + [x] + v) - multiset{x}
  {
    assert multiset(u + [x] + v) == multiset(u) + multiset{x} + multiset(v);
  }

  /** The last element of one arrangement, found and taken out of another. */
  lemma TakeOut<T>(s: seq<T>, p: seq<T>) returns (i: nat)
    requires multiset(s) == multiset(p) && s != []
    ensures i < |p| && p[i] == s[|s| - 1] && p == p[..i] + [p[i]] + p[i + 1..]
    ensures multiset(s[..|s| - 1]) == multiset(p[..i] + p[i + 1..])
  {
    var n := |s| - 1;
    i := Member(s, p, n);
    assert p == p[..i] + [p[i]] + p[i + 1..];
    Without(p[..i], p[i], p[i + 1..]);
    WithoutLast(s);
  }

  lemma WithoutLast<T>(s: seq<T>)
    requires s != []
    ensures multiset(s[..|s| - 1]) == multiset(s) - multiset{s[|s| - 1]}
  {
    assert s == s[..|s| - 1] + [s[|s| - 1]];
  }

  lemma Member<T>(s: seq<T>, p: seq<T>, i: nat) returns (k: nat)
    requires multiset(s) == multiset(p) && i < |s|
    ensures k < |p| && p[k] == s[i]
  {
    assert s[i] in multiset(p);
    k :| k < |p| && p[k] == s[i];
  }

  lemma TwiceIn<T>(s: seq<T>, i: nat, j: nat)
    requires i < j < |s| && s[i] == s[j]
    ensures multiset(s)[s[i]] >= 2
  {
    var front, back := s[..j], s[j + 1..];
    assert s == front + [s[j]] + back;
    assert front[i] in multiset(front);
    assert multiset(s) == multiset(front) + multiset{s[j]} + multiset(back);
  }

  // ----- Strings -----------------------------------------------------------------------------

  predicate Less(a: string, b: string) {
    b != [] && (a == [] || a[0] < b[0] || (a[0] == b[0] && Less(a[1..], b[1..])))
  }

  predicate AtMost(a: string, b: string) {
    !Less(b, a)
  }

  lemma {:induction false} LessTrichotomy(a: string, b: string)
    ensures Less(a, b) || a == b || Less(b, a)
    ensures !(Less(a, b) && Less(b, a)) && !Less(a, a)
  {
    if a != [] && b != [] {
      LessTrichotomy(a[1..], b[1..]);
      LessTrichotomy(a[1..], a[1..]);
      assert a == [a[0]] + a[1..] && b == [b[0]] + b[1..];
    } else if a != [] {
      LessTrichotomy(a[1..], a[1..]);
    }
  }

  lemma {:induction false} LessTransitive(a: string, b: string, c: string)
    requires Less(a, b) && Less(b, c)
    ensures Less(a, c)
  {
    if a != [] && a[0] == b[0] == c[0] {
      LessTransitive(a[1..], b[1..], c[1..]);
    }
  }

  lemma AtMostIsTotalPreorder()
    ensures TotalPreorder(AtMost)
  {
    forall x, y ensures AtMost(x, y) || AtMost(y, x) {
      LessTrichotomy(x, y);
    }
    forall x, y, z | AtMost(x, y) && AtMost(y, z) ensures AtMost(x, z) {
      LessTrichotomy(x, y);
      LessTrichotomy(y, z);
      if Less(x, y) && Less(y, z) { LessTransitive(x, y, z); }
      LessTrichotomy(x, z);
    }
  }

  /** Prefixes of one length are ordered as the strings are. */
  lemma {:induction false} PrefixAtMost(a: string, b: string, k: nat)
    requires k <= |a| && k <= |b| && AtMost(a, b)
    ensures AtMost(a[..k], b[..k])
  {
    if k > 0 && a[0] == b[0] {
      PrefixAtMost(a[1..], b[1..], k - 1);
      assert a[..k][1..] == a[1..][..k - 1] && b[..k][1..] == b[1..][..k - 1];
    }
  }
}
