/**
 * Turning a set of strings into a sequence.  Python iterates a `set` in an order that
 * depends on string hashes, which the program never fixes; wherever the resume ranker
 * lists a set (`sorted(filtered, key=len, reverse=True)`, `list(keywords)[:20]`) this
 * model lists it longest first and breaks ties lexicographically, and only facts that
 * hold for every iteration order are stated about the outcome.
 */
module Ordering {

  /** No element occurs twice. */
  predicate Distinct<T(==)>(s: seq<T>) {
    forall i, j :: 0 <= i < j < |s| ==> s[i] != s[j]
  }

  /** The set of elements of a sequence (Python's `set(list)`). */
  function SetOf<T(!new)>(s: seq<T>): (r: set<T>)
    ensures forall x :: x in r <==> x in s
  {
    set x | x in s
  }

  /** A sequence without repetitions has as many elements as its set. */
  lemma {:induction false} DistinctCardinality<T(!new)>(s: seq<T>)
    requires Distinct(s)
    ensures |SetOf(s)| == |s|
  {
    if s != [] {
      DistinctCardinality(s[1..]);
      assert SetOf(s) == {s[0]} + SetOf(s[1..]);
      assert s[0] !in SetOf(s[1..]);
    }
  }

  /** Lexicographic order on strings by code point. */
  predicate LexLeq(a: string, b: string) {
    a == [] || (b != [] && (a[0] < b[0] || (a[0] == b[0] && LexLeq(a[1..], b[1..]))))
  }

  lemma {:induction false} LexLeqReflexive(a: string)
    ensures LexLeq(a, a)
  {
    if a != [] { LexLeqReflexive(a[1..]); }
  }

  lemma {:induction false} LexLeqTotal(a: string, b: string)
    ensures LexLeq(a, b) || LexLeq(b, a)
  {
    if a != [] && b != [] && a[0] == b[0] { LexLeqTotal(a[1..], b[1..]); }
  }

  lemma {:induction false} LexLeqAntisymmetric(a: string, b: string)
    requires LexLeq(a, b) && LexLeq(b, a)
    ensures a == b
  {
    if a != [] && b != [] {
      LexLeqAntisymmetric(a[1..], b[1..]);
      assert a == [a[0]] + a[1..];
      assert b == [b[0]] + b[1..];
    }
  }

  lemma {:induction false} LexLeqTransitive(a: string, b: string, c: string)
    requires LexLeq(a, b) && LexLeq(b, c)
    ensures LexLeq(a, c)
  {
    if a != [] && b != [] && c != [] && a[0] == b[0] && b[0] == c[0] {
      LexLeqTransitive(a[1..], b[1..], c[1..]);
    }
  }

  /** `a` is listed no later than `b`: longer strings first, equal lengths in
      lexicographic order.  A total order on strings. */
  predicate Precedes(a: string, b: string) {
    |a| > |b| || (|a| == |b| && LexLeq(a, b))
  }

  lemma PrecedesIsTotalOrder()
    ensures forall a :: Precedes(a, a)
    ensures forall a, b :: Precedes(a, b) || Precedes(b, a)
    ensures forall a, b :: Precedes(a, b) && Precedes(b, a) ==> a == b
    ensures forall a, b, c :: Precedes(a, b) && Precedes(b, c) ==> Precedes(a, c)
  {
    forall a ensures Precedes(a, a) { LexLeqReflexive(a); }
    forall a, b ensures Precedes(a, b) || Precedes(b, a) { LexLeqTotal(a, b); }
    forall a, b | Precedes(a, b) && Precedes(b, a) ensures a == b { LexLeqAntisymmetric(a, b); }
    forall a, b, c | Precedes(a, b) && Precedes(b, c) ensures Precedes(a, c) {
      if |a| == |b| == |c| { LexLeqTransitive(a, b, c); }
    }
  }

  /** `x` is the element of `s` that is listed first. */
  predicate IsFirst(x: string, s: set<string>) {
    x in s && forall y :: y in s ==> Precedes(x, y)
  }

  lemma {:induction false} FirstExists(s: set<string>)
    requires s != {}
    ensures exists x :: IsFirst(x, s)
    decreases |s|
  {
    PrecedesIsTotalOrder();
    var z :| z in s;
    if s == {z} {
      assert IsFirst(z, s);
    } else {
      FirstExists(s - {z});
      var m :| IsFirst(m, s - {z});
      if Precedes(z, m) {
        assert IsFirst(z, s);
      } else {
        assert IsFirst(m, s);
      }
    }
  }

  /** At most one element of a set is listed first. */
  lemma FirstIsUnique(s: set<string>)
    ensures forall x, y :: IsFirst(x, s) && IsFirst(y, s) ==> x == y
  {
    forall x, y | IsFirst(x, s) && IsFirst(y, s) ensures x == y {
      if |x| == |y| {
        LexLeqAntisymmetric(x, y);
      }
    }
  }

  /** Strings never get longer along the sequence. */
  predicate LongestFirst(s: seq<string>) {
    forall i, j :: 0 <= i < j < |s| ==> |s[i]| >= |s[j]|
  }

  /** The elements of `s`, each once, longest first. */
  function Listing(s: set<string>): (r: seq<string>)
    ensures |r| == |s|
    ensures forall x :: x in r <==> x in s
    ensures Distinct(r)
    ensures LongestFirst(r)
    decreases |s|
  {
    if s == {} then []
    else
      FirstExists(s);
      FirstIsUnique(s);
      var x :| IsFirst(x, s);
      var rest := Listing(s - {x});
      ConsLongest(x, rest);
      [x] + rest
  }

  /** Putting a string no shorter than any of `rest`, and not in it, in front of a
      longest-first listing keeps it a longest-first listing. */
  lemma ConsLongest(x: string, rest: seq<string>)
    requires Distinct(rest) && LongestFirst(rest)
    requires forall y :: y in rest ==> x != y && |x| >= |y|
    ensures Distinct([x] + rest) && LongestFirst([x] + rest)
  {
    forall i | 0 <= i < |rest| ensures x != rest[i] && |x| >= |rest[i]| {
      assert rest[i] in rest;
    }
  }

  /** Listing a set loses and adds nothing. */
  lemma ListingSet(s: set<string>)
    ensures SetOf(Listing(s)) == s
  {
  }
}
