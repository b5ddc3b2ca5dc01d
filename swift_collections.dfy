/** The parts of the Swift standard library that the diff engine leans on:
    `Optional`, `Set<T>(array)`, the iteration order of a `Set`,
    `Array.index(of:)`, `Array.index(where:)` and filtering. */
module SwiftCollections {

  datatype Option<T> = None | Some(value: T)

  /** No value occurs twice in `s`. */
  predicate NoDuplicates<X(==)>(s: seq<X>) {
    forall i, j :: 0 <= i < j < |s| ==> s[i] != s[j]
  }

  /** Position `i` of `s` holds the first occurrence of its value. */
  predicate FirstOccurrence<X(==)>(s: seq<X>, i: int) {
    0 <= i < |s| && forall j :: 0 <= j < i ==> s[j] != s[i]
  }

  /** Position `i` of `s` holds the first value whose hash is `h`. */
  predicate FirstWithHash<X>(s: seq<X>, hash: X -> int, i: int, h: int) {
    0 <= i < |s| && hash(s[i]) == h && forall j :: 0 <= j < i ==> hash(s[j]) != h
  }

  /** `Set<X>(s)`: the values of `s`, compared by equality. */
  function Elements<X(==)>(s: seq<X>): set<X> {
    set x | x in s
  }

  /** `s.index(of: x)`: the first position holding `x`, or nil. */
  function IndexOf<X(==)>(s: seq<X>, x: X): (r: Option<nat>)
    ensures r.None? <==> x !in s
    ensures r.Some? ==> FirstOccurrence(s, r.value) && s[r.value] == x
  {
    if s == [] then None
    else if s[0] == x then Some(0)
    else match IndexOf(s[1..], x)
      case None => None
      case Some(k) => Some(k + 1)
  }

  /** `s.index(where: { $0.hashValue == h })`: the first position holding a
      value whose hash is `h`, or nil. */
  function IndexOfHash<X>(s: seq<X>, hash: X -> int, h: int): (r: Option<nat>)
    ensures r.None? <==> forall j :: 0 <= j < |s| ==> hash(s[j]) != h
    ensures r.Some? ==> FirstWithHash(s, hash, r.value, h)
  {
    if s == [] then None
    else if hash(s[0]) == h then Some(0)
    else match IndexOfHash(s[1..], hash, h)
      case None => None
      case Some(k) => Some(k + 1)
  }

  /** The values of `s` without repeats, each where it first occurs.  Swift
      leaves the iteration order of `Set<X>(s)` unspecified; this model
      enumerates such a set in this order. */
  function Distinct<X(==)>(s: seq<X>): (r: seq<X>)
    ensures forall x :: x in r ==> x in s
    ensures forall x :: x in s ==> x in r
    ensures NoDuplicates(r)
    decreases |s|
  {
    if s == [] then []
    else
      var init, last := s[..|s| - 1], s[|s| - 1];
      assert s == init + [last];
      var d := Distinct(init);
      if last in d then d else d + [last]
  }

  /** The values of `s` that belong to `keep`, in the order of `s`. */
  function Select<X(==)>(s: seq<X>, keep: set<X>): (r: seq<X>)
    ensures forall x :: x in r ==> x in s && x in keep
    ensures forall x :: x in s && x in keep ==> x in r
  {
    if s == [] then []
    else
      var rest := Select(s[1..], keep);
      if s[0] in keep then [s[0]] + rest else rest
  }

  /** Selecting from a sequence without repeats gives one without repeats. */
  lemma {:induction false} SelectDistinct<X>(s: seq<X>, keep: set<X>)
    requires NoDuplicates(s)
    ensures NoDuplicates(Select(s, keep))
  {
    if s != [] {
      SelectDistinct(s[1..], keep);
      assert s[0] !in s[1..];
    }
  }

  /** Selecting none of the values of `s` gives nothing. */
  lemma {:induction false} SelectNone<X>(s: seq<X>, keep: set<X>)
    requires forall x :: x in s ==> x !in keep
    ensures Select(s, keep) == []
  {
    if s != [] {
      assert s[0] in s;
      SelectNone(s[1..], keep);
    }
  }

  /** A sequence without repeats has as many elements as its set of values. */
  lemma {:induction false} DistinctCount<X>(s: seq<X>)
    requires NoDuplicates(s)
    ensures |Elements(s)| == |s|
  {
    if s != [] {
      var init, last := s[..|s| - 1], s[|s| - 1];
      assert s == init + [last];
      DistinctCount(init);
      assert Elements(s) == Elements(init) + {last};
      assert last !in Elements(init);
    }
  }

  /** A sequence without repeats is its own enumeration of its values. */
  lemma {:induction false} DistinctOfDistinct<X>(s: seq<X>)
    requires NoDuplicates(s)
    ensures Distinct(s) == s
  {
    if s != [] {
      var init, last := s[..|s| - 1], s[|s| - 1];
      assert s == init + [last];
      DistinctOfDistinct(init);
      assert last !in init;
    }
  }

  /** Selecting a superset of the values of `s` keeps all of `s`. */
  lemma {:induction false} SelectAll<X>(s: seq<X>, keep: set<X>)
    requires forall x :: x in s ==> x in keep
    ensures Select(s, keep) == s
  {
    if s != [] {
      SelectAll(s[1..], keep);
    }
  }

  /** A sequence without repeats whose only value is `x` is `[x]`. */
  lemma Singleton<X>(s: seq<X>, x: X)
    requires NoDuplicates(s)
    requires forall y :: y in s <==> y == x
    ensures s == [x]
  {
    assert Elements(s) == {x};
    DistinctCount(s);
  }

  /** A sequence without repeats that holds no value is empty. */
  lemma Empty<X>(s: seq<X>)
    requires NoDuplicates(s)
    requires forall y :: y !in s
    ensures s == []
  {
    assert Elements(s) == {};
    DistinctCount(s);
  }
}
