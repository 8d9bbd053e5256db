/** Sequence and set helpers shared by the scheduler: Ruby's `select`
    (Filter) and `detect` (Detect) over an ordered key list, positions in a
    list of distinct keys, and the cardinality facts used for termination. */
module Collections {

  datatype Option<+T> = None | Some(value: T)

  /** A sequence without repeated elements. */
  predicate NoDuplicates<T(==)>(s: seq<T>) {
    forall i, j :: 0 <= i < j < |s| ==> s[i] != s[j]
  }

  /** Ruby's `select`: the elements of `xs` that satisfy `p`, in order. */
  function Filter<T(!new)>(xs: seq<T>, p: T -> bool): (r: seq<T>)
    ensures forall x {:trigger x in r} :: x in r <==> x in xs && p(x)
    ensures |r| <= |xs|
    ensures forall i :: 0 <= i < |r| ==> p(r[i])
  {
    if xs == [] then []
    else (if p(xs[0]) then [xs[0]] else []) + Filter(xs[1..], p)
  }

  /** Filtering keeps the relative order: the result is a subsequence. */
  lemma {:induction false} FilterKeepsOrder<T(!new)>(xs: seq<T>, p: T -> bool, a: nat, b: nat)
    requires NoDuplicates(xs)
    requires a < b < |Filter(xs, p)|
    ensures Filter(xs, p)[a] in xs && Filter(xs, p)[b] in xs
    ensures IndexOf(xs, Filter(xs, p)[a]) < IndexOf(xs, Filter(xs, p)[b])
  {
    var r := Filter(xs, p);
    var rest := Filter(xs[1..], p);
    var x, y := r[a], r[b];
    assert x in r && y in r;
    NoDuplicatesTail(xs);
    var a', b' := if p(xs[0]) then a - 1 else a, if p(xs[0]) then b - 1 else b;
    assert p(xs[0]) ==> r == [xs[0]] + rest;
    assert !p(xs[0]) ==> r == rest;
    if p(xs[0]) && a == 0 {
      assert x == xs[0];
      assert y == rest[b'] && y in rest;
      IndexOfTail(xs, y);
    } else {
      assert x == rest[a'] && y == rest[b'] && x in rest && y in rest;
      FilterKeepsOrder(xs[1..], p, a', b');
      IndexOfTail(xs, x);
      IndexOfTail(xs, y);
    }
  }

  lemma NoDuplicatesTail<T>(xs: seq<T>)
    requires NoDuplicates(xs) && xs != []
    ensures NoDuplicates(xs[1..])
  {
    forall i, j | 0 <= i < j < |xs| - 1 ensures xs[1..][i] != xs[1..][j] {
      assert xs[1..][i] == xs[i + 1] && xs[1..][j] == xs[j + 1];
    }
  }

  /** Ruby's `detect`: the first element of `xs` that satisfies `p`. */
  function Detect<T>(xs: seq<T>, p: T -> bool): (r: Option<T>)
    ensures r.None? <==> forall i :: 0 <= i < |xs| ==> !p(xs[i])
    ensures r.Some? ==> exists i :: 0 <= i < |xs| && xs[i] == r.value && p(xs[i])
                          && forall k :: 0 <= k < i ==> !p(xs[k])
  {
    if xs == [] then None
    else if p(xs[0]) then Some(xs[0])
    else
      var r := Detect(xs[1..], p);
      assert forall i :: 1 <= i < |xs| ==> xs[1..][i - 1] == xs[i];
      r
  }

  lemma NoMembersIsEmpty<T>(u: seq<T>)
    ensures (forall x :: x !in u) ==> u == []
  {
    if u != [] {
      assert u[0] in u;
    }
  }

  /** The position of the first occurrence of `x` in `xs`. */
  function IndexOf<T(==)>(xs: seq<T>, x: T): (i: nat)
    requires x in xs
    ensures i < |xs| && xs[i] == x
    ensures forall k :: 0 <= k < i ==> xs[k] != x
  {
    if xs[0] == x then 0 else 1 + IndexOf(xs[1..], x)
  }

  /** In a sequence without repetitions, each position is its element's index. */
  lemma IndexOfDistinct<T>(xs: seq<T>, i: nat)
    requires NoDuplicates(xs) && i < |xs|
    ensures IndexOf(xs, xs[i]) == i
  {
  }

  /** A non-empty sequence is its initial part followed by its last element. */
  lemma InitLast<T>(xs: seq<T>)
    requires xs != []
    ensures forall x :: x in xs <==> x in xs[..|xs| - 1] || x == xs[|xs| - 1]
    ensures forall k :: 0 <= k < |xs| - 1 ==> xs[..|xs| - 1][k] == xs[k]
  {
    assert xs == xs[..|xs| - 1] + [xs[|xs| - 1]];
  }

  /** Appending an element not yet present keeps a sequence free of repetitions. */
  lemma AppendFresh<T>(xs: seq<T>, x: T)
    requires NoDuplicates(xs) && x !in xs
    ensures NoDuplicates(xs + [x])
    ensures forall y :: y in xs + [x] <==> y in xs || y == x
  {
  }

  /** The prefix of length i + 1 is the prefix of length i and the i-th element. */
  lemma TakeNext<T>(xs: seq<T>, i: nat)
    requires i < |xs|
    ensures forall x :: x in xs[..i + 1] <==> x in xs[..i] || x == xs[i]
  {
    assert xs[..i + 1] == xs[..i] + [xs[i]];
  }

  /** Ruby's `delete` on an ordered key list: every occurrence of `x` goes. */
  function Without<T(==,!new)>(xs: seq<T>, x: T): (r: seq<T>)
    ensures forall y {:trigger y in r} :: y in r <==> y in xs && y != x
  {
    if xs == [] then []
    else (if xs[0] == x then [] else [xs[0]]) + Without(xs[1..], x)
  }

  lemma IndexOfTail<T>(xs: seq<T>, x: T)
    requires NoDuplicates(xs) && xs != [] && x in xs[1..]
    ensures x in xs && IndexOf(xs, x) == IndexOf(xs[1..], x) + 1
  {
    var k := IndexOf(xs[1..], x);
    assert xs[k + 1] == x;
    assert xs[0] != x;
  }

  /** The elements of a sequence, as a set. */
  function Elements<T(!new)>(s: seq<T>): (r: set<T>)
    ensures forall x :: x in r <==> x in s
  {
    set x | x in s
  }

  /** A sequence has at least as many positions as distinct elements. */
  lemma {:induction false} ElementsBound<T(!new)>(s: seq<T>)
    ensures |Elements(s)| <= |s|
  {
    if s != [] {
      var s' := s[..|s| - 1];
      ElementsBound(s');
      assert Elements(s) == Elements(s') + {s[|s| - 1]} by {
        assert s == s' + [s[|s| - 1]];
      }
    }
  }

  /** An element of `xs` of smallest rank. */
  function LowestRanked<T>(xs: seq<T>, rank: map<T, nat>): (m: T)
    requires xs != [] && forall x :: x in xs ==> x in rank
    ensures m in xs && forall x :: x in xs ==> rank[m] <= rank[x]
  {
    if |xs| == 1 then xs[0]
    else
      var m := LowestRanked(xs[1..], rank);
      assert forall x :: x in xs ==> x == xs[0] || x in xs[1..];
      if rank[xs[0]] <= rank[m] then xs[0] else m
  }

  /** A set holding every integer within distance `k` of `c` has at least
      2k+1 elements. */
  lemma {:induction false} WindowBound(c: int, k: nat, u: set<int>)
    requires forall v :: c - k <= v <= c + k ==> v in u
    ensures 2 * k + 1 <= |u|
  {
    if k == 0 {
      assert c in u;
    } else {
      var u' := u - {c - k, c + k};
      assert u == u' + {c - k, c + k};
      WindowBound(c, k - 1, u');
    }
  }
}
