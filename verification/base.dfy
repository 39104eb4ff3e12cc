/** Small value types and sequence helpers shared by the lease manager and
    the schema exporter. */
module Base {

  datatype Option<+T> = None | Some(value: T)

  /** A value, or the error that the Python code raises instead. */
  datatype Result<+T, +E> = Ok(value: T) | Err(error: E)

  predicate Distinct<T(==)>(s: seq<T>) {
    forall i, j :: 0 <= i < j < |s| ==> s[i] != s[j]
  }

  /** `a` is `b` with some elements left out, order kept. */
  predicate IsSubseq<T(==)>(a: seq<T>, b: seq<T>)
    decreases |b|
  {
    a == [] || (b != [] && if a[0] == b[0] then IsSubseq(a[1..], b[1..]) else IsSubseq(a, b[1..]))
  }

  /** The elements of `xs` that satisfy `p`, in the order of `xs`
      (a Python list comprehension with an `if`). */
  function Keep<T(!new)>(xs: seq<T>, p: T -> bool): (r: seq<T>)
    ensures forall x :: x in r <==> x in xs && p(x)
    ensures IsSubseq(r, xs)
    ensures Distinct(xs) ==> Distinct(r)
  {
    if xs == [] then []
    else
      var rest := Keep(xs[1..], p);
      assert forall x :: x in xs <==> x == xs[0] || x in xs[1..];
      if p(xs[0]) then [xs[0]] + rest else rest
  }

  /** Keep distributes over appending one element at the end, which is how
      the loops of the model extend a filtered prefix. */
  lemma {:induction false} KeepSnoc<T(!new)>(xs: seq<T>, x: T, p: T -> bool)
    ensures Keep(xs + [x], p) == Keep(xs, p) + (if p(x) then [x] else [])
  {
    if xs == [] {
      assert [x][1..] == [];
    } else {
      assert (xs + [x])[1..] == xs[1..] + [x];
      KeepSnoc(xs[1..], x, p);
    }
  }

  /** The head of a filtered list is the first element that passes. */
  lemma {:induction false} KeepHead<T(!new)>(xs: seq<T>, p: T -> bool)
    ensures Keep(xs, p) == [] <==> FirstMatch(xs, p) == |xs|
    ensures Keep(xs, p) != [] ==> Keep(xs, p)[0] == xs[FirstMatch(xs, p)]
  {
    if xs != [] && !p(xs[0]) {
      KeepHead(xs[1..], p);
    }
  }

  /** Filtering a concatenation filters each part. */
  lemma {:induction false} KeepConcat<T(!new)>(a: seq<T>, b: seq<T>, p: T -> bool)
    ensures Keep(a + b, p) == Keep(a, p) + Keep(b, p)
  {
    if a != [] {
      assert (a + b)[1..] == a[1..] + b;
      KeepConcat(a[1..], b, p);
    } else {
      assert a + b == b;
    }
  }

  /** A filter every element passes changes nothing. */
  lemma {:induction false} KeepAll<T(!new)>(xs: seq<T>, p: T -> bool)
    requires forall x :: x in xs ==> p(x)
    ensures Keep(xs, p) == xs
  {
    if xs != [] {
      assert forall x :: x in xs[1..] ==> x in xs;
      KeepAll(xs[1..], p);
    }
  }

  /** Filtering out exactly one element of a list. */
  lemma KeepDrop<T(!new)>(a: seq<T>, x: T, b: seq<T>, p: T -> bool)
    requires !p(x) && (forall y :: y in a ==> p(y)) && (forall y :: y in b ==> p(y))
    ensures Keep(a + [x] + b, p) == a + b
  {
    var kx := Keep([x], p);
    assert kx == [] by {
      assert [x][1..] == [];
    }
    KeepConcat(a, [x], p);
    KeepConcat(a + [x], b, p);
    KeepAll(a, p);
    KeepAll(b, p);
    assert Keep(a + [x], p) == a;
  }

  /** In a list without repeats, no element occurs before its own place. */
  lemma NotInPrefix<T>(ks: seq<T>, n: nat)
    requires Distinct(ks) && n < |ks|
    ensures ks[n] !in ks[..n]
  {
    forall i | 0 <= i < n ensures ks[..n][i] != ks[n] {
      assert ks[..n][i] == ks[i];
    }
  }

  /** A non-empty list is its prefix followed by its last element. */
  lemma SplitLast<T>(s: seq<T>)
    requires s != []
    ensures s == s[..|s| - 1] + [s[|s| - 1]]
  {
  }

  /** Position of the first element of `xs` satisfying `p`, or |xs| when
      there is none (a `for ... if ...: break` search). */
  function FirstMatch<T>(xs: seq<T>, p: T -> bool): (q: nat)
    ensures q <= |xs|
    ensures q < |xs| ==> p(xs[q])
    ensures forall n :: 0 <= n < q ==> !p(xs[n])
  {
    if xs == [] then 0
    else if p(xs[0]) then 0
    else 1 + FirstMatch(xs[1..], p)
  }

  /** The first match is the one every earlier element fails. */
  lemma FirstMatchAt<T>(xs: seq<T>, p: T -> bool, n: nat)
    requires n < |xs| && p(xs[n]) && forall i :: 0 <= i < n ==> !p(xs[i])
    ensures FirstMatch(xs, p) == n
  {
  }

  /** Two tests that agree on every element find the same first match. */
  lemma FirstMatchSame<T>(xs: seq<T>, p: T -> bool, q: T -> bool)
    requires forall i :: 0 <= i < |xs| ==> p(xs[i]) == q(xs[i])
    ensures FirstMatch(xs, p) == FirstMatch(xs, q)
  {
  }

  /** A match in a prefix is the first match of the whole list. */
  lemma FirstMatchPrefix<T>(xs: seq<T>, p: T -> bool, n: nat)
    requires n <= |xs| && FirstMatch(xs[..n], p) < n
    ensures FirstMatch(xs, p) == FirstMatch(xs[..n], p)
  {
    var q := FirstMatch(xs[..n], p);
    assert xs[..n][q] == xs[q];
    forall i | 0 <= i < q ensures !p(xs[i]) {
      assert xs[..n][i] == xs[i];
    }
    FirstMatchAt(xs, p, q);
  }

  /** The list 0, 1, ..., n - 1. */
  function Range(n: nat): (r: seq<nat>)
    ensures |r| == n
    ensures forall i :: 0 <= i < n ==> r[i] == i
  {
    if n == 0 then [] else Range(n - 1) + [n - 1]
  }

  /** The length of the Python slice `s[:k]` for a list of length `len`:
      a negative `k` counts from the end. */
  function SliceLen(len: nat, k: int): nat {
    if k >= 0 then (if k <= len then k else len)
    else if len + k >= 0 then len + k
    else 0
  }

  /** Python's `s[:k]`. */
  function PySlice<T>(s: seq<T>, k: int): (r: seq<T>)
    ensures |r| <= |s| && r == s[..|r|]
    ensures k >= 0 ==> |r| == if k <= |s| then k else |s|
    ensures k < 0 ==> |r| == if |s| + k >= 0 then |s| + k else 0
  {
    s[..SliceLen(|s|, k)]
  }

  lemma {:induction false} SubseqMembers<T>(a: seq<T>, b: seq<T>)
    requires IsSubseq(a, b)
    ensures forall x :: x in a ==> x in b
    decreases |b|
  {
    if a == [] {
    } else if a[0] == b[0] {
      SubseqMembers(a[1..], b[1..]);
      assert forall x :: x in a ==> x == a[0] || x in a[1..];
    } else {
      SubseqMembers(a, b[1..]);
    }
  }
}
