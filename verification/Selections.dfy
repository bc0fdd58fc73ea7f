/**
 * Filters and permutations of sequences: which places of a sequence a test keeps and in which order, the elements that
 * stand there, and what two sequences with the same elements have in common. Nothing in this module is about the
 * program itself; the modules that filter, sort or rank say with it what they keep.
 */
module Selections {

  /** `at` lists exactly the places below `n` where `p` holds, in ascending order. */
  ghost predicate Selects(at: seq<nat>, n: nat, p: nat -> bool) {
    && (forall i, j :: 0 <= i < j < |at| ==> at[i] < at[j])
    && (forall i :: 0 <= i < |at| ==> at[i] < n && p(at[i]))
    && (forall k: nat :: k < n && p(k) ==> k in at)
  }

  /** The places below `n` where `p` holds. */
  function Places(n: nat, p: nat -> bool): seq<nat> {
    if n == 0 then [] else if p(n - 1) then Places(n - 1, p) + [n - 1] else Places(n - 1, p)
  }

  lemma {:induction false} PlacesSelect(n: nat, p: nat -> bool)
    ensures Selects(Places(n, p), n, p)
  {
    if n > 0 {
      PlacesSelect(n - 1, p);
      if p(n - 1) {
        SelectsNext(Places(n - 1, p), n, p);
      } else {
        SelectsSkip(Places(n - 1, p), n, p);
      }
    }
  }

  lemma {:induction false} SelectsNext(at: seq<nat>, n: nat, p: nat -> bool)
    requires n > 0 && Selects(at, n - 1, p) && p(n - 1)
    ensures Selects(at + [n - 1], n, p)
  {
    var next := at + [n - 1];
    forall k: nat | k < n && p(k) ensures k in next {
      if k < n - 1 {
        assert k in at;
      } else {
        assert next[|at|] == k;
      }
    }
  }

  lemma {:induction false} SelectsSkip(at: seq<nat>, n: nat, p: nat -> bool)
    requires n > 0 && Selects(at, n - 1, p) && !p(n - 1)
    ensures Selects(at, n, p)
  {
  }

  // ----- keeping the elements that meet a predicate ------------------------

  /** The elements among the first `n` that meet `p`. */
  function Filtered<T>(xs: seq<T>, n: nat, p: T -> bool): seq<T>
    requires n <= |xs|
  {
    if n == 0 then []
    else if p(xs[n - 1]) then Filtered(xs, n - 1, p) + [xs[n - 1]]
    else Filtered(xs, n - 1, p)
  }

  /** The places of the elements that meet `p`. */
  function Where<T>(xs: seq<T>, p: T -> bool): nat -> bool {
    (k: nat) => k < |xs| && p(xs[k])
  }

  lemma {:induction false} FilteredLength<T>(xs: seq<T>, n: nat, p: T -> bool)
    requires n <= |xs|
    ensures |Filtered(xs, n, p)| == |Places(n, Where(xs, p))|
  {
    if n > 0 {
      FilteredLength(xs, n - 1, p);
    }
  }

  lemma {:induction false} FilteredAt<T>(xs: seq<T>, n: nat, p: T -> bool, i: nat)
    requires n <= |xs| && i < |Filtered(xs, n, p)|
    ensures i < |Places(n, Where(xs, p))|
    ensures var k := Places(n, Where(xs, p))[i]; k < n && Filtered(xs, n, p)[i] == xs[k]
  {
    FilteredLength(xs, n, p);
    FilteredLength(xs, n - 1, p);
    if i < |Filtered(xs, n - 1, p)| {
      FilteredAt(xs, n - 1, p, i);
    }
  }

  /** A filter keeps exactly the elements that meet its predicate, each at every place it has, in order. */
  lemma {:induction false} FilteredSelects<T>(xs: seq<T>, n: nat, p: T -> bool) returns (at: seq<nat>)
    requires n <= |xs|
    ensures Selects(at, n, Where(xs, p))
    ensures |at| == |Filtered(xs, n, p)|
    ensures forall i :: 0 <= i < |at| ==> at[i] < |xs| && Filtered(xs, n, p)[i] == xs[at[i]]
  {
    at := Places(n, Where(xs, p));
    PlacesSelect(n, Where(xs, p));
    FilteredLength(xs, n, p);
    forall i | 0 <= i < |at| ensures at[i] < |xs| && Filtered(xs, n, p)[i] == xs[at[i]] {
      FilteredAt(xs, n, p, i);
    }
  }

  lemma {:induction false} FilteredMembers<T>(xs: seq<T>, p: T -> bool, x: T)
    ensures x in Filtered(xs, |xs|, p) <==> x in xs && p(x)
  {
    var at := FilteredSelects(xs, |xs|, p);
    if x in xs && p(x) {
      var k: nat :| k < |xs| && xs[k] == x;
      assert Where(xs, p)(k) && k in at;
    }
  }

  lemma {:induction false} FilteredPrefix<T>(xs: seq<T>, ys: seq<T>, n: nat, p: T -> bool)
    requires n <= |xs|
    ensures Filtered(xs + ys, n, p) == Filtered(xs, n, p)
  {
    if n > 0 {
      FilteredPrefix(xs, ys, n - 1, p);
    }
  }

  lemma {:induction false} FilteredConcat<T>(xs: seq<T>, ys: seq<T>, n: nat, p: T -> bool)
    requires n <= |ys|
    ensures Filtered(xs + ys, |xs| + n, p) == Filtered(xs, |xs|, p) + Filtered(ys, n, p)
  {
    if n == 0 {
      FilteredPrefix(xs, ys, |xs|, p);
    } else {
      FilteredConcat(xs, ys, n - 1, p);
      assert (xs + ys)[|xs| + n - 1] == ys[n - 1];
    }
  }

  lemma {:induction false} FilteredAll<T>(xs: seq<T>, n: nat, p: T -> bool)
    requires n <= |xs| && forall k :: 0 <= k < n ==> p(xs[k])
    ensures Filtered(xs, n, p) == xs[..n]
  {
    if n > 0 {
      FilteredAll(xs, n - 1, p);
    }
  }

  lemma {:induction false} FilteredNone<T>(xs: seq<T>, n: nat, p: T -> bool)
    requires n <= |xs| && forall k :: 0 <= k < n ==> !p(xs[k])
    ensures Filtered(xs, n, p) == []
  {
    if n > 0 {
      FilteredNone(xs, n - 1, p);
    }
  }

  ghost predicate KeysAscend<T(!new)>(xs: seq<T>, key: T -> nat) {
    forall i, j :: 0 <= i < j < |xs| ==> key(xs[i]) < key(xs[j])
  }

  /** Of elements in ascending order, a prefix of the filtered ones is ascending and skips none that meets `p`. */
  lemma {:induction false} FilteredInOrder<T(!new)>(xs: seq<T>, p: T -> bool, key: T -> nat, n: nat)
    requires KeysAscend(xs, key) && n <= |Filtered(xs, |xs|, p)|
    ensures var some := Filtered(xs, |xs|, p)[..n];
            && KeysAscend(some, key)
            && (forall x :: x in some ==> x in xs && p(x))
            && (forall x, y :: x in some && y in xs && key(y) < key(x) && p(y) ==> y in some)
  {
    var all := Filtered(xs, |xs|, p);
    var at := FilteredSelects(xs, |xs|, p);
    var some := all[..n];
    forall x, y | x in some && y in xs && key(y) < key(x) && p(y) ensures y in some {
      var i :| 0 <= i < n && some[i] == x;
      var j: nat :| j < |xs| && xs[j] == y;
      assert Where(xs, p)(j) && j in at;
      var h :| 0 <= h < |at| && at[h] == j;
      assert j < at[i] && h < i;
      assert some[h] == y;
    }
  }

  // ----- places and multiplicities -----------------------------------------

  lemma {:induction false} PlaceOf<T>(xs: seq<T>, x: T) returns (i: nat)
    requires x in xs
    ensures i < |xs| && xs[i] == x
  {
    i :| 0 <= i < |xs| && xs[i] == x;
  }

  lemma {:induction false} MultisetTake<T>(xs: seq<T>, n: nat)
    requires 0 < n <= |xs|
    ensures multiset(xs[..n]) == multiset(xs[..n - 1]) + multiset{xs[n - 1]}
  {
    assert xs[..n] == xs[..n - 1] + [xs[n - 1]];
  }

  lemma {:induction false} MultisetLast<T>(xs: seq<T>)
    requires xs != []
    ensures multiset(xs) == multiset(xs[..|xs| - 1]) + multiset{xs[|xs| - 1]}
  {
    MultisetTake(xs, |xs|);
    assert xs[..|xs|] == xs;
  }

  lemma {:induction false} MultisetMember<T>(xs: seq<T>, ys: seq<T>, x: T)
    requires multiset(xs) == multiset(ys)
    ensures x in xs <==> x in ys
  {
    assert x in xs <==> x in multiset(xs);
    assert x in ys <==> x in multiset(ys);
  }

  function Concat<T>(xss: seq<seq<T>>): seq<T> {
    if xss == [] then [] else Concat(xss[..|xss| - 1]) + xss[|xss| - 1]
  }

  lemma {:induction false} ConcatSnoc<T>(xss: seq<seq<T>>, xs: seq<T>)
    ensures Concat(xss + [xs]) == Concat(xss) + xs
  {
    assert (xss + [xs])[..|xss|] == xss;
  }

  lemma {:induction false} Regroup<T>(a: seq<T>, b: seq<T>, c: seq<T>)
    ensures a + b + c == a + (b + c)
  {
  }

  // ----- permutations ----------------------------------------------------

  lemma {:induction false} PlaceAmongOthers<T>(cs: seq<T>, ranked: seq<T>, i: nat, j: nat) returns (h: nat)
    requires multiset(ranked) == multiset(cs) && ranked != [] && i < |cs| && ranked[0] == cs[i]
    requires j < |cs| && j != i
    ensures 1 <= h < |ranked| && ranked[h] == cs[j]
  {
    RestIsOthers(cs, ranked, i);
    var others := cs[..i] + cs[i + 1..];
    assert cs[j] == others[if j < i then j else j - 1];
    assert cs[j] in multiset(ranked[1..]);
    var k :| 0 <= k < |ranked[1..]| && ranked[1..][k] == cs[j];
    h := k + 1;
  }

  lemma {:induction false} PlaceOfOther<T>(cs: seq<T>, rest: seq<T>, i: nat, h: nat) returns (j: nat)
    requires i < |cs| && multiset(rest) == multiset(cs[..i] + cs[i + 1..]) && h < |rest|
    ensures j < |cs| && j != i && cs[j] == rest[h]
  {
    var others := cs[..i] + cs[i + 1..];
    assert rest[h] in multiset(others);
    var k :| 0 <= k < |others| && others[k] == rest[h];
    j := if k < i then k else k + 1;
  }

  lemma {:induction false} SameLength<T>(a: seq<T>, b: seq<T>)
    requires multiset(a) == multiset(b)
    ensures |a| == |b|
  {
    assert |a| == |multiset(a)|;
    assert |b| == |multiset(b)|;
  }

  lemma {:induction false} RestIsOthers<T>(cs: seq<T>, ranked: seq<T>, i: nat)
    requires multiset(ranked) == multiset(cs) && ranked != [] && i < |cs| && ranked[0] == cs[i]
    ensures multiset(ranked[1..]) == multiset(cs[..i] + cs[i + 1..])
  {
    WithoutOne(cs, i);
    assert ranked == [ranked[0]] + ranked[1..];
    Cancelled(ranked[0], multiset(ranked[1..]), multiset(cs[..i] + cs[i + 1..]));
  }

  lemma {:induction false} Cancelled<T>(x: T, a: multiset<T>, b: multiset<T>)
    requires multiset{x} + a == multiset{x} + b
    ensures a == b
  {
    assert a == (multiset{x} + a) - multiset{x};
    assert b == (multiset{x} + b) - multiset{x};
  }

  lemma {:induction false} WithoutOne<T>(xs: seq<T>, i: nat)
    requires i < |xs|
    ensures multiset(xs) == multiset{xs[i]} + multiset(xs[..i] + xs[i + 1..])
  {
    assert xs == xs[..i] + [xs[i]] + xs[i + 1..];
  }

  lemma {:induction false} RestsAlike<T>(a: seq<T>, b: seq<T>)
    requires a != [] && b != [] && a[0] == b[0] && multiset(a) == multiset(b)
    ensures multiset(a[1..]) == multiset(b[1..])
  {
    assert a == [a[0]] + a[1..] && b == [b[0]] + b[1..];
    Cancelled(a[0], multiset(a[1..]), multiset(b[1..]));
  }
}
