/**
 * The abstract view of predicate removal: which elements of a list's contents
 * survive `remove_if(f)`, and in what order.
 */
module Sequences {

  /** The elements of `s` that `f` does not select, in their original order. */
  function Surviving<T>(s: seq<T>, f: T -> bool): (r: seq<T>)
    ensures |r| <= |s|
  {
    if s == [] then [] else (if f(s[0]) then [] else [s[0]]) + Surviving(s[1..], f)
  }

  /**
   * The entries of `xs` whose matching key in `keys` is one `f` does not select,
   * in their original order: which nodes survive, decided by the elements they hold.
   */
  function SurvivingBy<A, K>(xs: seq<A>, keys: seq<K>, f: K -> bool): (r: seq<A>)
    requires |xs| == |keys|
    ensures |r| <= |xs|
  {
    if xs == [] then [] else (if f(keys[0]) then [] else [xs[0]]) + SurvivingBy(xs[1..], keys[1..], f)
  }

  /** Deciding by keys distributes over concatenation, like `SurvivingAppend`. */
  lemma {:induction false} SurvivingByAppend<A, K>(xs: seq<A>, ys: seq<A>, kx: seq<K>, ky: seq<K>, f: K -> bool)
    requires |xs| == |kx| && |ys| == |ky|
    ensures SurvivingBy(xs + ys, kx + ky, f) == SurvivingBy(xs, kx, f) + SurvivingBy(ys, ky, f)
  {
    if xs == [] {
      assert xs + ys == ys && kx + ky == ky;
    } else {
      assert (xs + ys)[1..] == xs[1..] + ys && (kx + ky)[1..] == kx[1..] + ky;
      SurvivingByAppend(xs[1..], ys, kx[1..], ky, f);
    }
  }

  /** Deciding each element by itself is plain removal. */
  lemma {:induction false} SurvivingBySelf<T>(s: seq<T>, f: T -> bool)
    ensures SurvivingBy(s, s, f) == Surviving(s, f)
  {
    if s != [] {
      SurvivingBySelf(s[1..], f);
    }
  }

  /** Every survivor is an element of `s` that `f` rejects. */
  lemma {:induction false} SurvivingMembers<T>(s: seq<T>, f: T -> bool)
    ensures forall x :: x in Surviving(s, f) ==> x in s && !f(x)
  {
    if s != [] {
      SurvivingMembers(s[1..], f);
    }
  }

  /** `r` can be obtained from `s` by deleting some elements, keeping the order of the rest. */
  ghost predicate IsSubsequence<T>(r: seq<T>, s: seq<T>)
    decreases |s|
  {
    r == [] ||
    (s != [] && ((r[0] == s[0] && IsSubsequence(r[1..], s[1..])) || IsSubsequence(r, s[1..])))
  }

  /** Filtering distributes over concatenation: a single forward pass may decide node by node. */
  lemma {:induction false} SurvivingAppend<T>(a: seq<T>, b: seq<T>, f: T -> bool)
    ensures Surviving(a + b, f) == Surviving(a, f) + Surviving(b, f)
  {
    if a == [] {
      assert a + b == b;
    } else {
      assert (a + b)[1..] == a[1..] + b;
      SurvivingAppend(a[1..], b, f);
    }
  }

  /** The survivors keep their original relative order. */
  lemma {:induction false} SurvivingIsSubsequence<T>(s: seq<T>, f: T -> bool)
    ensures IsSubsequence(Surviving(s, f), s)
  {
    if s != [] {
      SurvivingIsSubsequence(s[1..], f);
      var rest := Surviving(s[1..], f);
      if f(s[0]) {
        assert Surviving(s, f) == rest;
      } else {
        assert Surviving(s, f) == [s[0]] + rest;
        assert ([s[0]] + rest)[1..] == rest;
      }
    }
  }

  /** Every element `f` rejects survives with all its occurrences; every element `f` selects is gone. */
  lemma {:induction false} SurvivingCount<T>(s: seq<T>, f: T -> bool, x: T)
    ensures multiset(Surviving(s, f))[x] == if f(x) then 0 else multiset(s)[x]
  {
    if s != [] {
      SurvivingCount(s[1..], f, x);
      assert s == [s[0]] + s[1..];
    }
  }

  /** When `f` selects no element, every element survives. */
  lemma {:induction false} SurvivingKeepsAll<T>(s: seq<T>, f: T -> bool)
    requires forall x :: x in s ==> !f(x)
    ensures Surviving(s, f) == s
  {
    if s != [] {
      assert !f(s[0]);
      assert forall x :: x in s[1..] ==> x in s;
      SurvivingKeepsAll(s[1..], f);
      assert s == [s[0]] + s[1..];
    }
  }

  /** Nothing is removed exactly when `f` selects no element. */
  lemma SurvivingUnchangedIff<T>(s: seq<T>, f: T -> bool)
    ensures Surviving(s, f) == s <==> forall x :: x in s ==> !f(x)
  {
    if Surviving(s, f) == s {
      SurvivingMembers(s, f);
    }
    if forall x :: x in s ==> !f(x) {
      SurvivingKeepsAll(s, f);
    }
  }

  /** Everything is removed exactly when `f` selects every element. */
  lemma {:induction false} SurvivingEmptyIff<T>(s: seq<T>, f: T -> bool)
    ensures Surviving(s, f) == [] <==> forall x :: x in s ==> f(x)
  {
    if Surviving(s, f) == [] {
      forall x | x in s ensures f(x) {
        SurvivingCount(s, f, x);
      }
    } else {
      SurvivingMembers(s, f);
      assert Surviving(s, f)[0] in Surviving(s, f);
    }
  }

  /** Removing twice with the same predicate removes nothing more. */
  lemma {:induction false} SurvivingIdempotent<T>(s: seq<T>, f: T -> bool)
    ensures Surviving(Surviving(s, f), f) == Surviving(s, f)
  {
    SurvivingMembers(s, f);
    SurvivingUnchangedIff(Surviving(s, f), f);
  }
}
