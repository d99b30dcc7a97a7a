/** Joining pieces and applying a function to every element. */
module Sequences {
  import Sorting

  function Flatten<T>(pieces: seq<seq<T>>): seq<T> {
    if pieces == [] then [] else Flatten(pieces[..|pieces| - 1]) + pieces[|pieces| - 1]
  }

  lemma FlattenPush<T>(pieces: seq<seq<T>>, piece: seq<T>)
    ensures Flatten(pieces + [piece]) == Flatten(pieces) + piece
  {
    assert (pieces + [piece])[..|pieces|] == pieces;
  }

  function Apply<T, U>(f: T -> U, s: seq<T>): (r: seq<U>)
    ensures |r| == |s| && forall i :: 0 <= i < |s| ==> r[i] == f(s[i])
  {
    if s == [] then [] else Apply(f, s[..|s| - 1]) + [f(s[|s| - 1])]
  }

  function Without<T>(s: seq<T>, k: nat): (r: seq<T>)
    requires k < |s|
    ensures |r| == |s| - 1
  {
    s[..k] + s[k + 1..]
  }

  lemma WithoutElement<T>(s: seq<T>, k: nat)
    requires k < |s|
    ensures multiset(Without(s, k)) == multiset(s) - multiset{s[k]}
  {
    assert s == s[..k] + [s[k]] + s[k + 1..];
  }

  lemma WithoutAt<T>(s: seq<T>, k: nat, i: nat)
    requires k < |s| && i < |s| - 1
    ensures Without(s, k)[i] == if i < k then s[i] else s[i + 1]
  {
    if i < k {
      assert s[..k][i] == s[i];
    } else {
      assert s[k + 1..][i - k] == s[i + 1];
    }
  }

  lemma ApplyWithout<T, U>(f: T -> U, s: seq<T>, k: nat)
    requires k < |s|
    ensures Apply(f, Without(s, k)) == Without(Apply(f, s), k)
  {
    hide Apply, Without;
    var a, b := Apply(f, Without(s, k)), Without(Apply(f, s), k);
    forall i: nat | i < |s| - 1 ensures a[i] == b[i] {
      WithoutAt(s, k, i);
      WithoutAt(Apply(f, s), k, i);
    }
  }

  lemma SameApply<T, U, V>(f: T -> V, s: seq<T>, g: U -> V, t: seq<U>)
    requires |s| == |t| && forall i :: 0 <= i < |s| ==> f(s[i]) == g(t[i])
    ensures Apply(f, s) == Apply(g, t)
  {
    hide Apply;
  }

  lemma {:induction false} ApplyPermutation<T, U>(f: T -> U, s: seq<T>, t: seq<T>)
    requires multiset(s) == multiset(t)
    ensures multiset(Apply(f, s)) == multiset(Apply(f, t))
    decreases |s|
  {
    hide Apply, Without;
    assert |s| == |multiset(s)| == |t|;
    if s != [] {
      assert s[0] in multiset(s) && s[0] in multiset(t) && s[0] in t;
      var k :| 0 <= k < |t| && t[k] == s[0];
      WithoutElement(s, 0);
      WithoutElement(t, k);
      ApplyPermutation(f, Without(s, 0), Without(t, k));
      ApplyWithout(f, s, 0);
      ApplyWithout(f, t, k);
      WithoutElement(Apply(f, s), 0);
      WithoutElement(Apply(f, t), k);
      assert multiset(Apply(f, s)) == multiset(Without(Apply(f, s), 0)) + multiset{f(s[0])};
      assert multiset(Apply(f, t)) == multiset(Without(Apply(f, t), k)) + multiset{f(t[k])};
    }
  }

  // The set of the elements.

  function Elements<T>(s: seq<T>): set<T> {
    set k | 0 <= k < |s| :: s[k]
  }

  lemma ElementsPush<T>(s: seq<T>, x: T)
    ensures Elements(s + [x]) == Elements(s) + {x}
    ensures Sorting.Distinct(s + [x]) <==> Sorting.Distinct(s) && x !in Elements(s)
  {
    var all := s + [x];
    assert all[|s|] == x && forall k :: 0 <= k < |s| ==> all[k] == s[k];
    forall y ensures y in Elements(all) <==> y in Elements(s) || y == x {
      if y in Elements(s) {
        var k :| 0 <= k < |s| && s[k] == y;
        assert all[k] == y;
      }
    }
    if x in Elements(s) {
      var k :| 0 <= k < |s| && s[k] == x;
      assert all[k] == all[|s|];
    } else {
      assert forall k :: 0 <= k < |s| ==> s[k] in Elements(s);
    }
    if Sorting.Distinct(all) {
      forall i, j | 0 <= i < j < |s| ensures s[i] != s[j] {
        assert all[i] != all[j];
      }
    }
  }

  lemma {:induction false} ElementCount<T>(s: seq<T>)
    ensures |Elements(s)| <= |s|
    ensures |Elements(s)| == |s| <==> Sorting.Distinct(s)
  {
    if s != [] {
      hide Elements, Sorting.Distinct;
      var n := |s| - 1;
      ElementCount(s[..n]);
      ElementsPush(s[..n], s[n]);
      assert s == s[..n] + [s[n]];
    }
  }

  lemma SameSize<T>(a: set<T>, b: set<T>)
    requires a <= b && |a| == |b|
    ensures a == b
  {
    assert b == a + (b - a);
  }
}
