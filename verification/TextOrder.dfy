/** The order of JavaScript strings: lexicographic on UTF-16 code units. */
module TextOrder {
  import opened UnicodeText

  predicate TextLeq(a: Text, b: Text) {
    if a == [] then true
    else if b == [] then false
    else a[0] < b[0] || (a[0] == b[0] && TextLeq(a[1..], b[1..]))
  }

  /** The texts agree up to `k` and differ there. */
  ghost predicate DifferFirst(a: Text, b: Text, k: int) {
    0 <= k < |a| && k < |b| && a[..k] == b[..k] && a[k] != b[k]
  }

  /** One text comes before another if it starts it, or if it has the lesser unit where they first differ. */
  lemma {:induction false} TextLeqMeaning(a: Text, b: Text)
    ensures TextLeq(a, b) <==> a <= b || exists k :: DifferFirst(a, b, k) && a[k] < b[k]
  {
    if a != [] && b != [] {
      if a[0] == b[0] {
        var u, v := a[1..], b[1..];
        TextLeqMeaning(u, v);
        assert a == [a[0]] + u && b == [b[0]] + v;
        assert u <= v <==> a <= b;
        forall k | DifferFirst(u, v, k) ensures DifferFirst(a, b, k + 1) && u[k] == a[k + 1] && v[k] == b[k + 1] {
          assert a[..k + 1] == [a[0]] + u[..k] && b[..k + 1] == [b[0]] + v[..k];
        }
        forall k | DifferFirst(a, b, k) ensures DifferFirst(u, v, k - 1) && u[k - 1] == a[k] && v[k - 1] == b[k] {
          assert k > 0 && u[..k - 1] == a[..k][1..] && v[..k - 1] == b[..k][1..];
        }
      } else {
        assert DifferFirst(a, b, 0);
        forall k | DifferFirst(a, b, k) ensures k == 0 {
          if k > 0 {
            SameStart(a, b, k);
          }
        }
      }
    }
  }

  lemma SameStart(a: Text, b: Text, k: nat)
    requires 0 < k <= |a| && k <= |b| && a[..k] == b[..k]
    ensures a[0] == b[0]
  {
    assert a[..k][0] == a[0] && b[..k][0] == b[0];
  }

  lemma {:induction false} TextTotal(a: Text, b: Text)
    ensures TextLeq(a, b) || TextLeq(b, a)
    ensures TextLeq(a, b) && TextLeq(b, a) ==> a == b
  {
    if a != [] && b != [] {
      TextTotal(a[1..], b[1..]);
      assert a == [a[0]] + a[1..] && b == [b[0]] + b[1..];
    }
  }

  lemma {:induction false} TextTransitive(a: Text, b: Text, c: Text)
    requires TextLeq(a, b) && TextLeq(b, c)
    ensures TextLeq(a, c)
  {
    if a != [] && b != [] && c != [] && a[0] == b[0] == c[0] {
      TextTransitive(a[1..], b[1..], c[1..]);
    }
  }
}
