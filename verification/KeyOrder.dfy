/**
 Lexicographic order on keys and the sorted listing of a finite key set. Python's `sorted`
 over distinct strings is determined by this order, so the listing is a function.
 */
module KeyOrder {

  /** Python's `a <= b` on strings. */
  predicate Le(a: string, b: string) {
    a == [] || (b != [] && (a[0] < b[0] || (a[0] == b[0] && Le(a[1..], b[1..]))))
  }

  predicate Lt(a: string, b: string) {
    Le(a, b) && a != b
  }

  lemma Antisymmetric(a: string, b: string)
    requires Le(a, b) && Le(b, a)
    ensures a == b
  {
    if a != [] {
      Antisymmetric(a[1..], b[1..]);
      assert a == [a[0]] + a[1..] && b == [b[0]] + b[1..];
    }
  }

  lemma Transitive(a: string, b: string, c: string)
    requires Le(a, b) && Le(b, c)
    ensures Le(a, c)
  {
    if a != [] && a[0] == b[0] == c[0] {
      Transitive(a[1..], b[1..], c[1..]);
    }
  }

  lemma Total(a: string, b: string)
    ensures Le(a, b) || Le(b, a)
  {
    if a != [] && b != [] && a[0] == b[0] {
      Total(a[1..], b[1..]);
    }
  }

  predicate Least(x: string, s: set<string>) {
    x in s && forall y | y in s :: Le(x, y)
  }

  /** The strings differ first at `k`, and there `a` has the smaller character. */
  ghost predicate SmallerAt(a: string, b: string, k: nat) {
    k < |a| && k < |b| && a[..k] == b[..k] && a[k] < b[k]
  }

  /** The order is lexicographic: a proper prefix, or the smaller character at the first difference. */
  lemma {:induction false} FirstDifference(a: string, b: string)
    ensures Lt(a, b) <==> a < b || exists k :: SmallerAt(a, b, k)
  {
    if a != [] && b != [] {
      assert a == [a[0]] + a[1..] && b == [b[0]] + b[1..];
      if a[0] == b[0] {
        FirstDifference(a[1..], b[1..]);
        forall k: nat ensures SmallerAt(a[1..], b[1..], k) <==> SmallerAt(a, b, k + 1) {
          if k < |a[1..]| && k < |b[1..]| {
            assert a[..k + 1] == [a[0]] + a[1..][..k] && b[..k + 1] == [b[0]] + b[1..][..k];
          }
        }
        if k: nat :| SmallerAt(a, b, k) { assert SmallerAt(a[1..], b[1..], k - 1); }
        assert a < b <==> a[1..] < b[1..];
      } else {
        if a[0] < b[0] { assert SmallerAt(a, b, 0); }
      }
    }
  }

  lemma LeastExists(s: set<string>) returns (m: string)
    requires s != {}
    ensures Least(m, s)
  {
    var x :| x in s;
    var rest := s - {x};
    Total(x, x);
    if rest == {} {
      assert s == {x};
      return x;
    }
    var y := LeastExists(rest);
    Total(x, y);
    if Le(x, y) {
      forall z | z in s ensures Le(x, z) {
        if z != x { Transitive(x, y, z); }
      }
      return x;
    }
    return y;
  }

  /** The elements of `s` in increasing order. */
  function Sorted(s: set<string>): (r: seq<string>)
    ensures |r| == |s|
    ensures forall x :: x in r <==> x in s
    ensures forall i, j | 0 <= i < j < |r| :: Lt(r[i], r[j])
    decreases |s|
  {
    if s == {} then [] else
      var m := Smallest(s);
      var tail := Sorted(s - {m});
      LeastFirst(s, m, tail);
      [m] + tail
  }

  lemma LeastFirst(s: set<string>, m: string, tail: seq<string>)
    requires Least(m, s) && |tail| == |s - {m}| && (forall x :: x in tail <==> x in s - {m})
    requires forall i, j | 0 <= i < j < |tail| :: Lt(tail[i], tail[j])
    ensures |[m] + tail| == |s| && forall x :: x in [m] + tail <==> x in s
    ensures forall i, j | 0 <= i < j < |[m] + tail| :: Lt(([m] + tail)[i], ([m] + tail)[j])
  {
    forall j | 0 <= j < |tail| ensures Lt(m, tail[j]) { assert tail[j] in tail; }
  }

  lemma LeastDetermined(s: set<string>)
    requires s != {}
    ensures exists m :: Least(m, s)
    ensures forall a, b | Least(a, s) && Least(b, s) :: a == b
  {
    var m := LeastExists(s);
    forall a, b | Least(a, s) && Least(b, s) ensures a == b { Antisymmetric(a, b); }
  }

  function Smallest(s: set<string>): (m: string)
    requires s != {}
    ensures Least(m, s)
  {
    LeastDetermined(s);
    var m :| m in s && Least(m, s);
    m
  }
}
