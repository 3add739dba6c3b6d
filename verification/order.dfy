/** The ordering of Rust `String` keys in a `BTreeMap`. Rust compares strings
    byte-wise on their UTF-8 encoding, which orders them exactly as the
    lexicographic order of their code points, which is what `Less` states. */
module Order {

  /** Strict lexicographic order on strings: a proper prefix comes first,
      otherwise the first differing character decides. */
  predicate Less(a: string, b: string)
    decreases |a|
  {
    if a == [] then b != []
    else if b == [] then false
    else if a[0] != b[0] then a[0] < b[0]
    else Less(a[1..], b[1..])
  }

  lemma {:induction false} LessIrreflexive(a: string)
    ensures !Less(a, a)
    decreases |a|
  {
    if a != [] {
      LessIrreflexive(a[1..]);
    }
  }

  lemma {:induction false} LessAsymmetric(a: string, b: string)
    requires Less(a, b)
    ensures !Less(b, a)
    decreases |a|
  {
    if a != [] && b != [] && a[0] == b[0] {
      LessAsymmetric(a[1..], b[1..]);
    }
  }

  lemma {:induction false} LessTransitive(a: string, b: string, c: string)
    requires Less(a, b) && Less(b, c)
    ensures Less(a, c)
    decreases |a|
  {
    if a != [] && a[0] == b[0] && b[0] == c[0] {
      LessTransitive(a[1..], b[1..], c[1..]);
    }
  }

  /** Any two different strings are ordered one way or the other. */
  lemma {:induction false} LessTotal(a: string, b: string)
    requires a != b
    ensures Less(a, b) || Less(b, a)
    decreases |a|
  {
    if a != [] && b != [] && a[0] == b[0] {
      assert a == [a[0]] + a[1..] && b == [b[0]] + b[1..];
      LessTotal(a[1..], b[1..]);
    }
  }

  /** `xs` lists its elements in strictly ascending order. */
  predicate StrictlySorted(xs: seq<string>) {
    forall i, j :: 0 <= i < j < |xs| ==> Less(xs[i], xs[j])
  }

  predicate IsLeast(m: string, s: set<string>) {
    m in s && forall y :: y in s && y != m ==> Less(m, y)
  }

  lemma {:induction false} LeastExists(s: set<string>)
    requires s != {}
    ensures exists m :: IsLeast(m, s)
    decreases |s|
  {
    var x :| x in s;
    if s == {x} {
      assert IsLeast(x, s);
    } else {
      var rest := s - {x};
      LeastExists(rest);
      var m :| IsLeast(m, rest);
      if Less(x, m) {
        forall y | y in s && y != x
          ensures Less(x, y)
        {
          if y != m {
            LessTransitive(x, m, y);
          }
        }
        assert IsLeast(x, s);
      } else {
        LessTotal(x, m);
        assert IsLeast(m, s);
      }
    }
  }

  lemma LeastUnique(s: set<string>, m: string, n: string)
    requires IsLeast(m, s) && IsLeast(n, s)
    ensures m == n
  {
    if m != n {
      LessAsymmetric(m, n);
    }
  }

  /** The smallest element of a non-empty set. */
  function SetMin(s: set<string>): (m: string)
    requires s != {}
    ensures IsLeast(m, s)
  {
    LeastExists(s);
    forall m, n | IsLeast(m, s) && IsLeast(n, s)
      ensures m == n
    {
      LeastUnique(s, m, n);
    }
    var m :| IsLeast(m, s);
    m
  }

  /** The elements of `s` in the order a `BTreeMap` iterates keys `s`. */
  function SortedKeys(s: set<string>): (xs: seq<string>)
    ensures |xs| == |s|
    ensures forall i :: 0 <= i < |xs| ==> xs[i] in s
    ensures forall x :: x in s ==> x in xs
    ensures StrictlySorted(xs)
    decreases |s|
  {
    if s == {} then []
    else
      var m := SetMin(s);
      var rest := SortedKeys(s - {m});
      assert forall i :: 0 <= i < |rest| ==> Less(m, rest[i]);
      [m] + rest
  }

  /** A strictly sorted listing of a set is unique: it is the one `SortedKeys` gives. */
  lemma {:induction false} SortedListingUnique(xs: seq<string>, s: set<string>)
    requires StrictlySorted(xs)
    requires forall i :: 0 <= i < |xs| ==> xs[i] in s
    requires forall x :: x in s ==> x in xs
    ensures xs == SortedKeys(s)
    decreases |xs|
  {
    if xs == [] {
      assert s == {};
    } else {
      assert xs[0] in s;
      var m := SetMin(s);
      assert xs[0] == m by {
        if xs[0] != m {
          var k :| 0 <= k < |xs| && xs[k] == m;
          assert k > 0;
          LessAsymmetric(xs[0], m);
        }
      }
      var rest := xs[1..];
      forall x | x in s - {m}
        ensures x in rest
      {
        var k :| 0 <= k < |xs| && xs[k] == x;
        assert k != 0;
        assert rest[k - 1] == x;
      }
      forall i | 0 <= i < |rest|
        ensures rest[i] in s - {m}
      {
        assert rest[i] == xs[i + 1];
        LessIrreflexive(m);
      }
      SortedListingUnique(rest, s - {m});
    }
  }
}
