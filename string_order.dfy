/** The order in which a std::set<std::string> holds its elements, and the
    ascending sequence that iterating over it visits. */
module StringOrder {

  /** std::string's operator<: the first differing character decides, and a
      proper prefix comes first. */
  predicate Less(a: string, b: string)
    decreases |a|
  {
    |b| > 0 && (|a| == 0 || a[0] < b[0] || (a[0] == b[0] && Less(a[1..], b[1..])))
  }

  lemma {:induction false} LessIrreflexive(a: string)
    ensures !Less(a, a)
    decreases |a|
  {
    if |a| > 0 {
      LessIrreflexive(a[1..]);
    }
  }

  lemma {:induction false} LessTransitive(a: string, b: string, c: string)
    requires Less(a, b) && Less(b, c)
    ensures Less(a, c)
    decreases |a|
  {
    if |a| > 0 && a[0] == b[0] && b[0] == c[0] {
      LessTransitive(a[1..], b[1..], c[1..]);
    }
  }

  lemma {:induction false} LessTotal(a: string, b: string)
    ensures a == b || Less(a, b) || Less(b, a)
    decreases |a|
  {
    if |a| > 0 && |b| > 0 && a[0] == b[0] {
      LessTotal(a[1..], b[1..]);
      if a[1..] == b[1..] {
        assert a == [a[0]] + a[1..] && b == [b[0]] + b[1..];
      }
    }
  }

  /** Less is a strict total order. */
  lemma LessIsStrictTotalOrder()
    ensures forall a :: !Less(a, a)
    ensures forall a, b, c :: Less(a, b) && Less(b, c) ==> Less(a, c)
    ensures forall a, b :: a == b || Less(a, b) || Less(b, a)
  {
    forall a ensures !Less(a, a) { LessIrreflexive(a); }
    forall a, b, c | Less(a, b) && Less(b, c) ensures Less(a, c) { LessTransitive(a, b, c); }
    forall a, b ensures a == b || Less(a, b) || Less(b, a) { LessTotal(a, b); }
  }

  /** `m` is the smallest element of `s`. */
  predicate IsLeast(m: string, s: set<string>) {
    m in s && forall x :: x in s ==> !Less(x, m)
  }

  /** A non-empty set of strings has a smallest element. */
  lemma {:induction false} LeastExists(s: set<string>)
    requires s != {}
    ensures exists m :: IsLeast(m, s)
    decreases |s|
  {
    var x :| x in s;
    if s != {x} {
      var rest := s - {x};
      LeastExists(rest);
      var m :| IsLeast(m, rest);
      if Less(x, m) {
        forall y | y in s ensures !Less(y, x) {
          if y == x {
            LessIrreflexive(x);
          } else if Less(y, x) {
            assert y in rest;
            LessTransitive(y, x, m);
          }
        }
        assert IsLeast(x, s);
      } else {
        forall y | y in s ensures !Less(y, m) {
          if y != x {
            assert y in rest;
          }
        }
        assert IsLeast(m, s);
      }
    } else {
      LessIrreflexive(x);
      assert IsLeast(x, s);
    }
  }

  /** The smallest element is below every other element. */
  lemma LeastBelowOthers(m: string, s: set<string>)
    requires IsLeast(m, s)
    ensures forall x :: x in s && x != m ==> Less(m, x)
  {
    forall x | x in s && x != m ensures Less(m, x) {
      LessTotal(m, x);
    }
  }

  /** The smallest element is unique. */
  lemma LeastUnique(s: set<string>)
    ensures forall a, b :: IsLeast(a, s) && IsLeast(b, s) ==> a == b
  {
    forall a, b | IsLeast(a, s) && IsLeast(b, s) ensures a == b {
      LessTotal(a, b);
    }
  }

  /** The smallest element of a non-empty set. */
  function Least(s: set<string>): (m: string)
    requires s != {}
    ensures m in s
    ensures forall x :: x in s && x != m ==> Less(m, x)
  {
    LeastExists(s);
    LeastUnique(s);
    var m :| IsLeast(m, s);
    LeastBelowOthers(m, s);
    m
  }

  /** Strictly ascending: every element is Less than every later one. */
  predicate StrictlyAscending(r: seq<string>) {
    forall i, j :: 0 <= i < j < |r| ==> Less(r[i], r[j])
  }

  /** The elements of a std::set<std::string> in iteration order. */
  function Ordered(s: set<string>): (r: seq<string>)
    ensures |r| == |s|
    ensures forall x :: x in r <==> x in s
    ensures StrictlyAscending(r)
    decreases |s|
  {
    if s == {} then []
    else
      var m := Least(s);
      [m] + Ordered(s - {m})
  }

  /** The elements of the ordered list are those of the set. */
  lemma OrderedElements(s: set<string>)
    ensures (set x | x in Ordered(s)) == s
  {
  }

  /** A set of two elements is visited smaller first. */
  lemma OrderedPair(a: string, b: string)
    requires Less(a, b)
    ensures Ordered({a, b}) == [a, b]
  {
    LessIrreflexive(a);
    var r := Ordered({a, b});
    assert |{a, b}| == 2;
    assert r[0] in {a, b} && r[1] in {a, b} && Less(r[0], r[1]);
    if r[0] == b {
      LessIrreflexive(b);
      LessTransitive(a, b, a);
    }
    LessIrreflexive(r[0]);
  }
}

