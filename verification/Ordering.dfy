/** Python's string order and `sorted(...)` over a set of strings. */
module Ordering {

  datatype Option<+T> = None | Some(value: T)

  function Max(a: nat, b: nat): nat {
    if a < b then b else a
  }

  /** Code-point lexicographic `a <= b`, as Python compares strings. */
  predicate LexLeq(a: string, b: string) {
    a == "" || (b != "" && (a[0] < b[0] || (a[0] == b[0] && LexLeq(a[1..], b[1..]))))
  }

  lemma {:induction false} LexTotal(a: string, b: string)
    ensures LexLeq(a, b) || LexLeq(b, a)
    ensures LexLeq(a, b) && LexLeq(b, a) ==> a == b
  {
    if a != "" && b != "" {
      LexTotal(a[1..], b[1..]);
      assert a == [a[0]] + a[1..] && b == [b[0]] + b[1..];
    }
  }

  lemma {:induction false} LexTransitive(a: string, b: string, c: string)
    requires LexLeq(a, b) && LexLeq(b, c)
    ensures LexLeq(a, c)
  {
    if a != "" && a[0] == b[0] && b[0] == c[0] {
      LexTransitive(a[1..], b[1..], c[1..]);
    }
  }

  function Elements<T>(s: seq<T>): set<T> {
    set x | x in s
  }

  lemma NoElements<T>(s: seq<T>)
    ensures s == [] <==> Elements(s) == {}
  {
    if s != [] {
      assert s[0] in Elements(s);
    }
  }

  /** Strictly increasing: ordered, and nothing twice. */
  ghost predicate Increasing(s: seq<string>) {
    forall i, j | 0 <= i < j < |s| :: LexLeq(s[i], s[j]) && s[i] != s[j]
  }

  /** An increasing list is determined by its elements, so `sorted` of a set
      has one possible answer. */
  lemma {:induction false} IncreasingUnique(a: seq<string>, b: seq<string>)
    requires Increasing(a) && Increasing(b)
    requires Elements(a) == Elements(b)
    ensures a == b
  {
    NoElements(a);
    NoElements(b);
    if a != [] {
      assert a[0] in Elements(b);
      assert b[0] in Elements(a);
      LexTotal(a[0], b[0]);
      assert a[0] == b[0];
      forall x
        ensures x in Elements(a[1..]) <==> x in Elements(b[1..])
      {
        assert x in Elements(a[1..]) <==> x in Elements(a) && x != a[0];
        assert x in Elements(b[1..]) <==> x in Elements(b) && x != b[0];
      }
      IncreasingUnique(a[1..], b[1..]);
    }
  }

  /** Every non-empty set of strings has a least member. */
  lemma LeastExists(s: set<string>) returns (least: string)
    requires s != {}
    ensures least in s && forall x | x in s :: LexLeq(least, x)
  {
    var x :| x in s;
    var rest := s - {x};
    if rest == {} {
      least := x;
      LexTotal(x, x);
      assert s == {x};
    } else {
      var r := LeastExists(rest);
      LexTotal(r, x);
      LexTotal(x, x);
      assert s == rest + {x};
      if LexLeq(r, x) {
        least := r;
      } else {
        least := x;
        forall y | y in rest
          ensures LexLeq(x, y)
        {
          LexTransitive(x, r, y);
        }
      }
    }
  }

  /** `sorted(s)` for a set of strings. */
  method SortStrings(s: set<string>) returns (sorted: seq<string>)
    ensures Increasing(sorted)
    ensures Elements(sorted) == s
  {
    sorted := [];
    var rest := s;
    while rest != {}
      invariant Increasing(sorted)
      invariant Elements(sorted) + rest == s
      invariant forall x, y | x in sorted && y in rest :: LexLeq(x, y) && x != y
      decreases rest
    {
      ghost var _ := LeastExists(rest);
      var least :| least in rest && forall x | x in rest :: LexLeq(least, x);
      sorted := sorted + [least];
      rest := rest - {least};
    }
  }
}
