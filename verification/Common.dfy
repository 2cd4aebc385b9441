/** Small vocabulary shared by every module: options, powers, sequences without
    repetition, and sums over finite sets. */
module Common {
  datatype Option<+T> = None | Some(value: T)

  function Max(a: int, b: int): int {
    if a < b then b else a
  }

  /** b to the power e, as SQL's power() computes it on exact numbers. */
  function Pow(b: real, e: nat): real {
    if e == 0 then 1.0 else b * Pow(b, e - 1)
  }

  ghost predicate Distinct<T(!new)>(s: seq<T>) {
    forall i, j :: 0 <= i < j < |s| ==> s[i] != s[j]
  }

  ghost function Elements<T(!new)>(s: seq<T>): set<T> {
    set x | x in s
  }

  /** A sequence has as many elements as entries exactly if none repeats. */
  lemma {:induction false} DistinctByCount<T(!new)>(s: seq<T>)
    ensures |Elements(s)| <= |s|
    ensures |Elements(s)| == |s| <==> Distinct(s)
  {
    if s != [] {
      var n := |s| - 1;
      var rest := s[..n];
      DistinctByCount(rest);
      assert s == rest + [s[n]];
      if s[n] in rest {
        assert Elements(s) == Elements(rest);
        var i :| 0 <= i < n && rest[i] == s[n];
        assert s[i] == s[n];
      } else {
        assert Elements(s) == Elements(rest) + {s[n]};
        assert Distinct(rest) ==> Distinct(s);
        if Distinct(s) {
          assert forall i, j :: 0 <= i < j < n ==> rest[i] == s[i] && rest[j] == s[j];
        }
      }
    }
  }

  /** Distinct entries of a set that are as many as the set are all of it. */
  lemma DistinctFills<T(!new)>(s: seq<T>, all: set<T>)
    requires Distinct(s) && Elements(s) <= all
    ensures |s| <= |all|
    ensures |s| == |all| ==> Elements(s) == all
  {
    DistinctByCount(s);
    assert |Elements(s)| + |all - Elements(s)| == |all|;
  }

  lemma {:induction false} FreshNumber(s: set<nat>) returns (n: nat)
    ensures n !in s && forall x :: x in s ==> x < n
    decreases s
  {
    if s == {} {
      n := 0;
    } else {
      var x :| x in s;
      var m := FreshNumber(s - {x});
      n := if m <= x then x + 1 else m;
      assert forall y :: y in s ==> y == x || y in s - {x};
    }
  }

  /** Sum of f over a finite set. */
  ghost function Sum(s: set<nat>, f: nat -> int): int {
    if s == {} then 0 else
      var x :| x in s;
      f(x) + Sum(s - {x}, f)
  }

  lemma {:induction false} SumSplit(s: set<nat>, f: nat -> int, x: nat)
    requires x in s
    ensures Sum(s, f) == f(x) + Sum(s - {x}, f)
    decreases s
  {
    var y :| y in s && Sum(s, f) == f(y) + Sum(s - {y}, f);
    if y != x {
      SumSplit(s - {y}, f, x);
      SumSplit(s - {x}, f, y);
      assert s - {y} - {x} == s - {x} - {y};
    }
  }

  lemma {:induction false} SumAtMost(s: set<nat>, f: nat -> int, g: nat -> int)
    requires forall x :: x in s ==> f(x) <= g(x)
    ensures Sum(s, f) <= Sum(s, g)
    decreases s
  {
    if s != {} {
      var x :| x in s;
      SumSplit(s, f, x);
      SumSplit(s, g, x);
      SumAtMost(s - {x}, f, g);
    }
  }

  lemma {:induction false} SumPlus(s: set<nat>, f: nat -> int, g: nat -> int, h: nat -> int)
    requires forall x :: x in s ==> h(x) == f(x) + g(x)
    ensures Sum(s, h) == Sum(s, f) + Sum(s, g)
    decreases s
  {
    if s != {} {
      var x :| x in s;
      SumSplit(s, f, x);
      SumSplit(s, g, x);
      SumSplit(s, h, x);
      SumPlus(s - {x}, f, g, h);
    }
  }

  lemma {:induction false} SumOfTwos(s: set<nat>, t: set<nat>, f: nat -> int)
    requires t <= s
    requires forall x :: x in s ==> f(x) == if x in t then 2 else 0
    ensures Sum(s, f) == 2 * |t|
    decreases s
  {
    if s == {} {
      assert t == {};
    } else {
      var x :| x in s;
      SumSplit(s, f, x);
      SumOfTwos(s - {x}, t - {x}, f);
      if x !in t {
        assert t - {x} == t;
      }
    }
  }

  /** If g exceeds f by at least 2 on every element of t and is never below it, so do the sums, t by t. */
  lemma SumDrop(s: set<nat>, t: set<nat>, f: nat -> int, g: nat -> int)
    requires t <= s
    requires forall x :: x in s ==> f(x) + (if x in t then 2 else 0) <= g(x)
    ensures Sum(s, f) + 2 * |t| <= Sum(s, g)
  {
    var twos := (x: nat) => if x in t then 2 else 0;
    var total := (x: nat) => f(x) + twos(x);
    SumOfTwos(s, t, twos);
    SumPlus(s, f, twos, total);
    SumAtMost(s, total, g);
  }

  lemma SumBelow(s: set<nat>, f: nat -> int, g: nat -> int, x: nat)
    requires x in s && f(x) < g(x)
    requires forall y :: y in s ==> f(y) <= g(y)
    ensures Sum(s, f) < Sum(s, g)
  {
    SumSplit(s, f, x);
    SumSplit(s, g, x);
    SumAtMost(s - {x}, f, g);
  }

  lemma {:induction false} SumNonNegative(s: set<nat>, f: nat -> int)
    requires forall x :: x in s ==> 0 <= f(x)
    ensures 0 <= Sum(s, f)
    decreases s
  {
    if s != {} {
      var x :| x in s;
      SumSplit(s, f, x);
      SumNonNegative(s - {x}, f);
    }
  }
}
