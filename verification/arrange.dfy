/**
 * The ordered selections `build` makes for a `{...}` group: for every size
 * `i` from 1 to the number of branches, `itertools.permutations(group, i)`,
 * in that order. Selections are sequences of branch positions.
 */
module Arrange {

  /** `s` without its `j`-th element. */
  function Without(s: seq<nat>, j: nat): (r: seq<nat>)
    requires j < |s|
    ensures |r| == |s| - 1
    ensures forall i :: 0 <= i < j ==> r[i] == s[i]
    ensures forall i :: j <= i < |r| ==> r[i] == s[i + 1]
  {
    s[..j] + s[j + 1..]
  }

  /** Every sequence of `ps` with `x` put in front. */
  function Prefixed(x: nat, ps: seq<seq<nat>>): (r: seq<seq<nat>>)
    ensures |r| == |ps|
    ensures forall i :: 0 <= i < |r| ==> r[i] == [x] + ps[i]
  {
    seq(|ps|, i requires 0 <= i < |ps| => [x] + ps[i])
  }

  /**
   * `permutations(idx, k)`: the `k`-long selections of distinct positions of
   * `idx`, in lexicographic order of positions, as itertools emits them.
   */
  function Perms(idx: seq<nat>, k: nat): seq<seq<nat>>
    decreases k, |idx| + 1
  {
    if k == 0 then [[]] else PermsFrom(idx, k, 0)
  }

  /** The selections of `Perms(idx, k)` that start at position `j` or later. */
  function PermsFrom(idx: seq<nat>, k: nat, j: nat): seq<seq<nat>>
    requires 1 <= k && j <= |idx|
    decreases k, |idx| - j
  {
    if j == |idx| then []
    else Prefixed(idx[j], Perms(Without(idx, j), k - 1)) + PermsFrom(idx, k, j + 1)
  }

  /** The positions `0 .. n-1`. */
  function Indices(n: nat): (r: seq<nat>)
    ensures |r| == n && forall i :: 0 <= i < n ==> r[i] == i
  {
    seq(n, i requires 0 <= i < n => i)
  }

  /** The selections of every size from `k` to `n`, smallest size first. */
  function ArrangementsFrom(n: nat, k: nat): seq<seq<nat>>
    requires 1 <= k
    decreases n + 1 - k
  {
    if k > n then [] else Perms(Indices(n), k) + ArrangementsFrom(n, k + 1)
  }

  /** The branch orders `build` expands a group of `n` branches into. */
  function Arrangements(n: nat): seq<seq<nat>>
  {
    ArrangementsFrom(n, 1)
  }

  function Fact(n: nat): nat
  {
    if n == 0 then 1 else n * Fact(n - 1)
  }

  /** `n * (n-1) * ... * (n-k+1)`, the number of `k`-long selections out of `n`. */
  function Falling(n: nat, k: nat): nat
  {
    if k == 0 then 1 else if n == 0 then 0 else n * Falling(n - 1, k - 1)
  }

  /** `Falling(n, k)` for sizes `k` to `n`, summed. */
  function SumFalling(n: nat, k: nat): nat
    requires 1 <= k
    decreases n + 1 - k
  {
    if k > n then 0 else Falling(n, k) + SumFalling(n, k + 1)
  }

  lemma MulSucc(x: nat, b: nat)
    ensures (x + 1) * b == x * b + b
  {
  }

  lemma MulAssoc(a: int, b: int, c: int)
    ensures (a * b) * c == a * (b * c)
  {
  }

  /** The falling factorial is `n! / (n-k)!`. */
  lemma {:induction false} FallingFactorial(n: nat, k: nat)
    requires k <= n
    ensures Falling(n, k) * Fact(n - k) == Fact(n)
  {
    if k > 0 {
      FallingFactorial(n - 1, k - 1);
      var f, g := Falling(n - 1, k - 1), Fact(n - k);
      assert Falling(n, k) == n * f;
      assert Fact(n) == n * Fact(n - 1);
      MulAssoc(n, f, g);
    }
  }

  lemma {:induction false} PermsFromCount(idx: seq<nat>, k: nat, j: nat)
    requires 1 <= k && j <= |idx|
    ensures |PermsFrom(idx, k, j)| == if |idx| == 0 then 0 else (|idx| - j) * Falling(|idx| - 1, k - 1)
    decreases k, |idx| - j
  {
    if j < |idx| {
      var f := Falling(|idx| - 1, k - 1);
      PermsCount(Without(idx, j), k - 1);
      PermsFromCount(idx, k, j + 1);
      assert |PermsFrom(idx, k, j)| == f + (|idx| - j - 1) * f;
      MulSucc(|idx| - j - 1, f);
    }
  }

  /** `permutations` of `n` items taken `k` at a time yields `n! / (n-k)!` selections. */
  lemma {:induction false} PermsCount(idx: seq<nat>, k: nat)
    ensures |Perms(idx, k)| == Falling(|idx|, k)
    decreases k, |idx| + 1
  {
    if k > 0 {
      PermsFromCount(idx, k, 0);
    }
  }

  lemma {:induction false} ArrangementsFromCount(n: nat, k: nat)
    requires 1 <= k
    ensures |ArrangementsFrom(n, k)| == SumFalling(n, k)
    decreases n + 1 - k
  {
    if k <= n {
      PermsCount(Indices(n), k);
      ArrangementsFromCount(n, k + 1);
    }
  }

  /** A group of `n` branches is expanded into the sum over `k = 1..n` of `n! / (n-k)!` branch orders. */
  lemma ArrangementsCount(n: nat)
    ensures |Arrangements(n)| == SumFalling(n, 1)
    ensures forall k :: 1 <= k <= n ==> Falling(n, k) * Fact(n - k) == Fact(n)
  {
    ArrangementsFromCount(n, 1);
    forall k | 1 <= k <= n ensures Falling(n, k) * Fact(n - k) == Fact(n) {
      FallingFactorial(n, k);
    }
  }

  /** Three branches give 3 + 6 + 6 orders. */
  lemma ArrangementsOfThree()
    ensures |Arrangements(3)| == 15
  {
    ArrangementsFromCount(3, 1);
  }

  predicate Distinct(s: seq<nat>)
  {
    forall i, j :: 0 <= i < j < |s| ==> s[i] != s[j]
  }

  /** A selection out of `idx`: distinct entries, all taken from `idx`. */
  predicate Selection(p: seq<nat>, idx: seq<nat>)
  {
    Distinct(p) && forall i :: 0 <= i < |p| ==> p[i] in idx
  }

  lemma WithoutDistinct(s: seq<nat>, j: nat)
    requires Distinct(s) && j < |s|
    ensures Distinct(Without(s, j))
    ensures forall x :: x in Without(s, j) <==> x in s && x != s[j]
  {
    var w := Without(s, j);
    forall x | x in s && x != s[j] ensures x in w {
      var i :| 0 <= i < |s| && s[i] == x;
      if i < j {
        assert w[i] == x;
      } else {
        assert w[i - 1] == x;
      }
    }
  }

  /** Putting `idx[j]` in front of a selection out of the rest gives a selection out of `idx`. */
  lemma ConsSelection(idx: seq<nat>, j: nat, q: seq<nat>)
    requires Distinct(idx) && j < |idx| && Selection(q, Without(idx, j))
    ensures Selection([idx[j]] + q, idx)
  {
    var p := [idx[j]] + q;
    WithoutDistinct(idx, j);
    forall a | 0 <= a < |p| ensures p[a] in idx {
      if a > 0 {
        assert p[a] == q[a - 1];
      }
    }
    forall a, b | 0 <= a < b < |p| ensures p[a] != p[b] {
      assert p[b] == q[b - 1];
      if a > 0 {
        assert p[a] == q[a - 1];
      }
    }
  }

  lemma {:induction false} PermsFromSound(idx: seq<nat>, k: nat, j: nat, p: seq<nat>)
    requires 1 <= k && j <= |idx| && Distinct(idx) && p in PermsFrom(idx, k, j)
    ensures |p| == k && Selection(p, idx)
    decreases k, |idx| - j
  {
    var first := Prefixed(idx[j], Perms(Without(idx, j), k - 1));
    if p in first {
      var i :| 0 <= i < |first| && first[i] == p;
      var q := Perms(Without(idx, j), k - 1)[i];
      assert p == [idx[j]] + q;
      WithoutDistinct(idx, j);
      PermsSound(Without(idx, j), k - 1, q);
      ConsSelection(idx, j, q);
    } else {
      PermsFromSound(idx, k, j + 1, p);
    }
  }

  /** Every selection `permutations` yields has the requested size, distinct entries, and entries from `idx`. */
  lemma {:induction false} PermsSound(idx: seq<nat>, k: nat, p: seq<nat>)
    requires Distinct(idx) && p in Perms(idx, k)
    ensures |p| == k && Selection(p, idx)
    decreases k, |idx| + 1
  {
    if k > 0 {
      PermsFromSound(idx, k, 0, p);
    }
  }

  lemma {:induction false} PermsFromComplete(idx: seq<nat>, k: nat, j: nat, j0: nat, p: seq<nat>)
    requires 1 <= k && j0 <= j < |idx| && Distinct(idx)
    requires |p| == k && Selection(p, idx) && p[0] == idx[j]
    ensures p in PermsFrom(idx, k, j0)
    decreases k, j - j0
  {
    if j0 == j {
      var w := Without(idx, j);
      var q := p[1..];
      WithoutDistinct(idx, j);
      forall a | 0 <= a < |q| ensures q[a] in w {
        assert q[a] == p[a + 1];
        assert p[a + 1] != p[0];
      }
      assert Distinct(q) by {
        forall a, b | 0 <= a < b < |q| ensures q[a] != q[b] {
          assert q[a] == p[a + 1] && q[b] == p[b + 1];
        }
      }
      PermsComplete(w, k - 1, q);
      var ps := Perms(w, k - 1);
      var i :| 0 <= i < |ps| && ps[i] == q;
      assert p == [idx[j]] + q;
      assert Prefixed(idx[j], ps)[i] == p;
    } else {
      PermsFromComplete(idx, k, j, j0 + 1, p);
    }
  }

  /** Conversely, every selection of the requested size is among those `permutations` yields. */
  lemma {:induction false} PermsComplete(idx: seq<nat>, k: nat, p: seq<nat>)
    requires Distinct(idx) && |p| == k && Selection(p, idx)
    ensures p in Perms(idx, k)
    decreases k, |idx| + 1
  {
    if k > 0 {
      var j :| 0 <= j < |idx| && idx[j] == p[0];
      PermsFromComplete(idx, k, j, 0, p);
    }
  }

  lemma IndicesDistinct(n: nat)
    ensures Distinct(Indices(n))
    ensures forall x: nat :: x in Indices(n) <==> x < n
  {
    forall x: nat | x < n ensures x in Indices(n) {
      assert Indices(n)[x] == x;
    }
  }

  lemma {:induction false} ArrangementsFromExactly(n: nat, k: nat, a: seq<nat>)
    requires 1 <= k
    ensures a in ArrangementsFrom(n, k) <==>
              k <= |a| <= n && Distinct(a) && forall i :: 0 <= i < |a| ==> a[i] < n
    decreases n + 1 - k
  {
    if k <= n {
      IndicesDistinct(n);
      ArrangementsFromExactly(n, k + 1, a);
      if |a| == k && Distinct(a) && forall i :: 0 <= i < |a| ==> a[i] < n {
        PermsComplete(Indices(n), k, a);
      }
      if a in Perms(Indices(n), k) {
        PermsSound(Indices(n), k, a);
      }
    }
  }

  /**
   * The branch orders of a group of `n` branches are exactly the non-empty
   * sequences of distinct branch positions.
   */
  lemma ArrangementsExactly(n: nat, a: seq<nat>)
    ensures a in Arrangements(n) <==>
              1 <= |a| <= n && Distinct(a) && forall i :: 0 <= i < |a| ==> a[i] < n
  {
    ArrangementsFromExactly(n, 1, a);
  }
}
