/**
 * Character- and string-level helpers shared by the model: the whitespace
 * set that Python's `str.strip()` removes, prefix tests, and the ordering
 * Python 2 uses to compare byte strings (with the sorting it induces).
 */
module Text {

  /** The characters C's `isspace` accepts, which `str.strip()` removes. */
  predicate IsSpace(c: char)
  {
    c == ' ' || c == '\t' || c == '\n' || c == '\r' || c == 11 as char || c == 12 as char
  }

  /** `s.lstrip()`: leading whitespace removed. */
  function LStrip(s: string): (r: string)
    ensures |r| <= |s|
    ensures forall i :: 0 <= i < |s| - |r| ==> IsSpace(s[i])
    ensures r == [] || !IsSpace(r[0])
    ensures s == [] || !IsSpace(s[0]) ==> r == s
  {
    if s != [] && IsSpace(s[0]) then LStrip(s[1..]) else s
  }

  /** `s.rstrip()`: trailing whitespace removed. */
  function RStrip(s: string): (r: string)
    ensures |r| <= |s| && forall i :: 0 <= i < |r| ==> r[i] == s[i]
    ensures forall i :: |r| <= i < |s| ==> IsSpace(s[i])
    ensures r == [] || !IsSpace(r[|r| - 1])
  {
    if s != [] && IsSpace(s[|s| - 1]) then RStrip(s[..|s| - 1]) else s
  }

  /** What `lstrip()` keeps is a suffix of its input. */
  lemma {:induction false} LStripSuffix(s: string)
    ensures LStrip(s) == s[|s| - |LStrip(s)|..]
  {
    if s != [] && IsSpace(s[0]) {
      LStripSuffix(s[1..]);
    }
  }

  /** What `rstrip()` keeps is a prefix of its input. */
  lemma RStripPrefix(s: string)
    ensures RStrip(s) == s[..|RStrip(s)|]
  {
  }

  /** `s.strip()`: whitespace removed at both ends. */
  function Strip(s: string): (r: string)
    ensures |r| <= |s|
    ensures r == [] || (!IsSpace(r[0]) && !IsSpace(r[|r| - 1]))
    ensures (forall i :: 0 <= i < |s| ==> !IsSpace(s[i])) ==> r == s
  {
    RStrip(LStrip(s))
  }

  /**
   * What `strip()` keeps is the slice of `s` left once its leading and
   * trailing whitespace is cut off.
   */
  lemma StripSlice(s: string)
    ensures exists a, b :: 0 <= a <= b <= |s| && Strip(s) == s[a..b] &&
                           (forall i :: 0 <= i < a ==> IsSpace(s[i])) &&
                           (forall i :: b <= i < |s| ==> IsSpace(s[i]))
  {
    var l := LStrip(s);
    LStripSuffix(s);
    RStripPrefix(l);
    var a := |s| - |l|;
    var r := RStrip(l);
    assert r == s[a..a + |r|];
    assert forall i :: a + |r| <= i < |s| ==> IsSpace(s[i]) by {
      forall i | a + |r| <= i < |s| ensures IsSpace(s[i]) {
        assert s[i] == l[i - a];
      }
    }
  }

  /** Every character of `r` is one of `s`: stripping only removes characters. */
  lemma StripInfix(s: string, c: char)
    requires c in Strip(s)
    ensures c in s
  {
    var l := LStrip(s);
    LStripSuffix(s);
    assert Strip(s) == l[..|Strip(s)|];
    assert c in l;
  }

  /** The first index in `k .. end` that holds no whitespace, or `end`. */
  function SkipSpace(s: string, k: nat, end: nat): (r: nat)
    requires k <= end <= |s|
    ensures k <= r <= end && (r == end || !IsSpace(s[r]))
    ensures forall j :: k <= j < r ==> IsSpace(s[j])
    decreases end - k
  {
    if k < end && IsSpace(s[k]) then SkipSpace(s, k + 1, end) else k
  }

  /** The end of `s[a..b]` once its trailing whitespace is dropped. */
  function TrimEnd(s: string, a: nat, b: nat): (r: nat)
    requires a <= b <= |s|
    ensures a <= r <= b && (r == a || !IsSpace(s[r - 1]))
    ensures forall j :: r <= j < b ==> IsSpace(s[j])
    decreases b
  {
    if a < b && IsSpace(s[b - 1]) then TrimEnd(s, a, b - 1) else b
  }

  /** `s[lo:hi].strip()`, computed by moving two indices over `s`. */
  function StripRange(s: string, lo: nat, hi: nat): (r: string)
    requires lo <= hi <= |s|
  {
    var a := SkipSpace(s, lo, hi);
    s[a..TrimEnd(s, a, hi)]
  }

  lemma {:induction false} SkipSpaceIsLStrip(s: string, k: nat, end: nat)
    requires k <= end <= |s|
    ensures LStrip(s[k..end]) == s[SkipSpace(s, k, end)..end]
    decreases end - k
  {
    if k < end && IsSpace(s[k]) {
      assert s[k..end][1..] == s[k + 1..end];
      SkipSpaceIsLStrip(s, k + 1, end);
    }
  }

  lemma {:induction false} TrimEndIsRStrip(s: string, a: nat, b: nat)
    requires a <= b <= |s|
    ensures RStrip(s[a..b]) == s[a..TrimEnd(s, a, b)]
    decreases b
  {
    var t := s[a..b];
    if a < b && IsSpace(s[b - 1]) {
      assert t[|t| - 1] == s[b - 1];
      assert t[..|t| - 1] == s[a..b - 1];
      TrimEndIsRStrip(s, a, b - 1);
    } else if a < b {
      assert t[|t| - 1] == s[b - 1];
    }
  }

  /** The index computation strips exactly as `str.strip()` does. */
  lemma StripRangeIsStrip(s: string, lo: nat, hi: nat)
    requires lo <= hi <= |s|
    ensures StripRange(s, lo, hi) == Strip(s[lo..hi])
  {
    var a := SkipSpace(s, lo, hi);
    SkipSpaceIsLStrip(s, lo, hi);
    TrimEndIsRStrip(s, a, hi);
  }

  /** Python's `s.startswith(prefix)`. */
  predicate StartsWith(s: string, prefix: string)
  {
    |prefix| <= |s| && s[..|prefix|] == prefix
  }

  /**
   * Python 2 string comparison `a < b`: the first differing character decides
   * by its code; a proper prefix comes first.
   */
  predicate Below(a: string, b: string)
    decreases |a|
  {
    if a == [] then b != []
    else b != [] && (a[0] < b[0] || (a[0] == b[0] && Below(a[1..], b[1..])))
  }

  lemma {:induction false} BelowIrreflexive(a: string)
    ensures !Below(a, a)
    decreases |a|
  {
    if a != [] {
      BelowIrreflexive(a[1..]);
    }
  }

  lemma {:induction false} BelowAsymmetric(a: string, b: string)
    requires Below(a, b)
    ensures !Below(b, a)
    decreases |a|
  {
    if a != [] && b != [] && a[0] == b[0] {
      BelowAsymmetric(a[1..], b[1..]);
    }
  }

  lemma {:induction false} BelowTransitive(a: string, b: string, c: string)
    requires Below(a, b) && Below(b, c)
    ensures Below(a, c)
    decreases |a|
  {
    if a != [] && a[0] == b[0] && b[0] == c[0] {
      BelowTransitive(a[1..], b[1..], c[1..]);
    }
  }

  lemma {:induction false} BelowTotal(a: string, b: string)
    requires a != b
    ensures Below(a, b) || Below(b, a)
    decreases |a|
  {
    if a != [] && b != [] && a[0] == b[0] {
      BelowTotal(a[1..], b[1..]);
    }
  }

  /** A least element of a non-empty finite set of strings, found by induction on the set. */
  lemma {:induction false} FindLeast(s: set<string>) returns (m: string)
    requires s != {}
    ensures m in s && forall y :: y in s && y != m ==> Below(m, y)
    decreases s
  {
    var x :| x in s;
    if s == {x} {
      m := x;
    } else {
      var m' := FindLeast(s - {x});
      if Below(x, m') {
        m := x;
        forall y | y in s && y != x ensures Below(x, y) {
          if y != m' {
            BelowTransitive(x, m', y);
          }
        }
      } else {
        BelowTotal(x, m');
        m := m';
      }
    }
  }

  lemma LeastExists(s: set<string>)
    requires s != {}
    ensures exists m :: m in s && forall y :: y in s && y != m ==> Below(m, y)
  {
    var m := FindLeast(s);
  }

  /** The least string of a non-empty set, in Python 2's order. */
  function Least(s: set<string>): (m: string)
    requires s != {}
    ensures m in s
    ensures forall y :: y in s && y != m ==> Below(m, y)
  {
    LeastExists(s);
    AsymmetryAll();
    var m :| m in s && forall y :: y in s && y != m ==> Below(m, y);
    m
  }

  lemma AsymmetryAll()
    ensures forall a, b :: Below(a, b) ==> !Below(b, a)
  {
    forall a, b | Below(a, b) ensures !Below(b, a) {
      BelowAsymmetric(a, b);
    }
  }

  /** Strictly increasing in Python 2's string order: sorted and free of duplicates. */
  predicate StrictlySorted(r: seq<string>)
  {
    forall i, j :: 0 <= i < j < |r| ==> Below(r[i], r[j])
  }

  /** `sorted(s)` for a set of strings. */
  function SortedSet(s: set<string>): (r: seq<string>)
    ensures StrictlySorted(r)
    ensures forall w :: w in r <==> w in s
    ensures |r| == |s|
    decreases s
  {
    if s == {} then []
    else
      var m := Least(s);
      [m] + SortedSet(s - {m})
  }
}
