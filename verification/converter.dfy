/**
 * The converter registry: a keyword that looks like a placeholder gets a
 * function that decides whether a typed fragment fits it and converts it.
 * An upper-case placeholder (`WORD`) accepts any fragment as it is; a range
 * placeholder (`<N-M>`) accepts a fragment that Python 2's `int()` parses to
 * a value in `[N, M]`.
 */
module Converter {
  import opened Wrappers
  import opened Text

  /** A value produced by matching a fragment: a string (a keyword or a raw token) or an integer. */
  datatype Value = Str(s: string) | Int(n: int)

  /** The two converter kinds the registry can create. */
  datatype Converter = Variable | Range(start: nat, end: nat)

  /**
   * The pair a converter returns: whether the fragment matched, and the
   * converted value (absent only when `int()` raised).
   */
  datatype Conversion = Conversion(matched: bool, value: Option<Value>)

  predicate IsDigit(c: char) { '0' <= c <= '9' }

  predicate IsUpper(c: char) { 'A' <= c <= 'Z' }

  predicate AllDigits(s: string) { forall i :: 0 <= i < |s| ==> IsDigit(s[i]) }

  /** `VARIABLE_RE.match(spec)`: one or more of `A`-`Z` at the start; the rest is not looked at. */
  predicate VariableMatch(spec: string)
  {
    spec != [] && IsUpper(spec[0])
  }

  /** The length of the run of decimal digits at the start of `s` (what a greedy `\d+` takes). */
  function DigitRun(s: string): (n: nat)
    ensures n <= |s|
    ensures AllDigits(s[..n])
    ensures n < |s| ==> !IsDigit(s[n])
  {
    if s != [] && IsDigit(s[0]) then 1 + DigitRun(s[1..]) else 0
  }

  /** The number a string of decimal digits denotes. */
  function Decimal(s: string): nat
    requires AllDigits(s)
  {
    if s == [] then 0 else 10 * Decimal(s[..|s| - 1]) + (s[|s| - 1] as int - '0' as int)
  }

  /**
   * `RANGE_RE.match(spec)`: `<`, digits, `-`, digits, `>` at the start of
   * `spec`, giving the two bounds as `int(m.group(1))`, `int(m.group(2))`.
   */
  function RangeMatch(spec: string): Option<(nat, nat)>
  {
    if spec == [] || spec[0] != '<' then None else RangeFrom(spec[1..])
  }

  /** The range pattern after its `<`: digits and `-`, then the upper bound. */
  function RangeFrom(a: string): Option<(nat, nat)>
  {
    var n := DigitRun(a);
    if n == 0 || n == |a| || a[n] != '-' then None
    else
      match RangeEnd(a[n + 1..])
      case None => None
      case Some(hi) => Some((Decimal(a[..n]), hi))
  }

  /** The range pattern after its `-`: digits, then `>`. */
  function RangeEnd(b: string): Option<nat>
  {
    var m := DigitRun(b);
    if m == 0 || m == |b| || b[m] != '>' then None else Some(Decimal(b[..m]))
  }

  /**
   * `create_converter(keyword)`: the variable pattern is tried first, then
   * the range pattern; neither gives no converter.
   */
  function CreateConverter(keyword: string): (c: Option<Converter>)
    ensures keyword != [] && IsUpper(keyword[0]) ==> c == Some(Variable)
    ensures keyword == [] || (!IsUpper(keyword[0]) && keyword[0] != '<') ==> c == None
  {
    if VariableMatch(keyword) then Some(Variable)
    else match RangeMatch(keyword)
      case Some((lo, hi)) => Some(Range(lo, hi))
      case None => None
  }

  /**
   * Python 2's `int(arg)`: surrounding whitespace, an optional sign that may
   * be followed by more whitespace, then one or more decimal digits; a NUL
   * character or anything else raises ValueError (here: None).
   */
  function ParseInt(s: string): Option<int>
  {
    if 0 as char in s then None else ParseStripped(Strip(s))
  }

  /** The rest of `int()` once surrounding whitespace is gone. */
  function ParseStripped(t: string): Option<int>
  {
    if t != [] && (t[0] == '-' || t[0] == '+') then
      var d := LStrip(t[1..]);
      if d != [] && AllDigits(d) then Some(if t[0] == '-' then -(Decimal(d) as int) else Decimal(d))
      else None
    else if t != [] && AllDigits(t) then Some(Decimal(t))
    else None
  }

  /** Calling the converter closure on a fragment. */
  function Apply(c: Converter, arg: string): (r: Conversion)
    ensures r.matched ==> r.value.Some?
    ensures c.Variable? ==> r.matched && r.value == Some(Str(arg))
  {
    match c
    case Variable => Conversion(true, Some(Str(arg)))
    case Range(lo, hi) =>
      match ParseInt(arg)
      case None => Conversion(false, None)
      case Some(v) => Conversion(lo <= v <= hi, Some(Int(v)))
  }

  /** The decimal digit for `d`. */
  function Digit(d: nat): char
    requires d < 10
  {
    ('0' as int + d) as char
  }

  /** `str(n)` for a non-negative integer: its decimal digits, no leading zero. */
  function Show(n: nat): (s: string)
    ensures s != [] && AllDigits(s)
  {
    if n < 10 then [Digit(n)] else Show(n / 10) + [Digit(n % 10)]
  }

  /** `str(v)`, also for negative integers. */
  function ShowInt(v: int): string
  {
    if v < 0 then "-" + Show(-v) else Show(v)
  }

  /** Reading back the decimal rendering gives the number. */
  lemma {:induction false} DecimalShow(n: nat)
    ensures Decimal(Show(n)) == n
  {
    if n >= 10 {
      var s := Show(n);
      assert s[..|s| - 1] == Show(n / 10);
      DecimalShow(n / 10);
    }
  }

  /** The digit run of digits followed by a non-digit (or nothing) is exactly those digits. */
  lemma {:induction false} DigitRunOf(d: string, rest: string)
    requires AllDigits(d)
    requires rest == [] || !IsDigit(rest[0])
    ensures DigitRun(d + rest) == |d|
  {
    if d != [] {
      assert (d + rest)[1..] == d[1..] + rest;
      DigitRunOf(d[1..], rest);
    }
  }

  /** A digit run that stops inside `s` is not changed by what follows `s`. */
  lemma {:induction false} DigitRunExtend(s: string, rest: string)
    requires DigitRun(s) < |s|
    ensures DigitRun(s + rest) == DigitRun(s)
  {
    if s != [] && IsDigit(s[0]) {
      assert (s + rest)[1..] == s[1..] + rest;
      DigitRunExtend(s[1..], rest);
    }
  }

  /** Two digit strings between `<`, `-` and `>` match the range pattern with the bounds they denote. */
  lemma RangeMatchParts(spec: string, d1: string, d2: string, rest: string)
    requires d1 != [] && d2 != [] && AllDigits(d1) && AllDigits(d2)
    requires spec == ['<'] + (d1 + (['-'] + (d2 + (['>'] + rest))))
    ensures RangeMatch(spec) == Some((Decimal(d1), Decimal(d2)))
  {
    var b := d2 + (['>'] + rest);
    var a := d1 + (['-'] + b);
    assert spec[1..] == a;
    DigitRunOf(d1, ['-'] + b);
    assert a[|d1|] == '-';
    assert a[|d1| + 1..] == b;
    assert a[..|d1|] == d1;
    DigitRunOf(d2, ['>'] + rest);
    assert b[|d2|] == '>';
    assert b[..|d2|] == d2;
  }

  /**
   * Conversely, the range pattern matches only `<`, digits, `-`, digits and
   * `>` at the start of the text, and then gives the values of the two digit runs.
   */
  lemma RangeMatchForm(spec: string)
    requires RangeMatch(spec).Some?
    ensures exists d1, d2, rest :: d1 != [] && d2 != [] && AllDigits(d1) && AllDigits(d2) &&
              spec == ['<'] + (d1 + (['-'] + (d2 + (['>'] + rest)))) &&
              RangeMatch(spec) == Some((Decimal(d1), Decimal(d2)))
  {
    var a := spec[1..];
    var n := DigitRun(a);
    var b := a[n + 1..];
    var m := DigitRun(b);
    var d1, d2, rest := a[..n], b[..m], b[m + 1..];
    assert b == d2 + (['>'] + rest);
    assert a == d1 + (['-'] + b);
    assert spec == ['<'] + a;
  }

  /** Keywords that start like a range but break the pattern get no converter. */
  lemma NoConverterExamples()
    ensures CreateConverter("<abc>") == None
    ensures CreateConverter("<1->") == None
    ensures CreateConverter("<1-5") == None
    ensures CreateConverter("port") == None
  {
    var a := "1->";
    assert DigitRun(a[2..]) == 0;
    var c := "1-5";
    assert DigitRun(c[2..]) == 1;
  }

  /** `<N-M>` written with the decimal renderings of N and M parses back to `(N, M)`, whatever follows. */
  lemma RangeMatchRendered(n: nat, m: nat, rest: string)
    ensures RangeMatch("<" + Show(n) + "-" + Show(m) + ">" + rest) == Some((n, m))
  {
    var spec := "<" + Show(n) + "-" + Show(m) + ">" + rest;
    assert spec == ['<'] + (Show(n) + (['-'] + (Show(m) + (['>'] + rest))));
    RangeMatchParts(spec, Show(n), Show(m), rest);
    DecimalShow(n);
    DecimalShow(m);
  }

  /** A range pattern found at the start of a keyword is found whatever the keyword continues with. */
  lemma RangeMatchPrefix(k: string, rest: string)
    requires RangeMatch(k).Some?
    ensures RangeMatch(k + rest) == RangeMatch(k)
  {
    DropFirstAppend(k, rest);
    RangeFromPrefix(k[1..], rest);
  }

  lemma RangeFromPrefix(a: string, rest: string)
    requires RangeFrom(a).Some?
    ensures RangeFrom(a + rest) == RangeFrom(a)
  {
    var n := DigitRun(a);
    DigitRunStops(a, rest);
    RangeEndPrefix(a[n + 1..], rest);
  }

  lemma RangeEndPrefix(b: string, rest: string)
    requires RangeEnd(b).Some?
    ensures RangeEnd(b + rest) == RangeEnd(b)
  {
    DigitRunStops(b, rest);
  }

  lemma DropFirstAppend(s: string, rest: string)
    requires s != []
    ensures (s + rest)[1..] == s[1..] + rest
  {
  }

  /** Text appended after a digit run that stops inside `s` leaves the run, and what stops it, alone. */
  lemma DigitRunStops(s: string, rest: string)
    requires DigitRun(s) < |s|
    ensures var n := DigitRun(s);
            DigitRun(s + rest) == n && (s + rest)[n] == s[n] &&
            (s + rest)[..n] == s[..n] && (s + rest)[n + 1..] == s[n + 1..] + rest
  {
    DigitRunExtend(s, rest);
    var n := DigitRun(s);
    assert (s + rest)[..n] == s[..n];
    assert (s + rest)[n + 1..] == s[n + 1..] + rest;
  }

  /**
   * The registry only looks at the start of a keyword: a keyword that got a
   * converter gets the same one with anything appended.
   */
  lemma CreateConverterPrefix(k: string, rest: string)
    requires CreateConverter(k).Some?
    ensures CreateConverter(k + rest) == CreateConverter(k)
  {
    if !VariableMatch(k) {
      RangeMatchPrefix(k, rest);
    }
  }

  /** A keyword `<N-M>...` gets the range converter with bounds N and M. */
  lemma CreateConverterRange(n: nat, m: nat, rest: string)
    ensures CreateConverter("<" + Show(n) + "-" + Show(m) + ">" + rest) == Some(Range(n, m))
  {
    RangeMatchRendered(n, m, rest);
  }

  /** Decimal digits contain neither whitespace nor NUL, so `strip()` leaves them alone. */
  lemma DigitsUnstripped(d: string)
    requires AllDigits(d)
    ensures Strip(d) == d && LStrip(d) == d
    ensures 0 as char !in d
  {
    assert forall i :: 0 <= i < |d| ==> !IsSpace(d[i]) && d[i] != 0 as char by {
      forall i | 0 <= i < |d| ensures !IsSpace(d[i]) && d[i] != 0 as char {
        assert IsDigit(d[i]);
      }
    }
  }

  /** `int()` reads a plain digit string as its decimal value. */
  lemma ParseDigits(d: string)
    requires d != [] && AllDigits(d)
    ensures ParseInt(d) == Some(Decimal(d))
  {
    DigitsUnstripped(d);
    assert IsDigit(d[0]);
  }

  /** `int()` reads a minus sign and a digit string as the negated value. */
  lemma ParseNegativeDigits(d: string)
    requires d != [] && AllDigits(d)
    ensures ParseInt("-" + d) == Some(-(Decimal(d) as int))
  {
    var s := "-" + d;
    DigitsUnstripped(d);
    forall i | 0 <= i < |s|
      ensures !IsSpace(s[i]) && s[i] != 0 as char
    {
      if i > 0 {
        assert s[i] == d[i - 1] && IsDigit(d[i - 1]);
      }
    }
    assert Strip(s) == s;
    assert s[1..] == d;
  }

  lemma ParseShowNat(n: nat)
    ensures ParseInt(Show(n)) == Some(n)
  {
    ParseDigits(Show(n));
    DecimalShow(n);
  }

  lemma ParseShowNegative(n: nat)
    ensures ParseInt("-" + Show(n)) == Some(-(n as int))
  {
    ParseNegativeDigits(Show(n));
    DecimalShow(n);
  }

  /** `int(str(v)) == v`. */
  lemma ParseShowInt(v: int)
    ensures ParseInt(ShowInt(v)) == Some(v)
  {
    if v < 0 {
      var n: nat := -v;
      assert ShowInt(v) == "-" + Show(n);
      ParseShowNegative(n);
    } else {
      assert ShowInt(v) == Show(v);
      ParseShowNat(v);
    }
  }

  /** Characters `int()` tolerates: digits, signs and whitespace. */
  predicate Numeric(c: char)
  {
    IsDigit(c) || c == '-' || c == '+' || IsSpace(c)
  }

  /** A fragment `int()` accepts consists of digits, signs and whitespace only. */
  lemma ParsedIsNumeric(s: string, i: nat)
    requires ParseInt(s).Some?
    requires i < |s|
    ensures Numeric(s[i])
  {
    var t := Strip(s);
    forall j | 0 <= j < |t| ensures Numeric(t[j]) {
      StrippedIsNumeric(t, j);
    }
    NumericAround(s, i);
  }

  /** Whitespace around a numeric core keeps the whole text numeric. */
  lemma NumericAround(s: string, i: nat)
    requires i < |s|
    requires forall j :: 0 <= j < |Strip(s)| ==> Numeric(Strip(s)[j])
    ensures Numeric(s[i])
  {
    var l := LStrip(s);
    var t := Strip(s);
    assert t == RStrip(l);
    var off := |s| - |l|;
    if off <= i {
      LStripSuffix(s);
      assert s[i] == l[i - off];
      if i - off < |t| {
        assert Numeric(t[i - off]);
      }
    }
  }

  /** Past the surrounding whitespace: a sign, then whitespace and digits. */
  lemma StrippedIsNumeric(t: string, j: nat)
    requires ParseStripped(t).Some?
    requires j < |t|
    ensures Numeric(t[j])
  {
    if j > 0 && (t[0] == '-' || t[0] == '+') {
      var u := t[1..];
      var d := LStrip(u);
      var k := |u| - |d|;
      assert t[j] == u[j - 1];
      if j - 1 >= k {
        LStripSuffix(u);
        assert u[j - 1] == d[j - 1 - k];
        assert IsDigit(d[j - 1 - k]);
      } else {
        assert IsSpace(u[j - 1]);
      }
    } else if j > 0 {
      assert IsDigit(t[j]);
    }
  }

  /** The range converter accepts the rendering of `v` exactly when `start <= v <= end`, both ends included. */
  lemma RangeAcceptsRendered(lo: nat, hi: nat, v: int)
    ensures Apply(Range(lo, hi), ShowInt(v)) == Conversion(lo <= v && v <= hi, Some(Int(v)))
  {
    ParseShowInt(v);
  }

  /** A fragment with a character `int()` cannot take gives `(False, None)`: no match, no exception. */
  lemma RangeRejectsNonNumeric(lo: nat, hi: nat, arg: string, i: nat)
    requires i < |arg| && !Numeric(arg[i])
    ensures Apply(Range(lo, hi), arg) == Conversion(false, None)
  {
    if ParseInt(arg).Some? {
      ParsedIsNumeric(arg, i);
    }
  }

  /** The `<1-10>` cases: 1..10 are accepted; -123, -10, -5, -1, 0, 11 and 123 are not. */
  lemma RangeOneToTen()
    ensures forall v :: 1 <= v <= 10 ==> Apply(Range(1, 10), ShowInt(v)).matched
    ensures forall v :: v in {-123, -10, -5, -1, 0, 11, 123} ==> !Apply(Range(1, 10), ShowInt(v)).matched
  {
    forall v | 1 <= v <= 10 || v in {-123, -10, -5, -1, 0, 11, 123}
      ensures Apply(Range(1, 10), ShowInt(v)).matched == (1 <= v <= 10)
    {
      RangeAcceptsRendered(1, 10, v);
    }
  }
}
