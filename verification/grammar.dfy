/**
 * Grammar compilation (`cmdsplit`): one left-to-right scan over the stripped
 * command specification. A space ends a token, `(` and `{` open a group,
 * `|` starts the next branch of the innermost group and `)` and `}` close it.
 * Tokens become elements; groups become `Paren` or `Brace` items holding
 * their branches.
 */
module Grammar {
  import opened Wrappers
  import opened Text
  import opened CliNode

  /** One entry of `cmdsplit`'s result: an element, or a `ParenGroup` / `BraceGroup` of branches. */
  datatype Item = Elem(element: Element) | Paren(branches: seq<Branch>) | Brace(branches: seq<Branch>)

  /** One alternative of a group: the items between two bars. */
  datatype Branch = Branch(items: seq<Item>)

  datatype Kind = ParenKind | BraceKind

  /** Why `cmdsplit` refuses a specification, by the exception the source raises. */
  datatype SplitError =
    | MissingHelp  // `StopIteration`: the help list ran out before the tokens did
    | StrayClose   // `IndexError`: `)` or `}` with no group open
    | StrayBar     // `IndexError`: `|` outside every group
    | WrongClose   // `AssertionError`: `)` closing a `{` group, or `}` closing a `(` group
    | Unclosed     // `ValueError`: a group still open at the end

  /**
   * One open group on the scanner's stack: its kind, its finished branches
   * and the branch being filled.
   */
  datatype Frame = Frame(kind: Kind, done: seq<Branch>, current: seq<Item>)

  /**
   * The scanner's state: the top-level list, the open groups (innermost
   * last), `last` (where the pending token starts) and the number of help
   * texts taken so far. An open group sits at the end of the list around it
   * in the source; here it joins that list when it is closed, which gives
   * the same list since nothing can be added after it meanwhile.
   */
  datatype Scan = Scan(top: seq<Item>, open: seq<Frame>, last: nat, used: nat)

  function Group(kind: Kind, branches: seq<Branch>): Item
  {
    match kind
    case ParenKind => Paren(branches)
    case BraceKind => Brace(branches)
  }

  function KindOf(c: char): Kind
  {
    if c == '(' || c == ')' then ParenKind else BraceKind
  }

  /** `stack[-1].append(item)`: add to the innermost open list. */
  function Append(st: Scan, item: Item): (r: Scan)
    ensures r.last == st.last && r.used == st.used && |r.open| == |st.open|
  {
    if st.open == [] then st.(top := st.top + [item])
    else
      var f := st.open[|st.open| - 1];
      st.(open := st.open[..|st.open| - 1] + [f.(current := f.current + [item])])
  }

  /**
   * What `next(desc)` gives for the `used`-th element: `''` throughout when
   * no help list (or an empty one) is given, nothing once a given list has run out.
   */
  function Help(descs: seq<string>, used: nat): Option<string>
  {
    if descs == [] then Some("") else if used < |descs| then Some(descs[used]) else None
  }

  /**
   * `consume(i)`: the text from `last` up to `i`, stripped (see
   * `StripRangeIsStrip` for `StripRange` being `strip()`), becomes an
   * element of the innermost open list, flagged as an argument inside a
   * group; empty text adds nothing and takes no help text.
   */
  function Consume(s: string, descs: seq<string>, st: Scan, i: nat): (r: Result<Scan, SplitError>)
    requires st.last <= i <= |s|
    ensures r.Success? ==> r.value.last == st.last && |r.value.open| == |st.open|
    ensures r.Failure? ==> r.error == MissingHelp
  {
    var argspec := StripRange(s, st.last, i);
    if argspec == [] then Success(st)
    else match Help(descs, st.used)
      case None => Failure(MissingHelp)
      case Some(d) => Success(Append(st, Elem(NewElement(argspec, d, st.open != []))).(used := st.used + 1))
  }

  /** `push_group`: a new group with one empty branch, which becomes the innermost open list. */
  function Push(st: Scan, kind: Kind): (r: Scan)
    ensures r.last == st.last && |r.open| == |st.open| + 1
  {
    st.(open := st.open + [Frame(kind, [], [])])
  }

  /** `pop_group`: close the innermost group, which must be of the given kind, and add it to the list around it. */
  function Pop(st: Scan, kind: Kind): (r: Result<Scan, SplitError>)
    ensures r.Success? ==> r.value.last == st.last && |r.value.open| == |st.open| - 1
    ensures r.Failure? <==> st.open == [] || st.open[|st.open| - 1].kind != kind
    ensures r.Failure? ==> r.error == if st.open == [] then StrayClose else WrongClose
  {
    if st.open == [] then Failure(StrayClose)
    else
      var f := st.open[|st.open| - 1];
      if f.kind != kind then Failure(WrongClose)
      else Success(Append(st.(open := st.open[..|st.open| - 1]), Group(kind, f.done + [Branch(f.current)])))
  }

  /** `|`: the innermost branch is finished and an empty one begins. */
  function Bar(st: Scan): (r: Result<Scan, SplitError>)
    ensures r.Success? ==> r.value.last == st.last && |r.value.open| == |st.open|
    ensures r.Failure? <==> st.open == []
    ensures r.Failure? ==> r.error == StrayBar
  {
    if st.open == [] then Failure(StrayBar)
    else
      var f := st.open[|st.open| - 1];
      Success(st.(open := st.open[..|st.open| - 1] + [Frame(f.kind, f.done + [Branch(f.current)], [])]))
  }

  /**
   * A space ends a token unless the character before it is a space too;
   * for the first character that is the last one, as `cmdspec[i - 1]` reads.
   */
  predicate Separator(s: string, i: nat)
    requires i < |s|
  {
    s[i] == ' ' && s[if i == 0 then |s| - 1 else i - 1] != ' '
  }

  /**
   * The scan's reaction to character `i`. An opening bracket moves `last`
   * past itself without consuming, so a token written right before it is lost.
   */
  function Step(s: string, descs: seq<string>, st: Scan, i: nat): (r: Result<Scan, SplitError>)
    requires st.last <= i < |s|
    ensures r.Success? ==> r.value.last <= i + 1
  {
    var c := s[i];
    if c == '(' || c == '{' then Success(Push(st, KindOf(c)).(last := i + 1))
    else if c == ')' || c == '}' then
      match Consume(s, descs, st, i)
      case Failure(e) => Failure(e)
      case Success(st') => Pop(st'.(last := i + 1), KindOf(c))
    else if Separator(s, i) then
      match Consume(s, descs, st, i)
      case Failure(e) => Failure(e)
      case Success(st') => Success(st'.(last := i + 1))
    else if c == '|' then
      match Consume(s, descs, st, i)
      case Failure(e) => Failure(e)
      case Success(st') => Bar(st'.(last := i + 1))
    else Success(st)
  }

  /** The scan after the first `n` characters. */
  function Run(s: string, descs: seq<string>, n: nat): (r: Result<Scan, SplitError>)
    requires n <= |s|
    ensures r.Success? ==> r.value.last <= n
  {
    if n == 0 then Success(Scan([], [], 0, 0))
    else match Run(s, descs, n - 1)
      case Failure(e) => Failure(e)
      case Success(st) => Step(s, descs, st, n - 1)
  }

  /** The end of the scan: the last token is consumed, then every group must be closed. */
  function Finish(s: string, descs: seq<string>, st: Scan): Result<seq<Item>, SplitError>
    requires st.last <= |s|
  {
    match Consume(s, descs, st, |s|)
    case Failure(e) => Failure(e)
    case Success(st') => if st'.open != [] then Failure(Unclosed) else Success(st'.top)
  }

  /** `cmdsplit(cmdspec, desc_seq)`: the elements and groups of a specification, or why it is refused. */
  function Split(cmdspec: string, descs: seq<string>): Result<seq<Item>, SplitError>
  {
    var s := Strip(cmdspec);
    match Run(s, descs, |s|)
    case Failure(e) => Failure(e)
    case Success(st) => Finish(s, descs, st)
  }

  lemma RunUnfold(s: string, descs: seq<string>, n: nat)
    requires 0 < n <= |s| && Run(s, descs, n - 1).Success?
    ensures Run(s, descs, n) == Step(s, descs, Run(s, descs, n - 1).value, n - 1)
  {
  }

  lemma RunUnfoldFailed(s: string, descs: seq<string>, n: nat)
    requires 0 < n <= |s| && Run(s, descs, n - 1).Failure?
    ensures Run(s, descs, n) == Run(s, descs, n - 1)
  {
  }

  /** Once the scan has failed, it stays failed with the same error. */
  lemma {:induction false} RunStaysFailed(s: string, descs: seq<string>, n: nat, m: nat)
    requires n <= m <= |s| && Run(s, descs, n).Failure?
    ensures Run(s, descs, m) == Run(s, descs, n)
    decreases m - n
  {
    if n < m {
      RunStaysFailed(s, descs, n, m - 1);
      var prev := Run(s, descs, m - 1);
      assert prev.Failure?;
      RunUnfoldFailed(s, descs, m);
    }
  }

  /** A scan that has failed after `n` characters decides the result of the whole split. */
  lemma SplitFailed(cmdspec: string, descs: seq<string>, n: nat)
    requires n <= |Strip(cmdspec)| && Run(Strip(cmdspec), descs, n).Failure?
    ensures Split(cmdspec, descs) == Failure(Run(Strip(cmdspec), descs, n).error)
  {
    RunStaysFailed(Strip(cmdspec), descs, n, |Strip(cmdspec)|);
  }

  /**
   * `cmdsplit` with its character loop: `last`, the top-level list and the
   * stack of open groups are updated in place, character by character.
   */
  method CmdSplit(cmdspec: string, descs: seq<string>) returns (r: Result<seq<Item>, SplitError>)
    ensures r == Split(cmdspec, descs)
  {
    var s := Strip(cmdspec);
    var st := Scan([], [], 0, 0);
    for i := 0 to |s|
      invariant Run(s, descs, i) == Success(st)
    {
      var c := s[i];
      if c == '(' || c == '{' {
        st := Push(st, KindOf(c)).(last := i + 1);
      } else if c == ')' || c == '}' || Separator(s, i) || c == '|' {
        var consumed := Consume(s, descs, st, i);
        if consumed.Failure? {
          SplitFailed(cmdspec, descs, i + 1);
          return Failure(consumed.error);
        }
        st := consumed.value.(last := i + 1);
        if c == ')' || c == '}' {
          var popped := Pop(st, KindOf(c));
          if popped.Failure? {
            SplitFailed(cmdspec, descs, i + 1);
            return Failure(popped.error);
          }
          st := popped.value;
        } else if c == '|' {
          if st.open == [] {
            SplitFailed(cmdspec, descs, i + 1);
            return Failure(StrayBar);
          }
          var f := st.open[|st.open| - 1];
          st := st.(open := st.open[..|st.open| - 1] + [Frame(f.kind, f.done + [Branch(f.current)], [])]);
        }
      }
    }
    var consumed := Consume(s, descs, st, |s|);
    if consumed.Failure? {
      return Failure(consumed.error);
    }
    if consumed.value.open != [] {
      return Failure(Unclosed);
    }
    r := Success(consumed.value.top);
  }

  /*
   * Reference for the bracket structure alone: the kinds of the groups
   * still open after `n` characters, or the error the brackets and bars
   * cause, with tokens and help texts left aside.
   */

  function Kinds(open: seq<Frame>): (r: seq<Kind>)
    ensures |r| == |open| && forall i :: 0 <= i < |open| ==> r[i] == open[i].kind
  {
    seq(|open|, i requires 0 <= i < |open| => open[i].kind)
  }

  /** The open kinds after one more character `c`. */
  function NestStep(ks: seq<Kind>, c: char): Result<seq<Kind>, SplitError>
  {
    if c == '(' || c == '{' then Success(ks + [KindOf(c)])
    else if c == ')' || c == '}' then
      if ks == [] then Failure(StrayClose)
      else if ks[|ks| - 1] != KindOf(c) then Failure(WrongClose)
      else Success(ks[..|ks| - 1])
    else if c == '|' && ks == [] then Failure(StrayBar)
    else Success(ks)
  }

  function Nesting(s: string, n: nat): Result<seq<Kind>, SplitError>
    requires n <= |s|
  {
    if n == 0 then Success([])
    else match Nesting(s, n - 1)
      case Failure(e) => Failure(e)
      case Success(ks) => NestStep(ks, s[n - 1])
  }

  /** What is wrong with the brackets and bars of `s`, if anything. */
  function Imbalance(s: string): Option<SplitError>
  {
    match Nesting(s, |s|)
    case Failure(e) => Some(e)
    case Success(ks) => if ks == [] then None else Some(Unclosed)
  }

  lemma AppendKinds(st: Scan, item: Item)
    ensures Kinds(Append(st, item).open) == Kinds(st.open)
  {
    var r := Append(st, item);
    assert forall j :: 0 <= j < |st.open| ==> r.open[j].kind == st.open[j].kind;
  }

  lemma ConsumeKinds(s: string, descs: seq<string>, st: Scan, i: nat)
    requires st.last <= i <= |s| && Consume(s, descs, st, i).Success?
    ensures Kinds(Consume(s, descs, st, i).value.open) == Kinds(st.open)
  {
    var argspec := StripRange(s, st.last, i);
    if argspec != [] {
      var d := Help(descs, st.used).value;
      AppendKinds(st, Elem(NewElement(argspec, d, st.open != [])));
    }
  }

  /** Closing a group agrees with the bracket reference. */
  lemma PopNesting(st: Scan, c: char)
    requires c == ')' || c == '}'
    ensures Pop(st, KindOf(c)).Success? ==> NestStep(Kinds(st.open), c) == Success(Kinds(Pop(st, KindOf(c)).value.open))
    ensures Pop(st, KindOf(c)).Failure? ==> NestStep(Kinds(st.open), c) == Failure(Pop(st, KindOf(c)).error)
  {
    if Pop(st, KindOf(c)).Success? {
      var f := st.open[|st.open| - 1];
      var inner := st.(open := st.open[..|st.open| - 1]);
      AppendKinds(inner, Group(KindOf(c), f.done + [Branch(f.current)]));
      assert Kinds(inner.open) == Kinds(st.open)[..|st.open| - 1];
    }
  }

  /** A bar agrees with the bracket reference. */
  lemma BarNesting(st: Scan)
    ensures Bar(st).Success? ==> NestStep(Kinds(st.open), '|') == Success(Kinds(Bar(st).value.open))
    ensures Bar(st).Failure? ==> NestStep(Kinds(st.open), '|') == Failure(Bar(st).error)
  {
    if st.open != [] {
      assert Kinds(Bar(st).value.open) == Kinds(st.open);
    }
  }

  /** One step of the scan follows one step of the bracket reference. */
  lemma StepNesting(s: string, descs: seq<string>, st: Scan, i: nat)
    requires st.last <= i < |s|
    ensures Step(s, descs, st, i).Success? ==>
              NestStep(Kinds(st.open), s[i]) == Success(Kinds(Step(s, descs, st, i).value.open))
    ensures NestStep(Kinds(st.open), s[i]).Failure? ==> Step(s, descs, st, i).Failure?
    ensures Step(s, descs, st, i).Failure? && Step(s, descs, st, i).error == MissingHelp ==> descs != []
    ensures Step(s, descs, st, i).Failure? && Step(s, descs, st, i).error != MissingHelp ==>
              NestStep(Kinds(st.open), s[i]) == Failure(Step(s, descs, st, i).error)
  {
    var c := s[i];
    var ks := Kinds(st.open);
    var r := Step(s, descs, st, i);
    if c == '(' || c == '{' {
      assert r == Success(Push(st, KindOf(c)).(last := i + 1));
      assert Kinds(Push(st, KindOf(c)).open) == ks + [KindOf(c)];
    } else if c == ')' || c == '}' || Separator(s, i) || c == '|' {
      var consumed := Consume(s, descs, st, i);
      if consumed.Success? {
        ConsumeKinds(s, descs, st, i);
        var st' := consumed.value.(last := i + 1);
        assert Kinds(st'.open) == ks;
        if c == ')' || c == '}' {
          assert r == Pop(st', KindOf(c));
          PopNesting(st', c);
        } else if c == '|' {
          assert r == Bar(st');
          BarNesting(st');
        } else {
          assert r == Success(st');
        }
      } else {
        assert r == Failure(MissingHelp);
        assert Help(descs, st.used) == None;
      }
    } else {
      assert r == Success(st);
    }
  }

  /**
   * The scan follows the bracket reference: while it succeeds the same
   * groups are open, it fails wherever the reference fails, and whenever it
   * fails for a reason other than a short help list, the reference fails
   * for the same reason. Without a help list it never runs short.
   */
  lemma {:induction false} RunNesting(s: string, descs: seq<string>, n: nat)
    requires n <= |s|
    ensures Tracks(s, descs, n)
  {
    if n > 0 {
      RunNesting(s, descs, n - 1);
      if Run(s, descs, n - 1).Success? {
        TracksAfterSuccess(s, descs, n);
      } else {
        TracksAfterFailure(s, descs, n);
      }
    }
  }

  /** The four facts `RunNesting` states about the scan of the first `n` characters. */
  predicate Tracks(s: string, descs: seq<string>, n: nat)
    requires n <= |s|
  {
    (Run(s, descs, n).Success? ==> Nesting(s, n) == Success(Kinds(Run(s, descs, n).value.open))) &&
    (Nesting(s, n).Failure? ==> Run(s, descs, n).Failure?) &&
    (Run(s, descs, n).Failure? && Run(s, descs, n).error == MissingHelp ==> descs != []) &&
    (Run(s, descs, n).Failure? && Run(s, descs, n).error != MissingHelp ==>
       Nesting(s, n) == Failure(Run(s, descs, n).error))
  }

  lemma TracksAfterSuccess(s: string, descs: seq<string>, n: nat)
    requires 0 < n <= |s| && Tracks(s, descs, n - 1) && Run(s, descs, n - 1).Success?
    ensures Tracks(s, descs, n)
  {
    var prev := Run(s, descs, n - 1);
    StepNesting(s, descs, prev.value, n - 1);
    RunUnfold(s, descs, n);
    var cur := Step(s, descs, prev.value, n - 1);
    assert Run(s, descs, n) == cur;
    assert Nesting(s, n) == NestStep(Kinds(prev.value.open), s[n - 1]);
  }

  lemma TracksAfterFailure(s: string, descs: seq<string>, n: nat)
    requires 0 < n <= |s| && Tracks(s, descs, n - 1) && Run(s, descs, n - 1).Failure?
    ensures Tracks(s, descs, n)
  {
    var prev := Run(s, descs, n - 1);
    RunUnfoldFailed(s, descs, n);
    if prev.error != MissingHelp {
      assert Nesting(s, n) == Nesting(s, n - 1);
    }
  }

  /**
   * Without help texts, `cmdsplit` refuses a specification exactly when its
   * brackets and bars are wrong, and for that reason: a close with no group
   * open or a bar outside every group, a close of the other kind, or a group
   * left open.
   */
  lemma SplitBalance(cmdspec: string)
    ensures Split(cmdspec, []).Success? <==> Imbalance(Strip(cmdspec)) == None
    ensures Split(cmdspec, []).Failure? ==> Imbalance(Strip(cmdspec)) == Some(Split(cmdspec, []).error)
  {
    var s := Strip(cmdspec);
    RunNesting(s, [], |s|);
    if Run(s, [], |s|).Success? {
      var st := Run(s, [], |s|).value;
      ConsumeKinds(s, [], st, |s|);
    }
  }

  /** With a help list the same holds, except that the list may run out first. */
  lemma SplitBalanceWithHelp(cmdspec: string, descs: seq<string>)
    ensures Imbalance(Strip(cmdspec)) != None ==> Split(cmdspec, descs).Failure?
    ensures Split(cmdspec, descs).Failure? ==>
              if Split(cmdspec, descs).error == MissingHelp then descs != []
              else Imbalance(Strip(cmdspec)) == Some(Split(cmdspec, descs).error)
  {
    var s := Strip(cmdspec);
    RunNesting(s, descs, |s|);
    if Run(s, descs, |s|).Success? {
      var st := Run(s, descs, |s|).value;
      if Consume(s, descs, st, |s|).Success? {
        ConsumeKinds(s, descs, st, |s|);
      }
    }
  }

  /*
   * What the elements look like: each is one token (no spaces, brackets or
   * bars, nothing to strip), flagged as an argument exactly when it is
   * inside a group or converts its value.
   */

  predicate Special(c: char)
  {
    c == '(' || c == ')' || c == '{' || c == '}' || c == '|'
  }

  predicate Token(a: string)
  {
    a != [] && !IsSpace(a[0]) && !IsSpace(a[|a| - 1]) &&
    forall j :: 0 <= j < |a| ==> a[j] != ' ' && !Special(a[j])
  }

  predicate ElementOk(e: Element, inside: bool)
  {
    Token(e.argspec) && (e.isArgument <==> inside || e.converter.Some?)
  }

  predicate Every(items: seq<Item>, inside: bool)
  {
    forall i :: 0 <= i < |items| ==> ItemOk(items[i], inside)
  }

  predicate ItemOk(item: Item, inside: bool)
  {
    match item
    case Elem(e) => ElementOk(e, inside)
    case Paren(bs) => |bs| > 0 && BranchesOk(bs)
    case Brace(bs) => |bs| > 0 && BranchesOk(bs)
  }

  predicate BranchesOk(bs: seq<Branch>)
  {
    forall j :: 0 <= j < |bs| ==> Every(bs[j].items, true)
  }

  /** Every group, at any depth, has at least one branch. */
  predicate Grouped(items: seq<Item>)
  {
    forall i :: 0 <= i < |items| ==> GroupedItem(items[i])
  }

  predicate GroupedItem(item: Item)
  {
    match item
    case Elem(_) => true
    case Paren(bs) => |bs| > 0 && forall j :: 0 <= j < |bs| ==> Grouped(bs[j].items)
    case Brace(bs) => |bs| > 0 && forall j :: 0 <= j < |bs| ==> Grouped(bs[j].items)
  }

  lemma {:induction false} EveryGrouped(items: seq<Item>, inside: bool)
    requires Every(items, inside)
    ensures Grouped(items)
    decreases items
  {
    forall i | 0 <= i < |items| ensures GroupedItem(items[i]) {
      ItemGrouped(items[i], inside);
    }
  }

  lemma {:induction false} ItemGrouped(item: Item, inside: bool)
    requires ItemOk(item, inside)
    ensures GroupedItem(item)
    decreases item
  {
    match item
    case Elem(_) =>
    case Paren(bs) =>
      forall j | 0 <= j < |bs| ensures Grouped(bs[j].items) {
        EveryGrouped(bs[j].items, true);
      }
    case Brace(bs) =>
      forall j | 0 <= j < |bs| ensures Grouped(bs[j].items) {
        EveryGrouped(bs[j].items, true);
      }
  }

  /** The elements in reading order, groups flattened branch by branch. */
  function Flatten(items: seq<Item>): seq<Element>
  {
    if items == [] then [] else Flatten(items[..|items| - 1]) + FlattenItem(items[|items| - 1])
  }

  function FlattenItem(item: Item): seq<Element>
  {
    match item
    case Elem(e) => [e]
    case Paren(bs) => FlattenBranches(bs)
    case Brace(bs) => FlattenBranches(bs)
  }

  function FlattenBranches(bs: seq<Branch>): seq<Element>
  {
    if bs == [] then [] else FlattenBranches(bs[..|bs| - 1]) + Flatten(bs[|bs| - 1].items)
  }

  /** The elements a scan has produced so far, in reading order. */
  function FlattenOpen(open: seq<Frame>): seq<Element>
  {
    if open == [] then []
    else
      var f := open[|open| - 1];
      FlattenOpen(open[..|open| - 1]) + FlattenBranches(f.done) + Flatten(f.current)
  }

  function Produced(st: Scan): seq<Element>
  {
    Flatten(st.top) + FlattenOpen(st.open)
  }

  /** The scan's lists hold well-formed items, flagged by whether they are inside a group. */
  predicate ScanOk(st: Scan)
  {
    Every(st.top, false) &&
    forall i :: 0 <= i < |st.open| ==> BranchesOk(st.open[i].done) && Every(st.open[i].current, true)
  }

  /** Each element produced so far took the help text of its position, and the count is `used`. */
  predicate HelpOk(descs: seq<string>, st: Scan)
  {
    var p := Produced(st);
    |p| == st.used && forall j :: 0 <= j < |p| ==> Help(descs, j) == Some(p[j].desc)
  }

  /**
   * The pending text `s[last..n]` holds no bracket or bar, and every space
   * in it comes before every other character.
   */
  predicate PendingOk(s: string, last: nat, n: nat)
    requires last <= n <= |s|
  {
    (forall j :: last <= j < n ==> !Special(s[j])) &&
    (forall j1, j2 :: last <= j1 < j2 < n && s[j2] == ' ' ==> s[j1] == ' ')
  }

  lemma AppendItem(st: Scan, item: Item)
    requires ScanOk(st) && ItemOk(item, st.open != [])
    ensures ScanOk(Append(st, item))
    ensures Produced(Append(st, item)) == Produced(st) + FlattenItem(item)
  {
    var r := Append(st, item);
    if st.open == [] {
      assert r.top == st.top + [item];
      assert Flatten(r.top) == Flatten(st.top) + FlattenItem(item);
    } else {
      var n := |st.open|;
      var f := st.open[n - 1];
      assert r.open[..n - 1] == st.open[..n - 1];
      assert r.open[n - 1].current == f.current + [item];
      assert (f.current + [item])[..|f.current|] == f.current;
      assert Flatten(r.open[n - 1].current) == Flatten(f.current) + FlattenItem(item);
      assert ScanOk(r) by {
        forall j | 0 <= j < n ensures BranchesOk(r.open[j].done) && Every(r.open[j].current, true) {
          if j < n - 1 {
            assert r.open[j] == st.open[j];
          }
        }
      }
    }
  }

  /** A pending text as described strips to nothing or to a single token. */
  lemma StripPending(s: string, last: nat, i: nat)
    requires last <= i <= |s| && PendingOk(s, last, i)
    ensures StripRange(s, last, i) == [] || Token(StripRange(s, last, i))
  {
    var a := SkipSpace(s, last, i);
    var b := TrimEnd(s, a, i);
    var r := StripRange(s, last, i);
    if r != [] {
      forall j | 0 <= j < |r| ensures r[j] != ' ' && !Special(r[j]) {
        assert r[j] == s[a + j];
        if j > 0 {
          assert r[0] == s[a];
        }
      }
    }
  }

  lemma HelpAppend(descs: seq<string>, st: Scan, r: Scan, e: Element)
    requires HelpOk(descs, st) && Help(descs, st.used) == Some(e.desc)
    requires Produced(r) == Produced(st) + [e] && r.used == st.used + 1
    ensures HelpOk(descs, r)
  {
  }

  lemma ConsumeOk(s: string, descs: seq<string>, st: Scan, i: nat)
    requires st.last <= i <= |s| && PendingOk(s, st.last, i)
    requires ScanOk(st) && HelpOk(descs, st)
    requires Consume(s, descs, st, i).Success?
    ensures ScanOk(Consume(s, descs, st, i).value) && HelpOk(descs, Consume(s, descs, st, i).value)
  {
    var argspec := StripRange(s, st.last, i);
    if argspec == [] {
      assert Consume(s, descs, st, i).value == st;
    } else {
      StripPending(s, st.last, i);
      var d := Help(descs, st.used).value;
      var e := NewElement(argspec, d, st.open != []);
      AppendItem(st, Elem(e));
      var r := Append(st, Elem(e)).(used := st.used + 1);
      assert Consume(s, descs, st, i).value == r;
      var p := Produced(r);
      assert p == Produced(st) + [e];
      assert Help(descs, st.used) == Some(e.desc);
      HelpAppend(descs, st, r, e);
    }
  }

  lemma PushOk(st: Scan, kind: Kind)
    requires ScanOk(st)
    ensures ScanOk(Push(st, kind)) && Produced(Push(st, kind)) == Produced(st)
  {
    var r := Push(st, kind);
    assert r.open[..|r.open| - 1] == st.open;
  }

  /** Dropping the innermost open group keeps the rest well-formed and loses exactly that group's elements. */
  lemma DropInnermost(st: Scan)
    requires ScanOk(st) && st.open != []
    ensures var f := st.open[|st.open| - 1];
            var inner := st.(open := st.open[..|st.open| - 1]);
            ScanOk(inner) && Produced(st) == Produced(inner) + FlattenBranches(f.done) + Flatten(f.current)
  {
  }

  /** A closed group is well-formed and holds its branches' elements in order. */
  lemma ClosedGroup(kind: Kind, f: Frame, inside: bool)
    requires BranchesOk(f.done) && Every(f.current, true)
    ensures ItemOk(Group(kind, f.done + [Branch(f.current)]), inside)
    ensures FlattenItem(Group(kind, f.done + [Branch(f.current)])) == FlattenBranches(f.done) + Flatten(f.current)
  {
    var bs := f.done + [Branch(f.current)];
    assert BranchesOk(bs);
    assert bs[..|f.done|] == f.done;
  }

  lemma PopOk(st: Scan, kind: Kind)
    requires ScanOk(st) && Pop(st, kind).Success?
    ensures ScanOk(Pop(st, kind).value) && Produced(Pop(st, kind).value) == Produced(st)
    ensures Pop(st, kind).value.used == st.used
  {
    var f := st.open[|st.open| - 1];
    var inner := st.(open := st.open[..|st.open| - 1]);
    DropInnermost(st);
    ClosedGroup(kind, f, inner.open != []);
    AppendItem(inner, Group(kind, f.done + [Branch(f.current)]));
  }

  lemma BarOk(st: Scan)
    requires ScanOk(st) && st.open != []
    ensures ScanOk(Bar(st).value) && Produced(Bar(st).value) == Produced(st)
  {
    var n := |st.open|;
    var f := st.open[n - 1];
    var r := Bar(st).value;
    assert r.open[..n - 1] == st.open[..n - 1];
    assert BranchesOk(f.done + [Branch(f.current)]);
    assert (f.done + [Branch(f.current)])[..|f.done|] == f.done;
  }

  /** A character that ends no token extends the pending text. */
  lemma PendingExtend(s: string, last: nat, i: nat)
    requires last <= i < |s| && PendingOk(s, last, i)
    requires !Special(s[i]) && !Separator(s, i)
    ensures PendingOk(s, last, i + 1)
  {
    forall j1, j2 | last <= j1 < j2 < i + 1 && s[j2] == ' ' ensures s[j1] == ' ' {
      if j2 == i {
        assert s[i - 1] == ' ';
      }
    }
  }

  /** One step of the scan keeps the scan's well-formedness. */
  lemma StepOk(s: string, descs: seq<string>, st: Scan, i: nat)
    requires st.last <= i < |s| && PendingOk(s, st.last, i)
    requires ScanOk(st) && HelpOk(descs, st)
    requires Step(s, descs, st, i).Success?
    ensures PendingOk(s, Step(s, descs, st, i).value.last, i + 1)
    ensures ScanOk(Step(s, descs, st, i).value) && HelpOk(descs, Step(s, descs, st, i).value)
  {
    var c := s[i];
    var r := Step(s, descs, st, i).value;
    if c == '(' || c == '{' {
      PushOk(st, KindOf(c));
      assert r == Push(st, KindOf(c)).(last := i + 1);
    } else if c == ')' || c == '}' || Separator(s, i) || c == '|' {
      ConsumeOk(s, descs, st, i);
      var st' := Consume(s, descs, st, i).value.(last := i + 1);
      if c == ')' || c == '}' {
        PopOk(st', KindOf(c));
        assert r == Pop(st', KindOf(c)).value;
      } else if c == '|' {
        BarOk(st');
        assert r == Bar(st').value;
      } else {
        assert r == st';
      }
    } else {
      PendingExtend(s, st.last, i);
      assert r == st;
    }
  }

  /** What holds of the scan after every character, by induction over the characters. */
  lemma {:induction false} RunOk(s: string, descs: seq<string>, n: nat)
    requires n <= |s| && Run(s, descs, n).Success?
    ensures PendingOk(s, Run(s, descs, n).value.last, n)
    ensures ScanOk(Run(s, descs, n).value) && HelpOk(descs, Run(s, descs, n).value)
  {
    if n > 0 {
      RunOk(s, descs, n - 1);
      RunUnfold(s, descs, n);
      StepOk(s, descs, Run(s, descs, n - 1).value, n - 1);
    }
  }

  /**
   * Every element `cmdsplit` produces is a single token, and it is flagged
   * as an argument exactly when it sits inside a group or its keyword names
   * a converter.
   */
  lemma SplitElements(cmdspec: string, descs: seq<string>)
    requires Split(cmdspec, descs).Success?
    ensures Every(Split(cmdspec, descs).value, false)
  {
    var s := Strip(cmdspec);
    RunOk(s, descs, |s|);
    var st := Run(s, descs, |s|).value;
    ConsumeOk(s, descs, st, |s|);
  }

  /** Every group `cmdsplit` produces has at least one branch: a group opens with an empty one. */
  lemma SplitGrouped(cmdspec: string, descs: seq<string>)
    requires Split(cmdspec, descs).Success?
    ensures Grouped(Split(cmdspec, descs).value)
  {
    SplitElements(cmdspec, descs);
    EveryGrouped(Split(cmdspec, descs).value, false);
  }

  /**
   * Help texts are handed out in reading order: the `j`-th element takes
   * the `j`-th help text (all of them `''` without a help list), and a
   * given list holds at least one text per element.
   */
  lemma SplitHelp(cmdspec: string, descs: seq<string>)
    requires Split(cmdspec, descs).Success?
    ensures var es := Flatten(Split(cmdspec, descs).value);
            (descs != [] ==> |es| <= |descs|) &&
            forall j :: 0 <= j < |es| ==> es[j].desc == if descs == [] then "" else descs[j]
  {
    var s := Strip(cmdspec);
    RunOk(s, descs, |s|);
    var st := Run(s, descs, |s|).value;
    ConsumeOk(s, descs, st, |s|);
    var fin := Consume(s, descs, st, |s|).value;
    assert Produced(fin) == Flatten(fin.top);
    var es := Flatten(fin.top);
    if descs != [] && |es| > 0 {
      assert Help(descs, |es| - 1).Some?;
    }
  }

  /*
   * Without brackets or bars a specification is a list of words: the
   * following reference reads it as Python's `[w.strip() for w in
   * t.split(' ') if w.strip()]` would, independently of the scan.
   */

  /** `t.split(' ')`: the pieces between single spaces, never none. */
  function Pieces(t: string): (r: seq<string>)
    ensures |r| > 0
  {
    if t == [] then [[]]
    else if t[|t| - 1] == ' ' then Pieces(t[..|t| - 1]) + [[]]
    else
      var p := Pieces(t[..|t| - 1]);
      p[..|p| - 1] + [p[|p| - 1] + [t[|t| - 1]]]
  }

  /** The pieces stripped, with those that strip to nothing left out. */
  function Keep(ps: seq<string>): seq<string>
  {
    if ps == [] then []
    else Keep(ps[..|ps| - 1]) + (if Strip(ps[|ps| - 1]) == [] then [] else [Strip(ps[|ps| - 1])])
  }

  function Words(t: string): seq<string>
  {
    Keep(Pieces(t))
  }

  /** The argspecs of the plain elements of a list, in order. */
  function Argspecs(items: seq<Item>): seq<string>
  {
    if items == [] then []
    else Argspecs(items[..|items| - 1]) + (if items[|items| - 1].Elem? then [items[|items| - 1].element.argspec] else [])
  }

  lemma AppendAssoc<T>(x: seq<T>, y: seq<T>, z: seq<T>)
    ensures (x + y) + z == x + (y + z)
  {
  }

  lemma DropLastAppend<T>(x: seq<T>, q: seq<T>, l: seq<T>)
    requires |q| > 0
    ensures (x + q)[..|x + q| - 1] + l == x + (q[..|q| - 1] + l)
    ensures (x + q)[..|x + q| - 1] == x + q[..|q| - 1]
    ensures (x + q)[|x + q| - 1] == q[|q| - 1]
  {
    assert (x + q)[..|x + q| - 1] == x + q[..|q| - 1];
  }

  lemma PiecesSnocSpace(t: string)
    ensures Pieces(t + [' ']) == Pieces(t) + [[]]
  {
    assert (t + [' '])[..|t|] == t;
  }

  lemma PiecesSnocChar(t: string, c: char)
    requires c != ' '
    ensures Pieces(t + [c]) == Pieces(t)[..|Pieces(t)| - 1] + [Pieces(t)[|Pieces(t)| - 1] + [c]]
  {
    assert (t + [c])[..|t|] == t;
  }

  lemma PiecesSpaceSpace(a: string, b: string)
    requires Pieces(a + [' '] + b) == Pieces(a) + Pieces(b)
    ensures Pieces(a + [' '] + (b + [' '])) == Pieces(a) + Pieces(b + [' '])
  {
    var t := a + [' '] + b;
    assert a + [' '] + (b + [' ']) == t + [' '];
    PiecesSnocSpace(t);
    PiecesSnocSpace(b);
    AppendAssoc(Pieces(a), Pieces(b), [[]]);
  }

  lemma PiecesSpaceChar(a: string, b: string, c: char)
    requires c != ' ' && Pieces(a + [' '] + b) == Pieces(a) + Pieces(b)
    ensures Pieces(a + [' '] + (b + [c])) == Pieces(a) + Pieces(b + [c])
  {
    var t := a + [' '] + b;
    assert a + [' '] + (b + [c]) == t + [c];
    PiecesSnocChar(t, c);
    PiecesSnocChar(b, c);
    var q := Pieces(b);
    DropLastAppend(Pieces(a), q, [q[|q| - 1] + [c]]);
  }

  /** A space splits the pieces of what surrounds it. */
  lemma {:induction false} PiecesSpace(a: string, b: string)
    ensures Pieces(a + [' '] + b) == Pieces(a) + Pieces(b)
    decreases |b|
  {
    if b == [] {
      PiecesSnocSpace(a);
      assert a + [' '] + b == a + [' '];
      assert Pieces(b) == [[]];
    } else {
      var b', c := b[..|b| - 1], b[|b| - 1];
      assert b == b' + [c];
      PiecesSpace(a, b');
      if c == ' ' {
        PiecesSpaceSpace(a, b');
      } else {
        PiecesSpaceChar(a, b', c);
      }
    }
  }

  lemma {:induction false} KeepAppend(x: seq<string>, y: seq<string>)
    ensures Keep(x + y) == Keep(x) + Keep(y)
    decreases |y|
  {
    if y == [] {
      assert x + y == x;
    } else {
      var y' := y[..|y| - 1];
      var w := Strip(y[|y| - 1]);
      var k := if w == [] then [] else [w];
      DropLastAppend(x, y, []);
      KeepAppend(x, y');
      AppendAssoc(Keep(x), Keep(y'), k);
    }
  }

  /** Text without a space is one piece. */
  lemma {:induction false} PiecesWord(u: string)
    requires forall j :: 0 <= j < |u| ==> u[j] != ' '
    ensures Pieces(u) == [u]
    decreases |u|
  {
    if u != [] {
      PiecesWord(u[..|u| - 1]);
      assert u[..|u| - 1] + [u[|u| - 1]] == u;
    }
  }

  /** A leading space adds no word and is stripped away. */
  lemma LeadingSpace(u: string)
    ensures Words([' '] + u) == Words(u) && Strip([' '] + u) == Strip(u)
  {
    var t := [' '] + u;
    PiecesSpace([], u);
    assert [] + [' '] + u == t;
    KeepAppend([[]], Pieces(u));
    assert Keep([[]]) == [];
    LeadingSpaceStrip(u);
  }

  lemma LeadingSpaceStrip(u: string)
    ensures Strip([' '] + u) == Strip(u)
  {
    var t := [' '] + u;
    assert t[1..] == u;
    assert LStrip(t) == LStrip(u);
  }

  /** Text without a space is at most one word: the text stripped. */
  lemma OneWord(t: string)
    requires forall j :: 0 <= j < |t| ==> t[j] != ' '
    ensures Words(t) == if Strip(t) == [] then [] else [Strip(t)]
  {
    PiecesWord(t);
    var ps := [t];
    assert ps[..|ps| - 1] == [] && ps[|ps| - 1] == t;
    assert Keep(ps) == Keep([]) + (if Strip(t) == [] then [] else [Strip(t)]);
  }

  /** Past a leading space the text still has its spaces first. */
  lemma PendingRest(t: string)
    requires t != [] && forall j1, j2 :: 0 <= j1 < j2 < |t| && t[j2] == ' ' ==> t[j1] == ' '
    ensures forall j1, j2 :: 0 <= j1 < j2 < |t[1..]| && t[1..][j2] == ' ' ==> t[1..][j1] == ' '
  {
    var u := t[1..];
    forall j1, j2 | 0 <= j1 < j2 < |u| && u[j2] == ' ' ensures u[j1] == ' ' {
      assert u[j2] == t[j2 + 1] && u[j1] == t[j1 + 1];
    }
  }

  /** Text of spaces then non-spaces holds at most one word: the text stripped. */
  lemma {:induction false} PendingWords(t: string)
    requires forall j1, j2 :: 0 <= j1 < j2 < |t| && t[j2] == ' ' ==> t[j1] == ' '
    ensures Words(t) == if Strip(t) == [] then [] else [Strip(t)]
    decreases |t|
  {
    if t == [] {
      OneWord(t);
    } else if t[0] == ' ' {
      PendingRest(t);
      PendingWords(t[1..]);
      SpaceThenPending(t);
    } else {
      NoSpaceAfterWord(t);
      OneWord(t);
    }
  }

  /** A leading space changes neither the words nor the stripped text. */
  lemma SpaceThenPending(t: string)
    requires t != [] && t[0] == ' '
    requires Words(t[1..]) == if Strip(t[1..]) == [] then [] else [Strip(t[1..])]
    ensures Words(t) == if Strip(t) == [] then [] else [Strip(t)]
  {
    LeadingSpace(t[1..]);
    assert [' '] + t[1..] == t;
  }

  /** Pending text that starts with a non-space holds no space at all. */
  lemma NoSpaceAfterWord(t: string)
    requires t != [] && t[0] != ' '
    requires forall j1, j2 :: 0 <= j1 < j2 < |t| && t[j2] == ' ' ==> t[j1] == ' '
    ensures forall j :: 0 <= j < |t| ==> t[j] != ' '
  {
    forall j | 0 <= j < |t| ensures t[j] != ' ' {
      assert t[0] != ' ';
    }
  }

  /** The words up to `n` are those before the space at `last - 1` and those after it. */
  lemma WordsSplit(s: string, last: nat, n: nat)
    requires 0 < last <= n <= |s| && s[last - 1] == ' '
    ensures Words(s[..n]) == Words(s[..last - 1]) + Words(s[last..n])
  {
    assert s[..n] == s[..last - 1] + [' '] + s[last..n];
    PiecesSpace(s[..last - 1], s[last..n]);
    KeepAppend(Pieces(s[..last - 1]), Pieces(s[last..n]));
  }

  /**
   * What the scan of a specification without brackets or bars has produced:
   * plain elements only, one per word before the space that ended the last token.
   */
  predicate WordsSoFar(s: string, st: Scan)
  {
    st.open == [] && (forall i :: 0 <= i < |st.top| ==> st.top[i].Elem?) &&
    |st.top| == st.used &&
    ((st.last == 0 && st.top == []) ||
     (0 < st.last <= |s| && s[st.last - 1] == ' ' && Argspecs(st.top) == Words(s[..st.last - 1])))
  }

  /** The pending text of a scan as a string of its own. */
  lemma PendingText(s: string, last: nat, i: nat)
    requires last <= i <= |s| && PendingOk(s, last, i)
    ensures Words(s[last..i]) == if Strip(s[last..i]) == [] then [] else [Strip(s[last..i])]
  {
    var pend := s[last..i];
    forall j1, j2 | 0 <= j1 < j2 < |pend| && pend[j2] == ' ' ensures pend[j1] == ' ' {
      assert pend[j2] == s[last + j2] && pend[j1] == s[last + j1];
    }
    PendingWords(pend);
  }

  /** The words up to `i` of such a scan: those produced and those of the pending text. */
  lemma WordsSoFarSplit(s: string, st: Scan, i: nat)
    requires st.last <= i <= |s| && WordsSoFar(s, st)
    ensures Words(s[..i]) == Argspecs(st.top) + Words(s[st.last..i])
  {
    if st.last == 0 {
      assert s[..i] == s[st.last..i];
    } else {
      WordsSplit(s, st.last, i);
    }
  }

  /** The pending token of such a scan, once consumed, completes the words up to `i`. */
  lemma ConsumeWords(s: string, descs: seq<string>, st: Scan, i: nat)
    requires st.last <= i <= |s| && PendingOk(s, st.last, i) && WordsSoFar(s, st)
    ensures descs == [] ==> Consume(s, descs, st, i).Success?
    ensures Consume(s, descs, st, i).Success? ==>
              var r := Consume(s, descs, st, i).value;
              r.open == [] && (forall j :: 0 <= j < |r.top| ==> r.top[j].Elem?) &&
              |r.top| == r.used && Argspecs(r.top) == Words(s[..i])
  {
    var a := StripRange(s, st.last, i);
    assert Words(s[..i]) == Argspecs(st.top) + (if a == [] then [] else [a]) by {
      StripRangeIsStrip(s, st.last, i);
      PendingText(s, st.last, i);
      WordsSoFarSplit(s, st, i);
    }
    if a == [] {
      assert Consume(s, descs, st, i) == Success(st);
    } else if Help(descs, st.used).Some? {
      ConsumeAppends(s, descs, st, i);
    }
  }

  /** A token consumed by such a scan joins the list as one more plain element. */
  lemma ConsumeAppends(s: string, descs: seq<string>, st: Scan, i: nat)
    requires st.last <= i <= |s| && st.open == [] && |st.top| == st.used
    requires forall j :: 0 <= j < |st.top| ==> st.top[j].Elem?
    requires StripRange(s, st.last, i) != [] && Help(descs, st.used).Some?
    ensures var r := Consume(s, descs, st, i).value;
            r.open == [] && (forall j :: 0 <= j < |r.top| ==> r.top[j].Elem?) && |r.top| == r.used &&
            Argspecs(r.top) == Argspecs(st.top) + [StripRange(s, st.last, i)]
  {
    var argspec := StripRange(s, st.last, i);
    var e := NewElement(argspec, Help(descs, st.used).value, false);
    var top := st.top + [Elem(e)];
    assert Consume(s, descs, st, i).value == st.(top := top, used := st.used + 1);
    assert top[..|top| - 1] == st.top;
    assert forall j :: 0 <= j < |top| ==> top[j].Elem? by {
      forall j | 0 <= j < |top| ensures top[j].Elem? {
        if j < |st.top| {
          assert top[j] == st.top[j];
        }
      }
    }
  }

  /** A space that ends a token starts the next one with every word before it produced. */
  lemma SeparatorWords(s: string, r: Scan, i: nat)
    requires i < |s| && s[i] == ' ' && r.open == [] && |r.top| == r.used
    requires (forall j :: 0 <= j < |r.top| ==> r.top[j].Elem?) && Argspecs(r.top) == Words(s[..i])
    ensures WordsSoFar(s, r.(last := i + 1))
  {
  }

  lemma StepWords(s: string, descs: seq<string>, st: Scan, i: nat)
    requires st.last <= i < |s| && !Special(s[i]) && PendingOk(s, st.last, i) && WordsSoFar(s, st)
    ensures descs == [] ==> Step(s, descs, st, i).Success?
    ensures Step(s, descs, st, i).Success? ==> WordsSoFar(s, Step(s, descs, st, i).value)
  {
    if Separator(s, i) {
      ConsumeWords(s, descs, st, i);
      if Consume(s, descs, st, i).Success? {
        var r := Consume(s, descs, st, i).value;
        assert Step(s, descs, st, i) == Success(r.(last := i + 1));
        SeparatorWords(s, r, i);
      }
    } else {
      assert Step(s, descs, st, i) == Success(st);
    }
  }

  /** Without a help list, a scan that meets no bracket or bar never fails. */
  lemma {:induction false} RunTotal(s: string, n: nat)
    requires n <= |s| && forall j :: 0 <= j < |s| ==> !Special(s[j])
    ensures Run(s, [], n).Success?
  {
    if n > 0 {
      RunTotal(s, n - 1);
      RunUnfold(s, [], n);
      StepTotal(s, Run(s, [], n - 1).value, n - 1);
    }
  }

  lemma StepTotal(s: string, st: Scan, i: nat)
    requires st.last <= i < |s| && !Special(s[i])
    ensures Step(s, [], st, i).Success?
  {
    if Separator(s, i) {
      assert Help([], st.used).Some?;
      assert Consume(s, [], st, i).Success?;
    }
  }

  /** The scan of a specification without brackets or bars, character by character. */
  lemma {:induction false} RunWords(s: string, descs: seq<string>, n: nat)
    requires n <= |s| && forall j :: 0 <= j < |s| ==> !Special(s[j])
    requires Run(s, descs, n).Success?
    ensures WordsSoFar(s, Run(s, descs, n).value)
  {
    if n > 0 {
      RunWords(s, descs, n - 1);
      RunStepWords(s, descs, n);
    }
  }

  /** One step of `RunWords`: the scan after `n` characters from the scan after `n - 1`. */
  lemma RunStepWords(s: string, descs: seq<string>, n: nat)
    requires 0 < n <= |s| && !Special(s[n - 1]) && Run(s, descs, n - 1).Success?
    requires WordsSoFar(s, Run(s, descs, n - 1).value)
    requires Run(s, descs, n).Success?
    ensures WordsSoFar(s, Run(s, descs, n).value)
  {
    assert PendingOk(s, Run(s, descs, n - 1).value.last, n - 1) by {
      RunOk(s, descs, n - 1);
    }
    RunUnfold(s, descs, n);
    StepWords(s, descs, Run(s, descs, n - 1).value, n - 1);
  }

  /**
   * A specification without brackets or bars splits into plain elements,
   * one per word, in order: the non-empty pieces between its spaces. Without
   * a help list it is never refused.
   */
  lemma SplitWords(cmdspec: string, descs: seq<string>)
    requires forall j :: 0 <= j < |cmdspec| ==> !Special(cmdspec[j])
    ensures descs == [] ==> Split(cmdspec, descs).Success?
    ensures Split(cmdspec, descs).Success? ==>
              var items := Split(cmdspec, descs).value;
              (forall i :: 0 <= i < |items| ==> items[i].Elem?) && Argspecs(items) == Words(Strip(cmdspec))
  {
    var s := Strip(cmdspec);
    forall j | 0 <= j < |s| ensures !Special(s[j]) {
      StripInfix(cmdspec, s[j]);
    }
    if descs == [] {
      RunTotal(s, |s|);
    }
    if Run(s, descs, |s|).Success? {
      RunWords(s, descs, |s|);
      RunOk(s, descs, |s|);
      ConsumeWords(s, descs, Run(s, descs, |s|).value, |s|);
      assert s[..|s|] == s;
    }
  }

  /** `Append`, `Bar` and `Pop` with exactly one group open. */
  lemma OneOpen(top: seq<Item>, f: Frame, last: nat, used: nat, item: Item)
    ensures Append(Scan(top, [f], last, used), item) == Scan(top, [f.(current := f.current + [item])], last, used)
    ensures Bar(Scan(top, [f], last, used)) == Success(Scan(top, [Frame(f.kind, f.done + [Branch(f.current)], [])], last, used))
    ensures Pop(Scan(top, [f], last, used), f.kind) ==
              Success(Scan(top + [Group(f.kind, f.done + [Branch(f.current)])], [], last, used))
  {
    var st := Scan(top, [f], last, used);
    var closed := Frame(f.kind, f.done + [Branch(f.current)], []);
    assert [f][..0] + [closed] == [closed];
    assert Bar(st).value.open == [closed];
    assert [f][..0] + [f.(current := f.current + [item])] == [f.(current := f.current + [item])];
    assert st.(open := [f][..0]) == Scan(top, [], last, used);
  }

  /** A one-character token: neither whitespace nor a bracket or bar. */
  predicate Plain(c: char)
  {
    !IsSpace(c) && !Special(c)
  }

  /** A specification `a(b|c)` whose `a`, `b` and `c` are one-character tokens. */
  predicate Sample(s: string)
  {
    |s| == 6 && s[1] == '(' && s[3] == '|' && s[5] == ')' && Plain(s[0]) && Plain(s[2]) && Plain(s[4])
  }

  /** A one-character token stripped on its own is itself. */
  lemma StripOne(s: string, i: nat)
    requires i < |s| && !IsSpace(s[i])
    ensures StripRange(s, i, i + 1) == [s[i]]
  {
    assert SkipSpace(s, i, i + 1) == i;
    assert TrimEnd(s, i, i + 1) == i + 1;
  }

  /** A character that is no space and no bracket or bar leaves the scan as it is. */
  lemma PlainStep(s: string, st: Scan, i: nat)
    requires st.last <= i < |s| && Plain(s[i])
    ensures Step(s, [], st, i) == Success(st)
  {
    assert !Separator(s, i);
  }

  /** The scan of `a(b|c)` up to `|`: `a` is passed over, then `(` opens a group without consuming it. */
  lemma SampleOpen(s: string)
    requires Sample(s)
    ensures Run(s, [], 3) == Success(Scan([], [Frame(ParenKind, [], [])], 2, 0))
  {
    var st0 := Scan([], [], 0, 0);
    var st2 := Scan([], [Frame(ParenKind, [], [])], 2, 0);
    assert Run(s, [], 0) == Success(st0);
    RunUnfold(s, [], 1);
    PlainStep(s, st0, 0);
    RunUnfold(s, [], 2);
    assert Push(st0, ParenKind) == st2.(last := 0);
    assert Step(s, [], st0, 1) == Success(st2);
    RunUnfold(s, [], 3);
    PlainStep(s, st2, 2);
  }

  /** The `|` of `a(b|c)` consumes `b` and closes the branch holding it. */
  lemma SampleBarStep(s: string)
    requires Sample(s)
    ensures Step(s, [], Scan([], [Frame(ParenKind, [], [])], 2, 0), 3) ==
              Success(Scan([], [Frame(ParenKind, [Branch([Elem(NewElement([s[2]], "", true))])], [])], 4, 1))
  {
    var eb := Elem(NewElement([s[2]], "", true));
    var st2 := Scan([], [Frame(ParenKind, [], [])], 2, 0);
    var st3 := Scan([], [Frame(ParenKind, [], [eb])], 2, 1);
    var st4 := Scan([], [Frame(ParenKind, [Branch([eb])], [])], 4, 1);
    StripOne(s, 2);
    OneOpen([], Frame(ParenKind, [], []), 2, 0, eb);
    OneOpen([], Frame(ParenKind, [], [eb]), 4, 1, eb);
    assert [] + [eb] == [eb] && [] + [Branch([eb])] == [Branch([eb])];
    assert Consume(s, [], st2, 3) == Success(st3);
    assert Bar(st3.(last := 4)) == Success(st4);
    assert !Separator(s, 3);
  }

  /** The scan of `a(b|c)` up to `)`. */
  lemma SampleBar(s: string)
    requires Sample(s)
    ensures Run(s, [], 5) == Success(Scan([], [Frame(ParenKind, [Branch([Elem(NewElement([s[2]], "", true))])], [])], 4, 1))
  {
    var st4 := Scan([], [Frame(ParenKind, [Branch([Elem(NewElement([s[2]], "", true))])], [])], 4, 1);
    SampleOpen(s);
    SampleBarStep(s);
    RunUnfold(s, [], 4);
    assert Run(s, [], 4) == Success(st4);
    RunUnfold(s, [], 5);
    PlainStep(s, st4, 4);
  }

  /** The `)` of `a(b|c)` first consumes `c` into the open branch... */
  lemma SampleConsumeLast(s: string)
    requires Sample(s)
    ensures var eb, ec := Elem(NewElement([s[2]], "", true)), Elem(NewElement([s[4]], "", true));
            Consume(s, [], Scan([], [Frame(ParenKind, [Branch([eb])], [])], 4, 1), 5) ==
              Success(Scan([], [Frame(ParenKind, [Branch([eb])], [ec])], 4, 2))
  {
    var eb, ec := Elem(NewElement([s[2]], "", true)), Elem(NewElement([s[4]], "", true));
    StripOne(s, 4);
    OneOpen([], Frame(ParenKind, [Branch([eb])], []), 4, 1, ec);
    assert [] + [ec] == [ec];
  }

  /** ... then closes the group, which becomes the only item. */
  lemma SampleCloseStep(s: string)
    requires Sample(s)
    ensures var eb, ec := Elem(NewElement([s[2]], "", true)), Elem(NewElement([s[4]], "", true));
            Step(s, [], Scan([], [Frame(ParenKind, [Branch([eb])], [])], 4, 1), 5) ==
              Success(Scan([Paren([Branch([eb]), Branch([ec])])], [], 6, 2))
  {
    var eb, ec := Elem(NewElement([s[2]], "", true)), Elem(NewElement([s[4]], "", true));
    var st5 := Scan([], [Frame(ParenKind, [Branch([eb])], [ec])], 4, 2);
    var st6 := Scan([Paren([Branch([eb]), Branch([ec])])], [], 6, 2);
    SampleConsumeLast(s);
    OneOpen([], Frame(ParenKind, [Branch([eb])], [ec]), 6, 2, ec);
    assert [Branch([eb])] + [Branch([ec])] == [Branch([eb]), Branch([ec])];
    assert [] + [Paren([Branch([eb]), Branch([ec])])] == st6.top;
    assert Pop(st5.(last := 6), ParenKind) == Success(st6);
    assert KindOf(')') == ParenKind;
  }

  /** The whole scan of `a(b|c)`. */
  lemma SampleRun(s: string)
    requires Sample(s)
    ensures Run(s, [], 6) ==
              Success(Scan([Paren([Branch([Elem(NewElement([s[2]], "", true))]), Branch([Elem(NewElement([s[4]], "", true))])])], [], 6, 2))
  {
    SampleBar(s);
    SampleCloseStep(s);
    RunUnfold(s, [], 6);
  }

  /**
   * A token written right before an opening bracket is lost: `a(b|c)`,
   * for any one-character tokens `a`, `b` and `c`, splits into the group
   * alone, and no element spells `a`.
   */
  lemma BracketDropsToken(s: string)
    requires Sample(s)
    ensures Split(s, []) ==
              Success([Paren([Branch([Elem(NewElement([s[2]], "", true))]), Branch([Elem(NewElement([s[4]], "", true))])])])
  {
    var eb, ec := Elem(NewElement([s[2]], "", true)), Elem(NewElement([s[4]], "", true));
    var st6 := Scan([Paren([Branch([eb]), Branch([ec])])], [], 6, 2);
    assert Strip(s) == s by {
      assert forall i :: 0 <= i < |s| ==> !IsSpace(s[i]);
    }
    SampleRun(s);
    assert StripRange(s, 6, 6) == [];
    assert Finish(s, [], st6) == Success(st6.top);
  }
}
