/**
 * `Cli.expand`: walking typed fragments down the command tree. The walk is
 * written over any rule for matching one fragment at one level; the tree's
 * own rule is `CliNode.match`, and the lemmas at the end of this module are
 * about that rule.
 */
module Walking {
  import opened Wrappers
  import opened Text
  import opened Converter
  import opened CliNode

  /** `expand`'s result: expanded command tuples and the nodes they pass through. */
  type Candidates = map<seq<Value>, seq<Node>>

  /** A rule for matching a fragment against the children of one node. */
  type Matching = (Node, string) -> map<Value, Node>

  /** The tree's rule, `CliNode.match`. */
  function TreeMatch(n: Node, fragment: string): map<Value, Node>
  {
    n.Match(fragment)
  }

  lemma OnlyKey<K, V>(m: map<K, V>)
    requires |m| == 1
    ensures forall a, b :: a in m && b in m ==> a == b
  {
    forall a, b | a in m && b in m ensures a == b {
      if a != b {
        TwoKeys(m, a, b);
      }
    }
  }

  lemma HasKey<K, V>(m: map<K, V>)
    requires |m| >= 1
    ensures exists a :: a in m
  {
    assert |m.Keys| >= 1;
    var x :| x in m.Keys;
  }

  lemma TwoOf<K, V>(m: map<K, V>) returns (a: K, b: K)
    requires |m| >= 2
    ensures a in m && b in m && a != b
  {
    HasKey(m);
    a :| a in m;
    var rest := m.Keys - {a};
    assert |rest| == |m.Keys| - 1;
    var x :| x in rest;
    b := x;
  }

  lemma AppendInjective(expanded: seq<Value>)
    ensures forall v, w :: expanded + [v] == expanded + [w] ==> v == w
  {
    forall v, w | expanded + [v] == expanded + [w] ensures v == w {
      assert (expanded + [v])[|expanded|] == v;
    }
  }

  /** Every match of one step, appended to what has been resolved so far. */
  function Extend(expanded: seq<Value>, path: seq<Node>, m: map<Value, Node>): (c: Candidates)
    ensures forall v :: v in m ==> expanded + [v] in c && c[expanded + [v]] == path + [m[v]]
    ensures forall k :: k in c ==> |k| == |expanded| + 1 && k[..|expanded|] == expanded && k[|expanded|] in m
  {
    AppendInjective(expanded);
    map v | v in m :: expanded + [v] := path + [m[v]]
  }

  lemma ExtendShape(expanded: seq<Value>, path: seq<Node>, m: map<Value, Node>)
    requires |expanded| == |path|
    ensures forall k :: k in Extend(expanded, path, m) ==> |Extend(expanded, path, m)[k]| == |k|
  {
    var c := Extend(expanded, path, m);
    forall k | k in c ensures |c[k]| == |k| {
      var v := k[|expanded|];
      assert k == expanded + [v];
    }
  }

  /** Where walking a command down the tree stops. */
  datatype Stop =
    | Dead                                   // a fragment matched nothing
    | Fork(candidates: Candidates)           // a fragment matched more than one child
    | Reached(expanded: seq<Value>, path: seq<Node>, node: Node)

  /**
   * The loop of `expand`: each fragment is matched at the current node; a
   * single match moves down, several end the walk with all of them, none
   * ends it empty-handed.
   */
  function WalkFrom(step: Matching, node: Node, command: seq<string>, expanded: seq<Value>, path: seq<Node>): Stop
    decreases |command|
  {
    if command == [] then Reached(expanded, path, node)
    else
      var m := step(node, command[0]);
      if |m| == 1 then
        HasKey(m);
        OnlyKey(m);
        var v :| v in m;
        WalkFrom(step, m[v], command[1..], expanded + [v], path + [m[v]])
      else if |m| > 1 then Fork(Extend(expanded, path, m))
      else Dead
  }

  function Walk(step: Matching, root: Node, command: seq<string>): Stop
  {
    WalkFrom(step, root, command, [], [])
  }

  /** One step of the walk, whichever match is taken when there is only one. */
  lemma WalkStep(step: Matching, node: Node, command: seq<string>, expanded: seq<Value>, path: seq<Node>, v: Value)
    requires command != [] && v in step(node, command[0]) && |step(node, command[0])| == 1
    ensures var m := step(node, command[0]);
            WalkFrom(step, node, command, expanded, path) ==
              WalkFrom(step, m[v], command[1..], expanded + [v], path + [m[v]])
  {
    OnlyKey(step(node, command[0]));
  }

  /**
   * The walk keeps expansions and nodes in step, ends on the node it last
   * moved to, and a fork offers at least two candidates, each one fragment
   * longer than what was resolved before it.
   */
  lemma {:induction false} WalkShape(step: Matching, node: Node, command: seq<string>, expanded: seq<Value>, path: seq<Node>)
    requires |expanded| == |path| && (path != [] ==> path[|path| - 1] == node)
    ensures var w := WalkFrom(step, node, command, expanded, path);
            (w.Reached? ==> |w.expanded| == |w.path| == |expanded| + |command| &&
                            (w.path != [] ==> w.path[|w.path| - 1] == w.node)) &&
            (w.Fork? ==> |w.candidates| >= 2 &&
                         forall k :: k in w.candidates ==>
                           |w.candidates[k]| == |k| && |expanded| < |k| <= |expanded| + |command|)
    decreases |command|
  {
    if command != [] {
      var m := step(node, command[0]);
      if |m| == 1 {
        HasKey(m);
        var v :| v in m;
        WalkStep(step, node, command, expanded, path, v);
        WalkShape(step, m[v], command[1..], expanded + [v], path + [m[v]]);
      } else if |m| > 1 {
        ExtendForks(expanded, path, m);
      }
    }
  }

  /** Several matches give as many candidates, each one fragment longer. */
  lemma ExtendForks(expanded: seq<Value>, path: seq<Node>, m: map<Value, Node>)
    requires |expanded| == |path| && |m| >= 2
    ensures var c := Extend(expanded, path, m);
            |c| >= 2 && forall k :: k in c ==> |c[k]| == |k| == |expanded| + 1
  {
    var c := Extend(expanded, path, m);
    ExtendShape(expanded, path, m);
    var a, b := TwoOf(m);
    assert (expanded + [a])[|expanded|] == a && (expanded + [b])[|expanded|] == b;
    TwoKeys(c, expanded + [a], expanded + [b]);
  }

  /** A fragment with several matches ends the walk in a fork over all of them. */
  lemma ForkStep(step: Matching, node: Node, command: seq<string>, expanded: seq<Value>, path: seq<Node>)
    requires command != [] && |step(node, command[0])| > 1
    ensures WalkFrom(step, node, command, expanded, path) == Fork(Extend(expanded, path, step(node, command[0])))
  {
  }

  /**
   * The lookahead of `expand`: every match `next` of the empty fragment at
   * the final node, plus the command itself when that node has a handler.
   */
  function Lookahead(expanded: seq<Value>, path: seq<Node>, node: Node, next: map<Value, Node>): (r: Candidates)
    requires |expanded| == |path|
    ensures forall k :: k in r ==> |r[k]| == |k| && |expanded| <= |k| <= |expanded| + 1
    ensures expanded in r <==> node.fn.Some?
    ensures expanded in r ==> r[expanded] == path
  {
    ExtendShape(expanded, path, next);
    var c := Extend(expanded, path, next);
    if node.fn.Some? then c[expanded := path] else c
  }

  /** Without lookahead: the resolved command, unless nothing was typed. */
  function Exact(expanded: seq<Value>, path: seq<Node>): (r: Candidates)
    requires |expanded| == |path|
    ensures forall k :: k in r ==> |r[k]| == |k| && k == expanded
    ensures expanded != [] <==> expanded in r
  {
    if expanded != [] then map[expanded := path] else map[]
  }

  /**
   * `expand(command, extra)`: a fork is returned as it is; otherwise the end
   * of the walk is looked ahead from or taken as it is.
   */
  function Expansion(step: Matching, root: Node, command: seq<string>, extra: bool): (r: Candidates)
    ensures forall k :: k in r ==> |r[k]| == |k| && |k| <= |command| + (if extra then 1 else 0)
    ensures !extra ==> forall k :: k in r ==> k != []
  {
    WalkShape(step, root, command, [], []);
    match Walk(step, root, command)
    case Dead => map[]
    case Fork(c) => c
    case Reached(expanded, path, node) =>
      if extra then Lookahead(expanded, path, node, step(node, "")) else Exact(expanded, path)
  }

  /** Without lookahead an empty command expands to nothing. */
  lemma ExpansionOfNothing(step: Matching, root: Node)
    ensures Expansion(step, root, [], false) == map[]
  {
    assert Walk(step, root, []) == Reached([], [], root);
  }

  /** A walk that completes without lookahead expands to exactly itself. */
  lemma ExpansionReached(step: Matching, root: Node, command: seq<string>)
    requires command != [] && Walk(step, root, command).Reached?
    ensures var w := Walk(step, root, command);
            Expansion(step, root, command, false) == map[w.expanded := w.path] &&
            w.path[|w.path| - 1] == w.node
  {
    WalkShape(step, root, command, [], []);
  }

  /** A walk that completes looks ahead from the node it ended on. */
  lemma ExpansionAhead(step: Matching, root: Node, command: seq<string>)
    requires command != [] && Walk(step, root, command).Reached?
    ensures var w := Walk(step, root, command);
            |w.expanded| == |w.path| == |command| && w.path[|w.path| - 1] == w.node &&
            Expansion(step, root, command, true) == Lookahead(w.expanded, w.path, w.node, step(w.node, ""))
  {
    WalkShape(step, root, command, [], []);
  }

  /** A fork is what `expand` returns, with or without lookahead. */
  lemma ExpansionFork(step: Matching, root: Node, command: seq<string>, extra: bool)
    requires Walk(step, root, command).Fork?
    ensures Expansion(step, root, command, extra) == Walk(step, root, command).candidates
    ensures |Expansion(step, root, command, extra)| >= 2
  {
    WalkShape(step, root, command, [], []);
  }

  /** A walk that gets through `pre` goes on from where it ended when more words follow. */
  lemma {:induction false} WalkAppend(step: Matching, node: Node, pre: seq<string>, rest: seq<string>,
                                      expanded: seq<Value>, path: seq<Node>)
    requires WalkFrom(step, node, pre, expanded, path).Reached?
    ensures var w := WalkFrom(step, node, pre, expanded, path);
            WalkFrom(step, node, pre + rest, expanded, path) == WalkFrom(step, w.node, rest, w.expanded, w.path)
    decreases |pre|
  {
    if pre == [] {
      assert pre + rest == rest;
    } else {
      var m := step(node, pre[0]);
      assert (pre + rest)[0] == pre[0] && (pre + rest)[1..] == pre[1..] + rest;
      HasKey(m);
      var v :| v in m;
      WalkStep(step, node, pre, expanded, path, v);
      WalkStep(step, node, pre + rest, expanded, path, v);
      WalkAppend(step, m[v], pre[1..], rest, expanded + [v], path + [m[v]]);
    }
  }

  /**
   * After a line that walks to a node, one more word gives, without
   * lookahead, one candidate per match of that word at the node: each
   * candidate ends in a match, and every match ends some candidate.
   */
  lemma ExpansionAfterWord(step: Matching, root: Node, pre: seq<string>, f: string)
    requires Walk(step, root, pre).Reached?
    ensures var m := step(Walk(step, root, pre).node, f);
            var cands := Expansion(step, root, pre + [f], false);
            (forall k :: k in cands ==> |cands[k]| == |pre| + 1 && cands[k][|pre|] in m.Values) &&
            (forall v :: v in m ==> exists k :: k in cands && |cands[k]| == |pre| + 1 && cands[k][|pre|] == m[v])
  {
    var wk := Walk(step, root, pre);
    WalkShape(step, root, pre, [], []);
    WalkAppend(step, root, pre, [f], [], []);
    var m := step(wk.node, f);
    var cands := Expansion(step, root, pre + [f], false);
    if |m| == 1 {
      HasKey(m);
      var v :| v in m;
      OnlyKey(m);
      WalkStep(step, wk.node, [f], wk.expanded, wk.path, v);
      assert [f][1..] == [];
      assert cands == map[wk.expanded + [v] := wk.path + [m[v]]];
    } else if |m| > 1 {
      ForkStep(step, wk.node, [f], wk.expanded, wk.path);
      var e := wk.expanded;
      assert cands == Extend(e, wk.path, m);
      forall k | k in cands ensures |cands[k]| == |pre| + 1 && cands[k][|pre|] in m.Values {
        assert k == e + [k[|e|]];
      }
    } else {
      assert cands == map[];
    }
  }

  function Strs(p: seq<string>): (r: seq<Value>)
    ensures |r| == |p| && forall i :: 0 <= i < |p| ==> r[i] == Str(p[i])
  {
    seq(|p|, i requires 0 <= i < |p| => Str(p[i]))
  }

  /**
   * Typing every keyword of an existing path in full walks exactly that
   * path: at each level the fragment is a child's own key, which wins alone.
   */
  lemma {:induction false} KeywordWalk(n: Node, p: seq<string>, expanded: seq<Value>, path: seq<Node>)
    requires At(n, p).Some?
    ensures WalkFrom(TreeMatch, n, p, expanded, path).Reached?
    ensures WalkFrom(TreeMatch, n, p, expanded, path).expanded == expanded + Strs(p)
    ensures WalkFrom(TreeMatch, n, p, expanded, path).node == At(n, p).value
    decreases |p|
  {
    if p == [] {
      assert expanded + Strs(p) == expanded;
    } else {
      var m := TreeMatch(n, p[0]);
      var child := n.children[p[0]];
      assert m == map[Str(p[0]) := child];
      assert m.Keys == {Str(p[0])};
      KeywordWalk(child, p[1..], expanded + [Str(p[0])], path + [child]);
      assert expanded + [Str(p[0])] + Strs(p[1..]) == expanded + Strs(p);
    }
  }

  /**
   * An abbreviation that only one child of the current node accepts moves
   * down to that child, expanded to its full keyword.
   */
  lemma AbbreviatedStep(n: Node, f: string, k: string, rest: seq<string>, expanded: seq<Value>, path: seq<Node>)
    requires n.Keyed() && k in n.children && StartsWith(k, f)
    requires f !in n.children && !(n.element.isRecursive && n.Parse(f).Some?)
    requires forall k' :: k' in n.children && n.children[k'].Parse(f).Some? ==> k' == k
    ensures WalkFrom(TreeMatch, n, [f] + rest, expanded, path) ==
            WalkFrom(TreeMatch, n.children[k], rest, expanded + [Str(k)], path + [n.children[k]])
  {
    MatchUniquePrefix(n, f, k);
    UniqueStep(TreeMatch, n, f, rest, expanded, path, Str(k), n.children[k]);
  }

  /** A fragment with exactly one match moves the walk down to it. */
  lemma UniqueStep(step: Matching, n: Node, f: string, rest: seq<string>, expanded: seq<Value>, path: seq<Node>, v: Value, c: Node)
    requires step(n, f) == map[v := c]
    ensures WalkFrom(step, n, [f] + rest, expanded, path) == WalkFrom(step, c, rest, expanded + [v], path + [c])
  {
    assert ([f] + rest)[0] == f && ([f] + rest)[1..] == rest;
    assert step(n, f).Keys == {v};
    WalkStep(step, n, [f] + rest, expanded, path, v);
  }

  /** A fragment that abbreviates two children's keywords forks the walk there. */
  lemma SharedPrefixForks(n: Node, f: string, k1: string, k2: string, rest: seq<string>, expanded: seq<Value>, path: seq<Node>)
    requires n.Keyed() && k1 in n.children && k2 in n.children && k1 != k2
    requires StartsWith(k1, f) && StartsWith(k2, f)
    requires f !in n.children && !(n.element.isRecursive && n.Parse(f).Some?)
    ensures WalkFrom(TreeMatch, n, [f] + rest, expanded, path).Fork?
    ensures expanded + [Str(k1)] in WalkFrom(TreeMatch, n, [f] + rest, expanded, path).candidates
    ensures expanded + [Str(k2)] in WalkFrom(TreeMatch, n, [f] + rest, expanded, path).candidates
  {
    MatchSharedPrefix(n, f, k1, k2);
    assert ([f] + rest)[0] == f;
    ForkStep(TreeMatch, n, [f] + rest, expanded, path);
  }

  /**
   * Lookahead at a node without a vararg loop offers one candidate per
   * child, under the child's keyword, plus the command itself exactly when
   * the node has a handler, and nothing else.
   */
  lemma LookaheadChildren(expanded: seq<Value>, path: seq<Node>, n: Node)
    requires |expanded| == |path|
    requires n.Keyed() && "" !in n.children && !n.element.isRecursive
    ensures var r := Lookahead(expanded, path, n, n.Match(""));
            (forall k :: k in n.children ==>
               expanded + [Str(k)] in r && r[expanded + [Str(k)]] == path + [n.children[k]]) &&
            (forall c :: c in r && c != expanded ==>
               exists k :: k in n.children && c == expanded + [Str(k)])
  {
    MatchEmpty(n);
    LookaheadByKeyword(expanded, path, n, n.Match(""));
  }

  lemma LookaheadByKeyword(expanded: seq<Value>, path: seq<Node>, n: Node, next: map<Value, Node>)
    requires |expanded| == |path|
    requires forall k :: k in n.children ==> Str(k) in next && next[Str(k)] == n.children[k]
    requires forall v :: v in next ==> v.Str? && v.s in n.children
    ensures var r := Lookahead(expanded, path, n, next);
            (forall k :: k in n.children ==>
               expanded + [Str(k)] in r && r[expanded + [Str(k)]] == path + [n.children[k]]) &&
            (forall c :: c in r && c != expanded ==>
               exists k :: k in n.children && c == expanded + [Str(k)])
  {
    ExtendByKeyword(expanded, path, n, next);
    forall k | k in n.children ensures |expanded + [Str(k)]| != |expanded| {
    }
  }

  lemma ExtendByKeyword(expanded: seq<Value>, path: seq<Node>, n: Node, m: map<Value, Node>)
    requires forall k :: k in n.children ==> Str(k) in m && m[Str(k)] == n.children[k]
    requires forall v :: v in m ==> v.Str? && v.s in n.children
    ensures var c := Extend(expanded, path, m);
            (forall k :: k in n.children ==>
               expanded + [Str(k)] in c && c[expanded + [Str(k)]] == path + [n.children[k]]) &&
            (forall c' :: c' in c ==> exists k :: k in n.children && c' == expanded + [Str(k)])
  {
    var c := Extend(expanded, path, m);
    forall c' | c' in c ensures exists k :: k in n.children && c' == expanded + [Str(k)] {
      var v := c'[|expanded|];
      assert c' == expanded + [v];
      assert c' == expanded + [Str(v.s)];
    }
  }

  /** Lookahead at a vararg node offers the node itself again. */
  lemma LookaheadVararg(expanded: seq<Value>, path: seq<Node>, n: Node)
    requires |expanded| == |path|
    requires "" !in n.children && n.element.isRecursive
    ensures var r := Lookahead(expanded, path, n, n.Match(""));
            expanded + [Str(n.Keyword())] in r && r[expanded + [Str(n.Keyword())]] == path + [n]
  {
    MatchEmptyVararg(n);
    LookaheadHas(expanded, path, n, n.Match(""), Str(n.Keyword()));
  }

  /** Every match of the empty word is a lookahead candidate, one word longer. */
  lemma LookaheadHas(expanded: seq<Value>, path: seq<Node>, n: Node, next: map<Value, Node>, v: Value)
    requires |expanded| == |path| && v in next
    ensures var r := Lookahead(expanded, path, n, next);
            expanded + [v] in r && r[expanded + [v]] == path + [next[v]]
  {
    assert |expanded + [v]| != |expanded|;
  }
}
