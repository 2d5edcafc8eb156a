/**
 * What `Cli.command`, `Cli.complete` and `Cli.describe` decide from an
 * expansion: which handler runs with which values, which words complete the
 * line, and which help lines (and whether `<cr>`) are shown.
 */
module Decisions {
  import opened Wrappers
  import opened Text
  import opened Converter
  import opened CliNode
  import opened Walking

  /**
   * The positions whose node takes an argument, in increasing order: a
   * reference for the values `command` passes to the handler.
   */
  function ArgPositions(nodes: seq<Node>): (r: seq<nat>)
    ensures |r| <= |nodes|
    ensures forall j :: 0 <= j < |r| ==> r[j] < |nodes| && nodes[r[j]].element.isArgument
    ensures forall i :: 0 <= i < |nodes| && nodes[i].element.isArgument ==> i in r
    ensures forall j, j' :: 0 <= j < j' < |r| ==> r[j] < r[j']
  {
    if nodes == [] then []
    else
      var rest := ArgPositions(nodes[..|nodes| - 1]);
      if nodes[|nodes| - 1].element.isArgument then rest + [|nodes| - 1] else rest
  }

  /**
   * The expanded fragments whose node takes an argument, in order (`zip`
   * stops at the shorter of the two).
   */
  function Arguments(values: seq<Value>, nodes: seq<Node>): seq<Value>
  {
    if nodes == [] || values == [] then []
    else (if nodes[0].element.isArgument then [values[0]] else []) + Arguments(values[1..], nodes[1..])
  }

  lemma {:induction false} ArgumentsSnoc(values: seq<Value>, nodes: seq<Node>)
    requires |values| == |nodes| > 0
    ensures Arguments(values, nodes) ==
            Arguments(values[..|nodes| - 1], nodes[..|nodes| - 1]) +
            (if nodes[|nodes| - 1].element.isArgument then [values[|nodes| - 1]] else [])
    decreases |nodes|
  {
    if |nodes| > 1 {
      var n := |nodes| - 1;
      ArgumentsSnoc(values[1..], nodes[1..]);
      assert values[1..][..n - 1] == values[..n][1..];
      assert nodes[1..][..n - 1] == nodes[..n][1..];
    } else {
      assert values[..0] == [] && nodes[..0] == [];
    }
  }

  /** The handler receives exactly the values at the argument positions, in order. */
  lemma {:induction false} ArgumentsAtPositions(values: seq<Value>, nodes: seq<Node>)
    requires |values| == |nodes|
    ensures |Arguments(values, nodes)| == |ArgPositions(nodes)|
    ensures forall j :: 0 <= j < |ArgPositions(nodes)| ==>
              Arguments(values, nodes)[j] == values[ArgPositions(nodes)[j]]
    decreases |nodes|
  {
    if nodes != [] {
      var n := |nodes| - 1;
      var front := Arguments(values[..n], nodes[..n]);
      var ps := ArgPositions(nodes[..n]);
      ArgumentsAtPositions(values[..n], nodes[..n]);
      ArgumentsSnoc(values, nodes);
      assert forall j :: 0 <= j < |ps| ==> front[j] == values[ps[j]] by {
        forall j | 0 <= j < |ps| ensures front[j] == values[ps[j]] {
          assert front[j] == values[..n][ps[j]];
        }
      }
      if nodes[n].element.isArgument {
        assert Arguments(values, nodes) == front + [values[n]];
        assert ArgPositions(nodes) == ps + [n];
      } else {
        assert Arguments(values, nodes) == front;
        assert ArgPositions(nodes) == ps;
      }
    }
  }

  /** What `command` does with a line. */
  datatype Dispatch =
    | Unrecognized
    | Ambiguous
    | Invoke(handler: Handler, args: seq<Value>)

  /** The only key of a one-entry expansion (`popitem`). */
  function OnlyCandidate(c: Candidates): (k: seq<Value>)
    requires |c| == 1
    ensures k in c && forall k' :: k' in c ==> k' == k
  {
    HasKey(c);
    OnlyKey(c);
    var k :| k in c;
    k
  }

  /**
   * `command`: the decision on the expansion of the line without lookahead.
   */
  function Dispatched(step: Matching, root: Node, command: seq<string>): (d: Dispatch)
    ensures d.Invoke? ==> |d.args| <= |command|
  {
    Choose(Expansion(step, root, command, false))
  }

  /**
   * No expansion is unrecognized, several are ambiguous, and a single one
   * calls the handler of its last node with the argument values, or is
   * unrecognized when that node has none.
   */
  function Choose(cands: Candidates): (d: Dispatch)
    requires forall c :: c in cands ==> |cands[c]| == |c| && c != []
    ensures d.Ambiguous? <==> |cands| > 1
    ensures d.Invoke? ==> |cands| == 1 && exists k :: k in cands && |d.args| <= |k|
  {
    if |cands| == 0 then Unrecognized
    else if |cands| > 1 then Ambiguous
    else
      var k := OnlyCandidate(cands);
      var nodes := cands[k];
      var last := nodes[|nodes| - 1];
      if last.fn.Some? then
        ArgumentsAtPositions(k, nodes);
        Invoke(last.fn.value, Arguments(k, nodes))
      else Unrecognized
  }

  /** An empty line is never a command, even when the root has a handler. */
  lemma DispatchNothing(step: Matching, root: Node)
    ensures Dispatched(step, root, []) == Unrecognized
  {
    ExpansionOfNothing(step, root);
  }

  /** A line whose walk forks is ambiguous; one that dies is unrecognized. */
  lemma DispatchStops(step: Matching, root: Node, command: seq<string>)
    ensures Walk(step, root, command).Fork? ==> Dispatched(step, root, command) == Ambiguous
    ensures Walk(step, root, command).Dead? ==> Dispatched(step, root, command) == Unrecognized
  {
    if Walk(step, root, command).Fork? {
      ExpansionFork(step, root, command, false);
    }
  }

  /**
   * A line whose walk ends on a node runs that node's handler with the
   * values at its argument positions, and is unrecognized when the node
   * has no handler.
   */
  lemma DispatchReached(step: Matching, root: Node, command: seq<string>)
    requires command != [] && Walk(step, root, command).Reached?
    ensures var w := Walk(step, root, command);
            Dispatched(step, root, command) ==
              if w.node.fn.Some? then Invoke(w.node.fn.value, Arguments(w.expanded, w.path)) else Unrecognized
  {
    ExpansionReached(step, root, command);
    var w := Walk(step, root, command);
    var cands := Expansion(step, root, command, false);
    assert w.expanded in cands && |cands| == 1;
    assert OnlyCandidate(cands) == w.expanded;
    assert cands[w.expanded] == w.path;
  }

  /**
   * A line spelling out every keyword of a path runs the handler at the end
   * of that path, and is unrecognized when there is none.
   */
  lemma DispatchKeywords(root: Node, p: seq<string>)
    requires p != [] && At(root, p).Some?
    ensures Dispatched(TreeMatch, root, p).Invoke? <==> FnAt(root, p).Some?
    ensures Dispatched(TreeMatch, root, p).Invoke? ==> Dispatched(TreeMatch, root, p).handler == FnAt(root, p).value
  {
    KeywordWalk(root, p, [], []);
    DispatchReached(TreeMatch, root, p);
  }

  /** A first word that abbreviates two top-level keywords is ambiguous, whatever follows. */
  lemma DispatchShared(root: Node, f: string, k1: string, k2: string, rest: seq<string>)
    requires root.Keyed() && k1 in root.children && k2 in root.children && k1 != k2
    requires StartsWith(k1, f) && StartsWith(k2, f)
    requires f !in root.children && !(root.element.isRecursive && root.Parse(f).Some?)
    ensures Dispatched(TreeMatch, root, [f] + rest) == Ambiguous
  {
    SharedPrefixForks(root, f, k1, k2, rest, [], []);
    DispatchStops(TreeMatch, root, [f] + rest);
  }

  /**
   * `complete`: the sorted keywords, without repeats, that the expansion's
   * candidates have at the word being completed (the one after the last
   * fragment when the word is still blank, otherwise the last fragment),
   * skipping slots whose element carries a converter.
   */
  function Completions(step: Matching, root: Node, command: seq<string>, text: string): (r: seq<string>)
    ensures StrictlySorted(r)
    ensures command == [] ==> r == []
  {
    if command == [] then []
    else
      var extra := Strip(text) == [];
      var i := |command| - (if extra then 0 else 1);
      var cands := Expansion(step, root, command, extra);
      SortedSet(set k | k in cands && |cands[k]| > i && cands[k][i].element.converter.None? :: cands[k][i].Keyword())
  }

  /**
   * After a blank word, completion after a line that walks to a node
   * without a vararg loop offers exactly the keywords of that node's
   * children that take no converted value.
   */
  lemma CompleteNextLevel(root: Node, command: seq<string>, text: string, w: string)
    requires command != [] && Strip(text) == []
    requires Walk(TreeMatch, root, command).Reached?
    requires var n := Walk(TreeMatch, root, command).node;
             n.Keyed() && "" !in n.children && !n.element.isRecursive
    ensures var n := Walk(TreeMatch, root, command).node;
            w in Completions(TreeMatch, root, command, text) <==>
              w in n.children && n.children[w].element.converter.None?
  {
    var wk := Walk(TreeMatch, root, command);
    WalkShape(TreeMatch, root, command, [], []);
    var cands: Candidates := Expansion(TreeMatch, root, command, true);
    assert cands == Lookahead(wk.expanded, wk.path, wk.node, wk.node.Match(""));
    var i := |command|;
    var words := set k: seq<Value> | k in cands && |cands[k]| > i && cands[k][i].element.converter.None? :: cands[k][i].Keyword();
    assert Completions(TreeMatch, root, command, text) == SortedSet(words);
    CompleteFromLookahead(wk.expanded, wk.path, wk.node, i, w);
  }

  /**
   * While a word is still being typed, completion after a line that walks
   * to a node without a vararg loop offers exactly the keywords of that
   * node's children that start with the word and take no converted value.
   */
  lemma CompleteWord(root: Node, pre: seq<string>, f: string, text: string, w: string)
    requires Strip(text) != [] && Walk(TreeMatch, root, pre).Reached?
    requires var n := Walk(TreeMatch, root, pre).node;
             n.Keyed() && f !in n.children && !n.element.isRecursive
    ensures var n := Walk(TreeMatch, root, pre).node;
            w in Completions(TreeMatch, root, pre + [f], text) <==>
              w in n.children && StartsWith(w, f) && n.children[w].element.converter.None?
  {
    var n := Walk(TreeMatch, root, pre).node;
    ExpansionAfterWord(TreeMatch, root, pre, f);
    MatchPlain(n, f);
    var m := n.Scan(f);
    var cands: Candidates := Expansion(TreeMatch, root, pre + [f], false);
    var i := |pre|;
    assert |pre + [f]| - 1 == i;
    var words := set k: seq<Value> | k in cands && |cands[k]| > i && cands[k][i].element.converter.None? :: cands[k][i].Keyword();
    assert Completions(TreeMatch, root, pre + [f], text) == SortedSet(words);
    if w in n.children && StartsWith(w, f) && n.children[w].element.converter.None? {
      ScanKeyword(n, f, w);
      ScanKeywordEntry(n, f, w);
      var k :| k in cands && |cands[k]| == i + 1 && cands[k][i] == m[Str(w)];
      assert w in words;
    }
    if w in words {
      var k: seq<Value> :| k in cands && |cands[k]| > i && cands[k][i].element.converter.None? && cands[k][i].Keyword() == w;
      var v :| v in m && m[v] == cands[k][i];
      ScanPlainChild(n, f, v);
    }
  }

  lemma CompleteFromLookahead(expanded: seq<Value>, path: seq<Node>, n: Node, i: nat, w: string)
    requires |expanded| == |path| == i
    requires n.Keyed() && "" !in n.children && !n.element.isRecursive
    ensures var cands := Lookahead(expanded, path, n, n.Match(""));
            var words := set k: seq<Value> | k in cands && |cands[k]| > i && cands[k][i].element.converter.None? :: cands[k][i].Keyword();
            w in words <==> w in n.children && n.children[w].element.converter.None?
  {
    var cands: Candidates := Lookahead(expanded, path, n, n.Match(""));
    LookaheadChildren(expanded, path, n);
    if w in n.children && n.children[w].element.converter.None? {
      var k := expanded + [Str(w)];
      assert k in cands && cands[k][i] == n.children[w];
    }
    if exists k :: k in cands && |cands[k]| > i && cands[k][i].element.converter.None? && cands[k][i].Keyword() == w {
      var k :| k in cands && |cands[k]| > i && cands[k][i].element.converter.None? && cands[k][i].Keyword() == w;
      LookaheadWord(expanded, path, n, k);
    }
  }

  /** Past the typed words, every look-ahead candidate ends in a child of the node reached. */
  lemma LookaheadWord(expanded: seq<Value>, path: seq<Node>, n: Node, c: seq<Value>)
    requires |expanded| == |path|
    requires n.Keyed() && "" !in n.children && !n.element.isRecursive
    requires var cands := Lookahead(expanded, path, n, n.Match(""));
             c in cands && |cands[c]| > |path|
    ensures var node := Lookahead(expanded, path, n, n.Match(""))[c][|path|];
            node.Keyword() in n.children && n.children[node.Keyword()] == node
  {
    var cands := Lookahead(expanded, path, n, n.Match(""));
    LookaheadChildren(expanded, path, n);
    assert c != expanded;
    var k :| k in n.children && c == expanded + [Str(k)];
    assert cands[c][|path|] == n.children[k];
  }

  /** What `describe` decides to show. */
  datatype Help =
    | HelpUnrecognized                                      // nothing matches
    | HelpAmbiguous                                         // the line so far is ambiguous
    | HelpFault                                             // `nodes[-1]` on an empty tuple raises
    | Listing(entries: map<seq<Value>, string>, cr: bool)   // candidates with their help, and `<cr>`

  /** Whether the candidate `c` is the completed command itself, shown as `<cr>`. */
  predicate IsCr(c: seq<Value>, nodes: seq<Node>, extra: bool, target: seq<Value>)
  {
    nodes != [] && nodes[|nodes| - 1].fn.Some? && extra && c == target
  }

  /** The help lines for the candidates, all but the `<cr>` one, each with its node's help text. */
  function Entries(cands: Candidates, extra: bool, target: seq<Value>): (r: map<seq<Value>, string>)
    requires forall c :: c in cands ==> |cands[c]| == |c|
    ensures forall c :: c in r <==> c in cands && c != [] && !IsCr(c, cands[c], extra, target)
    ensures forall c :: c in r ==> r[c] == cands[c][|c| - 1].element.desc
  {
    map c | c in cands && c != [] && !IsCr(c, cands[c], extra, target) :: cands[c][|c| - 1].element.desc
  }

  /** `describe` looks ahead when the line is empty or ends in a space. */
  predicate Trailing(line: string)
  {
    line == [] || line[|line| - 1] == ' '
  }

  /**
   * `describe`: the candidates of the line, looking ahead when it ends in a
   * space; with lookahead an ambiguous line is reported as such, and the
   * line's own unique expansion is shown as `<cr>` when it has a handler.
   */
  function HelpFor(step: Matching, root: Node, line: string, command: seq<string>): Help
  {
    var extra := Trailing(line);
    Decide(Expansion(step, root, command, extra),
           if extra then Expansion(step, root, command, false) else map[],
           extra, Strs(command))
  }

  /**
   * The decision of `describe` from the candidates `cands`, the exact
   * expansion `exact` (consulted only with lookahead) and the typed line.
   */
  function Decide(cands: Candidates, exact: Candidates, extra: bool, typed: seq<Value>): (h: Help)
    requires forall c :: c in cands ==> |cands[c]| == |c|
    ensures h.HelpUnrecognized? <==> |cands| == 0
    ensures h.HelpAmbiguous? <==> |cands| > 0 && |exact| > 1
    ensures h.HelpFault? <==> |cands| > 0 && |exact| <= 1 && [] in cands
  {
    if |cands| == 0 then HelpUnrecognized
    else if |exact| > 1 then HelpAmbiguous
    else if [] in cands then HelpFault
    else
      var target := if |exact| == 1 then OnlyCandidate(exact) else typed;
      Listing(Entries(cands, extra, target), target in cands && IsCr(target, cands[target], extra, target))
  }

  /**
   * With a single exact expansion `e`, `e` is shown as `<cr>` exactly when
   * it is a candidate whose last node has a handler, and every other
   * candidate is listed.
   */
  lemma DecideExact(cands: Candidates, exact: Candidates, typed: seq<Value>, e: seq<Value>)
    requires forall c :: c in cands ==> |cands[c]| == |c| && c != []
    requires exact.Keys == {e} && |cands| > 0
    ensures Decide(cands, exact, true, typed).Listing?
    ensures Decide(cands, exact, true, typed).cr <==> e in cands && cands[e][|e| - 1].fn.Some?
    ensures forall c :: c in Decide(cands, exact, true, typed).entries <==>
              c in cands && !(c == e && cands[e][|e| - 1].fn.Some?)
  {
    assert |exact| == 1;
    assert OnlyCandidate(exact) == e;
  }

  /**
   * After a space, a line that walks to a node lists every candidate but
   * the line itself, and shows `<cr>` exactly when that node has a handler.
   */
  lemma HelpCr(step: Matching, root: Node, line: string, command: seq<string>)
    requires line != [] && line[|line| - 1] == ' ' && command != []
    requires Walk(step, root, command).Reached?
    ensures var w := Walk(step, root, command);
            var h := HelpFor(step, root, line, command);
            (w.node.fn.Some? ==> h.Listing? && h.cr) &&
            (h.Listing? ==> (h.cr <==> w.node.fn.Some?)) &&
            (h.Listing? ==> forall c :: c in h.entries <==> c in Expansion(step, root, command, true) && c != w.expanded)
  {
    var w := Walk(step, root, command);
    ExpansionReached(step, root, command);
    ExpansionAhead(step, root, command);
    var cands := Expansion(step, root, command, true);
    var exact := Expansion(step, root, command, false);
    assert exact.Keys == {w.expanded};
    assert forall c :: c in cands ==> |c| >= |command|;
    if |cands| > 0 {
      DecideExact(cands, exact, Strs(command), w.expanded);
    }
  }

  /** A line that forks lists every candidate, and no `<cr>`, unless it looks ahead. */
  lemma HelpFork(step: Matching, root: Node, line: string, command: seq<string>)
    requires Walk(step, root, command).Fork?
    ensures Trailing(line) ==> HelpFor(step, root, line, command) == HelpAmbiguous
    ensures !Trailing(line) ==> HelpFor(step, root, line, command).Listing? && !HelpFor(step, root, line, command).cr
    ensures !Trailing(line) ==> HelpFor(step, root, line, command).entries.Keys == Walk(step, root, command).candidates.Keys
  {
    var cands := Walk(step, root, command).candidates;
    ExpansionFork(step, root, command, false);
    if Trailing(line) {
      ExpansionFork(step, root, command, true);
      assert HelpFor(step, root, line, command) == Decide(cands, cands, true, Strs(command));
    } else {
      assert HelpFor(step, root, line, command) == Decide(cands, map[], false, Strs(command));
      assert forall c :: c in cands ==> c != [];
    }
  }

  /**
   * An empty line looks ahead from the root; when the root itself has a
   * handler, the empty candidate sorts first and `nodes[-1]` raises.
   */
  lemma HelpEmptyLine(step: Matching, root: Node)
    ensures root.fn.Some? ==> HelpFor(step, root, [], []) == HelpFault
  {
    assert Walk(step, root, []) == Reached([], [], root);
    ExpansionOfNothing(step, root);
  }

  /** What the interactive loop does with a line read from the editor. */
  datatype LineAction =
    | Blank                  // `emptyline`
    | Ask(prefix: string)    // a trailing `?`: contextual help for what precedes it
    | Run(line: string)      // a command

  /** `s.rstrip('?')`. */
  function TrimQuestion(s: string): (r: string)
    ensures |r| <= |s| && r == s[..|r|]
    ensures r == [] || r[|r| - 1] != '?'
    ensures forall i :: |r| <= i < |s| ==> s[i] == '?'
  {
    if s != [] && s[|s| - 1] == '?' then TrimQuestion(s[..|s| - 1]) else s
  }

  /** The classification at the head of `commandloop`, after stripping the line. */
  function Classify(raw: string): (a: LineAction)
    ensures a.Blank? <==> Strip(raw) == []
    ensures a.Ask? ==> Strip(raw)[|Strip(raw)| - 1] == '?' && a.prefix == TrimQuestion(Strip(raw))
    ensures a.Run? ==> a.line == Strip(raw) && a.line[|a.line| - 1] != '?'
  {
    var line := Strip(raw);
    if line == [] then Blank
    else if line[|line| - 1] == '?' then Ask(TrimQuestion(line))
    else Run(line)
  }
}
