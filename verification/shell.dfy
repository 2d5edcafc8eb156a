/**
 * The command-line front end (`Cli`): registering commands into the tree,
 * loading whole sets of registrations, and the walk, dispatch, completion
 * and help that run against the tree it holds.
 */
module Shell {
  import opened Wrappers
  import opened Text
  import opened Converter
  import opened CliNode
  import opened Grammar
  import opened TreeBuild
  import opened Walking
  import opened Decisions

  /** One `register` call's arguments. */
  datatype Registration = Registration(fn: Handler, cmdspec: string, descs: seq<string>)

  /** A tree `Cli` can hold: rooted at `_root`, every child under its keyword. */
  predicate Rooted(root: Node)
  {
    root.WellKeyed() && root.Keyword() == "_root"
  }

  /**
   * `register` as a function of the tree: compile the grammar, build it into
   * a fresh root, merge the current tree into that. A grammar error leaves
   * no tree.
   */
  function Registered(root: Node, reg: Registration): (r: Result<Node, SplitError>)
    requires Rooted(root)
    ensures r.Success? <==> Split(reg.cmdspec, reg.descs).Success?
    ensures r.Failure? ==> r.error == Split(reg.cmdspec, reg.descs).error
    ensures r.Success? ==> Rooted(r.value)
  {
    var split := Split(reg.cmdspec, reg.descs);
    if split.Failure? then Failure(split.error)
    else
      var tree := Built(MakeRoot(), split.value, reg.fn);
      BuiltWellKeyed(MakeRoot(), split.value, reg.fn);
      MergedWellKeyed(tree, root);
      Success(Merged(tree, root))
  }

  /**
   * After a registration every path keeps the handler it had; a path
   * without one gets the new handler exactly when the grammar spells it
   * out. No path of the old tree is lost.
   */
  lemma RegisteredHandlers(root: Node, reg: Registration, p: seq<string>)
    requires Rooted(root) && Registered(root, reg).Success?
    ensures var items := Split(reg.cmdspec, reg.descs).value;
            FnAt(Registered(root, reg).value, p) ==
              if FnAt(root, p).Some? then FnAt(root, p)
              else if p in Paths(items) then Some(reg.fn)
              else None
    ensures At(root, p).Some? ==> At(Registered(root, reg).value, p).Some?
  {
    var items := Split(reg.cmdspec, reg.descs).value;
    var tree := Built(MakeRoot(), items, reg.fn);
    BuiltWellKeyed(MakeRoot(), items, reg.fn);
    BuiltHandlers(MakeRoot(), items, reg.fn, p);
    assert FnAt(MakeRoot(), p) == None by {
      if p != [] {
        assert At(MakeRoot(), p) == None;
      }
    }
    MergedPaths(tree, root, p);
  }

  /**
   * Registering a command and then typing one of its spellings in full runs
   * it, unless that path already had a handler.
   */
  lemma RegisteredRuns(root: Node, reg: Registration, p: seq<string>)
    requires Rooted(root) && Split(reg.cmdspec, reg.descs).Success?
    requires p != [] && p in Paths(Split(reg.cmdspec, reg.descs).value) && FnAt(root, p) == None
    ensures var r := Registered(root, reg);
            r.Success? && Dispatched(TreeMatch, r.value, p).Invoke? && Dispatched(TreeMatch, r.value, p).handler == reg.fn
  {
    var r := Registered(root, reg).value;
    RegisteredHandlers(root, reg, p);
    assert At(r, p).Some?;
    DispatchKeywords(r, p);
  }

  /**
   * `load` as a function of the tree: the registrations in order, stopping
   * at the first that fails.
   */
  function Loaded(root: Node, regs: seq<Registration>): (r: Result<Node, SplitError>)
    requires Rooted(root)
    ensures r.Success? ==> Rooted(r.value)
    ensures r.Success? <==> forall j :: 0 <= j < |regs| ==> Split(regs[j].cmdspec, regs[j].descs).Success?
    decreases |regs|
  {
    if regs == [] then Success(root)
    else match Registered(root, regs[0])
      case Failure(e) => Failure(e)
      case Success(next) => Loaded(next, regs[1..])
  }

  /** Loading never takes away a handler the tree already had. */
  lemma {:induction false} LoadedKeeps(root: Node, regs: seq<Registration>, p: seq<string>)
    requires Rooted(root) && Loaded(root, regs).Success? && FnAt(root, p).Some?
    ensures FnAt(Loaded(root, regs).value, p) == FnAt(root, p)
    decreases |regs|
  {
    if regs != [] {
      var next := Registered(root, regs[0]).value;
      RegisteredHandlers(root, regs[0], p);
      LoadedKeeps(next, regs[1..], p);
    }
  }

  /**
   * The interactive shell. Its tree is a value: every change swaps in a
   * whole new root.
   */
  class Cli {
    var root: Node
    var prompt: string

    predicate Valid()
      reads this
    {
      Rooted(root)
    }

    /** `Cli(prompt)`: an empty tree. */
    constructor(prompt: string)
      ensures Valid() && root == MakeRoot() && this.prompt == prompt
    {
      root := MakeRoot();
      this.prompt := prompt;
    }

    /**
     * `register`: the grammar is compiled, built into a fresh root and the
     * current tree merged into it; only then is the root replaced.
     */
    method Register(fn: Handler, cmdspec: string, descs: seq<string>) returns (o: Outcome<SplitError>)
      requires Valid()
      modifies this
      ensures Valid() && prompt == old(prompt)
      ensures var r := Registered(old(root), Registration(fn, cmdspec, descs));
              (o.Pass? <==> r.Success?) &&
              (o.Pass? ==> root == r.value) &&
              (o.Fail? ==> o.error == r.error && root == old(root))
    {
      var tree := MakeRoot();
      var elements := CmdSplit(cmdspec, descs);
      if elements.Failure? {
        return Fail(elements.error);
      }
      tree := Build(tree, elements.value, fn);
      BuiltWellKeyed(MakeRoot(), elements.value, fn);
      MergedWellKeyed(tree, root);
      tree := Merge(tree, root);
      root := tree;
      o := Pass;
    }

    /**
     * `load`: the registrations in order; when one fails the tree is put
     * back as it was before the first.
     */
    method Load(regs: seq<Registration>) returns (o: Outcome<SplitError>)
      requires Valid()
      modifies this
      ensures Valid() && prompt == old(prompt)
      ensures var r := Loaded(old(root), regs);
              (o.Pass? <==> r.Success?) &&
              (o.Pass? ==> root == r.value) &&
              (o.Fail? ==> o.error == r.error && root == old(root))
    {
      var oldRoot := root;
      for j := 0 to |regs|
        invariant Valid() && prompt == old(prompt)
        invariant Loaded(old(root), regs) == Loaded(root, regs[j..])
      {
        assert regs[j..][1..] == regs[j + 1..];
        var reg := regs[j];
        o := Register(reg.fn, reg.cmdspec, reg.descs);
        if o.Fail? {
          root := oldRoot;
          return;
        }
      }
      assert regs[|regs|..] == [];
      o := Pass;
    }

    /** `expand` against the tree's own matching rule. */
    method Expand(command: seq<string>, extra: bool) returns (r: Candidates)
      ensures r == Expansion(TreeMatch, root, command, extra)
    {
      r := ExpandBy(TreeMatch, root, command, extra);
    }

    /** `command`, without the call: which handler runs, with which values. */
    method Command(command: seq<string>) returns (d: Dispatch)
      ensures d == Dispatched(TreeMatch, root, command)
    {
      var cands := Expand(command, false);
      if |cands| == 0 {
        return Unrecognized;
      } else if |cands| > 1 {
        return Ambiguous;
      }
      var k := OnlyCandidate(cands);
      var nodes := cands[k];
      var node := nodes[|nodes| - 1];
      if node.fn.Some? {
        var args := CollectArguments(k, nodes);
        d := Invoke(node.fn.value, args);
      } else {
        d := Unrecognized;
      }
    }

    /** `complete` on an already tokenised line. */
    function Complete(command: seq<string>, text: string): (r: seq<string>)
      reads this
      ensures StrictlySorted(r) && (command == [] ==> r == [])
    {
      Completions(TreeMatch, root, command, text)
    }

    /** `describe` without the printing. */
    method Describe(line: string, command: seq<string>) returns (h: Help)
      ensures h == HelpFor(TreeMatch, root, line, command)
    {
      var extra := Trailing(line);
      var cands := Expand(command, extra);
      var exact: Candidates := map[];
      if extra {
        exact := Expand(command, false);
      }
      assert HelpFor(TreeMatch, root, line, command) == Decide(cands, exact, extra, Strs(command));
      if |cands| == 0 {
        return HelpUnrecognized;
      }
      var target := Strs(command);
      if |exact| > 1 {
        return HelpAmbiguous;
      } else if |exact| == 1 {
        target := OnlyCandidate(exact);
      }
      h := ListHelp(cands, extra, target);
    }
  }

  /** The loop of `command` that gathers the values matched by argument nodes. */
  method CollectArguments(values: seq<Value>, nodes: seq<Node>) returns (args: seq<Value>)
    requires |values| == |nodes|
    ensures args == Arguments(values, nodes)
  {
    args := [];
    for i := 0 to |nodes|
      invariant args == Arguments(values[..i], nodes[..i])
    {
      ArgumentsSnoc(values[..i + 1], nodes[..i + 1]);
      assert values[..i + 1][..i] == values[..i] && nodes[..i + 1][..i] == nodes[..i];
      if nodes[i].element.isArgument {
        args := args + [values[i]];
      }
    }
    assert values[..|nodes|] == values && nodes[..|nodes|] == nodes;
  }

  /**
   * The loop of `expand`: one fragment at a time, moving down on a single
   * match, stopping with every match on several and with nothing on none.
   */
  method WalkBy(step: Matching, root: Node, command: seq<string>) returns (w: Stop)
    ensures w == Walk(step, root, command)
  {
    var expanded: seq<Value> := [];
    var node := root;
    var path: seq<Node> := [];
    for i := 0 to |command|
      invariant WalkFrom(step, node, command[i..], expanded, path) == Walk(step, root, command)
    {
      assert command[i..][0] == command[i] && command[i..][1..] == command[i + 1..];
      var nodes := step(node, command[i]);
      if |nodes| == 1 {
        HasKey(nodes);
        var v :| v in nodes;
        WalkStep(step, node, command[i..], expanded, path, v);
        node := nodes[v];
        path := path + [node];
        expanded := expanded + [v];
      } else if |nodes| > 1 {
        return Fork(Extend(expanded, path, nodes));
      } else {
        return Dead;
      }
    }
    assert command[|command|..] == [];
    return Reached(expanded, path, node);
  }

  /** `expand`: after the walk, the lookahead or the resolved command. */
  method ExpandBy(step: Matching, root: Node, command: seq<string>, extra: bool) returns (r: Candidates)
    ensures r == Expansion(step, root, command, extra)
  {
    var w := WalkBy(step, root, command);
    WalkShape(step, root, command, [], []);
    match w
    case Dead => r := map[];
    case Fork(c) => r := c;
    case Reached(expanded, path, node) =>
      if extra {
        r := Lookahead(expanded, path, node, step(node, ""));
      } else {
        r := Exact(expanded, path);
      }
  }

  /**
   * The loop of `describe` over the candidates: each one is listed with its
   * help text, except the completed command, which sets `<cr>`; an empty
   * candidate has no last node and raises.
   */
  method ListHelp(cands: Candidates, extra: bool, target: seq<Value>) returns (h: Help)
    requires forall c :: c in cands ==> |cands[c]| == |c|
    ensures [] in cands ==> h == HelpFault
    ensures [] !in cands ==> h == Listing(Entries(cands, extra, target), target in cands && IsCr(target, cands[target], extra, target))
  {
    var entries: map<seq<Value>, string> := map[];
    var cr := false;
    var todo := cands.Keys;
    ghost var done: set<seq<Value>> := {};
    while todo != {}
      invariant todo !! done && todo + done == cands.Keys
      invariant forall c :: c in done ==> c != []
      invariant forall c :: c in entries <==> c in done && !IsCr(c, cands[c], extra, target)
      invariant forall c :: c in entries ==> entries[c] == cands[c][|c| - 1].element.desc
      invariant cr <==> target in done && IsCr(target, cands[target], extra, target)
      decreases todo
    {
      var c :| c in todo;
      var nodes := cands[c];
      if nodes == [] {
        return HelpFault;
      }
      var node := nodes[|nodes| - 1];
      if node.fn.Some? && extra && c == target {
        cr := true;
      } else {
        entries := entries[c := node.element.desc];
      }
      todo := todo - {c};
      done := done + {c};
    }
    EntriesOf(cands, extra, target, entries);
    h := Listing(entries, cr);
  }

  lemma EntriesOf(cands: Candidates, extra: bool, target: seq<Value>, entries: map<seq<Value>, string>)
    requires forall c :: c in cands ==> |cands[c]| == |c| && c != []
    requires forall c :: c in entries <==> c in cands && !IsCr(c, cands[c], extra, target)
    requires forall c :: c in entries ==> entries[c] == cands[c][|c| - 1].element.desc
    ensures entries == Entries(cands, extra, target)
  {
  }
}
