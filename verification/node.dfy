/**
 * The command tree: compiled grammar elements, the prefix-tree nodes that
 * hold them, and the per-level operations `parse`, `match` and `merge`.
 *
 * A node owns a map from child keyword to child node. The tree is a value:
 * the operations that update a tree in place in the source return the updated
 * tree here (only freshly built nodes are ever updated, see `Merge`).
 */
module CliNode {
  import opened Wrappers
  import opened Text
  import opened Converter

  /** A command handler; the model only needs to tell handlers apart. */
  type Handler = nat

  /** The first index at or after `k` that holds no `.`, or `|s|`. */
  function SkipDots(s: string, k: nat): (r: nat)
    requires k <= |s|
    ensures k <= r <= |s| && (r == |s| || s[r] != '.')
    ensures forall i :: k <= i < r ==> s[i] == '.'
    decreases |s| - k
  {
    if k < |s| && s[k] == '.' then SkipDots(s, k + 1) else k
  }

  /** `argspec.lstrip('.')`: all leading `.` removed. */
  function StripDots(s: string): (r: string)
    ensures |r| <= |s| && forall i :: 0 <= i < |s| - |r| ==> s[i] == '.'
    ensures r == [] || r[0] != '.'
  {
    s[SkipDots(s, 0)..]
  }

  /**
   * One compiled grammar token (`CliElement`): the argspec as written, the
   * keyword derived from it, its help text, its converter, and the two flags.
   * Elements are made by `NewElement`, which derives the attributes the way
   * the source's constructor does.
   */
  datatype Element = Element(argspec: string, keyword: string, desc: string,
                             converter: Option<Converter>, isArgument: bool, isRecursive: bool)

  /**
   * `CliElement(argspec, desc, is_argument)`: the keyword is the argspec
   * without its leading dots, the converter is the registry's for that
   * keyword, the element is passed to handlers when flagged or typed, and it
   * is a vararg exactly when the argspec starts with a dot.
   */
  function NewElement(argspec: string, desc: string, isArgument: bool): (e: Element)
    ensures e.argspec == argspec && e.desc == desc
    ensures e.keyword == StripDots(argspec)
    ensures e.isRecursive <==> |e.keyword| < |argspec|
    ensures e.converter == CreateConverter(e.keyword)
    ensures e.isArgument <==> isArgument || e.converter.Some?
  {
    var keyword := StripDots(argspec);
    var converter := CreateConverter(keyword);
    Element(argspec, keyword, desc, converter, isArgument || converter.Some?,
            argspec != [] && argspec[0] == '.')
  }

  /**
   * A node of the prefix tree (`CliNode`): its element, the handler attached
   * when a command ends here, and the children by keyword.
   */
  datatype Node = Node(element: Element, fn: Option<Handler>, children: map<string, Node>)
  {
    function Keyword(): string
    {
      element.keyword
    }

    /** Every child is stored under its own keyword. */
    predicate Keyed()
    {
      forall k :: k in children ==> children[k].Keyword() == k
    }

    /**
     * Every child is stored under its own keyword, all the way down. Building
     * keeps this, and it is what makes `merge`'s keyword assertion hold.
     */
    predicate WellKeyed()
    {
      Keyed() && forall k :: k in children ==> children[k].WellKeyed()
    }

    /**
     * `parse`: the full keyword when it starts with the fragment, otherwise
     * the converted value when the converter accepts the fragment.
     */
    function Parse(fragment: string): Option<Value>
    {
      if StartsWith(Keyword(), fragment) then Some(Str(Keyword()))
      else match element.converter
        case None => None
        case Some(c) =>
          var m := Apply(c, fragment);
          if m.matched then m.value else None
    }

    /**
     * A dict comprehension keyed by `parse` over the children listed in
     * `keys`, in that order: children that do not parse the fragment are
     * dropped, and a later child parsing to the same value replaces an earlier one.
     */
    function ScanOver(keys: seq<string>, fragment: string): (r: map<Value, Node>)
      requires forall k :: k in keys ==> k in children
      ensures forall k :: k in keys && children[k].Parse(fragment).Some?
                ==> children[k].Parse(fragment).value in r
      ensures forall v :: v in r ==> r[v] in children.Values && r[v].Parse(fragment) == Some(v)
      ensures |r| <= |keys|
    {
      if keys == [] then map[]
      else
        var front, last := keys[..|keys| - 1], keys[|keys| - 1];
        assert forall k :: k in keys ==> k in front || k == last;
        var r := ScanOver(front, fragment);
        var child := children[last];
        assert child in children.Values;
        match child.Parse(fragment)
        case None => r
        case Some(v) => r[v := child]
    }

    /**
     * The last step of `match`. Python leaves the order of the children
     * unspecified; the model visits them in keyword order.
     */
    function Scan(fragment: string): (r: map<Value, Node>)
      ensures forall k :: k in children && children[k].Parse(fragment).Some?
                ==> children[k].Parse(fragment).value in r
      ensures forall v :: v in r ==> r[v] in children.Values && r[v].Parse(fragment) == Some(v)
      ensures |r| <= |children|
    {
      var keys := SortedSet(children.Keys);
      assert |children| == |children.Keys|;
      ScanOver(keys, fragment)
    }

    /**
     * `match`: an exact child keyword wins alone; otherwise a vararg node that
     * parses the fragment matches itself; otherwise every child that parses it.
     */
    function Match(fragment: string): (r: map<Value, Node>)
      ensures fragment in children ==> r == map[Str(fragment) := children[fragment]]
      ensures (fragment !in children && element.isRecursive && Parse(fragment).Some?)
              ==> r == map[Parse(fragment).value := this]
      ensures |r| <= |children| || |r| == 1
    {
      if fragment in children then map[Str(fragment) := children[fragment]]
      else if element.isRecursive && Parse(fragment).Some? then map[Parse(fragment).value := this]
      else Scan(fragment)
    }
  }

  /** A childless node for an element, without a handler. */
  function Leaf(e: Element): (n: Node)
    ensures n.WellKeyed() && n.children == map[] && n.fn == None
  {
    Node(e, None, map[])
  }

  /** The element every tree is rooted at. */
  const RootElement := NewElement("_root", "", false)

  /** `make_root`. */
  function MakeRoot(): (n: Node)
    ensures n.WellKeyed() && n.children == map[] && n.fn == None && n.Keyword() == "_root"
  {
    Leaf(RootElement)
  }

  /** The node reached by following a path of child keys. */
  function At(n: Node, path: seq<string>): Option<Node>
  {
    if path == [] then Some(n)
    else if path[0] in n.children then At(n.children[path[0]], path[1..])
    else None
  }

  /** The handler at the end of a path, if the path exists and one is attached. */
  function FnAt(n: Node, path: seq<string>): Option<Handler>
  {
    match At(n, path)
    case Some(m) => m.fn
    case None => None
  }

  /** Without an exact child and without the vararg case, `match` is the scan of the children. */
  lemma MatchPlain(n: Node, f: string)
    requires f !in n.children && !(n.element.isRecursive && n.Parse(f).Some?)
    ensures n.Match(f) == n.Scan(f)
  {
  }

  /** A fragment the keyword starts with parses to the whole keyword. */
  lemma ParsePrefix(n: Node, f: string)
    requires StartsWith(n.Keyword(), f)
    ensures n.Parse(f) == Some(Str(n.Keyword()))
  {
  }

  /** A fragment that is no prefix of the keyword parses, if at all, to itself or to a number. */
  lemma ParseOther(n: Node, f: string)
    requires !StartsWith(n.Keyword(), f) && n.Parse(f).Some?
    ensures n.Parse(f) == Some(Str(f)) || n.Parse(f).value.Int?
  {
  }

  /** Under a plain node, every child whose keyword starts with the fragment is matched under that keyword. */
  lemma ScanKeyword(n: Node, f: string, k: string)
    requires n.Keyed() && k in n.children && StartsWith(k, f)
    ensures Str(k) in n.Scan(f)
  {
    ParsePrefix(n.children[k], f);
  }

  /** What the scan holds under a keyword is the child stored under it. */
  lemma ScanKeywordEntry(n: Node, f: string, k: string)
    requires n.Keyed() && f !in n.children && k in n.children && Str(k) in n.Scan(f)
    ensures n.Scan(f)[Str(k)] == n.children[k]
  {
    var r := n.Scan(f);
    var k' :| k' in n.children && n.children[k'] == r[Str(k)];
    if StartsWith(k', f) {
      ParsePrefix(n.children[k'], f);
    } else {
      ParseOther(n.children[k'], f);
    }
  }

  /** A scan entry without a converter is the child stored under its keyword, which starts with the fragment. */
  lemma ScanPlainChild(n: Node, f: string, v: Value)
    requires n.Keyed() && v in n.Scan(f) && n.Scan(f)[v].element.converter.None?
    ensures var c := n.Scan(f)[v];
            c.Keyword() in n.children && n.children[c.Keyword()] == c && StartsWith(c.Keyword(), f)
  {
    var c := n.Scan(f)[v];
    var k :| k in n.children && n.children[k] == c;
  }

  /** With the empty fragment every child of a plain node matches under its own keyword, and nothing else does: the next-token candidates. */
  lemma MatchEmpty(n: Node)
    requires n.Keyed() && "" !in n.children && !n.element.isRecursive
    ensures forall k :: k in n.children ==> Str(k) in n.Match("") && n.Match("")[Str(k)] == n.children[k]
    ensures forall v :: v in n.Match("") ==> v.Str? && v.s in n.children
  {
    var r := n.Scan("");
    forall k | k in n.children ensures Str(k) in r && r[Str(k)] == n.children[k] {
      ScanKeyword(n, "", k);
      ScanKeywordEntry(n, "", k);
    }
    forall v | v in r ensures v.Str? && v.s in n.children {
      var k :| k in n.children && n.children[k] == r[v];
      ParsePrefix(n.children[k], "");
    }
  }

  /** A vararg node offers itself again as the next token. */
  lemma MatchEmptyVararg(n: Node)
    requires "" !in n.children && n.element.isRecursive
    ensures n.Match("") == map[Str(n.Keyword()) := n]
  {
  }

  /**
   * Abbreviation: a fragment that only one child accepts, and that names no
   * child exactly, selects that child under its full keyword.
   */
  lemma MatchUniquePrefix(n: Node, f: string, k: string)
    requires n.Keyed() && k in n.children && StartsWith(k, f)
    requires f !in n.children && !(n.element.isRecursive && n.Parse(f).Some?)
    requires forall k' :: k' in n.children && n.children[k'].Parse(f).Some? ==> k' == k
    ensures n.Match(f) == map[Str(k) := n.children[k]]
  {
    MatchPlain(n, f);
    ScanUnique(n, f, k);
  }

  lemma ScanUnique(n: Node, f: string, k: string)
    requires n.Keyed() && k in n.children && StartsWith(k, f) && f !in n.children
    requires forall k' :: k' in n.children && n.children[k'].Parse(f).Some? ==> k' == k
    ensures n.Scan(f) == map[Str(k) := n.children[k]]
  {
    var r := n.Scan(f);
    ScanKeyword(n, f, k);
    ScanKeywordEntry(n, f, k);
    forall v | v in r ensures v == Str(k) {
      ScanOnly(n, f, k, v);
    }
    SingletonMap(r, Str(k));
  }

  lemma ScanOnly(n: Node, f: string, k: string, v: Value)
    requires k in n.children && StartsWith(n.children[k].Keyword(), f)
    requires forall k' :: k' in n.children && n.children[k'].Parse(f).Some? ==> k' == k
    requires v in n.Scan(f)
    ensures v == Str(n.children[k].Keyword())
  {
    var k' :| k' in n.children && n.children[k'] == n.Scan(f)[v];
    ParsePrefix(n.children[k], f);
  }

  /** Ambiguity: a fragment that abbreviates two different child keywords matches both. */
  lemma MatchSharedPrefix(n: Node, f: string, k1: string, k2: string)
    requires n.Keyed() && k1 in n.children && k2 in n.children && k1 != k2
    requires StartsWith(k1, f) && StartsWith(k2, f)
    requires f !in n.children && !(n.element.isRecursive && n.Parse(f).Some?)
    ensures Str(k1) in n.Match(f) && Str(k2) in n.Match(f)
    ensures |n.Match(f)| >= 2
  {
    MatchPlain(n, f);
    ScanShared(n, f, k1, k2);
  }

  lemma ScanShared(n: Node, f: string, k1: string, k2: string)
    requires n.Keyed() && k1 in n.children && k2 in n.children && k1 != k2
    requires StartsWith(k1, f) && StartsWith(k2, f)
    ensures Str(k1) in n.Scan(f) && Str(k2) in n.Scan(f)
    ensures |n.Scan(f)| >= 2
  {
    ScanKeyword(n, f, k1);
    ScanKeyword(n, f, k2);
    TwoKeys(n.Scan(f), Str(k1), Str(k2));
  }

  /** A map whose only key is `x` is the singleton map at `x`. */
  lemma SingletonMap<K, V>(m: map<K, V>, x: K)
    requires x in m && forall y :: y in m ==> y == x
    ensures m == map[x := m[x]]
  {
    assert m.Keys == {x};
  }

  /** A map with two distinct keys has at least two entries. */
  lemma TwoKeys<K, V>(m: map<K, V>, x: K, y: K)
    requires x in m && y in m && x != y
    ensures |m| >= 2
  {
    assert |{x, y}| == 2;
    SubsetCard({x, y}, m.Keys);
  }

  lemma {:induction false} SubsetCard<A>(a: set<A>, b: set<A>)
    requires a <= b
    ensures |a| <= |b|
    decreases a
  {
    if a != {} {
      var x :| x in a;
      SubsetCard(a - {x}, b - {x});
    }
  }

  /**
   * `merge`, as a value: `a` is the node merged into (the fresh tree), `b`
   * the node merged from. The handler of `b` wins when it has one; shared
   * children are merged; children only `b` has are adopted.
   */
  function Merged(a: Node, b: Node): (r: Node)
    requires a.Keyword() == b.Keyword() && a.WellKeyed() && b.WellKeyed()
    ensures r.element == a.element
    ensures r.children.Keys == a.children.Keys + b.children.Keys
    decreases a
  {
    Node(a.element, if b.fn.Some? then b.fn else a.fn,
      map k | k in a.children.Keys + b.children.Keys ::
        if k in a.children && k in b.children then Merged(a.children[k], b.children[k])
        else if k in a.children then a.children[k]
        else b.children[k])
  }

  /** The children of a merge, key by key. */
  lemma MergedChildren(a: Node, b: Node)
    requires a.Keyword() == b.Keyword() && a.WellKeyed() && b.WellKeyed()
    ensures forall k :: k in a.children && k in b.children ==>
              Merged(a, b).children[k] == Merged(a.children[k], b.children[k])
    ensures forall k :: k in a.children && k !in b.children ==> Merged(a, b).children[k] == a.children[k]
    ensures forall k :: k !in a.children && k in b.children ==> Merged(a, b).children[k] == b.children[k]
  {
  }

  /** Merging keeps every child stored under its keyword. */
  lemma {:induction false} MergedWellKeyed(a: Node, b: Node)
    requires a.Keyword() == b.Keyword() && a.WellKeyed() && b.WellKeyed()
    ensures Merged(a, b).WellKeyed()
    decreases a
  {
    var r := Merged(a, b);
    forall k | k in r.children ensures r.children[k].Keyword() == k && r.children[k].WellKeyed() {
      if k in a.children && k in b.children {
        MergedWellKeyed(a.children[k], b.children[k]);
      }
    }
  }

  /**
   * Merging loses no path: a path exists in the merge exactly when it exists
   * in either tree, and its handler is `b`'s when `b` has one there, `a`'s otherwise.
   */
  lemma {:induction false} MergedPaths(a: Node, b: Node, path: seq<string>)
    requires a.Keyword() == b.Keyword() && a.WellKeyed() && b.WellKeyed()
    ensures At(Merged(a, b), path).Some? <==> At(a, path).Some? || At(b, path).Some?
    ensures FnAt(Merged(a, b), path) == if FnAt(b, path).Some? then FnAt(b, path) else FnAt(a, path)
    decreases path
  {
    if path != [] {
      var k := path[0];
      if k in a.children && k in b.children {
        MergedPaths(a.children[k], b.children[k], path[1..]);
      }
    }
  }

  /**
   * `CliNode.merge` with its loops: the handler first, then every shared
   * key merged recursively (`MergeShared`), then every key only `b` has
   * adopted (`Adopt`).
   */
  method Merge(a: Node, b: Node) returns (r: Node)
    requires a.Keyword() == b.Keyword() && a.WellKeyed() && b.WellKeyed()
    ensures r == Merged(a, b)
    decreases a, 1
  {
    var fn := if b.fn.Some? then b.fn else a.fn;
    var children := MergeShared(a, b);
    children := Adopt(children, b.children, b.children.Keys - a.children.Keys);
    MergedFrom(a, b, children);
    r := Node(a.element, fn, children);
  }

  /** The first loop of `merge`: the children of `a`, every key shared with `b` merged. */
  method MergeShared(a: Node, b: Node) returns (children: map<string, Node>)
    requires a.Keyword() == b.Keyword() && a.WellKeyed() && b.WellKeyed()
    ensures children.Keys == a.children.Keys
    ensures forall k :: k in children && k !in b.children ==> children[k] == a.children[k]
    ensures forall k :: k in children && k in b.children ==> children[k] == Merged(a.children[k], b.children[k])
    decreases a, 0
  {
    children := a.children;
    var ours, theirs := a.children.Keys, b.children.Keys;
    var shared := ours * theirs;
    while shared != {}
      invariant shared <= ours * theirs && children.Keys == ours
      invariant forall k :: k in ours && (k !in theirs || k in shared) ==> children[k] == a.children[k]
      invariant forall k :: k in ours && k in theirs && k !in shared ==>
                  children[k] == Merged(a.children[k], b.children[k])
      decreases shared
    {
      var k :| k in shared;
      var sub := Merge(a.children[k], b.children[k]);
      children := children[k := sub];
      shared := shared - {k};
    }
  }

  /** The second loop of `merge`: the entries of `from` under `keys` are added to `m`. */
  method Adopt<K, V>(m: map<K, V>, from: map<K, V>, keys: set<K>) returns (r: map<K, V>)
    requires keys <= from.Keys
    ensures r.Keys == m.Keys + keys
    ensures forall k :: k in r ==> r[k] == if k in keys then from[k] else m[k]
  {
    r := m;
    var todo := keys;
    while todo != {}
      invariant todo <= keys && r.Keys == m.Keys + (keys - todo)
      invariant forall k :: k in r ==> r[k] == if k in keys - todo then from[k] else m[k]
      decreases todo
    {
      var k :| k in todo;
      r := r[k := from[k]];
      todo := todo - {k};
    }
  }

  /** A children map that agrees with `MergedChildren` key by key is the merge's. */
  lemma MergedFrom(a: Node, b: Node, children: map<string, Node>)
    requires a.Keyword() == b.Keyword() && a.WellKeyed() && b.WellKeyed()
    requires children.Keys == a.children.Keys + b.children.Keys
    requires forall k :: k in a.children && k in b.children ==>
               children[k] == Merged(a.children[k], b.children[k])
    requires forall k :: k in a.children && k !in b.children ==> children[k] == a.children[k]
    requires forall k :: k !in a.children && k in b.children ==> children[k] == b.children[k]
    ensures Merged(a, b).children == children
  {
    var r := Merged(a, b);
    MergedChildren(a, b);
    assert r.children.Keys == children.Keys;
    assert forall k :: k in r.children ==> r.children[k] == children[k];
    SameMap(r.children, children);
  }

  /** Two maps with the same keys and the same value under each are equal. */
  lemma SameMap<K, V>(m: map<K, V>, n: map<K, V>)
    requires m.Keys == n.Keys && forall k :: k in m ==> m[k] == n[k]
    ensures m == n
  {
  }
}
