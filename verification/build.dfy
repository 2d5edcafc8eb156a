/**
 * Installing a compiled grammar into the tree (`CliNode.build`): elements
 * walk down the tree, creating a node for every keyword not yet present; a
 * `(...)` group forks the walk once per branch and a `{...}` group once per
 * ordered selection of its branches; the handler goes on the node where each
 * walk ends.
 */
module TreeBuild {
  import opened Wrappers
  import opened CliNode
  import opened Grammar
  import opened Arrange

  /*
   * A measure that shrinks when a group is replaced by one of its
   * alternatives: a `{...}` group counts every branch once per branch, since
   * one alternative may use all of them.
   */

  function Size(item: Item): (r: nat)
    ensures r >= 1
  {
    match item
    case Elem(_) => 1
    case Paren(bs) => 1 + BranchesSize(bs)
    case Brace(bs) => 1 + |bs| * BranchesSize(bs)
  }

  function ItemsSize(items: seq<Item>): nat
  {
    if items == [] then 0 else Size(items[0]) + ItemsSize(items[1..])
  }

  function BranchesSize(bs: seq<Branch>): nat
  {
    if bs == [] then 0 else ItemsSize(bs[0].items) + BranchesSize(bs[1..])
  }

  lemma {:induction false} ItemsSizeAppend(a: seq<Item>, b: seq<Item>)
    ensures ItemsSize(a + b) == ItemsSize(a) + ItemsSize(b)
  {
    if a != [] {
      assert (a + b)[1..] == a[1..] + b;
      ItemsSizeAppend(a[1..], b);
    } else {
      assert a + b == b;
    }
  }

  lemma {:induction false} BranchSize(bs: seq<Branch>, j: nat)
    requires j < |bs|
    ensures ItemsSize(bs[j].items) <= BranchesSize(bs)
  {
    if j > 0 {
      BranchSize(bs[1..], j - 1);
    }
  }

  /** The branches at the positions `a`, one after the other (`chain(*p)`). */
  function Concat(bs: seq<Branch>, a: seq<nat>): seq<Item>
  {
    if a == [] then []
    else (if a[0] < |bs| then bs[a[0]].items else []) + Concat(bs, a[1..])
  }

  lemma {:induction false} ConcatSize(bs: seq<Branch>, a: seq<nat>)
    ensures ItemsSize(Concat(bs, a)) <= |a| * BranchesSize(bs)
  {
    if a != [] {
      ConcatSize(bs, a[1..]);
      var first := if a[0] < |bs| then bs[a[0]].items else [];
      if a[0] < |bs| {
        BranchSize(bs, a[0]);
      }
      ItemsSizeAppend(first, Concat(bs, a[1..]));
      MulSucc(|a| - 1, BranchesSize(bs));
    }
  }

  lemma MulMono(x: nat, y: nat, b: nat)
    requires x <= y
    ensures x * b <= y * b
  {
  }

  /**
   * What a group expands into, each alternative followed by the rest of the
   * command: one per branch for `(...)`, and for `{...}` one per ordered
   * selection of branches, sizes 1 up to all of them.
   */
  function Alternatives(item: Item, rest: seq<Item>): (alts: seq<seq<Item>>)
    requires !item.Elem?
    ensures forall k :: 0 <= k < |alts| ==> ItemsSize(alts[k]) < Size(item) + ItemsSize(rest)
  {
    match item
    case Paren(bs) =>
      ParenShrinks(bs, rest);
      seq(|bs|, j requires 0 <= j < |bs| => bs[j].items + rest)
    case Brace(bs) =>
      BraceShrinks(bs, rest);
      var arr := Arrangements(|bs|);
      seq(|arr|, j requires 0 <= j < |arr| => Concat(bs, arr[j]) + rest)
  }

  lemma ParenShrinks(bs: seq<Branch>, rest: seq<Item>)
    ensures forall j :: 0 <= j < |bs| ==> ItemsSize(bs[j].items + rest) < Size(Paren(bs)) + ItemsSize(rest)
  {
    forall j | 0 <= j < |bs| ensures ItemsSize(bs[j].items + rest) < Size(Paren(bs)) + ItemsSize(rest) {
      BranchSize(bs, j);
      ItemsSizeAppend(bs[j].items, rest);
    }
  }

  lemma BraceShrinks(bs: seq<Branch>, rest: seq<Item>)
    ensures forall a :: a in Arrangements(|bs|) ==>
              ItemsSize(Concat(bs, a) + rest) < Size(Brace(bs)) + ItemsSize(rest)
  {
    forall a | a in Arrangements(|bs|)
      ensures ItemsSize(Concat(bs, a) + rest) < Size(Brace(bs)) + ItemsSize(rest)
    {
      ArrangementsExactly(|bs|, a);
      ConcatSize(bs, a);
      MulMono(|a|, |bs|, BranchesSize(bs));
      ItemsSizeAppend(Concat(bs, a), rest);
    }
  }

  /**
   * `n.build(items, fn)` as a function of the tree: an element descends
   * into the child under its keyword, made from the element when missing
   * (`setdefault`); a group builds every alternative in turn on the same
   * node and ends the walk; the end of the walk receives the handler.
   */
  function Built(n: Node, items: seq<Item>, fn: Handler): Node
    decreases ItemsSize(items), 1
  {
    if items == [] then n.(fn := Some(fn))
    else match items[0]
      case Elem(e) =>
        var child := if e.keyword in n.children then n.children[e.keyword] else Leaf(e);
        n.(children := n.children[e.keyword := Built(child, items[1..], fn)])
      case _ => BuildEach(n, Alternatives(items[0], items[1..]), fn, ItemsSize(items))
  }

  /** The alternatives built one after the other on the same node. */
  function BuildEach(n: Node, alts: seq<seq<Item>>, fn: Handler, bound: nat): Node
    requires forall k :: 0 <= k < |alts| ==> ItemsSize(alts[k]) < bound
    decreases bound, 0, |alts|
  {
    if alts == [] then n else BuildEach(Built(n, alts[0], fn), alts[1..], fn, bound)
  }

  /**
   * The keyword paths a compiled grammar spells out: every way through its
   * groups, each read as the keywords of its elements.
   */
  function Paths(items: seq<Item>): set<seq<string>>
    decreases ItemsSize(items), 1
  {
    if items == [] then {[]}
    else match items[0]
      case Elem(e) => set q | q in Paths(items[1..]) :: [e.keyword] + q
      case _ => PathsEach(Alternatives(items[0], items[1..]), ItemsSize(items))
  }

  function PathsEach(alts: seq<seq<Item>>, bound: nat): set<seq<string>>
    requires forall k :: 0 <= k < |alts| ==> ItemsSize(alts[k]) < bound
    decreases bound, 0, |alts|
  {
    if alts == [] then {} else Paths(alts[0]) + PathsEach(alts[1..], bound)
  }

  lemma {:induction false} PathsEachMember(alts: seq<seq<Item>>, bound: nat, p: seq<string>)
    requires forall k :: 0 <= k < |alts| ==> ItemsSize(alts[k]) < bound
    ensures p in PathsEach(alts, bound) <==> exists k :: 0 <= k < |alts| && p in Paths(alts[k])
    decreases |alts|
  {
    if alts != [] {
      PathsEachMember(alts[1..], bound, p);
      if p in PathsEach(alts[1..], bound) {
        var k :| 0 <= k < |alts| - 1 && p in Paths(alts[1..][k]);
        assert p in Paths(alts[k + 1]);
      }
      if exists k :: 0 <= k < |alts| && p in Paths(alts[k]) {
        var k :| 0 <= k < |alts| && p in Paths(alts[k]);
        if k > 0 {
          assert alts[1..][k - 1] == alts[k];
        }
      }
    }
  }

  /** A `(...)` group offers exactly one of its branches. */
  lemma ParenPaths(bs: seq<Branch>, rest: seq<Item>, p: seq<string>)
    ensures p in Paths([Paren(bs)] + rest) <==> exists j :: 0 <= j < |bs| && p in Paths(bs[j].items + rest)
  {
    var items := [Paren(bs)] + rest;
    assert items[0] == Paren(bs) && items[1..] == rest;
    var alts := Alternatives(Paren(bs), rest);
    PathsEachMember(alts, ItemsSize(items), p);
    assert forall j :: 0 <= j < |bs| ==> alts[j] == bs[j].items + rest;
  }

  /**
   * A `{...}` group offers its branches in any order, each at most once and
   * at least one of them.
   */
  lemma BracePaths(bs: seq<Branch>, rest: seq<Item>, p: seq<string>)
    ensures p in Paths([Brace(bs)] + rest) <==>
              exists a :: 1 <= |a| <= |bs| && Distinct(a) && (forall i :: 0 <= i < |a| ==> a[i] < |bs|) &&
                          p in Paths(Concat(bs, a) + rest)
  {
    var items := [Brace(bs)] + rest;
    assert items[0] == Brace(bs) && items[1..] == rest;
    var alts := Alternatives(Brace(bs), rest);
    PathsEachMember(alts, ItemsSize(items), p);
    if p in Paths(items) {
      BraceAlternative(bs, rest, p);
    }
    if exists a :: 1 <= |a| <= |bs| && Distinct(a) && (forall i :: 0 <= i < |a| ==> a[i] < |bs|) &&
                   p in Paths(Concat(bs, a) + rest) {
      var a :| 1 <= |a| <= |bs| && Distinct(a) && (forall i :: 0 <= i < |a| ==> a[i] < |bs|) &&
               p in Paths(Concat(bs, a) + rest);
      BraceArrangement(bs, rest, a);
    }
  }

  /** Each alternative of a `{...}` group follows one arrangement of its branches. */
  lemma BraceAlternative(bs: seq<Branch>, rest: seq<Item>, p: seq<string>)
    requires exists k :: 0 <= k < |Alternatives(Brace(bs), rest)| && p in Paths(Alternatives(Brace(bs), rest)[k])
    ensures exists a :: 1 <= |a| <= |bs| && Distinct(a) && (forall i :: 0 <= i < |a| ==> a[i] < |bs|) &&
                        p in Paths(Concat(bs, a) + rest)
  {
    var arr := Arrangements(|bs|);
    var alts := Alternatives(Brace(bs), rest);
    var k :| 0 <= k < |alts| && p in Paths(alts[k]);
    var a := arr[k];
    ArrangementsExactly(|bs|, a);
    assert alts[k] == Concat(bs, a) + rest;
  }

  /** Every arrangement of the branches of a `{...}` group is one of its alternatives. */
  lemma BraceArrangement(bs: seq<Branch>, rest: seq<Item>, a: seq<nat>)
    requires 1 <= |a| <= |bs| && Distinct(a) && (forall i :: 0 <= i < |a| ==> a[i] < |bs|)
    ensures exists k :: 0 <= k < |Alternatives(Brace(bs), rest)| &&
                        Alternatives(Brace(bs), rest)[k] == Concat(bs, a) + rest
  {
    var arr := Arrangements(|bs|);
    var alts := Alternatives(Brace(bs), rest);
    ArrangementsExactly(|bs|, a);
    var k :| 0 <= k < |arr| && arr[k] == a;
    assert alts[k] == Concat(bs, a) + rest;
  }

  lemma LeafPaths(e: Element, q: seq<string>)
    ensures FnAt(Leaf(e), q) == None
  {
  }

  /**
   * Building installs the handler exactly on the paths the grammar spells
   * out and leaves every other path's handler as it was.
   */
  lemma {:induction false} BuiltHandlers(n: Node, items: seq<Item>, fn: Handler, p: seq<string>)
    ensures FnAt(Built(n, items, fn), p) == if p in Paths(items) then Some(fn) else FnAt(n, p)
    decreases ItemsSize(items), 1
  {
    if items == [] {
      if p != [] {
        assert At(Built(n, items, fn), p) == At(n, p);
      }
    } else {
      match items[0]
      case Elem(e) =>
        var kw := e.keyword;
        var rest := items[1..];
        var child := if kw in n.children then n.children[kw] else Leaf(e);
        var r := Built(n, items, fn);
        assert r == n.(children := n.children[kw := Built(child, rest, fn)]);
        if p == [] {
          assert p !in Paths(items);
        } else if p[0] == kw {
          BuiltHandlers(child, rest, fn, p[1..]);
          assert p == [kw] + p[1..];
          assert p in Paths(items) <==> p[1..] in Paths(rest);
          if kw !in n.children {
            LeafPaths(e, p[1..]);
          }
        } else {
          assert p !in Paths(items);
          assert At(r, p) == At(n, p);
        }
      case _ =>
        var alts := Alternatives(items[0], items[1..]);
        BuildEachHandlers(n, alts, fn, ItemsSize(items), p);
    }
  }

  lemma {:induction false} BuildEachHandlers(n: Node, alts: seq<seq<Item>>, fn: Handler, bound: nat, p: seq<string>)
    requires forall k :: 0 <= k < |alts| ==> ItemsSize(alts[k]) < bound
    ensures FnAt(BuildEach(n, alts, fn, bound), p) == if p in PathsEach(alts, bound) then Some(fn) else FnAt(n, p)
    decreases bound, 0, |alts|
  {
    if alts != [] {
      BuiltHandlers(n, alts[0], fn, p);
      BuildEachHandlers(Built(n, alts[0], fn), alts[1..], fn, bound, p);
    }
  }

  /**
   * Building never removes a node or replaces its element (`setdefault`
   * keeps what is there), and keeps the children keyed by keyword.
   */
  lemma {:induction false} BuiltKeeps(n: Node, items: seq<Item>, fn: Handler, p: seq<string>)
    requires At(n, p).Some?
    ensures At(Built(n, items, fn), p).Some?
    ensures At(Built(n, items, fn), p).value.element == At(n, p).value.element
    decreases ItemsSize(items), 1
  {
    if items == [] {
      if p != [] {
        assert At(Built(n, items, fn), p) == At(n, p);
      }
    } else {
      match items[0]
      case Elem(e) =>
        var kw := e.keyword;
        var child := if kw in n.children then n.children[kw] else Leaf(e);
        var r := Built(n, items, fn);
        assert r == n.(children := n.children[kw := Built(child, items[1..], fn)]);
        if p != [] {
          if p[0] == kw {
            BuiltKeeps(child, items[1..], fn, p[1..]);
          } else {
            assert At(r, p) == At(n, p);
          }
        }
      case _ =>
        BuildEachKeeps(n, Alternatives(items[0], items[1..]), fn, ItemsSize(items), p);
    }
  }

  lemma {:induction false} BuildEachKeeps(n: Node, alts: seq<seq<Item>>, fn: Handler, bound: nat, p: seq<string>)
    requires forall k :: 0 <= k < |alts| ==> ItemsSize(alts[k]) < bound
    requires At(n, p).Some?
    ensures At(BuildEach(n, alts, fn, bound), p).Some?
    ensures At(BuildEach(n, alts, fn, bound), p).value.element == At(n, p).value.element
    decreases bound, 0, |alts|
  {
    if alts != [] {
      BuiltKeeps(n, alts[0], fn, p);
      BuildEachKeeps(Built(n, alts[0], fn), alts[1..], fn, bound, p);
    }
  }

  lemma {:induction false} BuiltWellKeyed(n: Node, items: seq<Item>, fn: Handler)
    requires n.WellKeyed()
    ensures Built(n, items, fn).WellKeyed() && Built(n, items, fn).element == n.element
    decreases ItemsSize(items), 1
  {
    if items != [] {
      match items[0]
      case Elem(e) =>
        var kw := e.keyword;
        var child := if kw in n.children then n.children[kw] else Leaf(e);
        BuiltWellKeyed(child, items[1..], fn);
        var r := Built(n, items, fn);
        assert r.children[kw] == Built(child, items[1..], fn);
        assert r.Keyed();
      case _ =>
        BuildEachWellKeyed(n, Alternatives(items[0], items[1..]), fn, ItemsSize(items));
    }
  }

  lemma {:induction false} BuildEachWellKeyed(n: Node, alts: seq<seq<Item>>, fn: Handler, bound: nat)
    requires forall k :: 0 <= k < |alts| ==> ItemsSize(alts[k]) < bound
    requires n.WellKeyed()
    ensures BuildEach(n, alts, fn, bound).WellKeyed() && BuildEach(n, alts, fn, bound).element == n.element
    decreases bound, 0, |alts|
  {
    if alts != [] {
      BuiltWellKeyed(n, alts[0], fn);
      BuildEachWellKeyed(Built(n, alts[0], fn), alts[1..], fn, bound);
    }
  }

  /**
   * The elements the grammar spells at keyword path `p`: for every way
   * through its groups whose keywords start with `p`, the element that
   * spells the last keyword of `p`.
   */
  function ElementsAt(items: seq<Item>, p: seq<string>): (r: set<Element>)
    ensures forall e :: e in r ==> p != [] && e.keyword == p[|p| - 1]
    decreases ItemsSize(items), 1
  {
    if items == [] then {}
    else match items[0]
      case Elem(e) =>
        if p == [] || p[0] != e.keyword then {}
        else if |p| == 1 then {e}
        else ElementsAt(items[1..], p[1..])
      case _ => ElementsAtEach(Alternatives(items[0], items[1..]), ItemsSize(items), p)
  }

  function ElementsAtEach(alts: seq<seq<Item>>, bound: nat, p: seq<string>): (r: set<Element>)
    requires forall k :: 0 <= k < |alts| ==> ItemsSize(alts[k]) < bound
    ensures forall e :: e in r ==> p != [] && e.keyword == p[|p| - 1]
    decreases bound, 0, |alts|
  {
    if alts == [] then {} else ElementsAt(alts[0], p) + ElementsAtEach(alts[1..], bound, p)
  }

  lemma {:induction false} ElementsAtEachMember(alts: seq<seq<Item>>, bound: nat, p: seq<string>, e: Element)
    requires forall k :: 0 <= k < |alts| ==> ItemsSize(alts[k]) < bound
    ensures e in ElementsAtEach(alts, bound, p) <==> exists k :: 0 <= k < |alts| && e in ElementsAt(alts[k], p)
    decreases |alts|
  {
    if alts != [] {
      ElementsAtEachMember(alts[1..], bound, p, e);
      if e in ElementsAtEach(alts[1..], bound, p) {
        var k :| 0 <= k < |alts| - 1 && e in ElementsAt(alts[1..][k], p);
        assert e in ElementsAt(alts[k + 1], p);
      }
      if exists k :: 0 <= k < |alts| && e in ElementsAt(alts[k], p) {
        var k :| 0 <= k < |alts| && e in ElementsAt(alts[k], p);
        if k > 0 {
          assert alts[1..][k - 1] == alts[k];
        }
      }
    }
  }

  lemma LeafAt(e: Element, q: seq<string>)
    ensures At(Leaf(e), q).Some? <==> q == []
  {
  }

  lemma {:induction false} BuiltElement(n: Node, items: seq<Item>, fn: Handler)
    ensures Built(n, items, fn).element == n.element
    decreases ItemsSize(items), 1
  {
    if items != [] && !items[0].Elem? {
      BuildEachElement(n, Alternatives(items[0], items[1..]), fn, ItemsSize(items));
    }
  }

  lemma {:induction false} BuildEachElement(n: Node, alts: seq<seq<Item>>, fn: Handler, bound: nat)
    requires forall k :: 0 <= k < |alts| ==> ItemsSize(alts[k]) < bound
    ensures BuildEach(n, alts, fn, bound).element == n.element
    decreases bound, 0, |alts|
  {
    if alts != [] {
      BuiltElement(n, alts[0], fn);
      BuildEachElement(Built(n, alts[0], fn), alts[1..], fn, bound);
    }
  }

  /**
   * Building adds exactly the nodes the grammar spells and no others: a
   * path exists afterwards iff it existed before or the grammar spells an
   * element there, and a node that is new carries one of the elements the
   * grammar spells at its path (the first one built, as `setdefault` keeps it).
   */
  lemma {:induction false} BuiltNodes(n: Node, items: seq<Item>, fn: Handler, p: seq<string>)
    ensures At(Built(n, items, fn), p).Some? <==> At(n, p).Some? || ElementsAt(items, p) != {}
    ensures At(n, p) == None && At(Built(n, items, fn), p).Some? ==>
              At(Built(n, items, fn), p).value.element in ElementsAt(items, p)
    decreases ItemsSize(items), 1
  {
    if items == [] {
      if p != [] {
        assert At(Built(n, items, fn), p) == At(n, p);
      }
    } else {
      match items[0]
      case Elem(e) =>
        var kw := e.keyword;
        var rest := items[1..];
        var child := if kw in n.children then n.children[kw] else Leaf(e);
        var r := Built(n, items, fn);
        assert r == n.(children := n.children[kw := Built(child, rest, fn)]);
        if p != [] {
          if p[0] == kw {
            assert At(r, p) == At(Built(child, rest, fn), p[1..]);
            BuiltNodes(child, rest, fn, p[1..]);
            if kw !in n.children {
              LeafAt(e, p[1..]);
              if |p| == 1 {
                BuiltElement(child, rest, fn);
                assert p[1..] == [];
              }
            } else {
              assert At(n, p) == At(child, p[1..]);
            }
          } else {
            assert At(r, p) == At(n, p);
          }
        }
      case _ =>
        BuildEachNodes(n, Alternatives(items[0], items[1..]), fn, ItemsSize(items), p);
    }
  }

  lemma {:induction false} BuildEachNodes(n: Node, alts: seq<seq<Item>>, fn: Handler, bound: nat, p: seq<string>)
    requires forall k :: 0 <= k < |alts| ==> ItemsSize(alts[k]) < bound
    ensures At(BuildEach(n, alts, fn, bound), p).Some? <==> At(n, p).Some? || ElementsAtEach(alts, bound, p) != {}
    ensures At(n, p) == None && At(BuildEach(n, alts, fn, bound), p).Some? ==>
              At(BuildEach(n, alts, fn, bound), p).value.element in ElementsAtEach(alts, bound, p)
    decreases bound, 0, |alts|
  {
    if alts != [] {
      var m := Built(n, alts[0], fn);
      BuiltNodes(n, alts[0], fn, p);
      BuildEachNodes(m, alts[1..], fn, bound, p);
      if At(m, p).Some? {
        BuildEachKeeps(m, alts[1..], fn, bound, p);
      }
    }
  }

  /** Every non-empty prefix of a spelled path has an element spelled at it. */
  lemma {:induction false} PathPrefixSpelled(items: seq<Item>, p: seq<string>, q: seq<string>)
    requires p != [] && q in Paths(items) && |p| <= |q| && q[..|p|] == p
    ensures ElementsAt(items, p) != {}
    decreases ItemsSize(items), 1
  {
    if items != [] {
      match items[0]
      case Elem(e) =>
        var q' :| q' in Paths(items[1..]) && q == [e.keyword] + q';
        assert p[0] == q[0];
        if |p| > 1 {
          assert q'[..|p| - 1] == p[1..];
          PathPrefixSpelled(items[1..], p[1..], q');
        }
      case _ =>
        var alts := Alternatives(items[0], items[1..]);
        PathsEachMember(alts, ItemsSize(items), q);
        var k :| 0 <= k < |alts| && q in Paths(alts[k]);
        PathPrefixSpelled(alts[k], p, q);
        var e :| e in ElementsAt(alts[k], p);
        ElementsAtEachMember(alts, ItemsSize(items), p, e);
    }
  }

  lemma GroupedRest(items: seq<Item>)
    requires items != [] && Grouped(items)
    ensures GroupedItem(items[0]) && Grouped(items[1..])
  {
    assert forall i :: 0 <= i < |items| - 1 ==> items[1..][i] == items[i + 1];
  }

  lemma GroupedAppend(a: seq<Item>, b: seq<Item>)
    requires Grouped(a) && Grouped(b)
    ensures Grouped(a + b)
  {
    forall i | 0 <= i < |a + b| ensures GroupedItem((a + b)[i]) {
      if i >= |a| {
        assert (a + b)[i] == b[i - |a|];
      }
    }
  }

  lemma {:induction false} ConcatGrouped(bs: seq<Branch>, a: seq<nat>)
    requires forall j :: 0 <= j < |bs| ==> Grouped(bs[j].items)
    ensures Grouped(Concat(bs, a))
    decreases |a|
  {
    if a != [] {
      ConcatGrouped(bs, a[1..]);
      GroupedAppend(if a[0] < |bs| then bs[a[0]].items else [], Concat(bs, a[1..]));
    }
  }

  /** The alternatives of a group with a branch exist and keep every group branched. */
  lemma AlternativesGrouped(item: Item, rest: seq<Item>)
    requires !item.Elem? && GroupedItem(item) && Grouped(rest)
    ensures |Alternatives(item, rest)| > 0
    ensures forall k :: 0 <= k < |Alternatives(item, rest)| ==> Grouped(Alternatives(item, rest)[k])
  {
    var alts := Alternatives(item, rest);
    match item
    case Paren(bs) =>
      forall k | 0 <= k < |alts| ensures Grouped(alts[k]) {
        GroupedAppend(bs[k].items, rest);
      }
    case Brace(bs) =>
      var arr := Arrangements(|bs|);
      ArrangementsExactly(|bs|, [0]);
      forall k | 0 <= k < |alts| ensures Grouped(alts[k]) {
        ConcatGrouped(bs, arr[k]);
        GroupedAppend(Concat(bs, arr[k]), rest);
      }
  }

  /** A grammar whose groups all have a branch spells at least one path. */
  lemma {:induction false} PathsExist(items: seq<Item>)
    requires Grouped(items)
    ensures Paths(items) != {}
    decreases ItemsSize(items), 1
  {
    if items != [] {
      GroupedRest(items);
      match items[0]
      case Elem(e) =>
        PathsExist(items[1..]);
        var q :| q in Paths(items[1..]);
        assert [e.keyword] + q in Paths(items);
      case _ =>
        var alts := Alternatives(items[0], items[1..]);
        AlternativesGrouped(items[0], items[1..]);
        PathsExist(alts[0]);
        var q :| q in Paths(alts[0]);
        PathsEachMember(alts, ItemsSize(items), q);
    }
  }

  /** In a grammar whose groups all have a branch, an element is spelled only along a spelled path. */
  lemma {:induction false} SpelledPathPrefix(items: seq<Item>, p: seq<string>, e: Element)
    requires Grouped(items) && e in ElementsAt(items, p)
    ensures exists q :: q in Paths(items) && |p| <= |q| && q[..|p|] == p
    decreases ItemsSize(items), 1
  {
    GroupedRest(items);
    match items[0]
    case Elem(e0) =>
      var kw := e0.keyword;
      var q': seq<string>;
      if |p| == 1 {
        PathsExist(items[1..]);
        q' :| q' in Paths(items[1..]);
      } else {
        SpelledPathPrefix(items[1..], p[1..], e);
        q' :| q' in Paths(items[1..]) && |p| - 1 <= |q'| && q'[..|p| - 1] == p[1..];
      }
      var q := [kw] + q';
      assert q in Paths(items);
      assert q[..|p|] == p;
    case _ =>
      var alts := Alternatives(items[0], items[1..]);
      AlternativesGrouped(items[0], items[1..]);
      ElementsAtEachMember(alts, ItemsSize(items), p, e);
      var k :| 0 <= k < |alts| && e in ElementsAt(alts[k], p);
      SpelledPathPrefix(alts[k], p, e);
      var q :| q in Paths(alts[k]) && |p| <= |q| && q[..|p|] == p;
      PathsEachMember(alts, ItemsSize(items), q);
  }

  /**
   * For a grammar as `cmdsplit` produces it (every group has a branch), the
   * paths of the built tree are those of the old tree and the prefixes of
   * the paths the grammar spells.
   */
  lemma BuiltPaths(n: Node, items: seq<Item>, fn: Handler, p: seq<string>)
    requires Grouped(items)
    ensures At(Built(n, items, fn), p).Some? <==>
              At(n, p).Some? || exists q :: q in Paths(items) && |p| <= |q| && q[..|p|] == p
  {
    BuiltNodes(n, items, fn, p);
    if ElementsAt(items, p) != {} {
      var e :| e in ElementsAt(items, p);
      SpelledPathPrefix(items, p, e);
    }
    if p != [] && exists q :: q in Paths(items) && |p| <= |q| && q[..|p|] == p {
      var q :| q in Paths(items) && |p| <= |q| && q[..|p|] == p;
      PathPrefixSpelled(items, p, q);
    }
  }

  /** A path of `(parent, keyword)` steps from the root down to the current node. */
  function Plug(path: seq<(Node, string)>, n: Node): Node
  {
    if path == [] then n
    else
      var (parent, k) := path[|path| - 1];
      Plug(path[..|path| - 1], parent.(children := parent.children[k := n]))
  }

  /**
   * `build` with its loop: elements are taken from the front of the queue
   * and walk `node` down the tree; at a group every alternative is built
   * recursively on the current node and the walk ends; otherwise the node
   * where the queue runs out receives the handler. Since the tree is a
   * value here, the walk keeps the nodes it passed and puts the changed
   * node back in its parents at the end.
   */
  method Build(root: Node, items: seq<Item>, fn: Handler) returns (r: Node)
    ensures r == Built(root, items, fn)
    decreases ItemsSize(items)
  {
    var node := root;
    var path: seq<(Node, string)> := [];
    var rest := items;
    while rest != []
      invariant ItemsSize(rest) <= ItemsSize(items)
      invariant Plug(path, Built(node, rest, fn)) == Built(root, items, fn)
      decreases |rest|
    {
      var item := rest[0];
      if item.Elem? {
        var e := item.element;
        var child := if e.keyword in node.children then node.children[e.keyword] else Leaf(e);
        ghost var built := Built(child, rest[1..], fn);
        assert Built(node, rest, fn) == node.(children := node.children[e.keyword := built]);
        assert (path + [(node, e.keyword)])[..|path|] == path;
        path := path + [(node, e.keyword)];
        node := child;
        rest := rest[1..];
      } else {
        var alts := Alternatives(item, rest[1..]);
        ghost var start := node;
        ghost var bound := ItemsSize(rest);
        for k := 0 to |alts|
          invariant BuildEach(node, alts[k..], fn, bound) == BuildEach(start, alts, fn, bound)
        {
          assert alts[k..][1..] == alts[k + 1..];
          node := Build(node, alts[k], fn);
        }
        assert alts[|alts|..] == [];
        return Plug(path, node);
      }
    }
    r := Plug(path, node.(fn := Some(fn)));
  }
}
