/**
 * The semantic tree the accessibility script builds from a page (js/accessibility_tree.js): a recursive prune of
 * the element tree with a depth cut and a shared node counter that works as a cap.
 */
module AccessibilityTree {
  import opened Text

  const MAX_TREE_DEPTH := 12
  const MAX_NODES := 300

  /**
   * What the script's helpers report about one element: `hasName` a non-empty accessible name, `hasState` a field
   * state, `hasTextNode` a text node of its own with more than two characters.
   */
  datatype Element = Element(
    id: nat, visible: bool, tag: string, role: Option<string>, hasName: bool, hasState: bool, hasTextNode: bool,
    children: seq<Element>)
  {
    predicate IsNoise() {
      tag in {"script", "style", "noscript", "svg", "path", "meta", "link", "br", "hr", "wbr"}
    }

    predicate RoleIn(roles: set<string>) {
      role.Some? && role.value in roles
    }

    predicate IsInteractive() {
      hasState || RoleIn({"button", "link", "textbox", "searchbox", "combobox", "checkbox", "radio", "slider",
                          "spinbutton", "switch", "tab", "menuitem", "option"})
    }

    predicate IsLandmark() {
      RoleIn({"navigation", "main", "banner", "contentinfo", "complementary", "region", "form", "dialog", "article",
              "list"})
    }

    predicate IsHeading() {
      RoleIn({"heading"})
    }

    predicate IsTable() {
      RoleIn({"table", "row", "cell", "columnheader", "rowgroup"})
    }

    /** The elements the tree is made for. */
    predicate IsSemantic(): (r: bool)
      ensures r <==> Wanted(this)
    {
      IsInteractive() || IsLandmark() || IsHeading() || IsTable()
    }

    predicate HasDirectText() {
      !IsInteractive() && hasTextNode
    }

    /** Neither the element nor its descendants can be in the tree. */
    predicate IsCut(depth: nat): (r: bool)
      ensures r <==> depth > 12 || !Shows(this)
    {
      depth > MAX_TREE_DEPTH || !visible || IsNoise()
    }
  }

  /** The roles of the elements that must not be lost. */
  const WANTED_ROLES := {
    "button", "link", "textbox", "searchbox", "combobox", "checkbox", "radio", "slider", "spinbutton", "switch", "tab",
    "menuitem", "option", "navigation", "main", "banner", "contentinfo", "complementary", "region", "form", "dialog",
    "article", "list", "heading", "table", "row", "cell", "columnheader", "rowgroup"}

  predicate Wanted(e: Element) {
    e.hasState || (e.role.Some? && e.role.value in WANTED_ROLES)
  }

  /** The elements that may be in the tree at all, and above other elements of it. */
  predicate Shows(e: Element) {
    e.visible && e.tag != "script" && e.tag != "style" && e.tag != "noscript" && e.tag != "svg" && e.tag != "path" &&
    e.tag != "meta" && e.tag != "link" && e.tag != "br" && e.tag != "hr" && e.tag != "wbr"
  }

  /** A node of the result, with the element it stands for. */
  datatype Node = Node(source: Element, children: seq<Node>)

  /** The end of one call: what it returns for its element, given the subtrees of the children. */
  function Finish(e: Element, children: seq<Node>): Option<Node> {
    if !e.IsSemantic() && !e.HasDirectText() && children == [] then None
    else if !e.IsInteractive() && !e.IsLandmark() && !e.IsHeading() && e.role.None? && !e.hasName && !e.hasState &&
            |children| == 1 then Some(children[0])
    else Some(Node(e, children))
  }

  /** The tree for `e` and the value of the counter afterwards, starting from counter value `count`. */
  function Build(e: Element, depth: nat, count: nat): (Option<Node>, nat)
    decreases e, 1
  {
    if count > MAX_NODES || e.IsCut(depth) then (None, count)
    else
      var (children, counted) := BuildAll(e, |e.children|, depth + 1, count);
      (Finish(e, children), if IsCounted(e, children) then counted + 1 else counted)
  }

  /** A node of its own is made, and counted, unless the element is dropped or flattened. */
  predicate IsCounted(e: Element, children: seq<Node>) {
    (e.IsSemantic() || e.HasDirectText() || children != []) &&
    (e.IsInteractive() || e.IsLandmark() || e.IsHeading() || e.role.Some? || e.hasName || e.hasState || |children| != 1)
  }

  /** The subtrees of the first `n` children. */
  function BuildAll(parent: Element, n: nat, depth: nat, count: nat): (seq<Node>, nat)
    requires n <= |parent.children|
    decreases parent, 0, n
  {
    if n == 0 then ([], count)
    else
      var (nodes, before) := BuildAll(parent, n - 1, depth, count);
      var (node, counted) := Build(parent.children[n - 1], depth, before);
      (nodes + (if node.Some? then [node.value] else []), counted)
  }

  /** The script's closure: `nodeCount` is shared by all recursive calls. */
  class TreeBuilder {
    var nodeCount: nat

    constructor ()
      ensures nodeCount == 0
    {
      nodeCount := 0;
    }

    method BuildTree(e: Element, depth: nat) returns (node: Option<Node>)
      modifies this
      ensures (node, nodeCount) == Build(e, depth, old(nodeCount))
      decreases e
    {
      if depth > MAX_TREE_DEPTH || nodeCount > MAX_NODES { return None; }
      if !e.visible { return None; }
      if e.IsNoise() { return None; }
      var children := [];
      for i := 0 to |e.children|
        invariant (children, nodeCount) == BuildAll(e, i, depth + 1, old(nodeCount))
      {
        var subtree := BuildTree(e.children[i], depth + 1);
        assert children + [] == children;
        if subtree.Some? {
          children := children + [subtree.value];
        }
      }
      if !e.IsSemantic() && !e.HasDirectText() && children == [] { return None; }
      if !e.IsInteractive() && !e.IsLandmark() && !e.IsHeading() && e.role.None? && !e.hasName && !e.hasState &&
         |children| == 1 {
        return Some(children[0]);
      }
      nodeCount := nodeCount + 1;
      return Some(Node(e, children));
    }
  }

  // ---- Counting ----

  function Size(n: Node): nat {
    1 + SizeAll(n.children)
  }

  function SizeAll(ns: seq<Node>): nat {
    if ns == [] then 0 else SizeAll(ns[..|ns| - 1]) + Size(ns[|ns| - 1])
  }

  function SizeOf(n: Option<Node>): nat {
    if n.Some? then Size(n.value) else 0
  }

  lemma SizeAllPush(ns: seq<Node>, n: Option<Node>)
    ensures SizeAll(ns + if n.Some? then [n.value] else []) == SizeAll(ns) + SizeOf(n)
  {
    if n.Some? {
      assert (ns + [n.value])[..|ns|] == ns;
    } else {
      assert ns + [] == ns;
    }
  }

  /** The counter counts exactly the nodes of the result: nothing counted is lost, nothing is counted twice. */
  lemma {:induction false} CounterIsSize(e: Element, depth: nat, count: nat)
    ensures Build(e, depth, count).1 == count + SizeOf(Build(e, depth, count).0)
    decreases e, 1
  {
    if count <= MAX_NODES && !e.IsCut(depth) {
      CounterIsSizeAll(e, |e.children|, depth + 1, count);
      var children := BuildAll(e, |e.children|, depth + 1, count).0;
      if |children| == 1 { assert children[..0] == []; }
    }
  }

  lemma {:induction false} CounterIsSizeAll(parent: Element, n: nat, depth: nat, count: nat)
    requires n <= |parent.children|
    ensures BuildAll(parent, n, depth, count).1 == count + SizeAll(BuildAll(parent, n, depth, count).0)
    decreases parent, 0, n
  {
    if n > 0 {
      CounterIsSizeAll(parent, n - 1, depth, count);
      var (nodes, counted) := BuildAll(parent, n - 1, depth, count);
      CounterIsSize(parent.children[n - 1], depth, counted);
      SizeAllPush(nodes, Build(parent.children[n - 1], depth, counted).0);
    }
  }

  /** Once the cap has tripped only the ancestors still open are counted: at depth `d` at most 12 - d of them. */
  lemma {:induction false} CounterBound(e: Element, depth: nat, count: nat)
    ensures count > MAX_NODES ==> Build(e, depth, count).1 == count
    ensures count <= MAX_NODES ==> Build(e, depth, count).1 <= MAX_NODES + 1 + if depth <= 12 then 12 - depth else 0
    decreases e, 1
  {
    if count <= MAX_NODES && !e.IsCut(depth) {
      CounterBoundAll(e, |e.children|, depth + 1, count);
    }
  }

  lemma {:induction false} CounterBoundAll(parent: Element, n: nat, depth: nat, count: nat)
    requires n <= |parent.children| && count <= MAX_NODES
    ensures BuildAll(parent, n, depth, count).1 <= if depth <= 12 then MAX_NODES + 1 + 12 - depth else count
    decreases parent, 0, n
  {
    if n > 0 {
      CounterBoundAll(parent, n - 1, depth, count);
      CounterBound(parent.children[n - 1], depth, BuildAll(parent, n - 1, depth, count).1);
    }
  }

  /** From the root the counter, and so the tree, never exceeds 301 plus the 12 open ancestors. */
  lemma RootBound(root: Element)
    ensures Build(root, 0, 0).1 <= 313
    ensures SizeOf(Build(root, 0, 0).0) <= 313
  {
    CounterBound(root, 0, 0);
    CounterIsSize(root, 0, 0);
  }

  /** A landmark that is kept whatever its children are. */
  function Landmark(children: seq<Element>): Element {
    Element(0, true, "nav", Some("navigation"), false, false, false, children)
  }

  /** `levels` nested landmarks around 301 landmarks side by side. */
  function DeepPage(levels: nat): Element {
    if levels == 0 then Landmark(seq(301, _ => Landmark([]))) else Landmark([DeepPage(levels - 1)])
  }

  lemma {:induction false} WideCount(wide: Element, n: nat)
    requires wide == DeepPage(0) && n <= 301
    ensures BuildAll(wide, n, 12, 0).1 == n
  {
    if n > 0 {
      WideCount(wide, n - 1);
      assert wide.children[n - 1] == Landmark([]);
      assert Build(Landmark([]), 12, n - 1).1 == n;
    }
  }

  lemma {:induction false} DeepCount(levels: nat)
    requires levels <= 11
    ensures Build(DeepPage(levels), 11 - levels, 0).1 == 302 + levels
  {
    var page, depth := DeepPage(levels), 11 - levels;
    if levels == 0 {
      WideCount(page, 301);
      assert Build(page, 11, 0).1 == BuildAll(page, 301, 12, 0).1 + 1;
    } else {
      DeepCount(levels - 1);
      assert page.children == [DeepPage(levels - 1)];
      assert BuildAll(page, 0, depth + 1, 0) == ([], 0);
      assert BuildAll(page, 1, depth + 1, 0).1 == Build(DeepPage(levels - 1), depth + 1, 0).1;
      assert Build(page, depth, 0).1 == BuildAll(page, 1, depth + 1, 0).1 + 1;
    }
  }

  /** The bound is reached. */
  lemma RootBoundIsReached()
    ensures Build(DeepPage(11), 0, 0).1 == 313
  {
    DeepCount(11);
  }

  // ---- What survives ----

  /**
   * Each wanted element from `e` down, within depth 12 and with nothing hidden above it, in document order, as the
   * path of wanted elements down to it.
   */
  function SemanticPaths(e: Element, depth: nat, above: seq<nat>): seq<seq<nat>>
    decreases e, 1
  {
    if depth > 12 || !Shows(e) then []
    else if Wanted(e) then [above + [e.id]] + SemanticPathsAll(e, |e.children|, depth + 1, above + [e.id])
    else SemanticPathsAll(e, |e.children|, depth + 1, above)
  }

  function SemanticPathsAll(parent: Element, n: nat, depth: nat, above: seq<nat>): seq<seq<nat>>
    requires n <= |parent.children|
    decreases parent, 0, n
  {
    if n == 0 then []
    else SemanticPathsAll(parent, n - 1, depth, above) + SemanticPaths(parent.children[n - 1], depth, above)
  }

  /** The same reading of a result: its semantic nodes in preorder, each as the path of semantic nodes down to it. */
  function NodePaths(n: Node, above: seq<nat>): seq<seq<nat>> {
    if Wanted(n.source) then [above + [n.source.id]] + NodePathsAll(n.children, above + [n.source.id])
    else NodePathsAll(n.children, above)
  }

  function NodePathsAll(ns: seq<Node>, above: seq<nat>): seq<seq<nat>> {
    if ns == [] then [] else NodePathsAll(ns[..|ns| - 1], above) + NodePaths(ns[|ns| - 1], above)
  }

  function NodePathsOf(n: Option<Node>, above: seq<nat>): seq<seq<nat>> {
    if n.Some? then NodePaths(n.value, above) else []
  }

  // ---- Which elements may be in the tree ----

  /** `x` is reached from `e` at `depth` through elements that show, at depth 12 or less. */
  ghost predicate Reached(e: Element, depth: nat, x: Element) {
    depth <= 12 && Shows(e) && (x == e || exists c <- e.children :: Reached(c, depth + 1, x))
  }

  ghost predicate HasNodeFor(n: Node, x: Element) {
    n.source == x || exists c <- n.children :: HasNodeFor(c, x)
  }

  /** Nothing hidden, no noise and nothing below it or too deep gets a node. */
  lemma {:induction false} NodesAreReached(e: Element, depth: nat, count: nat, x: Element)
    requires Build(e, depth, count).0.Some? && HasNodeFor(Build(e, depth, count).0.value, x)
    ensures Reached(e, depth, x) && Shows(x)
    decreases e, 1
  {
    var (children, counted) := BuildAll(e, |e.children|, depth + 1, count);
    if x != e {
      var n := Build(e, depth, count).0.value;
      assert exists c <- children :: HasNodeFor(c, x) by {
        if n == Node(e, children) { assert n.source != x; } else { assert n == children[0] && n in children; }
      }
      var c :| c in children && HasNodeFor(c, x);
      NodesBelowAreReached(e, |e.children|, depth + 1, count, c, x);
    }
  }

  lemma {:induction false} NodesBelowAreReached(parent: Element, n: nat, depth: nat, count: nat, node: Node, x: Element)
    requires n <= |parent.children| && node in BuildAll(parent, n, depth, count).0 && HasNodeFor(node, x)
    ensures (exists c <- parent.children :: Reached(c, depth, x)) && Shows(x)
    decreases parent, 0, n
  {
    var (nodes, before) := BuildAll(parent, n - 1, depth, count);
    if node in nodes {
      NodesBelowAreReached(parent, n - 1, depth, count, node, x);
    } else {
      NodesAreReached(parent.children[n - 1], depth, before, x);
      assert parent.children[n - 1] in parent.children;
    }
  }

  // ---- When an element has a node of its own ----

  /** While the cap is not hit, `e` leaves something in the tree. */
  predicate Yields(e: Element, depth: nat) {
    depth <= 12 && Shows(e) && (Wanted(e) || e.hasTextNode || exists c <- e.children :: Yields(c, depth + 1))
  }

  /** How many of the first `n` children do. */
  function YieldCount(parent: Element, n: nat, depth: nat): nat
    requires n <= |parent.children|
  {
    if n == 0 then 0 else YieldCount(parent, n - 1, depth) + if Yields(parent.children[n - 1], depth) then 1 else 0
  }

  lemma {:induction false} NoneYields(parent: Element, n: nat, depth: nat)
    requires n <= |parent.children|
    ensures YieldCount(parent, n, depth) == 0 <==> forall i | 0 <= i < n :: !Yields(parent.children[i], depth)
  {
    if n > 0 { NoneYields(parent, n - 1, depth); }
  }

  lemma SomeYields(e: Element, depth: nat)
    ensures (exists c <- e.children :: Yields(c, depth + 1)) <==> YieldCount(e, |e.children|, depth + 1) != 0
  {
    NoneYields(e, |e.children|, depth + 1);
    assert forall i | 0 <= i < |e.children| :: e.children[i] in e.children;
  }

  /** What a call returns stands for its own element or for one below it. */
  lemma {:induction false} BuiltFromBelow(e: Element, depth: nat, count: nat)
    ensures var r := Build(e, depth, count).0; r.Some? ==> r.value.source == e || (e decreases to r.value.source)
    decreases e, 1
  {
    if count <= MAX_NODES && !e.IsCut(depth) { BuiltFromChildren(e, |e.children|, depth + 1, count); }
  }

  lemma {:induction false} BuiltFromChildren(parent: Element, n: nat, depth: nat, count: nat)
    requires n <= |parent.children|
    ensures forall node <- BuildAll(parent, n, depth, count).0 :: (parent decreases to node.source)
    decreases parent, 0, n
  {
    if n > 0 {
      BuiltFromChildren(parent, n - 1, depth, count);
      BuiltFromBelow(parent.children[n - 1], depth, BuildAll(parent, n - 1, depth, count).1);
    }
  }

  lemma {:induction false} BuiltIffYields(e: Element, depth: nat, count: nat)
    requires Build(e, depth, count).1 <= MAX_NODES
    ensures Build(e, depth, count).0.Some? <==> Yields(e, depth)
    decreases e, 1
  {
    CounterGrows(e, depth, count);
    if !e.IsCut(depth) {
      BuiltAreYielded(e, |e.children|, depth + 1, count);
      SomeYields(e, depth);
    }
  }

  lemma {:induction false} BuiltAreYielded(parent: Element, n: nat, depth: nat, count: nat)
    requires n <= |parent.children| && BuildAll(parent, n, depth, count).1 <= MAX_NODES
    ensures |BuildAll(parent, n, depth, count).0| == YieldCount(parent, n, depth)
    decreases parent, 0, n
  {
    if n > 0 {
      var before := BuildAll(parent, n - 1, depth, count).1;
      CounterGrows(parent.children[n - 1], depth, before);
      BuiltAreYielded(parent, n - 1, depth, count);
      BuiltIffYields(parent.children[n - 1], depth, before);
    }
  }

  /** It leaves something in the tree and has a role, a name or a state, or not just one child that leaves something. */
  predicate HasOwnNode(e: Element, depth: nat) {
    Yields(e, depth) && (e.role.Some? || e.hasName || e.hasState || YieldCount(e, |e.children|, depth + 1) != 1)
  }

  /** For every page, while the counter has not passed the cap, exactly these elements have a node of their own. */
  lemma OwnNodeIff(e: Element, depth: nat, count: nat)
    requires Build(e, depth, count).1 <= MAX_NODES
    ensures var r := Build(e, depth, count).0; r.Some? && r.value.source == e <==> HasOwnNode(e, depth)
  {
    CounterGrows(e, depth, count);
    BuiltIffYields(e, depth, count);
    if !e.IsCut(depth) {
      var (children, counted) := BuildAll(e, |e.children|, depth + 1, count);
      BuiltAreYielded(e, |e.children|, depth + 1, count);
      BuiltFromChildren(e, |e.children|, depth + 1, count);
      assert |children| == 1 ==> children[0] in children;
    }
  }

  /**
   * So direct text keeps its element's node exactly if the element has a role or a name, or not just one such child.
   */
  lemma TextKeepsItsNodeIff(e: Element, depth: nat, count: nat)
    requires e.HasDirectText() && !e.IsCut(depth) && Build(e, depth, count).1 <= MAX_NODES
    ensures var r := Build(e, depth, count).0;
            r.Some? &&
            (r.value.source == e <==> e.role.Some? || e.hasName || YieldCount(e, |e.children|, depth + 1) != 1)
  {
    BuiltIffYields(e, depth, count);
    OwnNodeIff(e, depth, count);
  }

  // ---- When the cap is passed ----

  /** The elements of the page, from `e` down, that would have a node of their own without the cap. */
  function PageNodes(e: Element, depth: nat): nat
    decreases e, 1
  {
    if depth > 12 || !Shows(e) then 0
    else PageNodesAll(e, |e.children|, depth + 1) + if HasOwnNode(e, depth) then 1 else 0
  }

  function PageNodesAll(parent: Element, n: nat, depth: nat): nat
    requires n <= |parent.children|
    decreases parent, 0, n
  {
    if n == 0 then 0 else PageNodesAll(parent, n - 1, depth) + PageNodes(parent.children[n - 1], depth)
  }

  /**
   * The counter stays within the cap exactly if there is room for all of these, and then it has counted each of them.
   */
  lemma {:induction false} WithinCapIff(e: Element, depth: nat, count: nat)
    ensures Build(e, depth, count).1 <= MAX_NODES <==> count + PageNodes(e, depth) <= MAX_NODES
    ensures Build(e, depth, count).1 <= MAX_NODES ==> Build(e, depth, count).1 == count + PageNodes(e, depth)
    decreases e, 1
  {
    if count <= MAX_NODES && !e.IsCut(depth) {
      WithinCapAllIff(e, |e.children|, depth + 1, count);
      if BuildAll(e, |e.children|, depth + 1, count).1 <= MAX_NODES { CountedIffOwnNode(e, depth, count); }
    }
  }

  lemma CountedIffOwnNode(e: Element, depth: nat, count: nat)
    requires !e.IsCut(depth) && BuildAll(e, |e.children|, depth + 1, count).1 <= MAX_NODES
    ensures IsCounted(e, BuildAll(e, |e.children|, depth + 1, count).0) <==> HasOwnNode(e, depth)
  {
    BuiltAreYielded(e, |e.children|, depth + 1, count);
    SomeYields(e, depth);
  }

  lemma {:induction false} WithinCapAllIff(parent: Element, n: nat, depth: nat, count: nat)
    requires n <= |parent.children| && count <= MAX_NODES
    ensures BuildAll(parent, n, depth, count).1 <= MAX_NODES <==> count + PageNodesAll(parent, n, depth) <= MAX_NODES
    ensures BuildAll(parent, n, depth, count).1 <= MAX_NODES ==>
              BuildAll(parent, n, depth, count).1 == count + PageNodesAll(parent, n, depth)
    decreases parent, 0, n
  {
    if n > 0 {
      WithinCapAllIff(parent, n - 1, depth, count);
      WithinCapIff(parent.children[n - 1], depth, BuildAll(parent, n - 1, depth, count).1);
    }
  }

  /** A page with room for all its nodes loses no semantic element: its tree has them all, each below the same ones. */
  lemma SmallPageIsComplete(root: Element)
    requires PageNodes(root, 0) <= MAX_NODES
    ensures NodePathsOf(Build(root, 0, 0).0, []) == SemanticPaths(root, 0, [])
    ensures Build(root, 0, 0).1 == PageNodes(root, 0)
  {
    WithinCapIff(root, 0, 0);
    SemanticElementsSurvive(root, 0, 0, []);
  }

  /** Text does not keep a plain wrapper: around one button it is flattened away, and its own text is lost. */
  lemma TextWrapperVanishes(e: Element, button: Element, depth: nat, count: nat)
    requires e.HasDirectText() && e.role.None? && !e.hasName && !e.hasState && e.children == [button]
    requires button.IsInteractive() && button.children == []
    requires !e.IsCut(depth) && !button.IsCut(depth + 1) && count <= MAX_NODES
    ensures Build(e, depth, count).0 == Some(Node(button, []))
  {
    assert Build(button, depth + 1, count).0 == Some(Node(button, []));
    assert BuildAll(e, 0, depth + 1, count) == ([], count);
    assert BuildAll(e, 1, depth + 1, count).0 == [Node(button, [])];
  }

  lemma NodePathsAllPush(ns: seq<Node>, n: Option<Node>, above: seq<nat>)
    ensures NodePathsAll(ns + (if n.Some? then [n.value] else []), above) ==
            NodePathsAll(ns, above) + NodePathsOf(n, above)
  {
    if n.Some? {
      assert (ns + [n.value])[..|ns|] == ns;
    } else {
      assert ns + [] == ns;
    }
  }

  lemma NodePathsSingle(n: Node, above: seq<nat>)
    ensures NodePathsAll([n], above) == NodePaths(n, above)
  {
    assert [n][..0] == [];
    assert NodePathsAll([n], above) == NodePathsAll([], above) + NodePaths(n, above);
  }

  lemma PrefixesAppend(a: seq<seq<nat>>, b: seq<seq<nat>>, x: seq<seq<nat>>, y: seq<seq<nat>>)
    requires a <= x && b <= y
    ensures a == x || b == [] ==> a + b <= x + y
    ensures a == x && b == y ==> a + b == x + y
  {
  }

  lemma {:induction false} CounterGrows(e: Element, depth: nat, count: nat)
    ensures Build(e, depth, count).1 >= count
  {
    CounterIsSize(e, depth, count);
  }

  /**
   * For every page: the semantic elements that survive are, in document order and each with exactly its
   * semantic ancestors, a prefix of all of them, and all of them if the cap has not tripped by the end.
   */
  lemma {:induction false} SemanticElementsSurvive(e: Element, depth: nat, count: nat, above: seq<nat>)
    ensures NodePathsOf(Build(e, depth, count).0, above) <= SemanticPaths(e, depth, above)
    ensures Build(e, depth, count).1 <= MAX_NODES ==>
              NodePathsOf(Build(e, depth, count).0, above) == SemanticPaths(e, depth, above)
    decreases e, 1
  {
    if count <= MAX_NODES && !e.IsCut(depth) {
      var below := if e.IsSemantic() then above + [e.id] else above;
      SemanticElementsSurviveAll(e, |e.children|, depth + 1, count, below);
      var children := BuildAll(e, |e.children|, depth + 1, count).0;
      if |children| == 1 { NodePathsSingle(children[0], above); }
    }
  }

  lemma {:induction false} SemanticElementsSurviveAll(parent: Element, n: nat, depth: nat, count: nat, above: seq<nat>)
    requires n <= |parent.children|
    ensures NodePathsAll(BuildAll(parent, n, depth, count).0, above) <= SemanticPathsAll(parent, n, depth, above)
    ensures BuildAll(parent, n, depth, count).1 <= MAX_NODES ==>
              NodePathsAll(BuildAll(parent, n, depth, count).0, above) == SemanticPathsAll(parent, n, depth, above)
    decreases parent, 0, n
  {
    if n > 0 {
      var (nodes, counted) := BuildAll(parent, n - 1, depth, count);
      var last := parent.children[n - 1];
      SemanticElementsSurviveAll(parent, n - 1, depth, count, above);
      SemanticElementsSurvive(last, depth, counted, above);
      CounterGrows(last, depth, counted);
      PrefixesAppend(NodePathsAll(nodes, above), NodePathsOf(Build(last, depth, counted).0, above),
                     SemanticPathsAll(parent, n - 1, depth, above), SemanticPaths(last, depth, above));
      NodePathsAllPush(nodes, Build(last, depth, counted).0, above);
    }
  }
}
