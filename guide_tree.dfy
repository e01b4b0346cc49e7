/** The guide book's menu tree as an arena: every NodePageLine ever allocated is
    an entry of a sequence, and its index is its object identity. A node's
    children are the indices of the nodes added under it, always allocated
    after it. */
module GuideTree {
  import opened Seqs

  datatype Option<T> = None | Some(value: T)

  /** The icons a category line shows in front of its text. */
  datatype Icon = BoxMinus | BoxSelectedMinus | BoxPlus | BoxSelectedPlus

  /** A line of the menu: `category` holds the untranslated text of the
      category it stands for (absent on page title lines), `link` is set on
      page title lines. */
  datatype PageLine = PageLine(
    startIcon: Option<Icon>,
    startIconHovered: Option<Icon>,
    indent: int,
    text: string,
    category: Option<string>,
    link: bool)

  /** A tree node: the root wraps no line. */
  datatype Node = Node(line: Option<PageLine>, children: seq<nat>, expanded: bool)

  /** The text a child is matched on; the root, which is never a child, has none. */
  function Text(n: Node): string {
    if n.line.Some? then n.line.value.text else ""
  }

  function Indent(n: Node): int {
    if n.line.Some? then n.line.value.indent else 0
  }

  predicate IsCategory(n: Node) {
    n.line.Some? && !n.line.value.link
  }

  /** Children are allocated after their parent. */
  predicate WellFormed(nodes: seq<Node>) {
    forall n, j :: 0 <= n < |nodes| && 0 <= j < |nodes[n].children| ==> n < nodes[n].children[j] < |nodes|
  }

  /** Every child is indented one step further than its parent (the root counts as 0). */
  predicate IndentsFollowDepth(nodes: seq<Node>)
    requires WellFormed(nodes)
  {
    forall n, j :: 0 <= n < |nodes| && 0 <= j < |nodes[n].children| ==>
      Indent(nodes[nodes[n].children[j]]) == Indent(nodes[n]) + 1
  }

  /** A category child never repeats the text of an earlier sibling. */
  predicate CategoriesUnique(nodes: seq<Node>)
    requires WellFormed(nodes)
  {
    forall n, i, j :: 0 <= n < |nodes| && 0 <= i < j < |nodes[n].children| && IsCategory(nodes[nodes[n].children[j]]) ==>
      Text(nodes[nodes[n].children[i]]) != Text(nodes[nodes[n].children[j]])
  }

  predicate IdsIn(nodes: seq<Node>, ids: seq<nat>) {
    forall j :: 0 <= j < |ids| ==> ids[j] < |nodes|
  }

  /** Position of the first of `ids` whose text is `text`; `|ids|` when none is. */
  function FirstMatch(nodes: seq<Node>, ids: seq<nat>, text: string): (k: nat)
    requires IdsIn(nodes, ids)
    ensures k <= |ids|
    ensures forall j :: 0 <= j < k ==> Text(nodes[ids[j]]) != text
    ensures k < |ids| ==> Text(nodes[ids[k]]) == text
    decreases |ids|
  {
    if ids == [] then 0
    else if Text(nodes[ids[0]]) == text then 0
    else 1 + FirstMatch(nodes, ids[1..], text)
  }

  /** The child of `n` that a path step `text` descends into. */
  function Step(nodes: seq<Node>, n: nat, text: string): (r: Option<nat>)
    requires WellFormed(nodes) && n < |nodes|
    ensures r.Some? ==> n < r.value < |nodes| && r.value in nodes[n].children && Text(nodes[r.value]) == text
    ensures r.None? <==> forall j :: 0 <= j < |nodes[n].children| ==> Text(nodes[nodes[n].children[j]]) != text
  {
    var children := nodes[n].children;
    var k := FirstMatch(nodes, children, text);
    if k < |children| then Some(children[k]) else None
  }

  /** The node reached from `n` by descending along `path`, one step per text. */
  function Follow(nodes: seq<Node>, n: nat, path: seq<string>): (r: Option<nat>)
    requires WellFormed(nodes) && n < |nodes|
    ensures r.Some? ==> n <= r.value < |nodes|
    decreases |path|
  {
    if path == [] then Some(n)
    else
      match Follow(nodes, n, path[..|path| - 1])
      case None => None
      case Some(m) => Step(nodes, m, path[|path| - 1])
  }

  /** NodePageLine.addChild: a new node for `line` becomes the last child of `parent`. */
  function AddChild(nodes: seq<Node>, parent: nat, line: PageLine, expanded: bool): (r: seq<Node>)
    requires parent < |nodes|
    ensures |r| == |nodes| + 1
    ensures r[|nodes|] == Node(Some(line), [], expanded)
    ensures r[parent].children == nodes[parent].children + [|nodes|]
    ensures forall m :: 0 <= m < |nodes| ==> r[m].line == nodes[m].line && r[m].expanded == nodes[m].expanded
    ensures forall m :: 0 <= m < |nodes| && m != parent ==> r[m] == nodes[m]
  {
    nodes[parent := nodes[parent].(children := nodes[parent].children + [|nodes|])] + [Node(Some(line), [], expanded)]
  }

  /** `b` is `a` after more nodes were allocated and more children appended:
      existing lines, flags and children lists are kept as prefixes. */
  predicate Extends(a: seq<Node>, b: seq<Node>) {
    |a| <= |b| &&
    forall m :: 0 <= m < |a| ==> b[m].line == a[m].line && b[m].expanded == a[m].expanded && a[m].children <= b[m].children
  }

  lemma ExtendsTransitive(a: seq<Node>, b: seq<Node>, c: seq<Node>)
    requires Extends(a, b) && Extends(b, c)
    ensures Extends(a, c)
  {
    forall m | 0 <= m < |a| ensures a[m].children <= c[m].children {
      assert a[m].children <= b[m].children <= c[m].children;
    }
  }

  /** The invariant every menu tree keeps. */
  predicate Consistent(nodes: seq<Node>) {
    WellFormed(nodes) && IndentsFollowDepth(nodes) && CategoriesUnique(nodes)
  }

  /** Adding a child keeps children allocated after their parents, and only grows the arena. */
  lemma AddChildWellFormed(nodes: seq<Node>, parent: nat, line: PageLine, expanded: bool)
    requires WellFormed(nodes) && parent < |nodes|
    ensures WellFormed(AddChild(nodes, parent, line, expanded))
    ensures Extends(nodes, AddChild(nodes, parent, line, expanded))
  {
    var r := AddChild(nodes, parent, line, expanded);
    forall n, j | 0 <= n < |r| && 0 <= j < |r[n].children|
      ensures n < r[n].children[j] < |r|
    {
      if n == parent && j == |nodes[parent].children| {
      } else if n < |nodes| {
        assert r[n].children[j] == nodes[n].children[j];
      }
    }
  }

  /** Adding a child extends the arena, and keeps it consistent when the child is
      indented one step past its parent and, for a category, no sibling has its text. */
  lemma AddChildConsistent(nodes: seq<Node>, parent: nat, line: PageLine, expanded: bool)
    requires Consistent(nodes) && parent < |nodes|
    requires line.indent == Indent(nodes[parent]) + 1
    requires !line.link ==> Step(nodes, parent, line.text).None?
    ensures Extends(nodes, AddChild(nodes, parent, line, expanded))
    ensures Consistent(AddChild(nodes, parent, line, expanded))
  {
    var r := AddChild(nodes, parent, line, expanded);
    var old_children := nodes[parent].children;
    AddChildWellFormed(nodes, parent, line, expanded);
    forall n, j | 0 <= n < |r| && 0 <= j < |r[n].children|
      ensures Indent(r[r[n].children[j]]) == Indent(r[n]) + 1
    {
      if n == parent && j == |old_children| {
      } else {
        assert r[n].children[j] == nodes[n].children[j];
      }
    }
    forall n, i, j | 0 <= n < |r| && 0 <= i < j < |r[n].children| && IsCategory(r[r[n].children[j]])
      ensures Text(r[r[n].children[i]]) != Text(r[r[n].children[j]])
    {
      if n == parent && j == |old_children| {
        assert r[n].children[i] == old_children[i];
      } else {
        assert r[n].children[i] == nodes[n].children[i] && r[n].children[j] == nodes[n].children[j];
      }
    }
  }

  /** A step that matched no child of `parent` reaches the child just added
      with that text. */
  lemma StepToNewChild(nodes: seq<Node>, parent: nat, line: PageLine, expanded: bool)
    requires WellFormed(nodes) && parent < |nodes| && Step(nodes, parent, line.text).None?
    ensures WellFormed(AddChild(nodes, parent, line, expanded))
    ensures Step(AddChild(nodes, parent, line, expanded), parent, line.text) == Some(|nodes|)
  {
    AddChildWellFormed(nodes, parent, line, expanded);
    var r := AddChild(nodes, parent, line, expanded);
    var c := nodes[parent].children;
    var k := FirstMatch(r, r[parent].children, line.text);
    assert r[parent].children[|c|] == |nodes|;
  }

  /** A match found among the first children is still found once the arena grows. */
  lemma StepExtends(a: seq<Node>, b: seq<Node>, m: nat, text: string)
    requires WellFormed(a) && WellFormed(b) && Extends(a, b) && m < |a|
    requires Step(a, m, text).Some?
    ensures Step(b, m, text) == Step(a, m, text)
  {
    var ca, cb := a[m].children, b[m].children;
    var k := FirstMatch(a, ca, text);
    var k' := FirstMatch(b, cb, text);
    assert cb[k] == ca[k] && Text(b[ca[k]]) == Text(a[ca[k]]);
  }

  /** Growing the arena never changes the node an existing path leads to. */
  lemma {:induction false} FollowExtends(a: seq<Node>, b: seq<Node>, n: nat, path: seq<string>)
    requires WellFormed(a) && WellFormed(b) && Extends(a, b) && n < |a|
    requires Follow(a, n, path).Some?
    ensures Follow(b, n, path) == Follow(a, n, path)
    decreases |path|
  {
    if path != [] {
      var init := path[..|path| - 1];
      FollowExtends(a, b, n, init);
      StepExtends(a, b, Follow(a, n, init).value, path[|path| - 1]);
    }
  }

  /** Following a path from the root (indent 0) ends at a node indented by the
      length of the path. */
  lemma {:induction false} FollowIndent(nodes: seq<Node>, root: nat, path: seq<string>)
    requires Consistent(nodes) && root < |nodes| && nodes[root].line.None?
    requires Follow(nodes, root, path).Some?
    ensures Indent(nodes[Follow(nodes, root, path).value]) == |path|
    decreases |path|
  {
    if path != [] {
      var init := path[..|path| - 1];
      FollowIndent(nodes, root, init);
      var m := Follow(nodes, root, init).value;
      var children := nodes[m].children;
      var k := FirstMatch(nodes, children, path[|path| - 1]);
      assert Follow(nodes, root, path).value == children[k];
    }
  }

  /** Following one more step of a path takes one more `Step` from where the
      shorter path led. */
  lemma FollowPrefixStep(nodes: seq<Node>, n: nat, path: seq<string>, i: nat, m: nat)
    requires WellFormed(nodes) && n < |nodes| && i < |path|
    requires Follow(nodes, n, path[..i]) == Some(m)
    ensures Follow(nodes, n, path[..i + 1]) == Step(nodes, m, path[i])
  {
    assert path[..i + 1][..i] == path[..i];
  }

  /** The search of `node`'s children for one whose text is `translated`; the
      first match wins. */
  method FindChild(nodes: seq<Node>, node: nat, translated: string) returns (found: Option<nat>)
    requires WellFormed(nodes) && node < |nodes|
    ensures found == Step(nodes, node, translated)
  {
    found := None;
    var children := nodes[node].children;
    for c := 0 to |children|
      invariant forall j :: 0 <= j < c ==> Text(nodes[children[j]]) != translated
    {
      if translated == Text(nodes[children[c]]) {
        found := Some(children[c]);
        break;
      }
    }
  }

  /** A category line as the walk creates it: expanded-looking icons, not a link. */
  function CategoryLine(indent: int, translated: string, category: string): (r: PageLine)
    ensures var n := Node(Some(r), [], false);
      IsCategory(n) && Text(n) == translated && Indent(n) == indent && r.category == Some(category)
    ensures r.startIcon == Some(BoxMinus) && r.startIconHovered == Some(BoxSelectedMinus)
  {
    PageLine(Some(BoxMinus), Some(BoxSelectedMinus), indent, translated, Some(category), false)
  }

  /** The title line of a page: no icon, a link. */
  function TitleLine(indent: int, translatedTitle: string): (r: PageLine)
    ensures var n := Node(Some(r), [], false);
      !IsCategory(n) && Text(n) == translatedTitle && Indent(n) == indent && r.category.None?
    ensures r.startIcon.None? && r.startIconHovered.None?
  {
    PageLine(None, None, indent, translatedTitle, None, true)
  }

  /** The nodes below `n` are the same in `a` and `b`. */
  predicate SameBelow(a: seq<Node>, b: seq<Node>, n: nat)
    requires n <= |a| && n <= |b|
  {
    forall m :: 0 <= m < n ==> b[m] == a[m]
  }

  /** The nodes from `from` up to `to` are category lines as the walk creates them. */
  predicate NewCategories(nodes: seq<Node>, from: nat, to: nat, expanded: bool)
    requires to <= |nodes|
  {
    forall m :: from <= m < to ==>
      nodes[m].expanded == expanded && nodes[m].line.Some? && nodes[m].line.value.startIcon == Some(BoxMinus)
      && nodes[m].line.value.startIconHovered == Some(BoxSelectedMinus) && !nodes[m].line.value.link
  }

  /** One step of the walk down a page's category path, as a value: the arena
      and the node reached. The first child of `node` with the text is reused;
      when there is none, a category child is added under `node` and nowhere else. */
  function DescendStep(nodes: seq<Node>, node: nat, translated: string, category: string, indent: int, expanded: bool)
    : (r: (seq<Node>, nat))
    requires WellFormed(nodes) && node < |nodes|
    ensures WellFormed(r.0) && Extends(nodes, r.0) && node < r.1 < |r.0|
  {
    match Step(nodes, node, translated)
    case Some(child) => (nodes, child)
    case None =>
      var line := CategoryLine(indent, translated, category);
      AddChildWellFormed(nodes, node, line, expanded);
      (AddChild(nodes, node, line, expanded), |nodes|)
  }

  /** The arena and the node reached after the first `k` steps of the walk from
      `root` down a page's category path; step `i` is indented by `i + 1`. */
  function WalkTo(nodes: seq<Node>, root: nat, translate: string -> string, categories: seq<string>, k: nat, expanded: bool)
    : (r: (seq<Node>, nat))
    requires WellFormed(nodes) && root < |nodes| && k <= |categories|
    ensures WellFormed(r.0) && Extends(nodes, r.0) && root <= r.1 < |r.0|
  {
    if k == 0 then (nodes, root)
    else
      var prev := WalkTo(nodes, root, translate, categories, k - 1, expanded);
      var step := DescendStep(prev.0, prev.1, translate(categories[k - 1]), categories[k - 1], k, expanded);
      ExtendsTransitive(nodes, prev.0, step.0);
      step
  }

  /** The arena after one page is inserted below `root`: the walk down its whole
      path, then its title line as the last child of the node reached. Nothing
      else is added or linked. */
  function Inserted(nodes: seq<Node>, root: nat, categories: seq<string>, translate: string -> string,
                    title: string, expanded: bool): (r: seq<Node>)
    requires WellFormed(nodes) && root < |nodes|
    ensures WellFormed(r) && Extends(nodes, r) && |nodes| < |r|
  {
    var w := WalkTo(nodes, root, translate, categories, |categories|, expanded);
    var line := TitleLine(|categories| + 1, translate(title));
    AddChildWellFormed(w.0, w.1, line, expanded);
    ExtendsTransitive(nodes, w.0, AddChild(w.0, w.1, line, expanded));
    AddChild(w.0, w.1, line, expanded)
  }

  /** Node `m` is a child of a node from `r` on that comes before it. */
  predicate HasParent(nodes: seq<Node>, r: nat, m: nat) {
    exists p :: r <= p < m && p < |nodes| && m in nodes[p].children
  }

  /** Every node allocated after `r` hangs under an earlier node from `r` on. */
  predicate Rooted(nodes: seq<Node>, r: nat) {
    forall m :: r < m < |nodes| ==> HasParent(nodes, r, m)
  }

  /** `chain` descends from its first node to its last one child at a time. */
  predicate Chain(nodes: seq<Node>, chain: seq<nat>) {
    forall i :: 0 <= i < |chain| - 1 ==> chain[i] < |nodes| && chain[i + 1] in nodes[chain[i]].children
  }

  /** Adding a child under a node from `r` on keeps every node above `r` hanging under `r`. */
  lemma AddChildRooted(nodes: seq<Node>, r: nat, parent: nat, line: PageLine, expanded: bool)
    requires Rooted(nodes, r) && r <= parent < |nodes|
    ensures Rooted(AddChild(nodes, parent, line, expanded), r)
  {
    var a := AddChild(nodes, parent, line, expanded);
    forall m | r < m < |a| ensures HasParent(a, r, m) {
      if m == |nodes| {
        assert a[parent].children[|nodes[parent].children|] == m;
      } else {
        assert HasParent(nodes, r, m);
        var p :| r <= p < m && p < |nodes| && m in nodes[p].children;
        assert nodes[p].children <= a[p].children;
      }
    }
  }

  lemma DescendStepRooted(nodes: seq<Node>, r: nat, node: nat, translated: string, category: string, indent: int, expanded: bool)
    requires WellFormed(nodes) && Rooted(nodes, r) && r <= node < |nodes|
    ensures Rooted(DescendStep(nodes, node, translated, category, indent, expanded).0, r)
  {
    if Step(nodes, node, translated).None? {
      AddChildRooted(nodes, r, node, CategoryLine(indent, translated, category), expanded);
    }
  }

  lemma {:induction false} WalkToRooted(nodes: seq<Node>, root: nat, translate: string -> string, categories: seq<string>,
                                        k: nat, expanded: bool)
    requires WellFormed(nodes) && root < |nodes| && k <= |categories| && Rooted(nodes, root)
    ensures Rooted(WalkTo(nodes, root, translate, categories, k, expanded).0, root)
  {
    if k > 0 {
      WalkToRooted(nodes, root, translate, categories, k - 1, expanded);
      var prev := WalkTo(nodes, root, translate, categories, k - 1, expanded);
      DescendStepRooted(prev.0, root, prev.1, translate(categories[k - 1]), categories[k - 1], k, expanded);
    }
  }

  /** Inserting a page keeps every node above the root hanging under it. */
  lemma InsertedRooted(nodes: seq<Node>, root: nat, categories: seq<string>, translate: string -> string,
                       title: string, expanded: bool)
    requires WellFormed(nodes) && root < |nodes| && Rooted(nodes, root)
    ensures Rooted(Inserted(nodes, root, categories, translate, title, expanded), root)
  {
    var w := WalkTo(nodes, root, translate, categories, |categories|, expanded);
    WalkToRooted(nodes, root, translate, categories, |categories|, expanded);
    AddChildRooted(w.0, root, w.1, TitleLine(|categories| + 1, translate(title)), expanded);
  }

  /** In a rooted arena, every node above `r` is reached from `r` by a chain of children. */
  lemma RootedReaches(nodes: seq<Node>, r: nat, m: nat)
    requires Rooted(nodes, r) && r < m < |nodes|
    ensures exists chain :: |chain| >= 2 && chain[0] == r && chain[|chain| - 1] == m && Chain(nodes, chain)
    decreases m
  {
    assert HasParent(nodes, r, m);
    var p :| r <= p < m && p < |nodes| && m in nodes[p].children;
    if p == r {
      assert Chain(nodes, [r, m]);
    } else {
      RootedReaches(nodes, r, p);
      var c :| |c| >= 2 && c[0] == r && c[|c| - 1] == p && Chain(nodes, c);
      var c' := c + [m];
      assert Chain(nodes, c') by {
        forall i | 0 <= i < |c'| - 1 ensures c'[i] < |nodes| && c'[i + 1] in nodes[c'[i]].children {
          if i < |c| - 1 {
            assert c'[i] == c[i] && c'[i + 1] == c[i + 1];
          }
        }
      }
      assert c'[0] == r && c'[|c'| - 1] == m;
    }
  }

  /** A chain of children only descends, and stays inside the arena. */
  lemma {:induction false} ChainDescends(nodes: seq<Node>, chain: seq<nat>)
    requires WellFormed(nodes) && Chain(nodes, chain) && |chain| >= 2
    ensures chain[0] < chain[|chain| - 1] < |nodes|
    decreases |chain|
  {
    var init := chain[..|chain| - 1];
    assert Chain(nodes, init) by {
      forall i | 0 <= i < |init| - 1 ensures init[i] < |nodes| && init[i + 1] in nodes[init[i]].children {
        assert init[i] == chain[i] && init[i + 1] == chain[i + 1];
      }
    }
    var last := chain[|chain| - 2];
    assert chain[|chain| - 1] in nodes[last].children;
    if |chain| > 2 {
      ChainDescends(nodes, init);
    }
  }

  /** One step of the walk down a page's category path: descend into the first
      child of `node` whose text is `translated`, or add a new category child
      with that text when there is none. */
  method Descend(nodes: seq<Node>, node: nat, translated: string, category: string, indent: int, expanded: bool)
    returns (nodes': seq<Node>, child: nat)
    requires Consistent(nodes) && node < |nodes| && indent == Indent(nodes[node]) + 1
    ensures Consistent(nodes') && Extends(nodes, nodes')
    ensures forall m :: 0 <= m < node ==> nodes'[m] == nodes[m]
    ensures Step(nodes', node, translated) == Some(child)
    ensures Step(nodes, node, translated).Some? ==> nodes' == nodes
    ensures Step(nodes, node, translated).None? ==>
      child == |nodes| && nodes' == AddChild(nodes, node, CategoryLine(indent, translated, category), expanded)
    ensures NewCategories(nodes', |nodes|, |nodes'|, expanded)
    ensures (nodes', child) == DescendStep(nodes, node, translated, category, indent, expanded)
  {
    var found := FindChild(nodes, node, translated);
    if found.Some? {
      nodes', child := nodes, found.value;
    } else {
      var line := CategoryLine(indent, translated, category);
      child := |nodes|;
      AddChildConsistent(nodes, node, line, expanded);
      nodes' := AddChild(nodes, node, line, expanded);
      StepToNewChild(nodes, node, line, expanded);
    }
  }

  /** Node `m` is where some non-empty prefix of `path` leads from `root`. */
  predicate OnPath(nodes: seq<Node>, root: nat, path: seq<string>, m: nat)
    requires WellFormed(nodes) && root < |nodes|
  {
    exists i :: 1 <= i <= |path| && Follow(nodes, root, path[..i]) == Some(m)
  }

  lemma OnPathExtends(a: seq<Node>, b: seq<Node>, root: nat, path: seq<string>, m: nat)
    requires WellFormed(a) && WellFormed(b) && Extends(a, b) && root < |a|
    requires OnPath(a, root, path, m)
    ensures OnPath(b, root, path, m)
  {
    var i :| 1 <= i <= |path| && Follow(a, root, path[..i]) == Some(m);
    FollowExtends(a, b, root, path[..i]);
  }

  /** The state of the walk down a page's category path after `i` steps. */
  predicate Walking(nodes: seq<Node>, root: nat, categories: seq<string>, translate: string -> string, expanded: bool,
                    i: nat, ns: seq<Node>, node: nat)
  {
    WalkShape(nodes, root, categories, translate, expanded, i, ns, node) &&
    (ns, node) == WalkTo(nodes, root, translate, categories, i, expanded)
  }

  /** What the walk down a page's category path has built after `i` steps. */
  predicate WalkShape(nodes: seq<Node>, root: nat, categories: seq<string>, translate: string -> string, expanded: bool,
                      i: nat, ns: seq<Node>, node: nat)
  {
    i <= |categories| && Consistent(nodes) && root < |nodes| && nodes[root].line.None? &&
    Consistent(ns) && Extends(nodes, ns) && root <= node < |ns| && SameBelow(nodes, ns, root) &&
    Follow(ns, root, Map(translate, categories)[..i]) == Some(node) &&
    Indent(ns[node]) == i &&
    NewCategories(ns, |nodes|, |ns|, expanded) &&
    (forall m :: |nodes| <= m < |ns| ==> OnPath(ns, root, Map(translate, categories), m))
  }

  /** The only node a step can add is the one it reaches, so every node the
      walk has added is still where a prefix of the path leads. */
  lemma WalkOnPathStep(from: nat, root: nat, path: seq<string>, i: nat, ns: seq<Node>, ns': seq<Node>, node': nat)
    requires WellFormed(ns) && WellFormed(ns') && Extends(ns, ns') && root < |ns| && i < |path|
    requires forall m :: from <= m < |ns| ==> OnPath(ns, root, path, m)
    requires |ns'| <= |ns| + 1 && (|ns'| == |ns| + 1 ==> node' == |ns|)
    requires Follow(ns', root, path[..i + 1]) == Some(node')
    ensures forall m :: from <= m < |ns'| ==> OnPath(ns', root, path, m)
  {
    forall m | from <= m < |ns'| ensures OnPath(ns', root, path, m) {
      if m < |ns| {
        OnPathExtends(ns, ns', root, path, m);
      } else {
        assert Follow(ns', root, path[..i + 1]) == Some(m);
      }
    }
  }

  /** After step `i`, the first `i + 1` translated texts lead from the root to
      the node the step reached, indented by `i + 1`. */
  lemma WalkFollowStep(nodes: seq<Node>, root: nat, categories: seq<string>, translate: string -> string, expanded: bool,
                       i: nat, ns: seq<Node>, node: nat, ns': seq<Node>, node': nat)
    requires WalkShape(nodes, root, categories, translate, expanded, i, ns, node) && i < |categories|
    requires Consistent(ns') && Extends(ns, ns') && Step(ns', node, translate(categories[i])) == Some(node')
    ensures Follow(ns', root, Map(translate, categories)[..i + 1]) == Some(node')
    ensures Indent(ns'[node']) == i + 1
  {
    var path := Map(translate, categories);
    assert path[i] == translate(categories[i]);
    FollowExtends(ns, ns', root, path[..i]);
    FollowPrefixStep(ns', root, path, i, node);
    FollowIndent(ns', root, path[..i + 1]);
  }

  /** Step `i` of the walk. */
  method WalkStep(nodes: seq<Node>, root: nat, categories: seq<string>, translate: string -> string, expanded: bool,
                  i: nat, ns: seq<Node>, node: nat)
    returns (ns': seq<Node>, node': nat)
    requires Walking(nodes, root, categories, translate, expanded, i, ns, node) && i < |categories|
    ensures Walking(nodes, root, categories, translate, expanded, i + 1, ns', node')
  {
    ns', node' := Descend(ns, node, translate(categories[i]), categories[i], i + 1, expanded);
    WalkStepKeeps(nodes, root, categories, translate, expanded, i, ns, node, ns', node');
    assert (ns', node') == WalkTo(nodes, root, translate, categories, i + 1, expanded);
  }

  /** What one step of the walk adds keeps the walk's state. */
  lemma WalkStepKeeps(nodes: seq<Node>, root: nat, categories: seq<string>, translate: string -> string, expanded: bool,
                      i: nat, ns: seq<Node>, node: nat, ns': seq<Node>, node': nat)
    requires WalkShape(nodes, root, categories, translate, expanded, i, ns, node) && i < |categories|
    requires Consistent(ns') && Extends(ns, ns') && SameBelow(ns, ns', node)
    requires Step(ns', node, translate(categories[i])) == Some(node')
    requires |ns'| <= |ns| + 1 && (|ns'| == |ns| + 1 ==> node' == |ns|)
    requires NewCategories(ns', |ns|, |ns'|, expanded)
    ensures WalkShape(nodes, root, categories, translate, expanded, i + 1, ns', node')
  {
    var path := Map(translate, categories);
    WalkFollowStep(nodes, root, categories, translate, expanded, i, ns, node, ns', node');
    WalkOnPathStep(|nodes|, root, path, i, ns, ns', node');
    ExtendsTransitive(nodes, ns, ns');
    assert SameBelow(nodes, ns', root) by {
      assert root <= node;
    }
    NewCategoriesExtend(ns, ns', |nodes|, expanded);
  }

  /** Categories created before and after a growth step together make up the
      categories created since `from`. */
  lemma NewCategoriesExtend(ns: seq<Node>, ns': seq<Node>, from: nat, expanded: bool)
    requires from <= |ns| && Extends(ns, ns')
    requires NewCategories(ns, from, |ns|, expanded) && NewCategories(ns', |ns|, |ns'|, expanded)
    ensures NewCategories(ns', from, |ns'|, expanded)
  {
    forall m | from <= m < |ns|
      ensures ns'[m].line == ns[m].line && ns'[m].expanded == ns[m].expanded
    {
    }
  }

  /** Walks a page's category path below `root`: each translated step reuses
      the first child with that text, or adds a new category child. */
  method WalkPath(nodes: seq<Node>, root: nat, categories: seq<string>, translate: string -> string, expanded: bool)
    returns (nodes': seq<Node>, node: nat)
    requires Consistent(nodes) && root < |nodes| && nodes[root].line.None?
    ensures Consistent(nodes') && Extends(nodes, nodes')
    ensures SameBelow(nodes, nodes', root)
    ensures root <= node < |nodes'| && Follow(nodes', root, Map(translate, categories)) == Some(node)
    ensures Indent(nodes'[node]) == |categories|
    ensures NewCategories(nodes', |nodes|, |nodes'|, expanded)
    ensures forall m :: |nodes| <= m < |nodes'| ==> OnPath(nodes', root, Map(translate, categories), m)
    ensures (nodes', node) == WalkTo(nodes, root, translate, categories, |categories|, expanded)
  {
    nodes' := nodes;
    node := root;
    for i := 0 to |categories|
      invariant Walking(nodes, root, categories, translate, expanded, i, nodes', node)
    {
      nodes', node := WalkStep(nodes, root, categories, translate, expanded, i, nodes', node);
    }
    assert Map(translate, categories)[..|categories|] == Map(translate, categories);
  }

  /** Inserts one page below `root`: walks its category path, reusing the first
      child whose text matches each translated step and otherwise adding a new
      category child, then adds the page's title line under the node reached. */
  method InsertPage(nodes: seq<Node>, root: nat, categories: seq<string>, translate: string -> string,
                    title: string, expanded: bool)
    returns (nodes': seq<Node>, parent: nat, leaf: nat)
    requires Consistent(nodes) && root < |nodes| && nodes[root].line.None?
    ensures Consistent(nodes') && Extends(nodes, nodes')
    ensures SameBelow(nodes, nodes', root)
    ensures Follow(nodes', root, Map(translate, categories)) == Some(parent)
    ensures leaf == |nodes'| - 1 && |nodes| <= leaf && leaf in nodes'[parent].children
    ensures nodes'[leaf].line == Some(TitleLine(|categories| + 1, translate(title)))
    ensures NewCategories(nodes', |nodes|, leaf, expanded)
    ensures forall m :: |nodes| <= m < leaf ==> OnPath(nodes', root, Map(translate, categories), m)
    ensures nodes' == Inserted(nodes, root, categories, translate, title, expanded)
    ensures parent == WalkTo(nodes, root, translate, categories, |categories|, expanded).1
  {
    ghost var path := Map(translate, categories);
    var walked;
    walked, parent := WalkPath(nodes, root, categories, translate, expanded);
    var line := TitleLine(|categories| + 1, translate(title));
    leaf := |walked|;
    AddChildConsistent(walked, parent, line, expanded);
    nodes' := AddChild(walked, parent, line, expanded);
    FollowExtends(walked, nodes', root, path);
    forall m | |nodes| <= m < leaf ensures OnPath(nodes', root, path, m) {
      OnPathExtends(walked, nodes', root, path, m);
    }
    ExtendsTransitive(nodes, walked, nodes');
  }
}
