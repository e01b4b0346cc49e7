/** The guide book's main menu: the tree of categories and page titles built
    from the registered pages, and its reaction to clicks. */
module GuideMenu {
  import opened Seqs
  import opened GuideTree

  /** A page registry key (a ResourceLocation). */
  type Location = string

  /** One registered page with its metadata. */
  datatype Registered<Meta> = Registered(location: Location, meta: Meta)

  /** The registry is a map, so no location is registered twice. */
  predicate DistinctLocations<Meta>(registry: seq<Registered<Meta>>) {
    forall i, j :: 0 <= i < j < |registry| ==> registry[i].location != registry[j].location
  }

  function Locations<Meta>(registry: seq<Registered<Meta>>): set<Location> {
    set j | 0 <= j < |registry| :: registry[j].location
  }

  /** `links` is `links0` with an entry added for each of `leaves`. */
  predicate LinksGrown(links: map<nat, Location>, links0: map<nat, Location>, leaves: seq<nat>) {
    links.Keys == links0.Keys + (set j | 0 <= j < |leaves| :: leaves[j]) &&
    forall key :: key in links0 ==> links[key] == links0[key]
  }

  lemma LinksGrownStep(links: map<nat, Location>, links0: map<nat, Location>, leaves: seq<nat>, leaf: nat, location: Location)
    requires LinksGrown(links, links0, leaves) && leaf !in links0
    ensures LinksGrown(links[leaf := location], links0, leaves + [leaf])
  {
    var l' := leaves + [leaf];
    var a, b := set j | 0 <= j < |l'| :: l'[j], set j | 0 <= j < |leaves| :: leaves[j];
    forall x | x in a ensures x in b + {leaf} {
      var j :| 0 <= j < |l'| && l'[j] == x;
      if j < |leaves| {
        assert leaves[j] == x;
      }
    }
    forall x | x in b + {leaf} ensures x in a {
      if x == leaf {
        assert l'[|leaves|] == x;
      } else {
        var j :| 0 <= j < |leaves| && leaves[j] == x;
        assert l'[j] == x;
      }
    }
  }

  /** `meta` is `meta0` with each of `registry` put into it in order. */
  ghost predicate MetaGrown<Meta>(meta: map<Location, Meta>, meta0: map<Location, Meta>, registry: seq<Registered<Meta>>) {
    meta.Keys == meta0.Keys + Locations(registry) &&
    (forall j :: 0 <= j < |registry| ==> meta[registry[j].location] == registry[j].meta) &&
    (forall loc :: loc in meta0 && loc !in Locations(registry) ==> meta[loc] == meta0[loc])
  }

  lemma MetaGrownStep<Meta>(meta: map<Location, Meta>, meta0: map<Location, Meta>, registry: seq<Registered<Meta>>, k: nat)
    requires k < |registry| && MetaGrown(meta, meta0, registry[..k]) && DistinctLocations(registry)
    ensures MetaGrown(meta[registry[k].location := registry[k].meta], meta0, registry[..k + 1])
  {
    var page, before, after := registry[k], registry[..k], registry[..k + 1];
    assert after == before + [page];
    forall x | x in Locations(after) ensures x in Locations(before) + {page.location} {
      var j :| 0 <= j < |after| && after[j].location == x;
      if j < k {
        assert before[j].location == x;
      }
    }
    forall x | x in Locations(before) + {page.location} ensures x in Locations(after) {
      if x == page.location {
        assert after[k].location == x;
      } else {
        var j :| 0 <= j < k && before[j].location == x;
        assert after[j].location == x;
      }
    }
    forall j | 0 <= j < k ensures before[j].location != page.location {
      assert before[j] == registry[j];
    }
  }

  /** A click on a line's icon: the icon shows what the click will do next, a
      plus on a collapsed node and a minus on an expanded one. */
  function Toggle(n: Node): (r: Node)
    ensures r.expanded == !n.expanded && r.children == n.children
    ensures Text(r) == Text(n) && Indent(r) == Indent(n) && IsCategory(r) == IsCategory(n)
    ensures n.line.Some? ==> (r.line.Some? &&
      r.line.value.startIcon == Some(if n.expanded then BoxPlus else BoxMinus) &&
      r.line.value.startIconHovered == Some(if n.expanded then BoxSelectedPlus else BoxSelectedMinus))
  {
    var line :=
      if n.line.None? then None
      else if n.expanded then Some(n.line.value.(startIcon := Some(BoxPlus), startIconHovered := Some(BoxSelectedPlus)))
      else Some(n.line.value.(startIcon := Some(BoxMinus), startIconHovered := Some(BoxSelectedMinus)));
    n.(line := line, expanded := !n.expanded)
  }

  /** The icons of a line agree with its node's state. */
  predicate IconsAgree(n: Node) {
    n.line.Some? ==>
      n.line.value.startIcon == Some(if n.expanded then BoxMinus else BoxPlus) &&
      n.line.value.startIconHovered == Some(if n.expanded then BoxSelectedMinus else BoxSelectedPlus)
  }

  /** Toggling keeps icons in agreement with the node's state, and a second
      toggle undoes the first. */
  lemma ToggleAgrees(n: Node)
    requires IconsAgree(n)
    ensures IconsAgree(Toggle(n))
    ensures Toggle(Toggle(n)) == n
  {
    if n.line.Some? {
      assert Toggle(Toggle(n)).line.value == n.line.value;
    }
  }

  /** Toggling one node keeps the tree's invariant. */
  lemma ToggleConsistent(nodes: seq<Node>, id: nat)
    requires Consistent(nodes) && id < |nodes|
    ensures Consistent(nodes[id := Toggle(nodes[id])])
  {
    var r := nodes[id := Toggle(nodes[id])];
    forall n, j | 0 <= n < |r| && 0 <= j < |r[n].children|
      ensures r[r[n].children[j]] == nodes[nodes[n].children[j]] || r[n].children[j] == id
    {
      assert r[n].children == nodes[n].children;
    }
  }

  /** Toggling one node keeps every node above the root hanging under it. */
  lemma ToggleRooted(nodes: seq<Node>, r: nat, id: nat)
    requires Rooted(nodes, r) && id < |nodes|
    ensures Rooted(nodes[id := Toggle(nodes[id])], r)
  {
    var t := nodes[id := Toggle(nodes[id])];
    forall m | r < m < |t| ensures HasParent(t, r, m) {
      assert HasParent(nodes, r, m);
      var p :| r <= p < m && p < |nodes| && m in nodes[p].children;
      assert t[p].children == nodes[p].children;
    }
  }

  /** The guide GUI: which of the sort orders is selected. */
  class GuiGuide {
    /** The number of sort orders (GuiGuide.ORDERS and SORTING_TYPES). */
    const orderCount: nat
    var sortingOrderIndex: nat

    constructor (orderCount: nat)
      requires orderCount > 0
      ensures this.orderCount == orderCount && sortingOrderIndex == 0
    {
      this.orderCount := orderCount;
      sortingOrderIndex := 0;
    }
  }

  class GuideMenu<Meta> {
    const gui: GuiGuide
    /** I18n.format. */
    const translate: string -> string
    /** The untranslated title of a page. */
    const title: Meta -> string
    /** The texts of a page's category lines under a sort order. */
    const locationArray: (Meta, nat) -> seq<string>
    /** The expanded flag of a newly created NodePageLine. */
    const newNodeExpanded: bool

    /** Every NodePageLine this menu has allocated, indexed by identity. */
    var nodes: seq<Node>
    /** The current tree's root, `parentNode`. */
    var root: nat
    var metaMap: map<Location, Meta>
    /** Keyed by the identity of the title line's node, as `PageLine` is taken
        to keep `Object`'s identity `equals` and `hashCode`. */
    var pageLinks: map<nat, Location>
    /** -1 when the number of pages must be recomputed. */
    var numPages: int

    ghost predicate Ready()
      reads this, gui
    {
      Consistent(nodes) && (forall key :: key in pageLinks ==> key < |nodes|) &&
      gui.sortingOrderIndex < gui.orderCount
    }

    ghost predicate Valid()
      reads this, gui
    {
      Ready() && root < |nodes| && nodes[root].line.None? && Rooted(nodes, root)
    }

    /** A fresh root: no line, no children. */
    function RootNode(): (r: Node)
      ensures r.line.None? && r.children == [] && r.expanded == newNodeExpanded
    {
      Node(None, [], newNodeExpanded)
    }

    /** The arena after the first `k` pages of the registry are inserted, in
        registry order, below the root `r` of `ns0`. */
    function Built(ns0: seq<Node>, r: nat, registry: seq<Registered<Meta>>, order: nat, k: nat): (ns: seq<Node>)
      requires WellFormed(ns0) && r < |ns0| && k <= |registry|
      ensures WellFormed(ns) && Extends(ns0, ns)
    {
      if k == 0 then ns0
      else
        var prev := Built(ns0, r, registry, order, k - 1);
        var meta := registry[k - 1].meta;
        var ns := Inserted(prev, r, locationArray(meta, order), translate, title(meta), newNodeExpanded);
        ExtendsTransitive(ns0, prev, ns);
        ns
    }

    /** The translated category path of a page under the sort order `order`. */
    function PagePath(meta: Meta, order: nat): (r: seq<string>)
      ensures |r| == |locationArray(meta, order)|
      ensures forall i :: 0 <= i < |r| ==> r[i] == translate(locationArray(meta, order)[i])
    {
      Map(translate, locationArray(meta, order))
    }

    /** The title line of a page under the sort order `order`. */
    function PageTitle(meta: Meta, order: nat): (r: PageLine)
      ensures var n := Node(Some(r), [], false);
        !IsCategory(n) && r.link && Indent(n) == |PagePath(meta, order)| + 1 && Text(n) == translate(title(meta))
    {
      TitleLine(|locationArray(meta, order)| + 1, translate(title(meta)))
    }

    /** The page `page` has its title line `leaf` under the node `parent` that
        its translated path leads to from the root `r`, and `links` sends that
        line to the page's location. */
    ghost predicate PagePlaced(ns: seq<Node>, r: nat, links: map<nat, Location>, page: Registered<Meta>, order: nat,
                               leaf: nat, parent: nat)
      requires WellFormed(ns) && r < |ns|
    {
      r < leaf < |ns| &&
      Follow(ns, r, PagePath(page.meta, order)) == Some(parent) &&
      leaf in ns[parent].children &&
      ns[leaf].line == Some(PageTitle(page.meta, order)) &&
      leaf in links && links[leaf] == page.location
    }

    /** The first `|leaves|` pages of the registry are placed in the tree `ns`,
        their title lines in registry order. */
    ghost predicate PagesAt(ns: seq<Node>, r: nat, links: map<nat, Location>, registry: seq<Registered<Meta>>,
                            order: nat, leaves: seq<nat>, parents: seq<nat>)
    {
      WellFormed(ns) && r < |ns| && |leaves| == |parents| <= |registry| &&
      (forall j :: 0 <= j < |leaves| ==> PagePlaced(ns, r, links, registry[j], order, leaves[j], parents[j])) &&
      (forall i, j :: 0 <= i < j < |leaves| ==> leaves[i] < leaves[j])
    }

    /** What loadMainGui leaves behind, relative to the state it started from. */
    ghost predicate LoadedFrom(registry: seq<Registered<Meta>>, nodes0: seq<Node>, metaMap0: map<Location, Meta>,
                               pageLinks0: map<nat, Location>, leaves: seq<nat>, parents: seq<nat>)
      reads this, gui
    {
      Valid() &&
      Loaded(registry, nodes0, metaMap0, pageLinks0, nodes, root, gui.sortingOrderIndex, pageLinks, metaMap, leaves, parents)
    }

    /** The arena `ns` with root `r`, the links `pl` and the map `mm` as
        loadMainGui builds them from `nodes0`, `pageLinks0` and `metaMap0`
        under the sort order `order`. */
    ghost predicate Loaded(registry: seq<Registered<Meta>>, nodes0: seq<Node>, metaMap0: map<Location, Meta>,
                           pageLinks0: map<nat, Location>, ns: seq<Node>, r: nat, order: nat,
                           pl: map<nat, Location>, mm: map<Location, Meta>, leaves: seq<nat>, parents: seq<nat>)
    {
      // a fresh root; earlier nodes untouched
      r == |nodes0| && r < |ns| && ns[..r] == nodes0 &&
      // and nothing but the registered pages' categories and title lines
      WellFormed(nodes0 + [RootNode()]) &&
      ns == Built(nodes0 + [RootNode()], r, registry, order, |registry|) &&
      |leaves| == |registry| &&
      PagesAt(ns, r, pl, registry, order, leaves, parents) &&
      Covered(ns, r, registry, order, leaves) &&
      CategoriesAsCreated(ns, r) &&
      LinksGrown(pl, pageLinks0, leaves) &&
      MetaGrown(mm, metaMap0, registry)
    }

    /** A placed page stays placed when the tree grows and a new line is linked. */
    lemma PagePlacedExtends(ns: seq<Node>, ns': seq<Node>, r: nat, links: map<nat, Location>, page: Registered<Meta>,
                            order: nat, leaf: nat, parent: nat, newLeaf: nat, location: Location)
      requires WellFormed(ns) && WellFormed(ns') && r < |ns| && Extends(ns, ns') && |ns| <= newLeaf
      requires PagePlaced(ns, r, links, page, order, leaf, parent)
      ensures PagePlaced(ns', r, links[newLeaf := location], page, order, leaf, parent)
    {
      FollowExtends(ns, ns', r, PagePath(page.meta, order));
      assert ns[parent].children <= ns'[parent].children;
    }

    /** Placing one more page keeps the earlier pages where they were. */
    lemma PagesAtStep(ns: seq<Node>, ns': seq<Node>, r: nat, links: map<nat, Location>,
                      registry: seq<Registered<Meta>>, order: nat, leaves: seq<nat>, parents: seq<nat>,
                      parent: nat, leaf: nat)
      requires PagesAt(ns, r, links, registry, order, leaves, parents) && |leaves| < |registry|
      requires WellFormed(ns') && Extends(ns, ns') && |ns| <= leaf
      requires PagePlaced(ns', r, links[leaf := registry[|leaves|].location], registry[|leaves|], order, leaf, parent)
      ensures PagesAt(ns', r, links[leaf := registry[|leaves|].location], registry, order, leaves + [leaf], parents + [parent])
    {
      var k := |leaves|;
      var links' := links[leaf := registry[k].location];
      var leaves', parents' := leaves + [leaf], parents + [parent];
      forall j | 0 <= j < k + 1
        ensures PagePlaced(ns', r, links', registry[j], order, leaves'[j], parents'[j])
      {
        if j < k {
          assert leaves'[j] == leaves[j] && parents'[j] == parents[j];
          PagePlacedExtends(ns, ns', r, links, registry[j], order, leaves[j], parents[j], leaf, registry[k].location);
        }
      }
      forall i, j | 0 <= i < j < k + 1 ensures leaves'[i] < leaves'[j] {
        assert PagePlaced(ns, r, links, registry[i], order, leaves[i], parents[i]);
        if j < k {
          assert leaves'[i] == leaves[i] && leaves'[j] == leaves[j];
        }
      }
    }

    /** Node `m` lies on the translated path of one of the first `k` pages. */
    ghost predicate OnSomePath(ns: seq<Node>, r: nat, registry: seq<Registered<Meta>>, order: nat, k: nat, m: nat)
      requires WellFormed(ns) && r < |ns|
    {
      exists j :: 0 <= j < k && j < |registry| && OnPath(ns, r, PagePath(registry[j].meta, order), m)
    }

    /** Every node above the root `r` is the title line of one of the placed
        pages or lies on the path of one of them: nothing else is allocated. */
    ghost predicate Covered(ns: seq<Node>, r: nat, registry: seq<Registered<Meta>>, order: nat, leaves: seq<nat>) {
      WellFormed(ns) && r < |ns| &&
      forall m :: r < m < |ns| ==> m in leaves || OnSomePath(ns, r, registry, order, |leaves|, m)
    }

    lemma CoveredStep(ns: seq<Node>, ns': seq<Node>, r: nat, registry: seq<Registered<Meta>>, order: nat,
                      leaves: seq<nat>, leaf: nat)
      requires Covered(ns, r, registry, order, leaves) && |leaves| < |registry|
      requires WellFormed(ns') && Extends(ns, ns') && |ns| <= leaf && leaf + 1 == |ns'|
      requires forall m :: |ns| <= m < leaf ==> OnPath(ns', r, PagePath(registry[|leaves|].meta, order), m)
      ensures Covered(ns', r, registry, order, leaves + [leaf])
    {
      var k := |leaves|;
      forall m | r < m < |ns'| ensures m in leaves + [leaf] || OnSomePath(ns', r, registry, order, k + 1, m) {
        if m < |ns| && m !in leaves {
          var j :| 0 <= j < k && j < |registry| && OnPath(ns, r, PagePath(registry[j].meta, order), m);
          OnPathExtends(ns, ns', r, PagePath(registry[j].meta, order), m);
        } else if |ns| <= m < leaf {
          assert OnPath(ns', r, PagePath(registry[k].meta, order), m);
        }
      }
    }

    /** Every category line above the root `r` is as loadMainGui creates it. */
    ghost predicate CategoriesAsCreated(ns: seq<Node>, r: nat) {
      forall m :: r < m < |ns| && IsCategory(ns[m]) ==>
        ns[m].expanded == newNodeExpanded && ns[m].line.value.startIcon == Some(BoxMinus) &&
        ns[m].line.value.startIconHovered == Some(BoxSelectedMinus)
    }

    lemma CategoriesStep(ns: seq<Node>, ns': seq<Node>, r: nat, leaf: nat)
      requires CategoriesAsCreated(ns, r) && Extends(ns, ns') && |ns| <= leaf && leaf + 1 == |ns'|
      requires NewCategories(ns', |ns|, leaf, newNodeExpanded) && ns'[leaf].line.Some? && ns'[leaf].line.value.link
      ensures CategoriesAsCreated(ns', r)
    {
      forall m | r < m < |ns'| && IsCategory(ns'[m])
        ensures ns'[m].expanded == newNodeExpanded && ns'[m].line.value.startIcon == Some(BoxMinus) &&
                ns'[m].line.value.startIconHovered == Some(BoxSelectedMinus)
      {
        if m < |ns| {
          assert ns'[m].line == ns[m].line;
        }
      }
    }

    constructor (gui: GuiGuide, translate: string -> string, title: Meta -> string,
                 locationArray: (Meta, nat) -> seq<string>, newNodeExpanded: bool, registry: seq<Registered<Meta>>)
      requires gui.sortingOrderIndex < gui.orderCount
      requires DistinctLocations(registry)
      ensures Valid() && this.gui == gui && numPages == -1
      ensures this.translate == translate && this.title == title
      ensures this.locationArray == locationArray && this.newNodeExpanded == newNodeExpanded
      ensures metaMap.Keys == Locations(registry)
      ensures exists leaves, parents :: LoadedFrom(registry, [], map[], map[], leaves, parents)
    {
      this.gui := gui;
      this.translate := translate;
      this.title := title;
      this.locationArray := locationArray;
      this.newNodeExpanded := newNodeExpanded;
      nodes := [];
      root := 0;
      metaMap := map[];
      pageLinks := map[];
      numPages := -1;
      new;
      ghost var leaves, parents := LoadMainGui(registry);
      assert LoadedFrom(registry, [], map[], map[], leaves, parents);
    }

    /** The state of loadMainGui after the first `k` pages, relative to the
        fields it started from. */
    ghost predicate Loading(registry: seq<Registered<Meta>>, k: nat, ns: seq<Node>, r: nat, order: nat,
                            pl: map<nat, Location>, mm: map<Location, Meta>, leaves: seq<nat>, parents: seq<nat>)
      reads this
    {
      k <= |registry| && DistinctLocations(registry) &&
      Consistent(ns) && r == |nodes| && r < |ns| && ns[r].line.None? && SameBelow(nodes, ns, r) &&
      Rooted(ns, r) && WellFormed(nodes + [RootNode()]) && ns == Built(nodes + [RootNode()], r, registry, order, k) &&
      |leaves| == k &&
      PagesAt(ns, r, pl, registry, order, leaves, parents) &&
      Covered(ns, r, registry, order, leaves) &&
      CategoriesAsCreated(ns, r) &&
      LinksGrown(pl, pageLinks, leaves) &&
      (forall key :: key in pl ==> key < |ns|) &&
      MetaGrown(mm, metaMap, registry[..k])
    }

    /** One iteration of loadMainGui's loop: insert page `k` and record it. */
    method AddPage(registry: seq<Registered<Meta>>, k: nat, ns: seq<Node>, r: nat, order: nat,
                   pl: map<nat, Location>, mm: map<Location, Meta>, ghost leaves: seq<nat>, ghost parents: seq<nat>)
      returns (ns': seq<Node>, pl': map<nat, Location>, mm': map<Location, Meta>, ghost leaves': seq<nat>, ghost parents': seq<nat>)
      requires Loading(registry, k, ns, r, order, pl, mm, leaves, parents) && k < |registry|
      ensures Loading(registry, k + 1, ns', r, order, pl', mm', leaves', parents')
    {
      var location := registry[k].location;
      var meta := registry[k].meta;
      var parent, leaf;
      ns', parent, leaf := InsertPage(ns, r, locationArray(meta, order), translate, title(meta), newNodeExpanded);
      pl' := pl[leaf := location];
      mm' := mm[location := meta];
      leaves', parents' := leaves + [leaf], parents + [parent];
      assert SameBelow(nodes, ns', r) by {
        assert SameBelow(nodes, ns, r) && SameBelow(ns, ns', r);
      }
      assert ns'[r].line.None? by {
        assert Extends(ns, ns');
      }
      assert Rooted(ns', r) by {
        InsertedRooted(ns, r, locationArray(meta, order), translate, title(meta), newNodeExpanded);
      }
      assert ns' == Built(nodes + [RootNode()], r, registry, order, k + 1);
      assert PagesAt(ns', r, pl', registry, order, leaves', parents') by {
        assert PagePlaced(ns', r, pl', registry[k], order, leaf, parent);
        PagesAtStep(ns, ns', r, pl, registry, order, leaves, parents, parent, leaf);
      }
      assert Covered(ns', r, registry, order, leaves') by {
        CoveredStep(ns, ns', r, registry, order, leaves, leaf);
      }
      assert CategoriesAsCreated(ns', r) by {
        CategoriesStep(ns, ns', r, leaf);
      }
      assert LinksGrown(pl', pageLinks, leaves') by {
        LinksGrownStep(pl, pageLinks, leaves, leaf, location);
      }
      assert forall key :: key in pl' ==> key < |ns'|;
      assert MetaGrown(mm', metaMap, registry[..k + 1]) by {
        MetaGrownStep(mm, metaMap, registry, k);
      }
    }

    /** The loop of loadMainGui starts from a fresh root at the end of the arena. */
    lemma LoadingStart(registry: seq<Registered<Meta>>)
      requires Ready() && DistinctLocations(registry)
      ensures WellFormed(nodes + [RootNode()])
      ensures Loading(registry, 0, nodes + [RootNode()], |nodes|, gui.sortingOrderIndex, pageLinks, metaMap, [], [])
    {
      var ns := nodes + [RootNode()];
      assert forall m :: 0 <= m < |nodes| ==> ns[m] == nodes[m];
      assert registry[..0] == [];
    }

    /** After the last page, the loop's state is what loadMainGui leaves behind. */
    lemma LoadingDone(registry: seq<Registered<Meta>>, ns: seq<Node>, r: nat, order: nat,
                      pl: map<nat, Location>, mm: map<Location, Meta>, leaves: seq<nat>, parents: seq<nat>)
      requires Loading(registry, |registry|, ns, r, order, pl, mm, leaves, parents)
      ensures Loaded(registry, nodes, metaMap, pageLinks, ns, r, order, pl, mm, leaves, parents)
      ensures Consistent(ns) && r < |ns| && ns[r].line.None? && Rooted(ns, r) && (forall key :: key in pl ==> key < |ns|)
    {
      assert registry[..|registry|] == registry;
      assert ns[..r] == nodes;
    }

    /** The page loop of loadMainGui, on local copies of the tree and the maps. */
    method BuildPages(registry: seq<Registered<Meta>>, ns0: seq<Node>, r: nat, order: nat,
                      pl0: map<nat, Location>, mm0: map<Location, Meta>)
      returns (ns: seq<Node>, pl: map<nat, Location>, mm: map<Location, Meta>, ghost leaves: seq<nat>, ghost parents: seq<nat>)
      requires Loading(registry, 0, ns0, r, order, pl0, mm0, [], [])
      ensures Loading(registry, |registry|, ns, r, order, pl, mm, leaves, parents)
    {
      ns, pl, mm, leaves, parents := ns0, pl0, mm0, [], [];
      for k := 0 to |registry|
        invariant Loading(registry, k, ns, r, order, pl, mm, leaves, parents)
      {
        ns, pl, mm, leaves, parents := AddPage(registry, k, ns, r, order, pl, mm, leaves, parents);
      }
    }

    /** Rebuilds the menu tree from the registry under the selected sort order. */
    method LoadMainGui(registry: seq<Registered<Meta>>) returns (ghost leaves: seq<nat>, ghost parents: seq<nat>)
      requires Ready() && DistinctLocations(registry)
      modifies this
      ensures LoadedFrom(registry, old(nodes), old(metaMap), old(pageLinks), leaves, parents)
      ensures numPages == old(numPages)
    {
      LoadingStart(registry);
      var ns, pl, mm;
      ns, pl, mm, leaves, parents := BuildPages(registry, nodes + [RootNode()], |nodes|, gui.sortingOrderIndex, pageLinks, metaMap);
      LoadingDone(registry, ns, |nodes|, gui.sortingOrderIndex, pl, mm, leaves, parents);
      Install(ns, |nodes|, mm, pl);
    }

    /** Replaces the tree and the maps; the page count is kept. */
    method Install(ns: seq<Node>, r: nat, mm: map<Location, Meta>, pl: map<nat, Location>)
      modifies this
      ensures nodes == ns && root == r && metaMap == mm && pageLinks == pl && numPages == old(numPages)
    {
      nodes, root, metaMap, pageLinks := ns, r, mm, pl;
    }

    /** The first sort order icon before `count` for which `hit` holds, or
        `count` when there is none. */
    function FirstHit(hit: nat -> bool, count: nat): (i: nat)
      ensures i <= count
      ensures forall j :: 0 <= j < i ==> !hit(j)
      ensures i < count ==> hit(i)
    {
      if count == 0 then 0
      else
        var i := FirstHit(hit, count - 1);
        if i < count - 1 then i else if hit(count - 1) then count - 1 else count
    }

    /** The nodes of the current tree (those `getChildNode` finds below the
        root) are exactly the ids between the root and the end of the arena. */
    lemma CurrentTree(m: nat)
      requires Valid()
      ensures root < m < |nodes| <==>
        exists chain :: |chain| >= 2 && chain[0] == root && chain[|chain| - 1] == m && Chain(nodes, chain)
    {
      if root < m < |nodes| {
        RootedReaches(nodes, root, m);
      }
      if exists chain :: |chain| >= 2 && chain[0] == root && chain[|chain| - 1] == m && Chain(nodes, chain) {
        var chain :| |chain| >= 2 && chain[0] == root && chain[|chain| - 1] == m && Chain(nodes, chain);
        ChainDescends(nodes, chain);
      }
    }

    /** A mouse click on the menu page `index`. The widget hit tests are
        inputs: `orderIconHit(i)` tells whether sort order icon `i` is under
        the mouse, `clicked` is the line whose text was clicked and
        `iconClicked` the line whose icon was clicked. The result is the page
        location to open, if any. */
    method HandleMouseClick(registry: seq<Registered<Meta>>, index: int, orderIconHit: (nat -> bool),
                            clicked: Option<nat>, iconClicked: Option<nat>)
      returns (target: Option<Location>, ghost leaves: seq<nat>, ghost parents: seq<nat>)
      requires Valid() && DistinctLocations(registry)
      modifies this, gui
      ensures Valid()
      ensures
        var sortClick := index % 2 == 0 && FirstHit(orderIconHit, gui.orderCount) < gui.orderCount;
        if sortClick then
          gui.sortingOrderIndex == FirstHit(orderIconHit, gui.orderCount) && target == None &&
          LoadedFrom(registry, old(nodes), old(metaMap), old(pageLinks), leaves, parents) &&
          numPages == old(numPages)
        else
          gui.sortingOrderIndex == old(gui.sortingOrderIndex) &&
          root == old(root) && metaMap == old(metaMap) && pageLinks == old(pageLinks) &&
          if clicked.Some? then
            target == (if clicked.value in pageLinks then Some(pageLinks[clicked.value]) else None) &&
            nodes == old(nodes) && numPages == old(numPages)
          else if iconClicked.Some? && root < iconClicked.value < |old(nodes)| then
            target == None && nodes == old(nodes)[iconClicked.value := Toggle(old(nodes)[iconClicked.value])] &&
            numPages == -1
          else
            target == None && nodes == old(nodes) && numPages == old(numPages)
    {
      leaves, parents := [], [];
      if index % 2 == 0 {
        for i := 0 to gui.orderCount
          invariant forall j :: 0 <= j < i ==> !orderIconHit(j)
        {
          if orderIconHit(i) {
            gui.sortingOrderIndex := i;
            leaves, parents := LoadMainGui(registry);
            return None, leaves, parents;
          }
        }
      }
      target := None;
      if clicked.Some? {
        var line := clicked.value;
        if line in pageLinks {
          target := Some(pageLinks[line]);
        }
      } else if iconClicked.Some? {
        var iconLine := iconClicked.value;
        if root < iconLine < |nodes| {
          ToggleConsistent(nodes, iconLine);
          ToggleRooted(nodes, root, iconLine);
          numPages := -1;
          nodes := nodes[iconLine := Toggle(nodes[iconLine])];
        }
      }
    }
  }
}
