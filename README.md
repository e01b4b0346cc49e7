# BuildCraft: debug diff, guide menu tree and blueprint grid

This project models three small pieces of sequential logic from BuildCraft, a
Minecraft mod, and proves properties of them in Dafny.

- **Debug-overlay diff** (`debug_diff.dfy`, module `DebugDiff`).
  `RenderTickListener.appendDiff` appends the server lines and then the client
  lines of the debug overlay to a destination list. The two blocks are
  separated by empty lines and headers. When both lists have the same length,
  each client line that differs from the server line at its index gets the
  red-bold "!" marker and loses one leading space if it has one. The same file orders the
  two endpoints of a marker connection by their packed block position.
- **Guide book main menu** (`guide_tree.dfy`, module `GuideTree`, and
  `guide_menu.dfy`, module `GuideMenu`).
  - `loadMainGui` builds a trie. For each registered page it walks the page's
    translated category texts. It reuses a child with the same text, creates
    a category line at indent depth + 1 otherwise, and attaches the page's
    title line under the node reached.
  - `handleMouseClick` handles three kinds of click. A sort-order icon click
    selects that order and rebuilds the tree. A click on a line resolves the
    line's page link. An icon click toggles a node's expanded state and sets
    its icon from the state it had: plus when it was expanded, minus
    otherwise.
  - The tree is an append-only arena `nodes: seq<Node>` indexed by node
    identity. The node an icon click finds becomes an index into it, and so do
    the `pageLinks` keys, on the assumption that `PageLine` keeps `Object`'s
    identity `equals` and `hashCode`. `loadMainGui` starts a fresh root at the end of
    the arena, so nodes of earlier trees keep their identities, as they do in
    the Java heap.
- **Blueprint voxel grid** (`blueprint.dfy`, module `Blueprint`).
  - A dense `array3` of nullable schematics with its origin at `min`, plus a
    list of entity schematics.
  - Schematics are objects whose rotate and translate effects are recorded as
    a log of applied transforms.
  - The model covers the constructor and the NBT constructor, and the
    rotation, mirroring, translation, task-map and serialisation operations.
  - Its behaviour is the code's own:
    - the rotated grid is built and then dropped;
    - every cell is rotated without a null check;
    - mirroring always fails;
    - deserialisation restores nothing.
- **Sequence map** (`seqs.dfy`, module `Seqs`). `Map` applies a function to
  each element of a sequence; it stands for the translation of a page's
  category path and for the per-cell encoding of the blueprint grid.

Host functions are parameters of the operations. These are `I18n.format`
(`translate`), `PageMeta.getLocationArray` and `title`, `BlockPos.toLong`
(`key`), `BlueprintBase.rotate` (`rotate`), `Schematic.createTasks`
(`tasksOf`) and `BlueprintAPI.serializeSchematic` (`encode`). The widget hit
tests `getClicked`, `getIconClicked` and `GuiRectangle.contains` are inputs to
`HandleMouseClick`.

## Model

| member | source | states |
|---|---|---|
| DebugDiff.DiffStartFormatting | d_lp2/buildcraft/core/client/RenderTickListener.java:84 | DIFF_START is seven characters: the red code, the bold code, "!", then the reset code |
| DebugDiff.DropLeadingSpace | d_lp2/buildcraft/core/client/RenderTickListener.java:173-176 | exactly one leading space is removed when present, otherwise the line is unchanged |
| DebugDiff.MarkLine | d_lp2/buildcraft/core/client/RenderTickListener.java:170-177 | a client line is shown unchanged iff it equals the server line; otherwise it is DIFF_START followed by the line with its one leading space removed if it has one, and exactly that space is dropped iff the line starts with one |
| DebugDiff.MarkedLines | d_lp2/buildcraft/core/client/RenderTickListener.java:167-179 | one marked line per index, in index order, each marked against the server line at the same index |
| DebugDiff.MarkedLinesSnoc | d_lp2/buildcraft/core/client/RenderTickListener.java:167-179 | marking one more index appends exactly that index's mark, so the loop builds the marks in order |
| DebugDiff.DiffBlock | d_lp2/buildcraft/core/client/RenderTickListener.java:157-180 | empty when the server list is empty; otherwise 4 + \|first\| + \|second\| lines: "", headerFirst, first, "", headerSecond, then second verbatim on a length mismatch or the marked lines on equal lengths |
| DebugDiff.AppendDiff | d_lp2/buildcraft/core/client/RenderTickListener.java:156-181 | the destination keeps its lines as a prefix and gains exactly DiffBlock; it is untouched when the server list is empty |
| DebugDiff.AppendMarked | d_lp2/buildcraft/core/client/RenderTickListener.java:167-179 | the same-length branch: the destination gains exactly the client lines, each marked against the server line at its index, in index order |
| DebugDiff.LineList.constructor | d_lp2/buildcraft/core/client/RenderTickListener.java:156 | the destination list `dest` holds the given lines |
| DebugDiff.OrderEndpoints | d_lp2/buildcraft/core/client/RenderTickListener.java:282-286 | the result is the same unordered pair with key(a) <= key(b); an already ordered pair keeps its order |
| GuideTree.FirstMatch | common/buildcraft/lib/client/guide/GuideMenu.java:47-53 | the index of the first child whose text is the translated step; no earlier child matches |
| GuideTree.Step | common/buildcraft/lib/client/guide/GuideMenu.java:47-53 | a child with the given text is found iff one exists, and it is a child of the node with that text |
| GuideTree.Follow | common/buildcraft/lib/client/guide/GuideMenu.java:41-58 | following a path from a node only descends, to a node no lower than the start |
| GuideTree.AddChild | common/buildcraft/lib/client/guide/GuideMenu.java:55-61 | a new childless node is appended and linked as the last child of its parent; no other node changes |
| GuideTree.ExtendsTransitive | common/buildcraft/lib/client/guide/GuideMenu.java:34-66 | the tree only grows: growth composes |
| GuideTree.AddChildConsistent | common/buildcraft/lib/client/guide/GuideMenu.java:54-61 | adding a child at its parent's indent + 1, and a category line only when no sibling has its text, keeps the tree invariant (children after parents, indent = depth, category texts unique among siblings) |
| GuideTree.StepToNewChild | common/buildcraft/lib/client/guide/GuideMenu.java:54-56 | after a category is created because no child matched, the walk finds the new child |
| GuideTree.StepExtends | common/buildcraft/lib/client/guide/GuideMenu.java:47-56 | a child found by text is still the one found after the tree grows |
| GuideTree.FollowExtends | common/buildcraft/lib/client/guide/GuideMenu.java:41-58 | a path that leads somewhere still leads there after the tree grows |
| GuideTree.FollowIndent | common/buildcraft/lib/client/guide/GuideMenu.java:42-60 | the node a path of length n leads to from the root has indent n |
| GuideTree.FollowPrefixStep | common/buildcraft/lib/client/guide/GuideMenu.java:43-58 | following one more step of the path is one child lookup from where the prefix led |
| GuideMenu.GuideMenu.PagePath | common/buildcraft/lib/client/guide/GuideMenu.java:40-45 | a page's path under a sort order: one translated text per entry of its location array, in order |
| GuideMenu.GuideMenu.RootNode | common/buildcraft/lib/client/guide/GuideMenu.java:35 | the fresh root `new NodePageLine(null, null)`: no line, no children, the default expanded flag |
| GuideMenu.GuideMenu.PageTitle | common/buildcraft/lib/client/guide/GuideMenu.java:57-60 | a page's title line: a link, not a category, with the translated title at indent \|path\| + 1 |
| GuideTree.FindChild | common/buildcraft/lib/client/guide/GuideMenu.java:46-53 | the loop over the children finds exactly the first child with the translated text |
| GuideTree.CategoryLine | common/buildcraft/lib/client/guide/GuideMenu.java:55 | a new category line: a category (not a link) with the translated text, the given indent, the untranslated category, and minus icons |
| GuideTree.TitleLine | common/buildcraft/lib/client/guide/GuideMenu.java:59-60 | a page title line: a link with the translated title, the given indent and no icons |
| GuideTree.AddChildWellFormed | common/buildcraft/lib/client/guide/GuideMenu.java:55-61 | adding a child keeps children after parents and only grows the tree |
| GuideTree.DescendStep | common/buildcraft/lib/client/guide/GuideMenu.java:44-57 | one path step as a value: the first child with the text is reused; otherwise one category child is added under the node, and the node reached is a new, deeper node |
| GuideTree.WalkTo | common/buildcraft/lib/client/guide/GuideMenu.java:41-58 | the tree and node after the first k steps of a page's path, step i creating categories at indent i + 1; the tree only grows |
| GuideTree.Inserted | common/buildcraft/lib/client/guide/GuideMenu.java:40-61 | the tree after one page: the walk down its path, then its title line under the node reached; the tree only grows |
| GuideTree.AddChildRooted | common/buildcraft/lib/client/guide/GuideMenu.java:55-61 | a child added under a node of the current tree keeps every newer node hanging under the root |
| GuideTree.DescendStepRooted | common/buildcraft/lib/client/guide/GuideMenu.java:44-57 | a path step keeps every node above the root hanging under it |
| GuideTree.WalkToRooted | common/buildcraft/lib/client/guide/GuideMenu.java:41-58 | the whole walk keeps every node above the root hanging under it |
| GuideTree.InsertedRooted | common/buildcraft/lib/client/guide/GuideMenu.java:40-61 | inserting a page keeps every node above the root hanging under it |
| GuideTree.RootedReaches | common/buildcraft/lib/client/guide/GuideMenu.java:124 | every node above the root is reached from the root by a chain of children, which is what the icon click's lookup of a line's node relies on |
| GuideTree.ChainDescends | common/buildcraft/lib/client/guide/GuideMenu.java:124 | a chain of children from the root ends at a node above the root, inside the tree |
| GuideTree.OnPathExtends | common/buildcraft/lib/client/guide/GuideMenu.java:41-58 | a node on a page's path stays on it as the tree grows |
| GuideTree.WalkOnPathStep | common/buildcraft/lib/client/guide/GuideMenu.java:54-56 | after a path step every node the walk has created still lies on the path |
| GuideTree.WalkFollowStep | common/buildcraft/lib/client/guide/GuideMenu.java:43-58 | after step i the first i + 1 translated texts lead from the root to the node reached, which has indent i + 1 |
| GuideTree.NewCategoriesExtend | common/buildcraft/lib/client/guide/GuideMenu.java:54-56 | the categories created before and during a step are all as the walk creates them |
| GuideTree.WalkStepKeeps | common/buildcraft/lib/client/guide/GuideMenu.java:43-58 | one path step keeps the walk's state: consistent tree, old nodes kept, the prefix leads to the node reached, new nodes are fresh categories on the path |
| GuideTree.WalkStep | common/buildcraft/lib/client/guide/GuideMenu.java:43-58 | one iteration of the path loop keeps the walk's state from step i to i + 1 and agrees with `WalkTo` |
| GuideTree.WalkPath | common/buildcraft/lib/client/guide/GuideMenu.java:41-58 | the whole path loop: the translated path leads from the root to the node returned, at indent \|path\|; every new node is a fresh category on the path; the result is `WalkTo` |
| GuideTree.Descend | common/buildcraft/lib/client/guide/GuideMenu.java:44-57 | one path step: the tree is unchanged when a child matches; otherwise the tree is exactly the old one with one category child, at the given indent and with a minus icon, added under `node` and nowhere else; afterwards the step leads to the returned child; the result is `DescendStep` |
| GuideTree.InsertPage | common/buildcraft/lib/client/guide/GuideMenu.java:40-61 | the translated path leads from the root to the returned parent, the title line is a new last node under it at indent \|path\| + 1; every other new node is a category on the page's path; nodes below the root are untouched; the tree is exactly `Inserted` (the walk, then the title line, nothing else) |
| GuideMenu.LinksGrownStep | common/buildcraft/lib/client/guide/GuideMenu.java:63 | recording one more title line grows pageLinks by exactly that key and keeps every earlier entry |
| GuideMenu.MetaGrownStep | common/buildcraft/lib/client/guide/GuideMenu.java:62 | putting one more page grows metaMap by that location, mapped to its meta |
| GuideMenu.Toggle | common/buildcraft/lib/client/guide/GuideMenu.java:126-135 | expanded flips; on a node with a line the icons become plus (and selected plus) when collapsing and minus (and selected minus) when expanding; text, indent and children are kept |
| GuideMenu.ToggleAgrees | common/buildcraft/lib/client/guide/GuideMenu.java:126-135 | icons that agree with the state still agree after a toggle, and two toggles restore the node |
| GuideMenu.ToggleConsistent | common/buildcraft/lib/client/guide/GuideMenu.java:124-135 | toggling a node keeps the tree invariant |
| GuideMenu.ToggleRooted | common/buildcraft/lib/client/guide/GuideMenu.java:124-135 | toggling a node keeps every node above the root hanging under it |
| GuideMenu.GuiGuide.constructor | common/buildcraft/lib/client/guide/GuideMenu.java:36 | the GUI holds the number of sort orders and starts on order 0 |
| GuideMenu.GuideMenu.Built | common/buildcraft/lib/client/guide/GuideMenu.java:38-64 | the tree after the first k pages are inserted in registry order; it only grows |
| GuideMenu.GuideMenu.CoveredStep | common/buildcraft/lib/client/guide/GuideMenu.java:38-64 | after one more page every node above the root is still a title line or on some inserted page's path |
| GuideMenu.GuideMenu.BuildPages | common/buildcraft/lib/client/guide/GuideMenu.java:38-64 | the page loop takes the loading state from no pages to all pages of the registry |
| GuideMenu.GuideMenu.PagePlacedExtends | common/buildcraft/lib/client/guide/GuideMenu.java:59-63 | a placed page stays placed, and keeps its link, as later pages are added |
| GuideMenu.GuideMenu.PagesAtStep | common/buildcraft/lib/client/guide/GuideMenu.java:38-64 | placing one more page keeps all earlier pages placed, in registry order |
| GuideMenu.GuideMenu.CategoriesStep | common/buildcraft/lib/client/guide/GuideMenu.java:54-55 | every category line of the new tree keeps the freshly created state: the default expanded flag and a minus icon |
| GuideMenu.GuideMenu.constructor | common/buildcraft/lib/client/guide/GuideMenu.java:29-32 | the menu holds the given gui, translation, title, location-array function and default expansion, and is what loadMainGui builds with them from an empty state: every registered page placed and linked, nothing but their categories and title lines in the tree, and metaMap holding exactly the registered locations |
| GuideMenu.GuideMenu.AddPage | common/buildcraft/lib/client/guide/GuideMenu.java:39-63 | one iteration of the page loop keeps the loading invariant from k to k + 1 pages |
| GuideMenu.GuideMenu.LoadMainGui | common/buildcraft/lib/client/guide/GuideMenu.java:34-66 | a fresh root; earlier nodes untouched; every page's title line is a child of the node its translated path leads to, in registry order; every other node of the new tree lies on some page's path, and the tree is exactly the pages inserted in registry order (`Built`); title lines are linked to their locations; pageLinks and metaMap only grow; new categories are created with a minus icon |
| GuideMenu.GuideMenu.FirstHit | common/buildcraft/lib/client/guide/GuideMenu.java:100-102 | the first sort-order icon under the mouse, or the count of icons when none is |
| GuideMenu.GuideMenu.CurrentTree | common/buildcraft/lib/client/guide/GuideMenu.java:124-125 | a node is in the current tree (reached from the root by a chain of children) iff its id lies between the root and the end of the arena |
| GuideMenu.GuideMenu.HandleMouseClick | common/buildcraft/lib/client/guide/GuideMenu.java:95-139 | on an even page, a hit sort icon i selects order i, rebuilds the tree and opens nothing. Otherwise a clicked line opens its linked location, if it has one, and changes nothing. Otherwise an icon click on a node of the current tree (see CurrentTree) toggles exactly that node, icons included, and sets numPages to -1. Otherwise nothing changes |
| Blueprint.Schematic.Rotate | d_lp2/buildcraft/lib/bpt/Blueprint.java:49 | the schematic is rotated once more by the rotation |
| Blueprint.Schematic.Translate | d_lp2/buildcraft/lib/bpt/Blueprint.java:76 | the schematic is translated once more by the offset |
| Blueprint.Landing | d_lp2/buildcraft/lib/bpt/Blueprint.java:41-52 | cell p lands at rotate(p) shifted by rotate(oldMax) - oldMax, the array offset |
| Blueprint.LandsApartIff | d_lp2/buildcraft/lib/bpt/Blueprint.java:41-52 | cells land apart exactly when the rotation keeps them apart, since landing only shifts |
| Blueprint.RotateGrid | d_lp2/buildcraft/lib/bpt/Blueprint.java:43-56 | every cell's schematic is rotated exactly once; when distinct cells land apart, each lands at rotate(p) + (newMax - oldMax) in the new grid |
| Blueprint.RotateLayer | d_lp2/buildcraft/lib/bpt/Blueprint.java:45-55 | layer x of the rotation: exactly the cells of layer x are rotated once, and placed at their landing |
| Blueprint.RotateRow | d_lp2/buildcraft/lib/bpt/Blueprint.java:47-54 | row (x, y) of the rotation: exactly its cells are rotated once, and placed at their landing |
| Blueprint.RotateCell | d_lp2/buildcraft/lib/bpt/Blueprint.java:48-53 | one cell: its schematic is rotated once and written at its landing |
| Blueprint.TranslateGrid | d_lp2/buildcraft/lib/bpt/Blueprint.java:72-79 | every non-null cell is translated exactly once by the offset |
| Blueprint.TranslateLayer | d_lp2/buildcraft/lib/bpt/Blueprint.java:73-78 | exactly the non-null cells of layer x are translated once |
| Blueprint.TranslateRow | d_lp2/buildcraft/lib/bpt/Blueprint.java:74-77 | exactly the non-null cells of row (x, y) are translated once; null cells are skipped |
| Blueprint.CellTasks | d_lp2/buildcraft/lib/bpt/Blueprint.java:89-96 | the keys are exactly the non-null cell schematics, each mapped to its own tasks |
| Blueprint.Row | d_lp2/buildcraft/lib/bpt/Blueprint.java:112-115 | the z-walk of a row has one entry per z |
| Blueprint.Layer | d_lp2/buildcraft/lib/bpt/Blueprint.java:111-116 | the y-then-z walk of a layer has ny * nz entries |
| Blueprint.Walk | d_lp2/buildcraft/lib/bpt/Blueprint.java:110-117 | the x-outer, y-middle, z-inner walk has nx * ny * nz entries |
| Seqs.Map | common/buildcraft/lib/client/guide/GuideMenu.java:43-45 | one result per element, in order, each the function applied to that element; used for the translated category path and, in Blueprint, for the per-cell encoding of serializeNBT |
| Seqs.MapAppend | d_lp2/buildcraft/lib/bpt/Blueprint.java:110-117 | mapping a concatenation maps each part, so each loop of serializeNBT appends exactly the encoding of the cells it visits |
| Blueprint.RowIndex | d_lp2/buildcraft/lib/bpt/Blueprint.java:112-113 | entry z of a row's walk is cell (x, y, z) |
| Blueprint.LayerIndex | d_lp2/buildcraft/lib/bpt/Blueprint.java:111-113 | entry y * nz + z of a layer's walk is cell (x, y, z) |
| Blueprint.WalkLayerIndex | d_lp2/buildcraft/lib/bpt/Blueprint.java:110-113 | entry x * (ny * nz) + k of the walk is entry k of layer x |
| Blueprint.WalkIndex | d_lp2/buildcraft/lib/bpt/Blueprint.java:110-113 | cell (x, y, z) is entry (x * ny + y) * nz + z of the walk: x outermost, z innermost |
| Blueprint.EncodedCell | d_lp2/buildcraft/lib/bpt/Blueprint.java:110-117 | in the encoded walk of the whole grid, cell (x, y, z) is encoded at index (x * ny + y) * nz + z; nulls included |
| Blueprint.EncodeBox | d_lp2/buildcraft/lib/bpt/Blueprint.java:110-117 | walking the box from the origin to `last` fails with ArrayIndexOutOfBounds iff the box reaches past the grid; otherwise it yields the encoded walk |
| Blueprint.EncodeLayer | d_lp2/buildcraft/lib/bpt/Blueprint.java:111-116 | one x layer of that walk: it fails iff it reads past the grid, otherwise it appends the layer's encoded walk |
| Blueprint.EncodeRow | d_lp2/buildcraft/lib/bpt/Blueprint.java:112-115 | one row of that walk: it fails iff it reads past the grid, otherwise it appends the row's encoded cells |
| Blueprint.Blueprint.constructor | d_lp2/buildcraft/lib/bpt/Blueprint.java:28-33 | the grid is fresh, has size max - min + 1 on each axis and is empty; there are no entities |
| Blueprint.Blueprint.FromNbt | d_lp2/buildcraft/lib/bpt/Blueprint.java:23-26 | the box comes from the base class; the contents stay unset because deserialisation restores nothing |
| Blueprint.Blueprint.DeserializeNBT | d_lp2/buildcraft/lib/bpt/Blueprint.java:123-125 | nothing changes |
| Blueprint.Blueprint.MirrorContents | d_lp2/buildcraft/lib/bpt/Blueprint.java:64-68 | always fails with AbstractMethodError |
| Blueprint.Blueprint.RotateCells | d_lp2/buildcraft/lib/bpt/Blueprint.java:37-56 | a fresh grid of size rotate(max - min) + 1; every cell's schematic is rotated once; when cells land apart, each cell sits at rotate(p) + (newMax - oldMax) in it |
| Blueprint.Blueprint.RotateContentsBy | d_lp2/buildcraft/lib/bpt/Blueprint.java:36-61 | the stored grid is unchanged (the rotated grid is dropped); every cell's schematic and every entity is rotated exactly once; the ownership invariant holds |
| Blueprint.Blueprint.TranslateContentsBy | d_lp2/buildcraft/lib/bpt/Blueprint.java:71-84 | the grid and cell placement are unchanged; every non-null cell and every entity is translated exactly once by the offset |
| Blueprint.Blueprint.CreateTasks | d_lp2/buildcraft/lib/bpt/Blueprint.java:87-103 | the keys are exactly the non-null cell schematics plus the entities, each mapped to its own tasks |
| Blueprint.Blueprint.SerializeNBT | d_lp2/buildcraft/lib/bpt/Blueprint.java:106-120 | as written: walks from the origin to `max`; fails with ArrayIndexOutOfBounds iff that box reaches past the grid, otherwise yields the encoded walk of Count(max.x) * Count(max.y) * Count(max.z) cells, where Count(n) is n + 1 for n >= 0 and 0 for a negative n (that axis's loop never runs); succeeds when min is the origin |
| Blueprint.Blueprint.SerializeNBTOverruns | d_lp2/buildcraft/lib/bpt/Blueprint.java:110-113 | for a non-empty box in the non-negative octant, serializeNBT reads past the grid iff min is not the origin |
| Blueprint.Blueprint.SerializeContents | d_lp2/buildcraft/lib/bpt/Blueprint.java:106-120 | corrected: walks to `max - min`, never fails, and yields one encoded entry per cell in x-outer, y-middle, z-inner order, nulls included |

## Left out

- Rendering, GL state, the profiler, floating-point vector maths and the
  Minecraft lookups of `RenderTickListener`. Only `appendDiff` and the
  endpoint ordering are modelled.
- `GuidePageBase.handleMouseClick` (the `super` call) and `renderPage` with
  its pagination. `numPages` is modelled as a field that the click handler
  sets to -1 and that `renderPage`, which is left out, would recompute.
- GuideMenu.GuideMenu.constructor: `GuidePageBase`, which holds `numPages`,
  is not part of this model. The constructor's `numPages == -1` is an
  assumed initial value.
- GuideMenu.GuiGuide.constructor: `GuiGuide` is not part of this model. Its
  starting `sortingOrderIndex` of 0 and its number of sort orders are
  assumptions.
- GuideMenu.GuideMenu.LoadMainGui: `PageLine` is not part of this model.
  `pageLinks` is a map keyed by `PageLine`; the model assumes `PageLine` keeps
  `Object`'s identity `equals` and `hashCode`, and keys it by node identity.
  If it compared lines by value, two pages with the same translated title at
  the same indent would share a key, the later overwriting the earlier, and
  a reload would not grow `pageLinks`.
- GuideMenu.GuideMenu.HandleMouseClick: `NodePageLine.getChildNode` is not
  part of this model. The icon click assumes it finds, by identity, the node
  of a line at any depth of the current tree (ids between the root and the
  end of the arena, see CurrentTree). If it searched only the root's direct
  children, an icon click on a nested category would change nothing; the
  model does not capture that reading.
- Widget hit tests and the logging calls. `getClicked`, `getIconClicked` and
  `GuiRectangle.contains` are inputs. Opening a page is returned as the target
  location rather than performed.
- `NodePageLine.sortChildrenRecursivly` is not part of this model. Children
  stay in insertion order, and line 65 is left out.
- `GuideManager.registeredPages` is a map whose iteration order is not shown;
  the model takes it as the order of the `registry` input.
- `NodePageLine`'s default `expanded` flag is not part of this model. It is
  the parameter `newNodeExpanded`.
- `BlueprintBase` is not part of this model. This covers the `rotate`
  function, the min/max bookkeeping after a rotation, the anchor and the
  direction.
- The schematic classes are not part of this model. Their rotate and
  translate effects are a log of transforms. Their tasks are a pure function
  of the schematic and the builder.
- The NBT format is not part of this model. `serializeNBT` yields only the
  "blocks" list. The per-cell encoding is a parameter. The base class's
  compound is not modelled.
- Java's 32-bit `int` and 64-bit `long` arithmetic is not modelled. Sizes
  and indices (`int`) and packed positions (`BlockPos.toLong`, a `long`) are
  unbounded integers.
- Blueprint.Blueprint.RotateContentsBy: requires every cell to be non-null.
  The source throws NullPointerException at the first empty cell, after it
  has already rotated the cells before it. That partial effect is not
  modelled.
- Blueprint.Blueprint.RotateContentsBy: requires every cell to land inside
  the rotated grid, and the rotated size `rotate(max - min) + 1` to be
  non-negative on each axis (`FitsRotation`). Both are assumed of the
  rotation function. The source checks neither: a negative size throws
  NegativeArraySizeException at line 40, and a cell landing outside throws
  ArrayIndexOutOfBoundsException at line 53.
- Blueprint.Blueprint.RotateCells: states each cell's placement only when
  distinct cells land on distinct cells (`LandsApart`). With a colliding
  rotation the last cell written wins.
- Blueprint.Blueprint.Valid: assumes no schematic sits in two cells, no
  entity is listed twice, and no schematic is both a cell and an entity.
  Aliased schematics would be rotated or translated more than once.
- Blueprint.Blueprint.FromNbt: the source leaves `contentEntities` null; the
  model uses an empty list.
- Blueprint.Blueprint.FromNbt: leaves `contentBlocks` null, as the source
  does. RotateContentsBy, TranslateContentsBy, CreateTasks and SerializeNBT
  all require `Valid()`, which needs a grid, so the NullPointerException the
  source throws when they are called on such a blueprint is not modelled.
- Blueprint.Blueprint.constructor: requires `max - min + 1` to be
  non-negative on each axis. For a smaller `max` the source throws
  NegativeArraySizeException at line 31; that failure is not modelled.
- Blueprint.Blueprint.MirrorContents: the thrown AbstractMethodError is
  returned as a failure result.

## Findings

| source | as written | input that shows it | evidently intended | confidence | as-written member | corrected member |
|---|---|---|---|---|---|---|
| d_lp2/buildcraft/lib/bpt/Blueprint.java:110-113 | the serialisation loops run from 0 to `max` on each axis, but the grid is indexed from `min` and has size `max - min + 1` | min = max = (1, 0, 0): the grid is 1×1×1 and the loop reads cell [1][0][0]. The unfinished comment at line 109 ("We have just moved down to") hints that `BlueprintBase.serializeNBT` may first move the box to the origin; that base class is not part of this model, and in that reading there is no overrun, which SerializeNBT's `min == 0` case covers. The same bound silently drops cells when a component of min is negative: min = (-1, 0, 0), max = (0, 0, 0) gives a 2×1×1 grid and one entry, with no exception | loops from 0 to `max - min`, one entry per cell | low to medium, not executed | Blueprint.Blueprint.SerializeNBTOverruns | Blueprint.Blueprint.SerializeContents |
