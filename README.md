# noteTree: tree mutation engine, project store and search, in Dafny

This project models the core of a client-side hierarchical note editor. Notes
form a tree: each node has an `id`, a `title`, a markdown `content` and an
ordered list `child` of sub-notes. Trees are grouped into projects, and every
project's root note has the reserved id `"root"`. The model covers:

- the copy-on-write mutation engine: update a node, add a child, delete
  subtrees, plus the node and project factories;
- the project store, with its current project id and its focused and
  editing node ids;
- the pre-order lookup `findNodeById`;
- the search overlay's flattening (`getAllNodes`) and its case-insensitive
  filter.

Files and modules:

- `wrappers.dfy` (`Wrappers`): `Option`, which stands for the source's `T | null`.
- `seqs.dfy` (`Seqs`): `IsSubseq`, an order-preserving subsequence relation, and its lemmas.
- `tree.dfy` (`Tree`): the `Node` and `Project` records and the measures used in
  contracts. These are the node count (`Size`), the id set (`IdSet`), id
  uniqueness (`Unique`), the pre-order node list (`Flatten`), its
  (id, title, content) outline (`Outline`) and `SameShape`.
- `engine.dfy` (`Engine`): `generateNode`, `createDefaultProject`,
  `updateNodeRecursive`, `addChildRecursive`, `deleteNodeRecursive`, and their
  lemmas.
- `find.dfy` (`NodeFindId`): `findNodeById`, and a proof that it returns the
  first pre-order match.
- `lookup.dfy` (`Lookup`): what `findNodeById` sees after each engine operation.
- `search.dfy` (`SearchNavigator`): `getAllNodes` as a loop method specified by
  `Flatten`, `includes`, the filter, and the search effect.
- `store.dfy` (`Store`): the store as a class `TreeStore` with fields
  `projects`, `currentProjectId`, `focusedNodeId` and `editingNodeId`. Each
  action is a method with `modifies this` that gives the whole new state.
  `Valid()` holds as long as three things do: at least one project exists,
  project ids are unique, and every tree is rooted at `"root"` with unique ids.
  Every action keeps `Valid()`. Where that depends on a fresh id, the
  freshness is the antecedent of the implication.

Parameters stand in for the nondeterministic sources. Random UUIDs are
`freshId` / `projectId` arguments. Each reading of the clock is an opaque
timestamp string: `createdAt` and `updatedAt` when a project is created, and
`now` when a project is stamped. The fixed welcome markdown of the default
root note is a `welcome` argument.

The engine's operations are functions over immutable datatype values, so they
cannot mutate their input: every operation returns a new tree.

Behaviour of the code worth noting:

- `updateNodeRecursive` and `addChildRecursive` stop at a matching node and do
  not search its children. `deleteNodeRecursive` never removes the node it is
  called on. The engine itself has no `"root"` guard; only the store's
  `deleteNode` refuses `"root"` (`src/hooks/useTree.ts:234`).
  `Engine.DeleteRoot` proves that, for a well-formed tree, deleting `"root"`
  is a no-op anyway.
- When `deleteProject` removes the current project, it takes the id of the
  first remaining project, but an empty-string id counts as missing and gives
  `null` (src/hooks/useTree.ts:165-167). The model keeps this.
- `switchProject` does not check that the id exists, so `Valid()` does not claim
  that `currentProjectId` names a project.

## Model

| member | source | states |
|---|---|---|
| `Engine.GenerateNode` | src/hooks/useTree.ts:55-62 | a new node has the given id, title "New Note", empty content and no children; it is one node with unique ids |
| `Engine.CreateDefaultProject` | src/hooks/useTree.ts:64-97 | a new project keeps its id, name and description; its creation and update timestamps are the two clock readings taken while building it; its tree is a single root with id "root", no children, the rocket-and-name title and the templated content |
| `Engine.UpdateNodeRecursive` | src/hooks/useTree.ts:101-107 | an update never changes ids or the arrangement of nodes: the result has the same shape as the input |
| `Engine.Patched` | src/hooks/useTree.ts:102 | spreading the patch keeps the node's children, and its id, title and content are exactly the patched values of the old ones, the same merge as on outline entries |
| `Engine.UpdateAll` | src/hooks/useTree.ts:105 | mapping the update over the children keeps their number, their ids and their arrangement |
| `Engine.UpdateMissing` | src/hooks/useTree.ts:101-107 | updating an id that occurs nowhere returns a tree equal to the input |
| `Engine.UpdateOutline` | src/hooks/useTree.ts:101-107 | with unique ids, the pre-order (id, title, content) outline after an update is the old outline with exactly the entry of that id patched |
| `Engine.UpdateWellFormed` | src/hooks/useTree.ts:101-107 | an update keeps a tree rooted at "root" with unique ids |
| `Engine.AddChildRecursive` | src/hooks/useTree.ts:109-120 | adding keeps the root's fields; the ids afterwards are the old ids plus the new id exactly when the parent exists |
| `Engine.AddChildAll` | src/hooks/useTree.ts:116-119 | mapping over the children keeps their number and their ids, and adds the new id exactly when the parent is among them |
| `Engine.AddChildMissing` | src/hooks/useTree.ts:109-120 | adding under a parent id that occurs nowhere returns a tree equal to the input |
| `Engine.AddChildSize` | src/hooks/useTree.ts:109-120 | with unique ids and an existing parent, the node count rises by exactly one |
| `Engine.AddChildIdCount` | src/hooks/useTree.ts:109-120 | with unique ids, an existing parent and a fresh id, the number of distinct ids rises by exactly one and still equals the node count |
| `Engine.AddChildUnique` | src/hooks/useTree.ts:109-120 | with a fresh id, adding keeps ids unique |
| `Engine.AddChildWellFormed` | src/hooks/useTree.ts:109-120 | with a fresh id, adding keeps a tree rooted at "root" with unique ids |
| `Engine.DeleteNodeRecursive` | src/hooks/useTree.ts:122-129 | the root is kept with its id, title and content; no node below it has the deleted id; ids only disappear and the count never grows |
| `Engine.DeleteAll` | src/hooks/useTree.ts:125-127 | the filtered, recursively cleaned child list contains the deleted id nowhere and holds no new ids or nodes |
| `Engine.DeleteMissing` | src/hooks/useTree.ts:122-129 | deleting an id that occurs nowhere returns a tree equal to the input |
| `Engine.DeleteRoot` | src/hooks/useTree.ts:122-129 | deleting "root" from a tree rooted at "root" with unique ids returns the tree unchanged |
| `Engine.DeleteOrder` | src/hooks/useTree.ts:122-129 | the outline after a delete is an order-preserving subsequence of the outline before: every remaining node existed, in the same relative order |
| `Engine.DeleteUnique` | src/hooks/useTree.ts:122-129 | deleting keeps ids unique |
| `Engine.DeleteWellFormed` | src/hooks/useTree.ts:122-129 | deleting keeps a tree rooted at "root" with unique ids |
| `Engine.DeleteUndoesAddChild` | src/hooks/useTree.ts:109-129 | deleting the node just added under a fresh id gives back exactly the original tree |
| `NodeFindId.FindNodeById` | src/app/libs/nodeFindId.ts:3-11 | a node whose own id matches is returned itself; a result exists exactly when the id occurs in the tree; a result has the requested id and is a subtree of the input |
| `NodeFindId.FindIn` | src/app/libs/nodeFindId.ts:6-9 | the loop over the children finds a node exactly when the id occurs in some child's subtree, and the node it returns is one of them |
| `NodeFindId.FirstMatch` | src/app/libs/nodeFindId.ts:3-11 | reference scan: a result exists exactly when some node of the list has the id, and it is the first such node |
| `NodeFindId.FindIsFirstInPreOrder` | src/app/libs/nodeFindId.ts:3-11 | the lookup returns the first node of the pre-order list with that id, earlier children before later ones, even when ids repeat |
| `Lookup.UpdateTargets` | src/hooks/useTree.ts:101-107 | with unique ids, looking up the updated id gives the node found before, with the patch applied and its id and children kept |
| `Lookup.AddChildTargets` | src/hooks/useTree.ts:109-114 | with unique ids, looking up the parent after adding gives the node found before, with one new leaf appended at the end of its children |
| `Lookup.AddChildOneMore` | src/app/libs/nodeFindId.ts:3-11 | after adding under an existing parent, the lookup shows one more child; the last child has the new id, which was absent from the tree |
| `Lookup.DeleteRemovesFound` | src/hooks/useTree.ts:122-129 | with unique ids, deleting a non-root id removes exactly the subtree the lookup finds: the count drops by its size and the ids lose exactly its ids |
| `Lookup.DeleteKeepsSurvivors` | src/hooks/useTree.ts:122-129 | with unique ids, every node still present after a delete existed before, and its child ids are its old child ids with the deleted id dropped, in the same order: no surviving node is moved to another parent |
| `Lookup.AddUpdateDeleteScenario` | src/hooks/useTree.ts:101-129 | from a bare root: adding gives one child, retitling it "Hi" is visible through the lookup, and deleting it leaves the root with no children |
| `Tree.Flatten` | src/components/SearchNavigator.tsx:8-14 | the pre-order list has one entry per node and starts with the root |
| `Tree.FlattenIds` | src/components/SearchNavigator.tsx:8-14 | the ids that occur in the pre-order list are exactly the ids of the tree |
| `Tree.UniqueCount` | src/hooks/useTree.ts:7-12 | with unique ids, the number of distinct ids equals the number of nodes |
| `SearchNavigator.GetAllNodes` | src/components/SearchNavigator.tsx:8-14 | the array built by the loop is the pre-order list: the root first, then each child's nodes in order; its length is the node count |
| `SearchNavigator.AllNodesHaveIdIffFound` | src/components/SearchNavigator.tsx:8-14 | some node with a given id is in the flattened list exactly when `findNodeById` finds one |
| `SearchNavigator.Includes` | src/components/SearchNavigator.tsx:30-31 | `includes` holds exactly when the needle occurs at some position of the text |
| `SearchNavigator.FilterMatches` | src/components/SearchNavigator.tsx:28-32 | the filter keeps exactly the nodes whose lower-cased title or content contains the lower-cased term, each as often as it occurs, in their original order |
| `SearchNavigator.FilteredNodes` | src/components/SearchNavigator.tsx:25-37 | an empty term or a missing tree gives no results; otherwise the results are exactly the matching nodes of the pre-order list, with their multiplicities, as an order-preserving subsequence of it |
| `Store.FindProject` | src/hooks/useTree.ts:195-198 | the result is none exactly when there is no current id or no project carries it; otherwise it is the first project with the current id |
| `Store.RemoveProject` | src/hooks/useTree.ts:164 | the remaining projects are exactly those with another id, in their original order |
| `Store.RemoveProjectCounts` | src/hooks/useTree.ts:164 | every project with another id is kept as often as it occurred; every project with the id is gone |
| `Store.RemoveProjectMissing` | src/hooks/useTree.ts:164 | removing an id no project carries keeps the list as it is |
| `Store.RemoveProjectKeepsRest` | src/hooks/useTree.ts:160-175 | with unique project ids, at most one project is removed and ids stay unique, so deleting from two or more leaves at least one |
| `Store.TreeStore.constructor` | src/hooks/useTree.ts:136-147 | the store starts valid, with one default project that is current and nothing focused or edited |
| `Store.TreeStore.CreateProject` | src/hooks/useTree.ts:150-158 | one new default project is appended and made current; focus and editing are cleared; with a fresh project id the store stays valid |
| `Store.TreeStore.DeleteProject` | src/hooks/useTree.ts:160-175 | with at most one project nothing changes; otherwise exactly the projects with that id go, in order; current moves to the first remaining project only if it was deleted; focus and editing are cleared; validity is kept |
| `Store.TreeStore.SwitchProject` | src/hooks/useTree.ts:177-183 | current becomes the id; focus and editing are cleared; projects are unchanged |
| `Store.TreeStore.UpdateProject` | src/hooks/useTree.ts:185-193 | only projects with the id get the given name and description merged and a new update time; nothing else changes |
| `Store.TreeStore.GetCurrentProject` | src/hooks/useTree.ts:195-198 | a result is a stored project with the current id; none exactly when no project has it |
| `Store.TreeStore.SetFocusedNode` | src/hooks/useTree.ts:200 | sets the focused id without checking it and changes nothing else |
| `Store.TreeStore.SetEditingNodeId` | src/hooks/useTree.ts:201 | sets the editing id without checking it and changes nothing else |
| `Store.TreeStore.AddChild` | src/hooks/useTree.ts:203-216 | with no current project nothing changes; otherwise only projects with the current id get the tree with the new child and a new update time; order and other projects are kept; with a fresh id validity is kept |
| `Store.TreeStore.UpdateNode` | src/hooks/useTree.ts:218-231 | with no current project nothing changes; otherwise only the current project's tree is replaced by the updated tree; validity is kept |
| `Store.TreeStore.DeleteNode` | src/hooks/useTree.ts:233-247 | deleting "root", or having no current project, changes nothing; otherwise only the current project's tree is replaced by the pruned tree; validity is kept |
| `Store.SwitchScenario` | src/hooks/useTree.ts:150-198 | with projects A and B, switching to B makes B the current project and leaves nothing focused; a store with one project keeps it when asked to delete it |

## Left out

- Persistence: the `persist` middleware and its `"tree-note-data"` storage key are storage I/O. So is restoring the store at startup.
- `crypto.randomUUID()` and `new Date().toISOString()` are parameters, not implementations. Freshness of ids enters only as a hypothesis of the lemmas and of the `Valid()` implications.
- The welcome markdown of `createDefaultProject` is the opaque argument `welcome`. Only the templating on `name` and `description` is modelled.
- `AddChildRecursive`: when several nodes carry the parent id (which unique trees rule out), the source gives each new child its own random id, but the model gives them all the one `freshId`.
- `UpdateNodeRecursive`: the patch holds only `title` and `content`, because these are the only fields the callers pass (src/components/nodeCard.tsx:35, src/components/nodeCard.tsx:44). The declared `Partial<TreeNode>` could also overwrite `id` or `child`.
- `Store.TreeStore.UpdateProject`, `Store.TreeStore.AddChild`, `Store.TreeStore.UpdateNode`, `Store.TreeStore.DeleteNode`: when several projects carry the id (which `Valid()` rules out), the source reads the clock once per matching project (src/hooks/useTree.ts:189, src/hooks/useTree.ts:212, src/hooks/useTree.ts:227, src/hooks/useTree.ts:243), but the model stamps them all with the one `now`.
- `Store.TreeStore.UpdateProject`: a field passed explicitly as `undefined` would be spread as `undefined`; the model treats a missing field as "keep".
- `SearchNavigator.Matches`: `toLowerCase` is modelled as ASCII lower-casing only. Unicode and locale case mapping is not modelled. JavaScript string length counts UTF-16 code units, but here only emptiness matters.
- The React components (rendering, forms, menus, theme, keyboard listener, open/close state of the search overlay) and `src/app/page.tsx` are UI and are not part of this model. The extra argument that nodeCard passes to `addChild` (src/components/nodeCard.tsx:74) is ignored by the store and is not modelled.
- Concurrency: there is none. The store is synchronous and single-threaded.
