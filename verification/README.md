# Plan editor and plan services: a Dafny model

This project models the deterministic core of a collaborative trip-plan
editor and of its server. A plan is a tree of nodes: processes, spots and
moves. The editor keeps the tree in shared Yjs maps in two layouts:

- **v1**: a map from node id to node, where each node carries `parentId`
  and `displayOrder`.
- **v2**: a record map (`planNodesV2`) plus a structure map
  (`planStructure`) from parent id to the ordered list of child ids. The
  root's children live under the sentinel `'root'`.

The model covers:

- **v2 structure**: register, unregister and move of a child id
  (`usePlanTree`).
- **Flatteners**: the two pre-order walks that turn either layout into the
  indented list the editor draws. `buildFlatTreeV2` (v2) and
  `getSortedFlatNodes` (v1) share one generic walk in `PreOrder`.
- **Migration**: the one-shot migration from v1 to v2.
- **Node maps**: the v1 node-map edits (`usePlanNodes`: add with the
  "largest sibling order + 1000" rule, cascading delete, merge update,
  ordered listing) and the v2 record edits (`usePlanData`).
- **Editor forms**: the decisions of the move dialog (ancestry check,
  valid parents, siblings, submit). The decisions of a tree row: the name
  guard, the "smart" time edit and the conflict, warning and waiting
  markers.
- **Server**: the guard chains of the plan, invitation and like services
  (`userService`, `planService`), including search paging and the role
  shown per result. Also the admission decision of the `/ws/plan/:planId`
  WebSocket route.

Each Yjs map or array is a Dafny `map` or `seq`, and each `transact` block
is one pure function from the old value to the new one. The server's
database is the value `Store.Db`. Each service call is a function from a
`Db` to a `Step`: the database afterwards plus `Ok(value)` or
`Err(tag)`. Service calls are modelled one at a time, with no other call
running in between. A call that fails returns the database unchanged:

- Most multi-row calls run in one database transaction.
- `importPlan` is not one transaction. It creates the copy, then deletes
  it again if copying the document fails. The model takes that delete to
  succeed.

Several things the code takes from its environment become parameters:

- **Iteration order.** The order in which a Yjs map yields its entries is
  an `order: seq<string>` parameter. `NodeTypes.Enumerates(order, keys)`
  states that it lists every key exactly once. Contracts that must not
  depend on it say so: `PlanNodes.AddNodeOrderIndependent` and
  `PlanNodes.DeleteNodeRemovesSubtree`.
- **Generated ids.** Generated uuids and database ids are parameters that
  must be fresh.
- **`localeCompare`.** The migration's id tie-break is replaced by
  character-code order (`Common.StrLt`), a fixed total order. It agrees
  with `localeCompare` on the lower-case uuid ids the editor generates,
  but not on ids in general (see `Migration.MigrateOrdering` under
  "## Left out").
- **Time conversions.** `toMin` and `toStr` are function parameters.
- **Token verification.** Verifying the token is an oracle function.

Modules follow the source files:

| module | file |
|---|---|
| `PlanTree` | usePlanTree.ts |
| `PreOrder` | the walk shared by both flatteners |
| `StructureUtils` | structureUtils.ts |
| `TreeUtils` | treeUtils.ts |
| `Migration` | migration.ts |
| `PlanNodes` | usePlanNodes.ts |
| `PlanData` | usePlanData.ts |
| `MoveForm` | MoveNodeForm.tsx |
| `TreeNode` | TreeNode.tsx |
| `Store` | the database |
| `UserService` | userService.ts |
| `PlanService` | planService.ts |
| `PlanSocket` | socket.ts |

`Common`, `NodeTypes` and `Sorting` hold what several of them share:
options, patch cells, the node types of `types/node.ts`, and an insertion
sort proved to give a sorted permutation.

## Model

| member | source | states |
|---|---|---|
| Common.FindIndex | apps/web/src/features/editor/hooks/v2/usePlanTree.ts:31-38 | `findIndexInYArray` gives -1 exactly when the id is absent. Otherwise it gives a position holding the id with no earlier occurrence. |
| Common.InsertAt | apps/web/src/features/editor/hooks/v2/usePlanTree.ts:66 | `Y.Array.insert` of one id: the length grows by one and the id sits at the index. The prefix is kept, the suffix shifts by one, and the multiset gains exactly that id. |
| Common.RemoveAt | apps/web/src/features/editor/hooks/v2/usePlanTree.ts:81 | `Y.Array.delete(i, 1)`: the length drops by one, and the elements before and after `i` close up. |
| PlanTree.Register | apps/web/src/features/editor/hooks/v2/usePlanTree.ts:46-68 | An id already under the parent leaves the whole structure unchanged. Otherwise exactly that id is added under the parent (multiset of the list plus one) and every other key is untouched. A missing parent list is created holding exactly the new id. |
| PlanTree.RegisterPosition | apps/web/src/features/editor/hooks/v2/usePlanTree.ts:62-66 | An index in `[0, len]` inserts there. An absent, negative or too-large index appends. The list grows by one and keeps its other elements in order around the new id. |
| PlanTree.RegisterKeepsNoEmpty | apps/web/src/features/editor/hooks/v2/usePlanTree.ts:50-66 | Registering never leaves an empty stored list. |
| PlanTree.RemoveFirst | apps/web/src/features/editor/hooks/v2/usePlanTree.ts:79-84 | Only the first occurrence is deleted, and everything around it is kept in order. An absent id changes nothing. |
| PlanTree.Unregister | apps/web/src/features/editor/hooks/v2/usePlanTree.ts:71-90 | A missing parent key is a no-op. Otherwise the first occurrence goes, and a list left empty loses its key. |
| PlanTree.UnregisterKeepsNoEmpty | apps/web/src/features/editor/hooks/v2/usePlanTree.ts:86-88 | If no stored list was empty before, none is after. |
| PlanTree.UnregisterAbsentIsNoOp | apps/web/src/features/editor/hooks/v2/usePlanTree.ts:76-84 | On a structure without empty lists, unregistering an id that is not under the parent changes nothing. |
| PlanTree.AdjustedIndex | apps/web/src/features/editor/hooks/v2/usePlanTree.ts:101-110 | The index is lowered by one exactly when the node is already in the target list before `newIndex`. Otherwise it is `newIndex` itself. |
| PlanTree.MoveFrame | apps/web/src/features/editor/hooks/v2/usePlanTree.ts:92-116 | A move changes no list other than those of the two parents, and keeps the no-empty-list invariant. |
| PlanTree.MoveWithinParentPermutes | apps/web/src/features/editor/hooks/v2/usePlanTree.ts:100-114 | Moving a node inside its own parent keeps the multiset of ids under that parent. |
| PlanTree.MoveWithinParentLands | apps/web/src/features/editor/hooks/v2/usePlanTree.ts:100-114 | Inside one parent the node lands at `newIndex - 1` when its old position is below `newIndex <= len`, at `newIndex` when `0 <= newIndex` is at most its old position, and at the end otherwise. Taking it out again gives the list without it. |
| PlanTree.MoveWithinParentIs | apps/web/src/features/editor/hooks/v2/usePlanTree.ts:100-114 | A move inside one parent equals removing the node and inserting it at the landing index. |
| PlanTree.MoveKeepsSingleOccurrence | apps/web/src/features/editor/hooks/v2/usePlanTree.ts:112-113 | If the node occurred once, under `from`, then afterwards it occurs once, under `to`. |
| PlanTree.RegisterAllowsSharing | apps/web/src/features/editor/hooks/v2/usePlanTree.ts:51-66 | Registering looks only at the one parent's list. The example files the same id under two parents. |
| PlanTree.MoveAcceptsCycle | apps/web/src/features/editor/hooks/v2/usePlanTree.ts:92-116 | Nothing stops a move under the node's own child. The example leaves a two-node cycle detached from the root. |
| PreOrder.Visit | apps/web/src/features/editor/utils/structureUtils.ts:23-49 | The walk only adds listed ids to `visited` and emits one entry per id it adds. Earlier output stays as a prefix. It terminates on any structure, cyclic or shared. |
| PreOrder.VisitEmitted | apps/web/src/features/editor/utils/structureUtils.ts:29-45 | The visited set is exactly the set of emitted ids, each emitted once. Every entry comes from its parent's child list. |
| PreOrder.VisitShape | apps/web/src/features/editor/utils/structureUtils.ts:28-47 | What one call emits is a forest at the call's depth under its parent. Each entry is followed by its own subtree, and entries at one level follow child-list order. |
| PreOrder.VisitFromShape | apps/web/src/features/editor/utils/structureUtils.ts:28-48 | The loop from child `i` on emits a forest whose top-level entries are children at positions `i` and later, in list order. |
| PreOrder.SibCons | apps/web/src/features/editor/utils/structureUtils.ts:41-47 | Emitting a child, then its subtree, then the later siblings keeps sibling order and the parent link. |
| PreOrder.FlattenShape | apps/web/src/features/editor/utils/structureUtils.ts:21-51 | Starting from `'root'` at depth 0, no id repeats and each entry sits in its parent's list. Root children have depth 0 and parent `'root'`, and a child has its parent's depth + 1. The output is in pre-order. Every root child is emitted, and so is every child of an emitted id. |
| PreOrder.VisitCovers | apps/web/src/features/editor/utils/structureUtils.ts:23-48 | After a call, every id it newly visited has all its children visited as well, and each of them is emitted by the call. |
| PreOrder.VisitFromAll | apps/web/src/features/editor/utils/structureUtils.ts:28-48 | The loop from child `i` on leaves every child at position `i` or later visited. |
| PreOrder.FlattenComplete | apps/web/src/features/editor/utils/structureUtils.ts:21-51 | The walk misses nothing reachable: all root children are emitted, and all children of an emitted id. |
| StructureUtils.Present | apps/web/src/features/editor/utils/structureUtils.ts:34-37 | Only ids with a record are kept, each paired with its record. |
| StructureUtils.PresentKeepsOrder | apps/web/src/features/editor/utils/structureUtils.ts:28-37 | Skipping ids without a record keeps the order of the others. |
| StructureUtils.FlatTreeV2Shape | apps/web/src/features/editor/utils/structureUtils.ts:15-54 | Every id appears at most once, and every entry carries its record. Each entry is listed under its `parentId`, with depth 0 under `'root'` and one more than the parent below. Siblings follow structure order after the parent's subtree. The length is at most the number of records. Every root child with a record is emitted, and so is every child with a record of an emitted id. |
| StructureUtils.FlatTreeV2Complete | apps/web/src/features/editor/utils/structureUtils.ts:28-47 | A child id with a record, listed under `'root'` or under an emitted id, is emitted. Only ids without a record are skipped. |
| TreeUtils.ChildrenAreGroupMembers | apps/web/src/features/editor/utils/treeUtils.ts:10-18 | A node is grouped under its `parentId`, or under `'unassigned'` when that is null. |
| TreeUtils.FlatEntryIsNode | apps/web/src/features/editor/utils/treeUtils.ts:24-31 | Every output entry is an input node, filed under its group key. |
| TreeUtils.FlatSiblingsOrdered | apps/web/src/features/editor/utils/treeUtils.ts:16-24 | Siblings appear in non-decreasing `displayOrder`. |
| TreeUtils.FlatNodesShape | apps/web/src/features/editor/utils/treeUtils.ts:5-37 | Ids are emitted at most once and the output is no longer than the input. Depth is 0 for root children and the parent's + 1 below. Siblings are ordered by `displayOrder`. Every node grouped under `'root'` is emitted, and so is every node grouped under an emitted id. |
| TreeUtils.FlatNodesComplete | apps/web/src/features/editor/utils/treeUtils.ts:20-34 | The traversal reaches every node whose group key is `'root'` or the id of a node it emitted. |
| TreeUtils.NullParentNeedsUnassigned | apps/web/src/features/editor/utils/treeUtils.ts:10-34 | A node with a null parent is emitted only below an earlier node whose id is `'unassigned'`, never at the top. |
| Sorting.Sort | apps/web/src/features/editor/utils/v2/migration.ts:46-49 | The sort returns a sorted permutation of its input: by `displayOrder`, with ties broken by id when asked. |
| Sorting.SortStable | apps/web/src/features/editor/utils/treeUtils.ts:16-18 | Sorting by `displayOrder` alone keeps nodes with equal `displayOrder` in their input order. |
| Sorting.TieByCharCode | apps/web/src/features/editor/utils/v2/migration.ts:46-49 | Ids "B" and "a" with equal `displayOrder` are filed "B" first, which is character-code order and not the locale order the code asks for. |
| NodeTypes.Group | apps/web/src/features/editor/utils/v2/migration.ts:37-41 | A group holds exactly the nodes whose parent key (null read as the fallback) is the group's key, each as often as in the input. |
| Migration.BuildStructure | apps/web/src/features/editor/utils/v2/migration.ts:44-55 | A key is present exactly when it is some node's parent key. It holds the ids of that group, sorted. |
| Migration.Migrate | apps/web/src/features/editor/utils/v2/migration.ts:13-71 | The v1 map is never changed. A non-empty v2 map or structure, or an empty v1 map, makes the call a no-op. |
| Migration.MigrateIdempotent | apps/web/src/features/editor/utils/v2/migration.ts:21-24 | Running the migration twice is running it once. |
| Migration.MigrateRecords | apps/web/src/features/editor/utils/v2/migration.ts:58-66 | The v2 map's keys are exactly the v1 ids. Each record copies only id, type, name and location. |
| Migration.MigrateFiling | apps/web/src/features/editor/utils/v2/migration.ts:37-55 | Every v1 id occurs in exactly one list: its parent's, or `'root'` for a null parent. Every listed id is a v1 node filed under its parent. No list is empty. |
| Migration.MigrateOrdering | apps/web/src/features/editor/utils/v2/migration.ts:46-49 | Each list is strictly ordered by `displayOrder`, with ties broken by id in character-code order. |
| PlanNodes.MaxSiblingOrder | apps/web/src/features/editor/hooks/usePlanNodes.ts:63-66 | Absent exactly when no node has that parent. Otherwise it bounds every sibling's `displayOrder` and is attained by one of them. |
| PlanNodes.AddNode | apps/web/src/features/editor/hooks/usePlanNodes.ts:47-81 | Exactly one fresh key is added and every existing entry is kept. The new node has the given fields, `'NONE'` time and the overlaid extras. Its order exceeds every sibling's by at least 1000, and is 1000 with no sibling. |
| PlanNodes.AddNodeOrderIsMaxPlus | apps/web/src/features/editor/hooks/usePlanNodes.ts:63-73 | With siblings, the new order is one sibling's order + 1000, so it is exactly the maximum + 1000. |
| PlanNodes.AddNodeOrderIndependent | apps/web/src/features/editor/hooks/usePlanNodes.ts:63 | The result does not depend on the order the map yields its values. |
| PlanNodes.ChildIds | apps/web/src/features/editor/hooks/usePlanNodes.ts:92-93 | The children found are exactly the current nodes whose `parentId` is the id. |
| PlanNodes.DeleteRec | apps/web/src/features/editor/hooks/usePlanNodes.ts:90-115 | The id is gone afterwards and only entries are removed. It terminates because twice the map size, plus one while the id is absent, falls. |
| PlanNodes.DeleteNode | apps/web/src/features/editor/hooks/usePlanNodes.ts:84-118 | The node is removed and what remains is a sub-map of the original. |
| PlanNodes.DeleteNodeRemovesSubtree | apps/web/src/features/editor/hooks/usePlanNodes.ts:90-116 | A key survives exactly when it is neither the id nor linked to it by a `parentId` chain. Survivors are unchanged. |
| PlanNodes.DeleteAbsentStillCascades | apps/web/src/features/editor/hooks/usePlanNodes.ts:95-111 | Deleting an id that is already gone still removes its children. |
| PlanNodes.UpdateNode | apps/web/src/features/editor/hooks/usePlanNodes.ts:121-133 | Keys never change, other entries are untouched, and an absent id is a no-op. |
| PlanNodes.UpdateNodeFields | apps/web/src/features/editor/hooks/usePlanNodes.ts:126-131 | A supplied field overwrites and an omitted one is kept. |
| PlanNodes.UpdateNodeIdempotent | apps/web/src/features/editor/hooks/usePlanNodes.ts:126-131 | An empty update is the identity, and repeating an update changes nothing more. |
| PlanNodes.NodeList | apps/web/src/features/editor/hooks/usePlanNodes.ts:19-27 | The exposed list is sorted by `displayOrder`. |
| PlanNodes.NodeListShape | apps/web/src/features/editor/hooks/usePlanNodes.ts:19-27 | The list holds every stored node exactly once and nothing else. |
| PlanData.CreateNodeData | apps/web/src/features/editor/hooks/usePlanData.ts:28-42 | Key `id` gets `{id, type, name}` overlaid with the extras. No other key changes. |
| PlanData.CreateKeepsKeyed | apps/web/src/features/editor/hooks/usePlanData.ts:32-41 | When the extras do not override the id, every record stays stored under its own id. |
| PlanData.UpdateNodeData | apps/web/src/features/editor/hooks/usePlanData.ts:45-59 | An absent id leaves the map unchanged. Keys never change and other records are untouched. |
| PlanData.UpdateNodeDataFields | apps/web/src/features/editor/hooks/usePlanData.ts:54-57 | The record becomes `{...current, ...updates}`. |
| PlanData.UpdateNodeDataIdempotent | apps/web/src/features/editor/hooks/usePlanData.ts:54-57 | Empty updates are the identity, and repeating an update changes nothing more. |
| PlanData.DeleteNodeData | apps/web/src/features/editor/hooks/usePlanData.ts:62-69 | Only `id` is removed, and an absent id leaves the map unchanged. |
| PlanData.CreateThenDelete | apps/web/src/features/editor/hooks/usePlanData.ts:28-69 | Deleting what was just created, or created and updated, gives back the map without that key. |
| MoveForm.IsDescendant | apps/web/src/features/editor/components/TimelineView/PlanTree/MoveNodeForm.tsx:11-21 | False for a null or `'root'` target, and true when the target is the source. |
| MoveForm.IsDescendantEnds | apps/web/src/features/editor/components/TimelineView/PlanTree/MoveNodeForm.tsx:14-19 | On a list where every parent comes before its children, the loop always ends. |
| MoveForm.IsDescendantIff | apps/web/src/features/editor/components/TimelineView/PlanTree/MoveNodeForm.tsx:13-20 | Whenever the loop ends within its lookups, the result is true exactly when the source lies on the `parentId` chain from the target (inclusive), before a null, `'root'` or missing node. |
| MoveForm.ParentsFirstEnds | apps/web/src/features/editor/components/TimelineView/PlanTree/MoveNodeForm.tsx:14-19 | When every parent precedes its children, the loop ends from every node of the list. |
| MoveForm.CycleNeverEnds | apps/web/src/features/editor/components/TimelineView/PlanTree/MoveNodeForm.tsx:14-19 | Two nodes that are each other's parent make the loop run out of lookups without an answer. |
| MoveForm.FlatTreeParentsFirst | apps/web/src/features/editor/utils/structureUtils.ts:39-47 | The list `buildFlatTreeV2` gives the dialog has each parent before its children. |
| MoveForm.ValidParents | apps/web/src/features/editor/components/TimelineView/PlanTree/MoveNodeForm.tsx:29-37 | Empty without a target. Otherwise, when the loop ends from every node, it holds exactly the PROCESS nodes that are neither the target nor below it, in list order. |
| MoveForm.ValidParentNotBelow | apps/web/src/features/editor/components/TimelineView/PlanTree/MoveNodeForm.tsx:29-37 | The target is reached from no valid parent by any number of steps up. |
| MoveForm.Siblings | apps/web/src/features/editor/components/TimelineView/PlanTree/MoveNodeForm.tsx:39-43 | Exactly the nodes listed under the chosen parent, minus the target, in list order. |
| MoveForm.SiblingsInListOrder | apps/web/src/features/editor/components/TimelineView/PlanTree/MoveNodeForm.tsx:39-43 | With distinct entries, a sibling shown earlier stands earlier in the node list. |
| MoveForm.Submit | apps/web/src/features/editor/components/TimelineView/PlanTree/MoveNodeForm.tsx:45-52 | Nothing is sent without a target. The choice of `'root'`, and only that choice, is sent as a null parent. |
| MoveForm.SubmitRoundTrip | apps/web/src/features/editor/components/TimelineView/PlanTree/MoveNodeForm.tsx:40-52 | With a target chosen a request is sent, and its parent read back with null as `'root'` (as the sibling list reads parents) is the dialog's choice. |
| TreeNode.TrimEmptyIff | apps/web/src/features/editor/components/TimelineView/PlanTree/TreeNode.tsx:50 | `trim()` gives the empty string exactly when every character is white space. |
| TreeNode.HandleNameSave | apps/web/src/features/editor/components/TimelineView/PlanTree/TreeNode.tsx:49-54 | An update is sent exactly when the entry is not all white space and differs from the current name. It carries the untrimmed entry. |
| TreeNode.HandleTimeSave | apps/web/src/features/editor/components/TimelineView/PlanTree/TreeNode.tsx:56-65 | The update always sets start, end and duration: start and duration from the form, with an empty start absent. No other field is sent. |
| TreeNode.EndAsEntered | apps/web/src/features/editor/components/TimelineView/PlanTree/TreeNode.tsx:57-65 | With start and duration unchanged, the end sent is the form's, or absent when it is empty. |
| TreeNode.StartMoveKeepsSpan | apps/web/src/features/editor/components/TimelineView/PlanTree/TreeNode.tsx:69-77 | When the duration rule does not fire and a moved start shifts the end, the new end lies as far after the new start as the stored end lay after the stored start. |
| TreeNode.StartMoveShiftsEnd | apps/web/src/features/editor/components/TimelineView/PlanTree/TreeNode.tsx:69-77 | When the duration rule does not fire, a changed non-empty start with a stored end and three parsable times moves the end by the start's shift. |
| TreeNode.EndOtherwiseAsEntered | apps/web/src/features/editor/components/TimelineView/PlanTree/TreeNode.tsx:66-83 | When neither the duration rule nor the shift fires, the end sent is the form's, or absent when it is empty. |
| TreeNode.DurationChangeDropsEnd | apps/web/src/features/editor/components/TimelineView/PlanTree/TreeNode.tsx:80-83 | A changed duration with both ends filled in drops the end. This wins over the shift. |
| TreeNode.TimeSaveApplied | apps/web/src/features/editor/components/TimelineView/PlanTree/TreeNode.tsx:85 | Applied by `updateNode`, the time save sets start and duration and changes no field besides the three. |
| TreeNode.RowMarkers | apps/web/src/features/editor/components/TimelineView/PlanTree/TreeNode.tsx:122-129 | Conflict holds iff the gap is negative. Warning holds iff out of parent range or internal mismatch. The wait banner shows iff the gap is positive. |
| TreeNode.MarkersExclusive | apps/web/src/features/editor/components/TimelineView/PlanTree/TreeNode.tsx:122-129 | A row never shows both conflict and wait. It shows neither exactly when the gap is zero. |
| Store.LikesOf | apps/server/src/services/planService.ts:85-87 | Exactly the likes whose plan is the given one. |
| UserService.CreatePlan | apps/server/src/services/userService.ts:61-83 | Together: the private plan with its creator, and the creator's OWNER membership. Nothing else changes. An unknown user fails with nothing written. |
| UserService.CopyOf | apps/server/src/services/userService.ts:102-112 | The copy is titled `"<title> のコピー"`, keeps the description, is private and belongs to the importer. |
| UserService.ImportPlanAsWritten | apps/server/src/services/userService.ts:86-125 | On success, only the copy is added (no membership row). On failure nothing remains. |
| UserService.ImportPlan | apps/server/src/services/userService.ts:86-125 | As above, with the importer's OWNER row written beside the copy. |
| UserService.ImportPlanErrors | apps/server/src/services/userService.ts:92-124 | PLAN_NOT_FOUND comes before PLAN_IS_PRIVATE. A failed document copy leaves no plan. Both versions fail alike. |
| UserService.SendInvitationSpec | apps/server/src/services/userService.ts:344-415 | FORBIDDEN_NOT_OWNER, USER_NOT_FOUND, ALREADY_MEMBER and ALREADY_INVITED, in that order. Success adds exactly one PENDING invitation and one INVITATION notification to the invitee, and nothing else. |
| UserService.SendInvitationTwice | apps/server/src/services/userService.ts:381-391 | The same invitation sent again is refused as ALREADY_INVITED. |
| UserService.SendInvitationFindsUser | apps/server/src/services/userService.ts:360-379 | In a consistent store, an invitee with an account is never reported as USER_NOT_FOUND; success invites that user, and ALREADY_MEMBER comes exactly when they are a member. |
| UserService.RespondToInvitation | apps/server/src/services/userService.ts:418-470 | INVITATION_NOT_FOUND, then FORBIDDEN_NOT_INVITEE. Accepting adds an EDITOR row only if there was none. The invitation is deleted either way, and nothing else changes. |
| UserService.AcceptMakesMember | apps/server/src/services/userService.ts:436-462 | After accepting, the invitee is a member, keeping any earlier role. Declining leaves the memberships alone. |
| UserService.AddLike | apps/server/src/services/userService.ts:475-526 | A missing plan fails, and an existing like is returned with nothing changed. Otherwise the like is stored, and the creator is notified unless they are the liker. |
| UserService.AddLikeIdempotent | apps/server/src/services/userService.ts:494-496 | A second like changes nothing and answers as the first did. |
| UserService.RemoveLike | apps/server/src/services/userService.ts:529-545 | Always reports success and removes only that like. An absent like changes nothing. |
| UserService.LikeThenUnlike | apps/server/src/services/userService.ts:499-545 | Unliking a fresh like restores the likes. |
| UserService.Skip | apps/server/src/services/userService.ts:139 | From page 1 on, the offset is never negative. |
| UserService.TotalPages | apps/server/src/services/userService.ts:232 | The least page count whose pages hold all results, as `Math.ceil(total / limit)` is. |
| UserService.PageOfRow | apps/server/src/services/userService.ts:232 | Every result row lies on exactly one page, and that page is within the page count. |
| UserService.Matches | apps/server/src/services/userService.ts:141-150 | A plan is matched exactly when it is public and, given a query, its title contains it. Matches keep the order of the plan enumeration. |
| UserService.MatchesKeepOrder | apps/server/src/services/userService.ts:141-170 | With a duplicate-free enumeration, an earlier match stands earlier in it. |
| UserService.MatchesCount | apps/server/src/services/userService.ts:197-199 | The count query counts each matched plan once. |
| UserService.SearchRole | apps/server/src/services/userService.ts:206-215 | Undefined for a guest. Otherwise OWNER for the creator, MEMBER for another member, and VIEWER for everyone else. |
| UserService.SearchPlans | apps/server/src/services/userService.ts:128-235 | A page holds the matched rows from `skip` on, up to `limit` of them, each with the viewer's like flag and role. The total is the number of matches and the page count is their ceiling quotient. The page and limit asked for are returned as given. |
| UserService.SearchShowsOnlyMatches | apps/server/src/services/userService.ts:141-150 | Every plan shown is public and matches the query. |
| UserService.SearchFindsEveryMatch | apps/server/src/services/userService.ts:128-235 | Every match appears on a page within the reported page count. |
| UserService.SearchPageInOrder | apps/server/src/services/userService.ts:153-170 | The plans on a page appear in the order of the enumeration standing for `orderBy`. |
| UserService.CreatePlanConsistent | apps/server/src/services/userService.ts:61-83 | Creating a plan keeps every foreign key valid. |
| UserService.ImportPlanConsistent | apps/server/src/services/userService.ts:86-125 | Importing keeps every foreign key valid. |
| UserService.SendInvitationConsistent | apps/server/src/services/userService.ts:393-411 | The new invitation and notification point at existing rows. |
| UserService.RespondConsistent | apps/server/src/services/userService.ts:436-462 | Answering an invitation keeps every foreign key valid. |
| UserService.AddLikeConsistent | apps/server/src/services/userService.ts:499-522 | The new like and notification point at existing rows. |
| PlanService.NotesWithout | apps/server/src/services/planService.ts:42-45 | Exactly the notifications of other plans remain, each as often as before and in the same order. |
| PlanService.DeletePlan | apps/server/src/services/planService.ts:28-48 | PLAN_NOT_FOUND, then FORBIDDEN_NOT_OWNER for a non-creator. On success the plan goes together with exactly the rows that point at it. Every other notification stays, with its multiplicity and order. |
| PlanService.DeletePlanConsistent | apps/server/src/services/planService.ts:42-45 | Deleting a plan leaves no dangling reference. |
| PlanService.UpdatePlan | apps/server/src/services/planService.ts:52-71 | The same guards as delete. On success only the supplied fields of that plan change. |
| PlanService.UpdatePlanIdempotent | apps/server/src/services/planService.ts:63-68 | An empty update returns the plan unchanged, and repeating an update changes nothing more. |
| PlanService.GetLikeCount | apps/server/src/services/planService.ts:76-89 | PLAN_NOT_FOUND exactly for a missing plan. Otherwise the number of that plan's likes. |
| PlanService.LikeCountFollowsLikes | apps/server/src/services/planService.ts:85-87 | A new like raises the count by one, and removing it restores the count. |
| PlanService.HasUserLiked | apps/server/src/services/planService.ts:92-115 | The plan is checked before the user. Then true exactly when the like exists. |
| PlanService.LikedFollowsLikes | apps/server/src/services/planService.ts:109-114 | Liked after `addLike` and not liked after `removeLike`. |
| PlanService.GetPlanMembers | apps/server/src/services/planService.ts:118-181 | Members are shown with their names and roles. Only PENDING invitations of the plan are listed, and an invitee without an account gets no id and the placeholder name. |
| PlanService.MembersComplete | apps/server/src/services/planService.ts:130-179 | Every membership and every pending invitation of the plan is listed. |
| PlanService.InvitationListed | apps/server/src/services/planService.ts:144-179 | An invitation just sent appears among the invited, with its invitee's id and name. |
| PlanSocket.Admit | apps/server/src/routes/plan/socket.ts:11-84 | A non-socket request gets 400. A missing plan id, missing token or failed verification each close with 1008, in that order. Attachment happens exactly when all checks pass and uses the plan id as the document name. A failed lookup or setup closes with 1011. |
| PlanSocket.NonMemberRefused | apps/server/src/routes/plan/socket.ts:44-53 | A verified user without a membership is closed with 1008 and not attached. |
| PlanSocket.CreatorAdmitted | apps/server/src/routes/plan/socket.ts:44-73 | The creator of a plan made with `createPlan` is attached to it. |
| PlanSocket.ImportAsWrittenLocksOutImporter | apps/server/src/routes/plan/socket.ts:44-53 | As written, an importer is refused with 1008 on their own copy and cannot invite to it. |
| PlanSocket.ImportAdmitsImporter | apps/server/src/routes/plan/socket.ts:44-73 | With the OWNER row written, the importer is attached to the copy and may invite. |

## Behaviour of the code worth knowing

These are points where the code does something a reader might not
expect. The model follows the code in each case:

- **Register with a bad index.** Any index that is negative or beyond the
  end appends the id; it is not clamped into the list
  (usePlanTree.ts:62-64). See `PlanTree.RegisterPosition`.
- **The move correction.** The index is lowered whenever the node already
  sits in the target list before `newIndex`, whatever the source parent,
  not only for a move within one parent (usePlanTree.ts:102-110). See
  `PlanTree.AdjustedIndex`.
- **A move past the end.** A node moved within its parent past its old
  position lands at `newIndex - 1` only while `newIndex <= len`. Beyond
  that it goes to the end. See `PlanTree.MoveWithinParentLands`.
- **Deleting a node.** Neither `deleteNode` (v1) nor `deleteNodeData`
  (v2) touches the structure map (usePlanNodes.ts:84-118,
  usePlanData.ts:62-69), so a deleted id stays filed under its parent.

## Left out

- Yjs CRDT merging, convergence, concurrent edits, observers, React state
  and undo grouping are not modelled. Each `transact` is one sequential step,
  and the nested `transact` of a move composes sequentially.
- The `if (!ydoc) return` guards are not modelled. A missing document
  makes every editor call a no-op.
- Persistence and sync are not modelled: the Yjs setup and LevelDB store,
  the `setupWSConnection` relay, the `binaryType` patch, and the document
  copy `duplicateYjsDoc`. That copy's success is the `duplicated`
  parameter of `importPlan`.
- Token verification (JWT, bcrypt) is the oracle parameter `verify` of
  `PlanSocket.Admit`. The membership lookup and setup raising errors are
  the flags `lookupOk` and `setupOk`.
- The time-annotation pass that computes `gapFromPrev`,
  `isOutOfParentRange` and `hasInternalMismatch` is not modelled. The
  three values, and `toMin`/`toStr`, are parameters.
- NodeTypes.PlanNode: `displayOrder` is an integer. In the code it is a
  JS `number`, and `updateNode` and `updateNodeData` accept any number,
  fractions and `NaN` included (apps/web/src/features/editor/types/node.ts:44).
  A `NaN` makes the comparator `a.displayOrder - b.displayOrder`
  inconsistent, so `Array.prototype.sort` promises no order at all. The
  model's `Sorted`, `SortStable` and `MigrateOrdering` hold for integer
  orders only; fractions would need `real` and are not modelled.
- Migration.MigrateOrdering: ties in `displayOrder` are broken by
  character-code order, not by `localeCompare`. The two differ on mixed
  case: `Sorting.TieByCharCode` shows "B" filed before "a", where the
  locale order puts "a" first. `localeCompare` also answers 0 for
  distinct but canonically equivalent strings, so the code's order need
  not be strict. On the lower-case uuid ids the editor generates the two
  orders agree.
- PlanService.UpdatePlan: only `title`, `description` and `isPublic` are
  modelled. The code spreads the whole request body into the update
  (apps/server/src/services/planService.ts:63-66), and the route passes
  the body through unchecked (apps/server/src/routes/plan/profile.ts:62-72).
  So a creator can also write other columns, `creatorId` among them, and
  can set `description` to `null`. The model's promise that nothing else
  changes holds only for bodies with the three declared fields.
- `Number(formDuration)` can give `NaN` or a fraction. The duration is the
  integer `newDur`.
- Map iteration order is the `order` parameter. Wherever the code reads
  `Array.from(map.values())`, the model reads the map in that order.
- MoveForm.IsDescendant: the loop is allowed `|nodes|` lookups. A chain
  that does not cycle visits each position at most once, so it always
  ends within them. The model answers `Loops` exactly when the chain
  cycles, which is when the code never returns. The loop is proved to end
  on lists where each parent precedes its children
  (`MoveForm.IsDescendantEnds`). `buildFlatTreeV2` gives such lists
  (`MoveForm.FlatTreeParentsFirst`).
- MoveForm.IsDescendantIff requires the loop to end, because a loop that
  never returns has no answer to compare.
- MoveForm.ValidParents and MoveForm.ValidParentNotBelow require the
  ancestry check to end for every listed node (`MoveForm.Ends`). That is
  when the code's filter finishes. `MoveForm.CycleNeverEnds` shows a
  two-node cycle where it does not. `MoveForm.ParentsFirstEnds` shows that
  the flat tree always meets the requirement.
- PlanNodes.DeleteNode requires every v1 node to be stored under its own
  id (`NodesKeyed`). The recursion follows `child.id`, so a map breaking
  this can make the code loop.
- Migration.Migrate requires `NodesKeyed` too. The migration keys records
  by `node.id`, so a map breaking this can mix records.
- PlanNodes.AddNode requires a fresh id, in place of the uuid generator.
- UserService.CreatePlan requires a fresh plan id, in place of the
  generated one; a new invitation id likewise.
- UserService.CreatePlan: the database's default for `isPublic` is taken
  to be false. The schema is not part of this model.
- PlanService.DeletePlan removes the plan's memberships, invitations,
  likes and notifications with it. That is the cascade the code's comment
  relies on; the schema is not part of this model.
- Notification rows keep `invitationId` after `respondToInvitation`
  deletes the invitation. The model does not check that link.
- UserService.SearchPlans requires `page >= 1` and `limit >= 1`. The
  route clamps both before the call
  (apps/server/src/routes/user/activity.ts:94-95).
- UserService.SearchPlans takes the result order ("newest" or "popular")
  as the `order` parameter, because `createdAt` is not modelled.
- UserService.Matches treats `contains` as case-sensitive substring
  search.
- UserService.AddLike always succeeds on a repeated like. The code checks
  for an existing like outside its transaction, so two likes racing each
  other can hit the unique key and throw. Calls are modelled one at a
  time.
- UserService.ImportPlanAsWritten and UserService.ImportPlan take the
  compensating delete to succeed. In the code that delete can throw
  itself and leave the copy behind (userService.ts:119-123).
- UserService.SearchFindsEveryMatch states the page bound through the
  count of all listed plans, which `UserService.MatchesCount` ties to the
  result list.
- The shaping of Prisma `select`/`include` results beyond the fields
  named above is not modelled: creator names, counts and timestamps.
- `ForeignKey` stands for the database rejecting a row that names a
  missing user. `createPlan`, `importPlan` and `addLike` can raise it.
- The other `userService` calls are not modelled: `updateUser`,
  `getUserPublicProfile`, `getPlansByOwner`, `getMyParticipatingPlans` and
  `getLikedPlansByUser`. They are reads or single-row writes outside this
  core. `planService.getPlanDetail` is a single read.
- `notificationService` (database calls and date arithmetic) and
  `routeService` (an HTTP client) are not modelled. The HTTP route
  handlers, their status mapping and `Number()` parsing are not modelled
  either.

## Findings

| source | as written | input that shows it | evidently intended | confidence | as-written member | corrected member |
|---|---|---|---|---|---|---|
| apps/server/src/services/userService.ts:102-112 | `importPlan` creates the copy with `creatorId` set to the importer but writes no `planMember` row | any user importing any public plan: the WebSocket route then closes their connection to the copy with 1008, and `sendInvitation` on it fails with FORBIDDEN_NOT_OWNER | an OWNER membership for the importer, as `createPlan` writes in the same transaction | not executed | UserService.ImportPlanAsWritten, PlanSocket.ImportAsWrittenLocksOutImporter | UserService.ImportPlan, PlanSocket.ImportAdmitsImporter |
