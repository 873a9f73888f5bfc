# Family-group hydrator

A Dafny model of the grouping step of a royal-family chart. Before the chart is drawn, a flat
list of family members is annotated with the family group each member belongs to. A group
owns the subtree below its head of family.

The hydrator works in three steps:

1. It scans the members and appends each member's key to its parent's children list. A parent
   of `undefined` or `0` is falsy and is skipped.
2. It walks the subtree of each of nine hard-coded groups, depth first, starting from the
   group's head of family. Every visited key is tagged with the group's key.
3. It returns the members, each tagged with its truthy group key if it has one. The group
   records follow, unchanged.

The children index and the tag map are module-level in the source, so they outlive a call.
The model keeps them as the two fields of the class `GroupHydrator`.

Files:

- `data_types.dfy` (module `DataTypes`): the record shapes `FamilyMember` and `FamilyGroup`.
  The descriptive fields are one opaque `Payload`, and optional fields are `Option`.
- `group_hydration.dfy` (module `GroupHydration`):
  - the registry;
  - the specification functions of the three steps (`IndexChildren`, `Reach`/`TagGroups`,
    `AnnotateOne`/`AnnotateAll`/`Output`);
  - the proof that the walk visits exactly the keys reachable by parent-to-child paths;
  - the class `GroupHydrator`. Its methods `Traverse`, `IndexMembers`, `WalkGroups` and
    `Hydrate` work step by step, as the source does, and are proved against those functions.
    Its invariant `Valid()` includes that every tagged key lies below some registry head in
    the current index.
- `hydration_properties.dfy` (module `HydrationProperties`): what the three steps promise.
  - The index equals an independent filter of the members.
  - When group subtrees overlap, the last group in registry order wins.
  - Tags from earlier calls never survive as such: after every call the tag map is exactly
    what the walks over the accumulated index write from an empty map.
  - A second call on the members the first call returned leaves the tags as they were and
    returns the first call's result.
  - A concrete three-generation scenario against the real registry.

The source recurses without a cycle guard. The walk therefore takes a ghost `rank` map. Every
key listed as a child must rank below its parent (`Ranked`). `ReachIsDescends` shows that the
set of visited keys does not depend on which rank is chosen.

JavaScript truthiness is written out as `Truthy`: `undefined` and `0` are both false. It is
used both for the `parent` test and for the looked-up group key.

Three points of the code's behaviour are easy to miss:

- The two maps persist across calls.
- A member that gets no truthy group is returned untouched, so any `group` field it already
  had is kept.
- Only a truthy `parent` is indexed, so a parent of `0` is ignored.

## Model

| member | source | states |
|---|---|---|
| `GroupHydration.Registry` | app/src/data/hydrate-with-group-data.ts:4-49 | nine groups; group i has key -(i+1) and head of family i+7; all are flagged isGroup and named; keys are pairwise distinct |
| `GroupHydration.Truthy` | app/src/data/hydrate-with-group-data.ts:72 | JavaScript truthiness of an optional number: false exactly for `undefined` and for 0 |
| `GroupHydration.Lookup` | app/src/data/hydrate-with-group-data.ts:65 | `get(k) \|\| []`: an absent key reads as the empty list, a present key as its list |
| `GroupHydration.Get` | app/src/data/hydrate-with-group-data.ts:85 | `get(k)`: defined exactly when the key is present, and then the stored group key |
| `GroupHydration.AddChild` | app/src/data/hydrate-with-group-data.ts:72-77 | a truthy parent gains the member key at the end of its list, created on first use; no other list changes and no other key is added |
| `GroupHydration.IndexChildren` | app/src/data/hydrate-with-group-data.ts:71-78 | scanning members never removes a key, only extends lists at their end (every earlier list is a prefix of the new one), and creates no list under 0 |
| `GroupHydration.IndexKeepsEdges` | app/src/data/hydrate-with-group-data.ts:71-78 | a child listed under a parent stays listed after further members are scanned |
| `GroupHydration.Reach` | app/src/data/hydrate-with-group-data.ts:58-68 | the keys the walk from k visits; k itself is always among them |
| `GroupHydration.ReachAll` | app/src/data/hydrate-with-group-data.ts:65-67 | the keys visited by walking a children list; every listed child is among them |
| `GroupHydration.ReachAllMembers` | app/src/data/hydrate-with-group-data.ts:65-67 | the keys visited from a children list are exactly those visited from one of its entries |
| `GroupHydration.ReachHasPath` | app/src/data/hydrate-with-group-data.ts:58-68 | every key the walk visits lies on a parent-to-child path from the start key |
| `GroupHydration.PathInReach` | app/src/data/hydrate-with-group-data.ts:58-68 | the end of every parent-to-child path is visited by the walk from the path's start |
| `GroupHydration.ReachIsDescends` | app/src/data/hydrate-with-group-data.ts:58-68 | the walk from k visits x if and only if x is k or a descendant of k in the index, whatever rank bounds the recursion |
| `GroupHydration.DescendsAlongEdges` | app/src/data/hydrate-with-group-data.ts:65-67 | a descendant over one index is a descendant over any index that lists at least the same children |
| `GroupHydration.Tag` | app/src/data/hydrate-with-group-data.ts:63 | what one walk writes with `memory.set`: exactly the visited keys, each bound to the group key |
| `GroupHydration.TagGroups` | app/src/data/hydrate-with-group-data.ts:80-82 | the tags after the walks in registry order: no earlier entry is removed, and the last group's head holds the last group's key |
| `GroupHydration.TagGroupsDomain` | app/src/data/hydrate-with-group-data.ts:80-82 | a key is tagged after the walks exactly when it was tagged before or some group's walk visits it |
| `GroupHydration.TagGroupsOverride` | app/src/data/hydrate-with-group-data.ts:80-82 | the tags after the walks are the earlier tags overridden by what the walks write from an empty map |
| `GroupHydration.TagKeepsGroupKeys` | app/src/data/hydrate-with-group-data.ts:80-82 | a walk for a registry group leaves only registry keys in the tag map |
| `GroupHydration.TagUnion` | app/src/data/hydrate-with-group-data.ts:63-67 | two successive walks with one group key write the same map as one walk over the union of their keys, so visiting order inside a walk does not matter |
| `GroupHydration.WalksCovered` | app/src/data/hydrate-with-group-data.ts:80-82 | after the walks every tagged key lies below some registry head, provided every earlier tag did |
| `GroupHydration.CoveredKeysWalked` | app/src/data/hydrate-with-group-data.ts:71-82 | when every earlier tag lies below some registry head, the walks over the grown index visit all those keys again |
| `GroupHydration.WalksRederiveTags` | app/src/data/hydrate-with-group-data.ts:71-82 | in that case the tags after the call are exactly what the walks write from an empty map, and they again lie below the heads: no stale tag survives a call |
| `GroupHydration.AnnotateOne` | app/src/data/hydrate-with-group-data.ts:85-86 | key, parent and payload are unchanged; with a truthy recorded group key the copy's group is that key; otherwise the very same record is returned |
| `GroupHydration.AnnotateAll` | app/src/data/hydrate-with-group-data.ts:84-87 | same length as the input, and element i is member i annotated |
| `GroupHydration.Output` | app/src/data/hydrate-with-group-data.ts:84-89 | length is member count plus 9; exactly the first \|nodes\| entries are member records; these are the annotated members in input order, followed by the registry groups unchanged and in registry order |
| `GroupHydration.GroupHydrator.constructor` | app/src/data/hydrate-with-group-data.ts:51-55 | module load: both maps start empty and the class invariant holds |
| `GroupHydration.GroupHydrator.Traverse` | app/src/data/hydrate-with-group-data.ts:57-68 | afterwards the tag map is the old map with every key the walk reaches from the current key (the current key included) set to the group key; the children index is unchanged |
| `GroupHydration.GroupHydrator.IndexMembers` | app/src/data/hydrate-with-group-data.ts:71-78 | the index is the old index extended by scanning the members in order, and still has no list under 0 |
| `GroupHydration.GroupHydrator.WalkGroups` | app/src/data/hydrate-with-group-data.ts:80-82 | the tag map is the old map overwritten by the nine walks in registry order, and holds only registry keys |
| `GroupHydration.GroupHydrator.Hydrate` | app/src/data/hydrate-with-group-data.ts:70-90 | the index is the old index extended by scanning the members; the tag map is the old map overwritten by the nine walks, which equals what the walks write from an empty map; the result is the annotated members followed by the registry; the invariant (no list under 0, only registry keys recorded, every tagged key below a head) is kept |
| `HydrationProperties.ChildKeys` | app/src/data/hydrate-with-group-data.ts:71-78 | reference filter: c is in the result exactly when some member with key c names p as its parent; it is never longer than the input |
| `HydrationProperties.IndexChildrenLookup` | app/src/data/hydrate-with-group-data.ts:71-78 | the list under p is the earlier list followed by the keys of the members whose parent is p, in input order; parent 0 collects nothing |
| `HydrationProperties.IndexChildrenDomain` | app/src/data/hydrate-with-group-data.ts:72-75 | a list exists under p exactly when one existed before or p is nonzero and some member names p as its parent (created on first use) |
| `HydrationProperties.IndexedChildOf` | app/src/data/hydrate-with-group-data.ts:71-78 | c is listed under p exactly when it was listed before, or p is nonzero and a member with key c has parent p |
| `HydrationProperties.ReachClosed` | app/src/data/hydrate-with-group-data.ts:65-67 | every child listed under a visited key is itself visited |
| `HydrationProperties.TagGroupsLastVisitor` | app/src/data/hydrate-with-group-data.ts:80-82 | a key visited by group j and by no later group ends up tagged with group j's key (last write wins) |
| `HydrationProperties.TagGroupsUnvisited` | app/src/data/hydrate-with-group-data.ts:80-82 | a key that no group visits keeps exactly what the tag map held for it before, whether present or absent |
| `HydrationProperties.TagGroupsIdempotent` | app/src/data/hydrate-with-group-data.ts:80-82 | walking the same groups a second time over the same index leaves the tag map unchanged |
| `HydrationProperties.HeadAlwaysAssigned` | app/src/data/hydrate-with-group-data.ts:63 | every registry head of family has an entry in the tag map after the walks, whether or not any member has that key |
| `HydrationProperties.MemberTaggedByLastGroup` | app/src/data/hydrate-with-group-data.ts:80-86 | a member below group j's head, and below no later head, is output as a copy whose group is group j's key |
| `HydrationProperties.UnreachedMemberKeepsEarlierState` | app/src/data/hydrate-with-group-data.ts:84-86 | for an arbitrary earlier tag map, a member below no head is output tagged with the truthy group that map holds for its key, or else as the unchanged input record |
| `HydrationProperties.UnreachedMemberUntagged` | app/src/data/hydrate-with-group-data.ts:70-89 | in every state the hydrator reaches (every earlier tag below some head), a member below no head over the grown index is output as the unchanged input record |
| `HydrationProperties.RecordedKeyMeansTagged` | app/src/data/hydrate-with-group-data.ts:84-86 | while only registry keys are recorded, a member is tagged exactly when its key is recorded; otherwise its record is output unchanged |
| `HydrationProperties.AnnotateAllIdempotent` | app/src/data/hydrate-with-group-data.ts:84-87 | annotating already annotated members against the same tags changes nothing |
| `HydrationProperties.TagGroupsSameReach` | app/src/data/hydrate-with-group-data.ts:80-82 | walks over two indexes in which every head reaches the same keys write the same tags, whatever the ranks |
| `HydrationProperties.RescanAddsNoEdge` | app/src/data/hydrate-with-group-data.ts:71-78 | scanning the returned members again only lists children that were already listed under the same parent, and keeps all of those |
| `HydrationProperties.RescanSameReach` | app/src/data/hydrate-with-group-data.ts:58-78 | after that rescan the walk from any key visits exactly what it visited before |
| `HydrationProperties.OutputOfAnnotated` | app/src/data/hydrate-with-group-data.ts:84-89 | the output built from already annotated members equals the output built from the originals |
| `HydrationProperties.WholeCallIdempotent` | app/src/data/hydrate-with-group-data.ts:70-90 | a second call on the members the first call returned leaves the tag map as the first call left it and returns the first call's result |
| `HydrationProperties.ThreeGenerationsIndex` | app/src/data/hydrate-with-group-data.ts:71-78 | members 7, 8 (parent 7) and 9 (parent 8) index 8 under 7 and 9 under 8 |
| `HydrationProperties.ThreeGenerationsReach` | app/src/data/hydrate-with-group-data.ts:58-68 | over that index the walk from 7 visits {7,8,9}, from 8 visits {8,9}, and from any key of 9 or more visits only that key |
| `HydrationProperties.ThreeGenerationsTags` | app/src/data/hydrate-with-group-data.ts:80-82 | over that index, from an empty tag map, the registry walks leave 7 tagged -1, 8 tagged -2 and 9 tagged -3 |
| `HydrationProperties.OverlappingHeadsScenario` | app/src/data/hydrate-with-group-data.ts:70-89 | from an empty state, those three members come out tagged -1, -2 and -3, because 8 and 9 head later groups whose walks overwrite group -1 |

## Left out

- Rendering, the diagramming library, DOM lookups, theme variables, file download and the
  build configuration. These are browser I/O and configuration with no logic of their own.
- `go.Key` may also be a string. Member keys in this data set are numbers, so keys are
  modelled as `int`. Map key equality is then plain integer equality.
- The `memory` argument of `traverseFamilyTree` is always the module's tag map. It is modelled
  as the field `memberKeyToGroupKey`, not as a separate argument.
- Object identity is not modelled: records are values. "Returned as the same record" is stated
  as equality with the input record. The input list cannot be changed, because it is a value.
- Cyclic parent data: the source recurses without bound on it. Such data is excluded by the
  `Ranked` precondition instead of modelling stack exhaustion.
- GroupHydration.GroupHydrator.Hydrate: the precondition asks for a rank over the whole
  accumulated index. The source only fails to terminate on a cycle that some head of family
  can reach.
- GroupHydration.GroupHydrator.Hydrate: the precondition `Valid()` is the class invariant. The
  constructor establishes it and every call keeps it, so it holds in every state the source can
  reach.
- Calling the hydrator again appends every child key to its list again, so the walk visits
  such keys more than once. The model proves that the tags and the result do not change
  (`WholeCallIdempotent`), but not this growing cost.
