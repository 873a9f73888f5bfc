/**
 * The family-group hydrator (app/src/data/hydrate-with-group-data.ts): a fixed registry of
 * family groups, a children index and a group assignment that live as long as the module,
 * a depth-first walk that tags every descendant of a group's head, and the projection that
 * annotates the members and appends the group records.
 */
module GroupHydration {
  import opened DataTypes

  /** One entry of the list handed to the diagram: a member or a group record. */
  datatype DiagramRecord = MemberRecord(member: FamilyMember) | GroupRecord(familyGroup: FamilyGroup)

  /** The hard-coded registry: nine groups, keys -1 to -9, heads of family 7 to 15. */
  function Registry(): (r: seq<FamilyGroup>)
    ensures |r| == 9
    ensures forall i :: 0 <= i < |r| ==>
      r[i].key == -(i + 1) && r[i].headOfFamily == i + 7 && r[i].isGroup && r[i].name.Some?
    ensures forall i, j :: 0 <= i < j < |r| ==> r[i].key != r[j].key
  {
    [ FamilyGroup(-1, Some("Family of Elizabeth II"), true, 7),
      FamilyGroup(-2, Some("Family of Princess Margaret"), true, 8),
      FamilyGroup(-3, Some("Family of George Lascelles"), true, 9),
      FamilyGroup(-4, Some("Family of Gerald Lascelles"), true, 10),
      FamilyGroup(-5, Some("Family of Prince William of Gloucester"), true, 11),
      FamilyGroup(-6, Some("Family of Prince Richard"), true, 12),
      FamilyGroup(-7, Some("Family of Prince Edward"), true, 13),
      FamilyGroup(-8, Some("Family of Princess Alexandra"), true, 14),
      FamilyGroup(-9, Some("Family of Prince Michael of Kent"), true, 15) ]
  }

  /** The key of some registry group. */
  ghost predicate IsGroupKey(g: int) {
    exists j :: 0 <= j < |Registry()| && Registry()[j].key == g
  }

  /** JavaScript truthiness of an optional number: `undefined` and `0` are both false. */
  predicate Truthy(v: Option<int>)
    ensures Truthy(v) <==> v != None && v != Some(0)
  {
    v.Some? && v.value != 0
  }

  /** `index.get(k) || []`: the children recorded for `k`, or none. */
  function Lookup(index: map<int, seq<int>>, k: int): (r: seq<int>)
    ensures k !in index ==> r == []
    ensures k in index ==> r == index[k]
  {
    if k in index then index[k] else []
  }

  /** `assignment.get(k)`: `None` plays the part of `undefined`. */
  function Get(assignment: map<int, int>, k: int): (r: Option<int>)
    ensures r.Some? <==> k in assignment
    ensures r.Some? ==> r.value == assignment[k]
  {
    if k in assignment then Some(assignment[k]) else None
  }

  // ---------------------------------------------------------------------------------------
  // Step 1: the children index

  /**
   * The index after one member is scanned: a truthy parent gets the member's key appended
   * to its list, created empty on first use; no other list changes.
   */
  ghost function AddChild(index: map<int, seq<int>>, node: FamilyMember): (r: map<int, seq<int>>)
    ensures r.Keys == index.Keys + (if Truthy(node.parent) then {node.parent.value} else {})
    ensures Truthy(node.parent) ==> Lookup(r, node.parent.value) == Lookup(index, node.parent.value) + [node.key]
    ensures forall q :: (!Truthy(node.parent) || q != node.parent.value) ==> Lookup(r, q) == Lookup(index, q)
  {
    if Truthy(node.parent) then
      index[node.parent.value := Lookup(index, node.parent.value) + [node.key]]
    else
      index
  }

  /**
   * The index after all of `nodes` are scanned, in order, starting from `index`: every earlier
   * list is kept as a prefix of the new one, and no list appears under key 0.
   */
  ghost function IndexChildren(index: map<int, seq<int>>, nodes: seq<FamilyMember>): (r: map<int, seq<int>>)
    ensures index.Keys <= r.Keys
    ensures forall p :: Lookup(index, p) <= Lookup(r, p)
    ensures 0 !in index ==> 0 !in r
    decreases |nodes|
  {
    if |nodes| == 0 then index
    else AddChild(IndexChildren(index, nodes[..|nodes| - 1]), nodes[|nodes| - 1])
  }

  /** Scanning more members keeps every listed child listed under its parent. */
  lemma IndexKeepsEdges(index: map<int, seq<int>>, nodes: seq<FamilyMember>)
    ensures forall p, c :: c in Lookup(index, p) ==> c in Lookup(IndexChildren(index, nodes), p)
  {
    forall p, c | c in Lookup(index, p) ensures c in Lookup(IndexChildren(index, nodes), p) {
      var before, after := Lookup(index, p), Lookup(IndexChildren(index, nodes), p);
      var i :| 0 <= i < |before| && before[i] == c;
      assert after[i] == c;
    }
  }

  /** Scanning one more member applies `AddChild` to it; no list is ever put under key 0. */
  lemma IndexChildrenSnoc(index: map<int, seq<int>>, nodes: seq<FamilyMember>, i: nat)
    requires i < |nodes|
    requires 0 !in IndexChildren(index, nodes[..i])
    ensures IndexChildren(index, nodes[..i + 1]) == AddChild(IndexChildren(index, nodes[..i]), nodes[i])
    ensures 0 !in IndexChildren(index, nodes[..i + 1])
  {
    assert nodes[..i + 1][..i] == nodes[..i];
  }

  // ---------------------------------------------------------------------------------------
  // Step 2: the depth-first walk

  /**
   * The walk terminates: every key listed as a child has a rank below its parent's.
   * The source recurses without a guard, so this is what it silently assumes of its data.
   */
  ghost predicate Ranked(children: map<int, seq<int>>, rank: map<int, nat>) {
    forall p, c :: p in children && c in children[p] ==> p in rank && c in rank && rank[c] < rank[p]
  }

  /** Measure of a key for the walk: keys outside `rank` have no children. */
  function Height(rank: map<int, nat>, k: int): nat {
    if k in rank then rank[k] + 1 else 0
  }

  /** Each child listed under `k` is lower than `k`. */
  lemma ChildrenBelow(children: map<int, seq<int>>, rank: map<int, nat>, k: int)
    requires Ranked(children, rank)
    ensures forall c :: c in Lookup(children, k) ==> Height(rank, c) < Height(rank, k)
  {
  }

  /** The keys the walk from `k` visits: `k` itself and everything below each listed child. */
  ghost function Reach(children: map<int, seq<int>>, rank: map<int, nat>, k: int): (r: set<int>)
    requires Ranked(children, rank)
    ensures k in r
    decreases Height(rank, k), 1, 0
  {
    {k} + ReachAll(children, rank, Lookup(children, k), Height(rank, k))
  }

  /** The keys visited by the walks from each of `ks`, every one of `ks` among them. */
  ghost function ReachAll(children: map<int, seq<int>>, rank: map<int, nat>, ks: seq<int>, h: nat): (r: set<int>)
    requires Ranked(children, rank)
    requires forall c :: c in ks ==> Height(rank, c) < h
    ensures forall c :: c in ks ==> c in r
    decreases h, 0, |ks|
  {
    if |ks| == 0 then {}
    else ReachAll(children, rank, ks[..|ks| - 1], h) + Reach(children, rank, ks[|ks| - 1])
  }

  /** Walking one more listed child adds what the walk from that child visits. */
  lemma ReachAllSnoc(children: map<int, seq<int>>, rank: map<int, nat>, ks: seq<int>, i: nat, h: nat)
    requires Ranked(children, rank)
    requires forall c :: c in ks ==> Height(rank, c) < h
    requires i < |ks|
    ensures ReachAll(children, rank, ks[..i + 1], h) == ReachAll(children, rank, ks[..i], h) + Reach(children, rank, ks[i])
  {
    assert ks[..i + 1][..i] == ks[..i];
  }

  /** The walk from `k` visits `k` and what the walks from its listed children visit. */
  lemma ReachUnfold(children: map<int, seq<int>>, rank: map<int, nat>, k: int)
    requires Ranked(children, rank)
    ensures forall c :: c in Lookup(children, k) ==> Height(rank, c) < Height(rank, k)
    ensures Reach(children, rank, k) == {k} + ReachAll(children, rank, Lookup(children, k), Height(rank, k))
  {
    ChildrenBelow(children, rank, k);
  }

  // ---------------------------------------------------------------------------------------
  // The walk visits exactly the keys reachable by parent-to-child paths

  /** Each key after the first is listed as a child of the key before it. */
  ghost predicate IsPath(children: map<int, seq<int>>, path: seq<int>) {
    && |path| > 0
    && forall i :: 0 <= i < |path| - 1 ==> path[i + 1] in Lookup(children, path[i])
  }

  /** `x` is `k` or a descendant of `k` in the index. */
  ghost predicate Descends(children: map<int, seq<int>>, k: int, x: int) {
    exists path :: IsPath(children, path) && path[0] == k && path[|path| - 1] == x
  }

  /** A path can start one step higher, at a parent of its first key. */
  lemma PrependToPath(children: map<int, seq<int>>, k: int, path: seq<int>)
    requires IsPath(children, path) && path[0] in Lookup(children, k)
    ensures IsPath(children, [k] + path) && ([k] + path)[0] == k
  {
  }

  /** A path can go one step lower, to a child of its last key. */
  lemma AppendToPath(children: map<int, seq<int>>, path: seq<int>, c: int)
    requires IsPath(children, path) && c in Lookup(children, path[|path| - 1])
    ensures IsPath(children, path + [c]) && (path + [c])[0] == path[0]
  {
  }

  /** The keys visited from a list of children are the keys visited from one of them. */
  lemma {:induction false} ReachAllMembers(children: map<int, seq<int>>, rank: map<int, nat>, ks: seq<int>, h: nat, x: int)
    requires Ranked(children, rank)
    requires forall c :: c in ks ==> Height(rank, c) < h
    ensures x in ReachAll(children, rank, ks, h) <==> exists c :: c in ks && x in Reach(children, rank, c)
    decreases |ks|
  {
    if |ks| > 0 {
      var init, last := ks[..|ks| - 1], ks[|ks| - 1];
      assert ks == init + [last];
      ReachAllMembers(children, rank, init, h, x);
      assert ReachAll(children, rank, ks, h) == ReachAll(children, rank, init, h) + Reach(children, rank, last);
      if x in ReachAll(children, rank, ks, h) {
        if x in Reach(children, rank, last) {
          assert last in ks;
        } else {
          var c :| c in init && x in Reach(children, rank, c);
          assert c in ks;
        }
      }
      if exists c :: c in ks && x in Reach(children, rank, c) {
        var c :| c in ks && x in Reach(children, rank, c);
        if c != last {
          assert c in init;
        }
      }
    }
  }

  lemma {:induction false} ReachHasPath(children: map<int, seq<int>>, rank: map<int, nat>, k: int, x: int)
    requires Ranked(children, rank)
    requires x in Reach(children, rank, k)
    ensures Descends(children, k, x)
    decreases Height(rank, k)
  {
    if x == k {
      assert IsPath(children, [k]);
    } else {
      var kids := Lookup(children, k);
      ChildrenBelow(children, rank, k);
      ReachAllMembers(children, rank, kids, Height(rank, k), x);
      var c :| c in kids && x in Reach(children, rank, c);
      ReachHasPath(children, rank, c, x);
      var path :| IsPath(children, path) && path[0] == c && path[|path| - 1] == x;
      PrependToPath(children, k, path);
      assert ([k] + path)[|[k] + path| - 1] == x;
    }
  }

  lemma {:induction false} PathInReach(children: map<int, seq<int>>, rank: map<int, nat>, path: seq<int>)
    requires Ranked(children, rank)
    requires IsPath(children, path)
    ensures path[|path| - 1] in Reach(children, rank, path[0])
    decreases |path|
  {
    if |path| > 1 {
      var rest := path[1..];
      assert forall i :: 0 <= i < |rest| - 1 ==> rest[i + 1] in Lookup(children, rest[i]) by {
        forall i | 0 <= i < |rest| - 1 ensures rest[i + 1] in Lookup(children, rest[i]) {
          assert rest[i] == path[i + 1] && rest[i + 1] == path[i + 2];
        }
      }
      PathInReach(children, rank, rest);
      var kids := Lookup(children, path[0]);
      ChildrenBelow(children, rank, path[0]);
      assert path[1] in kids;
      ReachAllMembers(children, rank, kids, Height(rank, path[0]), path[|path| - 1]);
    }
  }

  /**
   * The walk from `k` visits exactly `k` and its descendants: the rank that bounds the
   * recursion does not change what is visited.
   */
  lemma ReachIsDescends(children: map<int, seq<int>>, rank: map<int, nat>, k: int, x: int)
    requires Ranked(children, rank)
    ensures x in Reach(children, rank, k) <==> Descends(children, k, x)
  {
    if x in Reach(children, rank, k) {
      ReachHasPath(children, rank, k, x);
    }
    if Descends(children, k, x) {
      var path :| IsPath(children, path) && path[0] == k && path[|path| - 1] == x;
      PathInReach(children, rank, path);
    }
  }

  /** A path over one index is a path over any index that lists at least the same children. */
  lemma DescendsAlongEdges(a: map<int, seq<int>>, b: map<int, seq<int>>, k: int, x: int)
    requires forall p, c :: c in Lookup(a, p) ==> c in Lookup(b, p)
    requires Descends(a, k, x)
    ensures Descends(b, k, x)
  {
    var path :| IsPath(a, path) && path[0] == k && path[|path| - 1] == x;
    forall i | 0 <= i < |path| - 1 ensures path[i + 1] in Lookup(b, path[i]) {
      assert path[i + 1] in Lookup(a, path[i]);
    }
    assert IsPath(b, path);
  }

  // ---------------------------------------------------------------------------------------
  // Tagging

  /** The assignment entries one walk writes: exactly the keys of `keys`, each bound to group `g`. */
  function Tag(keys: set<int>, g: int): (r: map<int, int>)
    ensures r.Keys == keys
    ensures forall x :: x in r ==> r[x] == g
  {
    map x | x in keys :: g
  }

  /**
   * The assignment after walking each group of `gs` in turn, later walks overwriting earlier
   * ones: no earlier entry is removed, and the last group's head holds the last group's key.
   */
  ghost function TagGroups(m: map<int, int>, children: map<int, seq<int>>, rank: map<int, nat>, gs: seq<FamilyGroup>): (r: map<int, int>)
    requires Ranked(children, rank)
    ensures m.Keys <= r.Keys
    ensures |gs| > 0 ==> gs[|gs| - 1].headOfFamily in r && r[gs[|gs| - 1].headOfFamily] == gs[|gs| - 1].key
    decreases |gs|
  {
    if |gs| == 0 then m
    else
      var last := gs[|gs| - 1];
      TagGroups(m, children, rank, gs[..|gs| - 1]) + Tag(Reach(children, rank, last.headOfFamily), last.key)
  }

  /** Walking one more group overwrites with that group's walk. */
  lemma TagGroupsSnoc(m: map<int, int>, children: map<int, seq<int>>, rank: map<int, nat>, gs: seq<FamilyGroup>, j: nat)
    requires Ranked(children, rank)
    requires j < |gs|
    ensures TagGroups(m, children, rank, gs[..j + 1])
      == TagGroups(m, children, rank, gs[..j]) + Tag(Reach(children, rank, gs[j].headOfFamily), gs[j].key)
  {
    assert gs[..j + 1][..j] == gs[..j];
  }

  /** The earlier assignment matters only under the entries the walks write. */
  lemma {:induction false} TagGroupsOverride(m: map<int, int>, children: map<int, seq<int>>, rank: map<int, nat>,
                                             gs: seq<FamilyGroup>)
    requires Ranked(children, rank)
    ensures TagGroups(m, children, rank, gs) == m + TagGroups(map[], children, rank, gs)
    decreases |gs|
  {
    if |gs| > 0 {
      var init, last := gs[..|gs| - 1], gs[|gs| - 1];
      TagGroupsOverride(m, children, rank, init);
      var walks, tag := TagGroups(map[], children, rank, init), Tag(Reach(children, rank, last.headOfFamily), last.key);
      var lhs, rhs := (m + walks) + tag, m + (walks + tag);
      assert lhs.Keys == rhs.Keys;
      forall x | x in lhs ensures lhs[x] == rhs[x] {
      }
    }
  }

  /** A key is tagged after the walks exactly when it was tagged before or some walk visits it. */
  lemma {:induction false} TagGroupsDomain(m: map<int, int>, children: map<int, seq<int>>, rank: map<int, nat>,
                                           gs: seq<FamilyGroup>, x: int)
    requires Ranked(children, rank)
    ensures x in TagGroups(m, children, rank, gs)
      <==> x in m || exists j :: 0 <= j < |gs| && x in Reach(children, rank, gs[j].headOfFamily)
    decreases |gs|
  {
    if |gs| > 0 {
      var init := gs[..|gs| - 1];
      TagGroupsDomain(m, children, rank, init, x);
      assert forall j :: 0 <= j < |init| ==> init[j] == gs[j];
    }
  }

  /** Every key of `m` lies below the head of some registry group. */
  ghost predicate Covered(children: map<int, seq<int>>, m: map<int, int>) {
    forall k :: k in m ==> exists j :: 0 <= j < |Registry()| && Descends(children, Registry()[j].headOfFamily, k)
  }

  /** Every key some walk from a registry head visits lies below that head. */
  lemma WalksCovered(children: map<int, seq<int>>, rank: map<int, nat>, m: map<int, int>)
    requires Ranked(children, rank)
    requires Covered(children, m)
    ensures Covered(children, TagGroups(m, children, rank, Registry()))
  {
    var gs := Registry();
    forall k | k in TagGroups(m, children, rank, gs)
      ensures exists j :: 0 <= j < |gs| && Descends(children, gs[j].headOfFamily, k)
    {
      TagGroupsDomain(m, children, rank, gs, k);
      if k !in m {
        var j :| 0 <= j < |gs| && k in Reach(children, rank, gs[j].headOfFamily);
        ReachIsDescends(children, rank, gs[j].headOfFamily, k);
      }
    }
  }

  /** Over a grown index the walks from the registry heads visit every key that was covered before. */
  lemma CoveredKeysWalked(index: map<int, seq<int>>, nodes: seq<FamilyMember>, rank: map<int, nat>, m: map<int, int>)
    requires Ranked(IndexChildren(index, nodes), rank)
    requires Covered(index, m)
    ensures m.Keys <= TagGroups(map[], IndexChildren(index, nodes), rank, Registry()).Keys
  {
    var children, gs := IndexChildren(index, nodes), Registry();
    IndexKeepsEdges(index, nodes);
    forall k | k in m ensures k in TagGroups(map[], children, rank, gs) {
      var j :| 0 <= j < |gs| && Descends(index, gs[j].headOfFamily, k);
      DescendsAlongEdges(index, children, gs[j].headOfFamily, k);
      ReachIsDescends(children, rank, gs[j].headOfFamily, k);
      TagGroupsDomain(map[], children, rank, gs, k);
    }
  }

  /** Overriding with a map that has every key of `m` leaves nothing of `m`. */
  lemma OverrideAll(m: map<int, int>, w: map<int, int>)
    requires m.Keys <= w.Keys
    ensures m + w == w
  {
  }

  /**
   * When every earlier tag lies below some head, the walks over the grown index visit all of
   * them again: the tags afterwards are exactly what the walks write from an empty map, and
   * they again lie below the heads.
   */
  lemma WalksRederiveTags(index: map<int, seq<int>>, nodes: seq<FamilyMember>, rank: map<int, nat>, m: map<int, int>)
    requires Ranked(IndexChildren(index, nodes), rank)
    requires Covered(index, m)
    ensures TagGroups(m, IndexChildren(index, nodes), rank, Registry())
      == TagGroups(map[], IndexChildren(index, nodes), rank, Registry())
    ensures Covered(IndexChildren(index, nodes), TagGroups(m, IndexChildren(index, nodes), rank, Registry()))
  {
    var children := IndexChildren(index, nodes);
    CoveredKeysWalked(index, nodes, rank, m);
    TagGroupsOverride(m, children, rank, Registry());
    OverrideAll(m, TagGroups(map[], children, rank, Registry()));
    WalksCovered(children, rank, map[]);
  }

  /** A walk for a registry group keeps every recorded group a registry group. */
  lemma TagKeepsGroupKeys(m: map<int, int>, keys: set<int>, j: nat)
    requires j < |Registry()|
    requires forall k :: k in m ==> IsGroupKey(m[k])
    ensures forall k :: k in m + Tag(keys, Registry()[j].key) ==> IsGroupKey((m + Tag(keys, Registry()[j].key))[k])
  {
  }

  /** Walking child `i` of the current key extends what the loop over the children has tagged. */
  lemma WalkChildStep(start: map<int, int>, children: map<int, seq<int>>, rank: map<int, nat>,
                      current: int, kids: seq<int>, i: nat, h: nat, g: int)
    requires Ranked(children, rank)
    requires forall c :: c in kids ==> Height(rank, c) < h
    requires i < |kids|
    ensures (start + Tag({current} + ReachAll(children, rank, kids[..i], h), g)) + Tag(Reach(children, rank, kids[i]), g)
      == start + Tag({current} + ReachAll(children, rank, kids[..i + 1], h), g)
  {
    TagUnion(start, {current} + ReachAll(children, rank, kids[..i], h), Reach(children, rank, kids[i]), g);
    ReachAllSnoc(children, rank, kids, i, h);
  }

  /** Setting one key is the walk over that key alone. */
  lemma TagSingle(m: map<int, int>, k: int, g: int)
    ensures m[k := g] == m + Tag({k}, g)
  {
  }

  /** Two walks with the same group key write what one walk over both key sets writes. */
  lemma TagUnion(m: map<int, int>, a: set<int>, b: set<int>, g: int)
    ensures (m + Tag(a, g)) + Tag(b, g) == m + Tag(a + b, g)
  {
  }

  // ---------------------------------------------------------------------------------------
  // Step 3: the annotated members followed by the registry

  /** `groupKey ? { ...node, group: groupKey } : node` */
  function AnnotateOne(node: FamilyMember, assignment: map<int, int>): (r: FamilyMember)
    ensures r.key == node.key && r.parent == node.parent && r.payload == node.payload
    ensures Truthy(Get(assignment, node.key)) ==> r.group == Some(assignment[node.key])
    ensures !Truthy(Get(assignment, node.key)) ==> r == node
  {
    var groupKey := Get(assignment, node.key);
    if Truthy(groupKey) then node.(group := groupKey) else node
  }

  /** `nodes.map(...)`: each member annotated, in input order. */
  function AnnotateAll(nodes: seq<FamilyMember>, assignment: map<int, int>): (r: seq<FamilyMember>)
    ensures |r| == |nodes|
    ensures forall i :: 0 <= i < |nodes| ==> r[i] == AnnotateOne(nodes[i], assignment)
  {
    if |nodes| == 0 then [] else [AnnotateOne(nodes[0], assignment)] + AnnotateAll(nodes[1..], assignment)
  }

  /** `[...nodesWithGroupKeys, ...groups]` */
  function Output(nodes: seq<FamilyMember>, assignment: map<int, int>): (r: seq<DiagramRecord>)
    ensures |r| == |nodes| + |Registry()|
    ensures forall k :: 0 <= k < |r| ==> (r[k].MemberRecord? <==> k < |nodes|)
    ensures forall i :: 0 <= i < |nodes| ==> r[i] == MemberRecord(AnnotateOne(nodes[i], assignment))
    ensures forall j :: 0 <= j < |Registry()| ==> r[|nodes| + j] == GroupRecord(Registry()[j])
  {
    var members := AnnotateAll(nodes, assignment);
    var groups := Registry();
    seq(|members|, i requires 0 <= i < |members| => MemberRecord(members[i]))
      + seq(|groups|, j requires 0 <= j < |groups| => GroupRecord(groups[j]))
  }

  // ---------------------------------------------------------------------------------------
  // The module state and the two operations that change it

  class GroupHydrator {
    /** `parentKeyToChildrenKeys`: for each parent key, its children's keys in scan order. */
    var parentKeyToChildrenKeys: map<int, seq<int>>
    /** `memberKeyToGroupKey`: the group each visited key was last tagged with. */
    var memberKeyToGroupKey: map<int, int>

    /**
     * No list is ever kept under key 0, every recorded group is a registry group, and every
     * tagged key lies below the head of some registry group in the current index.
     */
    ghost predicate Valid()
      reads this
    {
      && 0 !in parentKeyToChildrenKeys
      && (forall k :: k in memberKeyToGroupKey ==> IsGroupKey(memberKeyToGroupKey[k]))
      && Covered(parentKeyToChildrenKeys, memberKeyToGroupKey)
    }

    /** Module load: both maps start empty. */
    constructor ()
      ensures Valid()
      ensures parentKeyToChildrenKeys == map[] && memberKeyToGroupKey == map[]
    {
      parentKeyToChildrenKeys := map[];
      memberKeyToGroupKey := map[];
    }

    /** `traverseFamilyTree(groupKey, currentMemberKey, memberKeyToGroupKey)` */
    method Traverse(groupKey: int, currentMemberKey: int, ghost rank: map<int, nat>)
      requires Ranked(parentKeyToChildrenKeys, rank)
      modifies this`memberKeyToGroupKey
      ensures memberKeyToGroupKey
        == old(memberKeyToGroupKey) + Tag(Reach(parentKeyToChildrenKeys, rank, currentMemberKey), groupKey)
      decreases Height(rank, currentMemberKey)
    {
      ghost var children, start, h := parentKeyToChildrenKeys, memberKeyToGroupKey, Height(rank, currentMemberKey);
      TagSingle(start, currentMemberKey, groupKey);
      ReachUnfold(children, rank, currentMemberKey);
      memberKeyToGroupKey := memberKeyToGroupKey[currentMemberKey := groupKey];
      var kids := Lookup(parentKeyToChildrenKeys, currentMemberKey);
      assert kids[..0] == [];
      var i := 0;
      while i < |kids|
        invariant 0 <= i <= |kids|
        invariant parentKeyToChildrenKeys == children
        invariant memberKeyToGroupKey == start + Tag({currentMemberKey} + ReachAll(children, rank, kids[..i], h), groupKey)
      {
        Traverse(groupKey, kids[i], rank);
        WalkChildStep(start, children, rank, currentMemberKey, kids, i, h, groupKey);
        i := i + 1;
      }
      assert kids[..i] == kids;
    }

    /** The first loop of `hydrateDataWithGroups`: each member's key is appended to its truthy parent's list. */
    method IndexMembers(nodes: seq<FamilyMember>)
      requires 0 !in parentKeyToChildrenKeys
      modifies this`parentKeyToChildrenKeys
      ensures parentKeyToChildrenKeys == IndexChildren(old(parentKeyToChildrenKeys), nodes)
      ensures 0 !in parentKeyToChildrenKeys
    {
      ghost var index0 := parentKeyToChildrenKeys;
      var i := 0;
      while i < |nodes|
        invariant 0 <= i <= |nodes|
        invariant parentKeyToChildrenKeys == IndexChildren(index0, nodes[..i])
        invariant 0 !in parentKeyToChildrenKeys
      {
        IndexChildrenSnoc(index0, nodes, i);
        var node := nodes[i];
        if Truthy(node.parent) {
          var p := node.parent.value;
          if p !in parentKeyToChildrenKeys {
            parentKeyToChildrenKeys := parentKeyToChildrenKeys[p := []];
          }
          parentKeyToChildrenKeys := parentKeyToChildrenKeys[p := parentKeyToChildrenKeys[p] + [node.key]];
        }
        i := i + 1;
      }
      assert nodes[..i] == nodes;
    }

    /** `groups.forEach(...)`: the subtree of each registry group is walked, in registry order. */
    method WalkGroups(ghost rank: map<int, nat>)
      requires Ranked(parentKeyToChildrenKeys, rank)
      requires forall k :: k in memberKeyToGroupKey ==> IsGroupKey(memberKeyToGroupKey[k])
      modifies this`memberKeyToGroupKey
      ensures memberKeyToGroupKey == TagGroups(old(memberKeyToGroupKey), parentKeyToChildrenKeys, rank, Registry())
      ensures forall k :: k in memberKeyToGroupKey ==> IsGroupKey(memberKeyToGroupKey[k])
    {
      ghost var assignment0 := memberKeyToGroupKey;
      var groups := Registry();
      var j := 0;
      while j < |groups|
        invariant 0 <= j <= |groups|
        invariant memberKeyToGroupKey == TagGroups(assignment0, parentKeyToChildrenKeys, rank, groups[..j])
        invariant forall k :: k in memberKeyToGroupKey ==> IsGroupKey(memberKeyToGroupKey[k])
      {
        ghost var before := memberKeyToGroupKey;
        Traverse(groups[j].key, groups[j].headOfFamily, rank);
        TagGroupsSnoc(assignment0, parentKeyToChildrenKeys, rank, groups, j);
        TagKeepsGroupKeys(before, Reach(parentKeyToChildrenKeys, rank, groups[j].headOfFamily), j);
        j := j + 1;
      }
      assert groups[..j] == groups;
    }

    /** `hydrateDataWithGroups(nodes)` */
    method Hydrate(nodes: seq<FamilyMember>, ghost rank: map<int, nat>) returns (result: seq<DiagramRecord>)
      requires Valid()
      requires Ranked(IndexChildren(parentKeyToChildrenKeys, nodes), rank)
      modifies this
      ensures Valid()
      ensures parentKeyToChildrenKeys == IndexChildren(old(parentKeyToChildrenKeys), nodes)
      ensures memberKeyToGroupKey
        == TagGroups(old(memberKeyToGroupKey), parentKeyToChildrenKeys, rank, Registry())
      ensures memberKeyToGroupKey == TagGroups(map[], parentKeyToChildrenKeys, rank, Registry())
      ensures result == Output(nodes, memberKeyToGroupKey)
    {
      ghost var index0, assignment0 := parentKeyToChildrenKeys, memberKeyToGroupKey;
      IndexMembers(nodes);
      WalkGroups(rank);
      WalksRederiveTags(index0, nodes, rank, assignment0);
      result := Output(nodes, memberKeyToGroupKey);
    }
  }
}
