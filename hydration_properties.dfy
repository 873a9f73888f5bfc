/**
 * What the hydrator promises, stated over the specification functions of GroupHydration:
 * the children index against a plain filter of the members, the walk against reachability
 * by parent-to-child paths, last-write-wins between overlapping groups, and what survives
 * from one call to the next.
 */
module HydrationProperties {
  import opened DataTypes
  import opened GroupHydration

  // ---------------------------------------------------------------------------------------
  // The children index

  /** Reference definition: the keys of the members whose parent is `p`, in input order. */
  function ChildKeys(nodes: seq<FamilyMember>, p: int): (r: seq<int>)
    ensures |r| <= |nodes|
    ensures forall c :: c in r <==> exists i :: 0 <= i < |nodes| && nodes[i].parent == Some(p) && nodes[i].key == c
    decreases |nodes|
  {
    if |nodes| == 0 then []
    else
      var init, last := nodes[..|nodes| - 1], nodes[|nodes| - 1];
      assert forall i :: 0 <= i < |init| ==> init[i] == nodes[i];
      ChildKeys(init, p) + (if last.parent == Some(p) then [last.key] else [])
  }

  /**
   * The list kept under `p` is what was there before, followed by the keys of the members
   * whose parent is `p`, in input order; a parent of 0 collects nothing.
   */
  lemma {:induction false} IndexChildrenLookup(index: map<int, seq<int>>, nodes: seq<FamilyMember>, p: int)
    ensures Lookup(IndexChildren(index, nodes), p)
      == Lookup(index, p) + (if p == 0 then [] else ChildKeys(nodes, p))
    decreases |nodes|
  {
    if |nodes| > 0 {
      var init, last := nodes[..|nodes| - 1], nodes[|nodes| - 1];
      IndexChildrenLookup(index, init, p);
      if p != 0 && last.parent == Some(p) {
        assert Lookup(index, p) + ChildKeys(init, p) + [last.key]
          == Lookup(index, p) + (ChildKeys(init, p) + [last.key]);
      }
    }
  }

  /** A list exists under `p` exactly when one did before or some member names `p` as a truthy parent. */
  lemma {:induction false} IndexChildrenDomain(index: map<int, seq<int>>, nodes: seq<FamilyMember>, p: int)
    ensures p in IndexChildren(index, nodes)
      <==> p in index || (p != 0 && exists i :: 0 <= i < |nodes| && nodes[i].parent == Some(p))
    decreases |nodes|
  {
    if |nodes| > 0 {
      var init := nodes[..|nodes| - 1];
      IndexChildrenDomain(index, init, p);
      if exists i :: 0 <= i < |nodes| && nodes[i].parent == Some(p) {
        var i :| 0 <= i < |nodes| && nodes[i].parent == Some(p);
        if i < |nodes| - 1 {
          assert init[i] == nodes[i];
        }
      }
      if exists i :: 0 <= i < |init| && init[i].parent == Some(p) {
        var i :| 0 <= i < |init| && init[i].parent == Some(p);
        assert nodes[i] == init[i];
      }
    }
  }

  /** `c` is listed under `p` exactly when it was before or a member with key `c` has truthy parent `p`. */
  lemma {:induction false} IndexedChildOf(index: map<int, seq<int>>, nodes: seq<FamilyMember>, p: int, c: int)
    ensures c in Lookup(IndexChildren(index, nodes), p)
      <==> c in Lookup(index, p)
           || (p != 0 && exists i :: 0 <= i < |nodes| && nodes[i].parent == Some(p) && nodes[i].key == c)
  {
    IndexChildrenLookup(index, nodes, p);
  }

  // ---------------------------------------------------------------------------------------
  // The walk visits exactly the keys reachable by parent-to-child paths

  /** Everything listed below a visited key is visited too. */
  lemma ReachClosed(children: map<int, seq<int>>, rank: map<int, nat>, k: int, x: int, c: int)
    requires Ranked(children, rank)
    requires x in Reach(children, rank, k)
    requires c in Lookup(children, x)
    ensures c in Reach(children, rank, k)
  {
    ReachHasPath(children, rank, k, x);
    var path :| IsPath(children, path) && path[0] == k && path[|path| - 1] == x;
    AppendToPath(children, path, c);
    PathInReach(children, rank, path + [c]);
  }

  // ---------------------------------------------------------------------------------------
  // Walking the groups in registry order: last write wins

  /** A key visited by group `j` and by no later group ends up with group `j`'s key. */
  lemma {:induction false} TagGroupsLastVisitor(m: map<int, int>, children: map<int, seq<int>>, rank: map<int, nat>,
                                                gs: seq<FamilyGroup>, j: nat, x: int)
    requires Ranked(children, rank)
    requires j < |gs|
    requires x in Reach(children, rank, gs[j].headOfFamily)
    requires forall j' :: j < j' < |gs| ==> x !in Reach(children, rank, gs[j'].headOfFamily)
    ensures x in TagGroups(m, children, rank, gs) && TagGroups(m, children, rank, gs)[x] == gs[j].key
    decreases |gs|
  {
    if j < |gs| - 1 {
      var init := gs[..|gs| - 1];
      assert x !in Reach(children, rank, gs[|gs| - 1].headOfFamily);
      TagGroupsLastVisitor(m, children, rank, init, j, x);
    }
  }

  /** A key no group visits keeps whatever the assignment held for it before. */
  lemma {:induction false} TagGroupsUnvisited(m: map<int, int>, children: map<int, seq<int>>, rank: map<int, nat>,
                                              gs: seq<FamilyGroup>, x: int)
    requires Ranked(children, rank)
    requires forall j :: 0 <= j < |gs| ==> x !in Reach(children, rank, gs[j].headOfFamily)
    ensures Get(TagGroups(m, children, rank, gs), x) == Get(m, x)
    decreases |gs|
  {
    if |gs| > 0 {
      var init := gs[..|gs| - 1];
      assert x !in Reach(children, rank, gs[|gs| - 1].headOfFamily);
      TagGroupsUnvisited(m, children, rank, init, x);
    }
  }

  /** Walking the same groups over the same index a second time changes nothing. */
  lemma TagGroupsIdempotent(m: map<int, int>, children: map<int, seq<int>>, rank: map<int, nat>, gs: seq<FamilyGroup>)
    requires Ranked(children, rank)
    ensures TagGroups(TagGroups(m, children, rank, gs), children, rank, gs) == TagGroups(m, children, rank, gs)
  {
    var walks := TagGroups(map[], children, rank, gs);
    TagGroupsOverride(m, children, rank, gs);
    TagGroupsOverride(m + walks, children, rank, gs);
    var lhs, rhs := (m + walks) + walks, m + walks;
    assert lhs.Keys == rhs.Keys;
    forall x | x in lhs ensures lhs[x] == rhs[x] {
    }
  }

  /** The walk of every registry group records its head's key, whether or not a member has it. */
  lemma HeadAlwaysAssigned(m: map<int, int>, children: map<int, seq<int>>, rank: map<int, nat>, j: nat)
    requires Ranked(children, rank)
    requires j < |Registry()|
    ensures Registry()[j].headOfFamily in TagGroups(m, children, rank, Registry())
  {
    var gs, x := Registry(), Registry()[j].headOfFamily;
    var last := j;
    while last < |gs| - 1 && exists j' :: last < j' < |gs| && x in Reach(children, rank, gs[j'].headOfFamily)
      invariant j <= last < |gs|
      invariant x in Reach(children, rank, gs[last].headOfFamily)
      decreases |gs| - last
    {
      var j' :| last < j' < |gs| && x in Reach(children, rank, gs[j'].headOfFamily);
      last := j';
    }
    TagGroupsLastVisitor(m, children, rank, gs, last, x);
  }

  // ---------------------------------------------------------------------------------------
  // The result handed to the diagram

  /** A member below a group's head, and below no later group's head, comes out tagged with that group. */
  lemma MemberTaggedByLastGroup(nodes: seq<FamilyMember>, m: map<int, int>, children: map<int, seq<int>>,
                                rank: map<int, nat>, i: nat, j: nat)
    requires Ranked(children, rank)
    requires i < |nodes| && j < |Registry()|
    requires Descends(children, Registry()[j].headOfFamily, nodes[i].key)
    requires forall j' :: j < j' < |Registry()| ==> !Descends(children, Registry()[j'].headOfFamily, nodes[i].key)
    ensures Output(nodes, TagGroups(m, children, rank, Registry()))[i]
      == MemberRecord(nodes[i].(group := Some(Registry()[j].key)))
  {
    var gs, x := Registry(), nodes[i].key;
    ReachIsDescends(children, rank, gs[j].headOfFamily, x);
    forall j' | j < j' < |gs| ensures x !in Reach(children, rank, gs[j'].headOfFamily) {
      ReachIsDescends(children, rank, gs[j'].headOfFamily, x);
    }
    TagGroupsLastVisitor(m, children, rank, gs, j, x);
  }

  /**
   * A member below no group's head comes out as the earlier state leaves it: tagged with the
   * group an earlier call recorded for its key, or else the very record that came in.
   */
  lemma UnreachedMemberKeepsEarlierState(nodes: seq<FamilyMember>, m: map<int, int>, children: map<int, seq<int>>,
                                         rank: map<int, nat>, i: nat)
    requires Ranked(children, rank)
    requires i < |nodes|
    requires forall j :: 0 <= j < |Registry()| ==> !Descends(children, Registry()[j].headOfFamily, nodes[i].key)
    ensures Truthy(Get(m, nodes[i].key)) ==>
      Output(nodes, TagGroups(m, children, rank, Registry()))[i] == MemberRecord(nodes[i].(group := Get(m, nodes[i].key)))
    ensures !Truthy(Get(m, nodes[i].key)) ==>
      Output(nodes, TagGroups(m, children, rank, Registry()))[i] == MemberRecord(nodes[i])
  {
    var gs, x := Registry(), nodes[i].key;
    forall j | 0 <= j < |gs| ensures x !in Reach(children, rank, gs[j].headOfFamily) {
      ReachIsDescends(children, rank, gs[j].headOfFamily, x);
    }
    TagGroupsUnvisited(m, children, rank, gs, x);
  }

  /**
   * In every state the hydrator reaches, each tag lies below some head, so a member below no
   * head over the grown index is returned as the very record that came in.
   */
  lemma UnreachedMemberUntagged(index: map<int, seq<int>>, nodes: seq<FamilyMember>, m: map<int, int>,
                                rank: map<int, nat>, i: nat)
    requires Covered(index, m)
    requires Ranked(IndexChildren(index, nodes), rank)
    requires i < |nodes|
    requires forall j :: 0 <= j < |Registry()| ==>
      !Descends(IndexChildren(index, nodes), Registry()[j].headOfFamily, nodes[i].key)
    ensures Output(nodes, TagGroups(m, IndexChildren(index, nodes), rank, Registry()))[i] == MemberRecord(nodes[i])
  {
    var children, gs, x := IndexChildren(index, nodes), Registry(), nodes[i].key;
    WalksRederiveTags(index, nodes, rank, m);
    forall j | 0 <= j < |gs| ensures x !in Reach(children, rank, gs[j].headOfFamily) {
      ReachIsDescends(children, rank, gs[j].headOfFamily, x);
    }
    TagGroupsUnvisited(map[], children, rank, gs, x);
  }

  /**
   * While every recorded group is a registry group (the hydrator's invariant), the truthiness
   * test on the looked-up group never misfires: a member is tagged exactly when its key is recorded.
   */
  lemma RecordedKeyMeansTagged(nodes: seq<FamilyMember>, assignment: map<int, int>, i: nat)
    requires forall k :: k in assignment ==> IsGroupKey(assignment[k])
    requires i < |nodes|
    ensures nodes[i].key in assignment ==>
      Output(nodes, assignment)[i] == MemberRecord(nodes[i].(group := Some(assignment[nodes[i].key])))
    ensures nodes[i].key !in assignment ==> Output(nodes, assignment)[i] == MemberRecord(nodes[i])
  {
  }

  /** Annotating members that were already annotated against the same assignment changes nothing. */
  lemma AnnotateAllIdempotent(nodes: seq<FamilyMember>, assignment: map<int, int>)
    ensures AnnotateAll(AnnotateAll(nodes, assignment), assignment) == AnnotateAll(nodes, assignment)
  {
  }

  /** Walks over two indexes in which every group's head reaches the same keys write the same tags. */
  lemma {:induction false} TagGroupsSameReach(m: map<int, int>, c1: map<int, seq<int>>, r1: map<int, nat>,
                                              c2: map<int, seq<int>>, r2: map<int, nat>, gs: seq<FamilyGroup>)
    requires Ranked(c1, r1) && Ranked(c2, r2)
    requires forall j :: 0 <= j < |gs| ==> Reach(c1, r1, gs[j].headOfFamily) == Reach(c2, r2, gs[j].headOfFamily)
    ensures TagGroups(m, c1, r1, gs) == TagGroups(m, c2, r2, gs)
    decreases |gs|
  {
    if |gs| > 0 {
      var init, last := gs[..|gs| - 1], gs[|gs| - 1];
      forall j | 0 <= j < |init|
        ensures Reach(c1, r1, init[j].headOfFamily) == Reach(c2, r2, init[j].headOfFamily)
      {
        assert init[j] == gs[j];
      }
      TagGroupsSameReach(m, c1, r1, c2, r2, init);
      var reached := Reach(c1, r1, last.headOfFamily);
      assert reached == Reach(c2, r2, last.headOfFamily);
      assert TagGroups(m, c1, r1, gs) == TagGroups(m, c1, r1, init) + Tag(reached, last.key);
    }
  }

  /** Scanning the annotated members again lists no child that was not listed already. */
  lemma RescanAddsNoEdge(index: map<int, seq<int>>, nodes: seq<FamilyMember>, assignment: map<int, int>)
    ensures var once := IndexChildren(index, nodes);
            forall p, c :: c in Lookup(IndexChildren(once, AnnotateAll(nodes, assignment)), p) <==> c in Lookup(once, p)
  {
    var once, annotated := IndexChildren(index, nodes), AnnotateAll(nodes, assignment);
    IndexKeepsEdges(once, annotated);
    forall p, c | c in Lookup(IndexChildren(once, annotated), p) ensures c in Lookup(once, p) {
      IndexedChildOf(once, annotated, p, c);
      if c !in Lookup(once, p) {
        var i :| 0 <= i < |annotated| && annotated[i].parent == Some(p) && annotated[i].key == c;
        IndexedChildOf(index, nodes, p, c);
      }
    }
  }

  /** Over the rescanned index the walk from any key visits what it visited before, whatever the ranks. */
  lemma RescanSameReach(index: map<int, seq<int>>, nodes: seq<FamilyMember>, assignment: map<int, int>,
                        rank1: map<int, nat>, rank2: map<int, nat>, k: int)
    requires Ranked(IndexChildren(index, nodes), rank1)
    requires Ranked(IndexChildren(IndexChildren(index, nodes), AnnotateAll(nodes, assignment)), rank2)
    ensures Reach(IndexChildren(IndexChildren(index, nodes), AnnotateAll(nodes, assignment)), rank2, k)
      == Reach(IndexChildren(index, nodes), rank1, k)
  {
    var once := IndexChildren(index, nodes);
    var twice := IndexChildren(once, AnnotateAll(nodes, assignment));
    RescanAddsNoEdge(index, nodes, assignment);
    forall x ensures x in Reach(twice, rank2, k) <==> x in Reach(once, rank1, k) {
      ReachIsDescends(twice, rank2, k, x);
      ReachIsDescends(once, rank1, k, x);
      if Descends(once, k, x) {
        DescendsAlongEdges(once, twice, k, x);
      }
      if Descends(twice, k, x) {
        DescendsAlongEdges(twice, once, k, x);
      }
    }
  }

  /** The output built from already annotated members is the output built from the originals. */
  lemma OutputOfAnnotated(nodes: seq<FamilyMember>, assignment: map<int, int>)
    ensures Output(AnnotateAll(nodes, assignment), assignment) == Output(nodes, assignment)
  {
    var again := AnnotateAll(nodes, assignment);
    AnnotateAllIdempotent(nodes, assignment);
    var out2, out1 := Output(again, assignment), Output(nodes, assignment);
    forall k | 0 <= k < |out1| ensures out2[k] == out1[k] {
      if k < |nodes| {
        assert AnnotateAll(again, assignment)[k] == again[k];
      }
    }
  }

  /**
   * Calling the hydrator a second time on the members the first call returned changes nothing:
   * the tag map stays as the first call left it, and the result is the first call's result,
   * although every child key is listed twice in the grown index.
   */
  lemma WholeCallIdempotent(index: map<int, seq<int>>, nodes: seq<FamilyMember>, m: map<int, int>,
                            rank1: map<int, nat>, rank2: map<int, nat>)
    requires Ranked(IndexChildren(index, nodes), rank1)
    requires var once := IndexChildren(index, nodes);
             var tags := TagGroups(m, once, rank1, Registry());
             Ranked(IndexChildren(once, AnnotateAll(nodes, tags)), rank2)
    ensures var once := IndexChildren(index, nodes);
            var tags := TagGroups(m, once, rank1, Registry());
            var again := AnnotateAll(nodes, tags);
            && TagGroups(tags, IndexChildren(once, again), rank2, Registry()) == tags
            && Output(again, TagGroups(tags, IndexChildren(once, again), rank2, Registry())) == Output(nodes, tags)
  {
    var once := IndexChildren(index, nodes);
    var tags := TagGroups(m, once, rank1, Registry());
    var twice := IndexChildren(once, AnnotateAll(nodes, tags));
    var gs := Registry();
    forall j | 0 <= j < |gs| ensures Reach(twice, rank2, gs[j].headOfFamily) == Reach(once, rank1, gs[j].headOfFamily) {
      RescanSameReach(index, nodes, tags, rank1, rank2, gs[j].headOfFamily);
    }
    TagGroupsSameReach(tags, twice, rank2, once, rank1, gs);
    TagGroupsIdempotent(m, once, rank1, gs);
    OutputOfAnnotated(nodes, tags);
  }

  /** Three generations 7, 8 and 9, each record carrying the same descriptive fields. */
  function ThreeGenerations(payload: Payload): seq<FamilyMember> {
    [FamilyMember(7, None, None, payload), FamilyMember(8, Some(7), None, payload), FamilyMember(9, Some(8), None, payload)]
  }

  /** Scanning the three generations lists 8 under 7 and 9 under 8. */
  lemma ThreeGenerationsIndex(payload: Payload)
    ensures IndexChildren(map[], ThreeGenerations(payload)) == map[7 := [8], 8 := [9]]
  {
    var nodes, empty: map<int, seq<int>> := ThreeGenerations(payload), map[];
    assert nodes[..0] == [] && nodes[..3] == nodes;
    IndexChildrenSnoc(empty, nodes, 0);
    assert IndexChildren(empty, nodes[..1]) == empty;
    IndexChildrenSnoc(empty, nodes, 1);
    assert Lookup(empty, 7) + [8] == [8];
    assert AddChild(empty, nodes[1]) == map[7 := [8]];
    IndexChildrenSnoc(empty, nodes, 2);
    assert Lookup(map[7 := [8]], 8) + [9] == [9];
    assert AddChild(map[7 := [8]], nodes[2]) == map[7 := [8], 8 := [9]];
  }

  /** Over that index the walk from 7 visits 7, 8 and 9, the walk from 8 visits 8 and 9, and so on. */
  lemma ThreeGenerationsReach(children: map<int, seq<int>>, rank: map<int, nat>)
    requires children == map[7 := [8], 8 := [9]] && rank == map[7 := 2, 8 := 1, 9 := 0]
    ensures Ranked(children, rank)
    ensures Reach(children, rank, 7) == {7, 8, 9} && Reach(children, rank, 8) == {8, 9}
    ensures forall k :: 9 <= k ==> Reach(children, rank, k) == {k}
  {
    assert ReachAll(children, rank, [], 1) == {};
    assert Reach(children, rank, 9) == {9};
    assert [9][..0] == [] && [8][..0] == [];
    assert ReachAll(children, rank, [9], 2) == {9};
    assert Reach(children, rank, 8) == {8, 9};
    assert ReachAll(children, rank, [8], 3) == {8, 9};
    forall k | 9 < k ensures Reach(children, rank, k) == {k} {
      assert Lookup(children, k) == [];
    }
  }

  /** From an empty state, the last walks to reach 7, 8 and 9 are those of groups -1, -2 and -3. */
  lemma ThreeGenerationsTags(children: map<int, seq<int>>, rank: map<int, nat>)
    requires children == map[7 := [8], 8 := [9]] && rank == map[7 := 2, 8 := 1, 9 := 0]
    ensures Ranked(children, rank)
    ensures var tags := TagGroups(map[], children, rank, Registry());
            Get(tags, 7) == Some(-1) && Get(tags, 8) == Some(-2) && Get(tags, 9) == Some(-3)
  {
    ThreeGenerationsReach(children, rank);
    var gs := Registry();
    forall j | 0 < j < |gs| ensures 7 !in Reach(children, rank, gs[j].headOfFamily) {
      assert gs[j].headOfFamily == j + 7;
    }
    forall j | 1 < j < |gs| ensures 8 !in Reach(children, rank, gs[j].headOfFamily) {
      assert gs[j].headOfFamily == j + 7;
    }
    forall j | 2 < j < |gs| ensures 9 !in Reach(children, rank, gs[j].headOfFamily) {
      assert gs[j].headOfFamily == j + 7;
    }
    TagGroupsLastVisitor(map[], children, rank, gs, 0, 7);
    TagGroupsLastVisitor(map[], children, rank, gs, 1, 8);
    TagGroupsLastVisitor(map[], children, rank, gs, 2, 9);
  }

  /**
   * Elizabeth II (7), her child 8 and grandchild 9, from an empty state: 8 and 9 head later
   * groups of the registry, so their own groups overwrite the tag of group -1.
   */
  lemma OverlappingHeadsScenario(payload: Payload)
    ensures var nodes := ThreeGenerations(payload);
            var children := IndexChildren(map[], nodes);
            var rank := map[7 := 2, 8 := 1, 9 := 0];
            && Ranked(children, rank)
            && var out := Output(nodes, TagGroups(map[], children, rank, Registry()));
               && out[0] == MemberRecord(nodes[0].(group := Some(-1)))
               && out[1] == MemberRecord(nodes[1].(group := Some(-2)))
               && out[2] == MemberRecord(nodes[2].(group := Some(-3)))
  {
    var nodes := ThreeGenerations(payload);
    var children := IndexChildren(map[], nodes);
    var rank := map[7 := 2, 8 := 1, 9 := 0];
    ThreeGenerationsIndex(payload);
    ThreeGenerationsTags(children, rank);
  }
}
