/**
 The group table as a forest of at most three levels, and the recursive listings the service builds
 from it. Only the `level` column makes those recursions end: it is what the table keeps so that
 parent links cannot run in circles.
 */
module GroupForest {
  import opened Options

  datatype SystemKey = Default | Temporary

  datatype Group = Group(parent: Option<nat>, level: nat, key: Option<SystemKey>, proxy: Option<nat>)

  type Groups = map<nat, Group>

  const MAX_LEVEL: nat := 3

  ghost predicate NodeOk(gs: Groups, g: nat)
    requires g in gs
  {
    var node := gs[g];
    && 1 <= node.level <= MAX_LEVEL
    && (node.parent.None? ==> node.level == 1)
    && (node.parent.Some? ==>
          && node.parent.value in gs
          && node.level == gs[node.parent.value].level + 1
          && gs[node.parent.value].key != Some(Temporary))
    && (node.key.Some? ==> node.parent.None?)
  }

  /** Levels follow parents, system groups are roots, temporary is a leaf, and system keys are unique. */
  ghost predicate Forest(gs: Groups) {
    && (forall g {:trigger NodeOk(gs, g)} | g in gs :: NodeOk(gs, g))
    && (forall g, h | g in gs && h in gs && gs[g].key.Some? && gs[g].key == gs[h].key :: g == h)
  }

  /** What the ordered query returns: every group once. */
  ghost predicate Lists(gs: Groups, order: seq<nat>) {
    && (forall g :: g in order <==> g in gs)
    && (forall i, j | 0 <= i < j < |order| :: order[i] != order[j])
  }

  // ---- ancestors -----------------------------------------------------------------------------

  /** `g` is `m` itself or one of its ancestors. */
  predicate Below(gs: Groups, m: nat, g: nat)
    requires Forest(gs) && m in gs
    decreases gs[m].level
  {
    assert NodeOk(gs, m);
    m == g || (gs[m].parent.Some? && Below(gs, gs[m].parent.value, g))
  }

  lemma {:induction false} BelowIsDeeper(gs: Groups, m: nat, g: nat)
    requires Forest(gs) && m in gs && Below(gs, m, g)
    ensures g in gs && gs[m].level >= gs[g].level
    ensures m != g ==> gs[m].level > gs[g].level
    decreases gs[m].level
  {
    assert NodeOk(gs, m);
    if m != g { BelowIsDeeper(gs, gs[m].parent.value, g); }
  }

  /** No group is its own ancestor. */
  lemma Acyclic(gs: Groups, m: nat)
    requires Forest(gs) && m in gs && gs[m].parent.Some?
    ensures gs[m].parent.value in gs && !Below(gs, gs[m].parent.value, m)
  {
    assert NodeOk(gs, m);
    if Below(gs, gs[m].parent.value, m) { BelowIsDeeper(gs, gs[m].parent.value, m); }
  }

  /** Two ancestors on the same level are the same group. */
  lemma {:induction false} AncestorsAreUnique(gs: Groups, m: nat, a: nat, b: nat)
    requires Forest(gs) && m in gs && Below(gs, m, a) && Below(gs, m, b)
    requires a in gs && b in gs && gs[a].level == gs[b].level
    ensures a == b
    decreases gs[m].level
  {
    assert NodeOk(gs, m);
    BelowIsDeeper(gs, m, a);
    BelowIsDeeper(gs, m, b);
    if m != a && m != b { AncestorsAreUnique(gs, gs[m].parent.value, a, b); }
  }

  lemma {:induction false} BelowTrans(gs: Groups, m: nat, k: nat, g: nat)
    requires Forest(gs) && m in gs && k in gs && Below(gs, m, k) && Below(gs, k, g)
    ensures Below(gs, m, g)
    decreases gs[m].level
  {
    assert NodeOk(gs, m);
    if m != k { BelowTrans(gs, gs[m].parent.value, k, g); }
  }

  /** A proper descendant of `g` is below one of its children. */
  lemma {:induction false} BelowThroughChild(gs: Groups, m: nat, g: nat) returns (child: nat)
    requires Forest(gs) && m in gs && Below(gs, m, g) && m != g
    ensures child in gs && gs[child].parent == Some(g) && Below(gs, m, child)
    decreases gs[m].level
  {
    assert NodeOk(gs, m);
    if gs[m].parent == Some(g) {
      child := m;
    } else {
      child := BelowThroughChild(gs, gs[m].parent.value, g);
    }
  }

  // ---- the recursive listing -----------------------------------------------------------------

  /** The children the listing groups under `p`, in listing order; the roots under `None`. */
  function Children(gs: Groups, order: seq<nat>, p: Option<nat>): seq<nat> {
    if order == [] then []
    else
      (if order[0] in gs && gs[order[0]].parent == p then [order[0]] else []) + Children(gs, order[1..], p)
  }

  lemma {:induction false} ChildrenExact(gs: Groups, order: seq<nat>, p: Option<nat>)
    ensures forall c :: c in Children(gs, order, p) <==> c in order && c in gs && gs[c].parent == p
    ensures (forall i, j | 0 <= i < j < |order| :: order[i] != order[j]) ==>
              forall i, j | 0 <= i < j < |Children(gs, order, p)| ::
                Children(gs, order, p)[i] != Children(gs, order, p)[j]
  {
    if order != [] {
      ChildrenExact(gs, order[1..], p);
      assert forall c :: c in order <==> c == order[0] || c in order[1..];
    }
  }

  /** All of `kids` are groups on one level. */
  ghost predicate OnLevel(gs: Groups, kids: seq<nat>, level: nat) {
    forall k | k in kids :: k in gs && gs[k].level == level
  }

  lemma ChildrenOnLevel(gs: Groups, order: seq<nat>, p: Option<nat>)
    requires Forest(gs)
    requires p.Some? ==> p.value in gs
    ensures OnLevel(gs, Children(gs, order, p), if p.Some? then gs[p.value].level + 1 else 1)
  {
    ChildrenExact(gs, order, p);
    forall k | k in Children(gs, order, p) ensures NodeOk(gs, k) {}
  }

  /** A group and everything under it: the group first, then each child's listing. */
  function Descendants(gs: Groups, order: seq<nat>, g: nat): seq<nat>
    requires Forest(gs) && g in gs
    decreases 2 * (MAX_LEVEL + 1 - gs[g].level), 0
  {
    ChildrenOnLevel(gs, order, Some(g));
    assert NodeOk(gs, g);
    [g] + DescendantsOfAll(gs, order, Children(gs, order, Some(g)), gs[g].level + 1)
  }

  function DescendantsOfAll(gs: Groups, order: seq<nat>, kids: seq<nat>, ghost level: nat): seq<nat>
    requires Forest(gs) && OnLevel(gs, kids, level) && level <= MAX_LEVEL + 1
    decreases 2 * (MAX_LEVEL + 1 - level) + 1, |kids|
  {
    if kids == [] then []
    else
      assert NodeOk(gs, kids[0]);
      Descendants(gs, order, kids[0]) + DescendantsOfAll(gs, order, kids[1..], level)
  }

  /** `m` lies below one of `kids`. */
  ghost predicate BelowAny(gs: Groups, m: nat, kids: seq<nat>)
    requires Forest(gs)
  {
    m in gs && exists k :: k in kids && Below(gs, m, k)
  }

  /** A subtree is its root and the subtrees of the children. */
  lemma SubtreeSplits(gs: Groups, order: seq<nat>, g: nat)
    requires Forest(gs) && Lists(gs, order) && g in gs
    ensures forall m :: (m in gs && Below(gs, m, g)) <==> m == g || BelowAny(gs, m, Children(gs, order, Some(g)))
  {
    var kids := Children(gs, order, Some(g));
    ChildrenExact(gs, order, Some(g));
    forall m | m in gs && Below(gs, m, g) && m != g ensures BelowAny(gs, m, kids) {
      var child := BelowThroughChild(gs, m, g);
      assert child in kids;
    }
    forall m | BelowAny(gs, m, kids) ensures Below(gs, m, g) {
      var k :| k in kids && Below(gs, m, k);
      assert Below(gs, k, g);
      BelowTrans(gs, m, k, g);
    }
  }

  lemma {:induction false} ListingMembers(gs: Groups, order: seq<nat>, g: nat)
    requires Forest(gs) && Lists(gs, order) && g in gs
    ensures forall m {:trigger m in Descendants(gs, order, g)} ::
              m in Descendants(gs, order, g) <==> m in gs && Below(gs, m, g)
    decreases 2 * (MAX_LEVEL + 1 - gs[g].level), 0
  {
    ChildrenOnLevel(gs, order, Some(g));
    assert NodeOk(gs, g);
    var kids := Children(gs, order, Some(g));
    ListingAllMembers(gs, order, kids, gs[g].level + 1);
    SubtreeSplits(gs, order, g);
    var rest := DescendantsOfAll(gs, order, kids, gs[g].level + 1);
    assert Descendants(gs, order, g) == [g] + rest;
    assert forall m :: m in [g] + rest <==> m == g || m in rest;
  }

  lemma {:induction false} ListingAllMembers(gs: Groups, order: seq<nat>, kids: seq<nat>, level: nat)
    requires Forest(gs) && Lists(gs, order) && OnLevel(gs, kids, level) && level <= MAX_LEVEL + 1
    ensures forall m :: m in DescendantsOfAll(gs, order, kids, level) <==> BelowAny(gs, m, kids)
    decreases 2 * (MAX_LEVEL + 1 - level) + 1, |kids|
  {
    if kids != [] {
      assert NodeOk(gs, kids[0]);
      ListingMembers(gs, order, kids[0]);
      ListingAllMembers(gs, order, kids[1..], level);
      assert forall m :: BelowAny(gs, m, kids) <==> (m in gs && Below(gs, m, kids[0])) || BelowAny(gs, m, kids[1..]);
    }
  }

  predicate NoRepeats(s: seq<nat>) {
    forall i, j | 0 <= i < j < |s| :: s[i] != s[j]
  }

  lemma {:induction false} ListingOnce(gs: Groups, order: seq<nat>, g: nat)
    requires Forest(gs) && Lists(gs, order) && g in gs
    ensures NoRepeats(Descendants(gs, order, g))
    decreases 2 * (MAX_LEVEL + 1 - gs[g].level), 0
  {
    var kids := Children(gs, order, Some(g));
    ChildrenOnLevel(gs, order, Some(g));
    ChildrenExact(gs, order, Some(g));
    assert NodeOk(gs, g);
    ListingAllOnce(gs, order, kids, gs[g].level + 1);
    ListingAllMembers(gs, order, kids, gs[g].level + 1);
    if BelowAny(gs, g, kids) {
      var k :| k in kids && Below(gs, g, k);
      BelowIsDeeper(gs, g, k);
    }
  }

  lemma {:induction false} ListingAllOnce(gs: Groups, order: seq<nat>, kids: seq<nat>, level: nat)
    requires Forest(gs) && Lists(gs, order) && OnLevel(gs, kids, level) && level <= MAX_LEVEL + 1
    requires NoRepeats(kids)
    ensures NoRepeats(DescendantsOfAll(gs, order, kids, level))
    decreases 2 * (MAX_LEVEL + 1 - level) + 1, |kids|
  {
    if kids != [] {
      assert NodeOk(gs, kids[0]);
      ListingOnce(gs, order, kids[0]);
      ListingMembers(gs, order, kids[0]);
      ListingAllOnce(gs, order, kids[1..], level);
      ListingAllMembers(gs, order, kids[1..], level);
      forall m | m in Descendants(gs, order, kids[0]) ensures m !in DescendantsOfAll(gs, order, kids[1..], level) {
        if BelowAny(gs, m, kids[1..]) {
          var k :| k in kids[1..] && Below(gs, m, k);
          AncestorsAreUnique(gs, m, kids[0], k);
        }
      }
      NoRepeatsConcat(Descendants(gs, order, kids[0]), DescendantsOfAll(gs, order, kids[1..], level));
    }
  }

  lemma NoRepeatsConcat(a: seq<nat>, b: seq<nat>)
    requires NoRepeats(a) && NoRepeats(b) && forall x | x in a :: x !in b
    ensures NoRepeats(a + b)
  {
    var s := a + b;
    forall i, j | 0 <= i < j < |s| ensures s[i] != s[j] {
      if i < |a| <= j { assert s[i] in a && s[j] in b; }
    }
  }

  /** Every element but those listed as starting points comes after its parent. */
  ghost predicate ParentsFirst(gs: Groups, s: seq<nat>, starts: seq<nat>) {
    forall j | 0 <= j < |s| && s[j] !in starts ::
      s[j] in gs && gs[s[j]].parent.Some? && gs[s[j]].parent.value in s[..j]
  }

  lemma ParentsFirstConcat(gs: Groups, a: seq<nat>, b: seq<nat>, s: seq<nat>, t: seq<nat>, starts: seq<nat>)
    requires ParentsFirst(gs, a, s) && ParentsFirst(gs, b, t)
    requires forall x | x in t && x !in starts :: x in gs && gs[x].parent.Some? && gs[x].parent.value in a
    requires forall x | x in s :: x in starts
    ensures ParentsFirst(gs, a + b, starts)
  {
    var all := a + b;
    forall j | 0 <= j < |all| && all[j] !in starts
      ensures all[j] in gs && gs[all[j]].parent.Some? && gs[all[j]].parent.value in all[..j]
    {
      if j < |a| {
        assert all[..j] == a[..j];
      } else {
        var n := j - |a|;
        assert all[j] == b[n] && all[..j] == a + b[..n];
      }
    }
  }

  lemma {:induction false} ListingParentsFirst(gs: Groups, order: seq<nat>, g: nat)
    requires Forest(gs) && Lists(gs, order) && g in gs
    ensures ParentsFirst(gs, Descendants(gs, order, g), [g])
    decreases 2 * (MAX_LEVEL + 1 - gs[g].level), 0
  {
    var kids := Children(gs, order, Some(g));
    ChildrenOnLevel(gs, order, Some(g));
    ChildrenExact(gs, order, Some(g));
    assert NodeOk(gs, g);
    ListingAllParentsFirst(gs, order, kids, gs[g].level + 1);
    ParentsFirstConcat(gs, [g], DescendantsOfAll(gs, order, kids, gs[g].level + 1), [g], kids, [g]);
  }

  lemma {:induction false} ListingAllParentsFirst(gs: Groups, order: seq<nat>, kids: seq<nat>, level: nat)
    requires Forest(gs) && Lists(gs, order) && OnLevel(gs, kids, level) && level <= MAX_LEVEL + 1
    ensures ParentsFirst(gs, DescendantsOfAll(gs, order, kids, level), kids)
    decreases 2 * (MAX_LEVEL + 1 - level) + 1, |kids|
  {
    if kids != [] {
      assert NodeOk(gs, kids[0]);
      ListingParentsFirst(gs, order, kids[0]);
      ListingAllParentsFirst(gs, order, kids[1..], level);
      ParentsFirstConcat(gs, Descendants(gs, order, kids[0]), DescendantsOfAll(gs, order, kids[1..], level),
                         [kids[0]], kids[1..], kids);
    }
  }

  /** The listing of a group is exactly its subtree, each member once, parents before children. */
  lemma DescendantsAreTheSubtree(gs: Groups, order: seq<nat>, g: nat)
    requires Forest(gs) && Lists(gs, order) && g in gs
    ensures forall m {:trigger m in Descendants(gs, order, g)} ::
              m in Descendants(gs, order, g) <==> m in gs && Below(gs, m, g)
    ensures NoRepeats(Descendants(gs, order, g))
    ensures Descendants(gs, order, g)[0] == g
    ensures forall j | 0 < j < |Descendants(gs, order, g)| ::
              var m := Descendants(gs, order, g)[j];
              m in gs && gs[m].parent.Some? && gs[m].parent.value in Descendants(gs, order, g)[..j]
  {
    ListingMembers(gs, order, g);
    ListingOnce(gs, order, g);
    ListingParentsFirst(gs, order, g);
    var all := Descendants(gs, order, g);
    forall j | 0 < j < |all|
      ensures all[j] in gs && gs[all[j]].parent.Some? && gs[all[j]].parent.value in all[..j]
    {
      assert all[0] != all[j];
    }
  }

  // ---- depth ---------------------------------------------------------------------------------

  function SubtreeDepth(gs: Groups, order: seq<nat>, g: nat): nat
    requires Forest(gs) && g in gs
    decreases 2 * (MAX_LEVEL + 1 - gs[g].level), 0
  {
    ChildrenOnLevel(gs, order, Some(g));
    assert NodeOk(gs, g);
    1 + MaxDepth(gs, order, Children(gs, order, Some(g)), gs[g].level + 1)
  }

  function MaxDepth(gs: Groups, order: seq<nat>, kids: seq<nat>, ghost level: nat): nat
    requires Forest(gs) && OnLevel(gs, kids, level) && level <= MAX_LEVEL + 1
    decreases 2 * (MAX_LEVEL + 1 - level) + 1, |kids|
  {
    if kids == [] then 0
    else
      assert NodeOk(gs, kids[0]);
      var d := SubtreeDepth(gs, order, kids[0]);
      var rest := MaxDepth(gs, order, kids[1..], level);
      if d >= rest then d else rest
  }

  /** The deepest groups below any of `kids` are on level `top - 1`. */
  ghost predicate Deepest(gs: Groups, kids: seq<nat>, top: nat)
    requires Forest(gs)
  {
    && (forall m | BelowAny(gs, m, kids) :: gs[m].level < top)
    && (exists m :: BelowAny(gs, m, kids) && gs[m].level + 1 == top)
  }

  /** The depth of a subtree is how far its deepest member lies below the root, counting both. */
  lemma {:induction false} DepthIsExact(gs: Groups, order: seq<nat>, g: nat)
    requires Forest(gs) && Lists(gs, order) && g in gs
    ensures Deepest(gs, [g], gs[g].level + SubtreeDepth(gs, order, g))
    decreases 2 * (MAX_LEVEL + 1 - gs[g].level), 0
  {
    var kids := Children(gs, order, Some(g));
    ChildrenOnLevel(gs, order, Some(g));
    assert NodeOk(gs, g);
    MaxDepthIsExact(gs, order, kids, gs[g].level + 1);
    DeepestRoot(gs, order, g, MaxDepth(gs, order, kids, gs[g].level + 1));
  }

  lemma DeepestRoot(gs: Groups, order: seq<nat>, g: nat, depth: nat)
    requires Forest(gs) && Lists(gs, order) && g in gs
    requires var kids := Children(gs, order, Some(g));
             if kids == [] then depth == 0 else Deepest(gs, kids, gs[g].level + 1 + depth)
    ensures Deepest(gs, [g], gs[g].level + 1 + depth)
  {
    var kids := Children(gs, order, Some(g));
    var top := gs[g].level + 1 + depth;
    SubtreeSplits(gs, order, g);
    forall m | BelowAny(gs, m, [g]) ensures gs[m].level < top {
      assert Below(gs, m, g);
    }
    var deepest := g;
    if kids != [] {
      deepest :| BelowAny(gs, deepest, kids) && gs[deepest].level + 1 == top;
    }
    assert g in [g] && Below(gs, deepest, g);
  }

  lemma BelowAnySplits(gs: Groups, kids: seq<nat>)
    requires Forest(gs) && kids != []
    ensures forall m :: BelowAny(gs, m, kids) <==> BelowAny(gs, m, [kids[0]]) || BelowAny(gs, m, kids[1..])
  {
    assert forall k :: k in kids <==> k in [kids[0]] || k in kids[1..];
  }

  lemma {:induction false} MaxDepthIsExact(gs: Groups, order: seq<nat>, kids: seq<nat>, level: nat)
    requires Forest(gs) && Lists(gs, order) && OnLevel(gs, kids, level) && level <= MAX_LEVEL + 1
    ensures if kids == [] then MaxDepth(gs, order, kids, level) == 0
            else Deepest(gs, kids, level + MaxDepth(gs, order, kids, level))
    decreases 2 * (MAX_LEVEL + 1 - level) + 1, |kids|
  {
    if kids != [] {
      assert NodeOk(gs, kids[0]);
      DepthIsExact(gs, order, kids[0]);
      MaxDepthIsExact(gs, order, kids[1..], level);
      BelowAnySplits(gs, kids);
    }
  }
}
