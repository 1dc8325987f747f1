/**
 The group service: creating, moving and deleting groups, and the account counts of the group list.
 Moving shifts the levels of a whole subtree; deleting empties it leaf first, because the database
 refuses to delete a group that still has a child.
 */
module GroupService {
  import opened Options
  import opened GroupForest

  datatype Account = Account(group: Option<nat>, proxy: Option<nat>)

  type Accounts = map<nat, Account>

  datatype GroupError = GroupNotFound | DepthExceeded | SystemGroupImmutable | GroupCycle | NameConflict

  /** The foreign key of an account. */
  predicate Linked(accounts: Accounts, gs: Groups) {
    forall a | a in accounts && accounts[a].group.Some? :: accounts[a].group.value in gs
  }

  // ---- counting accounts ---------------------------------------------------------------------

  function Filed(accounts: Accounts, g: nat): set<nat> {
    set a | a in accounts && accounts[a].group == Some(g)
  }

  function Direct(accounts: Accounts, g: nat): nat {
    |Filed(accounts, g)|
  }

  function SumDirect(accounts: Accounts, gs: seq<nat>): nat {
    if gs == [] then 0 else Direct(accounts, gs[0]) + SumDirect(accounts, gs[1..])
  }

  function Within(accounts: Accounts, gs: seq<nat>): set<nat> {
    set a | a in accounts && accounts[a].group.Some? && accounts[a].group.value in gs
  }

  lemma {:induction false} SumIsCount(accounts: Accounts, gs: seq<nat>)
    requires NoRepeats(gs)
    ensures SumDirect(accounts, gs) == |Within(accounts, gs)|
  {
    if gs == [] {
      assert Within(accounts, gs) == {};
    } else {
      SumIsCount(accounts, gs[1..]);
      var own := Filed(accounts, gs[0]);
      var rest := Within(accounts, gs[1..]);
      assert gs[0] !in gs[1..];
      assert forall x :: x in gs <==> x == gs[0] || x in gs[1..];
      assert Within(accounts, gs) == own + rest;
      assert own !! rest;
    }
  }

  lemma {:induction false} SumConcat(accounts: Accounts, a: seq<nat>, b: seq<nat>)
    ensures SumDirect(accounts, a + b) == SumDirect(accounts, a) + SumDirect(accounts, b)
  {
    if a == [] {
      assert a + b == b;
    } else {
      SumConcat(accounts, a[1..], b);
      assert (a + b)[1..] == a[1..] + b;
    }
  }

  /** The descendant count of a group, as the list computes it. */
  function SubtreeCount(accounts: Accounts, gs: Groups, order: seq<nat>, g: nat): nat
    requires Forest(gs) && g in gs
  {
    SumDirect(accounts, Descendants(gs, order, g))
  }

  /** The accounts filed under `g` or anywhere below it. */
  function Under(accounts: Accounts, gs: Groups, g: nat): set<nat>
    requires Forest(gs)
  {
    set a | a in accounts && accounts[a].group.Some? && accounts[a].group.value in gs
            && Below(gs, accounts[a].group.value, g)
  }

  /** It counts each account filed under the group or anywhere below it, once. */
  lemma SubtreeCountIsExact(accounts: Accounts, gs: Groups, order: seq<nat>, g: nat)
    requires Forest(gs) && Lists(gs, order) && g in gs
    ensures SubtreeCount(accounts, gs, order, g)
            == |Under(accounts, gs, g)|
  {
    DescendantsAreTheSubtree(gs, order, g);
    SumIsCount(accounts, Descendants(gs, order, g));
    assert Within(accounts, Descendants(gs, order, g)) == Under(accounts, gs, g);
  }

  function SumSubtrees(accounts: Accounts, gs: Groups, order: seq<nat>, kids: seq<nat>): nat
    requires Forest(gs) && forall k | k in kids :: k in gs
  {
    if kids == [] then 0
    else SubtreeCount(accounts, gs, order, kids[0]) + SumSubtrees(accounts, gs, order, kids[1..])
  }

  lemma {:induction false} SumOfAll(accounts: Accounts, gs: Groups, order: seq<nat>, kids: seq<nat>, level: nat)
    requires Forest(gs) && OnLevel(gs, kids, level) && level <= MAX_LEVEL + 1
    ensures SumDirect(accounts, DescendantsOfAll(gs, order, kids, level)) == SumSubtrees(accounts, gs, order, kids)
  {
    if kids != [] {
      assert NodeOk(gs, kids[0]);
      SumOfAll(accounts, gs, order, kids[1..], level);
      SumConcat(accounts, Descendants(gs, order, kids[0]), DescendantsOfAll(gs, order, kids[1..], level));
    }
  }

  /** A group's count is its own accounts plus its children's counts. */
  lemma CountIsOwnPlusChildren(accounts: Accounts, gs: Groups, order: seq<nat>, g: nat)
    requires Forest(gs) && Lists(gs, order) && g in gs
    ensures var kids := Children(gs, order, Some(g));
            && (forall k | k in kids :: k in gs)
            && SubtreeCount(accounts, gs, order, g) == Direct(accounts, g) + SumSubtrees(accounts, gs, order, kids)
  {
    var kids := Children(gs, order, Some(g));
    ChildrenOnLevel(gs, order, Some(g));
    assert NodeOk(gs, g);
    SumOfAll(accounts, gs, order, kids, gs[g].level + 1);
    SumConcat(accounts, [g], DescendantsOfAll(gs, order, kids, gs[g].level + 1));
    assert SumDirect(accounts, [g]) == Direct(accounts, g) + SumDirect(accounts, []);
  }

  lemma {:induction false} HasRoot(gs: Groups, order: seq<nat>, m: nat)
    requires Forest(gs) && Lists(gs, order) && m in gs
    ensures BelowAny(gs, m, Children(gs, order, None))
    decreases gs[m].level
  {
    var roots := Children(gs, order, None);
    ChildrenExact(gs, order, None);
    assert NodeOk(gs, m);
    if gs[m].parent.None? {
      assert m in roots && Below(gs, m, m);
    } else {
      HasRoot(gs, order, gs[m].parent.value);
      var r :| r in roots && Below(gs, gs[m].parent.value, r);
      assert Below(gs, m, r);
    }
  }

  /** The counts of the roots add up to all accounts that are in a group. */
  lemma RootsCountEverything(accounts: Accounts, gs: Groups, order: seq<nat>)
    requires Forest(gs) && Lists(gs, order) && Linked(accounts, gs)
    ensures var roots := Children(gs, order, None);
            && (forall r | r in roots :: r in gs)
            && SumSubtrees(accounts, gs, order, roots) == |set a | a in accounts && accounts[a].group.Some?|
  {
    var roots := Children(gs, order, None);
    ChildrenOnLevel(gs, order, None);
    ChildrenExact(gs, order, None);
    var all := DescendantsOfAll(gs, order, roots, 1);
    SumOfAll(accounts, gs, order, roots, 1);
    ListingAllMembers(gs, order, roots, 1);
    ListingAllOnce(gs, order, roots, 1);
    SumIsCount(accounts, all);
    forall a | a in accounts && accounts[a].group.Some? ensures accounts[a].group.value in all {
      HasRoot(gs, order, accounts[a].group.value);
    }
    assert Within(accounts, all) == set a | a in accounts && accounts[a].group.Some?;
  }

  function SetOf(s: seq<nat>): set<nat> {
    set x | x in s
  }

  // ---- moving --------------------------------------------------------------------------------

  function TargetLevel(gs: Groups, p: Option<nat>): nat
    requires p.Some? ==> p.value in gs
  {
    if p.None? then 1
    else if gs[p.value].key == Some(Temporary) then MAX_LEVEL + 1
    else gs[p.value].level + 1
  }

  /** The level of `m` once the subtree of `g` hangs at level `target`. */
  function ShiftedLevel(gs: Groups, m: nat, g: nat, target: nat): nat
    requires Forest(gs) && m in gs && g in gs && Below(gs, m, g)
  {
    BelowIsDeeper(gs, m, g);
    gs[m].level - gs[g].level + target
  }

  /** The table after the subtree of `g` moved under `p`: levels follow, everything else stays. */
  function Moved(gs: Groups, g: nat, p: Option<nat>): Groups
    requires Forest(gs) && g in gs && (p.Some? ==> p.value in gs)
  {
    map m | m in gs :: MovedNode(gs, g, p, m)
  }

  function MovedNode(gs: Groups, g: nat, p: Option<nat>, m: nat): Group
    requires Forest(gs) && g in gs && (p.Some? ==> p.value in gs) && m in gs
  {
    if !Below(gs, m, g) then gs[m]
    else gs[m].(level := ShiftedLevel(gs, m, g, TargetLevel(gs, p)),
                parent := if m == g then p else gs[m].parent)
  }

  /** Shifts the levels of the chosen groups so that level `from` becomes `target`. */
  function Shifted(gs: Groups, chosen: set<nat>, from: nat, target: nat): Groups
    requires forall m | m in chosen :: m in gs && gs[m].level >= from
  {
    map m | m in gs :: if m in chosen then gs[m].(level := gs[m].level - from + target) else gs[m]
  }

  lemma SubtreeIsDeeper(gs: Groups, subtree: set<nat>, g: nat)
    requires Forest(gs) && g in gs && forall m {:trigger m in subtree} :: m in subtree <==> m in gs && Below(gs, m, g)
    ensures forall m | m in subtree :: m in gs && gs[m].level >= gs[g].level
  {
    forall m | m in subtree ensures gs[m].level >= gs[g].level { BelowIsDeeper(gs, m, g); }
  }

  function RelinkedNode(node: Group, inside: bool, isRoot: bool, p: Option<nat>, from: nat, target: nat): Group
    requires inside ==> node.level >= from
  {
    if !inside then node
    else node.(level := node.level - from + target, parent := if isRoot then p else node.parent)
  }

  lemma ShiftThenRelink(gs: Groups, g: nat, p: Option<nat>, subtree: set<nat>, target: nat)
    requires g in subtree && g in gs
    requires forall m | m in subtree :: m in gs && gs[m].level >= gs[g].level
    ensures var shifted := Shifted(gs, subtree, gs[g].level, target);
            shifted[g := shifted[g].(parent := p)]
            == map m | m in gs :: RelinkedNode(gs[m], m in subtree, m == g, p, gs[g].level, target)
  {
  }

  lemma SameNode(gs: Groups, g: nat, p: Option<nat>, m: nat, inside: bool)
    requires Forest(gs) && g in gs && m in gs && (p.Some? ==> p.value in gs)
    requires (inside <==> Below(gs, m, g)) && (inside ==> gs[m].level >= gs[g].level)
    ensures MovedNode(gs, g, p, m) == RelinkedNode(gs[m], inside, m == g, p, gs[g].level, TargetLevel(gs, p))
  {
  }

  lemma RelinkIsMove(gs: Groups, g: nat, p: Option<nat>, subtree: set<nat>)
    requires Forest(gs) && g in gs && (p.Some? ==> p.value in gs)
    requires forall m {:trigger m in subtree} :: m in subtree <==> m in gs && Below(gs, m, g)
    requires forall m | m in subtree :: m in gs && gs[m].level >= gs[g].level
    ensures Moved(gs, g, p)
            == map m | m in gs :: RelinkedNode(gs[m], m in subtree, m == g, p, gs[g].level, TargetLevel(gs, p))
  {
    forall m | m in gs
      ensures MovedNode(gs, g, p, m)
              == RelinkedNode(gs[m], m in subtree, m == g, p, gs[g].level, TargetLevel(gs, p))
    {
      SameNode(gs, g, p, m, m in subtree);
    }
  }

  /** Shifting the subtree and relinking its root is the whole move. */
  lemma MoveIsShift(gs: Groups, g: nat, p: Option<nat>, subtree: set<nat>, shifted: Groups)
    requires Forest(gs) && g in gs && (p.Some? ==> p.value in gs)
    requires forall m {:trigger m in subtree} :: m in subtree <==> m in gs && Below(gs, m, g)
    requires forall m | m in subtree :: m in gs && gs[m].level >= gs[g].level
    requires shifted == Shifted(gs, subtree, gs[g].level, TargetLevel(gs, p))
    ensures g in shifted && shifted[g := shifted[g].(parent := p)] == Moved(gs, g, p)
  {
    assert Below(gs, g, g) && g in subtree;
    ShiftThenRelink(gs, g, p, subtree, TargetLevel(gs, p));
    RelinkIsMove(gs, g, p, subtree);
  }

  /** The moves the service accepts. */
  predicate Movable(gs: Groups, order: seq<nat>, g: nat, p: Option<nat>)
    requires Forest(gs) && g in gs && (p.Some? ==> p.value in gs)
  {
    && (p.Some? ==> gs[g].key.None? && !Below(gs, p.value, g))
    && TargetLevel(gs, p) + SubtreeDepth(gs, order, g) - 1 <= MAX_LEVEL
  }

  /** A move is accepted when it makes no cycle, enters no temporary group, and nothing goes below level three. */
  lemma MovableMeans(gs: Groups, order: seq<nat>, g: nat, p: Option<nat>)
    requires Forest(gs) && Lists(gs, order) && g in gs && (p.Some? ==> p.value in gs)
    ensures Movable(gs, order, g, p) <==>
            && (p.Some? ==> gs[g].key.None? && !Below(gs, p.value, g) && gs[p.value].key != Some(Temporary))
            && forall m | m in gs && Below(gs, m, g) ::
                 gs[m].level - gs[g].level + (if p.None? then 1 else gs[p.value].level + 1) <= 3
  {
    DepthIsExact(gs, order, g);
    assert NodeOk(gs, g) && Below(gs, g, g);
    assert g in [g];
    var deepest :| BelowAny(gs, deepest, [g]) && gs[deepest].level + 1 == gs[g].level + SubtreeDepth(gs, order, g);
    assert Below(gs, deepest, g);
    forall m | m in gs && Below(gs, m, g) ensures gs[m].level < gs[g].level + SubtreeDepth(gs, order, g) {
      assert BelowAny(gs, m, [g]);
    }
  }

  lemma MoveMeans(gs: Groups, g: nat, p: Option<nat>)
    requires Forest(gs) && g in gs
    requires p.Some? ==> p.value in gs && gs[p.value].key != Some(Temporary)
    ensures var after := Moved(gs, g, p);
            after.Keys == gs.Keys && forall m | m in gs ::
              && (Below(gs, m, g) ==> gs[m].level >= gs[g].level)
              && after[m] == if !Below(gs, m, g) then gs[m]
                             else gs[m].(level := gs[m].level - gs[g].level
                                                  + (if p.None? then 1 else gs[p.value].level + 1),
                                         parent := if m == g then p else gs[m].parent)
  {
    forall m | m in gs && Below(gs, m, g) ensures gs[m].level >= gs[g].level { BelowIsDeeper(gs, m, g); }
  }

  /** What the service computes for an accepted move is the move, and may be computed that way. */
  lemma MoveIsComputed(gs: Groups, order: seq<nat>, g: nat, p: Option<nat>, subtree: set<nat>, target: nat)
    requires Forest(gs) && Lists(gs, order) && g in gs && (p.Some? ==> p.value in gs)
    requires Movable(gs, order, g, p)
    requires subtree == SetOf(Descendants(gs, order, g)) && target == TargetLevel(gs, p)
    ensures forall m | m in subtree :: m in gs && gs[m].level >= gs[g].level
    ensures var shifted := Shifted(gs, subtree, gs[g].level, target);
            g in shifted && shifted[g := shifted[g].(parent := p)] == Moved(gs, g, p)
    ensures Forest(Moved(gs, g, p)) && Moved(gs, g, p).Keys == gs.Keys
  {
    DescendantsAreTheSubtree(gs, order, g);
    SubtreeIsDeeper(gs, subtree, g);
    MoveIsShift(gs, g, p, subtree, Shifted(gs, subtree, gs[g].level, target));
    MoveKeepsForest(gs, order, g, p);
  }

  /** Every accepted move leaves a forest. */
  lemma MoveKeepsForest(gs: Groups, order: seq<nat>, g: nat, p: Option<nat>)
    requires Forest(gs) && Lists(gs, order) && g in gs && (p.Some? ==> p.value in gs)
    requires Movable(gs, order, g, p)
    ensures Forest(Moved(gs, g, p))
  {
    var after := Moved(gs, g, p);
    DepthIsExact(gs, order, g);
    forall m | m in after ensures NodeOk(after, m) {
      assert NodeOk(gs, m);
      if Below(gs, m, g) {
        BelowIsDeeper(gs, m, g);
        assert g in [g] && BelowAny(gs, m, [g]);
        if m == g && p.Some? { assert NodeOk(gs, p.value); }
      }
    }
  }

  /** The exact ancestry after a move: the subtree travels whole and everything outside it is unaffected. */
  lemma {:induction false} MoveAncestry(gs: Groups, g: nat, p: Option<nat>, m: nat, x: nat)
    requires Forest(gs) && g in gs && (p.Some? ==> p.value in gs && !Below(gs, p.value, g))
    requires Forest(Moved(gs, g, p)) && m in gs && x in gs
    ensures Below(Moved(gs, g, p), m, x) <==>
            if Below(gs, m, g)
            then (Below(gs, m, x) && Below(gs, x, g)) || (p.Some? && Below(gs, p.value, x))
            else Below(gs, m, x)
    decreases Below(gs, m, g), gs[m].level
  {
    var after := Moved(gs, g, p);
    assert NodeOk(gs, m) && NodeOk(after, m);
    if m == g {
      if p.Some? { MoveAncestry(gs, g, p, p.value, x); }
      if Below(gs, g, x) && Below(gs, x, g) {
        BelowIsDeeper(gs, g, x);
        BelowIsDeeper(gs, x, g);
      }
    } else if gs[m].parent.Some? {
      assert Below(gs, m, g) == Below(gs, gs[m].parent.value, g);
      MoveAncestry(gs, g, p, gs[m].parent.value, x);
    }
  }

  // ---- the service ---------------------------------------------------------------------------

  datatype GroupRead = GroupRead(id: nat, direct: nat, descendant: nat)

  /** `after` is `before` without the subtree of `g`. */
  ghost predicate Pruned(before: Groups, after: Groups, g: nat)
    requires Forest(before)
  {
    && (forall m {:trigger m in after} :: m in after <==> m in before && !Below(before, m, g))
    && (forall m | m in after :: after[m] == before[m])
  }

  /** The accounts of the given groups, filed elsewhere; all others as they were. */
  function Refiled(accounts: Accounts, from: set<nat>, to: Option<nat>): Accounts {
    map a | a in accounts ::
      if accounts[a].group.Some? && accounts[a].group.value in from then accounts[a].(group := to) else accounts[a]
  }

  /** A subtree listed once each, its root first and parents before children. */
  ghost predicate IsSubtree(gs: Groups, subtree: seq<nat>)
    requires Forest(gs)
  {
    && subtree != [] && NoRepeats(subtree)
    && (forall m {:trigger m in subtree} :: m in subtree <==> m in gs && Below(gs, m, subtree[0]))
    && (forall j | 0 < j < |subtree| ::
          var m := subtree[j];
          m in gs && gs[m].parent.Some? && gs[m].parent.value in subtree[..j])
  }

  /** Every child of a listed group is listed after it. */
  ghost predicate ChildrenLater(gs: Groups, listing: seq<nat>) {
    forall n, m | 0 <= n < |listing| && m in gs && gs[m].parent == Some(listing[n]) :: m in listing[n + 1..]
  }

  lemma AllChildrenLater(gs: Groups, subtree: seq<nat>)
    requires Forest(gs) && IsSubtree(gs, subtree)
    ensures ChildrenLater(gs, subtree)
  {
    forall n, m | 0 <= n < |subtree| && m in gs && gs[m].parent == Some(subtree[n])
      ensures m in subtree[n + 1..]
    {
      NoChildLeft(gs, subtree, n);
    }
  }

  /** Deleting from the end never meets a child, and takes one more element off the table. */
  lemma DeleteStep(before: Groups, listing: seq<nat>, n: nat)
    requires ChildrenLater(before, listing) && n < |listing|
    ensures var gs := before - SetOf(listing[n + 1..]);
            && (forall m | m in gs :: gs[m].parent != Some(listing[n]))
            && gs - {listing[n]} == before - SetOf(listing[n..])
  {
    assert listing[n..] == [listing[n]] + listing[n + 1..];
    assert SetOf(listing[n..]) == SetOf(listing[n + 1..]) + {listing[n]};
  }

  /** What deleting the subtree of an ordinary group leaves. */
  lemma AfterDelete(before: Groups, accounts: Accounts, order: seq<nat>, g: nat, fallback: Option<nat>)
    requires Forest(before) && Linked(accounts, before) && Lists(before, order)
    requires g in before && before[g].key.None?
    requires fallback.Some? ==> fallback.value in before && before[fallback.value].key.Some?
    ensures var subtree := SetOf(Descendants(before, order, g));
            var after := before - subtree;
            && Forest(after) && Pruned(before, after, g) && before.Keys - after.Keys == subtree
            && Linked(Refiled(accounts, subtree, fallback), after)
            && (fallback.Some? ==> fallback.value in after)
    ensures IsSubtree(before, Descendants(before, order, g))
  {
    DescendantsAreTheSubtree(before, order, g);
    var subtree := SetOf(Descendants(before, order, g));
    assert forall m {:trigger m in subtree} :: m in subtree <==> m in Descendants(before, order, g);
    SurvivorsAreAForest(before, before - subtree, g);
    if fallback.Some? { assert NodeOk(before, fallback.value); }
  }

  /** The two counts of a group: the accounts filed in it, and those filed in it or below. */
  lemma CountsMean(accounts: Accounts, gs: Groups, g: nat)
    requires Forest(gs)
    ensures Direct(accounts, g) == |set a | a in accounts && accounts[a].group == Some(g)|
    ensures |Under(accounts, gs, g)| ==
            |set a | a in accounts && accounts[a].group.Some? && accounts[a].group.value in gs
                     && Below(gs, accounts[a].group.value, g)|
  {
    assert Filed(accounts, g) == set a | a in accounts && accounts[a].group == Some(g);
    assert Under(accounts, gs, g) ==
           set a | a in accounts && accounts[a].group.Some? && accounts[a].group.value in gs
                   && Below(gs, accounts[a].group.value, g);
  }

  /** After refiling, the accounts below `g` have the fallback group and all else as before. */
  lemma RefilingMeans(accounts: Accounts, gs: Groups, g: nat, subtree: set<nat>, fallback: Option<nat>)
    requires Forest(gs) && Linked(accounts, gs)
    requires forall m {:trigger m in subtree} :: m in subtree <==> m in gs && Below(gs, m, g)
    ensures var after := Refiled(accounts, subtree, fallback);
            && after.Keys == accounts.Keys
            && forall a | a in accounts ::
                 after[a] == if accounts[a].group.Some? && Below(gs, accounts[a].group.value, g)
                             then Account(fallback, accounts[a].proxy) else accounts[a]
  {
  }

  /** The fallback group gains exactly the accounts of the subtree. */
  lemma RefilingCounts(accounts: Accounts, gs: Groups, g: nat, subtree: set<nat>, d: nat)
    requires Forest(gs) && Linked(accounts, gs)
    requires forall m {:trigger m in subtree} :: m in subtree <==> m in gs && Below(gs, m, g)
    requires d in gs && !Below(gs, d, g)
    ensures var after := Refiled(accounts, subtree, Some(d));
            Direct(after, d) == Direct(accounts, d) + |Under(accounts, gs, g)|
  {
    RefilingMeans(accounts, gs, g, subtree, Some(d));
    var after := Refiled(accounts, subtree, Some(d));
    var own, moved := Filed(accounts, d), Under(accounts, gs, g);
    assert own !! moved;
    assert Filed(after, d) == own + moved;
  }

  class Service {
    var groups: Groups
    var accounts: Accounts

    constructor (groups: Groups, accounts: Accounts)
      ensures this.groups == groups && this.accounts == accounts
    {
      this.groups, this.accounts := groups, accounts;
    }

    ghost predicate Valid()
      reads this
    {
      Forest(groups) && Linked(accounts, groups)
    }

    /** `order` is the listing query's answer. */
    method ListGroups(order: seq<nat>) returns (reads_: seq<GroupRead>)
      requires Valid() && Lists(groups, order)
      ensures |reads_| == |order|
      ensures forall n | 0 <= n < |order| ::
                && reads_[n].id == order[n]
                && reads_[n].direct == Direct(accounts, order[n])
                && reads_[n].descendant == |Under(accounts, groups, order[n])|
    {
      reads_ := [];
      for n := 0 to |order|
        invariant |reads_| == n
        invariant forall k | 0 <= k < n ::
                    && reads_[k].id == order[k]
                    && reads_[k].direct == Direct(accounts, order[k])
                    && reads_[k].descendant == |Under(accounts, groups, order[k])|
      {
        var g := order[n];
        assert g in order;
        var total := 0;
        var descendants := Descendants(groups, order, g);
        for k := 0 to |descendants|
          invariant total == SumDirect(accounts, descendants[..k])
        {
          assert descendants[..k + 1] == descendants[..k] + [descendants[k]];
          SumConcat(accounts, descendants[..k], [descendants[k]]);
          assert SumDirect(accounts, [descendants[k]]) == Direct(accounts, descendants[k]) + SumDirect(accounts, []);
          total := total + Direct(accounts, descendants[k]);
        }
        assert descendants[..|descendants|] == descendants;
        SubtreeCountIsExact(accounts, groups, order, g);
        reads_ := reads_ + [GroupRead(g, Direct(accounts, g), total)];
      }
    }

    /** `id` is the fresh identifier the database assigns; `nameTaken` is its uniqueness check. */
    method CreateGroup(id: nat, parent: Option<nat>, nameTaken: bool) returns (res: Result<nat, GroupError>)
      requires Valid() && id !in groups
      modifies this`groups
      ensures Valid()
      ensures res == Err(GroupNotFound) <==> parent.Some? && parent.value !in old(groups)
      ensures res == Err(DepthExceeded) <==>
                parent.Some? && parent.value in old(groups)
                && (old(groups)[parent.value].level >= MAX_LEVEL || old(groups)[parent.value].key == Some(Temporary))
      ensures res == Err(NameConflict) ==> nameTaken
      ensures res.Ok? <==> !nameTaken && (parent.Some? ==>
                parent.value in old(groups) && old(groups)[parent.value].level < MAX_LEVEL
                && old(groups)[parent.value].key != Some(Temporary))
      ensures res.Err? ==> groups == old(groups)
      ensures res.Ok? ==> res.value == id && groups.Keys == old(groups).Keys + {id}
      ensures res.Ok? ==> groups[id].parent == parent && groups[id].key.None?
      ensures res.Ok? ==>
                groups[id] == Group(parent, if parent.None? then 1 else old(groups)[parent.value].level + 1, None, None)
      ensures res == Err(DepthExceeded) <==>
                parent.Some? && parent.value in old(groups)
                && (old(groups)[parent.value].level >= 3 || old(groups)[parent.value].key == Some(Temporary))
      ensures res.Ok? ==> forall m | m in old(groups) :: groups[m] == old(groups)[m]
    {
      if parent.Some? && parent.value !in groups { return Err(GroupNotFound); }
      if parent.Some? && (groups[parent.value].level >= MAX_LEVEL || groups[parent.value].key == Some(Temporary)) {
        return Err(DepthExceeded);
      }
      if nameTaken { return Err(NameConflict); }
      ghost var before := groups;
      var level := if parent.Some? then groups[parent.value].level + 1 else 1;
      groups := groups[id := Group(parent, level, None, None)];
      forall m | m in groups ensures NodeOk(groups, m) {
        if m != id { assert NodeOk(before, m); }
        if m == id && parent.Some? { assert NodeOk(before, parent.value); }
      }
      res := Ok(id);
    }

    /** The checks of a move, in the service's order. */
    method CheckMove(g: nat, parent: Option<nat>, order: seq<nat>) returns (problem: Option<GroupError>)
      requires Valid() && Lists(groups, order)
      ensures problem == Some(GroupNotFound) <==>
                g !in groups || (parent.Some? && parent.value !in groups && groups[g].key.None?)
      ensures problem == Some(SystemGroupImmutable) <==> g in groups && groups[g].key.Some? && parent.Some?
      ensures problem == Some(GroupCycle) <==>
                && g in groups && parent.Some? && parent.value in groups && groups[g].key.None?
                && Below(groups, parent.value, g)
      ensures problem.None? <==>
                g in groups && (parent.Some? ==> parent.value in groups) && Movable(groups, order, g, parent)
      ensures problem.None? <==>
                && g in groups && (parent.Some? ==> parent.value in groups)
                && (parent.Some? ==> groups[g].key.None? && !Below(groups, parent.value, g)
                                     && groups[parent.value].key != Some(Temporary))
                && forall m | m in groups && Below(groups, m, g) ::
                     groups[m].level - groups[g].level
                     + (if parent.None? then 1 else groups[parent.value].level + 1) <= 3
      ensures problem != Some(NameConflict)
    {
      if g in groups && (parent.Some? ==> parent.value in groups) { MovableMeans(groups, order, g, parent); }
      if g !in groups { return Some(GroupNotFound); }
      if groups[g].key.Some? && parent.Some? { return Some(SystemGroupImmutable); }
      if parent.Some? && parent.value !in groups { return Some(GroupNotFound); }
      DescendantsAreTheSubtree(groups, order, g);
      if parent.Some? && parent.value in Descendants(groups, order, g) { return Some(GroupCycle); }
      var target := if parent.Some? then groups[parent.value].level + 1 else 1;
      if parent.Some? && groups[parent.value].key == Some(Temporary) { target := 4; }
      if target + SubtreeDepth(groups, order, g) - 1 > 3 { return Some(DepthExceeded); }
      problem := None;
    }

    /** Moves a group with everything below it. */
    method MoveGroup(g: nat, parent: Option<nat>, order: seq<nat>, nameTaken: bool)
      returns (res: Result<(), GroupError>)
      requires Valid() && Lists(groups, order)
      modifies this`groups
      ensures Valid()
      ensures res.Err? ==> groups == old(groups)
      ensures res.Ok? <==> g in old(groups) && (parent.Some? ==> parent.value in old(groups))
                           && Movable(old(groups), order, g, parent) && !nameTaken
      ensures res == Err(GroupNotFound) <==>
                g !in old(groups) || (parent.Some? && parent.value !in old(groups) && old(groups)[g].key.None?)
      ensures res == Err(SystemGroupImmutable) <==> g in old(groups) && old(groups)[g].key.Some? && parent.Some?
      ensures res == Err(GroupCycle) <==>
                && g in old(groups) && parent.Some? && parent.value in old(groups) && old(groups)[g].key.None?
                && Below(old(groups), parent.value, g)
      ensures res == Err(NameConflict) <==>
                && g in old(groups) && (parent.Some? ==> parent.value in old(groups))
                && Movable(old(groups), order, g, parent) && nameTaken
      ensures res.Ok? ==> groups == Moved(old(groups), g, parent)
      ensures res.Ok? ==> groups.Keys == old(groups).Keys && forall m | m in groups ::
                var node := old(groups)[m];
                groups[m] == if !Below(old(groups), m, g) then node
                             else node.(level := node.level - old(groups)[g].level
                                                 + (if parent.None? then 1 else old(groups)[parent.value].level + 1),
                                        parent := if m == g then parent else node.parent)
    {
      var problem := CheckMove(g, parent, order);
      if problem.Some? { return Err(problem.value); }
      if nameTaken { return Err(NameConflict); }
      var descendants := SetOf(Descendants(groups, order, g));
      var target := if parent.Some? then groups[parent.value].level + 1 else 1;
      MoveIsComputed(groups, order, g, parent, descendants, target);
      MovableMeans(groups, order, g, parent);
      MoveMeans(groups, g, parent);
      ShiftLevels(order, descendants, groups[g].level, target);
      groups := groups[g := groups[g].(parent := parent)];
      res := Ok(());
    }

    /** Shifts the levels of the chosen groups so that level `from` becomes `target`. */
    method ShiftLevels(order: seq<nat>, chosen: set<nat>, from: nat, target: nat)
      requires Lists(groups, order)
      requires forall m | m in chosen :: m in groups && groups[m].level >= from
      modifies this`groups
      ensures groups == Shifted(old(groups), chosen, from, target)
      ensures groups.Keys == old(groups).Keys && forall m | m in groups ::
                groups[m] == if m in chosen then old(groups)[m].(level := old(groups)[m].level - from + target)
                             else old(groups)[m]
    {
      var delta: int := target - from;
      ghost var before := groups;
      assert groups == Shifted(before, chosen * SetOf(order[..0]), from, target);
      for n := 0 to |order|
        invariant groups == Shifted(before, chosen * SetOf(order[..n]), from, target)
      {
        var item := order[n];
        assert item in order && order[..n + 1] == order[..n] + [item] && item !in order[..n];
        if item in chosen {
          groups := groups[item := groups[item].(level := groups[item].level + delta)];
        }
      }
      assert chosen * SetOf(order[..|order|]) == chosen;
    }

    /** The default system group, if the database has one. */
    function DefaultGroup(): (d: Option<nat>)
      requires Valid()
      reads this
      ensures d.Some? ==> d.value in groups && groups[d.value].key == Some(Default)
      ensures d.None? ==> forall g | g in groups :: groups[g].key != Some(Default)
    {
      if exists g :: g in groups && groups[g].key == Some(Default) then
        var g :| g in groups && groups[g].key == Some(Default);
        Some(g)
      else None
    }

    /** One delete statement; the restricting foreign key forbids it while a child remains. */
    method DeleteRow(g: nat) returns (rowcount: nat)
      requires forall m | m in groups :: groups[m].parent != Some(g)
      modifies this`groups
      ensures groups == old(groups) - {g}
      ensures rowcount == if g in old(groups) then 1 else 0
      ensures rowcount + |groups| == |old(groups)|
    {
      rowcount := if g in groups then 1 else 0;
      groups := groups - {g};
      assert groups.Keys == old(groups).Keys - {g};
    }

    /** Deletes the listed groups from the last to the first; no deletion meets a remaining child. */
    method DeleteLeafFirst(subtree: seq<nat>) returns (deleted: nat)
      requires ChildrenLater(groups, subtree)
      modifies this`groups
      ensures groups == old(groups) - SetOf(subtree)
      ensures deleted + |groups| == |old(groups)|
    {
      deleted := 0;
      ghost var before := groups;
      assert groups == before - SetOf(subtree[|subtree|..]);
      for n := |subtree| downto 0
        invariant groups == before - SetOf(subtree[n..])
        invariant deleted + |groups| == |before|
      {
        DeleteStep(before, subtree, n);
        var rowcount := DeleteRow(subtree[n]);
        deleted := deleted + rowcount;
      }
      assert subtree[0..] == subtree;
    }

    /** Deletes a subtree, leaf first, after filing its accounts under the default group. */
    method DeleteGroup(g: nat, order: seq<nat>) returns (res: Result<nat, GroupError>)
      requires Valid() && Lists(groups, order)
      modifies this
      ensures Valid()
      ensures res == Err(GroupNotFound) <==> g !in old(groups)
      ensures res == Err(SystemGroupImmutable) <==> g in old(groups) && old(groups)[g].key.Some?
      ensures res.Err? ==> groups == old(groups) && accounts == old(accounts)
      ensures res.Ok? ==>
                && res.value == |old(groups)| - |groups|
                && Pruned(old(groups), groups, g)
                && accounts == Refiled(old(accounts), old(groups).Keys - groups.Keys, old(DefaultGroup()))
                && (old(DefaultGroup()).Some? ==> old(DefaultGroup()).value in groups)
      ensures res.Ok? ==>
                && (forall m {:trigger m in groups} :: m in groups <==> m in old(groups) && !Below(old(groups), m, g))
                && (forall m | m in groups :: groups[m] == old(groups)[m])
                && accounts.Keys == old(accounts).Keys
                && (forall a | a in accounts ::
                      var account := old(accounts)[a];
                      accounts[a] == if account.group.Some? && Below(old(groups), account.group.value, g)
                                     then Account(old(DefaultGroup()), account.proxy) else account)
      ensures res.Ok? && old(DefaultGroup()).Some? ==>
                var d := old(DefaultGroup()).value;
                Direct(accounts, d) == Direct(old(accounts), d) + |Under(old(accounts), old(groups), g)|
    {
      if g !in groups { return Err(GroupNotFound); }
      if groups[g].key.Some? { return Err(SystemGroupImmutable); }
      var subtree := Descendants(groups, order, g);
      var fallback := DefaultGroup();
      AfterDelete(groups, accounts, order, g, fallback);
      AllChildrenLater(groups, subtree);
      ghost var filed := accounts;
      RefilingMeans(accounts, groups, g, SetOf(subtree), fallback);
      if fallback.Some? {
        assert NodeOk(groups, fallback.value);
        RefilingCounts(accounts, groups, g, SetOf(subtree), fallback.value);
      }
      accounts := Refiled(accounts, SetOf(subtree), fallback);
      var deleted := DeleteLeafFirst(subtree);
      res := Ok(deleted);
    }
  }

  /** When position `n` is reached from the end, every child of that group is already gone. */
  lemma NoChildLeft(gs: Groups, subtree: seq<nat>, n: nat)
    requires Forest(gs) && IsSubtree(gs, subtree) && n < |subtree|
    ensures forall m | m in gs && gs[m].parent == Some(subtree[n]) :: m in subtree[n + 1..]
  {
    forall m | m in gs && gs[m].parent == Some(subtree[n]) ensures m in subtree[n + 1..] {
      assert NodeOk(gs, m);
      assert subtree[n] in subtree;
      assert Below(gs, m, subtree[0]);
      assert m in subtree;
      var j :| 0 <= j < |subtree| && subtree[j] == m;
      if j == 0 {
        BelowIsDeeper(gs, subtree[n], subtree[0]);
        assert false;
      }
      assert subtree[n] in subtree[..j];
      assert n < j;
      assert subtree[n + 1..][j - n - 1] == m;
    }
  }

  lemma SurvivorsAreAForest(before: Groups, after: Groups, g: nat)
    requires Forest(before) && g in before
    requires Pruned(before, after, g)
    ensures Forest(after)
  {
    forall m | m in after ensures NodeOk(after, m) { assert NodeOk(before, m); }
  }
}
