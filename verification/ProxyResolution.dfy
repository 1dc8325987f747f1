/**
 Which proxy an account uses: its own enabled profile, else that of the nearest group that has one.
 */
module ProxyResolution {
  import opened Options
  import opened GroupForest
  import opened GroupService

  datatype Source = OfAccount | OfGroup(group: nat) | NoSource

  datatype Resolved = Resolved(source: Source, profile: Option<nat>)

  /** A profile counts only if it exists and is enabled; `profiles` maps ids to their enabled flag. */
  predicate Usable(profiles: map<nat, bool>, profile: Option<nat>) {
    profile.Some? && profile.value in profiles && profiles[profile.value]
  }

  /** The group an account is filed under and its ancestors, nearest first. */
  function Chain(gs: Groups, start: Option<nat>): seq<nat>
    requires Forest(gs)
    decreases if start.Some? && start.value in gs then gs[start.value].level else 0
  {
    if start.None? || start.value !in gs then []
    else
      assert NodeOk(gs, start.value);
      assert gs[start.value].parent.Some? ==> NodeOk(gs, gs[start.value].parent.value);
      [start.value] + Chain(gs, gs[start.value].parent)
  }

  /** The chain is exactly the ancestors, each on its own level. */
  lemma {:induction false} ChainIsAncestry(gs: Groups, g: nat)
    requires Forest(gs) && g in gs
    ensures forall x {:trigger x in Chain(gs, Some(g))} :: x in Chain(gs, Some(g)) <==> Below(gs, g, x)
    ensures |Chain(gs, Some(g))| == gs[g].level <= MAX_LEVEL
    decreases gs[g].level
  {
    assert NodeOk(gs, g);
    if gs[g].parent.Some? {
      ChainIsAncestry(gs, gs[g].parent.value);
    } else {
      assert Chain(gs, gs[g].parent) == [];
    }
  }

  /** `n` is the first position of the chain with a usable profile. */
  ghost predicate Nearest(gs: Groups, profiles: map<nat, bool>, chain: seq<nat>, n: int) {
    && 0 <= n < |chain|
    && (forall k | 0 <= k < |chain| :: chain[k] in gs)
    && Usable(profiles, gs[chain[n]].proxy)
    && forall k | 0 <= k < n :: !Usable(profiles, gs[chain[k]].proxy)
  }

  /** What the resolution means, without walking: own profile, else the nearest group's, else none. */
  ghost predicate Correct(gs: Groups, profiles: map<nat, bool>, account: Account, r: Resolved)
    requires Forest(gs)
  {
    var chain := Chain(gs, account.group);
    match r.source
    case OfAccount => Usable(profiles, account.proxy) && r.profile == account.proxy
    case OfGroup(g) =>
      && !Usable(profiles, account.proxy)
      && exists n :: Nearest(gs, profiles, chain, n) && chain[n] == g && r.profile == gs[g].proxy
    case NoSource =>
      && !Usable(profiles, account.proxy) && r.profile.None?
      && forall g | g in chain && g in gs :: !Usable(profiles, gs[g].proxy)
  }

  /** The meaning determines the answer. */
  lemma CorrectIsUnique(gs: Groups, profiles: map<nat, bool>, account: Account, r: Resolved, s: Resolved)
    requires Forest(gs) && Correct(gs, profiles, account, r) && Correct(gs, profiles, account, s)
    ensures r == s
  {
    var chain := Chain(gs, account.group);
    if r.source.OfGroup? {
      var n :| Nearest(gs, profiles, chain, n) && chain[n] == r.source.group;
      assert chain[n] in chain;
      if s.source.OfGroup? {
        var k :| Nearest(gs, profiles, chain, k) && chain[k] == s.source.group;
        assert n == k;
      }
    }
  }

  /** The walk up the groups ends on every forest and finds exactly that answer. */
  method ResolveAccountProxy(gs: Groups, profiles: map<nat, bool>, account: Account) returns (r: Resolved)
    requires Forest(gs)
    ensures Correct(gs, profiles, account, r)
    ensures var own := account.proxy;
            r.source == OfAccount <==> own.Some? && own.value in profiles && profiles[own.value]
    ensures r.source == OfAccount ==> r.profile == account.proxy
    ensures r.source.OfGroup? ==>
              && account.group.Some? && account.group.value in gs
              && r.source.group in gs && Below(gs, account.group.value, r.source.group)
              && r.profile == gs[r.source.group].proxy && r.profile.Some?
              && r.profile.value in profiles && profiles[r.profile.value]
              && forall x | x in gs && Below(gs, account.group.value, x) && gs[x].level > gs[r.source.group].level ::
                   !(gs[x].proxy.Some? && gs[x].proxy.value in profiles && profiles[gs[x].proxy.value])
    ensures r.source.NoSource? ==>
              && r.profile.None?
              && (account.group.Some? && account.group.value in gs ==>
                    forall x | x in gs && Below(gs, account.group.value, x) ::
                      !(gs[x].proxy.Some? && gs[x].proxy.value in profiles && profiles[gs[x].proxy.value]))
  {
    var profile: Option<nat>, source := None, NoSource;
    if Usable(profiles, account.proxy) {
      profile, source := account.proxy, OfAccount;
    }
    var group := account.group;
    ghost var chain := Chain(gs, account.group);
    ghost var n := 0;
    while profile.None? && group.Some?
      invariant n <= |chain| && chain[n..] == Chain(gs, group)
      invariant profile.None? ==> source.NoSource? && !Usable(profiles, account.proxy)
      invariant profile.None? ==>
                  forall k | 0 <= k < n :: chain[k] in gs && !Usable(profiles, gs[chain[k]].proxy)
      invariant profile.Some? ==> Correct(gs, profiles, account, Resolved(source, profile))
      decreases |chain| - n, if group.Some? then 1 else 0
    {
      if group.value !in gs { break; }
      var node := gs[group.value];
      assert chain[n] == chain[n..][0] == group.value;
      if Usable(profiles, node.proxy) {
        profile, source := node.proxy, OfGroup(group.value);
        ChainInTable(gs, account.group);
        assert Nearest(gs, profiles, chain, n);
        break;
      }
      group := node.parent;
      assert chain[n + 1..] == chain[n..][1..];
      n := n + 1;
    }
    r := Resolved(source, profile);
    if account.group.Some? && account.group.value in gs { AnswerInGroups(gs, profiles, account, r); }
  }

  /** The chain goes down one level at each step. */
  lemma {:induction false} ChainLevels(gs: Groups, g: nat)
    requires Forest(gs) && g in gs
    ensures var chain := Chain(gs, Some(g));
            forall k | 0 <= k < |chain| :: chain[k] in gs && gs[chain[k]].level == gs[g].level - k
    decreases gs[g].level
  {
    assert NodeOk(gs, g);
    var chain := Chain(gs, Some(g));
    if gs[g].parent.Some? {
      assert NodeOk(gs, gs[g].parent.value);
      ChainLevels(gs, gs[g].parent.value);
      forall k | 0 < k < |chain| ensures chain[k] in gs && gs[chain[k]].level == gs[g].level - k {
        assert chain[k] == Chain(gs, gs[g].parent)[k - 1];
      }
    } else {
      assert Chain(gs, gs[g].parent) == [];
    }
  }

  /** Nearest on the chain is: deepest among the ancestors that have a usable profile. */
  lemma AnswerInGroups(gs: Groups, profiles: map<nat, bool>, account: Account, r: Resolved)
    requires Forest(gs) && Correct(gs, profiles, account, r)
    requires account.group.Some? && account.group.value in gs
    ensures r.source.OfGroup? ==>
              && r.source.group in gs && Below(gs, account.group.value, r.source.group)
              && forall x | x in gs && Below(gs, account.group.value, x) && gs[x].level > gs[r.source.group].level ::
                   !Usable(profiles, gs[x].proxy)
    ensures r.source.NoSource? ==>
              forall x | x in gs && Below(gs, account.group.value, x) :: !Usable(profiles, gs[x].proxy)
  {
    var g := account.group.value;
    var chain := Chain(gs, account.group);
    ChainIsAncestry(gs, g);
    ChainLevels(gs, g);
    if r.source.OfGroup? {
      var n :| Nearest(gs, profiles, chain, n) && chain[n] == r.source.group;
      assert chain[n] in chain;
      forall x | x in gs && Below(gs, g, x) && gs[x].level > gs[r.source.group].level
        ensures !Usable(profiles, gs[x].proxy)
      {
        assert x in chain;
        var k :| 0 <= k < |chain| && chain[k] == x;
        assert k < n;
      }
    }
  }

  lemma {:induction false} ChainInTable(gs: Groups, start: Option<nat>)
    requires Forest(gs)
    ensures forall k | 0 <= k < |Chain(gs, start)| :: Chain(gs, start)[k] in gs
    decreases if start.Some? && start.value in gs then gs[start.value].level else 0
  {
    if start.Some? && start.value in gs {
      assert NodeOk(gs, start.value);
      assert gs[start.value].parent.Some? ==> NodeOk(gs, gs[start.value].parent.value);
      ChainInTable(gs, gs[start.value].parent);
    }
  }
}
