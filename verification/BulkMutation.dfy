/**
 Bulk changes to a set of accounts: predicting which accounts a change touches, applying it, and the
 single-use previews that freeze a selection between the two.
 */
module BulkMutation {
  import opened Options
  import opened SetSizes

  datatype Lifecycle = Active | Inactive | Archived

  datatype Account = Account(lifecycle: Lifecycle, group: Option<nat>, version: nat)

  /** The account rows, the account-tag pairs, and the forwarding rows with their flag. */
  datatype Db = Db(accounts: map<nat, Account>, tags: set<(nat, nat)>, forwarding: map<nat, bool>)

  datatype Changes = Changes(lifecycle: Option<Lifecycle>, moveGroup: bool, group: Option<nat>,
                             addTags: set<nat>, removeTags: set<nat>, forwarding: Option<bool>)

  datatype BulkError =
    | GroupNotFound | TagNotFound
    | SelectionTooLarge | SelectionEmpty
    | PreviewNotFound | PreviewAlreadyUsed | PreviewExpired

  datatype BulkResult = BulkResult(requested: nat, matched: nat, updated: nat, notFound: set<nat>)

  // ---- predicting ----------------------------------------------------------------------------

  predicate IsOn(forwarding: map<nat, bool>, a: nat) {
    a in forwarding && forwarding[a]
  }

  predicate Switches(forwarding: map<nat, bool>, a: nat, flag: bool) {
    IsOn(forwarding, a) != flag
  }

  function Switched(forwarding: map<nat, bool>, ids: set<nat>, flag: bool): set<nat> {
    set a | a in ids && Switches(forwarding, a, flag)
  }

  lemma SwitchedStep(forwarding: map<nat, bool>, done: set<nat>, a: nat, flag: bool)
    ensures Switched(forwarding, done + {a}, flag) ==
            Switched(forwarding, done, flag) + (if Switches(forwarding, a, flag) then {a} else {})
  {
  }

  predicate Flag(db: Db, a: nat) {
    IsOn(db.forwarding, a)
  }

  predicate TagsDiffer(tags: set<(nat, nat)>, a: nat, ch: Changes) {
    || (exists t :: t in ch.addTags && (a, t) !in tags)
    || (exists t :: t in ch.removeTags && (a, t) in tags)
  }

  /** The test of one account, clause by clause. */
  predicate IsChanged(db: Db, a: nat, ch: Changes)
    requires a in db.accounts
  {
    || (ch.lifecycle.Some? && db.accounts[a].lifecycle != ch.lifecycle.value)
    || (ch.moveGroup && db.accounts[a].group != ch.group)
    || TagsDiffer(db.tags, a, ch)
    || (ch.forwarding.Some? && Switches(db.forwarding, a, ch.forwarding.value))
  }

  function Changed(db: Db, ids: set<nat>, ch: Changes): set<nat>
    requires ids <= db.accounts.Keys
  {
    set a | a in ids && IsChanged(db, a, ch)
  }

  // ---- applying ------------------------------------------------------------------------------

  function MutatedAccount(account: Account, ch: Changes): Account {
    Account(if ch.lifecycle.Some? then ch.lifecycle.value else account.lifecycle,
            if ch.moveGroup then ch.group else account.group,
            account.version + 1)
  }

  function Pairs(ids: set<nat>, tags: set<nat>): set<(nat, nat)> {
    set a, t | a in ids && t in tags :: (a, t)
  }

  function MutatedAccounts(accounts: map<nat, Account>, chosen: set<nat>, ch: Changes): map<nat, Account> {
    map a | a in accounts :: if a in chosen then MutatedAccount(accounts[a], ch) else accounts[a]
  }

  /** A missing forwarding row is created only to switch forwarding on. */
  function MutatedForwarding(forwarding: map<nat, bool>, ids: set<nat>, flag: bool): map<nat, bool> {
    map a | a in forwarding.Keys + (if flag then ids else {}) ::
      if a in ids then flag else forwarding[a]
  }

  lemma ForwardingStep(forwarding: map<nat, bool>, done: set<nat>, a: nat, flag: bool)
    requires a !in done
    ensures MutatedForwarding(forwarding, done + {a}, flag) ==
            var m := MutatedForwarding(forwarding, done, flag);
            if a in m || flag then m[a := flag] else m
  {
  }

  function Mutated(db: Db, ids: set<nat>, ch: Changes): Db
    requires ids <= db.accounts.Keys
  {
    Db(MutatedAccounts(db.accounts, Changed(db, ids, ch), ch),
       db.tags - Pairs(ids, ch.removeTags) + Pairs(ids, ch.addTags),
       if ch.forwarding.Some? then MutatedForwarding(db.forwarding, ids, ch.forwarding.value) else db.forwarding)
  }

  // ---- what the prediction means -------------------------------------------------------------

  /** Everything about an account a bulk change can alter, bar the version. */
  predicate SameView(before: Db, after: Db, a: nat)
    requires a in before.accounts && a in after.accounts
  {
    && before.accounts[a].lifecycle == after.accounts[a].lifecycle
    && before.accounts[a].group == after.accounts[a].group
    && TagsOf(before, a) == TagsOf(after, a)
    && Flag(before, a) == Flag(after, a)
  }

  function TagsOf(db: Db, a: nat): set<nat> {
    set p | p in db.tags && p.0 == a :: p.1
  }

  lemma TagsAfter(db: Db, ids: set<nat>, ch: Changes, a: nat)
    requires ids <= db.accounts.Keys && a in ids
    ensures TagsOf(Mutated(db, ids, ch), a) == TagsOf(db, a) - ch.removeTags + ch.addTags
  {
    var after := Mutated(db, ids, ch);
    forall t ensures t in TagsOf(after, a) <==> (a, t) in after.tags {
      if (a, t) in after.tags { assert (a, t).0 == a; }
    }
    forall t ensures t in TagsOf(db, a) <==> (a, t) in db.tags {
      if (a, t) in db.tags { assert (a, t).0 == a; }
    }
    forall t ensures (a, t) in after.tags <==> ((a, t) in db.tags && t !in ch.removeTags) || t in ch.addTags {}
  }

  lemma TagClauses(db: Db, ch: Changes, a: nat)
    requires ch.addTags !! ch.removeTags
    ensures TagsOf(db, a) - ch.removeTags + ch.addTags != TagsOf(db, a) <==> TagsDiffer(db.tags, a, ch)
  {
    var own := TagsOf(db, a);
    forall t ensures t in own <==> (a, t) in db.tags {
      if (a, t) in db.tags { assert (a, t).0 == a; }
    }
    var after := own - ch.removeTags + ch.addTags;
    if t :| t in ch.addTags && (a, t) !in db.tags { assert t in after && t !in own; }
    if t :| t in ch.removeTags && (a, t) in db.tags { assert t !in after && t in own; }
    if after != own {
      var t :| (t in after) != (t in own);
    }
  }

  /** With disjoint tag lists the prediction is exact: precisely the predicted accounts differ afterwards. */
  lemma PredictionIsExact(db: Db, ids: set<nat>, ch: Changes)
    requires ids <= db.accounts.Keys && ch.addTags !! ch.removeTags
    ensures forall a | a in ids :: a in Changed(db, ids, ch) <==> !SameView(db, Mutated(db, ids, ch), a)
  {
    forall a | a in ids ensures IsChanged(db, a, ch) <==> !SameView(db, Mutated(db, ids, ch), a) {
      TagsAfter(db, ids, ch, a);
      TagClauses(db, ch, a);
    }
  }

  ghost predicate PredictsExactly(ch: Changes) {
    forall db: Db, ids | ids <= db.accounts.Keys ::
      Changed(db, ids, ch) == set a | a in ids && !SameView(db, Mutated(db, ids, ch), a)
  }

  /** An account that already has everything the change asks for, and every tag it adds. */
  function Satisfied(ch: Changes): Db {
    Db(map[0 := Account(if ch.lifecycle.Some? then ch.lifecycle.value else Active, ch.group, 1)],
       Pairs({0}, ch.addTags),
       map[0 := if ch.forwarding.Some? then ch.forwarding.value else false])
  }

  /** The prediction is exact for every database if and only if no tag is both added and removed. */
  lemma PredictsExactlyIffDisjoint(ch: Changes)
    ensures PredictsExactly(ch) <==> ch.addTags !! ch.removeTags
  {
    if ch.addTags !! ch.removeTags {
      forall db: Db, ids | ids <= db.accounts.Keys
        ensures Changed(db, ids, ch) == set a | a in ids && !SameView(db, Mutated(db, ids, ch), a)
      {
        PredictionIsExact(db, ids, ch);
      }
    } else {
      var db := Satisfied(ch);
      var t :| t in ch.addTags && t in ch.removeTags;
      assert (0, t) in db.tags;
      assert 0 in Changed(db, {0}, ch);
      TagsAfter(db, {0}, ch, 0);
      assert TagsOf(db, 0) == ch.addTags by {
        forall u ensures u in TagsOf(db, 0) <==> u in ch.addTags {
          if u in ch.addTags { assert (0, u) in db.tags && (0, u).0 == 0; }
        }
      }
      assert SameView(db, Mutated(db, {0}, ch), 0);
      assert {0} <= db.accounts.Keys;
      assert 0 !in set a | a in {0} && !SameView(db, Mutated(db, {0}, ch), a);
    }
  }

  /** With disjoint tag lists a second run has nothing left to do. */
  lemma SecondRunIsIdle(db: Db, ids: set<nat>, ch: Changes)
    requires ids <= db.accounts.Keys && ch.addTags !! ch.removeTags
    ensures Changed(Mutated(db, ids, ch), ids, ch) == {}
    ensures Mutated(Mutated(db, ids, ch), ids, ch) == Mutated(db, ids, ch)
  {
    var once := Mutated(db, ids, ch);
    forall a | a in ids ensures !IsChanged(once, a, ch) {
      forall t ensures (a, t) in once.tags <==> ((a, t) in db.tags && t !in ch.removeTags) || t in ch.addTags {}
    }
    var twice := Mutated(once, ids, ch);
    assert twice.accounts == once.accounts;
    assert twice.tags == once.tags by {
      forall p | p in Pairs(ids, ch.removeTags) ensures p !in Pairs(ids, ch.addTags) {}
    }
    assert twice.forwarding == once.forwarding;
  }

  /** Accounts outside the selection, and versions of unchanged ones, are untouched. */
  lemma OthersUntouched(db: Db, ids: set<nat>, ch: Changes, a: nat)
    requires ids <= db.accounts.Keys && a in db.accounts && a !in Changed(db, ids, ch)
    ensures Mutated(db, ids, ch).accounts[a] == db.accounts[a]
    ensures a !in ids ==> SameView(db, Mutated(db, ids, ch), a)
  {
    var after := Mutated(db, ids, ch);
    if a !in ids {
      forall t ensures (a, t) in after.tags <==> (a, t) in db.tags {}
      assert TagsOf(db, a) == TagsOf(after, a) by {
        forall t ensures t in TagsOf(db, a) <==> t in TagsOf(after, a) {
          if (a, t) in db.tags { assert (a, t).0 == a && (a, t) in after.tags; }
        }
      }
    }
  }

  // ---- in columns ----------------------------------------------------------------------------

  /** The change asks for something the account does not have, or takes a tag it has. */
  ghost predicate Wants(db: Db, a: nat, ch: Changes)
    requires a in db.accounts
  {
    || (ch.lifecycle.Some? && ch.lifecycle.value != db.accounts[a].lifecycle)
    || (ch.moveGroup && ch.group != db.accounts[a].group)
    || (exists t :: t in ch.addTags && (a, t) !in db.tags)
    || (exists t :: t in ch.removeTags && (a, t) in db.tags)
    || (ch.forwarding == Some(true) && (a !in db.forwarding || !db.forwarding[a]))
    || (ch.forwarding == Some(false) && a in db.forwarding && db.forwarding[a])
  }

  /**
   The tables after a change of the accounts `ids`. A row the change wants something of gets what was
   asked and the next version; pairs are taken away before they are added; switching forwarding on makes
   the row if there is none, switching it off only turns rows off.
   */
  ghost predicate Applied(was: Db, is_: Db, ids: set<nat>, ch: Changes)
    requires ids <= was.accounts.Keys
  {
    && is_.accounts.Keys == was.accounts.Keys
    && (forall a | a in was.accounts ::
          if a in ids && Wants(was, a, ch)
          then && is_.accounts[a].version == was.accounts[a].version + 1
               && is_.accounts[a].lifecycle
                  == (if ch.lifecycle.Some? then ch.lifecycle.value else was.accounts[a].lifecycle)
               && is_.accounts[a].group == if ch.moveGroup then ch.group else was.accounts[a].group
          else is_.accounts[a] == was.accounts[a])
    && (forall a, t :: (a, t) in is_.tags <==>
          (a in ids && t in ch.addTags) || ((a, t) in was.tags && !(a in ids && t in ch.removeTags)))
    && (forall a :: a in is_.forwarding <==> a in was.forwarding || (ch.forwarding == Some(true) && a in ids))
    && (forall a | a in is_.forwarding ::
          if a in ids && ch.forwarding.Some? then is_.forwarding[a] == ch.forwarding.value
          else a in was.forwarding && is_.forwarding[a] == was.forwarding[a])
  }

  lemma ChangedMeans(db: Db, ids: set<nat>, ch: Changes)
    requires ids <= db.accounts.Keys
    ensures Changed(db, ids, ch) == set a | a in ids && Wants(db, a, ch)
  {
  }

  lemma MutatedMeans(db: Db, ids: set<nat>, ch: Changes)
    requires ids <= db.accounts.Keys
    ensures Applied(db, Mutated(db, ids, ch), ids, ch)
  {
    ChangedMeans(db, ids, ch);
  }

  // ---- the service ---------------------------------------------------------------------------

  datatype Preview = Preview(ids: set<nat>, changes: Changes, matched: nat, eligible: nat, skipped: nat,
                             dangerous: nat, expires: int, consumed: Option<int>)

  const PREVIEW_TTL: int := 900
  const MAX_FILTER_SELECTION: nat := 20_000

  class Bulk {
    var accounts: map<nat, Account>
    var tags: set<(nat, nat)>
    var forwarding: map<nat, bool>
    var groups: set<nat>
    var knownTags: set<nat>
    var previews: map<nat, Preview>

    constructor (db: Db, groups: set<nat>, knownTags: set<nat>)
      ensures Rows() == db && this.groups == groups && this.knownTags == knownTags && previews == map[]
    {
      accounts, tags, forwarding := db.accounts, db.tags, db.forwarding;
      this.groups, this.knownTags, previews := groups, knownTags, map[];
    }

    function Rows(): Db
      reads this`accounts, this`tags, this`forwarding
    {
      Db(accounts, tags, forwarding)
    }

    function Problem(ch: Changes): Option<BulkError>
      reads this`groups, this`knownTags
    {
      if ch.moveGroup && ch.group.Some? && ch.group.value !in groups then Some(GroupNotFound)
      else if !(ch.addTags + ch.removeTags <= knownTags) then Some(TagNotFound)
      else None
    }

    method CollectTagged(ids: set<nat>, ch: Changes, found: set<nat>) returns (changed: set<nat>)
      ensures changed == found + set a | a in ids && TagsDiffer(tags, a, ch)
    {
      changed := found;
      var rest := ids;
      while rest != {}
        invariant rest <= ids && changed == found + set a | a in ids - rest && TagsDiffer(tags, a, ch)
        decreases |rest|
      {
        var a :| a in rest;
        rest := rest - {a};
        if TagsDiffer(tags, a, ch) {
          changed := changed + {a};
        }
      }
    }

    method CollectSwitched(ids: set<nat>, flag: bool, found: set<nat>) returns (changed: set<nat>)
      ensures changed == found + Switched(forwarding, ids, flag)
    {
      changed := found;
      var rest := ids;
      while rest != {}
        invariant rest <= ids && changed == found + Switched(forwarding, ids - rest, flag)
        decreases |rest|
      {
        var a :| a in rest;
        SwitchedStep(forwarding, ids - rest, a, flag);
        assert ids - (rest - {a}) == ids - rest + {a};
        rest := rest - {a};
        if Switches(forwarding, a, flag) {
          changed := changed + {a};
        }
      }
      assert ids - rest == ids;
    }

    /** The prediction, as the service collects it: fields first, then tags, then forwarding. */
    method BulkChangedAccountIds(ids: set<nat>, ch: Changes) returns (changed: set<nat>)
      requires ids <= accounts.Keys
      ensures changed == Changed(Rows(), ids, ch)
      ensures forall a :: a in changed <==> a in ids && Wants(Rows(), a, ch)
    {
      ChangedMeans(Rows(), ids, ch);
      changed := set a | a in ids
                         && ((ch.lifecycle.Some? && accounts[a].lifecycle != ch.lifecycle.value)
                             || (ch.moveGroup && accounts[a].group != ch.group));
      changed := CollectTagged(ids, ch, changed);
      if ch.forwarding.Some? {
        changed := CollectSwitched(ids, ch.forwarding.value, changed);
      }
    }

    method UpdateAccounts(chosen: set<nat>, ch: Changes)
      requires chosen <= accounts.Keys
      modifies this`accounts
      ensures accounts == MutatedAccounts(old(accounts), chosen, ch)
    {
      var rest := chosen;
      ghost var before := accounts;
      assert accounts == MutatedAccounts(before, {}, ch);
      while rest != {}
        invariant rest <= chosen && accounts == MutatedAccounts(before, chosen - rest, ch)
        decreases |rest|
      {
        var a :| a in rest;
        rest := rest - {a};
        var account := accounts[a];
        if ch.lifecycle.Some? { account := account.(lifecycle := ch.lifecycle.value); }
        if ch.moveGroup { account := account.(group := ch.group); }
        accounts := accounts[a := account.(version := account.version + 1)];
      }
      assert chosen - rest == chosen;
    }

    method AddTagPairs(ids: set<nat>, added: set<nat>)
      modifies this`tags
      ensures tags == old(tags) + Pairs(ids, added)
    {
      var rest := ids;
      while rest != {}
        invariant rest <= ids && tags == old(tags) + Pairs(ids - rest, added)
        decreases |rest|
      {
        var a :| a in rest;
        ghost var before := tags;
        var left := added;
        while left != {}
          invariant left <= added && tags == before + Pairs({a}, added - left)
          decreases |left|
        {
          var t :| t in left;
          tags := tags + {(a, t)};
          assert Pairs({a}, added - (left - {t})) == Pairs({a}, added - left) + {(a, t)};
          left := left - {t};
        }
        assert added - left == added;
        assert Pairs(ids - (rest - {a}), added) == Pairs(ids - rest, added) + Pairs({a}, added);
        rest := rest - {a};
      }
      assert ids - rest == ids;
    }

    method SetForwarding(ids: set<nat>, flag: bool)
      modifies this`forwarding
      ensures forwarding == MutatedForwarding(old(forwarding), ids, flag)
    {
      var rest := ids;
      ghost var before := forwarding;
      assert forwarding == MutatedForwarding(before, {}, flag);
      while rest != {}
        invariant rest <= ids && forwarding == MutatedForwarding(before, ids - rest, flag)
        decreases |rest|
      {
        var a :| a in rest;
        ForwardingStep(before, ids - rest, a, flag);
        assert ids - (rest - {a}) == ids - rest + {a};
        rest := rest - {a};
        if a in forwarding || flag {
          forwarding := forwarding[a := flag];
        }
      }
      assert ids - rest == ids;
    }

    method ApplyChanges(matched: set<nat>, updated: set<nat>, ch: Changes)
      requires matched <= accounts.Keys && updated == Changed(Rows(), matched, ch)
      modifies this`accounts, this`tags, this`forwarding
      ensures Rows() == Mutated(old(Rows()), matched, ch)
      ensures Applied(old(Rows()), Rows(), matched, ch)
    {
      MutatedMeans(Rows(), matched, ch);
      UpdateAccounts(updated, ch);
      tags := tags - Pairs(matched, ch.removeTags);
      AddTagPairs(matched, ch.addTags);
      if ch.forwarding.Some? {
        SetForwarding(matched, ch.forwarding.value);
      }
    }

    method BulkMutateAccounts(requested: set<nat>, ch: Changes) returns (res: Result<BulkResult, BulkError>)
      modifies this`accounts, this`tags, this`forwarding
      ensures res.Err? <==> Problem(ch).Some?
      ensures res.Err? ==> Some(res.error) == Problem(ch) && Rows() == old(Rows())
      ensures res.Ok? ==>
                var matched := requested * old(accounts).Keys;
                && Rows() == Mutated(old(Rows()), matched, ch)
                && res.value == BulkResult(|requested|, |matched|, |Changed(old(Rows()), matched, ch)|,
                                           requested - old(accounts).Keys)
      ensures res == Err(GroupNotFound) <==> ch.moveGroup && ch.group.Some? && ch.group.value !in groups
      ensures res == Err(TagNotFound) <==>
                && res != Err(GroupNotFound)
                && exists t :: (t in ch.addTags || t in ch.removeTags) && t !in knownTags
      ensures res.Err? ==> res.error in {GroupNotFound, TagNotFound}
      ensures res.Ok? ==> Applied(old(Rows()), Rows(), requested * old(accounts).Keys, ch)
      ensures res.Ok? ==>
                res.value.updated == |set a | a in requested && a in old(accounts) && Wants(old(Rows()), a, ch)|
    {
      var matched := requested * accounts.Keys;
      if Problem(ch).Some? { return Err(Problem(ch).value); }
      var updated := BulkChangedAccountIds(matched, ch);
      assert updated == set a | a in requested && a in accounts && Wants(Rows(), a, ch);
      res := Ok(BulkResult(|requested|, |matched|, |updated|, requested - accounts.Keys));
      ApplyChanges(matched, updated, ch);
    }

    /** `selected` is what the selection's query returned, of a list of ids or of a filter. */
    method CreateBulkPreview(selected: set<nat>, byFilter: bool, ch: Changes, token: nat, now: int)
      returns (res: Result<Preview, BulkError>)
      requires selected <= accounts.Keys && token !in previews
      modifies this`previews
      ensures res.Err? <==> Problem(ch).Some? || (byFilter && |selected| > MAX_FILTER_SELECTION) || selected == {}
      ensures res.Err? ==> previews == old(previews)
      ensures res.Ok? ==>
                && previews == old(previews)[token := res.value]
                && res.value.ids == selected && res.value.changes == ch && res.value.consumed.None?
                && res.value.matched == |selected| && res.value.expires == now + PREVIEW_TTL
                && res.value.eligible == |Changed(Rows(), selected, ch)|
                && res.value.eligible + res.value.skipped == res.value.matched
                && res.value.dangerous == if ch.lifecycle == Some(Archived) then res.value.eligible else 0
      ensures res == Err(GroupNotFound) <==> ch.moveGroup && ch.group.Some? && ch.group.value !in groups
      ensures res == Err(TagNotFound) <==>
                && res != Err(GroupNotFound)
                && exists t :: (t in ch.addTags || t in ch.removeTags) && t !in knownTags
      ensures res == Err(SelectionTooLarge) <==>
                res !in {Err(GroupNotFound), Err(TagNotFound)} && byFilter && |selected| > 20_000
      ensures res.Err? ==> res.error in {GroupNotFound, TagNotFound, SelectionTooLarge, SelectionEmpty}
      ensures res.Ok? ==>
                && res.value.expires == now + 900
                && res.value.eligible == |set a | a in selected && Wants(Rows(), a, ch)|
    {
      if Problem(ch).Some? { return Err(Problem(ch).value); }
      if byFilter && |selected| > MAX_FILTER_SELECTION { return Err(SelectionTooLarge); }
      if selected == {} { return Err(SelectionEmpty); }
      var changed := BulkChangedAccountIds(selected, ch);
      assert changed == set a | a in selected && Wants(Rows(), a, ch);
      SubsetCount(changed, selected);
      var preview := Preview(selected, ch, |selected|, |changed|, |selected| - |changed|,
                             if ch.lifecycle == Some(Archived) then |changed| else 0, now + PREVIEW_TTL, None);
      previews := previews[token := preview];
      res := Ok(preview);
    }

    /** Why a preview may not run now, if it may not. */
    function Refusal(token: nat, now: int): Option<BulkError>
      reads this`previews, this`groups, this`knownTags
    {
      if token !in previews then Some(PreviewNotFound)
      else if previews[token].consumed.Some? then Some(PreviewAlreadyUsed)
      else if previews[token].expires <= now then Some(PreviewExpired)
      else Problem(previews[token].changes)
    }

    /** Runs a preview once, on exactly the accounts it froze. */
    method ExecuteBulkPreview(token: nat, now: int) returns (res: Result<BulkResult, BulkError>)
      modifies this`accounts, this`tags, this`forwarding, this`previews
      ensures var refusal := old(Refusal(token, now));
              refusal.Some? ==> res == Err(refusal.value) && Rows() == old(Rows()) && previews == old(previews)
      ensures res.Ok? <==> old(Refusal(token, now)).None?
      ensures res.Ok? ==>
                var preview := old(previews)[token];
                var matched := preview.ids * old(accounts).Keys;
                && previews == old(previews)[token := preview.(consumed := Some(now))]
                && Rows() == Mutated(old(Rows()), matched, preview.changes)
                && Applied(old(Rows()), Rows(), matched, preview.changes)
                && res.value.updated == |Changed(old(Rows()), matched, preview.changes)|
                && res.value.matched == |matched|
      ensures res == Err(PreviewNotFound) <==> token !in old(previews)
      ensures res == Err(PreviewAlreadyUsed) <==> token in old(previews) && old(previews)[token].consumed.Some?
      ensures res == Err(PreviewExpired) <==>
                token in old(previews) && old(previews)[token].consumed.None? && now >= old(previews)[token].expires
    {
      if token !in previews { return Err(PreviewNotFound); }
      var preview := previews[token];
      if preview.consumed.Some? { return Err(PreviewAlreadyUsed); }
      if preview.expires <= now { return Err(PreviewExpired); }
      res := Consume(token, now);
    }

    /** Applies the frozen change and marks the preview used, unless a group or tag has gone meanwhile. */
    method Consume(token: nat, now: int) returns (res: Result<BulkResult, BulkError>)
      requires token in previews
      modifies this`accounts, this`tags, this`forwarding, this`previews
      ensures res.Err? <==> Problem(old(previews)[token].changes).Some?
      ensures res.Err? ==>
                && Some(res.error) == Problem(old(previews)[token].changes)
                && Rows() == old(Rows()) && previews == old(previews)
      ensures res.Err? ==> res.error in {GroupNotFound, TagNotFound}
      ensures res.Ok? ==>
                var preview := old(previews)[token];
                var matched := preview.ids * old(accounts).Keys;
                && previews == old(previews)[token := preview.(consumed := Some(now))]
                && Rows() == Mutated(old(Rows()), matched, preview.changes)
                && Applied(old(Rows()), Rows(), matched, preview.changes)
                && res.value.updated == |Changed(old(Rows()), matched, preview.changes)|
                && res.value.matched == |matched|
    {
      var preview := previews[token];
      res := BulkMutateAccounts(preview.ids, preview.changes);
      if res.Ok? {
        previews := previews[token := preview.(consumed := Some(now))];
      }
    }

    /** On a database nothing else touches, the execution updates as many accounts as the preview announced. */
    method PreviewThenExecute(selected: set<nat>, byFilter: bool, ch: Changes, token: nat, now: int, later: int)
      returns (preview: Result<Preview, BulkError>, res: Result<BulkResult, BulkError>,
               again: Result<BulkResult, BulkError>)
      requires selected <= accounts.Keys && token !in previews
      modifies this
      ensures preview.Ok? && later < now + PREVIEW_TTL ==>
                && res.Ok? && res.value.updated == preview.value.eligible
                && Rows() == Mutated(old(Rows()), selected, ch)
                && again == Err(PreviewAlreadyUsed)
    {
      preview := CreateBulkPreview(selected, byFilter, ch, token, now);
      assert selected * accounts.Keys == selected;
      res := ExecuteBulkPreview(token, later);
      again := ExecuteBulkPreview(token, later);
    }
  }
}
