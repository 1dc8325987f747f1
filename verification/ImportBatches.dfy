/**
 Import batches: a plan is stored line by line, a commit creates the accounts that are still free, and
 a rollback removes those nobody has touched since.
 */
module ImportBatches {
  import opened Options
  import opened ImportLines

  datatype ItemStatus = Valid | Invalid | Conflict | Created | Skipped | Failed | RolledBack

  datatype BatchStatus = Validated | Committing | Completed | Partial | Failed | RolledBack

  datatype Item = Item(line: nat, status: ItemStatus, email: Option<string>, normalized: Option<string>,
                       accountId: Option<nat>)

  datatype Batch = Batch(status: BatchStatus, key: Option<string>, items: seq<Item>,
                         total: nat, valid: nat, invalid: nat, conflict: nat,
                         created: nat, skipped: nat, failed: nat)

  /** An account row: its normalized email and its version, which edits of the account itself raise. */
  datatype Account = Account(email: string, version: nat)

  type Accounts = map<nat, Account>

  datatype ImportError = BatchNotFound | NotCommittable | NotRollbackable

  predicate Held(accounts: Accounts, email: string) {
    exists a :: a in accounts && accounts[a].email == email
  }

  predicate Occupied(accounts: Accounts, aliases: set<string>, email: string) {
    Held(accounts, email) || email in aliases
  }

  ghost predicate UniqueEmails(accounts: Accounts) {
    forall a, b | a in accounts && b in accounts && accounts[a].email == accounts[b].email :: a == b
  }

  function Count(items: seq<Item>, status: ItemStatus): nat {
    if items == [] then 0 else (if items[0].status == status then 1 else 0) + Count(items[1..], status)
  }

  lemma {:induction false} CountAppend(items: seq<Item>, item: Item, status: ItemStatus)
    ensures Count(items + [item], status) == Count(items, status) + if item.status == status then 1 else 0
  {
    if items != [] {
      assert (items + [item])[1..] == items[1..] + [item];
      CountAppend(items[1..], item, status);
    }
  }

  ghost function Places(items: seq<Item>, n: nat, status: ItemStatus): set<int>
    requires n <= |items|
  {
    set k | 0 <= k < n && items[k].status == status
  }

  lemma {:induction false} PrefixCount(items: seq<Item>, n: nat, status: ItemStatus)
    requires n <= |items|
    ensures Count(items[..n], status) == |Places(items, n, status)|
  {
    if n > 0 {
      var items' := items[..n - 1];
      PrefixCount(items, n - 1, status);
      assert items[..n] == items' + [items[n - 1]];
      CountAppend(items', items[n - 1], status);
      var before, more := Places(items, n - 1, status), Places(items, n, status);
      if items[n - 1].status == status {
        assert more == before + {n - 1};
      } else {
        assert more == before;
      }
    }
  }

  /** A counter is the number of items in its status. */
  lemma CountIsSize(items: seq<Item>, status: ItemStatus)
    ensures Count(items, status) == |set k | 0 <= k < |items| && items[k].status == status|
  {
    PrefixCount(items, |items|, status);
    assert items[..|items|] == items;
    assert (set k | 0 <= k < |items| && items[k].status == status) == Places(items, |items|, status);
  }

  // ---- planning ------------------------------------------------------------------------------

  function ItemOf(p: Parsed): Item {
    Item(p.line, match p.status case Valid => ItemStatus.Valid case Invalid => ItemStatus.Invalid
                                case Conflict => ItemStatus.Conflict, p.email, p.normalized, None)
  }

  /** A parsed line as planned against the occupied addresses. */
  function PlannedItem(p: Parsed, accounts: Accounts, aliases: set<string>): Item {
    var item := ItemOf(p);
    if item.status == ItemStatus.Valid && item.normalized.Some? && Occupied(accounts, aliases, item.normalized.value)
    then item.(status := ItemStatus.Conflict) else item
  }

  function PlannedItems(parsed: seq<Parsed>, accounts: Accounts, aliases: set<string>): seq<Item> {
    seq(|parsed|, k requires 0 <= k < |parsed| => PlannedItem(parsed[k], accounts, aliases))
  }

  /** The items a commit may meet: only plan outcomes, and distinct addresses on the valid ones. */
  ghost predicate FreshItems(items: seq<Item>) {
    && (forall k | 0 <= k < |items| ::
          items[k].status in {ItemStatus.Valid, ItemStatus.Invalid, ItemStatus.Conflict})
    && (forall k | 0 <= k < |items| && items[k].status == ItemStatus.Valid ::
          && items[k].email.Some? && items[k].email.value != ""
          && items[k].normalized.Some? && items[k].normalized.value != "")
    && (forall i, k | 0 <= i < k < |items| && items[i].status == items[k].status == ItemStatus.Valid ::
          items[i].normalized != items[k].normalized)
  }

  /** A new batch reports how many of its items have each plan outcome, and nothing settled. */
  ghost predicate Announces(b: Batch) {
    && b.total == |b.items|
    && b.valid == |set k | 0 <= k < |b.items| && b.items[k].status == ItemStatus.Valid|
    && b.invalid == |set k | 0 <= k < |b.items| && b.items[k].status == ItemStatus.Invalid|
    && b.conflict == |set k | 0 <= k < |b.items| && b.items[k].status == ItemStatus.Conflict|
    && b.created == b.skipped == b.failed == 0
  }

  ghost predicate BatchOk(b: Batch) {
    && b.total == |b.items|
    && b.valid + b.invalid + b.conflict == b.total
    && (b.status == Validated ==>
          && FreshItems(b.items)
          && b.valid == Count(b.items, ItemStatus.Valid)
          && b.invalid == Count(b.items, ItemStatus.Invalid)
          && b.conflict == Count(b.items, ItemStatus.Conflict))
    && DistinctIds(b.items)
  }

  /** No account is credited to two items. */
  ghost predicate DistinctIds(items: seq<Item>) {
    forall i, k | 0 <= i < k < |items| && items[i].status == items[k].status == ItemStatus.Created
                  && items[i].accountId.Some? :: items[i].accountId != items[k].accountId
  }

  /** A plan keeps a line valid exactly when it parsed and its address is free, and its valid addresses are distinct. */
  lemma PlanIsFresh(parsed: seq<Parsed>, accounts: Accounts, aliases: set<string>)
    requires forall k | 0 <= k < |parsed| :: HasEmail(parsed[k])
    requires forall i, k | 0 <= i < k < |parsed| && parsed[i].status == parsed[k].status == LineStatus.Valid ::
               parsed[i].normalized != parsed[k].normalized
    ensures FreshItems(PlannedItems(parsed, accounts, aliases)) && DistinctIds(PlannedItems(parsed, accounts, aliases))
    ensures forall k | 0 <= k < |parsed| ::
              PlannedItems(parsed, accounts, aliases)[k].status == ItemStatus.Valid <==>
              parsed[k].status == LineStatus.Valid && parsed[k].normalized.Some?
              && !Occupied(accounts, aliases, parsed[k].normalized.value)
  {
  }

  lemma {:induction false} PlanCountsAddUp(items: seq<Item>)
    requires forall k | 0 <= k < |items| ::
               items[k].status in {ItemStatus.Valid, ItemStatus.Invalid, ItemStatus.Conflict}
    ensures Count(items, ItemStatus.Valid) + Count(items, ItemStatus.Invalid) + Count(items, ItemStatus.Conflict)
            == |items|
  {
    if items != [] { PlanCountsAddUp(items[1..]); }
  }

  // ---- committing ----------------------------------------------------------------------------

  /** How a commit may settle one item, given the tables it started from and those it left. */
  ghost predicate Settled(before: Item, after: Item, was: Accounts, aliases: set<string>, is_: Accounts) {
    if before.status != ItemStatus.Valid then after == before
    else if before.normalized.None? then false
    else if Occupied(was, aliases, before.normalized.value) then after == before.(status := ItemStatus.Skipped)
    else
      || after == before.(status := ItemStatus.Failed)
      || (&& after.accountId.Some?
          && after == before.(status := ItemStatus.Created, accountId := after.accountId)
          && after.accountId.value in is_ && after.accountId.value !in was
          && is_[after.accountId.value] == Account(before.normalized.value, 1))
  }

  ghost predicate CreatedBy(items: seq<Item>, a: nat) {
    exists k :: 0 <= k < |items| && items[k].status == ItemStatus.Created && items[k].accountId == Some(a)
  }

  /** A commit only adds accounts, each made for one of its items at an address nobody held. */
  ghost predicate OnlyAdds(was: Accounts, aliases: set<string>, is_: Accounts, items: seq<Item>) {
    && (forall a | a in was :: a in is_ && is_[a] == was[a])
    && (forall a | a in is_ && a !in was ::
          && CreatedBy(items, a) && is_[a].version == 1
          && !Occupied(was, aliases, is_[a].email))
  }

  /** Where a commit stands after its first `n` items. */
  ghost predicate Progress(before: seq<Item>, items: seq<Item>, n: nat, was: Accounts, aliases: set<string>,
                           is_: Accounts) {
    && n <= |before| == |items|
    && (forall k | 0 <= k < n :: Settled(before[k], items[k], was, aliases, is_))
    && (forall k | n <= k < |items| :: items[k] == before[k])
    && OnlyAdds(was, aliases, is_, items)
    && DistinctIds(items)
    && (forall a | a in is_ && a !in was :: EmailFrom(before, n, is_[a].email))
  }

  /** Some valid item among the first `n` carries the address. */
  ghost predicate EmailFrom(before: seq<Item>, n: nat, email: string) {
    exists k :: 0 <= k < n && k < |before| && before[k].status == ItemStatus.Valid
                && before[k].normalized == Some(email)
  }

  /** The batch's own creations never occupy the address of a later item. */
  lemma OccupancyStable(before: seq<Item>, items: seq<Item>, n: nat, was: Accounts, aliases: set<string>, is_: Accounts)
    requires FreshItems(before) && Progress(before, items, n, was, aliases, is_) && n < |before|
    requires before[n].status == ItemStatus.Valid && before[n].normalized.Some?
    ensures Occupied(is_, aliases, before[n].normalized.value) == Occupied(was, aliases, before[n].normalized.value)
  {
    var email := before[n].normalized.value;
    forall a | a in is_ && a !in was ensures is_[a].email != email {
      assert EmailFrom(before, n, is_[a].email);
    }
    if Held(was, email) {
      var a :| a in was && was[a].email == email;
      assert is_[a].email == email;
    }
  }

  /** What settling the valid item `n` may do to the table, before and after it. */
  ghost predicate ItemCommits(before: Item, after: Item, earlier: Accounts, aliases: set<string>, is_: Accounts)
    requires before.normalized.Some?
  {
    var email := before.normalized.value;
    if Occupied(earlier, aliases, email) then after == before.(status := ItemStatus.Skipped) && is_ == earlier
    else
      || (after == before.(status := ItemStatus.Failed) && is_ == earlier)
      || (&& after.accountId.Some? && after.accountId.value !in earlier
          && after == before.(status := ItemStatus.Created, accountId := after.accountId)
          && is_ == earlier[after.accountId.value := Account(email, 1)])
  }

  lemma CommitStep(before: seq<Item>, items: seq<Item>, n: nat, was: Accounts, aliases: set<string>,
                   earlier: Accounts, is_: Accounts, after: Item)
    requires FreshItems(before) && Progress(before, items, n, was, aliases, earlier) && n < |before|
    requires before[n].status == ItemStatus.Valid && before[n].normalized.Some?
    requires ItemCommits(before[n], after, earlier, aliases, is_)
    ensures Progress(before, items[n := after], n + 1, was, aliases, is_)
  {
    OccupancyStable(before, items, n, was, aliases, earlier);
    StepSettles(before, items, n, was, aliases, earlier, is_, after);
    StepOnlyAdds(before, items, n, was, aliases, earlier, is_, after);
    StepEmails(before, items, n, was, aliases, earlier, is_, after);
    CreatedExist(before, items, n, was, aliases, earlier);
  }

  lemma StepSettles(before: seq<Item>, items: seq<Item>, n: nat, was: Accounts, aliases: set<string>,
                    earlier: Accounts, is_: Accounts, after: Item)
    requires FreshItems(before) && Progress(before, items, n, was, aliases, earlier) && n < |before|
    requires before[n].status == ItemStatus.Valid && before[n].normalized.Some?
    requires ItemCommits(before[n], after, earlier, aliases, is_)
    ensures forall k | 0 <= k <= n :: Settled(before[k], items[n := after][k], was, aliases, is_)
  {
    OccupancyStable(before, items, n, was, aliases, earlier);
    forall k | 0 <= k < n ensures Settled(before[k], items[k], was, aliases, is_) {
      assert Settled(before[k], items[k], was, aliases, earlier);
    }
  }

  lemma StepOnlyAdds(before: seq<Item>, items: seq<Item>, n: nat, was: Accounts, aliases: set<string>,
                     earlier: Accounts, is_: Accounts, after: Item)
    requires FreshItems(before) && Progress(before, items, n, was, aliases, earlier) && n < |before|
    requires before[n].status == ItemStatus.Valid && before[n].normalized.Some?
    requires ItemCommits(before[n], after, earlier, aliases, is_)
    ensures OnlyAdds(was, aliases, is_, items[n := after])
  {
    OccupancyStable(before, items, n, was, aliases, earlier);
    assert items[n] == before[n];
    forall a | a in earlier && a !in was ensures CreatedBy(items[n := after], a) {
      CreationStays(items, n, after, a);
    }
    assert items[n := after][n] == after;
  }

  lemma StepEmails(before: seq<Item>, items: seq<Item>, n: nat, was: Accounts, aliases: set<string>,
                   earlier: Accounts, is_: Accounts, after: Item)
    requires Progress(before, items, n, was, aliases, earlier) && n < |before|
    requires before[n].status == ItemStatus.Valid && before[n].normalized.Some?
    requires ItemCommits(before[n], after, earlier, aliases, is_)
    ensures forall a | a in is_ && a !in was :: EmailFrom(before, n + 1, is_[a].email)
  {
    assert EmailFrom(before, n + 1, before[n].normalized.value);
    forall a | a in earlier && a !in was ensures EmailFrom(before, n + 1, earlier[a].email) {
      assert EmailFrom(before, n, earlier[a].email);
    }
  }

  lemma CreationStays(items: seq<Item>, n: nat, after: Item, a: nat)
    requires n < |items| && items[n].status == ItemStatus.Valid && CreatedBy(items, a)
    ensures CreatedBy(items[n := after], a)
  {
    var k :| 0 <= k < |items| && items[k].status == ItemStatus.Created && items[k].accountId == Some(a);
    assert items[n := after][k] == items[k];
  }

  lemma SkipStep(before: seq<Item>, items: seq<Item>, n: nat, was: Accounts, aliases: set<string>, is_: Accounts)
    requires Progress(before, items, n, was, aliases, is_) && n < |before|
    requires before[n].status != ItemStatus.Valid
    ensures Progress(before, items, n + 1, was, aliases, is_)
  {
    forall a | a in is_ && a !in was ensures EmailFrom(before, n + 1, is_[a].email) {
      assert EmailFrom(before, n, is_[a].email);
    }
  }

  lemma ProgressStarts(before: seq<Item>, was: Accounts, aliases: set<string>)
    requires FreshItems(before)
    ensures Progress(before, before, 0, was, aliases, was)
  {
  }

  lemma CreatedExist(before: seq<Item>, items: seq<Item>, n: nat, was: Accounts, aliases: set<string>, is_: Accounts)
    requires FreshItems(before) && Progress(before, items, n, was, aliases, is_)
    ensures forall k | 0 <= k < |items| && items[k].status == ItemStatus.Created ::
              items[k].accountId.Some? && items[k].accountId.value in is_
  {
    forall k | 0 <= k < |items| && items[k].status == ItemStatus.Created
      ensures items[k].accountId.Some? && items[k].accountId.value in is_
    {
      if k < n { assert Settled(before[k], items[k], was, aliases, is_); }
    }
  }

  lemma {:induction false} SettledCounts(before: seq<Item>, after: seq<Item>, was: Accounts, aliases: set<string>,
                                         is_: Accounts)
    requires |before| == |after|
    requires forall k | 0 <= k < |before| ::
               && before[k].status in {ItemStatus.Valid, ItemStatus.Invalid, ItemStatus.Conflict}
               && Settled(before[k], after[k], was, aliases, is_)
    ensures Count(after, ItemStatus.Created) + Count(after, ItemStatus.Skipped) + Count(after, ItemStatus.Failed)
            == Count(before, ItemStatus.Valid)
  {
    if before != [] { SettledCounts(before[1..], after[1..], was, aliases, is_); }
  }

  function FinalStatus(created: nat, failed: nat, other: nat): BatchStatus {
    if created > 0 && other > 0 then Partial
    else if failed > 0 then BatchStatus.Failed
    else Completed
  }

  /** What committing a planned batch makes of it and of the table. */
  ghost predicate Commits(before: Batch, after: Batch, was: Accounts, aliases: set<string>, is_: Accounts) {
    && |after.items| == |before.items|
    && (forall k | 0 <= k < |before.items| :: Settled(before.items[k], after.items[k], was, aliases, is_))
    && OnlyAdds(was, aliases, is_, after.items)
    && after.created == Count(after.items, ItemStatus.Created)
    && after.skipped == Count(after.items, ItemStatus.Skipped)
    && after.failed == Count(after.items, ItemStatus.Failed)
    && after.created + after.skipped + after.failed == before.valid
    && after.status == FinalStatus(after.created, after.failed,
         before.invalid + before.conflict + after.skipped + after.failed)
  }

  /** A valid item fails only when storing it did, and creates an account only when storing it worked. */
  ghost predicate ToldSo(outcome: ItemStatus, works: bool) {
    (outcome == ItemStatus.Failed ==> !works) && (outcome == ItemStatus.Created ==> works)
  }

  ghost predicate FailsAsTold(before: seq<Item>, after: seq<Item>, n: nat, works: nat -> bool) {
    && n <= |before| == |after|
    && forall k | 0 <= k < n && before[k].status == ItemStatus.Valid :: ToldSo(after[k].status, works(k))
  }

  /** The address is held by an alias or by a row of the account table. */
  ghost predicate TakenAt(accounts: Accounts, aliases: set<string>, email: string) {
    email in aliases || email in set a | a in accounts :: accounts[a].email
  }

  /**
   What a commit does item by item: valid ones are skipped when their address was taken, otherwise they
   fail or name a new account on version one; the table keeps its rows and gains just those accounts.
   */
  ghost predicate SettlesAll(before: seq<Item>, after: seq<Item>, was: Accounts, aliases: set<string>, is_: Accounts) {
    && |after| == |before|
    && (forall k | 0 <= k < |before| ::
          && (before[k].status != ItemStatus.Valid ==> after[k] == before[k])
          && (before[k].status == ItemStatus.Valid && before[k].normalized.Some? ==>
                if TakenAt(was, aliases, before[k].normalized.value)
                then after[k] == before[k].(status := ItemStatus.Skipped)
                else || after[k] == before[k].(status := ItemStatus.Failed)
                     || (&& after[k].accountId.Some?
                         && after[k] == before[k].(status := ItemStatus.Created, accountId := after[k].accountId)
                         && after[k].accountId.value in is_.Keys - was.Keys
                         && is_[after[k].accountId.value] == Account(before[k].normalized.value, 1))))
    && (forall a | a in was :: a in is_ && is_[a] == was[a])
    && (forall a | a in is_ && a !in was ::
          exists k :: 0 <= k < |after| && after[k].status == ItemStatus.Created && after[k].accountId == Some(a))
  }

  /** The batch keeps its plan counters, reports each outcome by its number and ends by what was created. */
  ghost predicate Reports(before: Batch, after: Batch) {
    && after == before.(status := after.status, items := after.items, created := after.created,
                        skipped := after.skipped, failed := after.failed)
    && after.created == |set k | 0 <= k < |after.items| && after.items[k].status == ItemStatus.Created|
    && after.skipped == |set k | 0 <= k < |after.items| && after.items[k].status == ItemStatus.Skipped|
    && after.failed == |set k | 0 <= k < |after.items| && after.items[k].status == ItemStatus.Failed|
    && (after.status == Partial <==> 0 < after.created < after.total)
    && (after.status == BatchStatus.Failed <==> after.created == 0 < after.failed)
    && (after.status == Completed <==> after.created == after.total || after.created == after.failed == 0)
  }

  lemma CommitsMeans(before: Batch, after: Batch, was: Accounts, aliases: set<string>, is_: Accounts)
    requires BatchOk(before) && before.status == Validated
    requires after == before.(status := after.status, items := after.items, created := after.created,
                              skipped := after.skipped, failed := after.failed)
    requires Commits(before, after, was, aliases, is_)
    ensures SettlesAll(before.items, after.items, was, aliases, is_) && Reports(before, after)
  {
    CountIsSize(after.items, ItemStatus.Created);
    CountIsSize(after.items, ItemStatus.Skipped);
    CountIsSize(after.items, ItemStatus.Failed);
    SettledMeans(before.items, after.items, was, aliases, is_);
    forall a | a in is_ && a !in was
      ensures exists k :: 0 <= k < |after.items| && after.items[k].status == ItemStatus.Created
                          && after.items[k].accountId == Some(a)
    {
      assert CreatedBy(after.items, a);
    }
  }

  lemma SettledMeans(before: seq<Item>, after: seq<Item>, was: Accounts, aliases: set<string>, is_: Accounts)
    requires |before| == |after|
    requires forall k | 0 <= k < |before| :: Settled(before[k], after[k], was, aliases, is_)
    ensures forall k | 0 <= k < |before| ::
              && (before[k].status != ItemStatus.Valid ==> after[k] == before[k])
              && (before[k].status == ItemStatus.Valid && before[k].normalized.Some? ==>
                    if TakenAt(was, aliases, before[k].normalized.value)
                    then after[k] == before[k].(status := ItemStatus.Skipped)
                    else || after[k] == before[k].(status := ItemStatus.Failed)
                         || (&& after[k].accountId.Some?
                             && after[k] == before[k].(status := ItemStatus.Created, accountId := after[k].accountId)
                             && after[k].accountId.value in is_.Keys - was.Keys
                             && is_[after[k].accountId.value] == Account(before[k].normalized.value, 1)))
  {
  }

  // ---- rolling back --------------------------------------------------------------------------

  /** The accounts a rollback deletes: made by the batch and still on their first version. */
  ghost function Deletable(items: seq<Item>, accounts: Accounts): set<nat> {
    set a | a in accounts && accounts[a].version == 1 && CreatedBy(items, a)
  }

  /** An item after the rollback: undone if its account was deleted, otherwise as it was. */
  function Undone(item: Item, accounts: Accounts): Item {
    if item.status == ItemStatus.Created && item.accountId.Some? && item.accountId.value in accounts
       && accounts[item.accountId.value].version == 1
    then item.(status := ItemStatus.RolledBack, accountId := None) else item
  }

  /**
   What a rollback does item by item: one that created an account still on its first version forgets it
   and is rolled back, any other stays as it was; exactly those accounts leave the table.
   */
  ghost predicate UndoesAll(before: seq<Item>, after: seq<Item>, was: Accounts, is_: Accounts) {
    && |after| == |before|
    && (forall k | 0 <= k < |before| ::
          after[k] == if before[k].status == ItemStatus.Created
                         && before[k].accountId in (set a | a in was && was[a].version == 1 :: Some(a))
                      then before[k].(status := ItemStatus.RolledBack, accountId := None) else before[k])
    && (forall a | a in is_ :: a in was && is_[a] == was[a])
    && (forall a | a in was :: a !in is_ <==>
          && was[a].version == 1
          && exists k :: 0 <= k < |before| && before[k].status == ItemStatus.Created && before[k].accountId == Some(a))
  }

  lemma NoneGuarded(before: seq<Item>, after: seq<Item>, was: Accounts)
    requires |after| == |before| && forall k | 0 <= k < |after| :: after[k] == Undone(before[k], was)
    ensures AllUntouched(before, was) <==>
            forall k | 0 <= k < |after| :: after[k].status == ItemStatus.Created ==> after[k].accountId.None?
  {
    if AllUntouched(before, was) {
      forall k | 0 <= k < |after| && after[k].status == ItemStatus.Created ensures after[k].accountId.None? {
        if before[k].accountId.Some? { assert CreatedBy(before, before[k].accountId.value); }
      }
    }
  }

  lemma UndoneMeans(before: seq<Item>, after: seq<Item>, was: Accounts)
    requires |after| == |before| && forall k | 0 <= k < |after| :: after[k] == Undone(before[k], was)
    ensures UndoesAll(before, after, was, was - Deletable(before, was))
  {
    forall a | a in was
      ensures a !in was - Deletable(before, was) <==>
                && was[a].version == 1
                && exists k :: 0 <= k < |before| && before[k].status == ItemStatus.Created
                               && before[k].accountId == Some(a)
    {
      assert CreatedBy(before, a) <==>
        exists k :: 0 <= k < |before| && before[k].status == ItemStatus.Created && before[k].accountId == Some(a);
    }
  }

  /** An undisturbed rollback restores the table the commit found. */
  lemma RollbackUndoesCommit(was: Accounts, aliases: set<string>, is_: Accounts, before: seq<Item>, after: seq<Item>)
    requires |before| == |after| && FreshItems(before)
    requires forall k | 0 <= k < |before| :: Settled(before[k], after[k], was, aliases, is_)
    requires OnlyAdds(was, aliases, is_, after)
    ensures is_ - Deletable(after, is_) == was
  {
    forall k | 0 <= k < |after| && after[k].status == ItemStatus.Created && after[k].accountId.Some?
      ensures after[k].accountId.value !in was
    {
      assert Settled(before[k], after[k], was, aliases, is_);
    }
  }

  lemma {:induction false} CountPositive(items: seq<Item>, s: ItemStatus)
    ensures Count(items, s) == 0 <==> forall k | 0 <= k < |items| :: items[k].status != s
  {
    if items != [] { CountPositive(items[1..], s); }
  }

  /** A commit that created nothing left the table alone. */
  lemma NothingCreated(was: Accounts, aliases: set<string>, is_: Accounts, after: seq<Item>)
    requires OnlyAdds(was, aliases, is_, after) && Count(after, ItemStatus.Created) == 0
    ensures is_ == was
  {
    CountPositive(after, ItemStatus.Created);
  }

  // ---- the service ---------------------------------------------------------------------------

  class Imports {
    var accounts: Accounts
    var aliases: set<string>
    var batches: seq<Batch>
    var nextId: nat

    constructor (aliases: set<string>)
      ensures Valid() && accounts == map[] && this.aliases == aliases && batches == []
    {
      accounts, this.aliases, batches, nextId := map[], aliases, [], 0;
    }

    ghost predicate Valid()
      reads this
    {
      && UniqueEmails(accounts)
      && (forall a | a in accounts :: a < nextId)
      && (forall b | 0 <= b < |batches| :: BatchOk(batches[b]))
    }

    /** Marks the addresses that are taken. */
    method PlanItems(parsed: seq<Parsed>) returns (items: seq<Item>)
      ensures items == PlannedItems(parsed, accounts, aliases)
      ensures |items| == |parsed| && forall k | 0 <= k < |parsed| ::
                && items[k] == Item(parsed[k].line, items[k].status, parsed[k].email, parsed[k].normalized, None)
                && (items[k].status == ItemStatus.Invalid <==> parsed[k].status == LineStatus.Invalid)
                && (items[k].status == ItemStatus.Valid <==>
                    && parsed[k].status == LineStatus.Valid
                    && (parsed[k].normalized.Some? ==>
                        && parsed[k].normalized.value !in aliases
                        && forall a | a in accounts :: accounts[a].email != parsed[k].normalized.value))
                && items[k].status in {ItemStatus.Valid, ItemStatus.Invalid, ItemStatus.Conflict}
    {
      items := seq(|parsed|, k requires 0 <= k < |parsed| => ItemOf(parsed[k]));
      for n := 0 to |items|
        invariant |items| == |parsed|
        invariant forall k | 0 <= k < n :: items[k] == PlannedItem(parsed[k], accounts, aliases)
        invariant forall k | n <= k < |items| :: items[k] == ItemOf(parsed[k])
      {
        var item := items[n];
        if item.status == ItemStatus.Valid && item.normalized.Some?
           && Occupied(accounts, aliases, item.normalized.value) {
          items := items[n := item.(status := ItemStatus.Conflict)];
        }
      }
    }

    /** Plans a parsed file, or returns the batch an earlier request with the same key made. */
    method CreateImportBatch(parsed: seq<Parsed>, key: Option<string>) returns (b: nat)
      requires Valid()
      requires forall k | 0 <= k < |parsed| :: HasEmail(parsed[k])
      requires forall i, k | 0 <= i < k < |parsed| && parsed[i].status == parsed[k].status == LineStatus.Valid ::
                 parsed[i].normalized != parsed[k].normalized
      modifies this`batches
      ensures Valid() && b < |batches|
      ensures (exists n :: 0 <= n < |old(batches)| && key.Some? && key != Some("") && old(batches)[n].key == key)
              ==> batches == old(batches) && batches[b].key == key
      ensures !(exists n :: 0 <= n < |old(batches)| && key.Some? && key != Some("") && old(batches)[n].key == key)
              ==> && b == |old(batches)| && batches[..b] == old(batches) && |batches| == b + 1
                  && batches[b].status == Validated && batches[b].key == key
                  && batches[b].items == PlannedItems(parsed, accounts, aliases)
                  && Announces(batches[b])
    {
      if key.Some? && key != Some("") {
        if n :| 0 <= n < |batches| && batches[n].key == key {
          return n;
        }
      }
      var items := PlanItems(parsed);
      PlanIsFresh(parsed, accounts, aliases);
      PlanCountsAddUp(items);
      CountIsSize(items, ItemStatus.Valid);
      CountIsSize(items, ItemStatus.Invalid);
      CountIsSize(items, ItemStatus.Conflict);
      b := |batches|;
      batches := batches + [Batch(Validated, key, items, |items|, Count(items, ItemStatus.Valid),
                                  Count(items, ItemStatus.Invalid), Count(items, ItemStatus.Conflict), 0, 0, 0)];
    }

    /** Creates one account inside a savepoint, if storing it works; any failure leaves the table as it was. */
    method CommitItem(item: Item, works: bool) returns (after: Item)
      requires item.normalized.Some?
      requires UniqueEmails(accounts) && forall a | a in accounts :: a < nextId
      modifies this`accounts, this`nextId
      ensures UniqueEmails(accounts) && forall a | a in accounts :: a < nextId
      ensures old(nextId) <= nextId
      ensures ItemCommits(item, after, old(accounts), aliases, accounts)
      ensures item.normalized.value in aliases
              || (exists a :: a in old(accounts) && old(accounts)[a].email == item.normalized.value)
              ==> after == item.(status := ItemStatus.Skipped) && accounts == old(accounts)
      ensures item.normalized.value !in aliases
              && (forall a | a in old(accounts) :: old(accounts)[a].email != item.normalized.value)
              ==> if works
                  then && after == item.(status := ItemStatus.Created, accountId := Some(old(nextId)))
                       && accounts == old(accounts)[old(nextId) := Account(item.normalized.value, 1)]
                  else after == item.(status := ItemStatus.Failed) && accounts == old(accounts)
    {
      if Occupied(accounts, aliases, item.normalized.value) {
        return item.(status := ItemStatus.Skipped);
      }
      if !works {
        return item.(status := ItemStatus.Failed);
      }
      accounts := accounts[nextId := Account(item.normalized.value, 1)];
      after := item.(status := ItemStatus.Created, accountId := Some(nextId));
      nextId := nextId + 1;
    }

    /** Commits the items one by one, in line order. */
    method CommitItems(planned: seq<Item>, works: nat -> bool) returns (items: seq<Item>)
      requires FreshItems(planned)
      requires UniqueEmails(accounts) && forall a | a in accounts :: a < nextId
      modifies this`accounts, this`nextId
      ensures UniqueEmails(accounts) && forall a | a in accounts :: a < nextId
      ensures Progress(planned, items, |planned|, old(accounts), aliases, accounts)
      ensures FailsAsTold(planned, items, |planned|, works)
    {
      items := planned;
      ghost var was := accounts;
      ProgressStarts(planned, was, aliases);
      for n := 0 to |planned|
        invariant UniqueEmails(accounts) && forall a | a in accounts :: a < nextId
        invariant Progress(planned, items, n, was, aliases, accounts)
        invariant FailsAsTold(planned, items, n, works)
      {
        items := CommitNext(planned, items, n, works(n), was);
      }
    }

    /** Settles item `n` of a commit that started from the accounts `was`. */
    method CommitNext(planned: seq<Item>, settled: seq<Item>, n: nat, works: bool, ghost was: Accounts)
      returns (items: seq<Item>)
      requires FreshItems(planned) && n < |planned|
      requires UniqueEmails(accounts) && forall a | a in accounts :: a < nextId
      requires Progress(planned, settled, n, was, aliases, accounts)
      modifies this`accounts, this`nextId
      ensures UniqueEmails(accounts) && forall a | a in accounts :: a < nextId
      ensures Progress(planned, items, n + 1, was, aliases, accounts)
      ensures planned[n].status == ItemStatus.Valid ==> ToldSo(items[n].status, works)
      ensures forall k | 0 <= k < |planned| && k != n :: items[k] == settled[k]
    {
      var item := settled[n];
      assert item == planned[n];
      if item.status != ItemStatus.Valid || item.email.None? || item.email.value == ""
         || item.normalized.None? || item.normalized.value == "" {
        SkipStep(planned, settled, n, was, aliases, accounts);
        return settled;
      }
      ghost var earlier := accounts;
      var after := CommitItem(item, works);
      items := settled[n := after];
      CommitStep(planned, settled, n, was, aliases, earlier, accounts, after);
    }

    /** Commits a validated batch; committing twice is harmless. */
    method CommitImportBatch(b: nat, works: nat -> bool) returns (res: Result<Batch, ImportError>)
      requires Valid()
      modifies this`accounts, this`nextId, this`batches
      ensures Valid()
      ensures res == Err(BatchNotFound) <==> b >= |old(batches)|
      ensures res == Err(NotCommittable) <==>
                b < |old(batches)| && old(batches)[b].status !in {Validated, Completed, Partial}
      ensures res.Err? ==> res.error in {BatchNotFound, NotCommittable}
      ensures res.Err? || old(batches)[b].status in {Completed, Partial} ==>
                accounts == old(accounts) && batches == old(batches)
      ensures res.Ok? ==> batches == old(batches)[b := res.value]
      ensures res.Ok? && old(batches)[b].status == Validated ==>
                && Commits(old(batches)[b], res.value, old(accounts), aliases, accounts)
                && SettlesAll(old(batches)[b].items, res.value.items, old(accounts), aliases, accounts)
                && Reports(old(batches)[b], res.value)
                && FailsAsTold(old(batches)[b].items, res.value.items, |res.value.items|, works)
    {
      if b >= |batches| { return Err(BatchNotFound); }
      var batch := batches[b];
      if batch.status in {Completed, Partial} { return Ok(batch); }
      if batch.status != Validated { return Err(NotCommittable); }
      batch := SettleBatch(batch, works);
      batches := batches[b := batch];
      res := Ok(batch);
    }

    /** Commits the items of a batch, recounts it and closes it. */
    method SettleBatch(planned: Batch, works: nat -> bool) returns (batch: Batch)
      requires planned.status == Validated && BatchOk(planned)
      requires UniqueEmails(accounts) && forall a | a in accounts :: a < nextId
      modifies this`accounts, this`nextId
      ensures UniqueEmails(accounts) && forall a | a in accounts :: a < nextId
      ensures Commits(planned, batch, old(accounts), aliases, accounts) && BatchOk(batch)
      ensures SettlesAll(planned.items, batch.items, old(accounts), aliases, accounts)
      ensures Reports(planned, batch) && FailsAsTold(planned.items, batch.items, |batch.items|, works)
    {
      var items := CommitItems(planned.items, works);
      SettledCounts(planned.items, items, old(accounts), aliases, accounts);
      var created := Count(items, ItemStatus.Created);
      var skipped := Count(items, ItemStatus.Skipped);
      var failed := Count(items, ItemStatus.Failed);
      var nonCreated := planned.invalid + planned.conflict + skipped + failed;
      var status := Completed;
      if created > 0 && nonCreated > 0 {
        status := Partial;
      } else if failed > 0 {
        status := BatchStatus.Failed;
      }
      batch := planned.(status := status, items := items, created := created, skipped := skipped, failed := failed);
      CommitsMeans(planned, batch, old(accounts), aliases, accounts);
    }

    /** Undoes the items one by one; `guarded` counts the creations that were left in place. */
    method RollbackItems(planned: seq<Item>) returns (items: seq<Item>, guarded: nat)
      requires DistinctIds(planned)
      modifies this`accounts
      ensures |items| == |planned| && forall k | 0 <= k < |items| :: items[k] == Undone(planned[k], old(accounts))
      ensures accounts == old(accounts) - Deletable(planned, old(accounts))
      ensures UndoesAll(planned, items, old(accounts), accounts)
      ensures guarded == 0 <==> AllUntouched(planned, old(accounts))
      ensures guarded == 0 <==>
              forall k | 0 <= k < |items| :: items[k].status == ItemStatus.Created ==> items[k].accountId.None?
    {
      items, guarded := planned, 0;
      ghost var was := accounts;
      for n := 0 to |planned|
        invariant |items| == |planned|
        invariant forall k | n <= k < |items| :: items[k] == planned[k]
        invariant forall k | 0 <= k < n :: items[k] == Undone(planned[k], was)
        invariant accounts == was - Deletable(planned[..n], was)
        invariant guarded == 0 <==> AllUntouched(planned[..n], was)
      {
        var item := items[n];
        assert planned[..n + 1] == planned[..n] + [item];
        if item.status != ItemStatus.Created || item.accountId.None? {
          SkipChangesNothing(planned[..n], item, was);
          continue;
        }
        var a := item.accountId.value;
        NotCreditedTwice(planned, n, a);
        OneMore(planned[..n], item, a, was);
        if a in accounts && accounts[a].version == 1 {
          accounts := accounts - {a};
          items := items[n := item.(status := ItemStatus.RolledBack, accountId := None)];
        } else {
          guarded := guarded + 1;
        }
      }
      assert planned[..|planned|] == planned;
      UndoneMeans(planned, items, was);
      NoneGuarded(planned, items, was);
    }

    /** Deletes the accounts of the batch that are still on their first version. */
    method RollbackImportBatch(b: nat) returns (res: Result<Batch, ImportError>)
      requires Valid()
      modifies this`accounts, this`batches
      ensures Valid()
      ensures res == Err(BatchNotFound) <==> b >= |old(batches)|
      ensures res == Err(NotRollbackable) <==>
                b < |old(batches)| && old(batches)[b].status !in {Completed, Partial}
      ensures res.Err? ==> res.error in {BatchNotFound, NotRollbackable}
      ensures res.Err? ==> accounts == old(accounts) && batches == old(batches)
      ensures res.Ok? ==>
                && batches == old(batches)[b := res.value]
                && accounts == old(accounts) - Deletable(old(batches)[b].items, old(accounts))
                && |res.value.items| == |old(batches)[b].items|
                && (forall k | 0 <= k < |res.value.items| ::
                      res.value.items[k] == Undone(old(batches)[b].items[k], old(accounts)))
                && UndoesAll(old(batches)[b].items, res.value.items, old(accounts), accounts)
                && res.value == old(batches)[b].(status := res.value.status, items := res.value.items)
                && res.value.status in {Partial, BatchStatus.RolledBack}
                && (res.value.status == BatchStatus.RolledBack <==> AllUntouched(old(batches)[b].items, old(accounts)))
                && (res.value.status == BatchStatus.RolledBack <==>
                    forall k | 0 <= k < |res.value.items| ::
                      res.value.items[k].status == ItemStatus.Created ==> res.value.items[k].accountId.None?)
    {
      if b >= |batches| { return Err(BatchNotFound); }
      var batch := batches[b];
      if batch.status !in {Completed, Partial} { return Err(NotRollbackable); }
      var items, guarded := RollbackItems(batch.items);
      batch := batch.(status := if guarded > 0 then Partial else BatchStatus.RolledBack, items := items);
      batches := batches[b := batch];
      res := Ok(batch);
    }

    /** Committing a planned batch and rolling it back at once leaves the accounts as they were, whatever failed. */
    method CommitThenRollback(b: nat, works: nat -> bool)
      returns (committed: Result<Batch, ImportError>, undone: Result<Batch, ImportError>)
      requires Valid() && b < |batches| && batches[b].status == Validated
      modifies this`accounts, this`nextId, this`batches
      ensures Valid() && accounts == old(accounts)
      ensures committed.Ok? && (undone.Err? <==> committed.value.status == BatchStatus.Failed)
      ensures undone.Ok? ==> undone.value.status == BatchStatus.RolledBack
    {
      ghost var was, before := accounts, batches[b];
      committed := CommitImportBatch(b, works);
      RollbackRestores(before, committed.value, was, aliases, accounts);
      undone := RollbackImportBatch(b);
    }
  }

  lemma RollbackRestores(before: Batch, after: Batch, was: Accounts, aliases: set<string>, is_: Accounts)
    requires FreshItems(before.items) && Commits(before, after, was, aliases, is_)
    ensures after.status in {Completed, Partial, BatchStatus.Failed}
    ensures if after.status == BatchStatus.Failed then is_ == was
            else is_ - Deletable(after.items, is_) == was && AllUntouched(after.items, is_)
  {
    if after.status == BatchStatus.Failed {
      NothingCreated(was, aliases, is_, after.items);
    } else {
      RollbackUndoesCommit(was, aliases, is_, before.items, after.items);
      CreationsUntouched(was, aliases, is_, before.items, after.items);
    }
  }

  lemma CreationsUntouched(was: Accounts, aliases: set<string>, is_: Accounts, before: seq<Item>, after: seq<Item>)
    requires |before| == |after| && FreshItems(before)
    requires forall k | 0 <= k < |before| :: Settled(before[k], after[k], was, aliases, is_)
    ensures AllUntouched(after, is_)
  {
    forall a: nat | CreatedBy(after, a) ensures a in is_ && is_[a].version == 1 {
      var k :| 0 <= k < |after| && after[k].status == ItemStatus.Created && after[k].accountId == Some(a);
      assert Settled(before[k], after[k], was, aliases, is_);
    }
  }

  /** Every account the items created still exists on its first version. */
  ghost predicate AllUntouched(items: seq<Item>, accounts: Accounts) {
    forall a: nat | CreatedBy(items, a) :: a in accounts && accounts[a].version == 1
  }

  lemma CreatedByMore(items: seq<Item>, item: Item)
    ensures forall a: nat :: CreatedBy(items + [item], a) <==>
                        CreatedBy(items, a) || (item.status == ItemStatus.Created && item.accountId == Some(a))
  {
    forall a: nat | CreatedBy(items, a) ensures CreatedBy(items + [item], a) {
      var k :| 0 <= k < |items| && items[k].status == ItemStatus.Created && items[k].accountId == Some(a);
      assert (items + [item])[k] == items[k];
    }
    assert (items + [item])[|items|] == item;
  }

  lemma SkipChangesNothing(items: seq<Item>, item: Item, was: Accounts)
    requires item.status != ItemStatus.Created || item.accountId.None?
    ensures Deletable(items + [item], was) == Deletable(items, was)
    ensures AllUntouched(items + [item], was) == AllUntouched(items, was)
  {
    CreatedByMore(items, item);
  }

  lemma OneMore(items: seq<Item>, item: Item, a: nat, was: Accounts)
    requires item.status == ItemStatus.Created && item.accountId == Some(a) && !CreatedBy(items, a)
    ensures a in was - Deletable(items, was) <==> a in was
    ensures was - Deletable(items + [item], was)
            == if a in was && was[a].version == 1 then was - Deletable(items, was) - {a}
               else was - Deletable(items, was)
    ensures AllUntouched(items + [item], was) <==>
            AllUntouched(items, was) && a in was && was[a].version == 1
  {
    CreatedByMore(items, item);
    assert Deletable(items + [item], was)
        == Deletable(items, was) + if a in was && was[a].version == 1 then {a} else {};
    assert CreatedBy(items + [item], a);
  }

  lemma NotCreditedTwice(items: seq<Item>, n: nat, a: nat)
    requires DistinctIds(items) && n < |items|
    requires items[n].status == ItemStatus.Created && items[n].accountId == Some(a)
    ensures !CreatedBy(items[..n], a)
  {
  }
}
