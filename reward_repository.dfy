/** RewardRepository: the reward catalogue, soft-deleted like users. */
module RewardRepository {
  import opened Common
  import opened Paging
  import opened Results
  import opened Entities
  import opened Store

  /** `GetByIdAsync`: the active reward with this id, else `NoContentException`
      (whose message, as written, speaks of a user). */
  function GetByIdAsync(rewards: map<int, RewardEntity>, id: int): (r: Result<RewardEntity>)
    ensures r.Ok? <==> id in rewards && rewards[id].isActive == Active
    ensures r.Ok? ==> r.value == rewards[id]
    ensures r.Err? ==> r.error == NoContent(UserNotFoundMessage)
  {
    if id in rewards && rewards[id].isActive == Active then Ok(rewards[id])
    else Err(NoContent(UserNotFoundMessage))
  }

  /** `OrderBy(r => r.PointCost)`. */
  predicate ByPointCost(a: RewardEntity, b: RewardEntity) {
    a.pointCost <= b.pointCost
  }

  lemma ByPointCostOrders()
    ensures TotalPreorder(ByPointCost)
  {
  }

  /** The active rewards in key order: the query both the count and the page run on. */
  function ActiveRows(rewards: map<int, RewardEntity>, next: int): seq<RewardEntity> {
    Filter(RowsUpTo(rewards, next), (r: RewardEntity) => r.isActive == Active)
  }

  /** A row of a catalogue page is a stored, active reward. */
  lemma ListedRewardIsStored(rewards: map<int, RewardEntity>, next: int, offset: int, take: int, x: RewardEntity)
    requires RewardsKeyed(rewards, next)
    requires x in Slice(SortBy(ActiveRows(rewards, next), ByPointCost), offset, take)
    ensures x.id in rewards && rewards[x.id] == x && x.isActive == Active
  {
    PagedRowIsInput(ActiveRows(rewards, next), ByPointCost, offset, take, x);
    var i :| 0 <= i < |ActiveRows(rewards, next)| && ActiveRows(rewards, next)[i] == x;
    RowIsEntry(rewards, next, x);
  }

  /** The ordered query the catalogue page is cut from: the active rewards,
      cheapest first, each listed exactly once. */
  function Catalogue(rewards: map<int, RewardEntity>, next: int): (s: seq<RewardEntity>)
    requires RewardsKeyed(rewards, next)
    ensures |s| == |set k | k in rewards && rewards[k].isActive == Active|
    ensures SortedBy(s, ByPointCost)
    ensures forall i :: 0 <= i < |s| ==> s[i].isActive == Active && s[i].id in rewards && rewards[s[i].id] == s[i]
    ensures forall i, j :: 0 <= i < j < |s| ==> s[i].id != s[j].id
  {
    var isLive := (r: RewardEntity) => r.isActive == Active;
    var rows := RowsUpTo(rewards, next);
    var active := ActiveRows(rewards, next);
    var sorted := SortBy(active, ByPointCost);
    FilterRowsCount(rewards, next, isLive);
    assert KeysWhere(rewards, next, isLive) == set k | k in rewards && rewards[k].isActive == Active;
    ByPointCostOrders();
    SortBySorted(active, ByPointCost);
    SortByPermutation(active, ByPointCost);
    forall i | 0 <= i < |sorted|
      ensures sorted[i].isActive == Active && sorted[i].id in rewards && rewards[sorted[i].id] == sorted[i]
    {
      assert sorted[i] in multiset(active);
      RowIsEntry(rewards, next, sorted[i]);
    }
    RowsUpToDistinct(rewards, next, (r: RewardEntity) => r.id);
    FilterDistinct(rows, isLive);
    PermutationDistinct(active, sorted);
    sorted
  }

  /** No active stored reward is missing from `Catalogue`. */
  lemma CatalogueComplete(rewards: map<int, RewardEntity>, next: int, k: int)
    requires RewardsKeyed(rewards, next) && k in rewards && rewards[k].isActive == Active
    ensures rewards[k] in Catalogue(rewards, next)
  {
    var rows := RowsUpTo(rewards, next);
    var active := ActiveRows(rewards, next);
    RowsUpToContains(rewards, next, k);
    var i :| 0 <= i < |rows| && rows[i] == rewards[k];
    assert rewards[k] in active;
    assert rewards[k] in multiset(active);
    SortByPermutation(active, ByPointCost);
  }

  /** `GetAllAsync`: the window of `Catalogue` starting at `offset`; `Total`
      counts the same active rewards. */
  function GetAllAsync(rewards: map<int, RewardEntity>, next: int, offset: int, take: int)
    : (page: PageResult<RewardEntity>)
    requires RewardsKeyed(rewards, next)
    ensures page.total == |set k | k in rewards && rewards[k].isActive == Active|
    ensures page.offset == offset && page.take == take
    ensures |page.data| > 0 ==> Max(0, offset) + |page.data| <= |Catalogue(rewards, next)|
    ensures forall i :: 0 <= i < |page.data| ==>
              page.data[i] == Catalogue(rewards, next)[Max(0, offset) + i]
    ensures |page.data| == Min(Max(0, take), Max(0, page.total - Max(0, offset)))
    ensures SortedBy(page.data, ByPointCost)
    ensures forall i :: 0 <= i < |page.data| ==>
              page.data[i].isActive == Active && page.data[i].id in rewards && rewards[page.data[i].id] == page.data[i]
    ensures forall i, j :: 0 <= i < j < |page.data| ==> page.data[i].id != page.data[j].id
  {
    var catalogue := Catalogue(rewards, next);
    var data := Slice(catalogue, offset, take);
    CataloguePage(rewards, catalogue, offset, take);
    PageResult(data, offset, take, |catalogue|)
  }

  /** A page cut from an ordered list of distinct stored active rewards is
      one too. */
  lemma CataloguePage(rewards: map<int, RewardEntity>, rows: seq<RewardEntity>, offset: int, take: int)
    requires SortedBy(rows, ByPointCost)
    requires forall i :: 0 <= i < |rows| ==>
               rows[i].isActive == Active && rows[i].id in rewards && rewards[rows[i].id] == rows[i]
    requires forall i, j :: 0 <= i < j < |rows| ==> rows[i].id != rows[j].id
    ensures SortedBy(Slice(rows, offset, take), ByPointCost)
    ensures forall i :: 0 <= i < |Slice(rows, offset, take)| ==>
              && Slice(rows, offset, take)[i].isActive == Active
              && Slice(rows, offset, take)[i].id in rewards
              && rewards[Slice(rows, offset, take)[i].id] == Slice(rows, offset, take)[i]
    ensures forall i, j :: 0 <= i < j < |Slice(rows, offset, take)| ==>
              Slice(rows, offset, take)[i].id != Slice(rows, offset, take)[j].id
  {
    SliceSorted(rows, offset, take, ByPointCost);
    SliceAll(rows, offset, take, (r: RewardEntity) => r.isActive == Active && r.id in rewards && rewards[r.id] == r);
    SliceDistinct(rows, offset, take, (r: RewardEntity) => r.id);
  }

  /** The row `CreateAsync` stores: the new identity value, `CreatedAt`
      stamped, `IsActive` defaulted to 'Y' when unset. */
  function Registered(reward: RewardEntity, id: int, now: Timestamp): (r: RewardEntity)
    ensures r.id == id && r.createdAt == now
    ensures r.isActive == (if reward.isActive == UnsetChar then Active else reward.isActive)
    ensures r.(id := reward.id, createdAt := reward.createdAt, isActive := reward.isActive) == reward
  {
    reward.(id := id, createdAt := now, isActive := if reward.isActive == UnsetChar then Active else reward.isActive)
  }

  /** `CreateAsync`: inserts the reward under the next identity value. */
  method CreateAsync(db: Database, reward: RewardEntity, now: Timestamp) returns (r: RewardEntity)
    requires db.Valid()
    modifies db
    ensures db.Valid()
    ensures r == Registered(reward, old(db.nextRewardId), now)
    ensures r.id !in old(db.rewards)
    ensures db.rewards == old(db.rewards)[r.id := r] && db.nextRewardId == old(db.nextRewardId) + 1
    ensures reward.isActive == UnsetChar || reward.isActive == Active ==> GetByIdAsync(db.rewards, r.id) == Ok(r)
    ensures db.users == old(db.users) && db.teams == old(db.teams) && db.redemptions == old(db.redemptions)
    ensures db.nextUserId == old(db.nextUserId) && db.nextTeamId == old(db.nextTeamId)
    ensures db.nextRedemptionId == old(db.nextRedemptionId)
  {
    r := Registered(reward, db.nextRewardId, now);
    db.rewards := db.rewards[db.nextRewardId := r];
    db.nextRewardId := db.nextRewardId + 1;
  }

  /** `DeleteAsync`: soft delete; a missing or already deleted reward throws
      `IdNotFoundException`. The reward's redemptions stay. */
  method DeleteAsync(db: Database, id: int, now: Timestamp) returns (r: Result<RewardEntity>)
    requires db.Valid()
    modifies db
    ensures db.Valid()
    ensures r.Err? <==> id !in old(db.rewards) || old(db.rewards)[id].isActive == Inactive
    ensures r.Err? ==>
              r.error == IdNotFound(IdMessage("Recompensa", id, "não encontrada para deletar.")) && db.rewards == old(db.rewards)
    ensures r.Ok? ==>
              && r.value == old(db.rewards)[id].(isActive := Inactive, updatedAt := Some(now))
              && db.rewards == old(db.rewards)[id := r.value]
    ensures r.Ok? ==> GetByIdAsync(db.rewards, id).Err?
    ensures db.nextRewardId == old(db.nextRewardId)
    ensures db.users == old(db.users) && db.teams == old(db.teams) && db.redemptions == old(db.redemptions)
    ensures db.nextUserId == old(db.nextUserId) && db.nextTeamId == old(db.nextTeamId)
    ensures db.nextRedemptionId == old(db.nextRedemptionId)
  {
    if id !in db.rewards || db.rewards[id].isActive == Inactive {
      return Err(IdNotFound(IdMessage("Recompensa", id, "não encontrada para deletar.")));
    }
    var deleted := db.rewards[id].(isActive := Inactive, updatedAt := Some(now));
    db.rewards := db.rewards[id := deleted];
    r := Ok(deleted);
  }

  /** The fields `UpdateAsync` copies: name, description, cost and stock, and
      `UpdatedAt` from the clock. */
  function ApplyUpdate(existing: RewardEntity, incoming: RewardEntity, now: Timestamp): (r: RewardEntity)
    ensures r.id == existing.id && r.createdAt == existing.createdAt && r.isActive == existing.isActive
    ensures r.name == incoming.name && r.description == incoming.description
    ensures r.pointCost == incoming.pointCost && r.stockQuantity == incoming.stockQuantity
    ensures r.updatedAt == Some(now)
  {
    existing.(name := incoming.name, description := incoming.description, pointCost := incoming.pointCost,
      stockQuantity := incoming.stockQuantity, updatedAt := Some(now))
  }

  /** Two updates in a row leave what the second one says. */
  lemma ApplyUpdateLastWins(existing: RewardEntity, first: RewardEntity, second: RewardEntity, t1: Timestamp, t2: Timestamp)
    ensures ApplyUpdate(ApplyUpdate(existing, first, t1), second, t2) == ApplyUpdate(existing, second, t2)
  {
  }

  /** Writing back a stored reward with only its stock changed changes only the
      stock and the update time. */
  lemma ApplyStockChange(existing: RewardEntity, stock: Int32, now: Timestamp)
    ensures ApplyUpdate(existing, existing.(stockQuantity := stock), now)
         == existing.(stockQuantity := stock, updatedAt := Some(now))
  {
  }

  /** `UpdateAsync`: copies the fields onto an active reward and saves it; a
      missing or soft-deleted reward gives `null`. */
  method UpdateAsync(db: Database, id: int, reward: RewardEntity, now: Timestamp) returns (r: Option<RewardEntity>)
    requires db.Valid()
    modifies db
    ensures db.Valid()
    ensures r.None? <==> id !in old(db.rewards) || old(db.rewards)[id].isActive != Active
    ensures r.Some? ==>
              && r.value == ApplyUpdate(old(db.rewards)[id], reward, now)
              && db.rewards == old(db.rewards)[id := r.value]
              && GetByIdAsync(db.rewards, id) == Ok(r.value)
    ensures r.None? ==> db.rewards == old(db.rewards)
    ensures db.nextRewardId == old(db.nextRewardId)
    ensures db.users == old(db.users) && db.teams == old(db.teams) && db.redemptions == old(db.redemptions)
    ensures db.nextUserId == old(db.nextUserId) && db.nextTeamId == old(db.nextTeamId)
    ensures db.nextRedemptionId == old(db.nextRedemptionId)
  {
    if id in db.rewards && db.rewards[id].isActive == Active {
      var updated := ApplyUpdate(db.rewards[id], reward, now);
      db.rewards := db.rewards[id := updated];
      return Some(updated);
    }
    r := None;
  }
}
