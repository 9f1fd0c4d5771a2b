/** RewardRedemptionRepository: the append-only ledger of redemptions. */
module RedemptionRepository {
  import opened Common
  import opened Paging
  import opened Results
  import opened Entities
  import opened Store

  /** `CreateAsync`: appends the redemption under the next identity value; a
      user or reward that does not exist breaks a foreign key and the save throws. */
  method CreateAsync(db: Database, redemption: RewardRedemptionEntity) returns (r: Result<RewardRedemptionEntity>)
    requires db.Valid()
    modifies db
    ensures db.Valid()
    ensures r.Err? <==> redemption.userId !in old(db.users) || redemption.rewardId !in old(db.rewards)
    ensures r.Err? ==>
              r.error == SaveFailed(SaveChangesFailed)
              && db.redemptions == old(db.redemptions) && db.nextRedemptionId == old(db.nextRedemptionId)
    ensures r.Ok? ==>
              && r.value == redemption.(id := old(db.nextRedemptionId), reward := None)
              && db.redemptions == old(db.redemptions) + [r.value]
              && db.nextRedemptionId == old(db.nextRedemptionId) + 1
    ensures db.users == old(db.users) && db.rewards == old(db.rewards) && db.teams == old(db.teams)
    ensures db.nextUserId == old(db.nextUserId) && db.nextRewardId == old(db.nextRewardId)
    ensures db.nextTeamId == old(db.nextTeamId)
  {
    if redemption.userId !in db.users || redemption.rewardId !in db.rewards {
      return Err(SaveFailed(SaveChangesFailed));
    }
    var stored := redemption.(id := db.nextRedemptionId, reward := None);
    db.redemptions := db.redemptions + [stored];
    db.nextRedemptionId := db.nextRedemptionId + 1;
    r := Ok(stored);
  }

  /** `OrderByDescending(r => r.RedeemedAt)`. */
  predicate NewestFirst(a: RewardRedemptionEntity, b: RewardRedemptionEntity) {
    a.redeemedAt >= b.redeemedAt
  }

  lemma NewestFirstOrders()
    ensures TotalPreorder(NewestFirst)
  {
  }

  /** `Include(r => r.Reward)`: each row with its reward loaded, deleted or not. */
  function IncludeReward(rows: seq<RewardRedemptionEntity>, rewards: map<int, RewardEntity>)
    : (r: seq<RewardRedemptionEntity>)
    requires forall i :: 0 <= i < |rows| ==> rows[i].rewardId in rewards
    ensures |r| == |rows|
    ensures forall i :: 0 <= i < |r| ==> r[i] == rows[i].(reward := Some(rewards[rows[i].rewardId]))
  {
    seq(|rows|, i requires 0 <= i < |rows| => rows[i].(reward := Some(rewards[rows[i].rewardId])))
  }

  /** The user's redemptions in ledger order. */
  function History(redemptions: seq<RewardRedemptionEntity>, userId: int): seq<RewardRedemptionEntity> {
    Filter(redemptions, (r: RewardRedemptionEntity) => r.userId == userId)
  }

  /** Positions of the ledger holding a redemption of this user. */
  ghost function PositionsOf(redemptions: seq<RewardRedemptionEntity>, userId: int): set<int> {
    set i | 0 <= i < |redemptions| && redemptions[i].userId == userId
  }

  /** The ordered query the history page is cut from: the user's ledger rows
      with their rewards loaded, newest first, each as often as the ledger
      holds it. */
  function NewestHistory(redemptions: seq<RewardRedemptionEntity>, rewards: map<int, RewardEntity>, userId: int)
    : (s: seq<RewardRedemptionEntity>)
    requires RewardsLoadable(redemptions, rewards)
    ensures forall i :: 0 <= i < |History(redemptions, userId)| ==> History(redemptions, userId)[i].rewardId in rewards
    ensures |s| == |PositionsOf(redemptions, userId)|
    ensures forall i :: 0 <= i < |s| ==>
              && s[i].userId == userId
              && s[i].rewardId in rewards
              && s[i].reward == Some(rewards[s[i].rewardId])
              && s[i].(reward := None) in LedgerRowsWithout(redemptions)
  {
    var mine := History(redemptions, userId);
    HistoryRows(redemptions, rewards, userId);
    var loaded := IncludeReward(mine, rewards);
    var ledger := LedgerRowsWithout(redemptions);
    assert forall i :: 0 <= i < |loaded| ==> loaded[i].(reward := None) == mine[i].(reward := None);
    SortByAll(loaded, NewestFirst, (r: RewardRedemptionEntity) =>
      && r.userId == userId
      && r.rewardId in rewards
      && r.reward == Some(rewards[r.rewardId])
      && r.(reward := None) in ledger);
    SortBy(loaded, NewestFirst)
  }

  /** The user's rows in ledger order: one per ledger position of that user,
      each of that user, with a loadable reward, and each a stored ledger row. */
  lemma HistoryRows(redemptions: seq<RewardRedemptionEntity>, rewards: map<int, RewardEntity>, userId: int)
    requires RewardsLoadable(redemptions, rewards)
    ensures |History(redemptions, userId)| == |PositionsOf(redemptions, userId)|
    ensures forall i :: 0 <= i < |History(redemptions, userId)| ==>
              && History(redemptions, userId)[i].userId == userId
              && History(redemptions, userId)[i].rewardId in rewards
              && History(redemptions, userId)[i].(reward := None) in LedgerRowsWithout(redemptions)
  {
    var byUser := (r: RewardRedemptionEntity) => r.userId == userId;
    var mine := History(redemptions, userId);
    assert redemptions[..|redemptions|] == redemptions;
    FilterCount(redemptions, |redemptions|, byUser);
    assert IndicesWhere(redemptions, |redemptions|, byUser) == PositionsOf(redemptions, userId);
    forall i | 0 <= i < |mine|
      ensures mine[i].userId == userId && mine[i].rewardId in rewards
      ensures mine[i].(reward := None) in LedgerRowsWithout(redemptions)
    {
      var j :| 0 <= j < |redemptions| && redemptions[j] == mine[i];
      assert LedgerRowsWithout(redemptions)[j] == mine[i].(reward := None);
    }
  }

  /** `NewestHistory` only reorders the loaded rows of the user, and puts
      the newest first. */
  lemma NewestHistoryOrder(redemptions: seq<RewardRedemptionEntity>, rewards: map<int, RewardEntity>, userId: int)
    requires RewardsLoadable(redemptions, rewards)
    ensures forall i :: 0 <= i < |History(redemptions, userId)| ==> History(redemptions, userId)[i].rewardId in rewards
    ensures multiset(NewestHistory(redemptions, rewards, userId))
         == multiset(IncludeReward(History(redemptions, userId), rewards))
    ensures SortedBy(NewestHistory(redemptions, rewards, userId), NewestFirst)
  {
    var loaded := IncludeReward(History(redemptions, userId), rewards);
    NewestFirstOrders();
    SortBySorted(loaded, NewestFirst);
    SortByPermutation(loaded, NewestFirst);
  }

  /** `GetByUserIdAsync`: the window of `NewestHistory` starting at `offset`;
      `Total` counts all of the user's redemptions. */
  function GetByUserIdAsync(redemptions: seq<RewardRedemptionEntity>, rewards: map<int, RewardEntity>,
                            userId: int, offset: int, take: int): (page: PageResult<RewardRedemptionEntity>)
    requires RewardsLoadable(redemptions, rewards)
    ensures page.total == |PositionsOf(redemptions, userId)|
    ensures page.offset == offset && page.take == take
    ensures |page.data| > 0 ==> Max(0, offset) + |page.data| <= |NewestHistory(redemptions, rewards, userId)|
    ensures forall i :: 0 <= i < |page.data| ==>
              page.data[i] == NewestHistory(redemptions, rewards, userId)[Max(0, offset) + i]
    ensures |page.data| == Min(Max(0, take), Max(0, page.total - Max(0, offset)))
    ensures SortedBy(page.data, NewestFirst)
    ensures forall i :: 0 <= i < |page.data| ==>
              && page.data[i].userId == userId
              && page.data[i].rewardId in rewards
              && page.data[i].reward == Some(rewards[page.data[i].rewardId])
              && page.data[i].(reward := None) in LedgerRowsWithout(redemptions)
  {
    var history := NewestHistory(redemptions, rewards, userId);
    var data := Slice(history, offset, take);
    NewestHistoryOrder(redemptions, rewards, userId);
    SliceSorted(history, offset, take, NewestFirst);
    var ledger := LedgerRowsWithout(redemptions);
    SliceAll(history, offset, take, (r: RewardRedemptionEntity) =>
      && r.userId == userId
      && r.rewardId in rewards
      && r.reward == Some(rewards[r.rewardId])
      && r.(reward := None) in ledger);
    PageResult(data, offset, take, |history|)
  }

  /** The ledger rows with no navigation loaded. */
  function LedgerRowsWithout(redemptions: seq<RewardRedemptionEntity>): (r: seq<RewardRedemptionEntity>)
    ensures |r| == |redemptions|
    ensures forall i :: 0 <= i < |r| ==> r[i] == redemptions[i].(reward := None)
  {
    seq(|redemptions|, i requires 0 <= i < |redemptions| => redemptions[i].(reward := None))
  }

  /** Appending a redemption of `userId` adds one to that user's count and
      leaves every other user's count alone. */
  lemma AppendCounts(redemptions: seq<RewardRedemptionEntity>, x: RewardRedemptionEntity, userId: int)
    ensures |PositionsOf(redemptions + [x], userId)|
         == |PositionsOf(redemptions, userId)| + (if x.userId == userId then 1 else 0)
  {
    var s := redemptions + [x];
    var before := PositionsOf(redemptions, userId);
    var now := PositionsOf(s, userId);
    if x.userId == userId {
      assert now == before + {|redemptions|};
    } else {
      assert now == before;
    }
  }
}
