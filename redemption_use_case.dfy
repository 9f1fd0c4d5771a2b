/** RewardRedemptionUseCase: spending points on a reward, and a user's
    redemption history. */
module RedemptionUseCase {
  import opened Common
  import opened Paging
  import opened Results
  import opened Entities
  import opened Store
  import opened Dtos
  import Text
  import RedemptionMapper
  import UserRepository
  import RewardRepository
  import RedemptionRepository

  const InsufficientPoints: string := "Pontos insuficientes."
  const OutOfStock: string := "Recompensa fora de estoque."

  /** Both lookups of `RedeemAsync` succeed: the user and the reward exist and are active. */
  predicate Found(users: map<int, UserEntity>, rewards: map<int, RewardEntity>, userId: int, rewardId: int) {
    && userId in users && users[userId].isActive == Active
    && rewardId in rewards && rewards[rewardId].isActive == Active
  }

  /** A redemption goes through: both found, the balance covers the cost, and
      the reward is in stock. */
  predicate Redeemable(users: map<int, UserEntity>, rewards: map<int, RewardEntity>, userId: int, rewardId: int) {
    && Found(users, rewards, userId, rewardId)
    && users[userId].pointBalance >= rewards[rewardId].pointCost
    && rewards[rewardId].stockQuantity > 0
  }

  /** `RedeemAsync`: looks up the user and the reward, refuses when the points
      do not cover the cost or the stock is exhausted, and otherwise, step by
      step, debits the balance (32-bit, unchecked), takes one unit of stock,
      records the redemption and answers 201. */
  method RedeemAsync(db: Database, userId: int, rewardId: int, now: Timestamp)
    returns (r: OperationResult<Option<RedemptionResponseDto>>)
    requires db.Valid()
    modifies db
    ensures db.Valid()
    ensures r.Success? <==> Redeemable(old(db.users), old(db.rewards), userId, rewardId)
    ensures !Found(old(db.users), old(db.rewards), userId, rewardId) ==>
              r == Failure("Erro interno: " + UserNotFoundMessage, 500)
    ensures Found(old(db.users), old(db.rewards), userId, rewardId)
            && old(db.users)[userId].pointBalance < old(db.rewards)[rewardId].pointCost ==>
              r == Failure(InsufficientPoints, 400)
    ensures Found(old(db.users), old(db.rewards), userId, rewardId)
            && old(db.users)[userId].pointBalance >= old(db.rewards)[rewardId].pointCost
            && old(db.rewards)[rewardId].stockQuantity <= 0 ==>
              r == Failure(OutOfStock, 400)
    ensures r.Failure? ==>
              && db.users == old(db.users) && db.rewards == old(db.rewards) && db.redemptions == old(db.redemptions)
              && db.nextRedemptionId == old(db.nextRedemptionId)
    ensures r.Success? ==>
              var u := old(db.users)[userId];
              var w := old(db.rewards)[rewardId];
              var id := old(db.nextRedemptionId);
              && r == Success(Some(RedemptionResponseDto(id, rewardId, w.name, w.pointCost, now)), 201)
              && db.users == old(db.users)[userId := u.(pointBalance := Sub32(u.pointBalance, w.pointCost))]
              && db.rewards == old(db.rewards)[rewardId := w.(stockQuantity := w.stockQuantity - 1, updatedAt := Some(now))]
              && db.redemptions == old(db.redemptions) + [RewardRedemptionEntity(id, userId, rewardId, now, w.pointCost, None)]
              && db.nextRedemptionId == id + 1
    ensures r.Success? && old(db.rewards)[rewardId].pointCost >= 0 ==>
              db.users[userId].pointBalance as int
              == old(db.users)[userId].pointBalance as int - old(db.rewards)[rewardId].pointCost as int >= 0
    ensures r.Success? ==> db.rewards[rewardId].stockQuantity >= 0
    ensures r.Success? ==>
              |RedemptionRepository.PositionsOf(db.redemptions, userId)|
              == |RedemptionRepository.PositionsOf(old(db.redemptions), userId)| + 1
    ensures db.teams == old(db.teams)
    ensures db.nextUserId == old(db.nextUserId) && db.nextRewardId == old(db.nextRewardId)
    ensures db.nextTeamId == old(db.nextTeamId)
  {
    var user := UserRepository.GetByIdAsync(db.users, userId);
    if user.Err? {
      return InternalError(user.error);
    }
    var reward := RewardRepository.GetByIdAsync(db.rewards, rewardId);
    if reward.Err? {
      return InternalError(reward.error);
    }
    var u, w := user.value, reward.value;
    if u.pointBalance < w.pointCost {
      return Failure(InsufficientPoints, 400);
    }
    if w.stockQuantity <= 0 {
      return Failure(OutOfStock, 400);
    }
    ghost var ledger := db.redemptions;
    if w.pointCost >= 0 {
      SubNoWrap(u.pointBalance, w.pointCost);
    }
    var newPointBalance := Sub32(u.pointBalance, w.pointCost);
    var pointsSaved := UserRepository.UpdateUserPointsAsync(db, userId, newPointBalance);
    var taken := w.(stockQuantity := w.stockQuantity - 1);
    RewardRepository.ApplyStockChange(w, taken.stockQuantity, now);
    var rewardSaved := RewardRepository.UpdateAsync(db, rewardId, taken, now);
    var redemption := NewRedemptionEntity(now).(userId := userId, rewardId := rewardId,
      pointsSpent := w.pointCost, redeemedAt := now);
    var created := RedemptionRepository.CreateAsync(db, redemption);
    assert created.Ok?;
    var c := created.value;
    RedemptionRepository.AppendCounts(ledger, c, userId);
    r := Success(Some(RedemptionResponseDto(c.id, c.rewardId, w.name, c.pointsSpent, c.redeemedAt)), 201);
  }

  /** The row a successful `RedeemAsync` appends meets the `[Range]`
      annotations of its class exactly when the reward costs at least one
      point: nothing checks them on save, so a free reward records a row its
      own entity rules reject. */
  lemma RecordedRowValidity(users: map<int, UserEntity>, rewards: map<int, RewardEntity>,
                            nextUserId: int, nextRewardId: int, userId: int, rewardId: int, id: int, now: Timestamp)
    requires UsersKeyed(users, nextUserId) && RewardsKeyed(rewards, nextRewardId)
    requires nextUserId <= MaxInt32 + 1 && nextRewardId <= MaxInt32 + 1
    requires Redeemable(users, rewards, userId, rewardId)
    ensures ValidRedemption(RewardRedemptionEntity(id, userId, rewardId, now, rewards[rewardId].pointCost, None))
            <==> rewards[rewardId].pointCost >= 1
  {
  }

  /** A free reward: the redemption goes through and the recorded row is
      not a valid redemption. */
  lemma FreeRewardRecordsInvalidRow(now: Timestamp)
    ensures var users := map[1 := NewUserEntity().(id := 1, fullName := "Ana", isActive := Active)];
            var rewards := map[1 := NewRewardEntity().(id := 1, name := "Brinde", stockQuantity := 5, isActive := Active)];
            && Redeemable(users, rewards, 1, 1)
            && !ValidRedemption(RewardRedemptionEntity(1, 1, 1, now, rewards[1].pointCost, None))
  {
  }

  /** A reward with a negative cost passes its entity's rules, can be
      redeemed with no points at all, and redeeming it raises the balance. */
  lemma NegativeCostCredits(now: Timestamp)
    ensures var u := NewUserEntity().(id := 1, fullName := "Ana", isActive := Active);
            var w := NewRewardEntity().(id := 1, name := "Brinde", pointCost := -50, stockQuantity := 5, isActive := Active);
            && ValidReward(w)
            && Redeemable(map[1 := u], map[1 := w], 1, 1)
            && u.pointBalance == 0
            && Sub32(u.pointBalance, w.pointCost) == 50
  {
    Text.NonBlankWitness("Brinde", 0);
  }

  /** `Select(r => r.ToResponseDto())` over rows whose reward is loaded. */
  function ToResponseDtos(rows: seq<RewardRedemptionEntity>): (r: seq<RedemptionResponseDto>)
    requires forall i :: 0 <= i < |rows| ==> rows[i].reward.Some?
    ensures |r| == |rows|
    ensures forall i :: 0 <= i < |r| ==> r[i] == RedemptionMapper.ToResponseDto(rows[i])
  {
    seq(|rows|, i requires 0 <= i < |rows| => RedemptionMapper.ToResponseDto(rows[i]))
  }

  /** The entry shows a redemption of `userId` as the ledger holds it. */
  predicate Recorded(redemptions: seq<RewardRedemptionEntity>, userId: int, d: RedemptionResponseDto) {
    exists j :: 0 <= j < |redemptions| && redemptions[j].userId == userId
      && redemptions[j].id == d.id && redemptions[j].rewardId == d.rewardId
      && redemptions[j].pointsSpent == d.pointsSpent && redemptions[j].redeemedAt == d.redeemedAt
  }

  /** `GetUserRedemptionsAsync`: an unknown or deleted user is 500; otherwise
      one page of the user's redemptions, newest first, each naming its reward
      as it is now. */
  function GetUserRedemptionsAsync(users: map<int, UserEntity>, redemptions: seq<RewardRedemptionEntity>,
                                   rewards: map<int, RewardEntity>, userId: int, offset: int, take: int)
    : (r: OperationResult<PageResult<RedemptionResponseDto>>)
    requires RewardsLoadable(redemptions, rewards)
    ensures r.Success? <==> userId in users && users[userId].isActive == Active
    ensures r.Failure? ==> r == Failure("Erro interno: " + UserNotFoundMessage, 500)
    ensures r.Success? ==>
              && r.statusCode == 200
              && r.value.total == |RedemptionRepository.PositionsOf(redemptions, userId)|
              && r.value.offset == offset && r.value.take == take
              && |r.value.data| == Min(Max(0, take), Max(0, r.value.total - Max(0, offset)))
    ensures r.Success? && |r.value.data| > 0 ==>
              Max(0, offset) + |r.value.data| <= |RedemptionRepository.NewestHistory(redemptions, rewards, userId)|
    ensures r.Success? ==> forall i :: 0 <= i < |r.value.data| ==>
              r.value.data[i] == RedemptionMapper.ToResponseDto(RedemptionRepository.NewestHistory(redemptions, rewards, userId)[Max(0, offset) + i])
    ensures r.Success? ==> forall i :: 0 <= i < |r.value.data| ==>
              && r.value.data[i].rewardId in rewards
              && r.value.data[i].rewardName == rewards[r.value.data[i].rewardId].name
              && Recorded(redemptions, userId, r.value.data[i])
    ensures r.Success? ==> forall i, j :: 0 <= i < j < |r.value.data| ==>
              r.value.data[i].redeemedAt >= r.value.data[j].redeemedAt
  {
    match UserRepository.GetByIdAsync(users, userId)
    case Err(e) => InternalError(e)
    case Ok(_) =>
      var page := RedemptionRepository.GetByUserIdAsync(redemptions, rewards, userId, offset, take);
      var dtos := ToResponseDtos(page.data);
      HistoryDtos(redemptions, rewards, userId, page.data);
      Success(PageResult(dtos, page.offset, page.take, page.total))
  }

  /** The entries made from history rows of `userId`, loaded and newest first,
      name their rewards, are recorded in the ledger and stay newest first. */
  lemma HistoryDtos(redemptions: seq<RewardRedemptionEntity>, rewards: map<int, RewardEntity>, userId: int,
                    rows: seq<RewardRedemptionEntity>)
    requires SortedBy(rows, RedemptionRepository.NewestFirst)
    requires forall i :: 0 <= i < |rows| ==>
               && rows[i].userId == userId
               && rows[i].rewardId in rewards
               && rows[i].reward == Some(rewards[rows[i].rewardId])
               && rows[i].(reward := None) in RedemptionRepository.LedgerRowsWithout(redemptions)
    ensures forall i :: 0 <= i < |rows| ==> rows[i].reward.Some?
    ensures forall i :: 0 <= i < |ToResponseDtos(rows)| ==>
              var d := ToResponseDtos(rows)[i];
              d.rewardId in rewards && d.rewardName == rewards[d.rewardId].name && Recorded(redemptions, userId, d)
    ensures forall i, j :: 0 <= i < j < |ToResponseDtos(rows)| ==>
              ToResponseDtos(rows)[i].redeemedAt >= ToResponseDtos(rows)[j].redeemedAt
  {
    var dtos := ToResponseDtos(rows);
    forall i | 0 <= i < |dtos| ensures Recorded(redemptions, userId, dtos[i]) {
      var ledger := RedemptionRepository.LedgerRowsWithout(redemptions);
      var j :| 0 <= j < |ledger| && ledger[j] == rows[i].(reward := None);
      assert redemptions[j].(reward := None) == rows[i].(reward := None);
    }
  }
}
