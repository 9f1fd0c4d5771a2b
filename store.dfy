/** The database behind the repositories (`ApplicationContext` and its four
    tables), held in memory. Identity columns start at 1 and step by 1, so
    each table keeps the next key it will hand out. */
module Store {
  import opened Entities

  /** Every key is an issued identity value and is the row's own `Id`. */
  predicate UsersKeyed(users: map<int, UserEntity>, next: int) {
    forall k :: k in users ==> 1 <= k < next && users[k].id == k
  }

  predicate RewardsKeyed(rewards: map<int, RewardEntity>, next: int) {
    forall k :: k in rewards ==> 1 <= k < next && rewards[k].id == k
  }

  predicate TeamsKeyed(teams: map<int, TeamEntity>, next: int) {
    forall k :: k in teams ==> 1 <= k < next && teams[k].id == k
  }

  /** The unique index on `Email` (it covers soft-deleted users too). */
  predicate EmailsUnique(users: map<int, UserEntity>) {
    forall j, k :: j in users && k in users && users[j].email == users[k].email ==> j == k
  }

  /** The unique index on `TeamName`. */
  predicate TeamNamesUnique(teams: map<int, TeamEntity>) {
    forall j, k :: j in teams && k in teams && teams[j].teamName == teams[k].teamName ==> j == k
  }

  /** The redemption ledger: rows in insertion order with increasing issued
      ids, each referencing an existing user and reward (the two foreign keys),
      none carrying a loaded navigation property. */
  predicate LedgerConsistent(redemptions: seq<RewardRedemptionEntity>, users: map<int, UserEntity>,
                             rewards: map<int, RewardEntity>, next: int) {
    && (forall i :: 0 <= i < |redemptions| ==>
          && 1 <= redemptions[i].id < next
          && redemptions[i].userId in users
          && redemptions[i].rewardId in rewards
          && redemptions[i].reward.None?)
    && (forall i, j :: 0 <= i < j < |redemptions| ==> redemptions[i].id < redemptions[j].id)
  }

  /** Every ledger row references a reward that `Include` can load. */
  predicate RewardsLoadable(redemptions: seq<RewardRedemptionEntity>, rewards: map<int, RewardEntity>) {
    forall i :: 0 <= i < |redemptions| ==> redemptions[i].rewardId in rewards
  }

  class Database {
    var users: map<int, UserEntity>
    var rewards: map<int, RewardEntity>
    var teams: map<int, TeamEntity>
    var redemptions: seq<RewardRedemptionEntity>
    var nextUserId: int
    var nextRewardId: int
    var nextTeamId: int
    var nextRedemptionId: int

    /** What the database guarantees of its contents at every commit. */
    ghost predicate Valid()
      reads this
    {
      && 1 <= nextUserId && 1 <= nextRewardId && 1 <= nextTeamId && 1 <= nextRedemptionId
      && UsersKeyed(users, nextUserId) && EmailsUnique(users)
      && RewardsKeyed(rewards, nextRewardId)
      && TeamsKeyed(teams, nextTeamId) && TeamNamesUnique(teams)
      && LedgerConsistent(redemptions, users, rewards, nextRedemptionId)
    }

    /** An empty database. */
    constructor ()
      ensures Valid()
      ensures users == map[] && rewards == map[] && teams == map[] && redemptions == []
      ensures nextUserId == 1 && nextRewardId == 1 && nextTeamId == 1 && nextRedemptionId == 1
    {
      users, rewards, teams, redemptions := map[], map[], map[], [];
      nextUserId, nextRewardId, nextTeamId, nextRedemptionId := 1, 1, 1, 1;
    }
  }

  /** A consistent ledger lets every row's reward be loaded. */
  lemma LedgerLoadable(redemptions: seq<RewardRedemptionEntity>, users: map<int, UserEntity>,
                       rewards: map<int, RewardEntity>, next: int)
    requires LedgerConsistent(redemptions, users, rewards, next)
    ensures RewardsLoadable(redemptions, rewards)
  {
  }
}
