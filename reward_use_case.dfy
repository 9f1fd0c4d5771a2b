/** RewardUseCase: the reward catalogue operations as the HTTP layer sees them. */
module RewardUseCase {
  import opened Common
  import opened Paging
  import opened Results
  import opened Entities
  import opened Store
  import opened Dtos
  import RewardMapper
  import RewardRepository

  /** `CreateAsync`: adds the requested reward and answers 201 with it. */
  method CreateAsync(db: Database, request: RewardCreateUpdateDto, now: Timestamp)
    returns (r: OperationResult<Option<RewardResponseDto>>)
    requires db.Valid()
    modifies db
    ensures db.Valid()
    ensures r.Success? && r.statusCode == 201 && r.value.Some?
    ensures r.value.value == RewardResponseDto(old(db.nextRewardId), request.name, request.description,
                                               request.pointCost, request.stockQuantity)
    ensures db.rewards == old(db.rewards)[old(db.nextRewardId) :=
              RewardRepository.Registered(RewardMapper.ToEntity(request), old(db.nextRewardId), now)]
    ensures RewardRepository.GetByIdAsync(db.rewards, old(db.nextRewardId)).Ok?
    ensures db.nextRewardId == old(db.nextRewardId) + 1
    ensures db.users == old(db.users) && db.teams == old(db.teams) && db.redemptions == old(db.redemptions)
    ensures db.nextUserId == old(db.nextUserId) && db.nextTeamId == old(db.nextTeamId)
    ensures db.nextRedemptionId == old(db.nextRedemptionId)
  {
    var created := RewardRepository.CreateAsync(db, RewardMapper.ToEntity(request), now);
    r := Success(Some(RewardMapper.ToResponseDto(created)), 201);
  }

  /** `DeleteAsync`: soft-deletes the reward; a missing or deleted one is 404. */
  method DeleteAsync(db: Database, id: int, now: Timestamp) returns (r: OperationResult<Option<RewardResponseDto>>)
    requires db.Valid()
    modifies db
    ensures db.Valid()
    ensures r.Success? <==> id in old(db.rewards) && old(db.rewards)[id].isActive != Inactive
    ensures r.Failure? ==>
              r == Failure(IdMessage("Recompensa", id, "não encontrada para deletar."), 404) && db.rewards == old(db.rewards)
    ensures r.Success? ==>
              && db.rewards == old(db.rewards)[id := old(db.rewards)[id].(isActive := Inactive, updatedAt := Some(now))]
              && r == Success(Some(RewardMapper.ToResponseDto(db.rewards[id])))
    ensures db.nextRewardId == old(db.nextRewardId)
    ensures db.users == old(db.users) && db.teams == old(db.teams) && db.redemptions == old(db.redemptions)
    ensures db.nextUserId == old(db.nextUserId) && db.nextTeamId == old(db.nextTeamId)
    ensures db.nextRedemptionId == old(db.nextRedemptionId)
  {
    var deleted := RewardRepository.DeleteAsync(db, id, now);
    match deleted
    case Err(e) => r := CatchIdNotFound(e);
    case Ok(w) => r := Success(Some(RewardMapper.ToResponseDto(w)));
  }

  /** `GetAllAsync`: the page of active rewards, cheapest first, as DTOs: the
      DTOs of the catalogue window starting at `offset`. */
  function GetAllAsync(rewards: map<int, RewardEntity>, next: int, offset: int, take: int)
    : (r: OperationResult<PageResult<RewardResponseDto>>)
    requires RewardsKeyed(rewards, next)
    ensures r.Success? && r.statusCode == 200
    ensures r.value.total == |set k | k in rewards && rewards[k].isActive == Active|
    ensures r.value.offset == offset && r.value.take == take
    ensures |r.value.data| > 0 ==> Max(0, offset) + |r.value.data| <= |RewardRepository.Catalogue(rewards, next)|
    ensures forall i :: 0 <= i < |r.value.data| ==>
              r.value.data[i] == RewardMapper.ToResponseDto(RewardRepository.Catalogue(rewards, next)[Max(0, offset) + i])
    ensures |r.value.data| == Min(Max(0, take), Max(0, r.value.total - Max(0, offset)))
    ensures forall i :: 0 <= i < |r.value.data| ==>
              && r.value.data[i].id in rewards && rewards[r.value.data[i].id].isActive == Active
              && r.value.data[i] == RewardMapper.ToResponseDto(rewards[r.value.data[i].id])
    ensures forall i, j :: 0 <= i < j < |r.value.data| ==> r.value.data[i].pointCost <= r.value.data[j].pointCost
    ensures forall i, j :: 0 <= i < j < |r.value.data| ==> r.value.data[i].id != r.value.data[j].id
  {
    var page := RewardRepository.GetAllAsync(rewards, next, offset, take);
    var data := MapSeq(page.data, RewardMapper.ToResponseDto);
    MapWindow(page.data, RewardRepository.Catalogue(rewards, next), offset, take, page.total, RewardMapper.ToResponseDto);
    PageDtos(rewards, page.data);
    Success(PageResult(data, page.offset, page.take, page.total))
  }

  /** The DTOs of a page of stored active rewards, cheapest first and each
      listed once, are again those rewards' DTOs, cheapest first and each
      listed once. */
  lemma PageDtos(rewards: map<int, RewardEntity>, page: seq<RewardEntity>)
    requires SortedBy(page, RewardRepository.ByPointCost)
    requires forall i :: 0 <= i < |page| ==>
               page[i].isActive == Active && page[i].id in rewards && rewards[page[i].id] == page[i]
    requires forall i, j :: 0 <= i < j < |page| ==> page[i].id != page[j].id
    ensures var data := MapSeq(page, RewardMapper.ToResponseDto);
      && (forall i :: 0 <= i < |data| ==>
            && data[i].id in rewards && rewards[data[i].id].isActive == Active
            && data[i] == RewardMapper.ToResponseDto(rewards[data[i].id]))
      && (forall i, j :: 0 <= i < j < |data| ==> data[i].pointCost <= data[j].pointCost)
      && (forall i, j :: 0 <= i < j < |data| ==> data[i].id != data[j].id)
  {
    var data := MapSeq(page, RewardMapper.ToResponseDto);
    assert forall i :: 0 <= i < |data| ==> data[i].id == page[i].id && data[i].pointCost == page[i].pointCost;
  }

  /** `GetByIdAsync`: the active reward with this id. The repository throws
      `NoContentException` (with a user's message), so not found is 500. */
  function GetByIdAsync(rewards: map<int, RewardEntity>, id: int): (r: OperationResult<Option<RewardResponseDto>>)
    ensures r.Success? <==> id in rewards && rewards[id].isActive == Active
    ensures r.Success? ==> r == Success(Some(RewardMapper.ToResponseDto(rewards[id])))
    ensures r.Failure? ==> r == Failure("Erro interno: " + UserNotFoundMessage, 500)
  {
    match RewardRepository.GetByIdAsync(rewards, id)
    case Err(e) => CatchIdNotFound(e)
    case Ok(w) => Success(Some(RewardMapper.ToResponseDto(w)))
  }

  /** `UpdateAsync`: overwrites an active reward with the request; a missing or
      deleted one is 404. The answer echoes the request under the reward's id. */
  method UpdateAsync(db: Database, id: int, request: RewardCreateUpdateDto, now: Timestamp)
    returns (r: OperationResult<Option<RewardResponseDto>>)
    requires db.Valid()
    modifies db
    ensures db.Valid()
    ensures r.Success? <==> id in old(db.rewards) && old(db.rewards)[id].isActive == Active
    ensures r.Failure? ==>
              r == Failure(IdMessage("Recompensa", id, "não encontrada para atualizar."), 404) && db.rewards == old(db.rewards)
    ensures r.Success? ==>
              && db.rewards == old(db.rewards)[id := RewardRepository.ApplyUpdate(old(db.rewards)[id], RewardMapper.ToEntity(request), now)]
              && r == Success(Some(RewardResponseDto(id, request.name, request.description, request.pointCost, request.stockQuantity)))
    ensures db.nextRewardId == old(db.nextRewardId)
    ensures db.users == old(db.users) && db.teams == old(db.teams) && db.redemptions == old(db.redemptions)
    ensures db.nextUserId == old(db.nextUserId) && db.nextTeamId == old(db.nextTeamId)
    ensures db.nextRedemptionId == old(db.nextRedemptionId)
  {
    var updated := RewardRepository.UpdateAsync(db, id, RewardMapper.ToEntity(request), now);
    match updated
    case None => r := Failure(IdMessage("Recompensa", id, "não encontrada para atualizar."), 404);
    case Some(w) => r := Success(Some(RewardMapper.ToResponseDto(w)));
  }
}
