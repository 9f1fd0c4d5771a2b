/** TeamUseCase: the team operations as the HTTP layer sees them. */
module TeamUseCase {
  import opened Common
  import opened Text
  import opened Paging
  import opened Results
  import opened Entities
  import opened Store
  import opened Dtos
  import TeamMapper
  import TeamRepository

  /** `CreateAsync`: adds the team and answers 201; a name already taken makes
      the save fail, 500. */
  method CreateAsync(db: Database, request: TeamCreateUpdateDto) returns (r: OperationResult<Option<TeamResponseDto>>)
    requires db.Valid()
    modifies db
    ensures db.Valid()
    ensures r.Success? <==> !TeamRepository.NameInUse(old(db.teams), request.teamName)
    ensures r.Failure? ==> r == Failure("Erro interno: " + SaveChangesFailed, 500) && db.teams == old(db.teams)
    ensures r.Success? ==>
              && r == Success(Some(TeamResponseDto(old(db.nextTeamId), request.teamName)), 201)
              && db.teams == old(db.teams)[old(db.nextTeamId) := TeamEntity(old(db.nextTeamId), request.teamName)]
    ensures db.nextTeamId == old(db.nextTeamId) + (if r.Success? then 1 else 0)
    ensures db.users == old(db.users) && db.rewards == old(db.rewards) && db.redemptions == old(db.redemptions)
    ensures db.nextUserId == old(db.nextUserId) && db.nextRewardId == old(db.nextRewardId)
    ensures db.nextRedemptionId == old(db.nextRedemptionId)
  {
    var created := TeamRepository.CreateAsync(db, TeamMapper.ToEntity(request));
    match created
    case Err(e) => r := InternalError(e);
    case Ok(t) => r := Success(Some(TeamMapper.ToResponseDto(t)), 201);
  }

  /** `DeleteAsync`: removes the team and unassigns its members; a missing one is 404. */
  method DeleteAsync(db: Database, id: int) returns (r: OperationResult<Option<TeamResponseDto>>)
    requires db.Valid()
    modifies db
    ensures db.Valid()
    ensures r.Success? <==> id in old(db.teams)
    ensures r.Failure? ==>
              r == Failure(TeamRepository.NotFoundMessage(id), 404) && db.teams == old(db.teams)
    ensures r.Success? ==>
              && r == Success(Some(TeamMapper.ToResponseDto(old(db.teams)[id])))
              && db.teams == old(db.teams) - {id}
              && db.users == TeamRepository.Unassigned(old(db.users), id)
    ensures r.Failure? ==> db.users == old(db.users)
    ensures db.nextTeamId == old(db.nextTeamId) && db.nextUserId == old(db.nextUserId)
    ensures db.rewards == old(db.rewards) && db.redemptions == old(db.redemptions)
    ensures db.nextRewardId == old(db.nextRewardId) && db.nextRedemptionId == old(db.nextRedemptionId)
  {
    var deleted := TeamRepository.DeleteAsync(db, id);
    match deleted
    case Err(e) => r := CatchIdNotFound(e);
    case Ok(t) => r := Success(Some(TeamMapper.ToResponseDto(t)));
  }

  /** `GetAllAsync`: the page of all teams ordered by name, as DTOs: the DTOs
      of the name listing's window starting at `offset`. */
  function GetAllAsync(teams: map<int, TeamEntity>, next: int, offset: int, take: int)
    : (r: OperationResult<PageResult<TeamResponseDto>>)
    requires TeamsKeyed(teams, next)
    ensures r.Success? && r.statusCode == 200
    ensures r.value.total == |teams| && r.value.offset == offset && r.value.take == take
    ensures |r.value.data| > 0 ==> Max(0, offset) + |r.value.data| <= |TeamRepository.Listing(teams, next)|
    ensures forall i :: 0 <= i < |r.value.data| ==>
              r.value.data[i] == TeamMapper.ToResponseDto(TeamRepository.Listing(teams, next)[Max(0, offset) + i])
    ensures |r.value.data| == Min(Max(0, take), Max(0, |teams| - Max(0, offset)))
    ensures forall i :: 0 <= i < |r.value.data| ==>
              r.value.data[i].id in teams && r.value.data[i] == TeamMapper.ToResponseDto(teams[r.value.data[i].id])
    ensures forall i, j :: 0 <= i < j < |r.value.data| ==> StrLe(r.value.data[i].teamName, r.value.data[j].teamName)
    ensures forall i, j :: 0 <= i < j < |r.value.data| ==> r.value.data[i].id != r.value.data[j].id
  {
    var page := TeamRepository.GetAllAsync(teams, next, offset, take);
    var data := MapSeq(page.data, TeamMapper.ToResponseDto);
    MapWindow(page.data, TeamRepository.Listing(teams, next), offset, take, page.total, TeamMapper.ToResponseDto);
    PageDtos(teams, page.data);
    Success(PageResult(data, page.offset, page.take, page.total))
  }

  /** The DTOs of a page of stored teams, in name order and each listed once,
      are again the stored teams' DTOs, in name order and each listed once. */
  lemma PageDtos(teams: map<int, TeamEntity>, page: seq<TeamEntity>)
    requires SortedBy(page, TeamRepository.ByTeamName)
    requires forall i :: 0 <= i < |page| ==> page[i].id in teams && teams[page[i].id] == page[i]
    requires forall i, j :: 0 <= i < j < |page| ==> page[i].id != page[j].id
    ensures var data := MapSeq(page, TeamMapper.ToResponseDto);
      && (forall i :: 0 <= i < |data| ==> data[i].id in teams && data[i] == TeamMapper.ToResponseDto(teams[data[i].id]))
      && (forall i, j :: 0 <= i < j < |data| ==> StrLe(data[i].teamName, data[j].teamName))
      && (forall i, j :: 0 <= i < j < |data| ==> data[i].id != data[j].id)
  {
    var data := MapSeq(page, TeamMapper.ToResponseDto);
    assert forall i :: 0 <= i < |data| ==> data[i].id == page[i].id && data[i].teamName == page[i].teamName;
  }

  /** `GetByIdAsync`: the team with this id; a missing one is 404. */
  function GetByIdAsync(teams: map<int, TeamEntity>, id: int): (r: OperationResult<Option<TeamResponseDto>>)
    ensures r.Success? <==> id in teams
    ensures r.Success? ==> r == Success(Some(TeamMapper.ToResponseDto(teams[id])))
    ensures r.Failure? ==> r == Failure(TeamRepository.NotFoundMessage(id), 404)
  {
    match TeamRepository.GetByIdAsync(teams, id)
    case Err(e) => CatchIdNotFound(e)
    case Ok(t) => Success(Some(TeamMapper.ToResponseDto(t)))
  }

  /** `UpdateAsync`: renames an existing team; a missing one is 404, a name
      held by another team makes the save fail, 500. */
  method UpdateAsync(db: Database, id: int, request: TeamCreateUpdateDto)
    returns (r: OperationResult<Option<TeamResponseDto>>)
    requires db.Valid()
    modifies db
    ensures db.Valid()
    ensures id !in old(db.teams) ==> r == Failure(IdMessage("Time", id, "não encontrado para atualizar."), 404)
    ensures id in old(db.teams) && TeamRepository.NameInUseByOther(old(db.teams), request.teamName, id) ==>
              r == Failure("Erro interno: " + SaveChangesFailed, 500)
    ensures r.Success? <==> id in old(db.teams) && !TeamRepository.NameInUseByOther(old(db.teams), request.teamName, id)
    ensures r.Failure? ==> db.teams == old(db.teams)
    ensures r.Success? ==>
              && db.teams == old(db.teams)[id := TeamEntity(id, request.teamName)]
              && r == Success(Some(TeamResponseDto(id, request.teamName)))
    ensures db.nextTeamId == old(db.nextTeamId)
    ensures db.users == old(db.users) && db.rewards == old(db.rewards) && db.redemptions == old(db.redemptions)
    ensures db.nextUserId == old(db.nextUserId) && db.nextRewardId == old(db.nextRewardId)
    ensures db.nextRedemptionId == old(db.nextRedemptionId)
  {
    var updated := TeamRepository.UpdateAsync(db, id, TeamMapper.ToEntity(request));
    match updated
    case Err(e) => r := InternalError(e);
    case Ok(None) => r := Failure(IdMessage("Time", id, "não encontrado para atualizar."), 404);
    case Ok(Some(t)) => r := Success(Some(TeamMapper.ToResponseDto(t)));
  }
}
