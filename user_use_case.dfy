/** UserUseCase: the user operations as the HTTP layer sees them, each
    repository exception turned into a failed `OperationResult`. */
module UserUseCase {
  import opened Common
  import opened Text
  import opened Paging
  import opened Results
  import opened Entities
  import opened Store
  import opened Dtos
  import UserMapper
  import UserRepository

  /** `DeleteAsync`: soft-deletes the user; every exception, including the
      not-found one, becomes 500. */
  method DeleteAsync(db: Database, id: int, now: Timestamp) returns (r: OperationResult<Option<UserResponseDto>>)
    requires db.Valid()
    modifies db
    ensures db.Valid()
    ensures r.Success? <==> id in old(db.users) && old(db.users)[id].isActive != Inactive
    ensures r.Failure? ==>
              && r == Failure("Erro interno: " + IdMessage("Usuário", id, "não encontrado para deletar."), 500)
              && db.users == old(db.users)
    ensures r.Success? ==>
              && db.users == old(db.users)[id := old(db.users)[id].(isActive := Inactive, updatedAt := Some(now))]
              && r == Success(Some(UserMapper.ToResponseDto(db.users[id])))
    ensures db.nextUserId == old(db.nextUserId)
    ensures db.rewards == old(db.rewards) && db.teams == old(db.teams) && db.redemptions == old(db.redemptions)
    ensures db.nextRewardId == old(db.nextRewardId) && db.nextTeamId == old(db.nextTeamId)
    ensures db.nextRedemptionId == old(db.nextRedemptionId)
  {
    var deleted := UserRepository.DeleteAsync(db, id, now);
    match deleted
    case Err(e) => r := InternalError(e);
    case Ok(u) => r := Success(Some(UserMapper.ToResponseDto(u)));
  }

  /** `GetAllAsync`: the repository's page with every user mapped to its DTO:
      the DTOs of the window of the full-name listing starting at `offset`. */
  function GetAllAsync(users: map<int, UserEntity>, next: int, offset: int, take: int)
    : (r: OperationResult<PageResult<UserResponseDto>>)
    requires UsersKeyed(users, next)
    ensures r.Success? && r.statusCode == 200
    ensures r.value.total == |set k | k in users && users[k].isActive == Active|
    ensures r.value.offset == offset && r.value.take == take
    ensures |r.value.data| > 0 ==> Max(0, offset) + |r.value.data| <= |UserRepository.Listing(users, next)|
    ensures forall i :: 0 <= i < |r.value.data| ==>
              r.value.data[i] == UserMapper.ToResponseDto(UserRepository.Listing(users, next)[Max(0, offset) + i])
    ensures |r.value.data| == Min(Max(0, take), Max(0, |users| - Max(0, offset)))
    ensures forall i :: 0 <= i < |r.value.data| ==>
              r.value.data[i].id in users && r.value.data[i] == UserMapper.ToResponseDto(users[r.value.data[i].id])
    ensures forall i, j :: 0 <= i < j < |r.value.data| ==> StrLe(r.value.data[i].fullName, r.value.data[j].fullName)
    ensures forall i, j :: 0 <= i < j < |r.value.data| ==> r.value.data[i].id != r.value.data[j].id
  {
    var page := UserRepository.GetAllAsync(users, next, offset, take);
    var data := MapSeq(page.data, UserMapper.ToResponseDto);
    MapWindow(page.data, UserRepository.Listing(users, next), offset, take, |users|, UserMapper.ToResponseDto);
    PageDtos(users, page.data);
    Success(PageResult(data, page.offset, page.take, page.total))
  }

  /** The DTOs of a page of stored users, in name order and each listed once,
      are again the stored users' DTOs, in name order and each listed once. */
  lemma PageDtos(users: map<int, UserEntity>, page: seq<UserEntity>)
    requires SortedBy(page, UserRepository.ByFullName)
    requires forall i :: 0 <= i < |page| ==> page[i].id in users && users[page[i].id] == page[i]
    requires forall i, j :: 0 <= i < j < |page| ==> page[i].id != page[j].id
    ensures var data := MapSeq(page, UserMapper.ToResponseDto);
      && (forall i :: 0 <= i < |data| ==> data[i].id in users && data[i] == UserMapper.ToResponseDto(users[data[i].id]))
      && (forall i, j :: 0 <= i < j < |data| ==> StrLe(data[i].fullName, data[j].fullName))
      && (forall i, j :: 0 <= i < j < |data| ==> data[i].id != data[j].id)
  {
    var data := MapSeq(page, UserMapper.ToResponseDto);
    assert forall i :: 0 <= i < |data| ==> data[i].id == page[i].id && data[i].fullName == page[i].fullName;
  }

  /** `GetByEmailAsync`: the active user with this e-mail; not found is 500. */
  function GetByEmailAsync(users: map<int, UserEntity>, next: int, email: string)
    : (r: OperationResult<Option<UserResponseDto>>)
    requires UsersKeyed(users, next)
    ensures r.Success? <==> exists k :: k in users && users[k].email == email && users[k].isActive == Active
    ensures r.Success? ==> r.statusCode == 200 && r.value.Some? && r.value.value.email == email
    ensures r.Success? ==> r.value.value.id in users && r.value.value == UserMapper.ToResponseDto(users[r.value.value.id])
    ensures r.Failure? ==> r == Failure("Erro interno: " + UserRepository.EmailNotFoundMessage(email), 500)
  {
    match UserRepository.GetByEmailAsync(users, next, email)
    case Err(e) => InternalError(e)
    case Ok(u) => Success(Some(UserMapper.ToResponseDto(u)))
  }

  /** `GetByIdAsync`: the active user with this id. The repository throws
      `NoContentException`, so the 404 clause never fires and not found is 500. */
  function GetByIdAsync(users: map<int, UserEntity>, id: int): (r: OperationResult<Option<UserResponseDto>>)
    ensures r.Success? <==> id in users && users[id].isActive == Active
    ensures r.Success? ==> r == Success(Some(UserMapper.ToResponseDto(users[id])))
    ensures r.Failure? ==> r == Failure("Erro interno: " + UserNotFoundMessage, 500)
    ensures r.statusCode != 404
  {
    match UserRepository.GetByIdAsync(users, id)
    case Err(e) => CatchIdNotFound(e)
    case Ok(u) => Success(Some(UserMapper.ToResponseDto(u)))
  }

  /** The entity `UpdateAsync` hands the repository: the request's fields, an
      empty password hash and the balance, or -1 when the request has none. */
  function UpdateRequest(request: UserUpdateDto): (u: UserEntity)
    ensures u.fullName == request.fullName && u.email == request.email && u.jobTitle == request.jobTitle
    ensures u.role == request.role && u.teamId == request.teamId && u.passwordHash == ""
    ensures request.pointBalance.Some? ==> u.pointBalance == request.pointBalance.value
    ensures request.pointBalance.None? ==> u.pointBalance == -1
  {
    NewUserEntity().(fullName := request.fullName, email := request.email, jobTitle := request.jobTitle,
      role := request.role, teamId := request.teamId, passwordHash := "",
      pointBalance := if request.pointBalance.Some? then request.pointBalance.value else -1)
  }

  /** The entity `UpdateAsync` hands the repository never passes its own
      annotations, whatever the request: its password hash is empty. */
  lemma UpdateRequestInvalid(request: UserUpdateDto, isEmailAddress: string -> bool)
    ensures !ValidUser(UpdateRequest(request), isEmailAddress)
  {
    EmptyIsBlank();
  }

  /** A profile update never changes the password, and it changes the balance
      exactly when the request carries one other than -1. */
  lemma UpdateKeepsPassword(existing: UserEntity, request: UserUpdateDto, now: Timestamp)
    ensures UserRepository.ApplyUpdate(existing, UpdateRequest(request), now).passwordHash == existing.passwordHash
    ensures UserRepository.ApplyUpdate(existing, UpdateRequest(request), now).pointBalance
         == (if request.pointBalance.Some? && request.pointBalance.value != -1 then request.pointBalance.value
             else existing.pointBalance)
  {
    EmptyIsBlank();
  }

  /** `UpdateAsync`: updates an active user's profile. A missing or deleted
      user is 404; an e-mail already used by another user makes the save fail, 500. */
  method UpdateAsync(db: Database, id: int, request: UserUpdateDto, now: Timestamp)
    returns (r: OperationResult<Option<UserResponseDto>>)
    requires db.Valid()
    modifies db
    ensures db.Valid()
    ensures (id !in old(db.users) || old(db.users)[id].isActive != Active) ==>
              r == Failure(IdMessage("Usuário", id, "não encontrado para atualizar."), 404)
    ensures id in old(db.users) && old(db.users)[id].isActive == Active && UserRepository.EmailInUseByOther(old(db.users), request.email, id) ==>
              r == Failure("Erro interno: " + SaveChangesFailed, 500)
    ensures r.Failure? ==> db.users == old(db.users)
    ensures r.Success? <==>
              id in old(db.users) && old(db.users)[id].isActive == Active && !UserRepository.EmailInUseByOther(old(db.users), request.email, id)
    ensures r.Success? ==>
              && db.users == old(db.users)[id := UserRepository.ApplyUpdate(old(db.users)[id], UpdateRequest(request), now)]
              && r == Success(Some(UserMapper.ToResponseDto(db.users[id])))
              && db.users[id].passwordHash == old(db.users)[id].passwordHash
    ensures db.nextUserId == old(db.nextUserId)
    ensures db.rewards == old(db.rewards) && db.teams == old(db.teams) && db.redemptions == old(db.redemptions)
    ensures db.nextRewardId == old(db.nextRewardId) && db.nextTeamId == old(db.nextTeamId)
    ensures db.nextRedemptionId == old(db.nextRedemptionId)
  {
    ghost var before := db.users;
    var updated := UserRepository.UpdateAsync(db, id, UpdateRequest(request), now);
    match updated
    case Err(e) => r := InternalError(e);
    case Ok(None) => r := Failure(IdMessage("Usuário", id, "não encontrado para atualizar."), 404);
    case Ok(Some(u)) =>
      UpdateKeepsPassword(before[id], request, now);
      r := Success(Some(UserMapper.ToResponseDto(u)));
  }
}
