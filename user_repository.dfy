/** UserRepository: the user lookups (all of them blind to soft-deleted
    users), the user listing, registration, soft delete, profile update and
    the balance update used by redemptions. */
module UserRepository {
  import opened Common
  import opened Text
  import opened Paging
  import opened Results
  import opened Entities
  import opened Store

  /** The message of the `EmailNotFoundException` for `email`. */
  function EmailNotFoundMessage(email: string): (s: string)
    ensures |s| == 19 + |email| + 18
    ensures s[..19] == "Usuário com Email: "
    ensures s[19..19 + |email|] == email
    ensures s[19 + |email|..] == " - Não encontrado."
  {
    var named := "Usuário com Email: " + email;
    assert (named + " - Não encontrado.")[..|named|] == named;
    named + " - Não encontrado."
  }

  /** The message names the e-mail: two e-mails give the same message only
      when they are equal. */
  lemma EmailNotFoundMessageNamesEmail(a: string, b: string)
    requires EmailNotFoundMessage(a) == EmailNotFoundMessage(b)
    ensures a == b
  {
    assert a == EmailNotFoundMessage(a)[19..19 + |a|];
  }

  /** Some stored user, active or not, already has this e-mail. */
  predicate EmailInUse(users: map<int, UserEntity>, email: string) {
    exists k :: k in users && users[k].email == email
  }

  /** Some stored user other than `id` already has this e-mail. */
  predicate EmailInUseByOther(users: map<int, UserEntity>, email: string, id: int) {
    exists k :: k in users && k != id && users[k].email == email
  }

  /** `GetByIdAsync`: the active user with this id, else `NoContentException`. */
  function GetByIdAsync(users: map<int, UserEntity>, id: int): (r: Result<UserEntity>)
    ensures r.Ok? <==> id in users && users[id].isActive == Active
    ensures r.Ok? ==> r.value == users[id]
    ensures r.Err? ==> r.error == NoContent(UserNotFoundMessage)
  {
    if id in users && users[id].isActive == Active then Ok(users[id])
    else Err(NoContent(UserNotFoundMessage))
  }

  /** `GetByEmailAsync`: an active user with this e-mail, else `EmailNotFoundException`. */
  function GetByEmailAsync(users: map<int, UserEntity>, next: int, email: string): (r: Result<UserEntity>)
    requires UsersKeyed(users, next)
    ensures r.Ok? ==> r.value.email == email && r.value.isActive == Active
    ensures r.Ok? ==> r.value.id in users && users[r.value.id] == r.value
    ensures r.Err? <==> forall k :: k in users ==> !(users[k].email == email && users[k].isActive == Active)
    ensures r.Err? ==> r.error == EmailNotFound(EmailNotFoundMessage(email))
  {
    var p := (u: UserEntity) => u.email == email && u.isActive == Active;
    FirstOfRows(users, next, p);
    match First(RowsUpTo(users, next), p)
    case Some(u) => Ok(u)
    case None => Err(EmailNotFound(EmailNotFoundMessage(email)))
  }

  /** With e-mails unique, the lookup by e-mail returns the one active user holding it. */
  lemma GetByEmailFindsOwner(users: map<int, UserEntity>, next: int, k: int)
    requires UsersKeyed(users, next) && EmailsUnique(users)
    requires k in users && users[k].isActive == Active
    ensures GetByEmailAsync(users, next, users[k].email) == Ok(users[k])
  {
  }

  /** `AuthenticateAsync`: the active user with this e-mail and password hash,
      else `NoContentException`. */
  function AuthenticateAsync(users: map<int, UserEntity>, next: int, email: string, passwordHash: string)
    : (r: Result<UserEntity>)
    requires UsersKeyed(users, next)
    ensures r.Ok? ==> r.value.email == email && r.value.passwordHash == passwordHash
    ensures r.Ok? ==> r.value.isActive == Active && r.value.id in users && users[r.value.id] == r.value
    ensures r.Err? <==> forall k :: k in users ==>
              !(users[k].email == email && users[k].passwordHash == passwordHash && users[k].isActive == Active)
    ensures r.Err? ==> r.error == NoContent(UserNotFoundMessage)
  {
    var p := (u: UserEntity) => u.email == email && u.passwordHash == passwordHash && u.isActive == Active;
    FirstOfRows(users, next, p);
    match First(RowsUpTo(users, next), p)
    case Some(u) => Ok(u)
    case None => Err(NoContent(UserNotFoundMessage))
  }

  /** A successful authentication finds the same user as the lookup by e-mail,
      and a wrong hash for an active user's e-mail is refused. */
  lemma AuthenticateAgreesWithEmailLookup(users: map<int, UserEntity>, next: int, email: string, passwordHash: string)
    requires UsersKeyed(users, next) && EmailsUnique(users)
    ensures AuthenticateAsync(users, next, email, passwordHash).Ok? ==>
              GetByEmailAsync(users, next, email) == AuthenticateAsync(users, next, email, passwordHash)
    ensures GetByEmailAsync(users, next, email).Ok? ==>
              (AuthenticateAsync(users, next, email, passwordHash).Ok?
               <==> GetByEmailAsync(users, next, email).value.passwordHash == passwordHash)
  {
    var a := AuthenticateAsync(users, next, email, passwordHash);
    if a.Ok? {
      GetByEmailFindsOwner(users, next, a.value.id);
    }
    var g := GetByEmailAsync(users, next, email);
    if g.Ok? && g.value.passwordHash == passwordHash {
      assert users[g.value.id] == g.value;
    }
  }

  /** `OrderBy(u => u.FullName)`. */
  predicate ByFullName(a: UserEntity, b: UserEntity) {
    StrLe(a.fullName, b.fullName)
  }

  lemma ByFullNameOrders()
    ensures TotalPreorder(ByFullName)
  {
    forall a: UserEntity, b: UserEntity ensures ByFullName(a, b) || ByFullName(b, a) {
      StrLeTotal(a.fullName, b.fullName);
    }
    forall a: UserEntity, b: UserEntity, c: UserEntity | ByFullName(a, b) && ByFullName(b, c)
      ensures ByFullName(a, c)
    {
      StrLeTransitive(a.fullName, b.fullName, c.fullName);
    }
  }

  /** Every row of a table listing is one of the table's entries. */
  lemma ListedRowIsStored(users: map<int, UserEntity>, next: int, u: UserEntity)
    requires UsersKeyed(users, next)
    requires u in SortBy(RowsUpTo(users, next), ByFullName)
    ensures u.id in users && users[u.id] == u
  {
    var rows := RowsUpTo(users, next);
    SortByPermutation(rows, ByFullName);
    assert u in multiset(SortBy(rows, ByFullName));
    RowIsEntry(users, next, u);
  }

  /** `Where(u => u.IsActive == 'Y').CountAsync()`: the number of active users. */
  function ActiveCount(users: map<int, UserEntity>, next: int): (n: int)
    requires UsersKeyed(users, next)
    ensures n == |set k | k in users && users[k].isActive == Active|
  {
    var isLive := (u: UserEntity) => u.isActive == Active;
    FilterRowsCount(users, next, isLive);
    assert KeysWhere(users, next, isLive) == set k | k in users && users[k].isActive == Active;
    |Filter(RowsUpTo(users, next), isLive)|
  }

  /** The ordered query the page is cut from: every user, soft-deleted ones
      included, by full name. It lists each stored user exactly once. */
  function Listing(users: map<int, UserEntity>, next: int): (s: seq<UserEntity>)
    requires UsersKeyed(users, next)
    ensures |s| == |users|
    ensures forall i :: 0 <= i < |s| ==> s[i].id in users && users[s[i].id] == s[i]
    ensures forall i, j :: 0 <= i < j < |s| ==> s[i].id != s[j].id
  {
    var rows := RowsUpTo(users, next);
    var sorted := SortBy(rows, ByFullName);
    RowsUpToAll(users, next);
    SortByPermutation(rows, ByFullName);
    forall i | 0 <= i < |sorted| ensures sorted[i].id in users && users[sorted[i].id] == sorted[i] {
      ListedRowIsStored(users, next, sorted[i]);
    }
    RowsUpToDistinct(users, next, (u: UserEntity) => u.id);
    PermutationDistinct(rows, sorted);
    sorted
  }

  /** `Listing` is in full-name order. */
  lemma ListingSorted(users: map<int, UserEntity>, next: int)
    requires UsersKeyed(users, next)
    ensures SortedBy(Listing(users, next), ByFullName)
  {
    ByFullNameOrders();
    SortBySorted(RowsUpTo(users, next), ByFullName);
  }

  /** No stored user is missing from `Listing`. */
  lemma ListingComplete(users: map<int, UserEntity>, next: int, k: int)
    requires UsersKeyed(users, next) && k in users
    ensures users[k] in Listing(users, next)
  {
    var rows := RowsUpTo(users, next);
    RowsUpToContains(users, next, k);
    SortByPermutation(rows, ByFullName);
    assert users[k] in multiset(rows);
  }

  /** `GetAllAsync`: `Total` counts the active users, but `Data` is the window
      of `Listing` (ALL users, soft-deleted ones included) starting at `offset`. */
  function GetAllAsync(users: map<int, UserEntity>, next: int, offset: int, take: int)
    : (page: PageResult<UserEntity>)
    requires UsersKeyed(users, next)
    ensures page.total == |set k | k in users && users[k].isActive == Active|
    ensures page.offset == offset && page.take == take
    ensures |page.data| > 0 ==> Max(0, offset) + |page.data| <= |Listing(users, next)|
    ensures forall i :: 0 <= i < |page.data| ==>
              page.data[i] == Listing(users, next)[Max(0, offset) + i]
    ensures |page.data| == Min(Max(0, take), Max(0, |users| - Max(0, offset)))
    ensures SortedBy(page.data, ByFullName)
    ensures forall i :: 0 <= i < |page.data| ==> page.data[i].id in users && users[page.data[i].id] == page.data[i]
    ensures forall i, j :: 0 <= i < j < |page.data| ==> page.data[i].id != page.data[j].id
  {
    var listing := Listing(users, next);
    var data := Slice(listing, offset, take);
    ListingSorted(users, next);
    SliceSorted(listing, offset, take, ByFullName);
    SliceAll(listing, offset, take, (u: UserEntity) => u.id in users && users[u.id] == u);
    SliceDistinct(listing, offset, take, (u: UserEntity) => u.id);
    PageResult(data, offset, take, ActiveCount(users, next))
  }

  /** The count and the page disagree: with one soft-deleted user, `Total` is 0
      while the first page still lists that user. */
  lemma TotalCountsOnlyActiveUsers(u: UserEntity)
    requires u.id == 1 && u.isActive == Inactive
    ensures GetAllAsync(map[1 := u], 2, 0, 10).total == 0
    ensures GetAllAsync(map[1 := u], 2, 0, 10).data == [u]
  {
    var users := map[1 := u];
    assert (set k | k in users && users[k].isActive == Active) == {};
    var page := GetAllAsync(users, 2, 0, 10);
    assert |users| == 1;
    assert users[page.data[0].id] == page.data[0];
  }

  /** The row `CreateAsync` stores: the caller's user with the new identity
      value, `CreatedAt` stamped and `IsActive` defaulted to 'Y' when unset. */
  function Registered(user: UserEntity, id: int, now: Timestamp): (u: UserEntity)
    ensures u.id == id && u.createdAt == now
    ensures u.isActive == (if user.isActive == UnsetChar then Active else user.isActive)
    ensures u.(id := user.id, createdAt := user.createdAt, isActive := user.isActive) == user
  {
    user.(id := id, createdAt := now, isActive := if user.isActive == UnsetChar then Active else user.isActive)
  }

  /** `CreateAsync`: inserts the user under the next identity value; an e-mail
      already stored breaks the unique index and the save throws. */
  method CreateAsync(db: Database, user: UserEntity, now: Timestamp) returns (r: Result<UserEntity>)
    requires db.Valid()
    modifies db
    ensures db.Valid()
    ensures EmailInUse(old(db.users), user.email) ==>
              r == Err(SaveFailed(SaveChangesFailed)) && db.users == old(db.users) && db.nextUserId == old(db.nextUserId)
    ensures !EmailInUse(old(db.users), user.email) ==>
              && r == Ok(Registered(user, old(db.nextUserId), now))
              && db.users == old(db.users)[old(db.nextUserId) := r.value]
              && db.nextUserId == old(db.nextUserId) + 1
    ensures r.Ok? ==> r.value.id !in old(db.users) && db.users[r.value.id] == r.value
    ensures r.Ok? && (user.isActive == UnsetChar || user.isActive == Active) ==>
              GetByIdAsync(db.users, r.value.id) == Ok(r.value)
    ensures db.rewards == old(db.rewards) && db.teams == old(db.teams) && db.redemptions == old(db.redemptions)
    ensures db.nextRewardId == old(db.nextRewardId) && db.nextTeamId == old(db.nextTeamId)
    ensures db.nextRedemptionId == old(db.nextRedemptionId)
  {
    if EmailInUse(db.users, user.email) {
      return Err(SaveFailed(SaveChangesFailed));
    }
    var stored := Registered(user, db.nextUserId, now);
    db.users := db.users[db.nextUserId := stored];
    db.nextUserId := db.nextUserId + 1;
    r := Ok(stored);
  }

  /** `DeleteAsync`: soft delete. A missing or already deleted user throws
      `IdNotFoundException`; otherwise `IsActive` becomes 'N' and `UpdatedAt` is stamped. */
  method DeleteAsync(db: Database, id: int, now: Timestamp) returns (r: Result<UserEntity>)
    requires db.Valid()
    modifies db
    ensures db.Valid()
    ensures r.Err? <==> id !in old(db.users) || old(db.users)[id].isActive == Inactive
    ensures r.Err? ==>
              r.error == IdNotFound(IdMessage("Usuário", id, "não encontrado para deletar.")) && db.users == old(db.users)
    ensures r.Ok? ==>
              && r.value == old(db.users)[id].(isActive := Inactive, updatedAt := Some(now))
              && db.users == old(db.users)[id := r.value]
    ensures r.Ok? ==> GetByIdAsync(db.users, id).Err?
    ensures db.users.Keys == old(db.users.Keys)
    ensures db.nextUserId == old(db.nextUserId)
    ensures db.rewards == old(db.rewards) && db.teams == old(db.teams) && db.redemptions == old(db.redemptions)
    ensures db.nextRewardId == old(db.nextRewardId) && db.nextTeamId == old(db.nextTeamId)
    ensures db.nextRedemptionId == old(db.nextRedemptionId)
  {
    if id !in db.users || db.users[id].isActive == Inactive {
      return Err(IdNotFound(IdMessage("Usuário", id, "não encontrado para deletar.")));
    }
    var deleted := db.users[id].(isActive := Inactive, updatedAt := Some(now));
    db.users := db.users[id := deleted];
    r := Ok(deleted);
  }

  /** The fields `UpdateAsync` copies onto the stored user: name, e-mail, job
      title, team and role always, `UpdatedAt` from the clock, the password
      hash only when the incoming one is not blank, the balance only when the
      incoming one is not the sentinel -1. */
  function ApplyUpdate(existing: UserEntity, incoming: UserEntity, now: Timestamp): (u: UserEntity)
    ensures u.id == existing.id && u.createdAt == existing.createdAt && u.isActive == existing.isActive
    ensures u.fullName == incoming.fullName && u.email == incoming.email && u.jobTitle == incoming.jobTitle
    ensures u.teamId == incoming.teamId && u.role == incoming.role && u.updatedAt == Some(now)
    ensures u.passwordHash == (if IsNullOrWhiteSpace(Some(incoming.passwordHash)) then existing.passwordHash
                               else incoming.passwordHash)
    ensures u.pointBalance == (if incoming.pointBalance == -1 then existing.pointBalance else incoming.pointBalance)
  {
    existing.(
      fullName := incoming.fullName, email := incoming.email, jobTitle := incoming.jobTitle,
      teamId := incoming.teamId, role := incoming.role, updatedAt := Some(now),
      passwordHash := if IsNullOrWhiteSpace(Some(incoming.passwordHash)) then existing.passwordHash else incoming.passwordHash,
      pointBalance := if incoming.pointBalance != -1 then incoming.pointBalance else existing.pointBalance)
  }

  /** Applying the same update twice is the same as applying it once. */
  lemma ApplyUpdateIdempotent(existing: UserEntity, incoming: UserEntity, now: Timestamp)
    ensures ApplyUpdate(ApplyUpdate(existing, incoming, now), incoming, now) == ApplyUpdate(existing, incoming, now)
  {
  }

  /** An update carrying a password and a balance overwrites every field an
      earlier update set: only the last one is visible. */
  lemma ApplyUpdateLastWins(existing: UserEntity, first: UserEntity, second: UserEntity, t1: Timestamp, t2: Timestamp)
    requires !IsNullOrWhiteSpace(Some(second.passwordHash)) && second.pointBalance != -1
    ensures ApplyUpdate(ApplyUpdate(existing, first, t1), second, t2) == ApplyUpdate(existing, second, t2)
  {
  }

  /** `UpdateAsync`: a missing or soft-deleted user gives `null` (no exception);
      otherwise the fields are copied and saved, and an e-mail held by another
      user breaks the unique index and the save throws. */
  method UpdateAsync(db: Database, id: int, user: UserEntity, now: Timestamp) returns (r: Result<Option<UserEntity>>)
    requires db.Valid()
    modifies db
    ensures db.Valid()
    ensures r == Ok(None) <==> id !in old(db.users) || old(db.users)[id].isActive != Active
    ensures r.Err? <==>
              id in old(db.users) && old(db.users)[id].isActive == Active
              && EmailInUseByOther(old(db.users), user.email, id)
    ensures r.Err? ==> r.error == SaveFailed(SaveChangesFailed)
    ensures r.Ok? && r.value.Some? ==>
              && r.value.value == ApplyUpdate(old(db.users)[id], user, now)
              && db.users == old(db.users)[id := r.value.value]
              && GetByIdAsync(db.users, id) == Ok(r.value.value)
    ensures !(r.Ok? && r.value.Some?) ==> db.users == old(db.users)
    ensures db.nextUserId == old(db.nextUserId)
    ensures db.rewards == old(db.rewards) && db.teams == old(db.teams) && db.redemptions == old(db.redemptions)
    ensures db.nextRewardId == old(db.nextRewardId) && db.nextTeamId == old(db.nextTeamId)
    ensures db.nextRedemptionId == old(db.nextRedemptionId)
  {
    if id in db.users && db.users[id].isActive == Active {
      var updated := ApplyUpdate(db.users[id], user, now);
      if EmailInUseByOther(db.users, updated.email, id) {
        return Err(SaveFailed(SaveChangesFailed));
      }
      db.users := db.users[id := updated];
      return Ok(Some(updated));
    }
    r := Ok(None);
  }

  /** `UpdateUserPointsAsync`: sets the balance of an active user and reports
      whether it found one. `UpdatedAt` is not stamped. */
  method UpdateUserPointsAsync(db: Database, userId: int, newPointBalance: Int32) returns (updated: bool)
    requires db.Valid()
    modifies db
    ensures db.Valid()
    ensures updated <==> userId in old(db.users) && old(db.users)[userId].isActive == Active
    ensures updated ==> db.users == old(db.users)[userId := old(db.users)[userId].(pointBalance := newPointBalance)]
    ensures !updated ==> db.users == old(db.users)
    ensures db.nextUserId == old(db.nextUserId)
    ensures db.rewards == old(db.rewards) && db.teams == old(db.teams) && db.redemptions == old(db.redemptions)
    ensures db.nextRewardId == old(db.nextRewardId) && db.nextTeamId == old(db.nextTeamId)
    ensures db.nextRedemptionId == old(db.nextRedemptionId)
  {
    if userId in db.users && db.users[userId].isActive == Active {
      db.users := db.users[userId := db.users[userId].(pointBalance := newPointBalance)];
      return true;
    }
    updated := false;
  }
}
