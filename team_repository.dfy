/** TeamRepository: teams are deleted for real, and their names are unique. */
module TeamRepository {
  import opened Common
  import opened Text
  import opened Paging
  import opened Results
  import opened Entities
  import opened Store

  /** The message of the `IdNotFoundException` for a team lookup or delete. */
  function NotFoundMessage(id: int): string {
    IdMessage("Time", id, "não encontrado.")
  }

  /** Some stored team already has this name. */
  predicate NameInUse(teams: map<int, TeamEntity>, name: string) {
    exists k :: k in teams && teams[k].teamName == name
  }

  /** Some stored team other than `id` already has this name. */
  predicate NameInUseByOther(teams: map<int, TeamEntity>, name: string, id: int) {
    exists k :: k in teams && k != id && teams[k].teamName == name
  }

  /** `GetByIdAsync`: the team with this id, else `IdNotFoundException`. */
  function GetByIdAsync(teams: map<int, TeamEntity>, id: int): (r: Result<TeamEntity>)
    ensures r.Ok? <==> id in teams
    ensures r.Ok? ==> r.value == teams[id]
    ensures r.Err? ==> r.error == IdNotFound(NotFoundMessage(id))
  {
    if id in teams then Ok(teams[id]) else Err(IdNotFound(NotFoundMessage(id)))
  }

  /** `OrderBy(t => t.TeamName)`. */
  predicate ByTeamName(a: TeamEntity, b: TeamEntity) {
    StrLe(a.teamName, b.teamName)
  }

  lemma ByTeamNameOrders()
    ensures TotalPreorder(ByTeamName)
  {
    forall a: TeamEntity, b: TeamEntity ensures ByTeamName(a, b) || ByTeamName(b, a) {
      StrLeTotal(a.teamName, b.teamName);
    }
    forall a: TeamEntity, b: TeamEntity, c: TeamEntity | ByTeamName(a, b) && ByTeamName(b, c)
      ensures ByTeamName(a, c)
    {
      StrLeTransitive(a.teamName, b.teamName, c.teamName);
    }
  }

  /** With team names unique, the name order is strict: no two listed teams tie. */
  lemma ByTeamNameStrict(teams: map<int, TeamEntity>, j: int, k: int)
    requires TeamNamesUnique(teams) && j in teams && k in teams && j != k
    requires ByTeamName(teams[j], teams[k])
    ensures !ByTeamName(teams[k], teams[j])
  {
    if ByTeamName(teams[k], teams[j]) {
      StrLeAntisymmetric(teams[j].teamName, teams[k].teamName);
    }
  }

  /** The ordered query the page is cut from: every team by name, each listed
      exactly once. */
  function Listing(teams: map<int, TeamEntity>, next: int): (s: seq<TeamEntity>)
    requires TeamsKeyed(teams, next)
    ensures |s| == |teams|
    ensures forall i :: 0 <= i < |s| ==> s[i].id in teams && teams[s[i].id] == s[i]
    ensures forall i, j :: 0 <= i < j < |s| ==> s[i].id != s[j].id
  {
    var rows := RowsUpTo(teams, next);
    var sorted := SortBy(rows, ByTeamName);
    RowsUpToAll(teams, next);
    SortByPermutation(rows, ByTeamName);
    forall i | 0 <= i < |sorted| ensures sorted[i].id in teams && teams[sorted[i].id] == sorted[i] {
      assert sorted[i] in multiset(rows);
      RowIsEntry(teams, next, sorted[i]);
    }
    RowsUpToDistinct(teams, next, (t: TeamEntity) => t.id);
    PermutationDistinct(rows, sorted);
    sorted
  }

  /** `Listing` is in name order. */
  lemma ListingSorted(teams: map<int, TeamEntity>, next: int)
    requires TeamsKeyed(teams, next)
    ensures SortedBy(Listing(teams, next), ByTeamName)
  {
    ByTeamNameOrders();
    SortBySorted(RowsUpTo(teams, next), ByTeamName);
  }

  /** No stored team is missing from `Listing`. */
  lemma ListingComplete(teams: map<int, TeamEntity>, next: int, k: int)
    requires TeamsKeyed(teams, next) && k in teams
    ensures teams[k] in Listing(teams, next)
  {
    var rows := RowsUpTo(teams, next);
    RowsUpToContains(teams, next, k);
    SortByPermutation(rows, ByTeamName);
    assert teams[k] in multiset(rows);
  }

  /** `GetAllAsync`: the window of `Listing` starting at `offset`; `Total`
      counts every team. */
  function GetAllAsync(teams: map<int, TeamEntity>, next: int, offset: int, take: int)
    : (page: PageResult<TeamEntity>)
    requires TeamsKeyed(teams, next)
    ensures page.total == |teams|
    ensures page.offset == offset && page.take == take
    ensures |page.data| > 0 ==> Max(0, offset) + |page.data| <= |Listing(teams, next)|
    ensures forall i :: 0 <= i < |page.data| ==>
              page.data[i] == Listing(teams, next)[Max(0, offset) + i]
    ensures |page.data| == Min(Max(0, take), Max(0, page.total - Max(0, offset)))
    ensures SortedBy(page.data, ByTeamName)
    ensures forall i :: 0 <= i < |page.data| ==> page.data[i].id in teams && teams[page.data[i].id] == page.data[i]
    ensures forall i, j :: 0 <= i < j < |page.data| ==> page.data[i].id != page.data[j].id
  {
    var listing := Listing(teams, next);
    var data := Slice(listing, offset, take);
    ListingSorted(teams, next);
    SliceSorted(listing, offset, take, ByTeamName);
    SliceAll(listing, offset, take, (t: TeamEntity) => t.id in teams && teams[t.id] == t);
    SliceDistinct(listing, offset, take, (t: TeamEntity) => t.id);
    PageResult(data, offset, take, |listing|)
  }

  /** `CreateAsync`: inserts the team under the next identity value; a name
      already stored breaks the unique index and the save throws. */
  method CreateAsync(db: Database, team: TeamEntity) returns (r: Result<TeamEntity>)
    requires db.Valid()
    modifies db
    ensures db.Valid()
    ensures NameInUse(old(db.teams), team.teamName) ==>
              r == Err(SaveFailed(SaveChangesFailed)) && db.teams == old(db.teams) && db.nextTeamId == old(db.nextTeamId)
    ensures !NameInUse(old(db.teams), team.teamName) ==>
              && r == Ok(team.(id := old(db.nextTeamId)))
              && db.teams == old(db.teams)[old(db.nextTeamId) := r.value]
              && db.nextTeamId == old(db.nextTeamId) + 1
    ensures r.Ok? ==> r.value.id !in old(db.teams) && GetByIdAsync(db.teams, r.value.id) == Ok(r.value)
    ensures db.users == old(db.users) && db.rewards == old(db.rewards) && db.redemptions == old(db.redemptions)
    ensures db.nextUserId == old(db.nextUserId) && db.nextRewardId == old(db.nextRewardId)
    ensures db.nextRedemptionId == old(db.nextRedemptionId)
  {
    if NameInUse(db.teams, team.teamName) {
      return Err(SaveFailed(SaveChangesFailed));
    }
    var stored := team.(id := db.nextTeamId);
    db.teams := db.teams[db.nextTeamId := stored];
    db.nextTeamId := db.nextTeamId + 1;
    r := Ok(stored);
  }

  /** What saving the removal does to the team's members. `GetByIdAsync`
      loads them with `Include(t => t.Users)`, `Remove` starts tracking them,
      and the optional `TeamId` foreign key has EF's default `ClientSetNull`
      delete behaviour: every member loses its team, nothing else changes. */
  function Unassigned(users: map<int, UserEntity>, teamId: int): (r: map<int, UserEntity>)
    ensures r.Keys == users.Keys
    ensures forall k :: k in r ==> r[k].teamId != Some(teamId)
    ensures forall k :: k in r ==> (r[k].teamId == users[k].teamId <==> users[k].teamId != Some(teamId))
    ensures forall k :: k in r ==> r[k].teamId.None? || r[k].teamId == users[k].teamId
    ensures forall k :: k in r ==> r[k].(teamId := users[k].teamId) == users[k]
  {
    map k | k in users :: if users[k].teamId == Some(teamId) then users[k].(teamId := None) else users[k]
  }

  /** Unassigning members keeps the user table keyed by id and its e-mails unique. */
  lemma UnassignedKeepsTable(users: map<int, UserEntity>, next: int, teamId: int)
    requires UsersKeyed(users, next) && EmailsUnique(users)
    ensures UsersKeyed(Unassigned(users, teamId), next) && EmailsUnique(Unassigned(users, teamId))
  {
    var r := Unassigned(users, teamId);
    forall k | k in r ensures r[k].id == users[k].id && r[k].email == users[k].email {
      assert r[k].(teamId := users[k].teamId) == users[k];
    }
  }

  /** A team with no members loses none: unassigning changes no user. */
  lemma UnassignedWithoutMembers(users: map<int, UserEntity>, teamId: int)
    requires forall k :: k in users ==> users[k].teamId != Some(teamId)
    ensures Unassigned(users, teamId) == users
  {
    var r := Unassigned(users, teamId);
    forall k | k in r ensures r[k] == users[k] {
      assert r[k].(teamId := users[k].teamId) == users[k];
    }
  }

  /** `DeleteAsync`: removes the team for good and unassigns its members; a
      missing one throws `IdNotFoundException`. */
  method DeleteAsync(db: Database, id: int) returns (r: Result<TeamEntity>)
    requires db.Valid()
    modifies db
    ensures db.Valid()
    ensures r.Err? <==> id !in old(db.teams)
    ensures r.Err? ==> r.error == IdNotFound(NotFoundMessage(id)) && db.teams == old(db.teams)
    ensures r.Ok? ==> r.value == old(db.teams)[id] && db.teams == old(db.teams) - {id}
    ensures r.Ok? ==> GetByIdAsync(db.teams, id).Err?
    ensures r.Err? ==> db.users == old(db.users)
    ensures r.Ok? ==> db.users == Unassigned(old(db.users), id)
    ensures db.nextTeamId == old(db.nextTeamId) && db.nextUserId == old(db.nextUserId)
    ensures db.rewards == old(db.rewards) && db.redemptions == old(db.redemptions)
    ensures db.nextRewardId == old(db.nextRewardId) && db.nextRedemptionId == old(db.nextRedemptionId)
  {
    var found := GetByIdAsync(db.teams, id);
    if found.Err? {
      return found;
    }
    UnassignedKeepsTable(db.users, db.nextUserId, id);
    db.teams := db.teams - {id};
    db.users := Unassigned(db.users, id);
    r := found;
  }

  /** `UpdateAsync`: renames an existing team; a missing team gives `null`, a
      name held by another team breaks the unique index and the save throws. */
  method UpdateAsync(db: Database, id: int, team: TeamEntity) returns (r: Result<Option<TeamEntity>>)
    requires db.Valid()
    modifies db
    ensures db.Valid()
    ensures r == Ok(None) <==> id !in old(db.teams)
    ensures r.Err? <==> id in old(db.teams) && NameInUseByOther(old(db.teams), team.teamName, id)
    ensures r.Err? ==> r.error == SaveFailed(SaveChangesFailed)
    ensures r.Ok? && r.value.Some? ==>
              && r.value.value == old(db.teams)[id].(teamName := team.teamName)
              && db.teams == old(db.teams)[id := r.value.value]
              && GetByIdAsync(db.teams, id) == Ok(r.value.value)
    ensures !(r.Ok? && r.value.Some?) ==> db.teams == old(db.teams)
    ensures db.nextTeamId == old(db.nextTeamId)
    ensures db.users == old(db.users) && db.rewards == old(db.rewards) && db.redemptions == old(db.redemptions)
    ensures db.nextUserId == old(db.nextUserId) && db.nextRewardId == old(db.nextRewardId)
    ensures db.nextRedemptionId == old(db.nextRedemptionId)
  {
    if id in db.teams {
      if NameInUseByOther(db.teams, team.teamName, id) {
        return Err(SaveFailed(SaveChangesFailed));
      }
      var renamed := db.teams[id].(teamName := team.teamName);
      db.teams := db.teams[id := renamed];
      return Ok(Some(renamed));
    }
    r := Ok(None);
  }
}
