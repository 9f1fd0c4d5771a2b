/** The four persisted entities, the values a freshly constructed entity
    carries, and the data-annotation rules (`[Required]`, `[StringLength]`,
    `[EmailAddress]`, `[Range]`) as validity predicates. */
module Entities {
  import opened Common
  import opened Text

  /** A `DateTime` read from the abstract UTC clock; 0 stands for `DateTime.MinValue`. */
  type Timestamp = int

  /** The value a `char` property holds before anything is assigned to it. */
  const UnsetChar: char := '\0'
  const Active: char := 'Y'
  const Inactive: char := 'N'

  /** UserEntity, with the audit and soft-delete columns the repository uses. */
  datatype UserEntity = UserEntity(
    id: int,
    fullName: string,
    email: string,
    passwordHash: string,
    jobTitle: Option<string>,
    pointBalance: Int32,
    teamId: Option<int>,
    role: string,
    createdAt: Timestamp,
    updatedAt: Option<Timestamp>,
    isActive: char)

  datatype RewardEntity = RewardEntity(
    id: int,
    name: string,
    description: Option<string>,
    pointCost: Int32,
    stockQuantity: Int32,
    createdAt: Timestamp,
    updatedAt: Option<Timestamp>,
    isActive: char)

  /** RewardRedemptionEntity; `reward` is the `Reward` navigation property,
      `None` unless a query loaded it with `Include`. */
  datatype RewardRedemptionEntity = RewardRedemptionEntity(
    id: int,
    userId: int,
    rewardId: int,
    redeemedAt: Timestamp,
    pointsSpent: Int32,
    reward: Option<RewardEntity>)

  datatype TeamEntity = TeamEntity(id: int, teamName: string)

  /** `new UserEntity()`: every property at its initialiser or type default. */
  function NewUserEntity(): (u: UserEntity)
    ensures u.pointBalance == 0 && u.role == "USER"
    ensures u.fullName == "" && u.email == "" && u.passwordHash == ""
    ensures u.jobTitle.None? && u.teamId.None? && u.updatedAt.None?
    ensures u.id == 0 && u.isActive == UnsetChar
  {
    UserEntity(0, "", "", "", None, 0, None, "USER", 0, None, UnsetChar)
  }

  /** `new RewardEntity()`. */
  function NewRewardEntity(): (r: RewardEntity)
    ensures r.stockQuantity == 0 && r.name == "" && r.description.None?
    ensures r.id == 0 && r.updatedAt.None? && r.isActive == UnsetChar
  {
    RewardEntity(0, "", None, 0, 0, 0, None, UnsetChar)
  }

  /** `new RewardRedemptionEntity()` constructed at time `now`: `RedeemedAt`
      is initialised from the clock. */
  function NewRedemptionEntity(now: Timestamp): (r: RewardRedemptionEntity)
    ensures r.redeemedAt == now
    ensures r.id == 0 && r.userId == 0 && r.rewardId == 0 && r.pointsSpent == 0 && r.reward.None?
  {
    RewardRedemptionEntity(0, 0, 0, now, 0, None)
  }

  /** `new TeamEntity()`. */
  function NewTeamEntity(): (t: TeamEntity)
    ensures t.id == 0 && t.teamName == ""
  {
    TeamEntity(0, "")
  }

  /** `[Required]` on a string: not null, not empty, not only white space. */
  predicate Required(s: string) {
    !IsNullOrWhiteSpace(Some(s))
  }

  /** `[StringLength(max)]`: a null value passes. */
  predicate LengthAtMost(s: Option<string>, max: nat) {
    s.None? || |s.value| <= max
  }

  /** `[Range(1, int.MaxValue)]`. */
  predicate PositiveInt32(x: int) {
    1 <= x <= MaxInt32
  }

  /** UserEntity's annotations. `isEmailAddress` stands for `[EmailAddress]`. */
  predicate ValidUser(u: UserEntity, isEmailAddress: string -> bool) {
    && Required(u.fullName) && LengthAtMost(Some(u.fullName), 255)
    && Required(u.email) && LengthAtMost(Some(u.email), 255) && isEmailAddress(u.email)
    && Required(u.passwordHash) && LengthAtMost(Some(u.passwordHash), 1000)
    && LengthAtMost(u.jobTitle, 100)
    && Required(u.role) && LengthAtMost(Some(u.role), 20)
  }

  /** RewardEntity's annotations; `PointCost`, `StockQuantity`, `CreatedAt`
      and `IsActive` are value types, so `[Required]` never rejects them. */
  predicate ValidReward(r: RewardEntity) {
    && Required(r.name) && LengthAtMost(Some(r.name), 255)
    && LengthAtMost(r.description, 1000)
  }

  /** RewardRedemptionEntity's `[Range]` annotations. */
  predicate ValidRedemption(r: RewardRedemptionEntity) {
    PositiveInt32(r.userId) && PositiveInt32(r.rewardId) && PositiveInt32(r.pointsSpent as int)
  }

  /** TeamEntity's annotations. */
  predicate ValidTeam(t: TeamEntity) {
    Required(t.teamName) && LengthAtMost(Some(t.teamName), 100)
  }

  /** `new string(c, n)`. */
  function Repeat(c: char, n: nat): (s: string)
    ensures |s| == n && forall i :: 0 <= i < n ==> s[i] == c
  {
    seq(n, _ => c)
  }

  /** The fixture the entity tests start from is valid whenever its address
      passes the e-mail format check; an empty or 256-character name, a
      malformed address, an empty password hash or an empty role is not. */
  lemma UserFixtureValidity(isEmailAddress: string -> bool, now: Timestamp)
    requires isEmailAddress("teste@valido.com") && !isEmailAddress("email-invalido.com")
    ensures ValidUser(UserFixture(now), isEmailAddress)
    ensures !ValidUser(UserFixture(now).(email := "email-invalido.com"), isEmailAddress)
    ensures !ValidUser(UserFixture(now).(fullName := Repeat('A', 256)), isEmailAddress)
    ensures !ValidUser(UserFixture(now).(fullName := ""), isEmailAddress)
    ensures !ValidUser(UserFixture(now).(passwordHash := ""), isEmailAddress)
    ensures !ValidUser(UserFixture(now).(role := ""), isEmailAddress)
  {
    var u := UserFixture(now);
    NonBlankWitness(u.fullName, 0);
    NonBlankWitness(u.email, 0);
    NonBlankWitness(u.passwordHash, 0);
    NonBlankWitness(u.role, 0);
  }

  function UserFixture(now: Timestamp): UserEntity {
    NewUserEntity().(id := 1, fullName := "Usuário de Teste Válido", email := "teste@valido.com",
      passwordHash := "abc.123.xyz.hash", jobTitle := Some("Analista de Testes"),
      pointBalance := 100, role := "USER", createdAt := now, isActive := Active)
  }

  /** The team-entity tests: a normal name passes, "" and 101 'A's fail. */
  lemma TeamFixtureValidity()
    ensures ValidTeam(TeamEntity(1, "Equipe de Teste Válida"))
    ensures !ValidTeam(TeamEntity(1, ""))
    ensures !ValidTeam(TeamEntity(1, Repeat('A', 101)))
  {
    NonBlankWitness("Equipe de Teste Válida", 0);
  }
}
