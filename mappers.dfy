/** Request and response records exchanged with the HTTP layer. */
module Dtos {
  import opened Common
  import opened Entities

  datatype UserCreateDto = UserCreateDto(
    fullName: string, email: string, password: string, jobTitle: Option<string>, teamId: Option<int>)

  /** `PointBalance` is `int?`: `None` means "leave the balance alone". */
  datatype UserUpdateDto = UserUpdateDto(
    fullName: string, email: string, jobTitle: Option<string>, role: string,
    teamId: Option<int>, pointBalance: Option<Int32>)

  datatype UserResponseDto = UserResponseDto(
    id: int, fullName: string, email: string, jobTitle: Option<string>,
    pointBalance: Int32, role: string, teamId: Option<int>)

  datatype RewardCreateUpdateDto = RewardCreateUpdateDto(
    name: string, description: Option<string>, pointCost: Int32, stockQuantity: Int32)

  datatype RewardResponseDto = RewardResponseDto(
    id: int, name: string, description: Option<string>, pointCost: Int32, stockQuantity: Int32)

  datatype RedemptionResponseDto = RedemptionResponseDto(
    id: int, rewardId: int, rewardName: string, pointsSpent: Int32, redeemedAt: Timestamp)

  datatype TeamCreateUpdateDto = TeamCreateUpdateDto(teamName: string)

  datatype TeamResponseDto = TeamResponseDto(id: int, teamName: string)
}

/** Conversions between users and their DTOs. */
module UserMapper {
  import opened Common
  import opened Entities
  import opened Dtos
  import Text

  /** A new user from a registration request; the caller supplies the hash. */
  function ToEntity(dto: UserCreateDto, passwordHash: string): (u: UserEntity)
    ensures u.fullName == dto.fullName && u.email == dto.email
    ensures u.jobTitle == dto.jobTitle && u.teamId == dto.teamId
    ensures u.passwordHash == passwordHash
    ensures u.role == "USER" && u.pointBalance == 0
    ensures u.id == 0 && u.isActive == UnsetChar && u.updatedAt.None?
  {
    NewUserEntity().(fullName := dto.fullName, email := dto.email, passwordHash := passwordHash,
      jobTitle := dto.jobTitle, teamId := dto.teamId, role := "USER")
  }

  /** The annotations on the new entity come down to the request and the
      hash: the role the mapper fixes, "USER", always passes its own rule. */
  lemma RegistrationValidity(dto: UserCreateDto, passwordHash: string, isEmailAddress: string -> bool)
    ensures ValidUser(ToEntity(dto, passwordHash), isEmailAddress) <==>
              && Required(dto.fullName) && |dto.fullName| <= 255
              && Required(dto.email) && |dto.email| <= 255 && isEmailAddress(dto.email)
              && Required(passwordHash) && |passwordHash| <= 1000
              && LengthAtMost(dto.jobTitle, 100)
  {
    Text.NonBlankWitness("USER", 0);
  }

  function ToResponseDto(u: UserEntity): (d: UserResponseDto)
    ensures d.id == u.id && d.fullName == u.fullName && d.email == u.email
    ensures d.jobTitle == u.jobTitle && d.pointBalance == u.pointBalance
    ensures d.role == u.role && d.teamId == u.teamId
  {
    UserResponseDto(u.id, u.fullName, u.email, u.jobTitle, u.pointBalance, u.role, u.teamId)
  }

  /** The response reveals nothing of the password hash, the audit columns or
      the active flag: users differing only there map to the same DTO. */
  lemma ResponseHidesPrivateFields(u: UserEntity, hash: string, created: Timestamp, updated: Option<Timestamp>, active: char)
    ensures ToResponseDto(u.(passwordHash := hash, createdAt := created, updatedAt := updated, isActive := active))
         == ToResponseDto(u)
  {
  }

  /** Registering and reading back: the request's own fields come through,
      whatever the DTO's password, with role "USER" and a balance of 0. */
  lemma RegistrationRoundTrip(dto: UserCreateDto, hash: string, password: string)
    ensures ToResponseDto(ToEntity(dto.(password := password), hash))
         == UserResponseDto(0, dto.fullName, dto.email, dto.jobTitle, 0, "USER", dto.teamId)
  {
  }
}

/** Conversions between rewards and their DTOs. */
module RewardMapper {
  import opened Entities
  import opened Dtos

  function ToEntity(dto: RewardCreateUpdateDto): (r: RewardEntity)
    ensures r.name == dto.name && r.description == dto.description
    ensures r.pointCost == dto.pointCost && r.stockQuantity == dto.stockQuantity
    ensures r.id == 0 && r.createdAt == 0 && r.updatedAt.None? && r.isActive == UnsetChar
  {
    NewRewardEntity().(name := dto.name, description := dto.description,
      pointCost := dto.pointCost, stockQuantity := dto.stockQuantity)
  }

  function ToResponseDto(r: RewardEntity): (d: RewardResponseDto)
    ensures d.id == r.id && d.name == r.name && d.description == r.description
    ensures d.pointCost == r.pointCost && d.stockQuantity == r.stockQuantity
  {
    RewardResponseDto(r.id, r.name, r.description, r.pointCost, r.stockQuantity)
  }

  /** Request to entity to response keeps every field of the request. */
  lemma RoundTrip(dto: RewardCreateUpdateDto)
    ensures var d := ToResponseDto(ToEntity(dto));
      RewardCreateUpdateDto(d.name, d.description, d.pointCost, d.stockQuantity) == dto
  {
  }
}

/** Conversion of a loaded redemption to its history entry. */
module RedemptionMapper {
  import opened Common
  import opened Entities
  import opened Dtos

  /** Needs the `Reward` navigation loaded: dereferencing a missing one throws. */
  function ToResponseDto(r: RewardRedemptionEntity): (d: RedemptionResponseDto)
    requires r.reward.Some?
    ensures d.id == r.id && d.rewardId == r.rewardId && d.pointsSpent == r.pointsSpent
    ensures d.redeemedAt == r.redeemedAt
    ensures d.rewardName == r.reward.value.name
  {
    RedemptionResponseDto(r.id, r.rewardId, r.reward.value.name, r.pointsSpent, r.redeemedAt)
  }

  /** The entry shows the reward's name as loaded now, not a copy taken at
      redemption time: renaming the reward renames its history entries. */
  lemma NameIsLive(r: RewardRedemptionEntity, reward: RewardEntity, newName: string)
    ensures ToResponseDto(r.(reward := Some(reward.(name := newName)))).rewardName == newName
  {
  }

  /** The entry omits the user: redemptions differing only in `UserId` map alike. */
  lemma OmitsUser(r: RewardRedemptionEntity, userId: int)
    requires r.reward.Some?
    ensures ToResponseDto(r.(userId := userId)) == ToResponseDto(r)
  {
  }
}

/** Conversions between teams and their DTOs. */
module TeamMapper {
  import opened Entities
  import opened Dtos

  function ToEntity(dto: TeamCreateUpdateDto): (t: TeamEntity)
    ensures t.teamName == dto.teamName && t.id == 0
  {
    NewTeamEntity().(teamName := dto.teamName)
  }

  function ToResponseDto(t: TeamEntity): (d: TeamResponseDto)
    ensures d.id == t.id && d.teamName == t.teamName
  {
    TeamResponseDto(t.id, t.teamName)
  }
}
