# LevelUp loyalty backend — a Dafny model

LevelUp is a points-based loyalty platform. Users collect points and spend
them on rewards, which are drawn from a finite stock. Every redemption goes
into a ledger. This project models the application core in Dafny 4.11 and
proves properties of that model. The core covered here is:

- the redemption use case (`RedeemAsync`, `GetUserRedemptionsAsync`);
- the four repositories over the users, rewards, teams and redemptions tables;
- the user, reward and team use cases, which turn repository outcomes into an
  `OperationResult` with an HTTP status code;
- the user, reward, redemption and team mappers;
- the four entities and their data-annotation rules.

The database (`ApplicationContext`) is the class `Store.Database`. It holds
three tables as maps from id to row and the redemption ledger as a sequence.
Each table keeps the next identity value, starting at 1. Its `Valid()` state
holds at every commit:

- keys are issued ids, and each row's `Id` is its key;
- e-mails are unique, and so are team names;
- every redemption points at an existing user and an existing reward;
- the ledger's ids increase.

Repository and use-case methods take the database and say in their `ensures`
exactly what each table and counter becomes. Queries are functions over the
tables. Exceptions are values of `Results.RepoError`. The use cases' `catch`
blocks are `Results.InternalError` and `Results.CatchIdNotFound`.

Other modelling choices:

- `DateTime.UtcNow` is a `now: int` parameter, from an abstract clock.
- C# `int` fields (balance, cost, stock, points spent) are `Common.Int32`.
  The one subtraction that can overflow is written out as an unchecked 32-bit
  wrap (`Common.Sub32`).
- Strings are compared ordinally.
- `OrderBy` is a stable sort over key order.
- `Skip` and `Take` follow LINQ over a list held in memory: a negative skip
  skips nothing, and a take of zero or less returns nothing. On SQL Server
  those inputs fail instead (see "## Left out").
- The `[EmailAddress]` format check is a parameter `isEmailAddress`.

Properties the code does not have, which the model states as they are:

- `RedeemAsync` is not atomic
  (LevelUp.Application/UseCases/RewardRedemptionUseCase.cs:71-84). It makes
  three writes one after the other: the balance, the stock, then the ledger
  row. Each repository call saves on its own. There is no transaction, no
  concurrency token and no retry, and the result of `UpdateUserPointsAsync`
  is ignored. The model is that single sequential step.
- Nothing keeps a reward's cost positive. `PointCost` has only `[Required]`
  (LevelUp.Domain/Entities/RewardEntity.cs:27-29), which never rejects an
  `int`. The one rule that asks for a positive amount is `[Range(1,
  int.MaxValue)]` on the ledger row's `PointsSpent`
  (LevelUp.Domain/Entities/RewardRedemptionEntity.cs:30), and nothing
  checks it on save. So a free reward records a row its own rules reject
  (`RedemptionUseCase.RecordedRowValidity`,
  `RedemptionUseCase.FreeRewardRecordsInvalidRow`). A negative cost credits
  points (`RedemptionUseCase.NegativeCostCredits`), and the 32-bit
  difference can wrap (`Common.SubWrapsOnNegative`). The balance is proved
  non-negative only for costs ≥ 0.
- "Not found" is not one error. Lookups of users and rewards throw
  `NoContentException`, and the use cases' 404 clause never catches it. So
  `UserUseCase.GetByIdAsync`, `RewardUseCase.GetByIdAsync` and a redemption
  with an unknown user or reward answer 500. A team lookup answers 404.

## Model

| member | source | states |
|---|---|---|
| Common.Wrap32 | LevelUp.Application/UseCases/RewardRedemptionUseCase.cs:69 | an unchecked `int` result: exact when it fits in 32 bits, always congruent to the true value mod 2^32 |
| Common.Sub32 | LevelUp.Application/UseCases/RewardRedemptionUseCase.cs:69 | `PointBalance - PointCost` in unchecked `int`: the exact difference whenever it fits |
| Common.SubNoWrap | LevelUp.Application/UseCases/RewardRedemptionUseCase.cs:59-69 | with 0 ≤ cost ≤ balance, the new balance is exactly balance − cost and is ≥ 0 |
| Common.SubWrapsOnNegative | LevelUp.Application/UseCases/RewardRedemptionUseCase.cs:69 | with no lower bound on the cost, int.MaxValue − (−1) wraps to int.MinValue |
| Text.IntToString | LevelUp.Infra.Data/Repositories/UserRepository.cs:53 | the `{id}` interpolation writes a leading minus sign exactly for negative ids |
| Text.NatToStringInjective | LevelUp.Infra.Data/Repositories/UserRepository.cs:53 | two different non-negative numbers never print the same digits |
| Text.IntToStringInjective | LevelUp.Infra.Data/Repositories/UserRepository.cs:53 | two different ids never print the same text |
| Text.StrLeTotal | LevelUp.Infra.Data/Repositories/UserRepository.cs:71 | any two names compare in the ordinal order used by `OrderBy` |
| Text.StrLeTransitive | LevelUp.Infra.Data/Repositories/UserRepository.cs:71 | the ordinal string order is transitive |
| Text.StrLeAntisymmetric | LevelUp.Infra.Data/Repositories/TeamRepository.cs:43 | two strings ordered both ways are equal |
| Paging.Filter | LevelUp.Infra.Data/Repositories/RewardRepository.cs:48 | `Where`: every row kept satisfies the predicate, and every input row satisfying it is kept |
| Paging.FilterAppend | LevelUp.Infra.Data/Repositories/RewardRedemptionRepository.cs:25-26 | `Where` distributes over concatenation |
| Paging.FilterAll | LevelUp.Infra.Data/Repositories/RewardRepository.cs:48 | `Where` with a predicate every row satisfies returns the list unchanged |
| Paging.FilterCount | LevelUp.Infra.Data/Repositories/RewardRedemptionRepository.cs:28 | `Count()` after `Where` is the number of positions whose row matches |
| Paging.MapSeq | LevelUp.Application/UseCases/UserUseCase.cs:41 | `Select`: one mapped element per row, same order |
| Paging.Skip | LevelUp.Infra.Data/Repositories/RewardRepository.cs:54 | `Skip(n)`: the last \|s\|−n rows, all rows for n ≤ 0, none past the end |
| Paging.Take | LevelUp.Infra.Data/Repositories/RewardRepository.cs:55 | `Take(n)`: the first n rows, none for n ≤ 0, all when n exceeds the length |
| Paging.Slice | LevelUp.Infra.Data/Repositories/RewardRepository.cs:54-55 | `Skip(offset).Take(take)`: the page has min(max(0, take), max(0, \|s\|−max(0, offset))) rows, row i of the page is row max(0, offset)+i of the list, and the page ends within the list |
| Paging.MapWindow | LevelUp.Application/UseCases/UserUseCase.cs:41 | mapping a page cut from a list gives the images of the same window of that list, with the same length |
| Paging.SliceShape | LevelUp.Infra.Data/Repositories/RewardRedemptionRepository.cs:33-34 | for offset, take ≥ 0 the page has min(take, max(0, \|s\|−offset)) rows and row i is row offset+i |
| Paging.SliceSubset | LevelUp.Infra.Data/Repositories/RewardRedemptionRepository.cs:33-34 | every row of a page is a row of the list it was cut from |
| Paging.SliceSorted | LevelUp.Infra.Data/Repositories/RewardRepository.cs:53-55 | a page cut from an ordered list is ordered |
| Paging.SliceAll | LevelUp.Infra.Data/Repositories/RewardRepository.cs:54-55 | a property every row of the list has, every row of a page cut from it has |
| Paging.SliceDistinct | LevelUp.Infra.Data/Repositories/RewardRepository.cs:54-55 | if no two rows of the list share a key, no two rows of a page cut from it do |
| Paging.Insert | LevelUp.Infra.Data/Repositories/RewardRepository.cs:53 | one insertion step of `OrderBy` adds exactly one row |
| Paging.SortBy | LevelUp.Infra.Data/Repositories/RewardRepository.cs:53 | `OrderBy` keeps the number of rows |
| Paging.InsertPermutation | LevelUp.Infra.Data/Repositories/RewardRepository.cs:53 | an insertion step adds exactly the inserted row to the multiset |
| Paging.SortByPermutation | LevelUp.Infra.Data/Repositories/RewardRepository.cs:53 | `OrderBy` only reorders: same rows, same multiplicities |
| Paging.InsertSorted | LevelUp.Infra.Data/Repositories/RewardRepository.cs:53 | inserting into an ordered list keeps it ordered |
| Paging.SortBySorted | LevelUp.Infra.Data/Repositories/RewardRepository.cs:53 | for a total preorder, `OrderBy`'s output is ordered by the key |
| Paging.SortByAll | LevelUp.Infra.Data/Repositories/RewardRepository.cs:53 | a property every row has survives `OrderBy` |
| Paging.KeysUpTo | LevelUp.Infra.Data/Repositories/UserRepository.cs:69 | the table's keys below the identity counter, strictly increasing |
| Paging.KeysUpToComplete | LevelUp.Infra.Data/Repositories/UserRepository.cs:69 | every key below the counter is enumerated |
| Paging.KeysUpToCount | LevelUp.Infra.Data/Repositories/UserRepository.cs:69 | one enumerated key per table key in range |
| Paging.RowsUpTo | LevelUp.Infra.Data/Repositories/UserRepository.cs:69 | a table read in key order: row i is the row stored under key i |
| Paging.RowsUpToAll | LevelUp.Infra.Data/Repositories/TeamRepository.cs:40 | with all keys below the counter, the scan has exactly one row per table entry |
| Paging.RowsUpToStep | LevelUp.Infra.Data/Repositories/UserRepository.cs:69 | raising the counter by one appends at most the row under the new key |
| Paging.KeysWhereStep | LevelUp.Infra.Data/Repositories/UserRepository.cs:67 | the matching keys grow by one exactly when the new row matches |
| Paging.FilterRowsCount | LevelUp.Infra.Data/Repositories/UserRepository.cs:65-67 | `Where(p).CountAsync()` over a table is the number of keys whose row satisfies p |
| Paging.FilterRowsCountAll | LevelUp.Infra.Data/Repositories/RewardRepository.cs:48-50 | the same count, stated over the whole table |
| Paging.RowsUpToContains | LevelUp.Infra.Data/Repositories/UserRepository.cs:88-91 | every stored row is seen by a scan of the table |
| Paging.RowsUpToDistinct | LevelUp.Infra.Data/Repositories/UserRepository.cs:69 | a scan of a table keyed by row id lists no row twice |
| Paging.FilterDistinct | LevelUp.Infra.Data/Repositories/RewardRepository.cs:48 | `Where` over a list without repeats has no repeats |
| Paging.PermutationDistinct | LevelUp.Infra.Data/Repositories/RewardRepository.cs:53 | reordering a list without repeats (as `OrderBy` does) leaves no repeats |
| Paging.RowIsEntry | LevelUp.Infra.Data/Repositories/UserRepository.cs:69 | every scanned row is a stored row |
| Paging.PagedRowIsInput | LevelUp.Infra.Data/Repositories/RewardRepository.cs:52-57 | every row on an ordered page comes from the query's input |
| Paging.First | LevelUp.Infra.Data/Repositories/UserRepository.cs:91 | `FirstOrDefault(p)`: a row satisfying p from the list, or none exactly when no row does |
| Paging.FirstOfRows | LevelUp.Infra.Data/Repositories/UserRepository.cs:88-91 | over a table: a row is found iff some entry satisfies p, and it is a stored entry |
| Results.IdMessage | LevelUp.Infra.Data/Repositories/UserRepository.cs:53 | the message is the entity name, " com ID: ", the id in decimal, " - " and the tail, in that order |
| Results.IdMessageNamesId | LevelUp.Infra.Data/Repositories/UserRepository.cs:53 | the message determines the id: two ids give the same message only when they are equal |
| Results.InternalError | LevelUp.Application/UseCases/UserUseCase.cs:29-32 | the generic catch: failure, status 500, "Erro interno: " followed by the exception message |
| Results.CatchIdNotFound | LevelUp.Application/UseCases/UserUseCase.cs:82-89 | IdNotFoundException ↦ 404 with its own message; every other exception ↦ 500 "Erro interno: " + its message (both directions) |
| Entities.NewUserEntity | LevelUp.Domain/Entities/UserEntity.cs:14-46 | a new user: balance 0, role "USER", empty strings, no job title or team, id 0 |
| Entities.NewRewardEntity | LevelUp.Domain/Entities/RewardEntity.cs:14-42 | a new reward: stock 0, empty name, no description, id 0, active flag unset |
| Entities.NewRedemptionEntity | LevelUp.Domain/Entities/RewardRedemptionEntity.cs:24-26 | a new redemption's `RedeemedAt` is the construction time |
| Entities.NewTeamEntity | LevelUp.Domain/Entities/TeamEntity.cs:14-19 | a new team: id 0, empty name |
| Entities.UserFixtureValidity | LevelUp.Tests/Domain/Entities/UserEntityTests.cs:7-130 | the test fixture is valid; an empty or 256-character name, a malformed e-mail, an empty hash or an empty role is not |
| Entities.TeamFixtureValidity | LevelUp.Tests/Domain/Entities/TeamEntityTests.cs:7-66 | the test team is valid; an empty and a 101-character name are not |
| UserMapper.ToEntity | LevelUp.Application/Mappers/UserMapper.cs:9-20 | copies name, e-mail, job title and team; stores the given hash, not the DTO's password; role "USER"; balance 0 |
| UserMapper.RegistrationValidity | LevelUp.Application/Mappers/UserMapper.cs:9-20 | the new entity meets its annotations iff name, e-mail, the given hash and job title do; the role "USER" set by the mapper always passes |
| UserMapper.ToResponseDto | LevelUp.Application/Mappers/UserMapper.cs:22-33 | copies id, name, e-mail, job title, balance, role and team |
| UserMapper.ResponseHidesPrivateFields | LevelUp.Application/Mappers/UserMapper.cs:22-33 | the response does not depend on the password hash, timestamps or active flag |
| UserMapper.RegistrationRoundTrip | LevelUp.Application/Mappers/UserMapper.cs:9-33 | registration then response yields the request's fields, role "USER", balance 0, whatever the password |
| RewardMapper.ToEntity | LevelUp.Application/Mappers/RewardMapper.cs:9-18 | copies name, description, cost and stock; no id, timestamps or active flag |
| RewardMapper.ToResponseDto | LevelUp.Application/Mappers/RewardMapper.cs:20-29 | copies id, name, description, cost and stock |
| RewardMapper.RoundTrip | LevelUp.Application/Mappers/RewardMapper.cs:9-29 | request → entity → response gives back the request's four fields |
| RedemptionMapper.ToResponseDto | LevelUp.Application/Mappers/RedemptionMapper.cs:9-18 | copies id, reward id, points and time; the name comes from the loaded reward, which must be present |
| RedemptionMapper.NameIsLive | LevelUp.Application/Mappers/RedemptionMapper.cs:14 | renaming the loaded reward renames the history entry |
| RedemptionMapper.OmitsUser | LevelUp.Application/Mappers/RedemptionMapper.cs:11-17 | the entry does not depend on `UserId` |
| TeamMapper.ToEntity | LevelUp.Application/UseCases/TeamUseCase.cs:23 | the team built from a request carries its name and no id |
| TeamMapper.ToResponseDto | LevelUp.Application/UseCases/TeamUseCase.cs:24 | the team response carries the team's id and name |
| Store.Database.constructor | LevelUp.Infra.Data/AppData/ApplicationContext.cs:36-39 | an empty database whose identity counters start at 1, satisfying every invariant |
| Store.LedgerLoadable | LevelUp.Domain/Entities/RewardRedemptionEntity.cs:37-39 | the foreign key guarantees every ledger row's reward can be loaded |
| UserRepository.EmailNotFoundMessage | LevelUp.Infra.Data/Repositories/UserRepository.cs:95 | the EmailNotFoundException message is "Usuário com Email: ", then the e-mail, then " - Não encontrado.", each segment stated |
| UserRepository.EmailNotFoundMessageNamesEmail | LevelUp.Infra.Data/Repositories/UserRepository.cs:95 | the message names the e-mail: equal messages mean equal e-mails |
| UserRepository.GetByIdAsync | LevelUp.Infra.Data/Repositories/UserRepository.cs:101-114 | succeeds iff the id is stored and active, with that row; otherwise NoContentException "Usuário não encontrado." |
| UserRepository.GetByEmailAsync | LevelUp.Infra.Data/Repositories/UserRepository.cs:86-99 | returns an active stored user with that e-mail; fails with EmailNotFoundException iff there is none |
| UserRepository.GetByEmailFindsOwner | LevelUp.Infra.Data/Repositories/UserRepository.cs:88-91 | with unique e-mails, the lookup returns exactly the active user holding the address |
| UserRepository.AuthenticateAsync | LevelUp.Infra.Data/Repositories/UserRepository.cs:19-32 | returns an active stored user with that e-mail and hash; fails with NoContentException iff there is none |
| UserRepository.AuthenticateAgreesWithEmailLookup | LevelUp.Infra.Data/Repositories/UserRepository.cs:19-32 | authentication finds the same user as the e-mail lookup, and for a found e-mail it succeeds iff the hash matches |
| UserRepository.ByFullNameOrders | LevelUp.Infra.Data/Repositories/UserRepository.cs:71 | ordering by full name is a total preorder |
| UserRepository.ListedRowIsStored | LevelUp.Infra.Data/Repositories/UserRepository.cs:69-75 | every row of the ordered user listing is a stored user under its own id |
| UserRepository.ActiveCount | LevelUp.Infra.Data/Repositories/UserRepository.cs:65-67 | `Where(IsActive == 'Y').CountAsync()` is the number of active users |
| UserRepository.Listing | LevelUp.Infra.Data/Repositories/UserRepository.cs:69-71 | the ordered query before paging: one row per stored user, each under its own id, no id twice |
| UserRepository.ListingSorted | LevelUp.Infra.Data/Repositories/UserRepository.cs:71 | the listing is in full-name order |
| UserRepository.ListingComplete | LevelUp.Infra.Data/Repositories/UserRepository.cs:69-71 | every stored user, active or not, appears in the listing |
| UserRepository.GetAllAsync | LevelUp.Infra.Data/Repositories/UserRepository.cs:63-84 | Total = number of active users; Data is exactly the window of `Listing` (all users, soft-deleted ones too) from max(0, offset): row i is listing row max(0, offset)+i; length min(max(0, take), max(0, \|users\|−max(0, offset))); by full name; stored rows with distinct ids; offset and take echoed |
| UserRepository.TotalCountsOnlyActiveUsers | LevelUp.Infra.Data/Repositories/UserRepository.cs:65-75 | with one soft-deleted user, Total is 0 but the page lists that user |
| UserRepository.Registered | LevelUp.Infra.Data/Repositories/UserRepository.cs:34-40 | the stored row: new id, `CreatedAt` = now, `IsActive` 'Y' when unset, everything else as given |
| UserRepository.CreateAsync | LevelUp.Infra.Data/Repositories/UserRepository.cs:34-40 | adds exactly one user under the next id, findable by id; an e-mail already stored fails the save and changes nothing |
| UserRepository.DeleteAsync | LevelUp.Infra.Data/Repositories/UserRepository.cs:42-61 | missing or 'N' ⇒ IdNotFoundException, no change; otherwise only `IsActive`='N' and `UpdatedAt`=now change, and the user is no longer found |
| UserRepository.ApplyUpdate | LevelUp.Infra.Data/Repositories/UserRepository.cs:119-136 | name, e-mail, job title, team, role copied, `UpdatedAt` stamped; hash kept iff the incoming one is blank; balance kept iff the incoming one is −1; id, `CreatedAt`, `IsActive` kept |
| UserRepository.ApplyUpdateIdempotent | LevelUp.Infra.Data/Repositories/UserRepository.cs:116-143 | applying the same update twice equals applying it once |
| UserRepository.ApplyUpdateLastWins | LevelUp.Infra.Data/Repositories/UserRepository.cs:121-136 | an update carrying a hash and a balance hides any earlier update |
| UserRepository.UpdateAsync | LevelUp.Infra.Data/Repositories/UserRepository.cs:116-143 | missing or inactive ⇒ null and no change; an e-mail held by another user fails the save; otherwise only that user changes, as `ApplyUpdate` says |
| UserRepository.UpdateUserPointsAsync | LevelUp.Infra.Data/Repositories/UserRepository.cs:145-156 | true iff the user is stored and active, and then only its balance changes; false changes nothing |
| RewardRepository.GetByIdAsync | LevelUp.Infra.Data/Repositories/RewardRepository.cs:68-80 | succeeds iff the reward is stored and active; otherwise NoContentException with the user message |
| RewardRepository.ByPointCostOrders | LevelUp.Infra.Data/Repositories/RewardRepository.cs:53 | ordering by cost is a total preorder |
| RewardRepository.ListedRewardIsStored | LevelUp.Infra.Data/Repositories/RewardRepository.cs:52-57 | every row of the catalogue page is a stored, active reward |
| RewardRepository.Catalogue | LevelUp.Infra.Data/Repositories/RewardRepository.cs:48-53 | the ordered query before paging: as many rows as active rewards, each a stored active reward under its own id, no id twice, cheapest first |
| RewardRepository.CatalogueComplete | LevelUp.Infra.Data/Repositories/RewardRepository.cs:48-53 | every active stored reward appears in the catalogue |
| RewardRepository.GetAllAsync | LevelUp.Infra.Data/Repositories/RewardRepository.cs:46-66 | Total = number of active rewards; Data is exactly the window of `Catalogue` from max(0, offset): row i is catalogue row max(0, offset)+i; length min(max(0, take), max(0, Total−max(0, offset))); cheapest first; stored active rows with distinct ids |
| RewardRepository.CataloguePage | LevelUp.Infra.Data/Repositories/RewardRepository.cs:53-55 | a page cut from a cost-ordered list of distinct stored active rewards is cost-ordered, stored, active and distinct |
| RewardRepository.Registered | LevelUp.Infra.Data/Repositories/RewardRepository.cs:18-24 | the stored row: new id, `CreatedAt` = now, `IsActive` 'Y' when unset |
| RewardRepository.CreateAsync | LevelUp.Infra.Data/Repositories/RewardRepository.cs:18-24 | adds exactly one reward under the next id; nothing else changes |
| RewardRepository.DeleteAsync | LevelUp.Infra.Data/Repositories/RewardRepository.cs:26-44 | missing or 'N' ⇒ IdNotFoundException, no change; otherwise only `IsActive`='N' and `UpdatedAt` change |
| RewardRepository.ApplyUpdate | LevelUp.Infra.Data/Repositories/RewardRepository.cs:84-91 | name, description, cost, stock copied and `UpdatedAt` stamped; id, `CreatedAt`, `IsActive` kept |
| RewardRepository.ApplyUpdateLastWins | LevelUp.Infra.Data/Repositories/RewardRepository.cs:82-98 | two updates in a row leave what the second says |
| RewardRepository.ApplyStockChange | LevelUp.Application/UseCases/RewardRedemptionUseCase.cs:73-74 | writing back a reward with only its stock changed changes only the stock and `UpdatedAt` |
| RewardRepository.UpdateAsync | LevelUp.Infra.Data/Repositories/RewardRepository.cs:82-98 | missing or inactive ⇒ null and no change; otherwise only that reward changes, as `ApplyUpdate` says |
| TeamRepository.GetByIdAsync | LevelUp.Infra.Data/Repositories/TeamRepository.cs:58-71 | succeeds iff the team is stored; otherwise IdNotFoundException |
| TeamRepository.ByTeamNameOrders | LevelUp.Infra.Data/Repositories/TeamRepository.cs:43 | ordering by team name is a total preorder |
| TeamRepository.ByTeamNameStrict | LevelUp.Domain/Entities/TeamEntity.cs:9 | with unique names, two distinct teams never tie in the name order |
| TeamRepository.Listing | LevelUp.Infra.Data/Repositories/TeamRepository.cs:42-43 | the ordered query before paging: one row per stored team, each under its own id, no id twice |
| TeamRepository.ListingSorted | LevelUp.Infra.Data/Repositories/TeamRepository.cs:43 | the listing is in name order |
| TeamRepository.ListingComplete | LevelUp.Infra.Data/Repositories/TeamRepository.cs:42-43 | every stored team appears in the listing |
| TeamRepository.GetAllAsync | LevelUp.Infra.Data/Repositories/TeamRepository.cs:38-56 | Total = number of teams; Data is exactly the window of `Listing` from max(0, offset): row i is listing row max(0, offset)+i; length min(max(0, take), max(0, Total−max(0, offset))); by name; stored rows with distinct ids |
| TeamRepository.CreateAsync | LevelUp.Infra.Data/Repositories/TeamRepository.cs:18-23 | adds exactly one team under the next id; a name already stored fails the save and changes nothing |
| TeamRepository.Unassigned | LevelUp.Infra.Data/Repositories/TeamRepository.cs:58-63 | the members loaded by `Include(t => t.Users)` lose their team on save: same users, no user left in the team, a user's `TeamId` changes iff it was that team and then becomes null, no other field changes |
| TeamRepository.UnassignedKeepsTable | LevelUp.Infra.Data/Repositories/TeamRepository.cs:33-34 | unassigning keeps the user table keyed by id with unique e-mails |
| TeamRepository.UnassignedWithoutMembers | LevelUp.Infra.Data/Repositories/TeamRepository.cs:33-34 | deleting a team with no members changes no user |
| TeamRepository.DeleteAsync | LevelUp.Infra.Data/Repositories/TeamRepository.cs:25-36 | removes exactly that team and unassigns its members as `Unassigned` says; an unknown id throws IdNotFoundException and changes nothing |
| TeamRepository.UpdateAsync | LevelUp.Infra.Data/Repositories/TeamRepository.cs:73-84 | unknown ⇒ null; a name held by another team fails the save; otherwise only the name changes |
| RedemptionRepository.CreateAsync | LevelUp.Infra.Data/Repositories/RewardRedemptionRepository.cs:16-21 | appends exactly one row under the next id, existing rows untouched; a missing user or reward fails the save |
| RedemptionRepository.NewestFirstOrders | LevelUp.Infra.Data/Repositories/RewardRedemptionRepository.cs:32 | newest-first order is a total preorder |
| RedemptionRepository.IncludeReward | LevelUp.Infra.Data/Repositories/RewardRedemptionRepository.cs:31 | `Include`: each row with its stored reward loaded |
| RedemptionRepository.LedgerRowsWithout | LevelUp.Infra.Data/Repositories/RewardRedemptionRepository.cs:35 | the ledger rows with no navigation loaded, as the database holds them |
| RedemptionRepository.NewestHistory | LevelUp.Infra.Data/Repositories/RewardRedemptionRepository.cs:25-32 | the ordered query before paging: one row per ledger position of that user; every row belongs to that user, has its reward loaded and is a stored ledger row |
| RedemptionRepository.NewestHistoryOrder | LevelUp.Infra.Data/Repositories/RewardRedemptionRepository.cs:25-32 | the query is a permutation of the user's ledger rows with their rewards loaded (same rows, same multiplicities), ordered newest first |
| RedemptionRepository.HistoryRows | LevelUp.Infra.Data/Repositories/RewardRedemptionRepository.cs:25-29 | the `Where(r => r.UserId == userId)` rows: as many as the user's ledger positions, each of that user, with a stored reward, each a stored ledger row |
| RedemptionRepository.GetByUserIdAsync | LevelUp.Infra.Data/Repositories/RewardRedemptionRepository.cs:23-45 | Total = number of the user's rows; Data is exactly the window of `NewestHistory` from max(0, offset): row i is history row max(0, offset)+i; length min(max(0, take), max(0, Total−max(0, offset))); only that user's ledger rows, reward loaded, newest first; offset and take echoed |
| RedemptionRepository.AppendCounts | LevelUp.Infra.Data/Repositories/RewardRedemptionRepository.cs:28 | appending a row adds one to its user's count and none to anyone else's |
| UserUseCase.DeleteAsync | LevelUp.Application/UseCases/UserUseCase.cs:21-33 | success with the deleted user's DTO, or 500 for any failure, unknown id included |
| UserUseCase.GetAllAsync | LevelUp.Application/UseCases/UserUseCase.cs:35-60 | 200 with Total, Offset, Take copied through; entry i is the DTO of listing row max(0, offset)+i; length min(max(0, take), max(0, \|users\|−max(0, offset))); each the DTO of a stored user; in name order; no id twice |
| UserUseCase.PageDtos | LevelUp.Application/UseCases/UserUseCase.cs:41 | the DTOs of a page of stored users, in name order with distinct ids, are stored users' DTOs, in name order with distinct ids |
| UserUseCase.GetByEmailAsync | LevelUp.Application/UseCases/UserUseCase.cs:62-73 | success iff an active user has the e-mail; otherwise 500 |
| UserUseCase.GetByIdAsync | LevelUp.Application/UseCases/UserUseCase.cs:75-90 | success iff the user is active; an unknown id gives 500, never 404 |
| UserUseCase.UpdateRequest | LevelUp.Application/UseCases/UserUseCase.cs:96-106 | the request's fields, an empty hash, and a balance of −1 when the request has none |
| UserUseCase.UpdateRequestInvalid | LevelUp.Application/UseCases/UserUseCase.cs:96-106 | the entity handed to the repository never meets its own annotations, whatever the request, because its hash is empty |
| UserUseCase.UpdateKeepsPassword | LevelUp.Application/UseCases/UserUseCase.cs:103-105 | a profile update never changes the hash, and changes the balance iff the request carries one other than −1 |
| UserUseCase.UpdateAsync | LevelUp.Application/UseCases/UserUseCase.cs:92-125 | missing or inactive ⇒ 404; e-mail clash ⇒ 500; otherwise the updated user's DTO, with the hash unchanged |
| RewardUseCase.CreateAsync | LevelUp.Application/UseCases/RewardUseCase.cs:21-32 | 201 with the request's fields under the new id |
| RewardUseCase.DeleteAsync | LevelUp.Application/UseCases/RewardUseCase.cs:34-49 | success iff stored and not 'N'; otherwise 404 with the repository's message |
| RewardUseCase.GetAllAsync | LevelUp.Application/UseCases/RewardUseCase.cs:51-72 | 200 with the page's Total, Offset, Take; entry i is the DTO of catalogue row max(0, offset)+i; length min(max(0, take), max(0, Total−max(0, offset))); each an active stored reward's DTO; cheapest first; no id twice |
| RewardUseCase.PageDtos | LevelUp.Application/UseCases/RewardUseCase.cs:56 | the DTOs of a page of active stored rewards, cheapest first with distinct ids, keep all three properties |
| RewardUseCase.GetByIdAsync | LevelUp.Application/UseCases/RewardUseCase.cs:74-89 | success iff the reward is active; a missing one gives 500, not 404 |
| RewardUseCase.UpdateAsync | LevelUp.Application/UseCases/RewardUseCase.cs:91-112 | missing or inactive ⇒ 404; otherwise the request echoed under the reward's id |
| TeamUseCase.CreateAsync | LevelUp.Application/UseCases/TeamUseCase.cs:19-30 | 201 with the new team, or 500 when the name is taken |
| TeamUseCase.DeleteAsync | LevelUp.Application/UseCases/TeamUseCase.cs:32-47 | success iff the team exists, with the team removed and its members unassigned; otherwise 404 and nothing changed |
| TeamUseCase.GetAllAsync | LevelUp.Application/UseCases/TeamUseCase.cs:49-70 | 200 with Total, Offset, Take; entry i is the DTO of listing row max(0, offset)+i; length min(max(0, take), max(0, \|teams\|−max(0, offset))); each a stored team's DTO; in name order; no id twice |
| TeamUseCase.PageDtos | LevelUp.Application/UseCases/TeamUseCase.cs:54 | the DTOs of a page of stored teams, in name order with distinct ids, keep all three properties |
| TeamUseCase.GetByIdAsync | LevelUp.Application/UseCases/TeamUseCase.cs:72-87 | success iff the team exists; otherwise 404 |
| TeamUseCase.UpdateAsync | LevelUp.Application/UseCases/TeamUseCase.cs:89-110 | unknown ⇒ 404; name clash ⇒ 500; otherwise only the name changes |
| RedemptionUseCase.RedeemAsync | LevelUp.Application/UseCases/RewardRedemptionUseCase.cs:52-100 | success iff found, balance ≥ cost and stock > 0. Failures in order: 500 not found, 400 points, 400 stock, each with no change. On success: balance − cost (32-bit), stock − 1, one ledger row {next id, user, reward, now, cost} appended, 201 with that row; balance ≥ 0 when cost ≥ 0; stock ≥ 0; the user's history grows by one |
| RedemptionUseCase.RecordedRowValidity | LevelUp.Application/UseCases/RewardRedemptionUseCase.cs:76-82 | the ledger row a redemption appends meets the `[Range]` rules iff the reward costs at least 1 point |
| RedemptionUseCase.FreeRewardRecordsInvalidRow | LevelUp.Application/UseCases/RewardRedemptionUseCase.cs:59-82 | a zero-cost reward is redeemable, and the row recorded for it breaks `PointsSpent`'s range |
| RedemptionUseCase.NegativeCostCredits | LevelUp.Application/UseCases/RewardRedemptionUseCase.cs:59-69 | a reward costing −50 is valid and redeemable from a balance of 0, and the new balance is 50 |
| RedemptionUseCase.ToResponseDtos | LevelUp.Application/UseCases/RewardRedemptionUseCase.cs:34 | one history entry per loaded row, same order |
| RedemptionUseCase.GetUserRedemptionsAsync | LevelUp.Application/UseCases/RewardRedemptionUseCase.cs:27-50 | 500 iff the user is unknown or deleted; otherwise Total = the user's redemptions, offset and take echoed; entry i is the entry of history row max(0, offset)+i; newest first; each a recorded redemption of that user naming its reward's current name |
| RedemptionUseCase.HistoryDtos | LevelUp.Application/UseCases/RewardRedemptionUseCase.cs:34 | entries made from the user's loaded rows, newest first, name their rewards, are recorded in the ledger and stay newest first |

## Left out

- Concurrency is not modelled: interleavings, races between redemptions, and any token or retry protocol. The code has none of these, and each method here is one sequential step.
- Controllers, HTTP routing, JWT issuance, startup, dependency injection, health checks and migrations are framework code. Only the column defaults, identity seeds and unique indexes are taken from them.
- AuthUseCase is left out, because it calls BCrypt. `UserRepository.AuthenticateAsync` is modelled.
- Console logging in the exception constructors is a side effect and is left out.
- EF change tracking, `AsNoTracking`, and navigation fix-up after a save are left out. The `Team` and `Users` navigations loaded by `Include` are left out too; they are `[JsonIgnore]` and no mapper reads them.
- TeamRepository.DeleteAsync: the members are unassigned through EF's client-side `ClientSetNull` on the users it tracks (`Include` loads all of them). A member added by another request between the load and the save is not modelled.
- The `team_id` foreign key on users is not checked on create or update. The column length limits are not enforced by the store, only by the validity predicates.
- The store's unique indexes compare strings exactly. A case-insensitive collation is not modelled, and neither is the order the database would use for `OrderBy` on strings; the model uses the ordinal order.
- Rows that tie on the sort key come out in id order. The database does not promise any order for ties.
- Identity values lost by failed inserts are not modelled: a failed save leaves the counter where it was.
- Identity values and counts are unbounded integers. Overflow of the 32-bit id columns and of `CountAsync` is not modelled.
- String lengths count Dafny characters, not UTF-16 code units.
- Null strings for non-nullable columns are not modelled. A test that sets `PasswordHash` or `Role` to null is stated with the empty string, which the same `[Required]` rule rejects.
- The `[EmailAddress]` format check is the parameter `isEmailAddress`. Its .NET rule is not modelled.
- Each call reads the clock once (`now`). Separate `UtcNow` readings within one call are not distinguished.
- UserUseCase.GetAllAsync, RewardUseCase.GetAllAsync, TeamUseCase.GetAllAsync and RedemptionUseCase.GetUserRedemptionsAsync: the model pages an in-memory list, so a negative offset or a take of zero or less gives a 200 page. On SQL Server (LevelUp.Infra.IoC/Bootstrap.cs:19) EF Core sends `Skip`/`Take` as `OFFSET … FETCH NEXT …`; SQL Server rejects a negative OFFSET and a FETCH of zero or fewer rows, so the program answers 500 there ("Erro interno ao buscar usuários: …" for users, "Erro interno: …" for the others). The controllers pass both values through unchecked (LevelUp/Controllers/TeamController.cs:37). Database errors are not modelled, so these failure branches cannot be reached in the model.
- TeamMapper.cs and the Team DTO records are not part of this model. `TeamMapper.ToEntity` and `TeamMapper.ToResponseDto` assume they copy `TeamName` and `(Id, TeamName)`, as the team use case uses them.
