# Cooperative proposals: the voting-session lifecycle in Dafny

This project models the core of a cooperative's voting service. A proposal is
created and later gets at most one voting session, opened for a number of
seconds (60 when none is given). Opening the session schedules a delayed
"close this session" message. The message listener closes the session when the
message arrives. While the session is OPENED, associates vote YES or NO once
each. The service first checks each associate's CPF against a remote service,
then the proposal, then the proposal's OPENED session, then earlier votes.
A proposal shows WAITING, OPENED or CLOSED according to its session. Once it is
CLOSED, its details carry the yes/no tally. Errors reach the REST layer through
an exception handler. It maps validation failures to 400, NotFound to 404 and
SessionOpened to 409.

Modules, one per source unit:

- `Domain` (`domain.dfy`): the entities as values.
  - Proposal, VotingSession, Vote.
  - The service's exceptions.
  - `Option` and `Result`.
- `VoteRepository` (`vote_repository.dfy`): the vote table.
  - Its uniqueness constraint over (proposal, associate).
  - The existence query.
  - The tally query with its nullable proposal filter.
- `Repositories` (`repositories.dfy`): the three tables as one `Store` class.
  - Fields: a proposal map, and session and vote sequences.
  - The constraints the database enforces (`Valid`).
  - The extra state the services keep (`Consistent`: one session per proposal; every vote cast under a session of its own proposal).
  - The `save` operations.
- `Producer` (`session_producer.dfy`): the closure publisher.
  - A class recording every published (session id, delay in ms) pair.
- `VotingSessionService` (`voting_session_service.dfy`): session queries, creation, scheduling and closure.
  - Java `long` wrap-around of `duration * 1000L`.
- `AssociateValidationService` (`associate_validation.dfy`): the CPF check.
  - The `[^0-9]` cleaning.
  - The feature flag.
  - The remote client, taken as a function parameter.
- `VoteService` (`vote_service.dfy`): casting a vote and the tally response.
- `ProposalService` (`proposal_service.dfy`): proposals.
  - Creation and session opening.
  - The status derivation.
  - Page summaries and details.
- `ErrorHandler` (`error_handler.dfy`): the handler's output.
  - Field errors sorted stably by field name.
  - Each rendered "field: message", with `String.valueOf` turning a null message into "null".
  - Joined by "; ".
- `SessionConsumer` (`session_consumer.dfy`): the queue listener.
  - The trace-id choice.
  - The MDC put/remove bracket.
  - The closure.

Code that changes state is written imperatively:
- the repositories (`Store`);
- the producer;
- the listener's MDC;
- the service operations that save, as methods over these objects.

Each of those methods is specified against a pure function of the old state: `CastVote` against `CastVoteOutcome`, `CloseSession` against `CloseInTable`. The properties are proved about those functions.

## Model

| member | source | states |
|---|---|---|
| VoteRepository.ExistsByProposalIdAndAssociateId | src/main/java/com/miyazaki/cooperativeproposals/domain/repository/VoteRepository.java:15 | true exactly when some row has that proposal and that associate |
| VoteRepository.CountByZeroIffAbsent | src/main/java/com/miyazaki/cooperativeproposals/domain/repository/VoteRepository.java:15 | the pair's row count is zero iff the existence query answers false |
| VoteRepository.VotesOn | src/main/java/com/miyazaki/cooperativeproposals/domain/repository/VoteRepository.java:22 | the kept rows are exactly the table rows that pass `:proposalId IS NULL OR proposal_id = :proposalId`: every kept row passes it, and every row that passes it is kept, as often as it occurs in the table (the kept multiset is the table's multiset restricted to the filter) |
| VoteRepository.CountVoteResults | src/main/java/com/miyazaki/cooperativeproposals/domain/repository/VoteRepository.java:17-24 | the projection carries the YES count and the NO count, in that order, and they add up to the number of rows the filter keeps |
| VoteRepository.YesAndNoPartitionTheFilteredRows | src/main/java/com/miyazaki/cooperativeproposals/domain/repository/VoteRepository.java:18-19 | every filtered row is counted exactly once, as YES or as NO |
| VoteRepository.NullProposalCountsEveryVote | src/main/java/com/miyazaki/cooperativeproposals/domain/repository/VoteRepository.java:22 | a null proposal id keeps every row, so the two counts add up to the table size |
| VoteRepository.CountYes | src/main/java/com/miyazaki/cooperativeproposals/domain/repository/VoteRepository.java:18 | the YES column is zero exactly when no filtered row is a YES, and never exceeds the filtered rows |
| VoteRepository.CountNo | src/main/java/com/miyazaki/cooperativeproposals/domain/repository/VoteRepository.java:19 | the NO column is zero exactly when no filtered row is a NO, and never exceeds the filtered rows |
| VoteRepository.AppendCountsOnce | src/main/java/com/miyazaki/cooperativeproposals/domain/repository/VoteRepository.java:17-24 | helper for the tally lemmas: one unfolding step of a per-choice count over an appended row |
| VoteRepository.OneVotePerAssociateIffCountedOnce | src/main/java/com/miyazaki/cooperativeproposals/domain/entity/Vote.java:24-26 | the unique constraint on (proposal_id, associate_id) holds iff no (proposal, associate) pair has two rows |
| VoteRepository.AtMostOnceUnderConstraint | src/main/java/com/miyazaki/cooperativeproposals/domain/entity/Vote.java:24-26 | under the constraint each pair has at most one row |
| VoteRepository.CountByAtLeastTwo | src/main/java/com/miyazaki/cooperativeproposals/domain/entity/Vote.java:24-26 | two rows sharing proposal and associate give that pair a count of at least two |
| Repositories.FindById | src/test/java/com/miyazaki/cooperativeproposals/service/VotingSessionServiceTest.java:211 | `findById`: returns the session with that id, and returns nothing iff no row has that id |
| Repositories.FindByProposalId | src/main/java/com/miyazaki/cooperativeproposals/domain/repository/VotingSessionRepository.java:14 | returns a session of that proposal, and returns nothing iff the proposal has no session |
| Repositories.FindByProposalIdAndStatus | src/main/java/com/miyazaki/cooperativeproposals/domain/repository/VotingSessionRepository.java:16 | returns a session of that proposal with that status, and returns nothing iff there is none |
| Repositories.Store.SaveProposal | src/main/java/com/miyazaki/cooperativeproposals/service/ProposalService.java:45 | the proposal table maps the id to the proposal; the other tables are unchanged; the table constraints are kept |
| Repositories.Store.SaveSession | src/main/java/com/miyazaki/cooperativeproposals/service/VotingSessionService.java:38 | overwrites the row with the session's id, or appends the session when there is none; constraints kept |
| Repositories.Store.SaveVote | src/main/java/com/miyazaki/cooperativeproposals/domain/entity/Vote.java:24-26 | a second vote by the same associate on the same proposal violates uk_vote_proposal_associate and leaves the table as it was; any other vote is appended |
| Producer.SessionProducer.SchedulerSessionClosure | src/main/java/com/miyazaki/cooperativeproposals/rabbitmq/producer/SessionProducer.java:17-28 | exactly one closure message, with that session id and x-delay, is appended to the published messages |
| VotingSessionService.WrapLong | src/main/java/com/miyazaki/cooperativeproposals/service/VotingSessionService.java:42 | the result is a Java long, congruent to the input modulo 2^64, and the input itself when it fits |
| VotingSessionService.DelayMs | src/main/java/com/miyazaki/cooperativeproposals/service/VotingSessionService.java:42 | `duration * 1000L` is a long, and it equals the mathematical product whenever the duration is within Long.MAX_VALUE / 1000 |
| VotingSessionService.HasVotingSessionOpened | src/main/java/com/miyazaki/cooperativeproposals/service/VotingSessionService.java:24-27 | true iff any session of the proposal exists, whatever its status |
| VotingSessionService.GetSessionActiveByProposalId | src/main/java/com/miyazaki/cooperativeproposals/service/VoteService.java:67 | returns an OPENED session of the proposal, or NotFound iff the proposal has no OPENED session |
| VotingSessionService.Create | src/main/java/com/miyazaki/cooperativeproposals/service/VotingSessionService.java:29-39 | stores and returns one new OPENED session of the proposal, opened now, closing `duration` seconds later; nothing else changes |
| VotingSessionService.SchedulerSessionClosure | src/main/java/com/miyazaki/cooperativeproposals/service/VotingSessionService.java:41-43 | publishes one closure for the session with the delay `duration * 1000L` |
| VotingSessionService.CloseInTable | src/test/java/com/miyazaki/cooperativeproposals/service/VotingSessionServiceTest.java:203-219 | closing keeps the table's length and only moves sessions towards CLOSED; ids, proposals and times stay |
| VotingSessionService.CloseInTableEffect | src/test/java/com/miyazaki/cooperativeproposals/service/VotingSessionServiceTest.java:203-219 | the named session is CLOSED afterwards and every other session is untouched |
| VotingSessionService.CloseIsIdempotent | src/test/java/com/miyazaki/cooperativeproposals/service/VotingSessionServiceTest.java:203-219 | a redelivered closure leaves the table as the first delivery did |
| VotingSessionService.CloseOfClosedIsNoOp | src/test/java/com/miyazaki/cooperativeproposals/service/VotingSessionServiceTest.java:203-219 | closing a session that is already CLOSED, or absent, changes nothing |
| VotingSessionService.SameRowsKeepInvariants | src/test/java/com/miyazaki/cooperativeproposals/service/VotingSessionServiceTest.java:203-219 | a change that keeps every row's id and proposal keeps one session per proposal, keeps every vote under its own proposal's session, and keeps every session id present |
| VotingSessionService.CloseSession | src/test/java/com/miyazaki/cooperativeproposals/service/VotingSessionServiceTest.java:203-244 | a null message or an unknown id gives NotFound("Voting session not found!") and no change; otherwise the session is saved CLOSED and returned, with the table equal to CloseInTable of the old one |
| AssociateValidationService.CleanCpf | src/main/java/com/miyazaki/cooperativeproposals/service/AssociateValidationService.java:30 | the cleaned CPF is never longer than the input |
| AssociateValidationService.CleanCpfAppend | src/main/java/com/miyazaki/cooperativeproposals/service/AssociateValidationService.java:30 | cleaning a concatenation is the concatenation of the cleaned parts |
| AssociateValidationService.CleanCpfKeepsEveryDigit | src/main/java/com/miyazaki/cooperativeproposals/service/AssociateValidationService.java:30 | each digit occurs as often in the output as in the input; no non-digit occurs in it |
| AssociateValidationService.CleanCpfIsDigits | src/main/java/com/miyazaki/cooperativeproposals/service/AssociateValidationService.java:30 | the output contains only characters matched by `[0-9]` |
| AssociateValidationService.DigitsAreKept | src/main/java/com/miyazaki/cooperativeproposals/service/AssociateValidationService.java:30 | an all-digit CPF is sent unchanged |
| AssociateValidationService.CleanCpfIdempotent | src/main/java/com/miyazaki/cooperativeproposals/service/AssociateValidationService.java:30 | cleaning twice is cleaning once |
| AssociateValidationService.FormattedCpfLosesPunctuation | src/main/java/com/miyazaki/cooperativeproposals/service/AssociateValidationService.java:30 | a "ddd.ddd.ddd-dd"-shaped CPF is sent as its digit groups in order |
| AssociateValidationService.IsValidCpf | src/main/java/com/miyazaki/cooperativeproposals/service/AssociateValidationService.java:23-45 | disabled: true without a query; enabled: the query is the cleaned CPF, the answer is true iff the reply's status is ABLE_TO_VOTE, and a null CPF, a client failure or a null reply (and nothing else) raise RuntimeException("Erro ao validar cpf") |
| AssociateValidationService.SameDigitsSameAnswer | src/main/java/com/miyazaki/cooperativeproposals/service/AssociateValidationService.java:30-34 | two CPFs with the same digits get the same answer |
| ErrorHandler.LessEq | src/main/java/com/miyazaki/cooperativeproposals/exception/ErrorHandler.java:20 | the `compareTo` order on field names: a prefix comes first, and differing first characters decide by the smaller one (any later position: `LessEqFirstDifference`) |
| ErrorHandler.LessEqFirstDifference | src/main/java/com/miyazaki/cooperativeproposals/exception/ErrorHandler.java:20 | when two names agree before position k and differ at k, the characters at k decide the order |
| ErrorHandler.LessEqReflexive | src/main/java/com/miyazaki/cooperativeproposals/exception/ErrorHandler.java:20 | the field-name order is reflexive |
| ErrorHandler.LessEqTotal | src/main/java/com/miyazaki/cooperativeproposals/exception/ErrorHandler.java:20 | any two field names are comparable |
| ErrorHandler.LessEqTransitive | src/main/java/com/miyazaki/cooperativeproposals/exception/ErrorHandler.java:20 | the field-name order is transitive |
| ErrorHandler.LessEqAntisymmetric | src/main/java/com/miyazaki/cooperativeproposals/exception/ErrorHandler.java:20 | names ordered both ways are equal |
| ErrorHandler.Insert | src/main/java/com/miyazaki/cooperativeproposals/exception/ErrorHandler.java:20 | the insertion holds the old entries plus the new one, as a multiset |
| ErrorHandler.SortByField | src/main/java/com/miyazaki/cooperativeproposals/exception/ErrorHandler.java:20 | the sorted errors are a permutation of the input |
| ErrorHandler.InsertKeepsSorted | src/main/java/com/miyazaki/cooperativeproposals/exception/ErrorHandler.java:20 | inserting into a sorted list keeps it sorted by field |
| ErrorHandler.SortByFieldIsSorted | src/main/java/com/miyazaki/cooperativeproposals/exception/ErrorHandler.java:20 | the output is ordered by field name, whatever the input order |
| ErrorHandler.InsertIsStable | src/main/java/com/miyazaki/cooperativeproposals/exception/ErrorHandler.java:20 | an insertion goes in front of the errors on its own field name |
| ErrorHandler.SortByFieldIsStable | src/main/java/com/miyazaki/cooperativeproposals/exception/ErrorHandler.java:20 | errors on the same field keep their relative order |
| ErrorHandler.MessageText | src/main/java/com/miyazaki/cooperativeproposals/exception/ErrorHandler.java:21 | a null default message reads "null"; any other is kept |
| ErrorHandler.Render | src/main/java/com/miyazaki/cooperativeproposals/exception/ErrorHandler.java:21 | the entry is the field name, then ": ", then the message text, and nothing else |
| ErrorHandler.RenderAll | src/main/java/com/miyazaki/cooperativeproposals/exception/ErrorHandler.java:21 | one "field: message" entry per error, at the same position |
| ErrorHandler.Join | src/main/java/com/miyazaki/cooperativeproposals/exception/ErrorHandler.java:22 | no entries join to "", one entry joins to itself |
| ErrorHandler.JoinSnoc | src/main/java/com/miyazaki/cooperativeproposals/exception/ErrorHandler.java:22 | one more entry adds exactly "; " and the entry at the end |
| ErrorHandler.JoinBoundaries | src/main/java/com/miyazaki/cooperativeproposals/exception/ErrorHandler.java:22 | the text starts with the first entry and ends with the last: no leading or trailing separator |
| ErrorHandler.JoinLength | src/main/java/com/miyazaki/cooperativeproposals/exception/ErrorHandler.java:22 | the length is the entries' total plus two per separator, n - 1 separators |
| ErrorHandler.Details | src/main/java/com/miyazaki/cooperativeproposals/exception/ErrorHandler.java:19-22 | no field errors give an empty details text; one error gives just its own entry |
| ErrorHandler.DetailsListEachErrorOnce | src/main/java/com/miyazaki/cooperativeproposals/exception/ErrorHandler.java:19-22 | the entries in the details are exactly the rendered errors, each once |
| ErrorHandler.TwoErrorsOutOfOrder | src/main/java/com/miyazaki/cooperativeproposals/exception/ErrorHandler.java:19-22 | two errors given in descending field order come out ascending, joined by "; " |
| ErrorHandler.HandleValidError | src/main/java/com/miyazaki/cooperativeproposals/exception/ErrorHandler.java:15-31 | 400, message "Parâmetros inválidos", details the sorted, rendered, joined field errors |
| ErrorHandler.NotFoundHandler | src/main/java/com/miyazaki/cooperativeproposals/exception/ErrorHandler.java:33-38 | 404 carrying the exception's message and no details |
| ErrorHandler.SessionOpenedHandler | src/main/java/com/miyazaki/cooperativeproposals/exception/ErrorHandler.java:40-45 | 409 carrying the exception's message and no details |
| ErrorHandler.Handle | src/main/java/com/miyazaki/cooperativeproposals/exception/ErrorHandler.java:33-45 | a response exists iff the exception is NotFound or SessionOpened, and it is that handler's response |
| VoteService.GetProposal | src/main/java/com/miyazaki/cooperativeproposals/service/VoteService.java:99-105 | the stored proposal when the id is present, NotFound("Proposal not found!") iff it is absent |
| VoteService.GetActiveVotingSession | src/main/java/com/miyazaki/cooperativeproposals/service/VoteService.java:60-68 | NotFound("No active voting session…") without any session; otherwise the OPENED-session lookup; a success is an OPENED session of the proposal |
| VoteService.CreateVote | src/main/java/com/miyazaki/cooperativeproposals/service/VoteService.java:77-87 | the row is tied to the proposal and session found, and carries the request's associate and choice |
| VoteService.CastVoteOutcome | src/main/java/com/miyazaki/cooperativeproposals/service/VoteService.java:36-58 | the checks fail in order: CPF error, not allowed, proposal missing, no session, no OPENED session, duplicate. Success iff eligible, proposal present, an OPENED session exists and no earlier vote. The vote is then the request's, under that OPENED session |
| VoteService.CastVote | src/main/java/com/miyazaki/cooperativeproposals/service/VoteService.java:36-58 | returns CastVoteOutcome of the old tables; appends exactly that vote on success and nothing on failure; keeps the constraints and the service invariants |
| VoteService.GetVoteResult | src/main/java/com/miyazaki/cooperativeproposals/service/VoteService.java:89-97 | yes and no are the tally's counts, and the total is their sum, which is the number of the proposal's votes |
| VoteService.IneligibleIsDecidedFirst | src/main/java/com/miyazaki/cooperativeproposals/service/VoteService.java:41-43 | an associate who fails the CPF check gets the same failure whatever the tables hold |
| VoteService.ClosedSessionRejectsVote | src/main/java/com/miyazaki/cooperativeproposals/service/VoteService.java:60-68 | for any CPF configuration that lets the associate through, a proposal whose only session is CLOSED passes the existence check, but the vote fails at the OPENED-session lookup |
| VoteService.SecondVoteIsDuplicate | src/main/java/com/miyazaki/cooperativeproposals/service/VoteService.java:70-75 | after an accepted vote, the same associate's next vote on the proposal is a DuplicateVote |
| VoteService.AcceptedVoteIsTallied | src/main/java/com/miyazaki/cooperativeproposals/service/VoteService.java:89-97 | an added vote raises its proposal's total by one, on the side of its choice |
| VoteService.OtherProposalsUntouched | src/main/java/com/miyazaki/cooperativeproposals/service/VoteService.java:89-97 | a vote on one proposal leaves every other proposal's result unchanged |
| ProposalService.EffectiveDuration | src/main/java/com/miyazaki/cooperativeproposals/service/ProposalService.java:60 | the request's duration when request and field are non-null, else 60; within 0..3600 when the request passed validation |
| ProposalService.Create | src/main/java/com/miyazaki/cooperativeproposals/service/ProposalService.java:42-46 | stores the proposal built from the request under the new id; sessions and votes unchanged |
| ProposalService.OpenVotingSession | src/main/java/com/miyazaki/cooperativeproposals/service/ProposalService.java:48-69 | NotFound for an unknown proposal. SessionOpened when any session exists, whatever its status. Success iff neither: one new OPENED session lasting the effective duration, plus one closure scheduled after duration × 1000 ms. A failure changes nothing |
| ProposalService.AddingSessionKeepsInvariants | src/main/java/com/miyazaki/cooperativeproposals/service/ProposalService.java:55-62 | adding the first session of a proposal keeps one session per proposal, and keeps votes under their own proposal's session |
| ProposalService.DetermineProposalStatus | src/main/java/com/miyazaki/cooperativeproposals/service/ProposalService.java:109-118 | WAITING iff no session, OPENED iff the session is OPENED, CLOSED iff it is CLOSED |
| ProposalService.SessionOf | src/main/java/com/miyazaki/cooperativeproposals/service/ProposalService.java:110 | a returned session is in the table and belongs to the proposal; none is returned iff the session existence query is false |
| ProposalService.MapToProposalSummary | src/main/java/com/miyazaki/cooperativeproposals/service/ProposalService.java:98-107 | copies id, title and description; the status is the one derived from the proposal's session (WAITING iff it has none, otherwise OPENED or CLOSED as the session is) |
| ProposalService.GetAllProposals | src/main/java/com/miyazaki/cooperativeproposals/service/ProposalService.java:78-96 | one summary per proposal of the page, at the same position, with the page's number, size and totals |
| ProposalService.SummariesFollowPageOrder | src/main/java/com/miyazaki/cooperativeproposals/service/ProposalService.java:83-85 | the summaries carry the page's ids, titles and descriptions in page order |
| ProposalService.GetProposalDetail | src/main/java/com/miyazaki/cooperativeproposals/service/ProposalService.java:120-131 | NotFound iff the proposal is unknown. Otherwise the details carry its data and derived status, and the tally is attached iff that status is CLOSED. The tally is the proposal's vote result |
| ProposalService.OpeningMakesProposalOpened | src/main/java/com/miyazaki/cooperativeproposals/service/ProposalService.java:109-118 | a proposal without a session shows WAITING; after its new session is added it shows OPENED |
| ProposalService.ClosingMakesProposalClosed | src/main/java/com/miyazaki/cooperativeproposals/service/ProposalService.java:109-118 | closing a proposal's session makes the proposal show CLOSED |
| ProposalService.ClosedDetailsCountEveryVote | src/main/java/com/miyazaki/cooperativeproposals/service/ProposalService.java:126-129 | a CLOSED proposal's details carry a tally whose total is the number of its votes |
| SessionConsumer.IsBlank | src/main/java/com/miyazaki/cooperativeproposals/rabbitmq/consumer/SessionConsumer.java:27 | `String.isBlank`: the empty string is blank, and a string is blank iff every character is Java whitespace |
| SessionConsumer.ChooseTraceId | src/main/java/com/miyazaki/cooperativeproposals/rabbitmq/consumer/SessionConsumer.java:27 | the header when it is present and not blank, else "amqp-" followed by the generated id; never blank |
| SessionConsumer.SessionConsumer.OnMessage | src/main/java/com/miyazaki/cooperativeproposals/rabbitmq/consumer/SessionConsumer.java:24-41 | puts the trace id in the MDC and always removes it again. A null payload fails with a NullPointerException before any closure. Otherwise one closure is requested, its NotFound is passed on, and its table effect is CloseInTable |
| SessionConsumer.ConsecutiveClosures | src/test/java/com/miyazaki/cooperativeproposals/rabbitmq/consumer/SessionConsumerTest.java:141-164 | two closure messages close both sessions, touch no other, and commute |

## Left out

- The HTTP controllers, the DTO mappers and the response records.
  - Operations return the entities (`VotingSession`, `Vote`) in place of `SessionResponse`/`VoteResponse`.
  - `toProposalDetailsResponse` is taken to copy the proposal's id, title and description.
- `proposalRepository.findAll(pageable)`: the repository's page is a parameter of `GetAllProposals`.
  - Paging, sorting and counting are not modelled.
- RabbitMQ: the exchange/queue configuration, the broker's delayed delivery, retries, the dead-letter queue and the unused `x-death` header. The producer's copy of the MDC trace id into the message header is also out.
- Logging. The MDC is a field of the listener, not a thread-local. The HTTP tracing filter is not part of this model beyond its `TRACE_KEY` constant.
- Inputs passed in as parameters:
  - the clock (`now`, whole seconds);
  - generated UUIDs: fresh ids, and the listener's generated trace id as a string;
  - the remote CPF client, as a total function from query to reply. Timeouts and HTTP details become `ClientFailed`.
- Database behaviour the model does not cover:
  - transactions, optimistic locking and concurrent requests;
  - storage failures other than the ones named;
  - JPA lazy loading.
- `findByProposalId` with several rows for a proposal throws in Spring Data; the model returns the first. The services keep one session per proposal (`Consistent`), so the case does not arise in the modelled operations.
- `closeSession` is not in the included `VotingSessionService.java`. It is modelled after its use in `SessionConsumer.java` and after `VotingSessionServiceTest.java:202-244`.
- VotingSessionService.GetSessionActiveByProposalId: its body is not in the sources and no test calls it; it appears only as a mock in `VoteServiceTest.java` and `MobileControllerTest.java`. Keeping only OPENED sessions is inferred from its name and from the otherwise unused `findByProposalIdAndStatus` (`VotingSessionRepository.java:16`). `VoteService.ClosedSessionRejectsVote` and the "no OPENED session" failure of `VoteService.CastVoteOutcome` rest on that inference.
  - Its message text is not in the sources either; `ACTIVE_SESSION_NOT_FOUND` is a stand-in. Only the NotFound kind matters.
- `Vote.votedAt`: `createVote` sets it but the `Vote` entity has no such field, so it is not modelled.
- Handlers for DuplicateVote, AssociatePermissionVote and other exceptions are not in `ErrorHandler.java`. `Handle` returns no response for them: the framework's default handling is not modelled.
- ErrorHandler.LessEq: compares Unicode scalar values, while `String.compareTo` compares UTF-16 code units. The two orders differ only for characters outside the Basic Multilingual Plane.
- Java `Integer`/`Long` overflow in the vote counts and in `now.plusSeconds(duration)`. Counts and times are unbounded integers. Only `duration * 1000L` is modelled with 64-bit wrap-around.
- ProposalService.OpenVotingSession: requires the duration to be within the request validation's bounds (`@PositiveOrZero @Max(3600)`). The controller's `@Valid` enforces this before the service is reached.
- `getProposal` of `ProposalService` and of `VoteService` are the same lookup with the same message. Both are modelled by `VoteService.GetProposal`.
