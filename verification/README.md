# Verified models of the school-management services

Dafny models of the parts of the school-management system that hold real invariants: timed quizzes and the
gradebook they feed, bank reconciliation and the CSV code around it, the read-then-claim protocols for money, beds,
stock and books, the attendance register with its approved absences and the phone's offline queue, and the
arithmetic of tokens, ranks and leave. `dafny verify dfyconfig.toml` checks everything.

| file | models |
|---|---|
| `Common.dfy`, `Sums.dfy` | optional values, sequences, sizes of sets; sums of integer sequences |
| `Quizzes.dfy` | sitting and grading a quiz, with deadlines decided lazily and with a timer; scores; the gradebook cell |
| `QuizEffects.dfy` | what each quiz operation does to the rows; choices and scores over a whole run |
| `QuizService.dfy` | the same quiz as a service that updates its rows in place |
| `QuizStarts.dfy` | concurrent starts of attempts, read and insert being separate steps |
| `Csv.dfy`, `CsvRows.dfy`, `CsvFile.dfy` | the CSV writer, the bank importer's row splitter, a strict RFC 4180 reader |
| `StatementImport.dfy` | what becomes of each row of a pasted bank statement |
| `BankStatement.dfy`, `Reconciliation.dfy` | suggested matches; their confirmation |
| `Payments.dfy` | payment review with concurrent reviewers |
| `Hostel.dfy` | beds: the retry loop against concurrent allocations, free lists, the summary |
| `HostelEffects.dfy` | what each hostel operation does to the tables; how long an allocation lasts |
| `Inventory.dfy`, `Library.dfy` | stock issue and return with requests interleaved; lending as the one-unit case |
| `Register.dfy` | attendance marks and approved absences against one specification |
| `OfflineQueue.dfy` | the phone's queue of registers, compacted and flushed |
| `QueueRaces.dfy` | marking a register while a flush is under way, reads and write-backs being separate steps |
| `Jwt.dfy`, `Base64Url.dfy` | the base64 decoder with its 32-bit accumulator; base64url and the round trip |
| `Ranking.dfy` | rank lists and report-card positions |
| `WorkingDays.dfy`, `Leave.dfy` | working days; the annual allowance |

## How the models are built

Each service is a class whose fields are the tables it writes. A step function `Apply` says what an operation does to
the tables and what it answers; every method's contract equates the new tables and the answer with a step of that
function, and the lemmas are about every run of steps. What each operation does is stated once more without that
function's helpers, on the rows before and after alone (`...Does`, `...TakesEffect`, `...Exactly`), and from there what
a row holds at the end of any run: the last choice saved, the last decision taken, the allocation or loan not yet ended.
Conventions:

- A transaction, a conditional update, a single insert or an upsert is one atomic step. Unique indexes and CHECK
  constraints are guards on the write. Where a model is interleaved (payments, inventory, library, hostel allocation,
  quiz starts, queue races) the earlier read of an operation is a step of its own and any steps may come in between;
  elsewhere runs are runs of whole operations.
- Time is an integer that never goes back, dates are day numbers, money and marks are integers in minor units. One
  operation has one time, although `startAttempt` and `finalizeIfExpired` each read the clock.
- Rows are named by their place in their table, or by an id the model hands out. The quiz tables are those of one quiz
  and one student; other models are those of one school. Checks that an id belongs to the caller's school or class,
  that a class, student or holder exists, and the text of messages, are not modelled unless listed below.
- Numeric bounds the request schemas guarantee (units and bed numbers at least 1) are conditions on the steps.
- The bank importer is given its reading of dates and numbers and its recognition of a header as functions, and the
  network under the offline queue is a list of answers.

Where the code does less than its comments say, the model follows the code:

- `apps/api/src/leave/leave.service.ts:154-165` says only this calendar year counts, and that overlapping requests
  cannot each look affordable alone. The query asks for requests starting on or after 1 January and nothing else. Leave
  starting next year is charged to this year (`LeaveAllowance.NextYearsLeaveIsChargedThisYear`;
  `LeaveAllowance.OnlyThisYearCountsExactly` says exactly when that matters), and leave starting before this year is
  charged to no balance however far it reaches into the year: three overlapping requests of 14 working days of 2024 are
  accepted against an allowance of 15 (`LeaveAllowance.ThreeOverlappingRequestsAreAffordable`), and in fact any number
  (`LeaveAllowance.EarlyLeaveIsUnlimited`). `LeaveAllowance.EveryDayOfTheYearIsChargedExactly` has the exact condition
  under which every working day of the year is charged and the allowance therefore bounds them.
- `apps/api/src/bank-statement/bank-statement.service.ts:190-202` offers nothing the ledger should refuse only as long
  as no pending payment is matched already. Confirming a match does not take the payment out of the pending list, so a
  matched payment can be offered a second line (`Reconciliation.MatchedPaymentStillSuggested`).
  `Reconciliation.SuggestionsConfirm` has the exact condition.
- `apps/mobile/lib/offline-queue.ts:44-49` says only the latest version of a register matters. That holds when it marks
  everyone the older one did (`OfflineQueue.ReplacingLosesNothingExactly`); a student it leaves out is forgotten
  (`OfflineQueue.ReplacedRegisterLosesAMark`).
- `apps/mobile/lib/offline-queue.ts:50-100` reads the stored queue and later writes back what it made of that read, in
  both functions. A register whose marking completes while a flush is under way is overwritten
  (`QueueRaces.MarkedWhileFlushingIsLost`); one that is read before the flush's write-back and written after it is kept,
  but what was already sent is queued again (`QueueRaces.MarkedAcrossWriteBackIsKept`).
  `QueueRaces.MarkedDuringFlushExactly` and `QueueRaces.MarkedAcrossWriteBackExactly` say exactly when either changes
  what the server ends up with.
- `apps/api/src/quizzes/quizzes.service.ts:582-586` decides expiry on touch. To everyone who acts that is a timer; the
  results, the gradebook and the marked papers are read without settling anything, and agree with a timer's exactly
  while nothing is due (`Quizzes.ReadersSeeTheTimerExactly`).
- `apps/api/src/attendance/attendance.service.ts:28-32` reads the approvals before it writes the marks, so an approval
  in between is missed (`Register.ApprovalBetweenReadAndWrite`). `Register.WriteAgreesExactly` has the exact condition.
- A row without cells is written as an empty line, which reads back as one empty cell
  (`CsvRowSplitter.SplitInvertsJoinExactly`, `CsvFileReader.FileRoundTrip`).

## Model

| member | source | states |
|---|---|---|
| Quizzes.LazyExpiryIsATimer | apps/api/src/quizzes/quizzes.service.ts:582-593 | over every run, deciding expiry on touch gives the same answers to the same operations as a timer that settles each attempt at its deadline, and the same attempts and gradebook once what is due is settled |
| Quizzes.ReadersSeeTheTimerExactly | apps/api/src/quizzes/quizzes.service.ts:171-212 | over every run, the tables as they stand, which is what results and gradebook show, are the timer's if and only if no attempt is due |
| Quizzes.FinalizeIsTick | apps/api/src/quizzes/quizzes.service.ts:587-593 | settling the open attempt when it is touched is all a timer firing then would have done to the whole table |
| Quizzes.ApplyOnTicked | apps/api/src/quizzes/quizzes.service.ts:277-427 | whether or not the timer fires first, each operation answers the same and comes to the same table once what is due is settled |
| Quizzes.TimedLeavesNothingDue | apps/api/src/quizzes/quizzes.service.ts:277-427 | once everything due is settled, the lazy service and the one that never looks at a deadline do exactly the same, keep the table in order and leave nothing due |
| Quizzes.ExpiredIsAsOfTheDeadline | apps/api/src/quizzes/quizzes.service.ts:300-306 | over every run, an attempt that ends expired is the attempt as the operations before its deadline left it, marked, whichever operation settled it and however late; and some operation came at or after the deadline |
| Quizzes.NewIsNotDue | apps/api/src/quizzes/quizzes.service.ts:317-328 | a new attempt is open and its deadline, if any, is still to come |
| Quizzes.DeadlineDecides | apps/api/src/quizzes/quizzes.service.ts:587-593 | from any moment past the deadline on, an attempt takes no more answers and is never submitted: it stays as it is or expires as it is, with the score of the answers it has |
| Quizzes.SettledIsFinal | apps/api/src/quizzes/quizzes.service.ts:378-427 | in every run a settled attempt never changes again: status, answers and score |
| Quizzes.DeadlineNeverMoves | apps/api/src/quizzes/quizzes.service.ts:301-306 | in every run no attempt's deadline moves; resuming buys no time |
| Quizzes.ApplyKeepsValid | apps/api/src/quizzes/quizzes.service.ts:77-427 | every operation keeps: numbers 1..n within the allowance, only the last attempt open, one answer a question of this quiz, scores exactly on settled attempts, the cell equal to the best of them |
| Quizzes.GradeKeepsValid | apps/api/src/quizzes/quizzes.service.ts:491-534 | grading an attempt keeps that invariant and leaves the cell at the best attempt of the new table |
| Quizzes.ByAnswerIsByQuestion | apps/api/src/quizzes/quizzes.service.ts:513-520 | adding the awards up answer by answer gives what adding them up question by question gives |
| Quizzes.ScoreIsWhatThePaperShows | apps/api/src/quizzes/quizzes.service.ts:443-466 | in every run a settled attempt's score is the sum of the marks its marked paper shows, between 0 and its maximum, which is the full marks of the paper |
| Quizzes.PaperIsMarkedByTheKey | apps/api/src/quizzes/quizzes.service.ts:443-466 | in every run the marked paper of a settled attempt shows a question correct exactly when the saved choice is the key's, with its full marks then and nothing otherwise |
| Quizzes.BestIsMaximum | apps/api/src/quizzes/quizzes.service.ts:548-552 | the best attempt exists exactly when some attempt is scored, is one of them, and no score exceeds its |
| Quizzes.CellIsBestScore | apps/api/src/quizzes/quizzes.service.ts:536-579 | the gradebook cell holds the highest score over the settled attempts out of the full marks, and is empty exactly while none is settled |
| Quizzes.GradebookNeverLowers | apps/api/src/quizzes/quizzes.service.ts:541-543 | over every run the gradebook cell is never lowered or removed: a retake cannot lower a mark |
| QuizService.MarkAnswers | apps/api/src/quizzes/quizzes.service.ts:500-520 | the marking loop with its key map marks every answer and runs the score up to the sum of the awards |
| QuizService.Service.BestSettled | apps/api/src/quizzes/quizzes.service.ts:548-552 | the search gives the best settled and scored attempt, the earliest of equals |
| QuizService.Service.SyncGradebook | apps/api/src/quizzes/quizzes.service.ts:544-580 | the cell becomes the best attempt's marks, and is left alone when the quiz is not in the gradebook or nothing is settled |
| QuizService.Service.Grade | apps/api/src/quizzes/quizzes.service.ts:491-534 | the loops and writes amount to the grading step, gradebook included, and touch no other attempt |
| QuizService.Service.FinalizeIfExpired | apps/api/src/quizzes/quizzes.service.ts:587-593 | only an open attempt whose deadline has come is graded, as expired |
| QuizService.Service.StartAttempt | apps/api/src/quizzes/quizzes.service.ts:277-328 | the tables and the answer are those of the starting step: resumed, newly opened, or refused for each of the source's reasons |
| QuizService.Service.SaveAnswer | apps/api/src/quizzes/quizzes.service.ts:378-411 | the tables and the answer are those of the saving step, which holds exactly the choice saved (`QuizEffects.SavedIsHeld`), an expired attempt being settled first |
| QuizService.Service.SubmitAttempt | apps/api/src/quizzes/quizzes.service.ts:413-427 | the tables and the answer are those of the submitting step; a submit that lost to the clock still shows its result |
| QuizService.Service.ReplaceQuestions | apps/api/src/quizzes/quizzes.service.ts:77-104 | questions change only while the quiz is a draft |
| QuizService.Service.Publish | apps/api/src/quizzes/quizzes.service.ts:106-122 | a quiz without questions is refused, and publishing again changes nothing |
| QuizService.Service.AttemptResult | apps/api/src/quizzes/quizzes.service.ts:433-468 | the marked paper question by question from the answer map, with key, choice, correctness and marks, only once the attempt is settled |
| QuizService.Service.BestScore | apps/api/src/quizzes/quizzes.service.ts:193-204 | the best score of the results table is the highest over the settled attempts, is missing exactly while none is settled, and equals what the gradebook holds |
| QuizEffects.ChoicesAreTheLastSaved | apps/api/src/quizzes/quizzes.service.ts:402-408 | over every run, what an attempt holds for a question is the choice of the last answer to it that was saved, and what it held before the run while there is none |
| QuizEffects.ScoreIsOfTheLastChoices | apps/api/src/quizzes/quizzes.service.ts:500-531 | in every run a settled attempt's score is what the last choice saved for each question earns: its full marks where it is the key's, nothing elsewhere |
| QuizEffects.ExpiredScoreIsOfTheDeadline | apps/api/src/quizzes/quizzes.service.ts:587-593 | in every run the score of an expired attempt is that of the last choices saved before its deadline, and nothing later changed a choice |
| QuizEffects.PaperShowsTheChoices | apps/api/src/quizzes/quizzes.service.ts:443-466 | in every run the marked paper shows each question of the quiz as it stands, with the last choice saved for it |
| QuizEffects.SavedIsHeld | apps/api/src/quizzes/quizzes.service.ts:402-410 | an answer saved is the only choice the attempt holds for that question; its choices for the others, every other attempt and the quiz are as they were |
| QuizEffects.SaveRefused | apps/api/src/quizzes/quizzes.service.ts:378-402 | each refusal of an answer is given exactly for its own reason, and an answer is saved exactly when the attempt is open in time and the question has that option |
| QuizEffects.StartRefused | apps/api/src/quizzes/quizzes.service.ts:279-293 | a start is refused exactly while the quiz is unpublished, before it opens and from its closing on |
| QuizEffects.StartResumes | apps/api/src/quizzes/quizzes.service.ts:300-306 | an open attempt whose time is not up is handed back unchanged |
| QuizEffects.StartOpens | apps/api/src/quizzes/quizzes.service.ts:300-328 | otherwise one past its deadline is expired first, and the next number is opened, with its limit of minutes from now as the deadline, exactly while the allowance lasts |
| QuizEffects.SubmitDoes | apps/api/src/quizzes/quizzes.service.ts:413-427 | submitting settles an open attempt as submitted in time and as expired otherwise, keeps its choices and answers with its score; a settled one is not touched |
| QuizStarts.StartsNeverOverlap | apps/api/src/quizzes/quizzes.service.ts:295-344 | however many starts race between their reads and inserts, the numbers are exactly 1..n within the allowance, and at most one attempt is open, the highest-numbered |
| QuizStarts.CreateKeepsConsistent | apps/api/src/quizzes/quizzes.service.ts:316-343 | an insert the unique index lets through keeps the table in order, however old the read behind it |
| QuizStarts.TakenNumbers | apps/api/prisma/migrations/021_quizzes/migration.sql:93 | in an orderly table the numbers the index refuses are exactly 1..n |
| QuizStarts.OneOfTwoWins | apps/api/src/quizzes/quizzes.service.ts:333-343 | of two starts whose reads saw equally many attempts, once one has opened an attempt the other cannot |
| QuizStarts.CreateDoes | apps/api/src/quizzes/quizzes.service.ts:316-343 | an insert opens the next attempt exactly when none was opened since its read, the allowance lasts and what the read saw open is settled |
| QuizStarts.SettleOwnDoes | apps/api/src/quizzes/quizzes.service.ts:300-306 | a start hands the attempt it saw open back before its deadline and expires it from then on |
| CsvWriter.ToCsv | apps/api/src/reports/csv.ts:8-15 | joining the lines with CRLF and ending with one writes every record of the table as RFC 4180 lays records out, so that a reader gets every cell back (`CsvFileReader.FileGivesBack`) |
| CsvRowSplitter.SplitCsvRow | apps/api/src/bank-statement/bank-statement.service.ts:24-58 | the loop over `field`, `inQuotes` and `index` computes the scan of the row, for every row |
| CsvRowSplitter.ScanCell | apps/api/src/reports/csv.ts:17-31 | an escaped cell, quoted or not, is scanned back to its neutralised text whatever follows its comma |
| CsvRowSplitter.SplitInvertsJoin | apps/api/src/bank-statement/bank-statement.service.ts:24-58 | splitting a written row gives exactly each cell's neutralised text, quotes, commas and line breaks included |
| CsvRowSplitter.SplitInvertsJoinExactly | apps/api/src/reports/csv.ts:8-15 | that holds if and only if the row has a cell |
| CsvRowSplitter.RowGivesBack | apps/api/src/reports/csv.ts:17-31 | each field of a written row, split again, ends with the whole of its cell's text, has one character before it exactly when the text begins with one of the four formula characters, and never begins with one itself |
| CsvRowSplitter.SplitsByQuotesBefore | apps/api/src/bank-statement/bank-statement.service.ts:24-58 | every row, well-formed or not, is split exactly at the commas with an even number of quotes before them, and a quote is kept exactly when an odd number precede it and another follows |
| CsvFileReader.ReadRow | apps/api/src/reports/csv.ts:10-12 | a strict RFC 4180 reader takes a written row as one record, whatever follows |
| CsvFileReader.FileRoundTrip | apps/api/src/reports/csv.ts:8-31 | every file written is well-formed by section 2 of RFC 4180 and reads back as the same table, if and only if no row is without cells |
| CsvFileReader.FileGivesBack | apps/api/src/reports/csv.ts:8-31 | reading the written file back gives one record a row and in it every header and cell by its own text, a leading formula character alone being neutralised |
| CsvWriter.QuotedExactlyWhenNeeded | apps/api/src/reports/csv.ts:27-30 | a cell is quoted exactly when what is written holds a quote, a comma or a line break |
| CsvWriter.EndsWithCrlf | apps/api/src/reports/csv.ts:13-14 | the file ends its last record with CRLF too |
| StatementImport.Import | apps/api/src/bank-statement/bank-statement.service.ts:98-143 | the lines are those of the rows that read, in file order; every refused row is counted and the first 50 are described |
| StatementImport.ReportsExactly | apps/api/src/bank-statement/bank-statement.service.ts:126-133 | reports go down the file, each about its own row by its line number, and every refused row has one |
| StatementImport.EveryRowIsAccountedFor | apps/api/src/bank-statement/bank-statement.service.ts:111-142 | every row with content is imported, counted as skipped, or the one header: nothing is dropped silently |
| StatementImport.LinesInOrder | apps/api/src/bank-statement/bank-statement.service.ts:111-134 | the lines imported are those of the data rows that read, once each, in file order |
| StatementImport.ReportSays | apps/api/src/bank-statement/bank-statement.service.ts:121-133 | a report gives the line counted from 1, the reason, and the row, cut to 120 characters and three dots when it is longer |
| StatementImport.CappedAtFifty | apps/api/src/bank-statement/bank-statement.service.ts:126-133 | the first fifty reports are given, and all of them when there are no more |
| SuggestedMatches.SuggestMatches | apps/api/src/bank-statement/bank-statement.service.ts:203-233 | the list is exactly the first-come-first-served pairs of equal amounts, oldest submission first; it is a matching, as large as the amounts the two lists have in common counted with multiplicity, no other matching is larger, and nothing of one amount is left over on both sides |
| SuggestedMatches.FindLine | apps/api/src/bank-statement/bank-statement.service.ts:217-221 | the first line not spoken for of an amount is the one whose rank is the number of earlier claims on it, and there is one exactly while the amount has lines left |
| SuggestedMatches.MatchingBound | apps/api/src/bank-statement/bank-statement.service.ts:190-202 | no matching of equal amounts is larger than the amounts the two lists have in common |
| SuggestedMatches.FifoIsMatching | apps/api/src/bank-statement/bank-statement.service.ts:200-201 | pairing the k-th submission of an amount with its k-th line uses no submission and no line twice |
| SuggestedMatches.ListedIsMaximum | apps/api/src/bank-statement/bank-statement.service.ts:214-232 | the first-come-first-served list beats every rival matching |
| SuggestedMatches.OneSideIsServed | apps/api/src/bank-statement/bank-statement.service.ts:214-232 | no submission and line of one amount are both left out of the suggestions |
| SuggestedMatches.OlderServedFirst | apps/api/src/bank-statement/bank-statement.service.ts:199-221 | of two submissions of one amount the older is suggested whenever the newer is, and gets the older line |
| Reconciliation.Ledger.Claim | apps/api/src/bank-statement/bank-statement.service.ts:253-257 | the conditional update writes one unmatched line, or none, or is refused by the unique index, and says which |
| Reconciliation.Ledger.ConfirmMatch | apps/api/src/bank-statement/bank-statement.service.ts:245-290 | the new book and the answer are those of the confirming step, every refusal included |
| Reconciliation.MatchesAreInjectiveAndFinal | apps/api/src/bank-statement/bank-statement.service.ts:235-244 | over every run no payment has two lines and no matched line is ever re-pointed |
| Reconciliation.LineHoldsItsMatch | apps/api/src/bank-statement/bank-statement.service.ts:245-290 | over every run a line holds the payment it held, or the one whose confirmation was first answered matched, and otherwise none |
| Reconciliation.ConfirmAnswers | apps/api/src/bank-statement/bank-statement.service.ts:245-290 | each answer of a confirmation, told by the lines and payments there are, and nothing changed by a refusal |
| Reconciliation.MatchTakesEffect | apps/api/src/bank-statement/bank-statement.service.ts:253-257 | a match puts that payment on that line and touches no other |
| Reconciliation.ConfirmAllExactly | apps/api/src/bank-statement/bank-statement.service.ts:245-290 | confirming a list in any order matches exactly the payments without a line; nothing is refused if and only if none had one |
| Reconciliation.SuggestionsConfirm | apps/api/src/bank-statement/bank-statement.service.ts:203-290 | any ordering of any matching of pending submissions with unmatched lines is confirmed whole if and only if none of its payments was matched before |
| Reconciliation.MatchedPaymentStillSuggested | apps/api/src/bank-statement/bank-statement.service.ts:204-212 | a payment matched but still pending is on the list the suggestion loop gives, with a second line, which confirming refuses |
| Payments.RunConserves | apps/api/src/payments/payments.service.ts:107-234 | however reviews interleave, each invoice's balance is what it opened with plus the claims of its verified submissions, its status follows the balance, and VERIFIED is never left |
| Payments.DecideConserves | apps/api/src/payments/payments.service.ts:134-174 | a decision made on an old read, whatever it is, keeps the books balanced |
| Payments.CreditedAtMostOnce | apps/api/src/payments/payments.service.ts:135-148 | over every run a submission is credited once if the run verifies it, and otherwise never |
| Payments.StatusIsTheLastDecision | apps/api/src/payments/payments.service.ts:107-234 | over every run, however reviews interleave, a submission has the status last decided for it by a review that was not refused, and is pending while there is none |
| Payments.DecideAnswers | apps/api/src/payments/payments.service.ts:134-148 | a decision is refused exactly when the submission is verified by then, and a refusal changes nothing |
| Payments.DecisionTakesEffect | apps/api/src/payments/payments.service.ts:134-234 | a decision leaves the submission with that status and touches no other; verifying adds the claim to its own invoice, the others touch no invoice |
| Payments.AddingDoes | apps/api/src/payments/payments.service.ts:49-120 | claiming a payment and beginning a review add one row and touch no other, or are refused for want of the row |
| Payments.Service.SubmitPayment | apps/api/src/payments/payments.service.ts:49-88 | a pending submission is added for a known invoice and nothing else changes |
| Payments.Service.ReadForReview | apps/api/src/payments/payments.service.ts:113-120 | the first read refuses a missing or verified submission and otherwise remembers what it saw |
| Payments.Service.Claim | apps/api/src/payments/payments.service.ts:142-145 | one row is updated exactly when it exists and is not verified, and the count says so |
| Payments.Service.VerifyAndCredit | apps/api/src/payments/payments.service.ts:134-174 | the submission is claimed and the invoice credited together; a lost claim or a missing invoice changes nothing |
| Payments.Service.ClaimForReview | apps/api/src/payments/payments.service.ts:219-234 | rejecting or asking for information sets exactly that status on the submission (`Payments.DecisionTakesEffect`) and loses to a verification |
| Hostel.AllocateIsTruthful | apps/api/src/hostel/hostel.service.ts:176-204 | however other allocations interleave, at most `capacity` claims are made and the answer is true: placed in a bed of the room, or living somewhere already, or every bed 1..capacity taken |
| Hostel.AttemptIsTruthful | apps/api/src/hostel/hostel.service.ts:191-202 | one pass places the student, or says truly why not, or has seen one more bed taken than at its start |
| Hostel.Pigeonhole | apps/api/src/hostel/hostel.service.ts:189-190 | as many distinct beds taken as there are beds means every bed is taken |
| Hostel.FirstFreeIsLowest | apps/api/src/hostel/hostel.service.ts:192-197 | the bed tried is free and every lower bed is taken |
| Hostel.FreeBedsExactly | apps/api/src/hostel/hostel.service.ts:310-319 | the free list holds exactly the beds 1..capacity not taken |
| Hostel.FreeAndTaken | apps/api/src/hostel/hostel.service.ts:118-133 | taken and free beds make up the capacity |
| Hostel.FullMeansFull | apps/api/src/hostel/hostel.service.ts:189-203 | undisturbed, allocation answers full if and only if every bed is taken, and already resident if and only if a bed is free and the student lives somewhere |
| Hostel.BedsAreConserved | apps/api/src/hostel/hostel.service.ts:33-226 | in every run no bed and no student has two current allocations, every occupied bed exists, and every room lists occupied plus free equal to capacity |
| Hostel.Service.CreateRoom | apps/api/src/hostel/hostel.service.ts:33-48 | a room is added unless its block and number are taken |
| Hostel.Service.UpdateRoom | apps/api/src/hostel/hostel.service.ts:55-83 | the update is refused under an occupied bed or for a taken name, and otherwise changes that room only |
| Hostel.Service.RemoveRoom | apps/api/src/hostel/hostel.service.ts:85-97 | an empty room goes with its history, an inhabited one stays |
| Hostel.Service.Vacate | apps/api/src/hostel/hostel.service.ts:207-226 | a current allocation is ended once; a second click and a bad link are told apart |
| Hostel.Service.ClaimBed | apps/api/src/hostel/hostel.service.ts:273-308 | the insert succeeds unless an index refuses it, and then the second query decides which refusal it was |
| Hostel.Service.AllocateBed | apps/api/src/hostel/hostel.service.ts:176-187 | a named bed is claimed, or refused for each of the source's reasons |
| Hostel.Service.AllocateAny | apps/api/src/hostel/hostel.service.ts:189-204 | the retry loop, with other requests getting in at every wait, computes the allocation `AllocateIsTruthful` is about |
| Hostel.Summary | apps/api/src/hostel/hostel.service.ts:240-268 | each block is listed once with the figures of its rooms, and the blocks add up to the hostel's totals |
| HostelEffects.KeptUntilVacated | apps/api/src/hostel/hostel.service.ts:176-227 | over every run a student keeps the room and bed until the allocation is vacated, and exactly until then |
| HostelEffects.AllocateAnyDoes | apps/api/src/hostel/hostel.service.ts:176-204 | undisturbed, a student goes into the lowest bed nobody sleeps in, or the answer says that all are taken or that the student lives somewhere |
| HostelEffects.AllocateBedDoes | apps/api/src/hostel/hostel.service.ts:176-187 | a named bed is given exactly when the room has it, nobody sleeps in it and the student lives nowhere; each refusal has its own reason |
| HostelEffects.VacateDoes | apps/api/src/hostel/hostel.service.ts:207-226 | vacating frees the bed and the student, keeps the row, and touches no other |
| HostelEffects.CreateRoomDoes | apps/api/src/hostel/hostel.service.ts:33-53 | a room is added exactly when no other has its block and number |
| HostelEffects.UpdateRoomDoes | apps/api/src/hostel/hostel.service.ts:55-83 | an edit is refused exactly for an occupied bed above the new capacity or a name another room has |
| HostelEffects.RemoveRoomDoes | apps/api/src/hostel/hostel.service.ts:85-97 | a room goes with its own allocations and no others, exactly when nobody lives in it |
| HostelEffects.OccupancyExactly | apps/api/src/hostel/hostel.service.ts:118-133 | a room reports one occupied bed to each resident and exactly the beds nobody sleeps in |
| HostelEffects.SummaryFigures | apps/api/src/hostel/hostel.service.ts:240-268 | each block has the rooms, beds and residents of its own rooms, and the blocks add up to the hostel |
| Inventory.UnitsAreConserved | apps/api/src/inventory/inventory.service.ts:172-271 | however issues and returns interleave, an item's counter is the units over its unreturned assignments, within 0 and the quantity held |
| Inventory.DecrementHits | apps/api/src/inventory/inventory.service.ts:250-255 | the guarded decrement of an open assignment always finds its row |
| Inventory.ReserveConserves | apps/api/src/inventory/inventory.service.ts:183-218 | a reservation keeps the counters right, however old the checks before it |
| Inventory.ReceiveConserves | apps/api/src/inventory/inventory.service.ts:237-270 | a return keeps the counters right, however old its read |
| Inventory.TagsStayUnique | apps/api/src/inventory/inventory.service.ts:356-361 | in every run no two items carry one asset tag |
| Inventory.OpenUntilReturned | apps/api/src/inventory/inventory.service.ts:172-270 | over every run, returns interleaved, an assignment is open until the return of it that is answered done, and exactly until then |
| Inventory.IssueDoes | apps/api/src/inventory/inventory.service.ts:183-218 | units are issued exactly when as many are held and not out, under one new open assignment; a refusal says how many are left |
| Inventory.FinishReturnDoes | apps/api/src/inventory/inventory.service.ts:227-270 | a return closes an assignment still open, takes its units off its item and marks the item exactly when it came back damaged or written off |
| Inventory.CreateItemDoes | apps/api/src/inventory/inventory.service.ts:32-51 | a new item has nothing out and is in good condition unless said otherwise; a tag in use is refused |
| Inventory.UpdateItemDoes | apps/api/src/inventory/inventory.service.ts:58-84 | an edit is refused exactly below what is out or for a tag in use, and never edits what is out |
| Inventory.RemoveItemDoes | apps/api/src/inventory/inventory.service.ts:86-94 | an item goes with its assignments and no others, exactly when none of it is out |
| Inventory.Service.CreateItem | apps/api/src/inventory/inventory.service.ts:32-51 | an item is added with nothing out, unless its asset tag is taken |
| Inventory.Service.UpdateItem | apps/api/src/inventory/inventory.service.ts:58-84 | quantity never drops below what is out and a taken asset tag is refused; otherwise tag, quantity and, if given, condition change and what is out does not |
| Inventory.Service.RemoveItem | apps/api/src/inventory/inventory.service.ts:86-94 | an item with units out stays; another goes with its assignments |
| Inventory.Service.Reserve | apps/api/src/inventory/inventory.service.ts:183-218 | the conditional update and the assignment row happen together or not at all, and a refusal says what is available |
| Inventory.Service.ReadForReturn | apps/api/src/inventory/inventory.service.ts:228-235 | the first read refuses a missing or returned assignment and otherwise remembers what it saw |
| Inventory.Service.Receive | apps/api/src/inventory/inventory.service.ts:237-270 | the claim, the guarded decrement and the condition happen together; a double return changes nothing |
| Library.LendingIsIssuingOneUnit | apps/api/src/library/library.service.ts:44-116 | every lending operation is the issue or return of one unit of stock, without the guard on the way back |
| Library.CopiesAreConserved | apps/api/src/library/library.service.ts:31-116 | in every run copies on the shelf and open loans make up the copies owned, and neither leaves its range |
| Library.OpenUntilReturned | apps/api/src/library/library.service.ts:44-116 | over every run a loan is open until its return is answered done, and exactly until then |
| Library.BorrowDoes | apps/api/src/library/library.service.ts:51-78 | a copy is lent exactly when one is on the shelf, under one new open loan of that book |
| Library.ReturnBookDoes | apps/api/src/library/library.service.ts:92-116 | an open loan is closed and its own book gets the copy back; a closed one is refused |
| Library.Service.CreateBook | apps/api/src/library/library.service.ts:14-25 | a new book has all its copies available |
| Library.Service.Borrow | apps/api/src/library/library.service.ts:51-78 | a copy is claimed and a loan opened together, or the refusal says whether the book or the copy was missing |
| Library.Service.ReturnBook | apps/api/src/library/library.service.ts:92-116 | a loan is closed once and gives back one copy |
| Register.RegisterAgrees | apps/api/src/absences/absences.service.ts:124-185 | in every run of marking, asking, deciding and withdrawing, each record is the last mark submitted, an ABSENT reading EXCUSED exactly when an approved absence covers it, and no two live requests of a student overlap |
| Register.WriteAgreesExactly | apps/api/src/attendance/attendance.service.ts:28-68 | writing marks on an old reading of the approvals leaves the register right if and only if no student marked absent was approved since |
| Register.ApprovalBetweenReadAndWrite | apps/api/src/attendance/attendance.service.ts:28-32 | an input on which that fails: the approval comes between, and the record stays ABSENT |
| Register.MarkAndDecideCommute | apps/api/src/absences/absences.service.ts:111-123 | marking a register and deciding a request give the same database in either order |
| Register.UpsertsAt | apps/api/src/attendance/attendance.service.ts:32-68 | a register changes exactly the records of its class and day that it names, to its last word on each |
| Register.CoverAfter | apps/api/src/absences/absences.service.ts:135-143 | deciding or withdrawing a pending request covers new days only by approving them |
| Register.DecideAgrees | apps/api/src/absences/absences.service.ts:160-172 | rewriting the ABSENT records of an approved range makes the register agree, and declining leaves it so |
| Register.StatusIsTheDecision | apps/api/src/absences/absences.service.ts:124-205 | over every run, a request that began pending ends approved, rejected or cancelled exactly when the run holds an approval, a refusal or a withdrawal of it that was answered done |
| Register.DecisionTakesEffect | apps/api/src/absences/absences.service.ts:135-172 | declining leaves the request rejected and every record as it was; approving leaves it approved, excuses exactly the ABSENT records of its student and days, and covers exactly those days in addition |
| Register.DecidingRefused | apps/api/src/absences/absences.service.ts:124-143 | a decision is refused exactly for a missing request or one no longer pending |
| Register.MarkingTakesEffect | apps/api/src/attendance/attendance.service.ts:28-68 | a sheet records the last entry for each student it names, an ABSENT as EXCUSED exactly when an approved request spans the day, and touches no other record |
| Register.MarkingRefused | apps/api/src/attendance/attendance.service.ts:116-137 | a sheet is refused exactly when it names somebody not in its class, and says how many |
| Register.AskingDoes | apps/api/src/absences/absences.service.ts:43-85 | a request is refused exactly for more than 30 days or for sharing a day with a live one of its student |
| Register.CancellingDoes | apps/api/src/absences/absences.service.ts:188-205 | a withdrawal changes only the status of the request, and each refusal has its own reason |
| Register.School.StudentsExcusedOn | apps/api/src/attendance/attendance.service.ts:83-103 | the set is exactly the students marked absent whom an approved absence covers that day |
| Register.School.MarkAttendance | apps/api/src/attendance/attendance.service.ts:18-72 | strangers refuse the whole register; otherwise the loop of upserts writes it as the step does |
| Register.School.RequestAbsence | apps/api/src/absences/absences.service.ts:43-85 | a request is refused for its length or for overlapping a live one, and otherwise added |
| Register.School.ReviewAbsence | apps/api/src/absences/absences.service.ts:124-185 | a pending request is decided once: approving excuses exactly its ABSENT records, declining touches none (`Register.DecisionTakesEffect`) |
| Register.School.CancelAbsence | apps/api/src/absences/absences.service.ts:188-205 | only the requester withdraws, only while pending, and each refusal is told apart |
| OfflineQueue.QueueKeepsMeaning | apps/mobile/lib/offline-queue.ts:44-100 | when versions of a register list the same students and none is refused, queueing, compacting and flushing through any failures leaves the server, once drained, as if every register had been applied in order |
| OfflineQueue.ReplacingLosesNothingExactly | apps/mobile/lib/offline-queue.ts:54-57 | replacing a queued register loses nothing on any server if and only if the new version marks every student the old one did |
| OfflineQueue.FlushLosesNothing | apps/mobile/lib/offline-queue.ts:70-100 | after any mix of replies, lost replies and refusals, the server plus what is still queued is everything not refused, applied in order |
| OfflineQueue.EnqueueDistinct | apps/mobile/lib/offline-queue.ts:54-62 | no two queued registers are for the same class and day |
| OfflineQueue.DrainAt | apps/mobile/lib/offline-queue.ts:77-86 | a list of registers leaves on each record the last word any of them has on it |
| OfflineQueue.SameEffectExactly | apps/mobile/lib/offline-queue.ts:77-86 | two lists of registers leave every server the same if and only if they have the same last word on every record |
| OfflineQueue.ReplacedRegisterLosesAMark | apps/mobile/lib/offline-queue.ts:54-57 | an input on which replacing loses: a second version of a register without one of its students |
| OfflineQueue.EveryAnswerCounts | apps/mobile/lib/offline-queue.ts:74-99 | synced, discarded and remaining add up to the queue, for any mix of answers |
| OfflineQueue.FlushSplits | apps/mobile/lib/offline-queue.ts:70-100 | synced counts the registers accepted, discarded those refused, exactly those that failed stay queued in order, and the server got those accepted and those whose reply alone was lost, in order |
| OfflineQueue.EnqueuedInOrder | apps/mobile/lib/offline-queue.ts:50-63 | queueing keeps exactly the registers of other classes or days, in order, with the new one last |
| QueueRaces.WriteBackOverwrites | apps/mobile/lib/offline-queue.ts:70-100 | whatever is marked between a flush's read and its write-back, the stored queue ends as what the flush read and failed to send, and the server has exactly what was applied |
| QueueRaces.MarkedDuringFlushExactly | apps/mobile/lib/offline-queue.ts:50-100 | over every such run, the registers marked in between are lost; on every server that comes to the same as sending everything not refused and then them, if and only if that already says all they say |
| QueueRaces.LateMarkRequeues | apps/mobile/lib/offline-queue.ts:50-63 | a marking that reads before the write-back and writes after it puts the whole queue it read back, the new register with it |
| QueueRaces.MarkedAcrossWriteBackExactly | apps/mobile/lib/offline-queue.ts:50-100 | over every such run, the server once drained is as if everything not refused and then the new register had been sent, if and only if no refused register of another class or day names anybody and no unsent older version marks a student the new one does not |
| QueueRaces.MarkedWhileFlushingIsLost | apps/mobile/lib/offline-queue.ts:98 | an input on which a register marked during a flush is lost |
| QueueRaces.MarkedAcrossWriteBackIsKept | apps/mobile/lib/offline-queue.ts:62 | an input on which the same marking, written after the flush, is kept and a sent register is queued again |
| OfflineQueue.Device.EnqueueAttendance | apps/mobile/lib/offline-queue.ts:50-63 | the earlier version of the register is dropped and the new one comes last, the rest in order |
| OfflineQueue.Device.FlushAttendanceQueue | apps/mobile/lib/offline-queue.ts:70-100 | every item is synced, discarded or kept in order, the counts add up to the queue, and the server got exactly what was applied |
| Base64Decoder.Base64Decode | apps/mobile/lib/jwt.ts:6-23 | for every input, the output is the whole bytes of the bit stream of its alphabet characters, although the accumulator wraps at 32 bits |
| Base64Decoder.OnlyTwelveBitsRead | apps/mobile/lib/jwt.ts:15-19 | the byte written depends only on the low 12 bits of the accumulator |
| Base64Decoder.RestReadsTwelveBits | apps/mobile/lib/jwt.ts:11-21 | from any point on, accumulators with the same low 12 bits write the same bytes, so neither the missing mask nor the wrap can be seen |
| Base64Decoder.RestIsDecoded | apps/mobile/lib/jwt.ts:6-23 | the loop read as what is still to be written gives, from the start, the whole bytes of the bit stream |
| Base64Decoder.OrIsPlus | apps/mobile/lib/jwt.ts:15 | the shifted accumulator and the digit have no bit in common, so bitwise or is addition, sign bits included |
| Base64Decoder.PushDigit | apps/mobile/lib/jwt.ts:15 | shifting in a digit keeps the live bits and adds six, the wrap unseen |
| Base64Decoder.PopByte | apps/mobile/lib/jwt.ts:17-19 | taking a byte takes the oldest eight live bits and leaves the rest |
| Base64Decoder.WholeBytesOfByteBits | apps/mobile/lib/jwt.ts:17-20 | bytes are recovered from their bits, whatever fraction of a byte follows |
| Base64Url.EncodedBits | apps/mobile/lib/jwt.ts:3-4 | base64url by section 5 of RFC 4648 spells the bytes' own bits and fewer than six zeros |
| Base64Url.DecodeInvertsEncode | apps/mobile/lib/jwt.ts:6-23 | decoding inverts base64url for every byte sequence, padded or not |
| Base64Url.EncodedLength | apps/mobile/lib/jwt.ts:3-7 | the encoded text is as long as RFC 4648 makes it, with padding and without |
| Base64Url.UrlCharExactly | apps/mobile/lib/jwt.ts:3-7 | the 64 characters are those of section 5 of RFC 4648 in their order |
| Base64Decoder.IndexOfExactly | apps/mobile/lib/jwt.ts:3-14 | the positions run through the standard alphabet in its order and no other character has one |
| Base64Decoder.StripPaddingExactly | apps/mobile/lib/jwt.ts:7 | only trailing equals signs are dropped, and all of them |
| Base64Decoder.Int32Exactly | apps/mobile/lib/jwt.ts:15 | the wrapped number is the signed 32-bit one that differs by a multiple of 2 to the 32 |
| Ranking.Tally | apps/api/src/exams/exams.service.ts:40-56 | the map holds exactly the students with an entry, each with the sums of marks and of full marks over that student's own entries |
| Ranking.AssignRanks | apps/api/src/exams/exams.service.ts:68-75 | each rank is the place that opens the row's run of equal percentages |
| Ranking.TotalIsTheSum | apps/api/src/exams/exams.service.ts:40-56 | a student's total is the sum of the marks and of the full marks over all of that student's entries |
| Ranking.PercentagesCompare | apps/api/src/exams/exams.service.ts:58-66 | one percentage is above another exactly when the cross-multiplied marks are, no full marks counting as zero |
| Ranking.BetterCount | apps/api/src/exams/exams.service.ts:68-75 | the rows before a run of equal percentages are exactly those of the students who did strictly better |
| Ranking.RankList | apps/api/src/exams/exams.service.ts:29-76 | the rows are the students with an entry, none below a row of a lower ratio, and each rank is 1 plus the number of students whose own entries add up to a strictly higher ratio, whatever order the sort leaves ties in |
| Ranking.Position | apps/api/src/report-cards/report-cards.service.ts:155-159 | the position is the student's place in the sorted rows, missing exactly when they have no marks |
| Ranking.BetterComeBefore | apps/api/src/report-cards/report-cards.service.ts:148-155 | everybody who did better has an earlier place, whatever the sort did with ties |
| Ranking.PositionWithinTies | apps/api/src/report-cards/report-cards.service.ts:139-159 | on the same totals the report-card position lies between the rank and the rank plus the number tied less one |
| Ranking.PositionByRatio | apps/api/src/report-cards/report-cards.service.ts:139-159 | the same said of the entries: the position is between the rank by cross-multiplied sums and that plus the number tied less one |
| WorkingDays.WorkingDaysBetween | apps/api/src/leave/working-days.ts:12-29 | the loop over days counts what the closed form gives: days less Sundays by floor division, 0 for an inverted range |
| WorkingDays.CountsWorkingDays | apps/api/src/leave/working-days.ts:1-6 | the closed form is the number of days of the range that are not Sundays |
| WorkingDays.DayOfExactly | apps/api/src/leave/working-days.ts:13-19 | an instant belongs to the day whose 86,400,000 milliseconds hold it, before 1970 as after |
| LeaveAllowance.AllowanceNeverExceeded | apps/api/src/leave/leave.service.ts:32-180 | in every run of requests, reviews, withdrawals and year changes, the pending and approved days a capped kind is charged for, those of requests starting this year or later, never exceed the allowance |
| LeaveAllowance.YearIsWithinAllowance | apps/api/src/leave/leave.service.ts:154-156 | in every run, the live working days inside the year are within the allowance unless a live request starting before the year reaches into it |
| LeaveAllowance.EveryDayOfTheYearIsChargedExactly | apps/api/src/leave/leave.service.ts:157-165 | every working day of the year that live leave covers is charged, if and only if no live request starting before the year reaches into it with a working day |
| LeaveAllowance.ChargedOnlyForTheYearExactly | apps/api/src/leave/leave.service.ts:157-165 | a request is charged for no day after the year, if and only if it is not charged or has no working day there |
| LeaveAllowance.OnlyThisYearCountsExactly | apps/api/src/leave/leave.service.ts:154-165 | the balance is that of the requests starting in this calendar year, if and only if none starting after it is charged a day |
| LeaveAllowance.EarlyLeaveIsUnlimited | apps/api/src/leave/leave.service.ts:157-165 | leave starting before the year is accepted however many times it is asked for over the same days of the year, and never counts as used |
| LeaveAllowance.ThreeOverlappingRequestsAreAffordable | apps/api/src/leave/leave.service.ts:154-156 | an input on which three overlapping requests each look affordable alone |
| LeaveAllowance.NextYearsLeaveIsChargedThisYear | apps/api/src/leave/leave.service.ts:154-165 | an input on which leave of next year refuses a day of this one |
| LeaveAllowance.ApplyKeepsAllowance | apps/api/src/leave/leave.service.ts:40-47 | no single operation, a new year included, takes a balance over the allowance |
| LeaveAllowance.SetStatusCharge | apps/api/src/leave/leave.service.ts:110-144 | deciding or withdrawing a pending request never raises what it charges |
| LeaveAllowance.StatusIsTheDecision | apps/api/src/leave/leave.service.ts:89-145 | over every run, a request that began pending ends approved, rejected or cancelled exactly when the run holds an approval, a refusal or a withdrawal of it that was answered done |
| LeaveAllowance.AskingDoes | apps/api/src/leave/leave.service.ts:32-63 | a request waits exactly when somebody works on its days and they fit what the days taken leave of the allowance; otherwise the answer says how much is left |
| LeaveAllowance.ReviewingDoes | apps/api/src/leave/leave.service.ts:89-130 | approving approves and declining rejects that request alone, never one's own and never twice |
| LeaveAllowance.CancellingDoes | apps/api/src/leave/leave.service.ts:133-145 | a withdrawal cancels that request alone, and each refusal has its own reason |
| LeaveAllowance.AllowanceTable | packages/types/src/leave.ts:38-44 | the allowances of the five kinds, unpaid leave having none |
| LeaveAllowance.Service.BalanceFor | apps/api/src/leave/leave.service.ts:147-180 | the loop over the selected requests gives what is left of the allowance, never below 0 |
| LeaveAllowance.Service.RequestLeave | apps/api/src/leave/leave.service.ts:32-63 | a request without working days or over the balance is refused, another is added as pending |
| LeaveAllowance.Service.ReviewLeave | apps/api/src/leave/leave.service.ts:89-130 | only a pending request is decided, and never by its requester |
| LeaveAllowance.Service.CancelLeave | apps/api/src/leave/leave.service.ts:133-145 | only the requester's own pending request is withdrawn |

## Left out

- Access checks, request schemas, notifications, PDF receipts, storage, export, the web and mobile screens: input, output and plumbing.
- Reading dates, numbers and header shapes in `parseRow` and `isHeaderRow`, and splitting and trimming the pasted text: locale and number parsing.
- The payment gateway webhook, which reads an invoice's total and writes it back in two steps: the conservation law is for the review path only.
- Manual grade entries into a cell a quiz also writes: the gradebook law is for the quiz as the cell's only writer.
- Quiz creation, removal, the paper as a student sees it, results percentages, `submittedAt` and `answeredAt` stamps: they decide nothing proved here.
- Quizzes.LazyExpiryIsATimer: does not interleave inside `saveAnswer`, `submitAttempt` or `grade`; an answer saved between a grade's read and its write is not modelled, and the time an expired attempt records as its submission is not compared with the deadline.
- QuizService.Service.StartAttempt: has no race; the unique index and the concurrent reads are in `QuizStarts`, which leaves out answers and grades.
- Hostel.AllocateIsTruthful: other allocations may interleave, but no vacate and no capacity change; those are atomic operations of `Hostel.BedsAreConserved`.
- Inventory.Service.UpdateItem: name, category, location, purchase and notes are not modelled; atomic, although the source reads the counter first and leaves a race to the CHECK constraint; the same holds for removing an item.
- Register.School.MarkAttendance: atomic in `Register.RegisterAgrees`; what an approval between its read and its write does is `Register.WriteAgreesExactly`.
- Register.School.RequestAbsence: atomic, although the overlap check and the insert are two steps with no index behind them.
- LeaveAllowance.AllowanceNeverExceeded: is about the days the balance charges; the days inside the year are bounded only under the condition of `LeaveAllowance.YearIsWithinAllowance`, because the code charges no others.
- LeaveAllowance.Service.RequestLeave: atomic, although the balance check and the insert are two steps; so are leave reviews, whose check and write are two steps.
- OfflineQueue.QueueKeepsMeaning: excludes registers refused for good and marks sent online while an older register of the same class and day is queued, which the code does not order; marking during a flush is `QueueRaces`.
- QueueRaces.MarkedDuringFlushExactly: one flush and one marking at a time may be under way; two flushes or two markings at once are not modelled.
- OfflineQueue.Device.FlushAttendanceQueue: a queued register is its class, day and entries; its id and time stamp, and a corrupt stored queue, are not modelled.
- Ranking.RankList: percentages are exact ratios, so rounding cannot make or break a tie; the sort is any function that gives a sorted arrangement of the rows.
- Hostel.Summary: occupancy rates, rounded percentages, and the alphabetical order of the blocks are not modelled.
- Payments.Service.SubmitPayment: the note on a possible duplicate and the reference number are not modelled.
- Column widths of decimal amounts and of unit counters: integers are unbounded except for the decoder's 32-bit accumulator.
- Timetable, meetings, complaints, support, audit, analytics: easier code with no further invariants of this kind.
