# Quiz application core in Dafny

This project models the business rules of a quiz web application:

- **Accounts:** users register, log in and hold sessions. A failed-login counter locks an address out on a schedule. Passwords can be reset with single-use tokens.
- **Quizzes:** authors create quizzes, validated on entry, then replace and delete them.
- **Attempts:** players take quizzes. An attempt freezes a snapshot of the quiz when it starts and is graded once on submission.
- **Scoreboard:** each user's total is the sum of their best score on every quiz that still exists. Users are ranked by competition ranking (score descending, then name ascending), and the board is paged.

The database is replaced by in-memory tables: sequences of records held in one class per service (`QuizStore`, `AttemptStore`, `ScoreboardStore`, `AuthStore`), or a map for the per-address login counters. The SQL queries (`MAX … GROUP BY`, `RANK() OVER`, `LIMIT/OFFSET`) are restated as functions over those tables. Methods that update rows in place are proved against these specification functions. Time is an integer parameter `now`. Row identifiers come from a per-store counter, which stands in for `uuid4`.

Modules, one per file:

| module | file | models |
|---|---|---|
| `Common` | common.dfy | Python `str.strip` and ASCII `lower`, the `Option` type, and a limit/offset window |
| `Password` | password.dfy | `validate_password_strength`, the empty-input guard of `verify_password` |
| `LoginAttempts` | login_attempt.dfy | the `login_attempts` row and `is_locked` |
| `PasswordResets` | password_reset.dfy | the `password_resets` row, `is_expired` and `is_valid` |
| `Auth` | auth.dfy | `AuthService`: registration, login, sessions, password reset and lockout |
| `UserProfile` | user_service.dfy | `UserService.update_profile` |
| `Sorting` | sorting.dfy | a stable insertion sort, used for `ORDER BY` |
| `QuizSchema` | quiz_schema.dfy | the `AnswerCreate`, `QuestionCreate` and `QuizCreate` validators |
| `Quizzes` | quiz_service.dfy | `QuizService`: an owner-checked quiz table |
| `AttemptRecords` | attempt_model.dfy | the `quiz_attempts` and `attempt_answers` rows and their check constraints |
| `AttemptScoring` | attempt_scoring.dfy | snapshot, grading, the new-best decision, `is_best` flags |
| `Ranking` | ranking.dfy | competition ranking, `get_scoreboard` paging, `get_user_rank` |
| `Scoreboard` | scoreboard.dfy | the per-user aggregate and the `user_scores` upsert |
| `Attempts` | attempt_service.dfy | `AttemptService` over the attempt table, and the quiz-deletion cascade |

On these points the code behaves otherwise than an API client might expect, and the model follows the code:

- An unanswered question scores 0, and an incomplete submission is accepted.
- Every failure of `submit_quiz` and `get_results` collapses to `None`; there is no separate "forbidden" or "not found" result.
- The scoreboard aggregate is recomputed from scratch, never applied as a delta.
- Two rows share a rank only when both score and display name are equal.

The predicates `LoginAttempts.IsLocked`, `PasswordResets.IsExpired` and `PasswordResets.IsValid` are the model's definitions of the row properties `is_locked`, `is_expired` and `is_valid`. Their behaviour is stated by the contracts of `Auth.AuthStore.CheckLockout` and `Auth.AuthStore.ResetOutcome`.

## Model

| member | source | states |
|---|---|---|
| Common.Strip | backend/src/schemas/quiz.py:18-23 | the result is no longer than the input, empty exactly when the input is all whitespace, and otherwise starts and ends with a non-space character; `StripIsSlice` shows it is what remains after cutting whitespace off both ends |
| Common.StripIsSlice | backend/src/schemas/quiz.py:21-23 | the stripped text is a contiguous slice of the input, and everything cut off before and after it is whitespace |
| Common.StripIdempotent | backend/src/schemas/quiz.py:23 | stripping stripped text changes nothing |
| Common.LowerIdempotent | backend/src/services/auth.py:59 | lower-casing is idempotent, and no upper-case ASCII letter survives it |
| Common.Window | backend/src/services/attempt.py:513-522 | `OFFSET`/`LIMIT`: at most `limit` rows, the k-th being row `offset + k`, and exactly `min(limit, n - offset)` rows (none past the end) |
| Password.ValidatePasswordStrength | backend/src/security/password.py:43-71 | valid iff at least 8 characters with an upper-case ASCII letter, a lower-case ASCII letter and a digit, where a digit is any Unicode decimal digit (category Nd, what `\d` matches on a `str`); valid iff no message; the first failing check in the order length, upper, lower, digit decides the message |
| Password.StrengthAccepts | backend/src/security/password.py:59-71 | "Secure1!" and "SecurePass123" are accepted with no message |
| Password.StrengthAcceptsNonAsciiDigits | backend/src/security/password.py:68-69 | "Abcdefg" followed by ARABIC-INDIC DIGIT THREE, or by FULLWIDTH DIGIT SEVEN, is accepted: `\d` is not limited to ASCII |
| Password.AsciiDigitsAreDigits | backend/src/security/password.py:68-69 | the ASCII digits 0 to 9 are among the characters `\d` matches |
| Password.StrengthRejects | backend/src/security/password.py:59-63 | "Short1" is refused for length, "lowercase123" for the missing upper-case letter |
| Password.StrengthRejectsMissingClass | backend/src/security/password.py:65-69 | "UPPERCASE123" is refused for the missing lower-case letter, "NoDigitsHere" for the missing digit |
| Password.VerifyPassword | backend/src/security/password.py:21-40 | an empty password never verifies, before the hash is consulted; otherwise the result is the hash check |
| Auth.LockoutMinutes | backend/src/services/auth.py:18-24 | no lockout below 6 failures; 1, 5 and 15 minutes at 6, 7 and 8; 30 minutes at 9 or more |
| Auth.LockoutMonotone | backend/src/services/auth.py:399-406 | more failures never shorten the lockout |
| Auth.NormalizeEmail | backend/src/services/auth.py:58-59 | the stored address is lower-case and has no surrounding whitespace |
| Auth.NormalizeEmailTrims | backend/src/services/auth.py:58-59 | the stored address is the lower-cased input with only the whitespace before and after it removed |
| Auth.FindUserByEmail | backend/src/services/auth.py:91-96 | the first user whose address matches case-blind; None iff no user matches |
| Auth.FindUserById | backend/src/services/auth.py:319-323 | the user with that id; None iff there is none |
| Auth.FindResetByHash | backend/src/services/auth.py:306-311 | the reset row with that token hash; None iff there is none |
| Auth.SessionsNotOf | backend/src/services/auth.py:226-232 | exactly the sessions of other users remain |
| Auth.SessionsWithoutToken | backend/src/services/auth.py:205-213 | exactly the sessions with another token remain |
| Auth.MarkUsed | backend/src/services/auth.py:275-289 | every token of the user ends up used; other users' rows and already-used tokens are untouched; hashes, owners and expiry are kept |
| Auth.SpentResetStaysFound | backend/src/services/auth.py:332-334 | marking a token used keeps it findable by its hash, so a second use is refused rather than unknown |
| Auth.AuthStore.RegisterUser | backend/src/services/auth.py:40-89 | a weak password is refused with the strength message and an address already present (case-blind) with "Email already registered", both without creating a user; otherwise one user is appended with the normalised address and stripped name, and is admin iff the table was empty |
| Auth.AuthStore.AuthenticateUser | backend/src/services/auth.py:106-123 | a user is returned only when the address matches and the password is non-empty and verifies; None for an unknown address; for the first user whose address matches, that user is returned exactly when the password is non-empty and bcrypt accepts it |
| Auth.AuthStore.CreateSession | backend/src/services/auth.py:125-157 | a session is appended that expires `days_valid` days after `now`; its token is found exactly until it expires |
| Auth.AuthStore.GetSessionByToken | backend/src/services/auth.py:159-174 | a session with that token that has not expired; None iff every such session has expired |
| Auth.AuthStore.GetUserBySessionToken | backend/src/services/auth.py:176-192 | the owner of a live session with that token; None exactly when there is no live session or no user with its user id; otherwise the first user with that id |
| Auth.AuthStore.InvalidateSession | backend/src/services/auth.py:196-215 | true iff a session had that token; afterwards no session has it |
| Auth.AuthStore.InvalidateAllUserSessions | backend/src/services/auth.py:217-235 | all the user's sessions are deleted, and the count returned is the number deleted |
| Auth.AuthStore.RequestPasswordReset | backend/src/services/auth.py:239-273 | None and no change for an unknown address; otherwise every earlier token of the user is marked used, then a new unused token, valid for 24 hours, is appended and returned |
| Auth.AuthStore.ResetOutcome | backend/src/services/auth.py:301-326 | success iff the password is strong, the token hash is known, the token is valid (models/password_reset.py:32-39) and its user exists; success iff no message; a weak password gives the strength message, an unknown token, a used or expired one and a missing user each give their own message, in that order |
| Auth.AuthStore.ResetPassword | backend/src/services/auth.py:291-340 | the outcome is `ResetOutcome`; a failure changes nothing; a success replaces exactly the owner's row with its new hash and update time, marks exactly the token's row used, deletes all the owner's sessions and leaves lockouts and the id counter alone, after which the same token fails whatever the password and time |
| Auth.AuthStore.CheckLockout | backend/src/services/auth.py:344-366 | not locked when the address has no record; locked iff the record's `locked_until` is after now (models/login_attempt.py:26-30), and then that instant is returned |
| Auth.AuthStore.RecordFailedAttempt | backend/src/services/auth.py:368-409 | the count starts at 1 and otherwise rises by exactly 1; the row's last attempt time becomes `now`; a lockout is set and stored exactly when the count reaches 6, for the scheduled minutes; no other address's record changes; the id counter moves only when a row is created |
| Auth.AuthStore.ClearLockout | backend/src/services/auth.py:411-426 | the record is deleted, so the address reads as unlocked at every time |
| Auth.RemoveUserSessions | backend/src/services/auth.py:226-235 | the deletion loop keeps exactly `SessionsNotOf` and counts the deleted rows |
| Auth.InvalidateResetTokens | backend/src/services/auth.py:275-289 | the marking loop produces exactly `MarkUsed` |
| UserProfile.CheckedDisplayName | backend/src/services/user.py:55-59 | accepted iff the stripped name has 1 to 50 characters, and then it is the stripped name |
| UserProfile.UpdateProfile | backend/src/services/user.py:37-66 | None for an unknown user or a refused name, with the user table unchanged; otherwise the user's name becomes the stripped input (unchanged when none is given) and `updated_at` becomes now |
| QuizSchema.CheckedText | backend/src/schemas/quiz.py:18-23 | accepted iff within the length bound and not all whitespace, and then it is the stripped text, of 1 to the bound characters |
| QuizSchema.CheckedTextClean | backend/src/schemas/quiz.py:18-23 | accepted text is clean: stripped, non-empty, within the bound |
| QuizSchema.CleanTextAccepted | backend/src/schemas/quiz.py:18-23 | clean text is accepted unchanged |
| QuizSchema.ValidatedQuestionWellFormed | backend/src/schemas/quiz.py:26-48 | a validated question has clean text, 2 to 6 clean answers, exactly one of them correct, and 1 to 100 points (stated of `ValidateQuestion` and `ValidateAnswer`) |
| QuizSchema.ValidatedIsWellFormed | backend/src/schemas/quiz.py:51-64 | a validated quiz has a clean title, 1 to 100 questions, and every question well-formed (stated of `ValidateQuiz`) |
| QuizSchema.WellFormedAnswerRoundTrip | backend/src/schemas/quiz.py:12-23 | a well-formed answer, submitted again, validates to itself (stated of `ValidateAnswer`) |
| QuizSchema.WellFormedQuestionRoundTrip | backend/src/schemas/quiz.py:26-48 | a well-formed question, submitted again, validates to itself |
| QuizSchema.WellFormedRoundTrip | backend/src/schemas/quiz.py:51-64 | a well-formed quiz, submitted again, validates to itself |
| QuizSchema.OneCorrect | backend/src/schemas/quiz.py:42-48 | with a correct count of 1 there is one correct answer and every other answer is incorrect |
| QuizSchema.CorrectCountRefused | backend/src/schemas/quiz.py:42-48 | a question whose correct count is not 1 is refused, whatever its text and points |
| Quizzes.BuildAnswers | backend/src/services/quiz.py:51-58 | the answers carry the input's text and correctness in order, numbered 1..m, with fresh ids |
| Quizzes.BuildQuestions | backend/src/services/quiz.py:42-58 | the questions carry the input's text, points and answers in order, numbered 1..n, with fresh ids |
| Quizzes.NewerFirstIsStrictOrder | backend/src/services/quiz.py:87 | `updated_at DESC` is a strict order |
| Quizzes.OwnedItems | backend/src/services/quiz.py:76-102 | exactly the owner's quizzes, each listed with its question count |
| Quizzes.QuizIndex | backend/src/services/quiz.py:114-126 | the quiz with that id and, when an owner is given, that owner; None iff there is none |
| Quizzes.QuizStore.GetQuiz | backend/src/services/quiz.py:104-126 | a stored quiz with that id, owned by the owner when one is given; None iff no stored quiz matches |
| Quizzes.QuizStore.CreateQuiz | backend/src/services/quiz.py:24-65 | one quiz with a fresh id is appended, holding exactly the request, renumbered from 1, and it is found under its owner |
| Quizzes.QuizStore.UpdateQuiz | backend/src/services/quiz.py:128-181 | None and no change when the quiz is missing or not owned; otherwise it is replaced in place by the new title and exactly the new questions, renumbered from 1, keeping id, owner and creation time |
| Quizzes.QuizStore.DeleteQuiz | backend/src/services/quiz.py:183-200 | true iff the quiz exists and is owned; only then is it removed, and it is absent afterwards |
| Quizzes.QuizStore.ListQuizzes | backend/src/services/quiz.py:67-102 | a permutation of the owner's items, newest update first |
| Quizzes.ListedIffOwned | backend/src/services/quiz.py:76-86 | an item is listed iff it describes one of the owner's quizzes |
| AttemptRecords.ConsistentRowOk | backend/src/models/attempt.py:28-30 | every stored attempt meets the table's check constraints (possible points positive, score null or non-negative), and so does each of its answer rows (order and points at least 1, earned points null or non-negative, models/attempt_answer.py:37-39); a score never exceeds the possible points |
| AttemptRecords.EarnedBounds | backend/src/services/attempt.py:229-235 | graded rows earn between 0 and the sum of their points |
| AttemptRecords.DetachQuiz | backend/src/models/attempt.py:19 | deleting a quiz keeps every attempt, and only those of that quiz lose their quiz id |
| AttemptRecords.DetachQuestions | backend/src/models/attempt_answer.py:22-26 | deleting questions keeps the attempt and every snapshot row; exactly the rows that pointed at a removed question lose their question id, and no other column or row changes |
| AttemptRecords.DetachKeepsConsistent | backend/src/models/attempt.py:19-40 | neither cascade breaks the attempt invariant |
| AttemptScoring.CorrectText | backend/src/services/attempt.py:79-80 | the text of the first correct answer, or "" when there is none |
| AttemptScoring.CorrectTextOfWellFormed | backend/src/services/attempt.py:79-80 | for a validated question, it is the text of its only correct answer |
| AttemptScoring.SnapshotRow | backend/src/services/attempt.py:83-90 | a new snapshot row has nothing selected and no outcome yet |
| AttemptScoring.SnapshotRows | backend/src/services/attempt.py:76-91 | one snapshot row per question, in question order |
| AttemptScoring.SnapshotPoints | backend/src/services/attempt.py:63 | the rows' points sum to the quiz's total points |
| AttemptScoring.LastSubmission | backend/src/services/attempt.py:210 | the last submission for the question wins; None iff there is none |
| AttemptScoring.GradeRow | backend/src/services/attempt.py:222-241 | the row is graded (full points iff correct, an unanswered row incorrect with 0) and its snapshot columns are kept |
| AttemptScoring.GradeRowCorrectIff | backend/src/services/attempt.py:225-241 | correct iff the last submission for the question selects an answer whose text (or "" if unknown) equals the frozen correct text; an unanswered row has no selection, is incorrect and earns 0 |
| AttemptScoring.GradeRows | backend/src/services/attempt.py:222-253 | each row is graded on its own |
| AttemptScoring.ForeignSubmissionIgnored | backend/src/services/attempt.py:222-223 | a submission for a question outside the attempt changes no row |
| AttemptScoring.SubmitKeepsConsistent | backend/src/services/attempt.py:219-258 | submission moves in-progress to submitted, keeps the invariant, and the score is the sum earned, between 0 and the possible points (stated of `Submit`, the grading step as a function of the attempt) |
| AttemptScoring.MaxScore | backend/src/services/attempt.py:306-314 | the maximum submitted score of the user on the quiz; None iff there is none |
| AttemptScoring.NewBestNeverReported | backend/src/services/attempt.py:256-320 | as written, the decision taken after the submitted row is flushed is never "new best" (stated of `UpdateScoreboardAsWritten`, the decision as the code takes it) |
| AttemptScoring.FirstSubmissionNotReported | backend/src/services/attempt.py:302-318 | a first submission is not reported as a new best as written, though it is one |
| AttemptScoring.IsNewBestIff | backend/src/services/attempt.py:302-320 | corrected: false without a quiz; otherwise true iff the new score beats every earlier submitted score of the user on the quiz, or there is none (stated of `IsNewBest`, the corrected decision the rest of the model uses) |
| AttemptScoring.SubmittedLaterIsStrictOrder | backend/src/services/attempt.py:459 | `submitted_at DESC` is a strict order |
| AttemptScoring.SubmittedBy | backend/src/services/attempt.py:454-462 | exactly the user's submitted attempts, on the quiz when one is given |
| AttemptScoring.NewestFirstOrdered | backend/src/services/attempt.py:459 | the history is a permutation ordered newest first |
| AttemptScoring.BestScore | backend/src/services/attempt.py:468 | the maximum score of the history, a null counting as 0, and attained |
| AttemptScoring.HistoryHasBest | backend/src/services/attempt.py:464-484 | in a non-empty history some attempt is flagged, and an attempt is flagged iff no attempt scores more (ties all flagged) |
| AttemptScoring.MyAttemptBestIff | backend/src/services/attempt.py:524-547 | an attempt without a quiz is never best; otherwise best iff no submitted attempt of the user on that quiz scores more |
| AttemptScoring.ClampLimit | backend/src/api/attempt.py:124-125 | a limit outside 1..100 becomes 20; any other limit is kept |
| AttemptScoring.ClampOffset | backend/src/api/attempt.py:126-127 | a negative offset becomes 0; any other offset is kept |
| Attempts.OwnedIndex | backend/src/services/attempt.py:192-199 | the attempt with that id owned by the user; None iff there is none |
| Attempts.BuildSnapshot | backend/src/services/attempt.py:76-105 | the loop builds exactly the snapshot rows and the taking view, in question order |
| Attempts.GradeAnswers | backend/src/services/attempt.py:219-253 | the loop grades exactly `GradeRows`, its total is the sum earned, and its result rows mirror the graded rows |
| Attempts.SnapshotAttempt | backend/src/services/attempt.py:62-91 | a new attempt is in progress, with no score and no submission time, holds one row per question and the quiz's total points |
| Attempts.SnapshotConsistent | backend/src/services/attempt.py:62-91 | the snapshot of a stored quiz satisfies the attempt invariant, with positive possible points |
| Attempts.TableScoresNonNegative | backend/src/models/attempt.py:30 | every stored score is non-negative |
| Attempts.AttemptStore.StartQuiz | backend/src/services/attempt.py:35-115 | None and no change iff the quiz does not exist; otherwise the snapshot attempt is appended and its view returned |
| Attempts.AttemptStore.GetResults | backend/src/services/attempt.py:322-370 | a result iff the attempt exists, is the user's and is submitted; it mirrors the stored rows |
| Attempts.AttemptStore.SubmitQuiz | backend/src/services/attempt.py:178-289 | None and no change iff the attempt is not the user's or already submitted; otherwise the attempt is graded in place, its score lies between 0 and the possible points, `GetResults` then returns it, and the user's board row holds the recomputed total and quiz count; the board table is otherwise unchanged: an existing row is replaced in place keeping its name (the name passed is "Anonymous"), a missing row is appended under "Anonymous", both with time `now`; the returned `isNewBest` is the corrected decision `IsNewBest`, so a first submission reports true where the code as written always reports false (see "## Findings") |
| Attempts.AttemptStore.GetQuizHistory | backend/src/services/attempt.py:437-488 | None iff the quiz does not exist; otherwise one item per submitted attempt of the user on the quiz, newest first, flagged best iff it has the top score |
| Attempts.AttemptStore.GetMyAttempts | backend/src/services/attempt.py:490-560 | the total is the number of the user's submitted attempts; the items are the clamped window of them, newest first, each flagged best iff it has the user's top score on its quiz |
| Attempts.AttemptStore.DetachDeletedQuiz | backend/src/models/attempt.py:19 | the table becomes `DetachQuiz` of the old one and keeps its invariant |
| Attempts.AttemptStore.DetachDeletedQuestions | backend/src/models/attempt_answer.py:22-26 | every attempt becomes `DetachQuestions` of the old one and keeps its invariant |
| Attempts.FlagHistory | backend/src/services/attempt.py:470-488 | the loop builds one item per attempt, flagged iff its score equals the best |
| Attempts.FlagMyAttempts | backend/src/services/attempt.py:541-558 | the loop builds one item per attempt of the page, flagged by `MyAttemptBest` |
| Attempts.HistoryFlagsBest | backend/src/services/attempt.py:453-484 | in a non-empty history of stored attempts every score is set, some attempt is flagged, and an attempt is flagged iff no attempt scores more |
| Attempts.DeleteQuizCascade | backend/src/services/quiz.py:183-200 | deleting an owned quiz removes exactly its row from the quiz table; its attempts stay, detached from the quiz, and their snapshot rows lose the link to its deleted questions (models/question.py:17, models/attempt_answer.py:22-26); otherwise nothing changes; no id counter moves |
| Attempts.UpdateQuizCascade | backend/src/services/quiz.py:128-181 | an owned quiz is replaced in place with the new content, keeping id, owner and creation time, with `updated_at` moved only on a title change and questions renumbered with fresh ids; the replaced questions' snapshot rows lose their link in every attempt; otherwise nothing changes |
| Ranking.AheadIsStrictOrder | backend/src/services/scoreboard.py:62 | (score DESC, name ASC) is a strict order |
| Ranking.AheadTotal | backend/src/services/scoreboard.py:62 | of two rows, one is ahead unless both score and name are equal |
| Ranking.Rank | backend/src/services/scoreboard.py:62 | a rank lies between 1 and one more than the number of rows |
| Ranking.Ranked | backend/src/services/scoreboard.py:56-64 | the ranked order is a permutation of the rows |
| Ranking.RankedOrdered | backend/src/services/scoreboard.py:62-64 | the ranked order is sorted by (score DESC, name ASC) |
| Ranking.RankTieIffSameKey | backend/src/services/scoreboard.py:62 | two rows share a rank iff score and name are both equal, and a row ahead has a smaller rank |
| Ranking.RankAtMostPosition | backend/src/services/scoreboard.py:62-64 | the rank of the row at position p is at most p+1 |
| Ranking.RanksNondecreasing | backend/src/services/scoreboard.py:62-64 | ranks never decrease along the ranked order |
| Ranking.TotalPages | backend/src/services/scoreboard.py:44 | there is always at least one page |
| Ranking.QuotIsDiv | backend/src/services/scoreboard.py:44 | the page arithmetic is floor division |
| Ranking.TotalPagesFits | backend/src/services/scoreboard.py:44 | the pages hold all the rows, and one page fewer would not |
| Ranking.ClampPage | backend/src/services/scoreboard.py:47-50 | the page is clamped into 1..total pages, and a page in range is kept |
| Ranking.GetScoreboard | backend/src/services/scoreboard.py:30-98 | total entries, page size and total pages as computed; page clamped; `has_next` iff before the last page; `has_prev` iff after the first; the entries are the ranked rows from `(page-1)*page_size`, with at most `page_size` of them |
| Ranking.RowListedOnItsPage | backend/src/services/scoreboard.py:52-65 | the row at position i is listed on a page iff that page is `i // page_size + 1`, which exists |
| Ranking.PageRanksNondecreasing | backend/src/services/scoreboard.py:62-64 | ranks never decrease down a page |
| Ranking.PagesDisjoint | backend/src/services/scoreboard.py:52-65 | two different pages never list the same user |
| Ranking.EntriesWithinSchema | backend/src/schemas/scoreboard.py:10-14 | every entry has rank at least 1 and non-negative score and quiz count |
| Ranking.UserIndex | backend/src/services/scoreboard.py:114-121 | the user's row; None iff the user has none |
| Ranking.PageOf | backend/src/schemas/scoreboard.py:43 | a page number is at least 1 |
| Ranking.GetUserRankAsWritten | backend/src/services/scoreboard.py:107-153 | as written: None iff the user has no row; otherwise the user's id, total score and quiz count from that row, the rank, and the page `(rank-1) // page_size + 1` |
| Ranking.GetUserRank | backend/src/services/scoreboard.py:107-153 | corrected: None iff the user has no row; otherwise the user's rank, score and quiz count, and the page holding the user's position in the ranked order |
| Ranking.UserRankPageListsUser | backend/src/services/scoreboard.py:144-145 | corrected: the page reported lists the user, with the reported rank |
| Ranking.AsWrittenPageNotAfter | backend/src/services/scoreboard.py:144-145 | as written, the rank is right but the page is never after the user's page |
| Ranking.RankPageCounterexample | backend/src/services/scoreboard.py:144-145 | with 11 tied rows and page size 10, the 11th user is told page 1, and page 1 does not list them |
| Ranking.RankExamples | backend/src/services/scoreboard.py:62 | scores 200, 150 and 100 rank 1, 2 and 3; two rows equal in score and name share rank 1 and the next row has rank 3 |
| Scoreboard.QuizOrder | backend/src/services/scoreboard.py:185-197 | each quiz with a counted attempt appears once |
| Scoreboard.BestDomain | backend/src/services/scoreboard.py:185-194 | a quiz is aggregated iff the user has a submitted attempt on it that still has its quiz |
| Scoreboard.BestIsUpperBound | backend/src/services/scoreboard.py:188 | each counted attempt scores at most its quiz's best |
| Scoreboard.BestIsAchieved | backend/src/services/scoreboard.py:188 | each quiz's best is the score of one of the user's counted attempts |
| Scoreboard.QuizzesCompletedIsQuizCount | backend/src/services/scoreboard.py:200 | the quiz count is the number of distinct quizzes aggregated (stated of `QuizzesCompleted`; `BestDomain`, `BestIsUpperBound` and `BestIsAchieved` characterise the per-quiz bests that `TotalBest` sums) |
| Scoreboard.TotalNonNegative | backend/src/models/user_score.py:27 | with non-negative scores the total is non-negative |
| Scoreboard.TotalAfterAppend | backend/src/models/user_score.py:13-15 | a new attempt adds its score on a new quiz, or the amount by which it beats that quiz's best, and nothing when it does not count |
| Scoreboard.TotalMonotone | backend/src/models/user_score.py:13-15 | a new attempt never lowers the total |
| Scoreboard.BestAfterDetach | backend/src/services/scoreboard.py:192 | deleting a quiz drops exactly that quiz from the aggregate |
| Scoreboard.TotalAfterDetach | backend/src/services/scoreboard.py:192-199 | deleting a quiz lowers the total by exactly its best |
| Scoreboard.CompletedAfterDetach | backend/src/services/scoreboard.py:192-200 | deleting a quiz lowers the quiz count by one iff it was aggregated |
| Scoreboard.GroupBest | backend/src/services/scoreboard.py:185-197 | the grouping loop computes exactly the per-quiz maximum and the quiz order |
| Scoreboard.AggregateScores | backend/src/services/scoreboard.py:185-200 | the total is the sum of the per-quiz bests and the count is the number of quizzes, which are `TotalBest` and `QuizzesCompleted` |
| Scoreboard.UpsertIsRecomputation | backend/src/services/scoreboard.py:203-222 | the row written holds the recomputed aggregate, whatever the row held before |
| Scoreboard.ScoreboardStore.UpdateUserScore | backend/src/services/scoreboard.py:177-225 | the user's only row holds the recomputed total and count; an existing row is updated in place, and its name is replaced only by a non-empty name other than "Anonymous"; otherwise a row is appended; the table keeps one row per user with non-negative columns |
| Scoreboard.ScoreboardStore.EnsureUserExists | backend/src/services/scoreboard.py:227-248 | an existing row is returned unchanged; otherwise a zero row with the given name is appended |

## Left out

- Percentages and averages (`percentage`, `get_stats`): floating point.
- bcrypt, `secrets` and SHA-256: the password hash is a parameter of the operations that store one, `bcrypt.checkpw` is a function parameter, and token hashing is a function fixed when `AuthStore` is built. Token freshness is a precondition, standing for the unique index on the token columns.
- `uuid4` identifiers become a per-store counter.
- Database sessions, flush and commit ordering, and concurrent submissions: every operation is one sequential step.
- The order of rows that tie on (score, name) is the table order; SQL leaves it unspecified.
- `get_attempt`, `browse_quizzes` and `get_total_count`: display queries with no rule beyond a count.
- The e-mail service and HTTP routers. The only router logic kept is the limit/offset clamp of the attempts listing.
- Pydantic field errors are one refusal (`None`) per validator; their messages are not modelled.
- Ranking.GetScoreboard: requires a page size in 10..100, the bound the `Pagination` response enforces (backend/src/schemas/scoreboard.py:23); a size outside it fails there, and that failure is not modelled.
- Common.Lower: ASCII letters only; Python `lower()` also folds other alphabets.
- Password.IsDigit: the decimal digits of Unicode 15.0, the database of Python 3.12; another Python release may add digit blocks that the model does not list.
- AttemptRecords.DetachQuestions, Attempts.AttemptStore.DetachDeletedQuestions, Attempts.DeleteQuizCascade and Attempts.UpdateQuizCascade treat the declared `ON DELETE SET NULL` on `attempt_answers.question_id` (backend/src/models/attempt_answer.py:22-26) as enforced, as on PostgreSQL or on SQLite with `PRAGMA foreign_keys=ON`. The default SQLite engine (backend/src/db/__init__.py:14-17) never turns that pragma on, and the ORM relationship to the question is one-way (backend/src/models/attempt_answer.py:44). So in the default setup the snapshot rows keep the stale question id. A later `submit_quiz` then still matches a submission to such a row and records the selected answer with an empty text, where the model leaves the row unanswered.
- Scoreboard: deleting a quiz does not recompute anyone's row; the model proves what the next recomputation gives (`TotalAfterDetach`) and does not store it.
- Attempts.AttemptStore.SubmitQuiz: answer texts are a map parameter standing for the `Answer` table lookup, and `display_name` is passed as "Anonymous", as the caller does; the submission time is `now`. The `is_new_best` it returns is the corrected decision, not the always-false value of the code as written (the first row of "## Findings").

## Findings

| source | as written | input that shows it | evidently intended | confidence | as-written member | corrected member |
|---|---|---|---|---|---|---|
| backend/src/services/attempt.py:256-320 | the submitted row is flushed before `_update_scoreboard` takes the maximum over submitted attempts, so the new score is compared with itself and `is_new_best` is always false | a user's first submission of a quiz, scoring 10 | compare only with the user's other submitted attempts on the quiz | not executed | AttemptScoring.NewBestNeverReported | AttemptScoring.IsNewBestIff |
| backend/src/services/scoreboard.py:144-145 | the page is computed from the rank, but tied rows share the smallest rank, so a user behind a tie that crosses a page boundary is sent to an earlier page that does not list them | 11 users with score 0 named "Anonymous", page size 10: the 11th is told page 1 | the page that holds the user's position in the ranked order | not executed | Ranking.RankPageCounterexample | Ranking.UserRankPageListsUser |
