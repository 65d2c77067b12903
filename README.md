# Quiz Master — a verified model of its core

Quiz Master is a Flask application. Administrators build a hierarchy of subjects, chapters, quizzes and
multiple-choice questions, and students attempt the quizzes and read statistics about their attempts.
This project models the part of the application that holds its logic:

- the database records and their foreign keys (`models.py`);
- the WTForms validation of the quiz, question, registration and profile forms (`forms.py`);
- from `app.py`:
  - the grading loop of `attempt_quiz`;
  - the statistics behind `user_summary`, `download_summary`, `user_dashboard` and `admin_summary`;
  - the cascade deletes of quizzes, chapters, subjects, questions and users;
  - the administrator guards on editing and deleting users;
  - registration and the start-up creation of the administrator account.

The modules are:

| module | file | what it holds |
|---|---|---|
| `Models` | models.dfy | the six records, the `Db` snapshot of all tables, and `Consistent`. `Consistent` says the keys are unique, every foreign key resolves, and no attempt scores more than its question count. |
| `Tables` | tables.dfy | generic table helpers: key sets, `filter_by(...).delete()` as `Drop`, `filter_by` as `Select`, `get` as `Find`, and sums over rows. |
| `Sorting` | sorting.dfy | a stable insertion sort that stands for Python's `sorted`, `list.sort` and SQL `ORDER BY`. |
| `Ratios` | ratios.dfy | percentages as exact ratios `num / den`, compared by cross-multiplication. |
| `Forms` | forms.dfy | the WTForms validator chains (`DataRequired`, `Optional`, `Length`, `NumberRange`, `EqualTo`, choices, inline validators), and what each form accepts. |
| `Scoring` | scoring.dfy | the grading loop, and how the stored correct answer is built when a question is added or edited. |
| `Analytics` | analytics.dfy | the per-user overall, best, per-subject and per-month statistics, the available-quiz list, and the dashboard's quiz list and two most recent attempts. |
| `AdminReport` | admin.dfy | the admin summary: hierarchy counts, the best attempt per quiz sorted by percentage, and attempt counts per subject. |
| `Cascade` | cascade.dfy | each delete route's effect on the whole database, as a function, with proofs that the effect keeps the database consistent. |
| `Store` | store.dfy | the class `Store`, whose fields are the six tables. Its methods are the routes that change them: registration, quiz submission, the five deletes and the user edit. |

Each route is all-or-nothing: it either commits every change or rolls back to the old state. The model
therefore gives each route's whole effect. A route that refuses (access denied, not found, invalid form,
duplicate username, admin target) leaves every table unchanged.

## Model

| member | source | states |
|---|---|---|
| Models.NewQuiz | models.py:37-44 | A quiz created without remarks gets the empty string. Given remarks are kept, and so are the id, chapter and duration. |
| Models.NewUser | models.py:7-15 | A user row holds the given fields. It is an administrator exactly when `is_admin=True` was passed; the column default is false. |
| Models.NextId | models.py:8 | The id handed to a new row is larger than every id already in the table, so it is fresh. |
| Scoring.Attribute | app.py:428 | `getattr(question, name, None)` yields a text exactly for the four option slots, the statement, the correct option, `__module__` ("models") and `__tablename__` ("question"). Naming `correct_option` yields the stored answer, and a slot yields one of the four option texts. |
| Scoring.GradeSubmission | app.py:419-430 | The loop counts every question of the quiz in the total. The score it returns is the number of questions earned, and never exceeds the total. |
| Scoring.ScoreSplit | app.py:424-430 | The score of a concatenation of questions is the sum of the scores of the parts. |
| Scoring.FullMarks | app.py:424-430 | The score is at most the number of questions. It equals that number exactly when every question is earned. |
| Scoring.NoMarks | app.py:424-430 | The score is zero exactly when no question is earned. |
| Scoring.CorrectOptionNameEarns | app.py:426-429 | Posting the attribute name `correct_option` makes `getattr` return the stored answer, so the question is earned whatever the options are. |
| Scoring.ModuleNameEarns | app.py:426-430 | Any attribute name is looked up, not only the four slots: posting `__module__` earns a question whose correct text is "models". |
| Scoring.NewQuestionEarnsChosenSlot | app.py:261-272 | `add_question` stores the text of the chosen option. A student who posts that slot name earns the question. |
| Scoring.EditAsWrittenLosesAnswer | app.py:304 | After `edit_question` as written, the stored answer is a slot name. A student who posts the slot chosen by the admin, or any other slot, then earns nothing, whenever no option's text is itself a slot name. |
| Scoring.EditedQuestionEarnsChosenSlot | app.py:295-304 | With the answer stored as the chosen option's text, as `add_question` does, posting the chosen slot earns the question. |
| Scoring.RetextedSlotLosesAnswer | app.py:426-429 | Grading compares text, not slot: once an option's text changes, posting the slot that used to hold the answer no longer earns. |
| Forms.RequiredThen | forms.py:7-27 | A `DataRequired` chain followed by one validator passes exactly when the field is truthy and that validator passes. |
| Forms.OptionalThen | forms.py:106-110 | An `Optional` chain passes exactly when the field is blank (so the next validator is skipped) or the next validator passes. |
| Forms.QuizFormAcceptance | forms.py:58-68 | The quiz form is accepted exactly when the duration is present and between 1 and 180, and the title is non-blank with 3 to 200 characters. |
| Forms.QuestionFormAcceptance | forms.py:70-98 | The question form is accepted exactly when the statement has at least 10 characters, each option is non-blank with 1 to 150 characters, and the correct option is one of the four slot names. |
| Forms.RegistrationAcceptance | forms.py:6-32 | Registration is accepted exactly when each of the following holds. The e-mail is non-blank with at most 150 characters. The password has at least 8 characters and is confirmed identically. The full name has 2 to 150 characters. The qualification is non-blank with at most 150 characters. The birth date is given and not after today. |
| Forms.ProfileAcceptance | forms.py:101-118 | The profile form is accepted exactly when each of the following holds. Name and qualification have 2 to 150 characters. The birth date is given and not in the future. A current password is given. A new password, if given, has at least 6 characters. A confirmation, if given, equals the new password. |
| Forms.NewPasswordNeedsCurrent | forms.py:116-118 | A profile form with a new password and no current password is refused. |
| Forms.FutureBirthDateRefused | forms.py:30-32 | A birth date after today is refused by both the registration and the profile form. |
| Forms.EmptyConfirmationAccepted | forms.py:107-110 | Because the confirmation field is `Optional`, a profile form with a new password and an empty confirmation is accepted. |
| Analytics.Tabulate | app.py:526-540 | The dictionary-building loop returns, for each key, the tally of exactly the attempts with that key. It also returns the keys in first-seen order. |
| Analytics.BucketsPartition | app.py:526-540 | When every attempt has a key in a duplicate-free key list, the bucket sizes over that list add up to the number of attempts. |
| Analytics.MonthWiseStats | app.py:543-553 | The month table loop produces the month rows defined by the month buckets. |
| Analytics.MonthRowsDescending | app.py:545 | The month rows are in strictly descending month order. |
| Analytics.MonthRowContents | app.py:526-553 | Each month row is about exactly the attempts of that month. Its attempt count is positive and is the bucket size. Its unique-quiz count is the number of distinct quizzes, at most the attempts. Its score is the pooled percentage of the bucket. |
| Analytics.MonthRowsCover | app.py:526-553 | Every attempt's month has a row. |
| Analytics.MonthAttemptsSum | app.py:526-553 | The attempt counts of the month rows add up to the user's number of attempts. |
| Analytics.OverallStats | app.py:473-484 | The unique-quiz count is the number of distinct quiz ids among the attempts, at most the number of attempts. The average is the total score over the total question count, or 0% when there are no questions (and so when there are no attempts). |
| Analytics.ScoreSumBounded | app.py:478-479 | If every attempt scores at most its question count, the total score is at most the total question count. |
| Analytics.OverallAverageBounded | app.py:477-480 | On consistent attempts, the overall average is at most 100%. |
| Analytics.BestScoreIsMax | app.py:481 | The best score is undefined (a division by zero) exactly when some attempt has no questions. Otherwise it is one attempt's percentage and at least every attempt's percentage. |
| Analytics.SubjectWiseStats | app.py:500-523 | The subject loop produces one row per subject name met, with its pooled percentage. |
| Analytics.SubjectScoresContents | app.py:500-523 | Each subject row is about exactly the attempts whose quiz belongs to a subject of that name. That set is non-empty, the score is its pooled percentage, and no other row has the same name. |
| Analytics.SubjectsPartitionAttempts | app.py:504-517 | When every foreign key resolves, every attempt has a subject, and the subject buckets partition the attempts. |
| Analytics.AvailableQuizzesContents | app.py:486-497 | The available list holds exactly the quizzes whose chapter and subject exist. Each is flagged as attempted exactly when the user attempted it. |
| Analytics.UserSummary | app.py:465-553 | An admin is redirected. A non-admin with an attempt of zero questions gets an error (the best-score division). Otherwise the page carries the overall, best, available, subject and month figures defined above. |
| Analytics.DownloadSummary | app.py:590-650 | An admin is redirected. Otherwise the report's tables are the overall figures and the month rows of the user's attempts. |
| Analytics.DashboardQuizzes | app.py:341-347 | The dashboard lists the quizzes whose chapter and subject exist and which have at least one question. |
| Analytics.DashboardListsQuizzesWithQuestions | app.py:341-347 | On a linked database, the dashboard lists exactly the quizzes that have a question. |
| Analytics.RecentAttemptsNewest | app.py:356-360 | The recent list holds at most two of the user's attempts, newest first. No attempt left out is newer than one shown. |
| Analytics.UserDashboard | app.py:336-400 | An admin is redirected. A user with an attempt of zero questions gets an error (the trend percentage divides unguarded). Otherwise the page lists exactly the dashboard quizzes (those with a question) and the user's two newest attempts, which are at most two of the user's own attempts. |
| Analytics.MeanDiffersFromPooled | app.py:386-395 | The dashboard averages the attempts' percentages, while the summary pools scores over questions. These differ: 100% on one question and 0% on three give 50% against 25%. |
| AdminReport.NonAdmins | app.py:692 | The user list holds exactly the non-administrators. |
| AdminReport.HierarchyCountsMatchTables | app.py:695-699 | When keys are unique and links resolve, the counts summed down the hierarchy equal the table sizes. |
| AdminReport.BestAttempt | app.py:710-713 | A best attempt exists exactly when the quiz has attempts, and it is one of them. |
| AdminReport.BestAttemptUnbeaten | app.py:710-713 | No attempt outranks the chosen one. The chosen one has no questions only when no attempt has questions. |
| AdminReport.TopScoreTable | app.py:702-733 | The top-score loop computes the sorted table defined by the best attempts, or fails. |
| AdminReport.TopScoreEntriesSkip | app.py:715 | Quizzes without attempts contribute no row. |
| AdminReport.TopScoreEntriesFailure | app.py:715-731 | The table fails exactly when some attempted quiz's line fails: its best attempt has no questions (a division by zero), or the user, chapter or subject that line reads is missing. |
| AdminReport.EntryFailsOnZeroTotals | app.py:710-719 | On a linked database, an attempted quiz fails exactly when all of its attempts have zero questions. |
| AdminReport.EntryIsBest | app.py:702-731 | A top-score row has a positive total and is some attempt's score, total and date. Its percentage is at least that of every attempt with questions. Its attempt count is the number of distinct users, at most the attempts. |
| AdminReport.TopScoresSorted | app.py:733 | The top-score table is ordered by descending percentage and is a permutation of the per-quiz rows. |
| AdminReport.SubjectAttemptTable | app.py:736-752 | The subject-attempt loop computes the rows defined by the positive counts, sorted. |
| AdminReport.SubjectAttemptRowsContents | app.py:736-752 | The rows are exactly the subjects with a positive attempt count, paired with that count, in descending count order. |
| AdminReport.AttemptCountsCoverAttempts | app.py:736-744 | When keys are unique and links resolve, the per-subject attempt counts add up to the number of attempts. |
| AdminReport.AdminSummaryPage | app.py:685-767 | A non-admin is redirected. An admin gets an error exactly when the top-score table fails. Otherwise the page holds the counts, the top scores and the subject rows. |
| Cascade.PurgeChaptersTwice | app.py:826-833 | Purging disjoint chapter sets one after the other equals purging their union. This is the step of the nested delete loops. |
| Cascade.PurgeQuizzesConsistent | app.py:236-238 | Deleting quizzes with their questions and attempts keeps the database consistent. |
| Cascade.PurgeChaptersConsistent | app.py:901-906 | Deleting chapters with their quizzes, questions and attempts keeps the database consistent. |
| Cascade.RemoveSubjectConsistent | app.py:826-834 | Deleting a subject with everything under it keeps the database consistent. |
| Cascade.RemoveQuestionConsistent | app.py:325 | Deleting a question keeps the database consistent. |
| Cascade.RemoveUserConsistent | app.py:1003-1004 | Deleting a user with their attempts keeps the database consistent. |
| Cascade.RemoveChapterRows | app.py:901-907 | Deleting a chapter keeps users and subjects unchanged. It removes exactly the chapter, the quizzes of that chapter, and the questions and attempts of those quizzes. |
| Cascade.RemoveSubjectRows | app.py:826-834 | Deleting a subject keeps users unchanged. It removes exactly the subject, its chapters, the quizzes in them, and their questions and attempts. |
| Store.AdminAccount | app.py:63-70 | The start-up account is named `admin@example.com` and is an administrator. |
| Store.WithAdminConsistent | app.py:59-72 | Ensuring the administrator exists keeps the database consistent, leaves an `admin@example.com` user, and changes only the users table. |
| Store.Registered | app.py:106-112 | The new user is not an administrator. It has the posted e-mail and the hashed password, and an id not yet in use. |
| Store.RegisterConsistent | app.py:102-114 | Adding a registered user whose e-mail is not yet taken keeps the database consistent. |
| Store.Submitted | app.py:432-438 | The attempt row has a fresh id, the caller, the quiz and the time. Its total is the quiz's question count and its score is the graded score. |
| Store.SubmitConsistent | app.py:432-440 | Adding the attempt keeps the database consistent, and its score is within its total. |
| Store.Edited | app.py:970-977 | An edited user keeps its id, e-mail and admin flag and takes the posted name, qualification and birth date. The password changes to the new password's hash only when a new password was posted. |
| Store.EditUserConsistent | app.py:970-978 | Replacing the edited user keeps the database consistent. |
| Store.EditKeepsOtherUsers | app.py:970-977 | An edit keeps the number of users and every other user row. |
| Store.EditKeepsAdmins | app.py:965-977 | Editing a non-admin user keeps every administrator row. |
| Store.Store.constructor | app.py:55-72 | The store starts from a consistent database with the administrator ensured. |
| Store.Store.Register | app.py:95-120 | An invalid form is refused as Invalid, and a taken e-mail as Refused. Otherwise exactly one registered user is appended. Only the users table can change, and consistency is kept. |
| Store.Store.SubmitAttempt | app.py:410-445 | An admin is denied, and a missing quiz is not found. Otherwise exactly the graded attempt is appended. Consistency is kept. |
| Store.Store.PurgeChapter | app.py:901-906 | The loop over the chapter's quizzes deletes their questions, attempts and rows, and then the chapter. |
| Store.Store.PurgeChapterList | app.py:826-832 | The loop over a subject's chapters purges each chapter with everything under it. |
| Store.Store.DeleteQuiz | app.py:226-245 | A non-admin is denied, and a missing quiz is not found. Otherwise the quiz, its questions and its attempts are deleted. Consistency is kept. |
| Store.Store.DeleteChapter | app.py:891-912 | A non-admin is denied, and a missing chapter is not found. Otherwise the chapter is deleted with its quizzes, questions and attempts. Consistency is kept. |
| Store.Store.DeleteSubject | app.py:816-839 | A non-admin is denied, and a missing subject is not found. Otherwise the subject is deleted with everything under it. Consistency is kept. |
| Store.Store.DeleteQuestion | app.py:315-332 | A non-admin is denied, and a missing question is not found. Otherwise exactly that question is deleted. Consistency is kept. |
| Store.Store.DeleteUser | app.py:989-1012 | A non-admin is denied, a missing user is not found, and an admin target is refused. Otherwise the user and their attempts are deleted. No administrator is ever removed. |
| Store.Store.EditUser | app.py:957-986 | A non-admin is denied, a missing user is not found, and an admin target is refused. An invalid form is Invalid. Otherwise only the target user is replaced by its edited row. No administrator is ever changed. |
| Sorting.SortOrdered | app.py:733 | The stable sort that stands for `list.sort(reverse=True)` yields an ordered list. |
| Sorting.SortSameElements | app.py:752 | Sorting the subject-attempt rows keeps exactly the rows it was given. |

## Left out

- Floating point and rounding: percentages are exact ratios, and `round(..., 1)` and the `:.1f` formatting are not modelled.
- AdminReport.TopScoresSorted sorts by the exact percentage. The source sorts by the percentage rounded to one decimal (app.py:733), so two rows whose percentages round equal may end up in another order.
- Month names: `strftime('%B %Y')` labels are not modelled. Months are (year, month) keys, which sort like the `'%Y-%m'` strings.
- E-mail syntax (`Email()`), CSRF tokens and `validate_on_submit`'s request-method check are not modelled.
- SHA-256 is a parameter `hash` of the operations that store passwords.
- Database failures and the `rollback` branches are not modelled: every handler is modelled as committing all of its changes.
- SQL arithmetic follows SQLite, the application's default database: a division by zero yields NULL, NULL sorts after every number under `DESC` (`AdminReport.Outranks`), and `AVG` skips NULLs (`Analytics.MeanPercent`). Another database chosen through `DATABASE_URL` may raise an error or order NULLs first instead.
- Ties in SQL `ORDER BY ... .first()` are broken by taking the first row in table order. SQL leaves that order unspecified.
- `sorted`, `list.sort` and `ORDER BY` are one stable insertion sort on values.
- Whitespace for `DataRequired` is the ASCII set. Unicode whitespace is not modelled.
- The ChapterForm's subject choices, login, logout, the profile route (app.py:916-955), `user_scores`, and the add and edit routes for subjects, chapters and quizzes are not part of this model.
- Analytics.UserDashboard: the trend-chart data and the per-subject averages of the dashboard are not on the page value. Their mean-of-percentages formula is modelled separately as `Analytics.MeanPercent`.
- Store.Store.Register: the redirect of an already logged-in visitor (app.py:96-97) is left out, because the session is not modelled.
- Forms.EmptyConfirmationAccepted: the confirmation of a new password is `Optional()`, so an empty confirmation skips `EqualTo`. The model follows the code, not the reading that a new password always needs a matching confirmation.
- PDF layout, flash messages, logging and template rendering are not modelled.

## Findings

| source | as written | input that shows it | evidently intended | confidence | as-written member | corrected member |
|---|---|---|---|---|---|---|
| app.py:304 | `edit_question` stores the chosen slot name (`option2`) as the correct answer, whereas `add_question` stores the option's text and grading compares the text found under the posted slot with it | a question edited with options "Paris", "Rome", "Oslo", "Bern" and correct option `option1`; a student posts `option1` and `getattr` yields "Paris", which differs from "option1" | store `getattr(form, form.correct_option.data).data`, as `add_question` does at app.py:261-262 | not executed | Scoring.EditAsWrittenLosesAnswer | Scoring.EditedQuestionEarnsChosenSlot |
