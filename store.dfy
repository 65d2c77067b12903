/**
 * The database as one mutable object and the route handlers that write to
 * it: start-up, registration, quiz submission, the admin's delete handlers
 * and the admin's user edit.  Each handler takes the logged-in user's record
 * as `caller` and commits all of its writes or none of them.
 */
module Store {
  import opened Tables
  import opened Models
  import opened Forms
  import opened Scoring
  import opened Cascade

  /** How a handler ends. */
  datatype Outcome =
    | Done      // the writes were committed
    | Denied    // the caller lacks the role the route demands
    | NotFound  // `get_or_404` found no row with the requested id
    | Refused   // the route will not touch the row (an admin account, a taken e-mail)
    | Invalid   // the submitted form did not validate

  const AdminUsername: string := "admin@example.com"
  const AdminPassword: string := "admin123"

  /** The account created at start-up: the digest of the default password,
      and today as date of birth. */
  function AdminAccount(id: nat, hash: string -> string, today: Date): (u: User)
    ensures u.username == AdminUsername && u.isAdmin
  {
    NewUser(id, AdminUsername, hash(AdminPassword), "Administrator", "Admin", today, Some(true))
  }

  /** Start-up: the admin account is added unless a user already has its e-mail. */
  function WithAdmin(db: Db, hash: string -> string, today: Date): Db
  {
    if AdminUsername in Keys(db.users, Username) then db
    else db.(users := db.users + [AdminAccount(NextId(db.users, UserId), hash, today)])
  }

  /** After start-up some user has the admin e-mail, and only the users table changed. */
  lemma WithAdminConsistent(db: Db, hash: string -> string, today: Date)
    requires Consistent(db)
    ensures var r := WithAdmin(db, hash, today);
      && Consistent(r)
      && AdminUsername in Keys(r.users, Username)
      && r == db.(users := r.users)
  {
    if AdminUsername !in Keys(db.users, Username) {
      var u := AdminAccount(NextId(db.users, UserId), hash, today);
      AppendDistinct(db.users, UserId, u);
      AppendDistinct(db.users, Username, u);
      KeysAppend(db.users, [u], UserId);
      KeysAppend(db.users, [u], Username);
      assert Keys([u], Username) == {AdminUsername};
    }
  }

  /** The row a registration adds: `is_admin` is not given, so it is false. */
  function Registered(db: Db, f: RegistrationForm, hash: string -> string): (u: User)
    requires f.dob.Some?
    ensures !u.isAdmin && u.username == f.username && u.password == hash(f.password)
    ensures u.id !in Keys(db.users, UserId)
  {
    var u := NewUser(NextId(db.users, UserId), f.username, hash(f.password), f.fullName,
                     f.qualification, f.dob.value, None);
    KeysAbsent(db.users, UserId, u.id);
    u
  }

  /** `edit_user` on the row `u`: name, qualification and date of birth are
      overwritten; the password digest only when a new password was typed. */
  function Edited(u: User, f: ProfileForm, hash: string -> string): (v: User)
    requires f.dob.Some?
    ensures v.id == u.id && v.username == u.username && v.isAdmin == u.isAdmin
    ensures v.fullName == f.fullName && v.qualification == f.qualification && v.dob == f.dob.value
    ensures v.password == (if f.newPassword != "" then hash(f.newPassword) else u.password)
  {
    u.(fullName := f.fullName, qualification := f.qualification, dob := f.dob.value,
       password := if f.newPassword != "" then hash(f.newPassword) else u.password)
  }

  /** The users table after `edit_user` on the user `id`. */
  function EditedUsers(us: seq<User>, id: nat, f: ProfileForm, hash: string -> string): seq<User>
    requires f.dob.Some? && id in Keys(us, UserId)
  {
    Replace(us, UserId, id, Edited(Find(us, UserId, id).value, f, hash))
  }

  /** The questions of a quiz, as `quiz.questions` loads them. */
  function QuestionsOf(db: Db, quizId: nat): seq<Question>
  {
    Select(db.questions, QuestionQuiz, {quizId})
  }

  /** The row `attempt_quiz` adds for `user` on quiz `quizId`. */
  function Submitted(db: Db, user: User, quizId: nat, answers: map<nat, string>, now: DateTime): (a: QuizAttempt)
    ensures a.id !in Keys(db.attempts, AttemptId)
    ensures a.quizId == quizId && a.userId == user.id && a.attemptDate == now
    ensures a.totalQuestions == |QuestionsOf(db, quizId)|
    ensures a.score == Score(QuestionsOf(db, quizId), answers)
  {
    var qs := QuestionsOf(db, quizId);
    var a := QuizAttempt(NextId(db.attempts, AttemptId), quizId, user.id, Score(qs, answers), |qs|, now);
    KeysAbsent(db.attempts, AttemptId, a.id);
    a
  }

  /** An accepted registration form carries a date of birth. */
  lemma RegistrationHasDob(f: RegistrationForm, today: Date)
    requires RegistrationAccepted(f, today)
    ensures f.dob.Some?
  {
    RegistrationAcceptance(f, today);
  }

  /** An accepted profile form carries a date of birth. */
  lemma ProfileHasDob(f: ProfileForm, today: Date)
    requires ProfileAccepted(f, today)
    ensures f.dob.Some?
  {
    ProfileAcceptance(f, today);
  }

  /** A registration keeps the tables consistent: the new row's id and e-mail are fresh. */
  lemma RegisterConsistent(db: Db, f: RegistrationForm, hash: string -> string)
    requires Consistent(db) && f.dob.Some? && f.username !in Keys(db.users, Username)
    ensures Consistent(db.(users := db.users + [Registered(db, f, hash)]))
  {
    var u := Registered(db, f, hash);
    AppendDistinct(db.users, UserId, u);
    AppendDistinct(db.users, Username, u);
    KeysAppend(db.users, [u], UserId);
  }

  /** A submission keeps the tables consistent: the attempt names an existing
      quiz and user, gets a fresh id, and scores at most its total. */
  lemma SubmitConsistent(db: Db, user: User, quizId: nat, answers: map<nat, string>, now: DateTime)
    requires Consistent(db) && user in db.users && quizId in Keys(db.quizzes, QuizId)
    ensures Consistent(db.(attempts := db.attempts + [Submitted(db, user, quizId, answers, now)]))
  {
    var a := Submitted(db, user, quizId, answers, now);
    FullMarks(QuestionsOf(db, quizId), answers);
    AppendDistinct(db.attempts, AttemptId, a);
  }

  /** `edit_user` keeps the ids and e-mails of the users table, so the
      tables stay consistent. */
  lemma EditUserConsistent(db: Db, id: nat, f: ProfileForm, hash: string -> string)
    requires Consistent(db) && f.dob.Some? && id in Keys(db.users, UserId)
    ensures Consistent(db.(users := EditedUsers(db.users, id, f, hash)))
  {
    var target := Find(db.users, UserId, id).value;
    var v := Edited(target, f, hash);
    forall x | x in db.users && x.id == id ensures x.username == v.username {
      SameKeySameRow(db.users, UserId, x, target);
    }
    ReplaceKeepsColumn(db.users, UserId, id, v, UserId);
    ReplaceKeepsColumn(db.users, UserId, id, v, Username);
  }

  /** `edit_user` leaves every other user row as it was. */
  lemma EditKeepsOtherUsers(us: seq<User>, id: nat, f: ProfileForm, hash: string -> string)
    requires f.dob.Some? && id in Keys(us, UserId)
    ensures |EditedUsers(us, id, f, hash)| == |us|
    ensures forall u :: u in us && u.id != id ==> u in EditedUsers(us, id, f, hash)
  {
    var r := EditedUsers(us, id, f, hash);
    forall u | u in us && u.id != id ensures u in r {
      var i :| 0 <= i < |us| && us[i] == u;
      assert r[i] == u;
    }
  }

  /** Editing a non-admin user leaves every admin account as it was. */
  lemma EditKeepsAdmins(us: seq<User>, id: nat, f: ProfileForm, hash: string -> string)
    requires f.dob.Some? && id in Keys(us, UserId) && DistinctKeys(us, UserId)
    requires !Find(us, UserId, id).value.isAdmin
    ensures forall u :: u in us && u.isAdmin ==> u in EditedUsers(us, id, f, hash)
  {
    EditKeepsOtherUsers(us, id, f, hash);
    forall u | u in us && u.isAdmin ensures u.id != id {
      if u.id == id {
        SameKeySameRow(us, UserId, u, Find(us, UserId, id).value);
      }
    }
  }

  class Store {
    var users: seq<User>
    var subjects: seq<Subject>
    var chapters: seq<Chapter>
    var quizzes: seq<Quiz>
    var questions: seq<Question>
    var attempts: seq<QuizAttempt>

    /** The six tables as one value. */
    function Snapshot(): Db
      reads this
    {
      Db(users, subjects, chapters, quizzes, questions, attempts)
    }

    /** Keys are unique, foreign keys resolve and no score exceeds its total. */
    ghost predicate Valid()
      reads this
    {
      Consistent(Snapshot())
    }

    /** Start-up on the stored tables `db`: create the admin account when no
        user has its e-mail. */
    constructor (db: Db, hash: string -> string, today: Date)
      requires Consistent(db)
      ensures Snapshot() == WithAdmin(db, hash, today)
      ensures Valid()
      ensures AdminUsername in Keys(users, Username)
    {
      var admin := Find(db.users, Username, AdminUsername);
      var us := db.users;
      if admin.None? {
        us := us + [AdminAccount(NextId(db.users, UserId), hash, today)];
      }
      users := us;
      subjects := db.subjects;
      chapters := db.chapters;
      quizzes := db.quizzes;
      questions := db.questions;
      attempts := db.attempts;
      WithAdminConsistent(db, hash, today);
    }

    /** `register`: a valid form under an e-mail nobody uses adds a non-admin user. */
    method Register(f: RegistrationForm, today: Date, hash: string -> string) returns (o: Outcome)
      requires Valid()
      modifies this
      ensures Valid()
      ensures o == (if !RegistrationAccepted(f, today) then Invalid
                    else if f.username in Keys(old(users), Username) then Refused
                    else Done)
      ensures o == Done ==> f.dob.Some? && users == old(users) + [Registered(old(Snapshot()), f, hash)]
      ensures o != Done ==> users == old(users)
      ensures Snapshot() == old(Snapshot()).(users := users)
    {
      if !RegistrationAccepted(f, today) {
        return Invalid;
      }
      var existing := Find(users, Username, f.username);
      if existing.Some? {
        return Refused;
      }
      RegistrationHasDob(f, today);
      RegisterConsistent(Snapshot(), f, hash);
      users := users + [Registered(Snapshot(), f, hash)];
      o := Done;
    }

    /** `attempt_quiz` on submission: an admin is turned away, a missing quiz
        is a 404, and otherwise one graded attempt is added. */
    method SubmitAttempt(caller: User, quizId: nat, answers: map<nat, string>, now: DateTime) returns (o: Outcome)
      requires Valid() && caller in users
      modifies this
      ensures Valid()
      ensures o == (if caller.isAdmin then Denied
                    else if quizId in Keys(old(quizzes), QuizId) then Done
                    else NotFound)
      ensures o == Done ==> Snapshot() == old(Snapshot()).(attempts := old(attempts) + [Submitted(old(Snapshot()), caller, quizId, answers, now)])
      ensures o != Done ==> Snapshot() == old(Snapshot())
    {
      if caller.isAdmin {
        return Denied;
      }
      var quiz := Find(quizzes, QuizId, quizId);
      if quiz.None? {
        return NotFound;
      }
      var qs := QuestionsOf(Snapshot(), quizId);
      var score, total := GradeSubmission(qs, answers);
      var a := QuizAttempt(NextId(attempts, AttemptId), quizId, caller.id, score, total, now);
      assert a == Submitted(Snapshot(), caller, quizId, answers, now);
      SubmitConsistent(Snapshot(), caller, quizId, answers, now);
      attempts := attempts + [a];
      o := Done;
    }

    /** The bulk deletes `delete_quiz` runs for one quiz id. */
    method PurgeQuiz(id: nat)
      modifies this
      ensures Snapshot() == PurgeQuizzes(old(Snapshot()), {id})
    {
      questions := Drop(questions, QuestionQuiz, {id});
      attempts := Drop(attempts, AttemptQuiz, {id});
      quizzes := Drop(quizzes, QuizId, {id});
    }

    /** The body of `delete_chapter` for one chapter id: each of its quizzes
        is purged in turn, then the chapter row is deleted. */
    method PurgeChapter(id: nat)
      modifies this
      ensures Snapshot() == PurgeChapters(old(Snapshot()), {id})
    {
      ghost var db0 := Snapshot();
      var qs := Select(quizzes, QuizChapter, {id});
      PurgeNoQuizzes(db0);
      for j := 0 to |qs|
        invariant Snapshot() == PurgeQuizzes(db0, Keys(qs[..j], QuizId))
      {
        PurgeQuiz(qs[j].id);
        PurgeQuizzesTwice(db0, Keys(qs[..j], QuizId), {qs[j].id});
        KeysSnoc(qs, QuizId, j);
      }
      assert qs[..|qs|] == qs;
      chapters := Drop(chapters, ChapterId, {id});
    }

    /** The outer loop of `delete_subject`: the chapters `chs` are purged
        one after another. */
    method PurgeChapterList(chs: seq<Chapter>)
      requires DistinctKeys(quizzes, QuizId) && DistinctKeys(chs, ChapterId)
      modifies this
      ensures Snapshot() == PurgeChapters(old(Snapshot()), Keys(chs, ChapterId))
    {
      ghost var db0 := Snapshot();
      PurgeNoChapters(db0);
      for i := 0 to |chs|
        invariant Snapshot() == PurgeChapters(db0, Keys(chs[..i], ChapterId))
      {
        KeysBefore(chs, ChapterId, i);
        PurgeChapter(chs[i].id);
        PurgeChaptersTwice(db0, Keys(chs[..i], ChapterId), {chs[i].id});
        KeysSnoc(chs, ChapterId, i);
      }
      assert chs[..|chs|] == chs;
    }

    /** `delete_quiz`. */
    method DeleteQuiz(caller: User, id: nat) returns (o: Outcome)
      requires Valid()
      modifies this
      ensures Valid()
      ensures o == (if !caller.isAdmin then Denied else if id in Keys(old(quizzes), QuizId) then Done else NotFound)
      ensures o == Done ==> Snapshot() == RemoveQuiz(old(Snapshot()), id)
      ensures o != Done ==> Snapshot() == old(Snapshot())
    {
      if !caller.isAdmin {
        return Denied;
      }
      var quiz := Find(quizzes, QuizId, id);
      if quiz.None? {
        return NotFound;
      }
      PurgeQuizzesConsistent(Snapshot(), {id});
      PurgeQuiz(quiz.value.id);
      o := Done;
    }

    /** `delete_chapter`. */
    method DeleteChapter(caller: User, id: nat) returns (o: Outcome)
      requires Valid()
      modifies this
      ensures Valid()
      ensures o == (if !caller.isAdmin then Denied else if id in Keys(old(chapters), ChapterId) then Done else NotFound)
      ensures o == Done ==> Snapshot() == RemoveChapter(old(Snapshot()), id)
      ensures o != Done ==> Snapshot() == old(Snapshot())
    {
      if !caller.isAdmin {
        return Denied;
      }
      var chapter := Find(chapters, ChapterId, id);
      if chapter.None? {
        return NotFound;
      }
      PurgeChaptersConsistent(Snapshot(), {id});
      PurgeChapter(chapter.value.id);
      o := Done;
    }

    /** `delete_subject`: each chapter of the subject is purged in turn (its
        quizzes read after the chapters before it are gone), then the subject
        row is deleted. */
    method DeleteSubject(caller: User, id: nat) returns (o: Outcome)
      requires Valid()
      modifies this
      ensures Valid()
      ensures o == (if !caller.isAdmin then Denied else if id in Keys(old(subjects), SubjectId) then Done else NotFound)
      ensures o == Done ==> Snapshot() == RemoveSubject(old(Snapshot()), id)
      ensures o != Done ==> Snapshot() == old(Snapshot())
    {
      if !caller.isAdmin {
        return Denied;
      }
      var subject := Find(subjects, SubjectId, id);
      if subject.None? {
        return NotFound;
      }
      RemoveSubjectConsistent(Snapshot(), id);
      var chs := Select(chapters, ChapterSubject, {id});
      SelectKeepsDistinct(chapters, ChapterSubject, {id}, ChapterId);
      PurgeChapterList(chs);
      subjects := Drop(subjects, SubjectId, {id});
      o := Done;
    }

    /** `delete_question`: only the question row goes. */
    method DeleteQuestion(caller: User, id: nat) returns (o: Outcome)
      requires Valid()
      modifies this
      ensures Valid()
      ensures o == (if !caller.isAdmin then Denied else if id in Keys(old(questions), QuestionId) then Done else NotFound)
      ensures o == Done ==> Snapshot() == RemoveQuestion(old(Snapshot()), id)
      ensures o != Done ==> Snapshot() == old(Snapshot())
    {
      if !caller.isAdmin {
        return Denied;
      }
      var question := Find(questions, QuestionId, id);
      if question.None? {
        return NotFound;
      }
      RemoveQuestionConsistent(Snapshot(), id);
      questions := Drop(questions, QuestionId, {id});
      o := Done;
    }

    /** `delete_user`: a non-admin user goes together with their attempts; an
        admin account is refused and stays. */
    method DeleteUser(caller: User, id: nat) returns (o: Outcome)
      requires Valid()
      modifies this
      ensures Valid()
      ensures !caller.isAdmin ==> o == Denied
      ensures caller.isAdmin && id !in Keys(old(users), UserId) ==> o == NotFound
      ensures caller.isAdmin && id in Keys(old(users), UserId) ==>
                o == (if Find(old(users), UserId, id).value.isAdmin then Refused else Done)
      ensures o == Done ==> Snapshot() == RemoveUser(old(Snapshot()), id)
      ensures o != Done ==> Snapshot() == old(Snapshot())
      ensures forall u :: u in old(users) && u.isAdmin ==> u in users
    {
      if !caller.isAdmin {
        return Denied;
      }
      var target := Find(users, UserId, id);
      if target.None? {
        return NotFound;
      }
      if target.value.isAdmin {
        return Refused;
      }
      ghost var db0 := Snapshot();
      RemoveUserConsistent(db0, id);
      forall u | u in db0.users && u.isAdmin ensures u.id != id {
        if u.id == id {
          SameKeySameRow(db0.users, UserId, u, target.value);
        }
      }
      attempts := Drop(attempts, AttemptUser, {id});
      users := Drop(users, UserId, {id});
      o := Done;
    }

    /** `edit_user`: an admin account is refused; a valid profile form
        overwrites the target's details and, when a new password is typed,
        its digest. */
    method EditUser(caller: User, id: nat, f: ProfileForm, today: Date, hash: string -> string) returns (o: Outcome)
      requires Valid()
      modifies this
      ensures Valid()
      ensures !caller.isAdmin ==> o == Denied
      ensures caller.isAdmin && id !in Keys(old(users), UserId) ==> o == NotFound
      ensures caller.isAdmin && id in Keys(old(users), UserId) ==>
                o == (if Find(old(users), UserId, id).value.isAdmin then Refused
                      else if ProfileAccepted(f, today) then Done
                      else Invalid)
      ensures o == Done ==> f.dob.Some? && id in Keys(old(users), UserId)
      ensures o == Done ==> Snapshot() == old(Snapshot()).(users := EditedUsers(old(users), id, f, hash))
      ensures o != Done ==> Snapshot() == old(Snapshot())
      ensures forall u :: u in old(users) && u.isAdmin ==> u in users
    {
      if !caller.isAdmin {
        return Denied;
      }
      var target := Find(users, UserId, id);
      if target.None? {
        return NotFound;
      }
      if target.value.isAdmin {
        return Refused;
      }
      if !ProfileAccepted(f, today) {
        return Invalid;
      }
      ProfileHasDob(f, today);
      EditUserConsistent(Snapshot(), id, f, hash);
      EditKeepsAdmins(users, id, f, hash);
      users := EditedUsers(users, id, f, hash);
      o := Done;
    }
  }
}
