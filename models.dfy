/**
 * The records of the quiz application (models.py) and the referential
 * invariants the relational schema keeps between them.  A table is a
 * sequence of rows in insertion order; `Db` is one snapshot of all six.
 */
module Models {
  import opened Tables

  /** A calendar date, compared field by field (year, then month, then day). */
  datatype Date = Date(year: int, month: int, day: int)

  /** `a > b` on dates, as Python compares `datetime.date` values. */
  predicate DateAfter(a: Date, b: Date)
  {
    a.year > b.year
    || (a.year == b.year && a.month > b.month)
    || (a.year == b.year && a.month == b.month && a.day > b.day)
  }

  /** A timestamp: a date and the microseconds elapsed since its midnight. */
  datatype DateTime = DateTime(date: Date, tick: nat)

  /** `a > b` on timestamps. */
  predicate Later(a: DateTime, b: DateTime)
  {
    DateAfter(a.date, b.date) || (a.date == b.date && a.tick > b.tick)
  }

  /** The `'%Y-%m'` bucket of a timestamp, as a (year, month) pair. */
  datatype MonthKey = MonthKey(year: int, month: int)

  function MonthOfDate(t: DateTime): MonthKey
  {
    MonthKey(t.date.year, t.date.month)
  }

  datatype User = User(
    id: nat,
    username: string,       // the e-mail address; unique and non-null
    password: string,       // the stored password digest
    fullName: string,
    qualification: string,
    dob: Date,
    isAdmin: bool)

  datatype Subject = Subject(id: nat, name: string, description: Option<string>)

  datatype Chapter = Chapter(id: nat, name: string, description: Option<string>, subjectId: nat)

  datatype Quiz = Quiz(id: nat, chapterId: nat, timeDuration: int, remarks: string)

  /** A question keeps four option texts and the correct option as a plain
      string: nothing ties `correctOption` to one of the four slots. */
  datatype Question = Question(
    id: nat,
    quizId: nat,
    statement: string,
    option1: string,
    option2: string,
    option3: string,
    option4: string,
    correctOption: string)

  datatype QuizAttempt = QuizAttempt(
    id: nat,
    quizId: nat,
    userId: nat,
    score: nat,
    totalQuestions: nat,
    attemptDate: DateTime)

  /** One snapshot of the six tables. */
  datatype Db = Db(
    users: seq<User>,
    subjects: seq<Subject>,
    chapters: seq<Chapter>,
    quizzes: seq<Quiz>,
    questions: seq<Question>,
    attempts: seq<QuizAttempt>)

  // Column accessors, used as key functions by the generic table operations.
  function UserId(u: User): nat { u.id }
  function Username(u: User): string { u.username }
  function SubjectId(s: Subject): nat { s.id }
  function ChapterId(c: Chapter): nat { c.id }
  function ChapterSubject(c: Chapter): nat { c.subjectId }
  function QuizId(q: Quiz): nat { q.id }
  function QuizChapter(q: Quiz): nat { q.chapterId }
  function QuestionId(q: Question): nat { q.id }
  function QuestionQuiz(q: Question): nat { q.quizId }
  function AttemptId(a: QuizAttempt): nat { a.id }
  function AttemptQuiz(a: QuizAttempt): nat { a.quizId }
  function AttemptUser(a: QuizAttempt): nat { a.userId }

  /** Primary keys are unique in every table, and so is the user e-mail. */
  ghost predicate UniqueKeys(db: Db)
  {
    && DistinctKeys(db.users, UserId)
    && DistinctKeys(db.users, Username)
    && DistinctKeys(db.subjects, SubjectId)
    && DistinctKeys(db.chapters, ChapterId)
    && DistinctKeys(db.quizzes, QuizId)
    && DistinctKeys(db.questions, QuestionId)
    && DistinctKeys(db.attempts, AttemptId)
  }

  /** Every non-null foreign key names an existing row: a chapter its subject,
      a quiz its chapter, a question its quiz, an attempt its quiz and user. */
  ghost predicate Linked(db: Db)
  {
    && (forall c :: c in db.chapters ==> c.subjectId in Keys(db.subjects, SubjectId))
    && (forall q :: q in db.quizzes ==> q.chapterId in Keys(db.chapters, ChapterId))
    && (forall q :: q in db.questions ==> q.quizId in Keys(db.quizzes, QuizId))
    && (forall a :: a in db.attempts ==> a.quizId in Keys(db.quizzes, QuizId))
    && (forall a :: a in db.attempts ==> a.userId in Keys(db.users, UserId))
  }

  /** Attempt rows are only written by the scoring loop, which never awards
      more points than there are questions. */
  ghost predicate Scored(db: Db)
  {
    forall a :: a in db.attempts ==> a.score <= a.totalQuestions
  }

  ghost predicate Consistent(db: Db)
  {
    UniqueKeys(db) && Linked(db) && Scored(db)
  }

  /** `Quiz(**kwargs)`: a quiz built without remarks (or with `remarks=None`)
      gets the empty string, so the column is never null. */
  function NewQuiz(id: nat, chapterId: nat, timeDuration: int, remarks: Option<string>): (q: Quiz)
    ensures q.id == id && q.chapterId == chapterId && q.timeDuration == timeDuration
    ensures remarks.None? ==> q.remarks == ""
    ensures remarks.Some? ==> q.remarks == remarks.value
  {
    Quiz(id, chapterId, timeDuration, if remarks.Some? then remarks.value else "")
  }

  /** `User(**kwargs)`: the admin flag defaults to false when it is not given. */
  function NewUser(id: nat, username: string, password: string, fullName: string,
                   qualification: string, dob: Date, isAdmin: Option<bool>): (u: User)
    ensures u.id == id && u.username == username && u.password == password
    ensures u.fullName == fullName && u.qualification == qualification && u.dob == dob
    ensures u.isAdmin <==> isAdmin == Some(true)
  {
    User(id, username, password, fullName, qualification, dob,
         if isAdmin.Some? then isAdmin.value else false)
  }

  /** A key one larger than every key in use, as an auto-increment column hands out. */
  function NextId<T>(s: seq<T>, id: T -> nat): (k: nat)
    ensures forall x :: x in s ==> id(x) < k
  {
    if s == [] then 1 else
    var rest := NextId(s[1..], id);
    assert forall x :: x in s ==> x == s[0] || x in s[1..];
    if id(s[0]) < rest then rest else id(s[0]) + 1
  }
}
