/**
 * The admin summary page (`admin_summary`, app.py): counts over the
 * subject -> chapter -> quiz -> question hierarchy, the best attempt of each
 * quiz with the number of distinct users who tried it, and the number of
 * attempts made on the quizzes of each subject.
 */
module AdminReport {
  import opened Tables
  import opened Models
  import opened Sorting
  import opened Ratios

  // ------------------------------------------------------------ hierarchy counts

  datatype Counts = Counts(subjects: nat, chapters: nat, quizzes: nat, questions: nat, users: nat)

  function IsAdmin(u: User): bool { u.isAdmin }

  /** `User.query.filter_by(is_admin=False)` */
  function NonAdmins(db: Db): (r: seq<User>)
    ensures forall u :: u in r <==> u in db.users && !u.isAdmin
  {
    Select(db.users, IsAdmin, {false})
  }

  /** `len(chapter.quizzes)` */
  function QuizzesIn(db: Db): Chapter -> nat
  {
    ChildCount(db.quizzes, QuizChapter, ChapterId)
  }

  /** `len(quiz.questions)` */
  function QuestionsIn(db: Db): Quiz -> nat
  {
    ChildCount(db.questions, QuestionQuiz, QuizId)
  }

  /** The page's counts: the subjects, then the chapters of every subject,
      the quizzes of every such chapter and the questions of every such quiz,
      each reached through the parent relationships; and the non-admin users. */
  function HierarchyCounts(db: Db): Counts
  {
    Counts(
      |db.subjects|,
      SumOver(db.subjects, ChildCount(db.chapters, ChapterSubject, SubjectId)),
      SumOver(db.subjects, GroupWeight(SubjectId, db.chapters, ChapterSubject, QuizzesIn(db))),
      SumOver(db.subjects, GroupWeight(SubjectId, db.chapters, ChapterSubject,
                                       GroupWeight(ChapterId, db.quizzes, QuizChapter, QuestionsIn(db)))),
      |NonAdmins(db)|)
  }

  /** With unique keys and every link in place, walking the hierarchy counts
      every chapter, quiz and question exactly once. */
  lemma HierarchyCountsMatchTables(db: Db)
    requires UniqueKeys(db) && Linked(db)
    ensures HierarchyCounts(db) == Counts(|db.subjects|, |db.chapters|, |db.quizzes|, |db.questions|, |NonAdmins(db)|)
  {
    ChildTotal(db.subjects, SubjectId, db.chapters, ChapterSubject);
    ChildTotal(db.chapters, ChapterId, db.quizzes, QuizChapter);
    GroupTotal(db.subjects, SubjectId, db.chapters, ChapterSubject, QuizzesIn(db));
    ChildTotal(db.quizzes, QuizId, db.questions, QuestionQuiz);
    GroupTotal(db.chapters, ChapterId, db.quizzes, QuizChapter, QuestionsIn(db));
    GroupTotal(db.subjects, SubjectId, db.chapters, ChapterSubject,
               GroupWeight(ChapterId, db.quizzes, QuizChapter, QuestionsIn(db)));
  }

  // ------------------------------------------------------------ top scores

  /** `ORDER BY score * 100.0 / total_questions DESC` places `a` strictly
      before `b`.  SQLite yields NULL for a division by zero, and NULL comes
      after every number in a descending order. */
  predicate Outranks(a: QuizAttempt, b: QuizAttempt)
  {
    a.totalQuestions > 0
    && (b.totalQuestions == 0 || Below(Ratio(b.score, b.totalQuestions), Ratio(a.score, a.totalQuestions)))
  }

  /** `.first()` of that ordering over some attempts; of equal-ranked rows
      the earlier one. */
  function BestAttempt(b: seq<QuizAttempt>): (r: Option<QuizAttempt>)
    ensures r.Some? <==> b != []
    ensures r.Some? ==> r.value in b
  {
    if b == [] then None
    else
      var last := b[|b| - 1];
      match BestAttempt(b[..|b| - 1])
      case None => Some(last)
      case Some(x) =>
        assert x in b[..|b| - 1];
        if Outranks(last, x) then Some(last) else Some(x)
  }

  lemma OutranksTrans(a: QuizAttempt, b: QuizAttempt, c: QuizAttempt)
    requires Outranks(a, b) && Outranks(b, c)
    ensures Outranks(a, c)
  {
    if c.totalQuestions > 0 {
      BelowTrans(Ratio(c.score, c.totalQuestions), Ratio(b.score, b.totalQuestions), Ratio(a.score, a.totalQuestions));
    }
  }

  /** No attempt is ranked above the best one; its question count is zero
      (the percentage divides by zero) exactly when every attempt's is. */
  lemma {:induction false} BestAttemptUnbeaten(b: seq<QuizAttempt>)
    requires b != []
    ensures forall a :: a in b ==> !Outranks(a, BestAttempt(b).value)
    ensures BestAttempt(b).value.totalQuestions == 0 <==> forall a :: a in b ==> a.totalQuestions == 0
  {
    var n := |b| - 1;
    var init := b[..n];
    var last := b[n];
    var best := BestAttempt(b).value;
    assert forall a :: a in b <==> a in init || a == last;
    if init != [] {
      BestAttemptUnbeaten(init);
      var x := BestAttempt(init).value;
      if Outranks(last, x) {
        forall a | a in init ensures !Outranks(a, last) {
          if Outranks(a, last) {
            OutranksTrans(a, last, x);
          }
        }
      }
    }
    if best.totalQuestions == 0 {
      forall a | a in b ensures a.totalQuestions == 0 {
        assert !Outranks(a, best);
      }
    }
  }

  /** One line of the top-scores table. */
  datatype TopScore = TopScore(
    quizName: string,
    chapter: string,
    subject: string,
    user: string,
    score: nat,
    total: nat,
    percentage: Ratio,
    date: DateTime,
    attempts: nat)

  /** `QuizAttempt.query.filter_by(quiz_id=quiz.id)` */
  function QuizAttempts(db: Db, q: Quiz): seq<QuizAttempt>
  {
    Select(db.attempts, AttemptQuiz, {q.id})
  }

  /** The line of a quiz whose best attempt is `best`; None when the request
      fails on it: the percentage divides by zero, or the user, the chapter or
      the subject it names is missing (an attribute of None is read). */
  function Entry(db: Db, q: Quiz, best: QuizAttempt): Option<TopScore>
  {
    if best.totalQuestions == 0 then None
    else
      match Find(db.users, UserId, best.userId)
      case None => None
      case Some(u) =>
        match Find(db.chapters, ChapterId, q.chapterId)
        case None => None
        case Some(c) =>
          match Find(db.subjects, SubjectId, c.subjectId)
          case None => None
          case Some(sub) =>
            Some(TopScore(q.remarks, c.name, sub.name, u.fullName, best.score, best.totalQuestions,
                          Ratio(best.score, best.totalQuestions), best.attemptDate,
                          |Keys(QuizAttempts(db, q), AttemptUser)|))
  }

  /** One turn of the loop over the quizzes: a quiz without attempts adds no
      line; None once a line fails. */
  function AddLine(acc: Option<seq<TopScore>>, db: Db, q: Quiz): Option<seq<TopScore>>
  {
    match acc
    case None => None
    case Some(rows) =>
      match BestAttempt(QuizAttempts(db, q))
      case None => Some(rows)
      case Some(best) =>
        match Entry(db, q, best)
        case None => None
        case Some(e) => Some(rows + [e])
  }

  /** The lines of the given quizzes, before sorting. */
  function TopScoreEntries(qs: seq<Quiz>, db: Db): Option<seq<TopScore>>
  {
    if qs == [] then Some([])
    else AddLine(TopScoreEntries(qs[..|qs| - 1], db), db, qs[|qs| - 1])
  }

  lemma TopScoreEntriesStep(qs: seq<Quiz>, db: Db, k: int)
    requires 0 <= k < |qs|
    ensures TopScoreEntries(qs[..k + 1], db) == AddLine(TopScoreEntries(qs[..k], db), db, qs[k])
  {
    assert qs[..k + 1][..k] == qs[..k];
  }

  /** The sort key: a higher percentage comes first. */
  predicate HigherPercentage(x: TopScore, y: TopScore)
  {
    Below(y.percentage, x.percentage)
  }

  /** The table after `top_scores.sort(key=percentage, reverse=True)`. */
  function TopScores(db: Db): Option<seq<TopScore>>
  {
    match TopScoreEntries(db.quizzes, db)
    case None => None
    case Some(rows) => Some(Sort(rows, HigherPercentage))
  }

  lemma {:induction false} TopScoreEntriesFail(qs: seq<Quiz>, db: Db, k: int)
    requires 0 <= k <= |qs| && TopScoreEntries(qs[..k], db).None?
    ensures TopScoreEntries(qs, db).None?
    decreases |qs| - k
  {
    if k < |qs| {
      TopScoreEntriesStep(qs, db, k);
      TopScoreEntriesFail(qs, db, k + 1);
    } else {
      assert qs[..k] == qs;
    }
  }

  /** The top-scores loop and the sort after it. */
  method TopScoreTable(db: Db) returns (r: Option<seq<TopScore>>)
    ensures r == TopScores(db)
  {
    var qs := db.quizzes;
    var rows := [];
    for k := 0 to |qs|
      invariant TopScoreEntries(qs[..k], db) == Some(rows)
    {
      TopScoreEntriesStep(qs, db, k);
      var q := qs[k];
      var best := BestAttempt(QuizAttempts(db, q));
      if best.Some? {
        var e := Entry(db, q, best.value);
        if e.None? {
          TopScoreEntriesFail(qs, db, k + 1);
          return None;
        }
        rows := rows + [e.value];
      }
    }
    assert qs[..|qs|] == qs;
    r := Some(Sort(rows, HigherPercentage));
  }

  /** `(q: Quiz) => q has at least one attempt` */
  function HasAttempts(db: Db): Quiz -> bool
  {
    (q: Quiz) => QuizAttempts(db, q) != []
  }

  /** Quizzes without attempts add no line: the unsorted table is that of
      the quizzes with at least one attempt. */
  lemma {:induction false} TopScoreEntriesSkip(qs: seq<Quiz>, db: Db)
    ensures TopScoreEntries(qs, db) == TopScoreEntries(Select(qs, HasAttempts(db), {true}), db)
  {
    if qs == [] {
      SelectNothing(qs, HasAttempts(db));
    } else {
      var init := qs[..|qs| - 1];
      var q := qs[|qs| - 1];
      var tried := Select(init, HasAttempts(db), {true});
      assert qs == init + [q];
      TopScoreEntriesSkip(init, db);
      SelectAppend(init, [q], HasAttempts(db), {true});
      assert [q][1..] == [];
      if QuizAttempts(db, q) != [] {
        assert Select([q], HasAttempts(db), {true}) == [q];
        assert (tried + [q])[..|tried|] == tried;
      } else {
        assert Select([q], HasAttempts(db), {true}) == [];
        assert tried + [] == tried;
      }
    }
  }

  /** For quizzes that all have attempts there is one line per quiz. */
  lemma {:induction false} TopScoreEntriesCount(ts: seq<Quiz>, db: Db)
    requires forall q :: q in ts ==> QuizAttempts(db, q) != []
    requires TopScoreEntries(ts, db).Some?
    ensures |TopScoreEntries(ts, db).value| == |ts|
  {
    if ts != [] {
      var init := ts[..|ts| - 1];
      assert forall q :: q in init ==> q in ts;
      TopScoreEntriesCount(init, db);
    }
  }

  /** ... in the order of the quizzes, each made from that quiz's best attempt. */
  lemma {:induction false} TopScoreLine(ts: seq<Quiz>, db: Db, i: int)
    requires forall q :: q in ts ==> QuizAttempts(db, q) != []
    requires TopScoreEntries(ts, db).Some?
    requires 0 <= i < |ts|
    ensures i < |TopScoreEntries(ts, db).value|
    ensures Some(TopScoreEntries(ts, db).value[i]) == Entry(db, ts[i], BestAttempt(QuizAttempts(db, ts[i])).value)
  {
    var init := ts[..|ts| - 1];
    var q := ts[|ts| - 1];
    var acc := TopScoreEntries(init, db);
    assert TopScoreEntries(ts, db) == AddLine(acc, db, q);
    AddLineAppends(acc, db, q);
    if i < |ts| - 1 {
      assert forall x :: x in init ==> x in ts;
      TopScoreLine(init, db, i);
    } else {
      assert forall x :: x in init ==> x in ts;
      TopScoreEntriesCount(init, db);
    }
  }

  /** A line that does not fail is appended after the lines before it. */
  lemma AddLineAppends(acc: Option<seq<TopScore>>, db: Db, q: Quiz)
    requires QuizAttempts(db, q) != [] && AddLine(acc, db, q).Some?
    ensures acc.Some?
    ensures Entry(db, q, BestAttempt(QuizAttempts(db, q)).value).Some?
    ensures AddLine(acc, db, q) == Some(acc.value + [Entry(db, q, BestAttempt(QuizAttempts(db, q)).value).value])
  {
  }

  /** The request fails exactly when some quiz with attempts has a failing line. */
  lemma {:induction false} TopScoreEntriesFailure(qs: seq<Quiz>, db: Db)
    ensures TopScoreEntries(qs, db).None? <==>
      exists q :: q in qs && QuizAttempts(db, q) != [] && Entry(db, q, BestAttempt(QuizAttempts(db, q)).value).None?
  {
    if qs != [] {
      var init := qs[..|qs| - 1];
      TopScoreEntriesFailure(init, db);
      assert forall q :: q in qs <==> q in init || q == qs[|qs| - 1];
    }
  }

  /** With every link in place, a line fails only on a division by zero:
      when every attempt of the quiz has no questions. */
  lemma EntryFailsOnZeroTotals(db: Db, q: Quiz)
    requires Linked(db) && q in db.quizzes && QuizAttempts(db, q) != []
    ensures Entry(db, q, BestAttempt(QuizAttempts(db, q)).value).None? <==>
      forall a :: a in QuizAttempts(db, q) ==> a.totalQuestions == 0
  {
    var b := QuizAttempts(db, q);
    var best := BestAttempt(b).value;
    BestAttemptUnbeaten(b);
    assert best in db.attempts;
    var c := Find(db.chapters, ChapterId, q.chapterId);
    assert c.value in db.chapters;
  }

  /** A line reports the best attempt of its quiz: a percentage no other
      attempt with questions exceeds, taken from one of the quiz's attempts,
      and a count of distinct users that is at most the number of attempts. */
  lemma EntryIsBest(db: Db, q: Quiz)
    requires QuizAttempts(db, q) != []
    requires Entry(db, q, BestAttempt(QuizAttempts(db, q)).value).Some?
    ensures var b := QuizAttempts(db, q);
      var e := Entry(db, q, BestAttempt(b).value).value;
      && e.total > 0
      && e.percentage == Ratio(e.score, e.total)
      && (exists a :: a in b && a.score == e.score && a.totalQuestions == e.total && a.attemptDate == e.date)
      && (forall a :: a in b && a.totalQuestions > 0 ==> AtMost(Ratio(a.score, a.totalQuestions), e.percentage))
      && e.attempts == |Keys(b, AttemptUser)| <= |b|
  {
    var b := QuizAttempts(db, q);
    var best := BestAttempt(b).value;
    BestAttemptUnbeaten(b);
    forall a | a in b && a.totalQuestions > 0
      ensures AtMost(Ratio(a.score, a.totalQuestions), Ratio(best.score, best.totalQuestions))
    {
      assert !Outranks(a, best);
    }
  }

  /** The sorted table is in non-increasing percentage order and holds the
      same lines as the loop produced. */
  lemma TopScoresSorted(db: Db)
    requires TopScores(db).Some?
    ensures Ordered(TopScores(db).value, HigherPercentage)
    ensures multiset(TopScores(db).value) == multiset(TopScoreEntries(db.quizzes, db).value)
  {
    assert Asymmetric(HigherPercentage);
    SortOrdered(TopScoreEntries(db.quizzes, db).value, HigherPercentage);
  }

  // ------------------------------------------------------- attempts per subject

  /** The subject an attempt is counted under by the joins
      `QuizAttempt -> Quiz -> Chapter`: the id the chapter names. */
  function AttemptSubject(db: Db): QuizAttempt -> Option<nat>
  {
    (a: QuizAttempt) =>
      match Find(db.quizzes, QuizId, a.quizId)
      case None => None
      case Some(q) =>
        match Find(db.chapters, ChapterId, q.chapterId)
        case None => None
        case Some(c) => Some(c.subjectId)
  }

  function SubjectKeyOf(sub: Subject): Option<nat> { Some(sub.id) }

  /** `count(QuizAttempt.id)` over the joins, filtered to one subject. */
  function AttemptCount(db: Db, sub: Subject): nat
  {
    ChildCount(db.attempts, AttemptSubject(db), SubjectKeyOf)(sub)
  }

  datatype SubjectCount = SubjectCount(name: string, attempts: nat)

  /** The subject loop: a line for each subject with at least one attempt. */
  function PositiveCounts(subs: seq<Subject>, db: Db): seq<SubjectCount>
  {
    if subs == [] then []
    else
      var sub := subs[|subs| - 1];
      var n := AttemptCount(db, sub);
      PositiveCounts(subs[..|subs| - 1], db) + (if n > 0 then [SubjectCount(sub.name, n)] else [])
  }

  predicate MoreAttempts(x: SubjectCount, y: SubjectCount)
  {
    x.attempts > y.attempts
  }

  /** The table after `subject_attempts.sort(key=total_attempts, reverse=True)`. */
  function SubjectAttemptRows(db: Db): seq<SubjectCount>
  {
    Sort(PositiveCounts(db.subjects, db), MoreAttempts)
  }

  /** The subject loop and the sort after it. */
  method SubjectAttemptTable(db: Db) returns (rows: seq<SubjectCount>)
    ensures rows == SubjectAttemptRows(db)
  {
    var subs := db.subjects;
    var counts := [];
    for k := 0 to |subs|
      invariant counts == PositiveCounts(subs[..k], db)
    {
      assert subs[..k + 1][..k] == subs[..k];
      var n := AttemptCount(db, subs[k]);
      if n > 0 {
        counts := counts + [SubjectCount(subs[k].name, n)];
      }
    }
    assert subs[..|subs|] == subs;
    rows := Sort(counts, MoreAttempts);
  }

  lemma {:induction false} PositiveCountsMembers(subs: seq<Subject>, db: Db)
    ensures forall r :: r in PositiveCounts(subs, db) <==>
      exists sub :: sub in subs && AttemptCount(db, sub) > 0 && r == SubjectCount(sub.name, AttemptCount(db, sub))
  {
    if subs != [] {
      var init := subs[..|subs| - 1];
      PositiveCountsMembers(init, db);
      assert forall sub :: sub in subs <==> sub in init || sub == subs[|subs| - 1];
    }
  }

  /** The table lists exactly the subjects with at least one attempt, each
      with its count, largest count first. */
  lemma SubjectAttemptRowsContents(db: Db)
    ensures forall r :: r in SubjectAttemptRows(db) ==> r.attempts > 0
    ensures forall r :: r in SubjectAttemptRows(db) <==>
      exists sub :: sub in db.subjects && AttemptCount(db, sub) > 0 && r == SubjectCount(sub.name, AttemptCount(db, sub))
    ensures Ordered(SubjectAttemptRows(db), MoreAttempts)
  {
    PositiveCountsMembers(db.subjects, db);
    SortSameElements(PositiveCounts(db.subjects, db), MoreAttempts);
    assert Asymmetric(MoreAttempts);
    SortOrdered(PositiveCounts(db.subjects, db), MoreAttempts);
  }

  /** With unique keys and every link in place, each attempt is counted under
      exactly one subject: the counts of all subjects add up to the attempts. */
  lemma AttemptCountsCoverAttempts(db: Db)
    requires UniqueKeys(db) && Linked(db)
    ensures SumOver(db.subjects, ChildCount(db.attempts, AttemptSubject(db), SubjectKeyOf)) == |db.attempts|
  {
    var key := AttemptSubject(db);
    assert DistinctKeys(db.subjects, SubjectKeyOf) by {
      forall i, j | 0 <= i < j < |db.subjects| ensures SubjectKeyOf(db.subjects[i]) != SubjectKeyOf(db.subjects[j]) {
        assert SubjectId(db.subjects[i]) != SubjectId(db.subjects[j]);
      }
    }
    forall a | a in db.attempts ensures key(a) in Keys(db.subjects, SubjectKeyOf) {
      var q := Find(db.quizzes, QuizId, a.quizId).value;
      assert q in db.quizzes;
      var c := Find(db.chapters, ChapterId, q.chapterId).value;
      assert c in db.chapters;
      KeysMember(db.subjects, SubjectId, c.subjectId);
      var sub :| sub in db.subjects && sub.id == c.subjectId;
      assert key(a) == SubjectKeyOf(sub);
    }
    ChildTotal(db.subjects, SubjectKeyOf, db.attempts, key);
  }

  // ------------------------------------------------------------ the page

  datatype AdminSummary = AdminSummary(counts: Counts, topScores: seq<TopScore>, subjectAttempts: seq<SubjectCount>)

  datatype AdminPage = AdminRedirect | AdminError | AdminShown(summary: AdminSummary)

  /** The admin summary page: only an admin sees it; it fails when the
      top-scores table does. */
  method AdminSummaryPage(db: Db, user: User) returns (page: AdminPage)
    ensures !user.isAdmin <==> page.AdminRedirect?
    ensures page.AdminError? <==> user.isAdmin && TopScores(db).None?
    ensures page.AdminShown? ==>
      page.summary == AdminSummary(HierarchyCounts(db), TopScores(db).value, SubjectAttemptRows(db))
  {
    if !user.isAdmin {
      return AdminRedirect;
    }
    var counts := HierarchyCounts(db);
    var top := TopScoreTable(db);
    if top.None? {
      return AdminError;
    }
    var subjects := SubjectAttemptTable(db);
    page := AdminShown(AdminSummary(counts, top.value, subjects));
  }
}
