/**
 * What the delete handlers of app.py do to the tables, as functions of one
 * snapshot: `delete_quiz`, `delete_chapter` and `delete_subject` remove a row
 * together with every row below it in the hierarchy subject > chapter > quiz
 * > question/attempt; `delete_question` removes one leaf row; `delete_user`
 * removes a user with their attempts.
 */
module Cascade {
  import opened Tables
  import opened Models

  /** The ids of the quizzes that sit in the chapters `cids`. */
  function QuizIdsIn(db: Db, cids: set<nat>): set<nat>
  {
    Keys(Select(db.quizzes, QuizChapter, cids), QuizId)
  }

  /** The ids of the chapters of subject `sid`. */
  function ChapterIdsOf(db: Db, sid: nat): set<nat>
  {
    Keys(Select(db.chapters, ChapterSubject, {sid}), ChapterId)
  }

  /** For each quiz of `qids`: bulk-delete its questions and its attempts,
      then delete the quiz row. */
  function PurgeQuizzes(db: Db, qids: set<nat>): Db
  {
    db.(questions := Drop(db.questions, QuestionQuiz, qids),
        attempts := Drop(db.attempts, AttemptQuiz, qids),
        quizzes := Drop(db.quizzes, QuizId, qids))
  }

  /** For each chapter of `cids`: purge its quizzes, then delete the chapter row. */
  function PurgeChapters(db: Db, cids: set<nat>): Db
  {
    PurgeQuizzes(db, QuizIdsIn(db, cids)).(chapters := Drop(db.chapters, ChapterId, cids))
  }

  function RemoveQuiz(db: Db, id: nat): Db
  {
    PurgeQuizzes(db, {id})
  }

  function RemoveChapter(db: Db, id: nat): Db
  {
    PurgeChapters(db, {id})
  }

  function RemoveSubject(db: Db, id: nat): Db
  {
    PurgeChapters(db, ChapterIdsOf(db, id)).(subjects := Drop(db.subjects, SubjectId, {id}))
  }

  function RemoveQuestion(db: Db, id: nat): Db
  {
    db.(questions := Drop(db.questions, QuestionId, {id}))
  }

  function RemoveUser(db: Db, id: nat): Db
  {
    db.(attempts := Drop(db.attempts, AttemptUser, {id}), users := Drop(db.users, UserId, {id}))
  }

  /** Quiz `qid` sits in chapter `cid`. */
  ghost predicate QuizInChapter(db: Db, qid: nat, cid: nat)
  {
    exists q :: q in db.quizzes && q.id == qid && q.chapterId == cid
  }

  /** Quiz `qid` sits in a chapter of subject `sid`. */
  ghost predicate QuizInSubject(db: Db, qid: nat, sid: nat)
  {
    exists q, c :: q in db.quizzes && c in db.chapters && q.id == qid && q.chapterId == c.id && c.subjectId == sid
  }

  // ------------------------------------------------------------ composition

  /** Purging quizzes in two rounds purges the union. */
  lemma PurgeQuizzesTwice(db: Db, a: set<nat>, b: set<nat>)
    ensures PurgeQuizzes(PurgeQuizzes(db, a), b) == PurgeQuizzes(db, a + b)
  {
    DropDrop(db.questions, QuestionQuiz, a, b);
    DropDrop(db.attempts, AttemptQuiz, a, b);
    DropDrop(db.quizzes, QuizId, a, b);
  }

  lemma PurgeNoQuizzes(db: Db)
    ensures PurgeQuizzes(db, {}) == db
  {
    DropNothing(db.questions, QuestionQuiz);
    DropNothing(db.attempts, AttemptQuiz);
    DropNothing(db.quizzes, QuizId);
  }

  /** Purging two disjoint sets of chapters one after the other purges their
      union: the quizzes of the second set are read after the first purge,
      which removed only quizzes of other chapters. */
  lemma PurgeChaptersTwice(db: Db, a: set<nat>, b: set<nat>)
    requires DistinctKeys(db.quizzes, QuizId)
    requires a !! b
    ensures PurgeChapters(PurgeChapters(db, a), b) == PurgeChapters(db, a + b)
  {
    var d1 := PurgeChapters(db, a);
    DropSelectedIds(db.quizzes, QuizId, QuizChapter, a);
    SelectAfterDrop(db.quizzes, QuizChapter, a, b);
    assert QuizIdsIn(d1, b) == QuizIdsIn(db, b);
    KeysSelectUnion(db.quizzes, QuizChapter, a, b, QuizId);
    PurgeQuizzesTwice(db, QuizIdsIn(db, a), QuizIdsIn(db, b));
    DropDrop(db.chapters, ChapterId, a, b);
  }

  lemma PurgeNoChapters(db: Db)
    ensures PurgeChapters(db, {}) == db
  {
    SelectNothing(db.quizzes, QuizChapter);
    PurgeNoQuizzes(db);
    DropNothing(db.chapters, ChapterId);
  }

  // ------------------------------------------------------------ integrity

  /** Purging quizzes leaves no question or attempt pointing at a missing quiz. */
  lemma PurgeQuizzesConsistent(db: Db, qids: set<nat>)
    requires Consistent(db)
    ensures Consistent(PurgeQuizzes(db, qids))
  {
    var r := PurgeQuizzes(db, qids);
    DropKeepsDistinct(db.quizzes, QuizId, qids, QuizId);
    DropKeepsDistinct(db.questions, QuestionQuiz, qids, QuestionId);
    DropKeepsDistinct(db.attempts, AttemptQuiz, qids, AttemptId);
    forall x | x in r.questions ensures x.quizId in Keys(r.quizzes, QuizId) {
      KeptParent(db.quizzes, QuizId, qids, x.quizId);
    }
    forall a | a in r.attempts ensures a.quizId in Keys(r.quizzes, QuizId) {
      KeptParent(db.quizzes, QuizId, qids, a.quizId);
    }
  }

  /** Purging chapters leaves no quiz pointing at a missing chapter, and
      (through their quizzes) no question or attempt either. */
  lemma PurgeChaptersConsistent(db: Db, cids: set<nat>)
    requires Consistent(db)
    ensures Consistent(PurgeChapters(db, cids))
  {
    var qids := QuizIdsIn(db, cids);
    PurgeQuizzesConsistent(db, qids);
    var r := PurgeChapters(db, cids);
    DropKeepsDistinct(db.chapters, ChapterId, cids, ChapterId);
    forall q | q in r.quizzes ensures q.chapterId in Keys(r.chapters, ChapterId) {
      KeptParent(db.chapters, ChapterId, cids, q.chapterId);
    }
  }

  /** Removing a subject with all it contains keeps the tables consistent. */
  lemma RemoveSubjectConsistent(db: Db, id: nat)
    requires Consistent(db)
    ensures Consistent(RemoveSubject(db, id))
  {
    var cids := ChapterIdsOf(db, id);
    PurgeChaptersConsistent(db, cids);
    var r := RemoveSubject(db, id);
    DropKeepsDistinct(db.subjects, SubjectId, {id}, SubjectId);
    forall c | c in r.chapters ensures c.subjectId in Keys(r.subjects, SubjectId) {
      KeptParent(db.subjects, SubjectId, {id}, c.subjectId);
    }
  }

  /** Questions are leaves: removing one keeps the tables consistent. */
  lemma RemoveQuestionConsistent(db: Db, id: nat)
    requires Consistent(db)
    ensures Consistent(RemoveQuestion(db, id))
  {
    DropKeepsDistinct(db.questions, QuestionId, {id}, QuestionId);
  }

  /** Removing a user together with their attempts keeps the tables consistent. */
  lemma RemoveUserConsistent(db: Db, id: nat)
    requires Consistent(db)
    ensures Consistent(RemoveUser(db, id))
  {
    var r := RemoveUser(db, id);
    DropKeepsDistinct(db.users, UserId, {id}, UserId);
    DropKeepsDistinct(db.users, UserId, {id}, Username);
    DropKeepsDistinct(db.attempts, AttemptUser, {id}, AttemptId);
    forall a | a in r.attempts ensures a.userId in Keys(r.users, UserId) {
      KeptParent(db.users, UserId, {id}, a.userId);
    }
  }

  // ------------------------------------------------------------ exact effect

  /** A quiz id is among the purged ones exactly when the quiz sits in the chapter. */
  lemma InChapterIds(db: Db, cid: nat, qid: nat)
    ensures qid in QuizIdsIn(db, {cid}) <==> QuizInChapter(db, qid, cid)
  {
    var sel := Select(db.quizzes, QuizChapter, {cid});
    if qid in Keys(sel, QuizId) {
      KeysMember(sel, QuizId, qid);
    }
    if QuizInChapter(db, qid, cid) {
      var q :| q in db.quizzes && q.id == qid && q.chapterId == cid;
      assert q in sel;
    }
  }

  /** A quiz id is among the purged ones exactly when the quiz sits in a chapter of the subject. */
  lemma InSubjectIds(db: Db, sid: nat, qid: nat)
    ensures qid in QuizIdsIn(db, ChapterIdsOf(db, sid)) <==> QuizInSubject(db, qid, sid)
  {
    var chs := Select(db.chapters, ChapterSubject, {sid});
    var cids := ChapterIdsOf(db, sid);
    var sel := Select(db.quizzes, QuizChapter, cids);
    if qid in Keys(sel, QuizId) {
      KeysMember(sel, QuizId, qid);
      var q :| q in sel && q.id == qid;
      KeysMember(chs, ChapterId, q.chapterId);
      var c :| c in chs && c.id == q.chapterId;
      assert q in db.quizzes && c in db.chapters;
    }
    if QuizInSubject(db, qid, sid) {
      var q, c :| q in db.quizzes && c in db.chapters && q.id == qid && q.chapterId == c.id && c.subjectId == sid;
      assert c in chs;
      assert q in sel;
    }
  }

  /** With unique chapter ids, a chapter's id is among the subject's exactly
      when the chapter belongs to the subject. */
  lemma ChapterOfSubject(db: Db, sid: nat, c: Chapter)
    requires DistinctKeys(db.chapters, ChapterId) && c in db.chapters
    ensures c.id in ChapterIdsOf(db, sid) <==> c.subjectId == sid
  {
    var chs := Select(db.chapters, ChapterSubject, {sid});
    if c.id in Keys(chs, ChapterId) {
      KeysMember(chs, ChapterId, c.id);
      var d :| d in chs && d.id == c.id;
      SameKeySameRow(db.chapters, ChapterId, c, d);
    }
  }

  /** `delete_chapter` removes the chapter, exactly its quizzes, and exactly
      the questions and attempts of those quizzes; every other row stays. */
  lemma RemoveChapterRows(db: Db, id: nat)
    requires DistinctKeys(db.quizzes, QuizId)
    ensures var r := RemoveChapter(db, id);
      && r.users == db.users && r.subjects == db.subjects
      && (forall c :: c in r.chapters <==> c in db.chapters && c.id != id)
      && (forall q :: q in r.quizzes <==> q in db.quizzes && q.chapterId != id)
      && (forall x :: x in r.questions <==> x in db.questions && !QuizInChapter(db, x.quizId, id))
      && (forall a :: a in r.attempts <==> a in db.attempts && !QuizInChapter(db, a.quizId, id))
  {
    var r := RemoveChapter(db, id);
    forall q | q in db.quizzes ensures q in r.quizzes <==> q.chapterId != id {
      InChapterIds(db, id, q.id);
      if QuizInChapter(db, q.id, id) {
        var p :| p in db.quizzes && p.id == q.id && p.chapterId == id;
        SameKeySameRow(db.quizzes, QuizId, p, q);
      }
    }
    forall x | x in db.questions ensures x in r.questions <==> !QuizInChapter(db, x.quizId, id) {
      InChapterIds(db, id, x.quizId);
    }
    forall a | a in db.attempts ensures a in r.attempts <==> !QuizInChapter(db, a.quizId, id) {
      InChapterIds(db, id, a.quizId);
    }
  }

  /** `delete_subject` removes the subject, exactly its chapters, exactly the
      quizzes in those chapters, and exactly the questions and attempts of
      those quizzes; every other row stays. */
  lemma RemoveSubjectRows(db: Db, id: nat)
    requires DistinctKeys(db.chapters, ChapterId)
    ensures var r := RemoveSubject(db, id);
      && r.users == db.users
      && (forall s :: s in r.subjects <==> s in db.subjects && s.id != id)
      && (forall c :: c in r.chapters <==> c in db.chapters && c.subjectId != id)
      && (forall q :: q in r.quizzes <==> q in db.quizzes && !QuizInSubject(db, q.id, id))
      && (forall x :: x in r.questions <==> x in db.questions && !QuizInSubject(db, x.quizId, id))
      && (forall a :: a in r.attempts <==> a in db.attempts && !QuizInSubject(db, a.quizId, id))
  {
    var r := RemoveSubject(db, id);
    forall c | c in db.chapters ensures c in r.chapters <==> c.subjectId != id {
      ChapterOfSubject(db, id, c);
    }
    forall q | q in db.quizzes ensures q in r.quizzes <==> !QuizInSubject(db, q.id, id) {
      InSubjectIds(db, id, q.id);
    }
    forall x | x in db.questions ensures x in r.questions <==> !QuizInSubject(db, x.quizId, id) {
      InSubjectIds(db, id, x.quizId);
    }
    forall a | a in db.attempts ensures a in r.attempts <==> !QuizInSubject(db, a.quizId, id) {
      InSubjectIds(db, id, a.quizId);
    }
  }
}
