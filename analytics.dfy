/**
 * The per-user statistics of the quiz application: the summary page
 * (`user_summary`), the table data of the downloadable report
 * (`download_summary`) and the quiz list and recent attempts of the user
 * dashboard (`user_dashboard`), all in app.py.
 *
 * Both summary views accumulate attempts into dictionaries keyed by month
 * (and, on the summary page, by subject name).  `Tabulate` is that loop;
 * `FirstSeen`, `Bucket` and `TallyOf` say what it computes.
 */
module Analytics {
  import opened Tables
  import opened Models
  import opened Sorting
  import opened Ratios

  function ScoreOf(a: QuizAttempt): nat { a.score }
  function TotalOf(a: QuizAttempt): nat { a.totalQuestions }

  /** `QuizAttempt.query.filter_by(user_id=...)`: one user's attempts, in table order. */
  function AttemptsOf(db: Db, userId: nat): seq<QuizAttempt>
  {
    Select(db.attempts, AttemptUser, {userId})
  }

  // ------------------------------------------------------ grouping attempts

  /** The running totals kept in one dictionary entry: the number of
      attempts, the sum of scores, the sum of question counts and the set of
      quiz ids seen. */
  datatype Tally = Tally(attempts: nat, totalScore: nat, totalQuestions: nat, quizzes: set<nat>)

  /** One pass of the loop body: the entry after counting attempt `a`. */
  function Add(t: Tally, a: QuizAttempt): Tally
  {
    Tally(t.attempts + 1, t.totalScore + a.score, t.totalQuestions + a.totalQuestions, t.quizzes + {a.quizId})
  }

  /** The totals of a group of attempts, stated as sums. */
  function TallyOf(b: seq<QuizAttempt>): Tally
  {
    Tally(|b|, SumOver(b, ScoreOf), SumOver(b, TotalOf), Keys(b, AttemptQuiz))
  }

  /** Accumulating attempt by attempt yields the sums. */
  lemma TallySnoc(b: seq<QuizAttempt>, a: QuizAttempt)
    ensures TallyOf(b + [a]) == Add(TallyOf(b), a)
  {
    SumOverAppend(b, [a], ScoreOf);
    SumOverAppend(b, [a], TotalOf);
    KeysAppend(b, [a], AttemptQuiz);
    assert [a][1..] == [];
  }

  /** The attempts of `s` that `key` files under `k`, in order. */
  function Bucket<K(==,!new)>(s: seq<QuizAttempt>, key: QuizAttempt -> Option<K>, k: K): seq<QuizAttempt>
  {
    Select(s, key, {Some(k)})
  }

  /** The keys of `s` in the order a dictionary first receives them; an
      attempt whose key is None is skipped. */
  function FirstSeen<K(==,!new)>(s: seq<QuizAttempt>, key: QuizAttempt -> Option<K>): (r: seq<K>)
    ensures forall k :: k in r <==> Some(k) in Keys(s, key)
    ensures Distinct(r)
  {
    if s == [] then []
    else
      var init := s[..|s| - 1];
      var a := s[|s| - 1];
      var r := FirstSeen(init, key);
      assert s == init + [a];
      KeysAppend(init, [a], key);
      assert [a][1..] == [];
      if key(a).Some? && key(a).value !in r then r + [key(a).value] else r
  }

  /** The dictionary the loop builds: one entry per key seen, holding the
      totals of the attempts filed under it. */
  function Entries<K(==,!new)>(s: seq<QuizAttempt>, key: QuizAttempt -> Option<K>): map<K, Tally>
  {
    map k | k in FirstSeen(s, key) :: TallyOf(Bucket(s, key, k))
  }

  lemma BucketSnoc<K(!new)>(s: seq<QuizAttempt>, a: QuizAttempt, key: QuizAttempt -> Option<K>, k: K)
    ensures key(a) == Some(k) ==> Bucket(s + [a], key, k) == Bucket(s, key, k) + [a]
    ensures key(a) != Some(k) ==> Bucket(s + [a], key, k) == Bucket(s, key, k)
  {
    SelectAppend(s, [a], key, {Some(k)});
    assert [a][1..] == [];
    assert Bucket(s, key, k) + [] == Bucket(s, key, k);
  }

  lemma FirstSeenSnoc<K(!new)>(s: seq<QuizAttempt>, a: QuizAttempt, key: QuizAttempt -> Option<K>)
    ensures FirstSeen(s + [a], key) ==
      if key(a).Some? && key(a).value !in FirstSeen(s, key) then FirstSeen(s, key) + [key(a).value]
      else FirstSeen(s, key)
  {
    assert (s + [a])[..|s|] == s;
  }

  /** An attempt without a key leaves the dictionary as it was. */
  lemma EntriesSkip<K(!new)>(s: seq<QuizAttempt>, a: QuizAttempt, key: QuizAttempt -> Option<K>)
    requires key(a).None?
    ensures FirstSeen(s + [a], key) == FirstSeen(s, key)
    ensures Entries(s + [a], key) == Entries(s, key)
  {
    var s' := s + [a];
    assert s'[..|s'| - 1] == s;
    assert FirstSeen(s', key) == FirstSeen(s, key);
    forall k ensures Bucket(s', key, k) == Bucket(s, key, k) {
      BucketSnoc(s, a, key, k);
    }
  }

  /** A key that no attempt carries has an empty bucket. */
  lemma BucketUnseen<K(!new)>(s: seq<QuizAttempt>, key: QuizAttempt -> Option<K>, k: K)
    requires k !in FirstSeen(s, key)
    ensures Bucket(s, key, k) == []
  {
    forall x | x in s ensures key(x) !in {Some(k)} {
      assert key(x) in Keys(s, key);
    }
    SelectNone(s, key, {Some(k)});
  }

  lemma EntriesDomain<K(!new)>(s: seq<QuizAttempt>, a: QuizAttempt, key: QuizAttempt -> Option<K>, k: K)
    requires key(a) == Some(k)
    ensures Entries(s + [a], key).Keys == Entries(s, key).Keys + {k}
  {
    FirstSeenSnoc(s, a, key);
  }

  lemma EntriesOthers<K(!new)>(s: seq<QuizAttempt>, a: QuizAttempt, key: QuizAttempt -> Option<K>, k: K)
    requires key(a) == Some(k)
    ensures forall j :: j in Entries(s, key) && j != k ==> Entries(s + [a], key)[j] == Entries(s, key)[j]
  {
    FirstSeenSnoc(s, a, key);
    forall j | j in Entries(s, key) && j != k ensures Entries(s + [a], key)[j] == Entries(s, key)[j] {
      BucketSnoc(s, a, key, j);
    }
  }

  lemma EntriesHere<K(!new)>(s: seq<QuizAttempt>, a: QuizAttempt, key: QuizAttempt -> Option<K>, k: K)
    requires key(a) == Some(k)
    ensures var e := Entries(s, key);
      k in Entries(s + [a], key) &&
      Entries(s + [a], key)[k] == Add(if k in e then e[k] else Tally(0, 0, 0, {}), a)
  {
    FirstSeenSnoc(s, a, key);
    BucketSnoc(s, a, key, k);
    if k !in Entries(s, key) {
      BucketUnseen(s, key, k);
    }
    TallySnoc(Bucket(s, key, k), a);
  }

  /** An attempt with key `k` is counted in the entry of `k`, created empty
      on first sight; the other entries stay as they were. */
  lemma EntriesCount<K(!new)>(s: seq<QuizAttempt>, a: QuizAttempt, key: QuizAttempt -> Option<K>, k: K)
    requires key(a) == Some(k)
    ensures var e := Entries(s, key);
      Entries(s + [a], key) == e[k := Add(if k in e then e[k] else Tally(0, 0, 0, {}), a)]
  {
    EntriesDomain(s, a, key, k);
    EntriesHere(s, a, key, k);
    EntriesOthers(s, a, key, k);
    var e := Entries(s, key);
    MapUpdated(e, Entries(s + [a], key), k, Add(if k in e then e[k] else Tally(0, 0, 0, {}), a));
  }

  /** A map that has one more key `k`, holding `v`, and agrees elsewhere is
      the update of the first at `k`. */
  lemma MapUpdated<K, V>(m: map<K, V>, m': map<K, V>, k: K, v: V)
    requires m'.Keys == m.Keys + {k}
    requires k in m' && m'[k] == v
    requires forall j :: j in m && j != k ==> m'[j] == m[j]
    ensures m' == m[k := v]
  {
  }

  /** The dictionary loop: for each attempt with a key, create the entry on
      first sight and add the attempt to it.  Returns the entries and their
      insertion order. */
  method Tabulate<K(==,!new)>(s: seq<QuizAttempt>, key: QuizAttempt -> Option<K>)
    returns (stats: map<K, Tally>, order: seq<K>)
    ensures order == FirstSeen(s, key)
    ensures stats == Entries(s, key)
  {
    stats := map[];
    order := [];
    for i := 0 to |s|
      invariant order == FirstSeen(s[..i], key)
      invariant stats == Entries(s[..i], key)
    {
      var a := s[i];
      assert s[..i + 1] == s[..i] + [a];
      match key(a) {
        case None =>
          EntriesSkip(s[..i], a, key);
        case Some(k) =>
          EntriesCount(s[..i], a, key, k);
          FirstSeenSnoc(s[..i], a, key);
          var t := if k in stats then stats[k] else Tally(0, 0, 0, {});
          if k !in stats {
            order := order + [k];
          }
          stats := stats[k := Add(t, a)];
      }
    }
    assert s[..|s|] == s;
  }

  /** Filing every attempt under exactly one of some distinct keys: the
      group sizes add up to the number of attempts. */
  lemma BucketsPartition<K(!new)>(s: seq<QuizAttempt>, key: QuizAttempt -> Option<K>, ks: seq<K>)
    requires Distinct(ks)
    requires forall a :: a in s ==> key(a).Some? && key(a).value in ks
    ensures SumOver(ks, ChildCount(s, key, Wrap)) == |s|
  {
    assert DistinctKeys(ks, Wrap);
    forall a | a in s ensures key(a) in Keys(ks, Wrap) {
      assert Wrap(key(a).value) == key(a);
    }
    ChildTotal(ks, Wrap, s, key);
  }

  // ------------------------------------------------------------ month rows

  /** The `'%Y-%m'` key of an attempt. */
  function MonthOf(a: QuizAttempt): Option<MonthKey>
  {
    Some(MonthOfDate(a.attemptDate))
  }

  /** Later month first: the order of zero-padded `'%Y-%m'` strings, reversed. */
  predicate LaterMonth(x: MonthKey, y: MonthKey)
  {
    x.year > y.year || (x.year == y.year && x.month > y.month)
  }

  /** One line of the month-wise table: the month, the number of attempts,
      the number of distinct quizzes and the percentage of points scored. */
  datatype MonthRow = MonthRow(month: MonthKey, attempts: nat, uniqueQuizzes: nat, score: Ratio)

  function Row(m: MonthKey, t: Tally): MonthRow
  {
    MonthRow(m, t.attempts, |t.quizzes|, Fraction(t.totalScore, t.totalQuestions))
  }

  function RowAttempts(r: MonthRow): nat { r.attempts }

  /** `sorted(month_stats.keys(), reverse=True)` */
  function MonthKeys(s: seq<QuizAttempt>): seq<MonthKey>
  {
    Sort(FirstSeen(s, MonthOf), LaterMonth)
  }

  /** The rows for the given month keys, in their order. */
  function RowsFor(ks: seq<MonthKey>, s: seq<QuizAttempt>): (rows: seq<MonthRow>)
    ensures |rows| == |ks|
  {
    if ks == [] then []
    else RowsFor(ks[..|ks| - 1], s) + [Row(ks[|ks| - 1], TallyOf(Bucket(s, MonthOf, ks[|ks| - 1])))]
  }

  /** The month-wise table of a list of attempts. */
  function MonthRows(s: seq<QuizAttempt>): seq<MonthRow>
  {
    RowsFor(MonthKeys(s), s)
  }

  /** The month loop and the table loop of both summary views. */
  method MonthWiseStats(s: seq<QuizAttempt>) returns (rows: seq<MonthRow>)
    ensures rows == MonthRows(s)
  {
    var stats, order := Tabulate(s, MonthOf);
    var keys := Sort(order, LaterMonth);
    SortSameElements(order, LaterMonth);
    rows := [];
    for j := 0 to |keys|
      invariant rows == RowsFor(keys[..j], s)
    {
      assert keys[j] in keys;
      var t := stats[keys[j]];
      assert t == TallyOf(Bucket(s, MonthOf, keys[j]));
      RowsForSnoc(keys, j, s);
      rows := rows + [Row(keys[j], t)];
    }
    assert keys[..|keys|] == keys;
  }

  lemma RowsForSnoc(ks: seq<MonthKey>, j: int, s: seq<QuizAttempt>)
    requires 0 <= j < |ks|
    ensures RowsFor(ks[..j + 1], s) == RowsFor(ks[..j], s) + [Row(ks[j], TallyOf(Bucket(s, MonthOf, ks[j])))]
  {
    assert ks[..j + 1][..j] == ks[..j];
  }

  /** Row `i` describes the `i`-th month key. */
  lemma {:induction false} RowsForIndex(ks: seq<MonthKey>, s: seq<QuizAttempt>, i: int)
    requires 0 <= i < |ks|
    ensures RowsFor(ks, s)[i] == Row(ks[i], TallyOf(Bucket(s, MonthOf, ks[i])))
    decreases |ks|
  {
    if i < |ks| - 1 {
      RowsForIndex(ks[..|ks| - 1], s, i);
    }
  }

  /** Rows come most recent month first, and no month appears twice. */
  lemma MonthRowsDescending(s: seq<QuizAttempt>)
    ensures forall i :: 0 < i < |MonthRows(s)| ==> LaterMonth(MonthRows(s)[i - 1].month, MonthRows(s)[i].month)
  {
    var ks := MonthKeys(s);
    assert Asymmetric(LaterMonth);
    assert Total(LaterMonth);
    StrictlyOrdered(FirstSeen(s, MonthOf), LaterMonth);
    forall i | 0 < i < |MonthRows(s)| ensures LaterMonth(MonthRows(s)[i - 1].month, MonthRows(s)[i].month) {
      RowsForIndex(ks, s, i - 1);
      RowsForIndex(ks, s, i);
    }
  }

  /** Each row describes exactly the attempts of its month: how many there
      are (at least one), how many distinct quizzes they cover (no more than
      the attempts) and their pooled percentage. */
  lemma MonthRowContents(s: seq<QuizAttempt>, i: int)
    requires 0 <= i < |MonthRows(s)|
    ensures var r := MonthRows(s)[i];
      var b := Bucket(s, MonthOf, r.month);
      && (forall a :: a in b <==> a in s && MonthOfDate(a.attemptDate) == r.month)
      && r.attempts == |b|
      && r.attempts > 0
      && r.uniqueQuizzes == |Keys(b, AttemptQuiz)| <= r.attempts
      && r.score == Fraction(SumOver(b, ScoreOf), SumOver(b, TotalOf))
  {
    var ks := MonthKeys(s);
    RowsForIndex(ks, s, i);
    SortSameElements(FirstSeen(s, MonthOf), LaterMonth);
    assert ks[i] in ks;
    KeysMember(s, MonthOf, Some(ks[i]));
    var a :| a in s && MonthOf(a) == Some(ks[i]);
    assert a in Bucket(s, MonthOf, ks[i]);
  }

  /** Every month in which an attempt was made has a row. */
  lemma MonthRowsCover(s: seq<QuizAttempt>)
    ensures forall a :: a in s ==> exists i :: 0 <= i < |MonthRows(s)| && MonthRows(s)[i].month == MonthOfDate(a.attemptDate)
  {
    var ks := MonthKeys(s);
    SortSameElements(FirstSeen(s, MonthOf), LaterMonth);
    forall a | a in s ensures exists i :: 0 <= i < |MonthRows(s)| && MonthRows(s)[i].month == MonthOfDate(a.attemptDate) {
      var m := MonthOfDate(a.attemptDate);
      assert Some(m) in Keys(s, MonthOf);
      assert m in ks;
      var i :| 0 <= i < |ks| && ks[i] == m;
      RowsForIndex(ks, s, i);
      assert MonthRows(s)[i].month == m;
    }
  }

  lemma MonthRowsCount(s: seq<QuizAttempt>)
    ensures SumOver(MonthRows(s), RowAttempts) == SumOver(MonthKeys(s), ChildCount(s, MonthOf, Wrap))
  {
    var ks := MonthKeys(s);
    var count := ChildCount(s, MonthOf, Wrap);
    forall i | 0 <= i < |ks| ensures RowAttempts(MonthRows(s)[i]) == count(ks[i]) {
      RowsForIndex(ks, s, i);
      assert count(ks[i]) == |Select(s, MonthOf, {Wrap(ks[i])})|;
      assert Wrap(ks[i]) == Some(ks[i]);
    }
    SumOverPointwise(MonthRows(s), RowAttempts, ks, count);
  }

  /** The attempt counts of all rows add up to the number of attempts. */
  lemma MonthAttemptsSum(s: seq<QuizAttempt>)
    ensures SumOver(MonthRows(s), RowAttempts) == |s|
  {
    var ks := MonthKeys(s);
    MonthRowsCount(s);
    SortSameElements(FirstSeen(s, MonthOf), LaterMonth);
    SortDistinct(FirstSeen(s, MonthOf), LaterMonth);
    forall a | a in s ensures MonthOf(a).Some? && MonthOf(a).value in ks {
      assert MonthOf(a) in Keys(s, MonthOf);
    }
    BucketsPartition(s, MonthOf, ks);
  }

  // ------------------------------------------------------------ overall figures

  /** The overall figures shown on the summary page and in the report. */
  datatype Overall = Overall(uniqueQuizzes: nat, average: Ratio)

  /** The number of distinct quizzes attempted and the pooled percentage
      (all points over all questions, 0 when there are no questions). */
  function OverallStats(s: seq<QuizAttempt>): (o: Overall)
    ensures o.uniqueQuizzes == |set a | a in s :: a.quizId| <= |s|
    ensures SumOver(s, TotalOf) > 0 ==> o.average == Ratio(SumOver(s, ScoreOf), SumOver(s, TotalOf))
    ensures SumOver(s, TotalOf) == 0 ==> o.average == Ratio(0, 1)
    ensures s == [] ==> o == Overall(0, Ratio(0, 1))
  {
    KeysAreQuizIds(s);
    Overall(|Keys(s, AttemptQuiz)|, Fraction(SumOver(s, ScoreOf), SumOver(s, TotalOf)))
  }

  lemma KeysAreQuizIds(s: seq<QuizAttempt>)
    ensures Keys(s, AttemptQuiz) == set a | a in s :: a.quizId
  {
    forall k | k in Keys(s, AttemptQuiz) ensures k in set a | a in s :: a.quizId {
      KeysMember(s, AttemptQuiz, k);
    }
  }

  lemma {:induction false} ScoreSumBounded(s: seq<QuizAttempt>)
    requires forall a :: a in s ==> a.score <= a.totalQuestions
    ensures SumOver(s, ScoreOf) <= SumOver(s, TotalOf)
  {
    if s != [] {
      assert s[0] in s;
      ScoreSumBounded(s[1..]);
    }
  }

  /** When no attempt scores above its question count, the overall
      percentage is at most 100. */
  lemma OverallAverageBounded(s: seq<QuizAttempt>)
    requires forall a :: a in s ==> a.score <= a.totalQuestions
    ensures AtMost(OverallStats(s).average, Ratio(1, 1))
  {
    ScoreSumBounded(s);
    FractionAtMostWhole(SumOver(s, ScoreOf), SumOver(s, TotalOf));
  }

  function AttemptRatio(a: QuizAttempt): Ratio
  {
    Ratio(a.score, a.totalQuestions)
  }

  /** `max(score / total * 100 for each attempt)`, 0 with no attempts, and
      None when some attempt has no questions (the division raises). */
  function BestScore(s: seq<QuizAttempt>): Option<Ratio>
  {
    if s == [] then Some(Ratio(0, 1))
    else
      var a := s[|s| - 1];
      var init := s[..|s| - 1];
      match BestScore(init)
      case None => None
      case Some(m) =>
        if a.totalQuestions == 0 then None
        else if init == [] then Some(AttemptRatio(a))
        else Some(Max(m, AttemptRatio(a)))
  }

  /** The best score fails exactly when an attempt has no questions;
      otherwise it is the percentage of one of the attempts and no attempt
      has a higher one. */
  lemma {:induction false} BestScoreIsMax(s: seq<QuizAttempt>)
    ensures BestScore(s).None? <==> exists i :: 0 <= i < |s| && s[i].totalQuestions == 0
    ensures BestScore(s).Some? ==> BestScore(s).value.den > 0
    ensures BestScore(s).Some? && s != [] ==> exists i :: 0 <= i < |s| && BestScore(s).value == AttemptRatio(s[i])
    ensures BestScore(s).Some? ==> forall i :: 0 <= i < |s| ==> AtMost(AttemptRatio(s[i]), BestScore(s).value)
  {
    if s != [] {
      var n := |s| - 1;
      var a := s[n];
      var init := s[..n];
      BestScoreIsMax(init);
      assert forall i :: 0 <= i < n ==> s[i] == init[i];
      var b := BestScore(s);
      if b.Some? {
        var m := BestScore(init).value;
        var r := AttemptRatio(a);
        if init == [] {
          assert b.value == r;
        } else {
          assert b.value == Max(m, r);
          forall i | 0 <= i < |s| ensures AtMost(AttemptRatio(s[i]), b.value) {
            if i < n {
              assert s[i].totalQuestions > 0;
              AtMostTrans(AttemptRatio(s[i]), m, b.value);
            }
          }
          if b.value == m {
            var j :| 0 <= j < n && m == AttemptRatio(init[j]);
            assert b.value == AttemptRatio(s[j]);
          } else {
            assert b.value == AttemptRatio(s[n]);
          }
        }
      }
    }
  }

  // --------------------------------------------------------- subject scores

  /** The name of the subject reached from a quiz id through the joins
      quiz -> chapter -> subject; None when one of the rows is missing. */
  function SubjectNameOf(db: Db, quizId: nat): Option<string>
  {
    match Find(db.quizzes, QuizId, quizId)
    case None => None
    case Some(q) =>
      match Find(db.chapters, ChapterId, q.chapterId)
      case None => None
      case Some(c) =>
        match Find(db.subjects, SubjectId, c.subjectId)
        case None => None
        case Some(sub) => Some(sub.name)
  }

  /** The subject dictionary's key: attempts are grouped by subject NAME. */
  function SubjectKey(db: Db): QuizAttempt -> Option<string>
  {
    (a: QuizAttempt) => SubjectNameOf(db, a.quizId)
  }

  /** A subject label of the summary page with its pooled percentage. */
  datatype SubjectScore = SubjectScore(subject: string, score: Ratio)

  /** The label and pooled percentage of each given subject, in order. */
  function ScoresFor(ks: seq<string>, db: Db, s: seq<QuizAttempt>): (rows: seq<SubjectScore>)
    ensures |rows| == |ks|
  {
    if ks == [] then []
    else
      var t := TallyOf(Bucket(s, SubjectKey(db), ks[|ks| - 1]));
      ScoresFor(ks[..|ks| - 1], db, s) + [SubjectScore(ks[|ks| - 1], Fraction(t.totalScore, t.totalQuestions))]
  }

  /** The subject labels in the order they were first met, with their scores. */
  function SubjectScores(db: Db, s: seq<QuizAttempt>): seq<SubjectScore>
  {
    ScoresFor(FirstSeen(s, SubjectKey(db)), db, s)
  }

  /** Entry `i` is the `i`-th subject with the pooled percentage of the
      attempts counted under its name. */
  lemma {:induction false} ScoresForIndex(ks: seq<string>, db: Db, s: seq<QuizAttempt>, i: int)
    requires 0 <= i < |ks|
    ensures var b := Bucket(s, SubjectKey(db), ks[i]);
      ScoresFor(ks, db, s)[i] == SubjectScore(ks[i], Fraction(SumOver(b, ScoreOf), SumOver(b, TotalOf)))
    decreases |ks|
  {
    if i < |ks| - 1 {
      ScoresForIndex(ks[..|ks| - 1], db, s, i);
    }
  }

  /** The subject loop of the summary page and the label/score loop after it. */
  method SubjectWiseStats(db: Db, s: seq<QuizAttempt>) returns (rows: seq<SubjectScore>)
    ensures rows == SubjectScores(db, s)
  {
    var stats, order := Tabulate(s, SubjectKey(db));
    rows := [];
    for j := 0 to |order|
      invariant rows == ScoresFor(order[..j], db, s)
    {
      assert order[..j + 1][..j] == order[..j];
      var t := stats[order[j]];
      rows := rows + [SubjectScore(order[j], Fraction(t.totalScore, t.totalQuestions))];
    }
    assert order[..|order|] == order;
  }

  /** Each subject label appears once, only for subjects some attempt was
      counted under, with the pooled percentage of exactly those attempts. */
  lemma SubjectScoresContents(db: Db, s: seq<QuizAttempt>, i: int)
    requires 0 <= i < |SubjectScores(db, s)|
    ensures var r := SubjectScores(db, s)[i];
      var b := Bucket(s, SubjectKey(db), r.subject);
      && (forall a :: a in b <==> a in s && SubjectNameOf(db, a.quizId) == Some(r.subject))
      && b != []
      && r.score == Fraction(SumOver(b, ScoreOf), SumOver(b, TotalOf))
      && forall j :: 0 <= j < |SubjectScores(db, s)| && j != i ==> SubjectScores(db, s)[j].subject != r.subject
  {
    var key := SubjectKey(db);
    var ks := FirstSeen(s, key);
    ScoresForIndex(ks, db, s, i);
    forall j | 0 <= j < |ks| && j != i ensures SubjectScores(db, s)[j].subject != ks[i] {
      ScoresForIndex(ks, db, s, j);
    }
    assert ks[i] in ks;
    KeysMember(s, key, Some(ks[i]));
    var a :| a in s && key(a) == Some(ks[i]);
    assert a in Bucket(s, key, ks[i]);
  }

  /** With every link in place no attempt is skipped: each attempt is
      counted under exactly one subject label. */
  lemma SubjectsPartitionAttempts(db: Db, s: seq<QuizAttempt>)
    requires Linked(db)
    requires forall a :: a in s ==> a in db.attempts
    ensures forall a :: a in s ==> SubjectNameOf(db, a.quizId).Some?
    ensures SumOver(FirstSeen(s, SubjectKey(db)), ChildCount(s, SubjectKey(db), Wrap)) == |s|
  {
    var key := SubjectKey(db);
    forall a | a in s ensures key(a).Some? && key(a).value in FirstSeen(s, key) {
      var q := Find(db.quizzes, QuizId, a.quizId);
      var c := Find(db.chapters, ChapterId, q.value.chapterId);
      var sub := Find(db.subjects, SubjectId, c.value.subjectId);
      assert key(a) == Some(sub.value.name);
      assert key(a) in Keys(s, key);
    }
    BucketsPartition(s, key, FirstSeen(s, key));
  }

  // --------------------------------------------------------- summary views

  /** `Quiz.query.join(Chapter).join(Subject)`: the quiz's chapter and that
      chapter's subject exist. */
  predicate Joined(db: Db, q: Quiz)
  {
    match Find(db.chapters, ChapterId, q.chapterId)
    case None => false
    case Some(c) => c.subjectId in Keys(db.subjects, SubjectId)
  }

  function JoinedKey(db: Db): Quiz -> bool
  {
    (q: Quiz) => Joined(db, q)
  }

  /** An entry of the "available quizzes" list: the quiz and whether the
      user has attempted it. */
  datatype QuizStatus = QuizStatus(quiz: Quiz, attempted: bool)

  datatype Summary = Summary(
    totalQuizzes: nat,
    average: Ratio,
    best: Ratio,
    totalAvailable: nat,
    available: seq<QuizStatus>,
    subjects: seq<SubjectScore>,
    months: seq<MonthRow>)

  datatype SummaryPage = SummaryRedirect | SummaryError | SummaryShown(summary: Summary)

  /** Each quiz with whether it is among the attempted ones, in order. */
  function Statuses(qs: seq<Quiz>, attempted: set<nat>): (r: seq<QuizStatus>)
    ensures |r| == |qs|
  {
    if qs == [] then []
    else Statuses(qs[..|qs| - 1], attempted) + [QuizStatus(qs[|qs| - 1], qs[|qs| - 1].id in attempted)]
  }

  lemma {:induction false} StatusesIndex(qs: seq<Quiz>, attempted: set<nat>, i: int)
    requires 0 <= i < |qs|
    ensures Statuses(qs, attempted)[i] == QuizStatus(qs[i], qs[i].id in attempted)
    decreases |qs|
  {
    if i < |qs| - 1 {
      StatusesIndex(qs[..|qs| - 1], attempted, i);
    }
  }

  /** The "available quizzes" list: every quiz whose chapter and subject
      exist, each marked with whether the user has attempted it. */
  function AvailableQuizzes(db: Db, attempted: set<nat>): seq<QuizStatus>
  {
    Statuses(Select(db.quizzes, JoinedKey(db), {true}), attempted)
  }

  /** The list holds joined quizzes of the database only, marks exactly the
      attempted ones, and leaves no joined quiz out. */
  lemma AvailableQuizzesContents(db: Db, attempted: set<nat>)
    ensures var r := AvailableQuizzes(db, attempted);
      && (forall k :: 0 <= k < |r| ==>
            r[k].quiz in db.quizzes && Joined(db, r[k].quiz) && (r[k].attempted <==> r[k].quiz.id in attempted))
      && (forall q :: q in db.quizzes && Joined(db, q) ==> exists k :: 0 <= k < |r| && r[k].quiz == q)
  {
    var qs := Select(db.quizzes, JoinedKey(db), {true});
    var r := AvailableQuizzes(db, attempted);
    forall k | 0 <= k < |r|
      ensures r[k].quiz in db.quizzes && Joined(db, r[k].quiz) && (r[k].attempted <==> r[k].quiz.id in attempted)
    {
      StatusesIndex(qs, attempted, k);
      assert qs[k] in qs;
      assert JoinedKey(db)(qs[k]);
    }
    forall q | q in db.quizzes && Joined(db, q) ensures exists k :: 0 <= k < |r| && r[k].quiz == q {
      assert JoinedKey(db)(q);
      var k :| 0 <= k < |qs| && qs[k] == q;
      StatusesIndex(qs, attempted, k);
    }
  }

  /** The summary page.  An admin is sent to the admin dashboard; a division
      by zero in the best score ends the request with an error; otherwise the
      page shows the user's overall figures, best score, the available
      quizzes, and the subject and month tables. */
  method UserSummary(db: Db, user: User) returns (page: SummaryPage)
    ensures user.isAdmin <==> page.SummaryRedirect?
    ensures page.SummaryError? <==>
      !user.isAdmin && exists i :: 0 <= i < |AttemptsOf(db, user.id)| && AttemptsOf(db, user.id)[i].totalQuestions == 0
    ensures page.SummaryShown? ==>
      var s := AttemptsOf(db, user.id);
      var p := page.summary;
      && Overall(p.totalQuizzes, p.average) == OverallStats(s)
      && Some(p.best) == BestScore(s)
      && p.totalAvailable == |p.available|
      && p.available == AvailableQuizzes(db, Keys(s, AttemptQuiz))
      && p.subjects == SubjectScores(db, s)
      && p.months == MonthRows(s)
  {
    if user.isAdmin {
      return SummaryRedirect;
    }
    var s := AttemptsOf(db, user.id);
    var attempted := Keys(s, AttemptQuiz);
    var overall := OverallStats(s);
    BestScoreIsMax(s);
    var best := BestScore(s);
    if best.None? {
      return SummaryError;
    }
    var quizzes := Select(db.quizzes, JoinedKey(db), {true});
    var available := [];
    for k := 0 to |quizzes|
      invariant available == Statuses(quizzes[..k], attempted)
    {
      assert quizzes[..k + 1][..k] == quizzes[..k];
      available := available + [QuizStatus(quizzes[k], quizzes[k].id in attempted)];
    }
    assert quizzes[..|quizzes|] == quizzes;
    var subjects := SubjectWiseStats(db, s);
    var months := MonthWiseStats(s);
    page := SummaryShown(Summary(overall.uniqueQuizzes, overall.average, best.value,
                                 |quizzes|, available, subjects, months));
  }

  datatype ReportPage = ReportRedirect | Report(overall: Overall, months: seq<MonthRow>)

  /** The table data of the downloadable report: the same overall figures
      and the same month rows as the summary page.  It has no best score, so
      it is produced even where the summary page fails. */
  method DownloadSummary(db: Db, user: User) returns (page: ReportPage)
    ensures user.isAdmin <==> page.ReportRedirect?
    ensures !user.isAdmin ==>
      page == Report(OverallStats(AttemptsOf(db, user.id)), MonthRows(AttemptsOf(db, user.id)))
  {
    if user.isAdmin {
      return ReportRedirect;
    }
    var s := AttemptsOf(db, user.id);
    var overall := OverallStats(s);
    var months := MonthWiseStats(s);
    page := Report(overall, months);
  }

  // ------------------------------------------------------------- dashboard

  /** A quiz is listed on the dashboard when its chapter and subject exist
      and it has at least one question. */
  function ListedKey(db: Db): Quiz -> bool
  {
    (q: Quiz) => Joined(db, q) && q.id in Keys(db.questions, QuestionQuiz)
  }

  function DashboardQuizzes(db: Db): (qs: seq<Quiz>)
    ensures forall q :: q in qs <==> q in db.quizzes && Joined(db, q) && q.id in Keys(db.questions, QuestionQuiz)
  {
    Select(db.quizzes, ListedKey(db), {true})
  }

  /** With every link in place, the dashboard lists exactly the quizzes that
      have at least one question. */
  lemma DashboardListsQuizzesWithQuestions(db: Db)
    requires Linked(db)
    ensures forall q :: q in DashboardQuizzes(db) <==>
      q in db.quizzes && exists x :: x in db.questions && x.quizId == q.id
  {
    forall q | q in db.quizzes ensures Joined(db, q) {
      var c := Find(db.chapters, ChapterId, q.chapterId);
      assert c.value in db.chapters;
    }
    forall q | q in db.quizzes && q.id in Keys(db.questions, QuestionQuiz)
      ensures exists x :: x in db.questions && x.quizId == q.id
    {
      KeysMember(db.questions, QuestionQuiz, q.id);
    }
  }

  predicate LaterAttempt(a: QuizAttempt, b: QuizAttempt)
  {
    Later(a.attemptDate, b.attemptDate)
  }

  /** `order_by(attempt_date.desc()).limit(2)` */
  function RecentAttempts(s: seq<QuizAttempt>): seq<QuizAttempt>
  {
    var sorted := Sort(s, LaterAttempt);
    sorted[..if |sorted| < 2 then |sorted| else 2]
  }

  /** At most two of the user's attempts, newest first, and no attempt left
      out is newer than one shown. */
  lemma RecentAttemptsNewest(s: seq<QuizAttempt>)
    ensures |RecentAttempts(s)| == if |s| < 2 then |s| else 2
    ensures forall a :: a in RecentAttempts(s) ==> a in s
    ensures forall i :: 0 < i < |RecentAttempts(s)| ==> !LaterAttempt(RecentAttempts(s)[i], RecentAttempts(s)[i - 1])
    ensures forall a :: a in s && a !in RecentAttempts(s) ==>
      forall i :: 0 <= i < |RecentAttempts(s)| ==> !LaterAttempt(a, RecentAttempts(s)[i])
  {
    var sorted := Sort(s, LaterAttempt);
    var r := RecentAttempts(s);
    assert Asymmetric(LaterAttempt);
    assert NegTransitive(LaterAttempt);
    SortOrdered(s, LaterAttempt);
    SortSameElements(s, LaterAttempt);
    OrderedPairs(sorted, LaterAttempt);
    forall a | a in s && a !in r ensures forall i :: 0 <= i < |r| ==> !LaterAttempt(a, r[i]) {
      var k :| 0 <= k < |sorted| && sorted[k] == a;
      assert forall j :: 0 <= j < |r| ==> r[j] == sorted[j];
      assert k >= |r|;
    }
  }

  datatype DashboardPage = DashboardRedirect | DashboardError | Dashboard(quizzes: seq<Quiz>, recent: seq<QuizAttempt>)

  /** The dashboard's quiz list and recent attempts.  The trend data divides
      every attempt's score by its question count unguarded, so an attempt
      with no questions ends the request with an error. */
  function UserDashboard(db: Db, user: User): (page: DashboardPage)
    ensures user.isAdmin <==> page.DashboardRedirect?
    ensures page.DashboardError? <==>
      !user.isAdmin && exists a :: a in db.attempts && a.userId == user.id && a.totalQuestions == 0
    ensures page.Dashboard? ==> |page.recent| <= 2 && forall a :: a in page.recent ==> a in db.attempts && a.userId == user.id
    ensures page.Dashboard? ==>
      page.quizzes == DashboardQuizzes(db) && page.recent == RecentAttempts(AttemptsOf(db, user.id))
  {
    if user.isAdmin then DashboardRedirect
    else
      var s := AttemptsOf(db, user.id);
      if exists a :: a in s && a.totalQuestions == 0 then DashboardError
      else
        RecentAttemptsNewest(s);
        Dashboard(DashboardQuizzes(db), RecentAttempts(s))
  }

  // ------------------------------------------- the dashboard's subject average

  function RatioAdd(x: Ratio, y: Ratio): Ratio
  {
    Ratio(x.num * y.den + y.num * x.den, x.den * y.den)
  }

  /** The sum of `score / total` over the attempts with questions, and how
      many there are.  SQL yields NULL for a division by zero, and AVG skips
      NULLs. */
  function PercentSum(b: seq<QuizAttempt>): (r: (Ratio, nat))
    ensures r.0.den > 0
  {
    if b == [] then (Ratio(0, 1), 0)
    else
      var rest := PercentSum(b[1..]);
      if b[0].totalQuestions == 0 then rest
      else (RatioAdd(AttemptRatio(b[0]), rest.0), rest.1 + 1)
  }

  /** The dashboard's per-subject figure: the MEAN of the attempts'
      percentages; None (shown as 0) when no attempt has questions. */
  function MeanPercent(b: seq<QuizAttempt>): (r: Option<Ratio>)
    ensures r.Some? ==> r.value.den > 0
  {
    var (sum, n) := PercentSum(b);
    if n == 0 then None else Some(Ratio(sum.num, sum.den * n))
  }

  /** The dashboard's mean of percentages and the summary page's pooled
      percentage disagree on the same attempts: a full mark on a one-question
      quiz and no mark on a three-question quiz give 50% and 25%. */
  lemma MeanDiffersFromPooled(x: QuizAttempt, y: QuizAttempt)
    requires x.score == 1 && x.totalQuestions == 1
    requires y.score == 0 && y.totalQuestions == 3
    ensures MeanPercent([x, y]) == Some(Ratio(3, 6))
    ensures Fraction(SumOver([x, y], ScoreOf), SumOver([x, y], TotalOf)) == Ratio(1, 4)
  {
    MeanOfTwo(x, y);
    PooledOfTwo(x, y);
  }

  lemma MeanOfTwo(x: QuizAttempt, y: QuizAttempt)
    requires x.score == 1 && x.totalQuestions == 1
    requires y.score == 0 && y.totalQuestions == 3
    ensures MeanPercent([x, y]) == Some(Ratio(3, 6))
  {
    assert [x, y][1..] == [y];
    assert [y][1..] == [];
    assert PercentSum([y]) == (Ratio(0, 3), 1);
  }

  lemma PooledOfTwo(x: QuizAttempt, y: QuizAttempt)
    requires x.score == 1 && x.totalQuestions == 1
    requires y.score == 0 && y.totalQuestions == 3
    ensures SumOver([x, y], ScoreOf) == 1 && SumOver([x, y], TotalOf) == 4
  {
    assert [x, y][1..] == [y];
    assert [y][1..] == [];
    assert SumOver([y], ScoreOf) == 0 && SumOver([y], TotalOf) == 3;
  }
}
