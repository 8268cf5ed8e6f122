/**
 * The `ProgressTracker` namespace of main.js and the user record it updates
 * in place, `AppState.currentUser`.
 *
 * The record is a class whose methods change its fields as the source does;
 * `Snapshot()` gives its value as a `Record`, and the methods are specified by
 * the functions `ApplyEvent` (the per-event deltas) and `LevelUp` (the
 * level-up loop) on that value.  The properties of levelling are proved about
 * those functions.
 */
module ProgressTracker {

  /** The fields of `AppState.currentUser`. */
  datatype Record = Record(
    level: int,
    xp: int,
    xpRequired: int,
    questionsAnswered: int,
    accuracyRate: int,
    bestStreak: int,
    badgesEarned: int,
    functionsMastered: int,
    timeStudied: string)

  /** The record the application starts from. */
  const InitialUser := Record(3, 230, 300, 12, 85, 7, 2, 3, "2h 15m")

  /** The event kinds `updateProgress` distinguishes; any other kind is `Unrecognized`. */
  datatype Event =
    | QuestionCorrect
    | QuestionIncorrect
    | QuizCompleted(correctAnswers: int)
    | AchievementUnlocked
    | Unrecognized

  /** The event named by the `type` argument of `updateProgress(type, value)`. */
  function EventOf(kind: string, value: int): (e: Event)
    ensures e == QuestionCorrect <==> kind == "questionCorrect"
    ensures e == QuestionIncorrect <==> kind == "questionIncorrect"
    ensures e == QuizCompleted(value) <==> kind == "quizCompleted"
    ensures e == AchievementUnlocked <==> kind == "achievementUnlocked"
    ensures e.QuizCompleted? ==> e.correctAnswers == value
    ensures e == Unrecognized <==>
      kind !in {"questionCorrect", "questionIncorrect", "quizCompleted", "achievementUnlocked"}
  {
    if kind == "questionCorrect" then QuestionCorrect
    else if kind == "questionIncorrect" then QuestionIncorrect
    else if kind == "quizCompleted" then QuizCompleted(value)
    else if kind == "achievementUnlocked" then AchievementUnlocked
    else Unrecognized
  }

  /**
   * The `switch` of `updateProgress`: the counters and the XP an event adds,
   * before any levelling.
   */
  function ApplyEvent(r: Record, e: Event): (r': Record)
    ensures r' == r.(questionsAnswered := r'.questionsAnswered, xp := r'.xp, badgesEarned := r'.badgesEarned)
    ensures r.questionsAnswered <= r'.questionsAnswered <= r.questionsAnswered + 1
    ensures r.badgesEarned <= r'.badgesEarned <= r.badgesEarned + 1
    ensures !(e.QuizCompleted? && e.correctAnswers < 0) ==> r.xp <= r'.xp
    ensures e == Unrecognized ==> r' == r
  {
    match e
    case QuestionCorrect => r.(questionsAnswered := r.questionsAnswered + 1, xp := r.xp + 10)
    case QuestionIncorrect => r.(questionsAnswered := r.questionsAnswered + 1)
    case QuizCompleted(n) => r.(xp := r.xp + n * 5)
    case AchievementUnlocked => r.(badgesEarned := r.badgesEarned + 1, xp := r.xp + 50)
    case Unrecognized => r
  }

  /**
   * What each `type` of `updateProgress(type, value)` does to the record
   * before levelling: a correct answer counts a question and earns 10 XP, an
   * incorrect one only counts the question, a finished quiz earns 5 XP per
   * correct answer, an achievement earns a badge and 50 XP, and any other type
   * changes nothing.
   */
  lemma EventEffects(r: Record, kind: string, value: int)
    ensures kind == "questionCorrect" ==>
      ApplyEvent(r, EventOf(kind, value)) == r.(questionsAnswered := r.questionsAnswered + 1, xp := r.xp + 10)
    ensures kind == "questionIncorrect" ==>
      ApplyEvent(r, EventOf(kind, value)) == r.(questionsAnswered := r.questionsAnswered + 1)
    ensures kind == "quizCompleted" ==>
      ApplyEvent(r, EventOf(kind, value)) == r.(xp := r.xp + 5 * value)
    ensures kind == "achievementUnlocked" ==>
      ApplyEvent(r, EventOf(kind, value)) == r.(badgesEarned := r.badgesEarned + 1, xp := r.xp + 50)
    ensures kind !in {"questionCorrect", "questionIncorrect", "quizCompleted", "achievementUnlocked"} ==>
      ApplyEvent(r, EventOf(kind, value)) == r
  {
  }

  /**
   * `Math.floor(n * 1.2)` for a positive whole threshold.  The source multiplies
   * by the floating-point constant 1.2; this model uses the exact value 6/5,
   * so the result is the largest `m` with `5 * m <= 6 * n`.
   */
  function Grow(n: int): (m: int)
    requires n >= 1
    ensures 5 * m <= 6 * n < 5 * m + 5
    ensures n <= m && (n >= 5 ==> n < m)
  {
    (n * 6) / 5
  }

  /** The thresholds that `k` level-up passes consume, starting from `required`. */
  function Thresholds(required: int, k: nat): (t: seq<int>)
    requires required >= 1
    ensures |t| == k
    decreases k
  {
    if k == 0 then [] else [required] + Thresholds(Grow(required), k - 1)
  }

  /** The threshold in force after `k` passes, starting from `required`. */
  function GrowTimes(required: int, k: nat): (m: int)
    requires required >= 1
    ensures m >= required
    decreases k
  {
    if k == 0 then required else GrowTimes(Grow(required), k - 1)
  }

  function Sum(s: seq<int>): int {
    if s == [] then 0 else s[0] + Sum(s[1..])
  }

  /**
   * The value of the `while` loop of `checkLevelUp`: while the XP reaches the
   * threshold, pay the threshold, gain a level and grow the threshold.  The
   * loop ends because each pass takes at least 1 XP, the threshold never
   * dropping below its starting value.
   */
  function LevelUp(r: Record): (r': Record)
    requires r.xpRequired >= 1
    ensures r' == r.(xp := r'.xp, level := r'.level, xpRequired := r'.xpRequired)
    ensures r'.xp < r'.xpRequired && r.xpRequired <= r'.xpRequired
    ensures r.level <= r'.level
    ensures r.xp == r'.xp + Sum(Thresholds(r.xpRequired, r'.level - r.level))
    ensures r'.xpRequired == GrowTimes(r.xpRequired, r'.level - r.level)
    ensures r.xp < r.xpRequired ==> r' == r
    ensures r.xp >= r.xpRequired ==> 0 <= r'.xp
    decreases r.xp
  {
    if r.xp >= r.xpRequired then
      var next := r.(xp := r.xp - r.xpRequired, level := r.level + 1, xpRequired := Grow(r.xpRequired));
      var r' := LevelUp(next);
      assert Thresholds(r.xpRequired, r'.level - r.level)[1..] == Thresholds(next.xpRequired, r'.level - next.level);
      r'
    else r
  }

  /** Every threshold is at least the starting one, so `k` of them cost at least `k`. */
  lemma {:induction false} ThresholdsCost(required: int, k: nat)
    requires required >= 1
    ensures Sum(Thresholds(required, k)) >= k * required
    decreases k
  {
    if k > 0 {
      SumThresholds(required, k);
      ThresholdsCost(Grow(required), k - 1);
      ScaleAtLeast(k - 1, required, Grow(required));
    }
  }

  lemma ScaleAtLeast(k: nat, a: int, b: int)
    requires a <= b
    ensures k * a <= k * b
  {
  }

  /**
   * `checkLevelUp` grants at least `k` levels (for `k >= 1`) exactly when the XP
   * pays for the first `k` thresholds: the loop stops at the first threshold
   * it cannot pay.
   */
  lemma {:induction false} LevelUpGainsAffordableLevels(r: Record, k: nat)
    requires r.xpRequired >= 1 && k >= 1
    ensures k <= LevelUp(r).level - r.level <==> Sum(Thresholds(r.xpRequired, k)) <= r.xp
    decreases r.xp
  {
    SumThresholds(r.xpRequired, k);
    if r.xp < r.xpRequired {
      ThresholdsCost(Grow(r.xpRequired), k - 1);
    } else {
      var next := r.(xp := r.xp - r.xpRequired, level := r.level + 1, xpRequired := Grow(r.xpRequired));
      LevelUpStep(r);
      if k == 1 {
        assert Thresholds(Grow(r.xpRequired), 0) == [];
      } else {
        LevelUpGainsAffordableLevels(next, k - 1);
      }
    }
  }

  /** The first of `k` thresholds is the starting one; the rest start from its growth. */
  lemma SumThresholds(required: int, k: nat)
    requires required >= 1 && k >= 1
    ensures Sum(Thresholds(required, k)) == required + Sum(Thresholds(Grow(required), k - 1))
  {
    assert Thresholds(required, k)[1..] == Thresholds(Grow(required), k - 1);
  }

  /** One pass of the loop leaves the value of the rest of the loop unchanged. */
  lemma LevelUpStep(r: Record)
    requires r.xpRequired >= 1 && r.xp >= r.xpRequired
    ensures LevelUp(r) == LevelUp(r.(xp := r.xp - r.xpRequired, level := r.level + 1, xpRequired := Grow(r.xpRequired)))
  {
  }

  /** Once the XP is below the threshold, `checkLevelUp` changes nothing. */
  lemma LevelUpIdempotent(r: Record)
    requires r.xpRequired >= 1
    ensures LevelUp(LevelUp(r)) == LevelUp(r)
  {
  }

  /** `updateProgress(type, value)` on the record's value, `checkLevelUp` included. */
  function Update(r: Record, e: Event): (r': Record)
    requires r.xpRequired >= 1
    ensures r'.xp < r'.xpRequired && r.xpRequired <= r'.xpRequired
  {
    LevelUp(ApplyEvent(r, e))
  }

  /** The record after the events `es`, applied in order. */
  function Replay(r: Record, es: seq<Event>): (r': Record)
    requires r.xpRequired >= 1
    ensures r'.xpRequired >= 1
    decreases |es|
  {
    if es == [] then r else Replay(Update(r, es[0]), es[1..])
  }

  /** The XP is settled: not negative, and below the threshold. */
  predicate Settled(r: Record) {
    r.xpRequired >= 1 && 0 <= r.xp < r.xpRequired
  }

  /** No quiz in `es` reports a negative number of correct answers. */
  predicate NoNegativeQuiz(es: seq<Event>) {
    forall i :: 0 <= i < |es| && es[i].QuizCompleted? ==> es[i].correctAnswers >= 0
  }

  /**
   * From a settled record, any sequence of events leaves the record settled:
   * `0 <= xp < xpRequired` after every `updateProgress`.
   */
  lemma {:induction false} ReplayStaysSettled(r: Record, es: seq<Event>)
    requires Settled(r) && NoNegativeQuiz(es)
    ensures Settled(Replay(r, es))
    decreases |es|
  {
    if es != [] {
      var a := ApplyEvent(r, es[0]);
      assert 0 <= a.xp;
      assert NoNegativeQuiz(es[1..]) by {
        forall i | 0 <= i < |es[1..]| && es[1..][i].QuizCompleted? ensures es[1..][i].correctAnswers >= 0 {
          assert es[1..][i] == es[i + 1];
        }
      }
      ReplayStaysSettled(Update(r, es[0]), es[1..]);
    }
  }

  /** `updateProgress('quizCompleted', 5)` at 290 of 300 XP crosses exactly one level. */
  lemma QuizCrossesOneLevel(r: Record)
    requires r.xp == 290 && r.xpRequired == 300
    ensures Update(r, QuizCompleted(5)) == r.(level := r.level + 1, xp := 15, xpRequired := 360)
  {
  }

  /** `AppState.currentUser`, updated in place. */
  class UserProgress {
    var level: int
    var xp: int
    var xpRequired: int
    var questionsAnswered: int
    var accuracyRate: int
    var bestStreak: int
    var badgesEarned: int
    var functionsMastered: int
    var timeStudied: string

    /** The record's current value. */
    function Snapshot(): Record
      reads this
    {
      Record(level, xp, xpRequired, questionsAnswered, accuracyRate,
             bestStreak, badgesEarned, functionsMastered, timeStudied)
    }

    /** A positive threshold, without which the level-up loop would not end. */
    predicate Valid()
      reads this
    {
      xpRequired >= 1
    }

    /** The initial `AppState.currentUser`. */
    constructor ()
      ensures Valid() && Snapshot() == InitialUser
    {
      level, xp, xpRequired := 3, 230, 300;
      questionsAnswered, accuracyRate, bestStreak := 12, 85, 7;
      badgesEarned, functionsMastered, timeStudied := 2, 3, "2h 15m";
    }

    /**
     * `checkLevelUp()`.  `fired` lists the levels passed to the level-up
     * animation hook, in the order of the calls.
     */
    method CheckLevelUp() returns (fired: seq<int>)
      requires Valid()
      modifies this
      ensures Valid() && xp < xpRequired
      ensures Snapshot() == LevelUp(old(Snapshot()))
      ensures |fired| == level - old(level)
      ensures forall k :: 0 <= k < |fired| ==> fired[k] == old(level) + 1 + k
    {
      fired := [];
      while xp >= xpRequired
        invariant Valid()
        invariant LevelUp(Snapshot()) == LevelUp(old(Snapshot()))
        invariant |fired| == level - old(level)
        invariant forall k :: 0 <= k < |fired| ==> fired[k] == old(level) + 1 + k
        decreases xp
      {
        ghost var before := Snapshot();
        xp := xp - xpRequired;
        level := level + 1;
        xpRequired := Grow(xpRequired);
        assert Snapshot() == before.(xp := before.xp - before.xpRequired, level := before.level + 1,
                                     xpRequired := Grow(before.xpRequired));
        LevelUpStep(before);
        fired := fired + [level];
      }
    }

    /**
     * `updateProgress(type, value)`: the counters and XP of the event, then
     * `checkLevelUp()`.  `fired` is as for `CheckLevelUp`.
     */
    method UpdateProgress(kind: string, value: int) returns (fired: seq<int>)
      requires Valid()
      modifies this
      ensures Valid() && xp < xpRequired
      ensures Snapshot() == Update(old(Snapshot()), EventOf(kind, value))
      ensures |fired| == level - old(level)
      ensures forall k :: 0 <= k < |fired| ==> fired[k] == old(level) + 1 + k
    {
      ghost var applied := ApplyEvent(Snapshot(), EventOf(kind, value));
      EventEffects(Snapshot(), kind, value);
      if kind == "questionCorrect" {
        questionsAnswered := questionsAnswered + 1;
        xp := xp + 10;
      } else if kind == "questionIncorrect" {
        questionsAnswered := questionsAnswered + 1;
      } else if kind == "quizCompleted" {
        xp := xp + value * 5;
      } else if kind == "achievementUnlocked" {
        badgesEarned := badgesEarned + 1;
        xp := xp + 50;
      }
      assert Snapshot() == applied;
      fired := CheckLevelUp();
    }

    /** `getProgressPercentage()`: the share of the threshold reached, in percent. */
    function ProgressPercentage(): (p: real)
      reads this
      requires Valid()
      ensures p * xpRequired as real == 100.0 * xp as real
      ensures 0 <= xp < xpRequired ==> 0.0 <= p < 100.0
    {
      var q := xp as real / xpRequired as real;
      assert q * xpRequired as real == xp as real;
      assert 0 <= xp < xpRequired ==> 0.0 <= q < 1.0 by {
        if q < 0.0 {
          assert q * xpRequired as real < 0.0;
        }
        if q >= 1.0 {
          assert q * xpRequired as real >= xpRequired as real;
        }
      }
      q * 100.0
    }
  }
}
