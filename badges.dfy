/** The badge evaluator: which badges a set of statistics newly earns. */
module Badges {
  import opened Progress

  datatype Badge = FirstSteps | GettingStarted | QuarterMaster | HalfwayHero | StreakStar | StudyMaster | ModuleMaster

  /** The name a badge is stored and shown under. */
  function Name(b: Badge): string {
    match b
    case FirstSteps => "First Steps"
    case GettingStarted => "Getting Started"
    case QuarterMaster => "Quarter Master"
    case HalfwayHero => "Halfway Hero"
    case StreakStar => "Streak Star"
    case StudyMaster => "Study Master"
    case ModuleMaster => "Module Master"
  }

  /** The threshold each badge stands for. Module Master has an icon but no trigger. */
  predicate Earned(b: Badge, stats: ProgressStats, streak: int, hours: int) {
    match b
    case FirstSteps => stats.completed >= 5
    case GettingStarted => stats.completed >= 10
    case QuarterMaster => stats.PercentAtLeast(25)
    case HalfwayHero => stats.PercentAtLeast(50)
    case StreakStar => streak >= 5
    case StudyMaster => hours >= 50
    case ModuleMaster => false
  }

  /** Position of a badge name in the evaluator's fixed order; 6 for any other name. */
  function Rank(name: string): (r: nat)
    ensures r <= 6
  {
    if name == "First Steps" then 0
    else if name == "Getting Started" then 1
    else if name == "Quarter Master" then 2
    else if name == "Halfway Hero" then 3
    else if name == "Streak Star" then 4
    else if name == "Study Master" then 5
    else 6
  }

  predicate NoDuplicates(s: seq<string>) {
    forall i, j :: 0 <= i < j < |s| ==> s[i] != s[j]
  }

  /** The badges `check_and_award_badges` considers, in the order it considers them. */
  const AwardOrder: seq<Badge> := [FirstSteps, GettingStarted, QuarterMaster, HalfwayHero, StreakStar, StudyMaster]

  /** A badge's name ranks at the badge's position in the award order; Module Master,
      which is not in it, ranks 6. */
  lemma NameRanks()
    ensures forall b: Badge :: Rank(Name(b)) == 6 <==> b == ModuleMaster
    ensures forall b: Badge :: Rank(Name(b)) < 6 ==> AwardOrder[Rank(Name(b))] == b
    ensures forall k :: 0 <= k < |AwardOrder| ==> Rank(Name(AwardOrder[k])) == k
    ensures forall s: string :: Rank(s) < 6 ==> Name(AwardOrder[Rank(s)]) == s
  {
    forall b: Badge ensures Rank(Name(b)) == 6 <==> b == ModuleMaster {
      BadgeRank(b);
    }
    forall k | 0 <= k < |AwardOrder| ensures Rank(Name(AwardOrder[k])) == k {
      BadgeRank(AwardOrder[k]);
    }
  }

  lemma BadgeRank(b: Badge)
    ensures Rank(Name(b)) == 6 <==> b == ModuleMaster
    ensures Rank(Name(b)) < 6 ==> AwardOrder[Rank(Name(b))] == b
  {
    match b
    case FirstSteps =>
    case GettingStarted =>
    case QuarterMaster =>
    case HalfwayHero =>
    case StreakStar =>
    case StudyMaster =>
    case ModuleMaster =>
  }

  /** What the first `n` threshold checks of `check_and_award_badges` append: each
      badge among them whose threshold holds and whose name is not already held. */
  function AwardUpTo(n: nat, stats: ProgressStats, streak: int, hours: int, held: seq<string>): (r: seq<string>)
    requires n <= |AwardOrder|
    ensures |r| <= n
    ensures forall i :: 0 <= i < |r| ==> Rank(r[i]) < n && r[i] !in held
    ensures forall i, j :: 0 <= i < j < |r| ==> Rank(r[i]) < Rank(r[j])
    ensures forall b: Badge :: Name(b) in r <==> Rank(Name(b)) < n && Earned(b, stats, streak, hours) && Name(b) !in held
  {
    if n == 0 then []
    else
      var b := AwardOrder[n - 1];
      NameRanks();
      AwardUpTo(n - 1, stats, streak, hours, held)
        + if Earned(b, stats, streak, hours) && Name(b) !in held then [Name(b)] else []
  }

  /** The names `check_and_award_badges` appends, in the order it appends them. */
  function BadgesToAward(stats: ProgressStats, streak: int, hours: int, held: seq<string>): (r: seq<string>)
    ensures forall b: Badge :: Name(b) in r <==> Earned(b, stats, streak, hours) && Name(b) !in held
    ensures forall i :: 0 <= i < |r| ==> Rank(r[i]) < 6 && r[i] !in held
    ensures forall i, j :: 0 <= i < j < |r| ==> Rank(r[i]) < Rank(r[j])
  {
    NameRanks();
    AwardUpTo(|AwardOrder|, stats, streak, hours, held)
  }

  /** After the new badges are appended every earned badge is held, and running the
      evaluator again on the same statistics appends nothing. */
  lemma AwardIdempotent(stats: ProgressStats, streak: int, hours: int, held: seq<string>)
    ensures forall b: Badge :: Earned(b, stats, streak, hours) ==> Name(b) in held + BadgesToAward(stats, streak, hours, held)
    ensures BadgesToAward(stats, streak, hours, held + BadgesToAward(stats, streak, hours, held)) == []
  {
    NothingNewWhenHeld(|AwardOrder|, stats, streak, hours, held + BadgesToAward(stats, streak, hours, held));
  }

  /** The first `n` checks append nothing when every badge among them that is earned is already held. */
  lemma {:induction false} NothingNewWhenHeld(n: nat, stats: ProgressStats, streak: int, hours: int, held: seq<string>)
    requires n <= |AwardOrder|
    requires forall b: Badge :: Rank(Name(b)) < n && Earned(b, stats, streak, hours) ==> Name(b) in held
    ensures AwardUpTo(n, stats, streak, hours, held) == []
  {
    if n > 0 {
      NameRanks();
      NothingNewWhenHeld(n - 1, stats, streak, hours, held);
      var b := AwardOrder[n - 1];
      assert Rank(Name(b)) == n - 1;
    }
  }

  /** Appending the new badges never repeats a name already held or a new one. */
  lemma AwardKeepsNamesDistinct(stats: ProgressStats, streak: int, hours: int, held: seq<string>)
    requires NoDuplicates(held)
    ensures NoDuplicates(held + BadgesToAward(stats, streak, hours, held))
  {
    var r := BadgesToAward(stats, streak, hours, held);
    var all := held + r;
    forall i, j | 0 <= i < j < |all| ensures all[i] != all[j] {
      if j >= |held| {
        if i >= |held| {
          assert Rank(r[i - |held|]) < Rank(r[j - |held|]);
        } else {
          assert r[j - |held|] !in held;
        }
      }
    }
  }

  /** Only the six triggered badges can be awarded; Module Master never is. */
  lemma ModuleMasterNeverAwarded(stats: ProgressStats, streak: int, hours: int, held: seq<string>)
    ensures Name(ModuleMaster) !in BadgesToAward(stats, streak, hours, held)
    ensures |BadgesToAward(stats, streak, hours, held)| <= 6
  {
    NameRanks();
  }

  /** Thresholds are independent: 50 study hours with nothing else earns exactly Study Master. */
  lemma StudyHoursAlone(total: nat, modules: nat)
    ensures BadgesToAward(ProgressStats(0, total, modules), 0, 50, []) == ["Study Master"]
  {
    var stats := ProgressStats(0, total, modules);
    NameRanks();
    NothingNewWhenHeld(5, stats, 0, 50, []);
  }
}
