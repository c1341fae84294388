/** Progress statistics over the curriculum and the sequential unlock rule of the checklist. */
module Progress {
  import opened Curriculum

  /** `calculate_progress_stats`'s result without its floating-point percentage,
      which `Percent` and `PercentAtLeast` recover exactly. */
  datatype ProgressStats = ProgressStats(completed: nat, total: nat, modules: nat) {
    /** The completion percentage, 0 when nothing is listed. */
    function Percent(): real {
      if total == 0 then 0.0 else (completed as real) / (total as real) * 100.0
    }

    /** `percent >= p`, decided on integers. */
    predicate PercentAtLeast(p: int) {
      if total == 0 then 0 >= p else completed * 100 >= p * total
    }
  }

  /** Number of completed entries in a flattened list. */
  function CountDone(progress: map<string, bool>, ts: seq<Topic>): (n: nat)
    ensures n <= |ts|
    decreases |ts|
  {
    if ts == [] then 0
    else CountDone(progress, ts[..|ts| - 1]) + (if Done(progress, TopicKey(ts[|ts| - 1])) then 1 else 0)
  }

  lemma {:induction false} CountDoneAppend(progress: map<string, bool>, a: seq<Topic>, b: seq<Topic>)
    ensures CountDone(progress, a + b) == CountDone(progress, a) + CountDone(progress, b)
    decreases |b|
  {
    if b == [] {
      assert a + b == a;
    } else {
      var n := |b| - 1;
      assert (a + b)[..|a + b| - 1] == a + b[..n];
      CountDoneAppend(progress, a, b[..n]);
    }
  }

  /** A list is fully counted exactly when every entry is completed. */
  lemma {:induction false} CountDoneAll(progress: map<string, bool>, ts: seq<Topic>)
    ensures CountDone(progress, ts) == |ts| <==> AllTopicsDone(progress, ts)
    decreases |ts|
  {
    if ts != [] {
      var n := |ts| - 1;
      CountDoneAll(progress, ts[..n]);
      assert forall m :: 0 <= m < n ==> ts[..n][m] == ts[m];
    }
  }

  /** What `calculate_progress_stats` returns. */
  function StatsOf(progress: map<string, bool>, curriculum: seq<Module>): ProgressStats {
    if curriculum == [] then ProgressStats(0, 0, 0)
    else ProgressStats(CountDone(progress, Topics(curriculum)), |Topics(curriculum)|, |curriculum|)
  }

  /** Walks module -> chapter -> subtopic, adding each chapter's length to the total
      and counting the subtopics whose key maps to true. */
  method CalculateProgressStats(progress: map<string, bool>, curriculum: seq<Module>) returns (stats: ProgressStats)
    ensures stats == StatsOf(progress, curriculum)
  {
    if curriculum == [] {
      return ProgressStats(0, 0, 0);
    }
    var total: nat, completed: nat := 0, 0;
    for i := 0 to |curriculum|
      invariant total == |Topics(curriculum[..i])|
      invariant completed == CountDone(progress, Topics(curriculum[..i]))
    {
      var m := curriculum[i];
      var t, c := CountModule(progress, m);
      assert curriculum[..i + 1][..i] == curriculum[..i];
      assert Topics(curriculum[..i + 1]) == Topics(curriculum[..i]) + ModuleTopics(m.name, m.chapters);
      CountDoneAppend(progress, Topics(curriculum[..i]), ModuleTopics(m.name, m.chapters));
      total, completed := total + t, completed + c;
    }
    assert curriculum[..|curriculum|] == curriculum;
    stats := ProgressStats(completed, total, |curriculum|);
  }

  /** The loop of the statistics over the chapters of one module. */
  method CountModule(progress: map<string, bool>, m: Module) returns (total: nat, completed: nat)
    ensures total == |ModuleTopics(m.name, m.chapters)|
    ensures completed == CountDone(progress, ModuleTopics(m.name, m.chapters))
  {
    total, completed := 0, 0;
    for j := 0 to |m.chapters|
      invariant total == |ModuleTopics(m.name, m.chapters[..j])|
      invariant completed == CountDone(progress, ModuleTopics(m.name, m.chapters[..j]))
    {
      var ch := m.chapters[j];
      var c := CountChapter(progress, m.name, ch);
      assert m.chapters[..j + 1][..j] == m.chapters[..j];
      assert ModuleTopics(m.name, m.chapters[..j + 1])
          == ModuleTopics(m.name, m.chapters[..j]) + ChapterTopics(m.name, ch);
      CountDoneAppend(progress, ModuleTopics(m.name, m.chapters[..j]), ChapterTopics(m.name, ch));
      total, completed := total + |ch.subtopics|, completed + c;
    }
    assert m.chapters[..|m.chapters|] == m.chapters;
  }

  /** The innermost loop of the statistics, over the subtopics of one chapter. */
  method CountChapter(progress: map<string, bool>, moduleName: string, ch: Chapter) returns (completed: nat)
    ensures completed == CountDone(progress, ChapterTopics(moduleName, ch))
  {
    ghost var here := ChapterTopics(moduleName, ch);
    completed := 0;
    for k := 0 to |ch.subtopics|
      invariant completed == CountDone(progress, here[..k])
    {
      assert here[..k + 1][..k] == here[..k];
      if Done(progress, Key(moduleName, ch.name, ch.subtopics[k])) {
        completed := completed + 1;
      }
    }
    assert here[..|ch.subtopics|] == here;
  }

  /** An empty curriculum gives (0, 0, 0, 0). */
  lemma StatsOfEmpty(progress: map<string, bool>)
    ensures StatsOf(progress, []) == ProgressStats(0, 0, 0)
    ensures StatsOf(progress, []).Percent() == 0.0
  {
  }

  /** The total is the number of listed subtopics, no more are completed than listed,
      the module count is the number of modules and the percentage lies in [0, 100]. */
  lemma StatsBounds(progress: map<string, bool>, curriculum: seq<Module>)
    ensures StatsOf(progress, curriculum).total == SubtopicCount(curriculum)
    ensures StatsOf(progress, curriculum).completed <= StatsOf(progress, curriculum).total
    ensures StatsOf(progress, curriculum).modules == |curriculum|
    ensures 0.0 <= StatsOf(progress, curriculum).Percent() <= 100.0
  {
    TopicsLength(curriculum);
    PercentRange(StatsOf(progress, curriculum));
  }

  lemma PercentRange(s: ProgressStats)
    requires s.completed <= s.total
    ensures 0.0 <= s.Percent() <= 100.0
  {
    if s.total > 0 {
      var c, t := s.completed as real, s.total as real;
      var q := c / t;
      assert q * t == c;
      assert 0.0 <= q <= 1.0;
    }
  }

  /** All listed subtopics are counted as completed exactly when every one of their
      keys maps to true; a key missing from the map counts as not completed. */
  lemma CompletedIffAllDone(progress: map<string, bool>, curriculum: seq<Module>)
    ensures StatsOf(progress, curriculum).completed == StatsOf(progress, curriculum).total
            <==> AllListedDone(progress, curriculum)
  {
    CountDoneAll(progress, Topics(curriculum));
    TopicsDone(progress, curriculum);
  }

  /** The percentage reaches 100 exactly when something is listed and everything listed is completed. */
  lemma FullPercentIffAllDone(progress: map<string, bool>, curriculum: seq<Module>)
    ensures StatsOf(progress, curriculum).Percent() == 100.0
            <==> SubtopicCount(curriculum) > 0 && AllListedDone(progress, curriculum)
  {
    var s := StatsOf(progress, curriculum);
    StatsBounds(progress, curriculum);
    CompletedIffAllDone(progress, curriculum);
    if s.total > 0 {
      PercentAtLeastAgrees(s, 100);
      PercentAtLeastAgrees(s, 101);
      assert s.Percent() == 100.0 <==> s.completed * 100 == 100 * s.total;
    }
  }

  /** The integer threshold test agrees with comparing the real percentage. */
  lemma PercentAtLeastAgrees(s: ProgressStats, p: int)
    ensures s.PercentAtLeast(p) <==> s.Percent() >= p as real
  {
    if s.total > 0 {
      var c, t := s.completed as real, s.total as real;
      var q := c / t;
      assert q * t == c;
      assert q * 100.0 >= p as real <==> q * 100.0 * t >= (p as real) * t;
      assert q * 100.0 * t == c * 100.0;
      assert (s.completed * 100 >= p * s.total) <==> (c * 100.0 >= (p as real) * t);
    }
  }

  /** The checklist's unlock rule for the `i`-th subtopic of a chapter: the first is
      always unlocked, any other exactly when its predecessor's key maps to true. */
  predicate IsUnlocked(progress: map<string, bool>, moduleName: string, ch: Chapter, i: nat)
    requires i < |ch.subtopics|
  {
    i == 0 || Done(progress, Key(moduleName, ch.name, ch.subtopics[i - 1]))
  }

  /** The unlock state of a subtopic reads the progress map at one key only, the
      predecessor's in the same chapter; nothing else in the map affects it. */
  lemma UnlockReadsOnlyPredecessor(p1: map<string, bool>, p2: map<string, bool>, moduleName: string, ch: Chapter, i: nat)
    requires i < |ch.subtopics|
    requires i > 0 ==> Done(p1, Key(moduleName, ch.name, ch.subtopics[i - 1])) == Done(p2, Key(moduleName, ch.name, ch.subtopics[i - 1]))
    ensures IsUnlocked(p1, moduleName, ch, i) == IsUnlocked(p2, moduleName, ch, i)
  {
  }

  /** The chapter's completed subtopics are exactly its first `n`. */
  ghost predicate CompletedPrefix(progress: map<string, bool>, moduleName: string, ch: Chapter, n: nat) {
    forall k :: 0 <= k < |ch.subtopics| ==> (Done(progress, Key(moduleName, ch.name, ch.subtopics[k])) <==> k < n)
  }

  ghost predicate DistinctSubtopics(ch: Chapter) {
    forall a, b :: 0 <= a < b < |ch.subtopics| ==> ch.subtopics[a] != ch.subtopics[b]
  }

  /** When the first `n` subtopics are the completed ones, the unlocked ones are the
      first `n + 1`: everything completed plus the next one. */
  lemma UnlockedFrontier(progress: map<string, bool>, moduleName: string, ch: Chapter, n: nat, i: nat)
    requires CompletedPrefix(progress, moduleName, ch, n)
    requires i < |ch.subtopics|
    ensures IsUnlocked(progress, moduleName, ch, i) <==> i <= n
  {
  }

  /** Checking an unlocked, unchecked subtopic in a chapter whose completed subtopics
      form a prefix checks the next one in order and keeps them a prefix. */
  lemma CompletingExtendsPrefix(progress: map<string, bool>, moduleName: string, ch: Chapter, n: nat, i: nat)
    requires DistinctSubtopics(ch)
    requires CompletedPrefix(progress, moduleName, ch, n)
    requires i < |ch.subtopics|
    requires IsUnlocked(progress, moduleName, ch, i)
    requires !Done(progress, Key(moduleName, ch.name, ch.subtopics[i]))
    ensures i == n
    ensures CompletedPrefix(progress[Key(moduleName, ch.name, ch.subtopics[i]) := true], moduleName, ch, n + 1)
  {
    var key := Key(moduleName, ch.name, ch.subtopics[i]);
    forall k | 0 <= k < |ch.subtopics|
      ensures Done(progress[key := true], Key(moduleName, ch.name, ch.subtopics[k])) <==> k < n + 1
    {
      KeyInjective(moduleName, ch.name, ch.subtopics[k], ch.subtopics[i]);
    }
  }

  /** Un-checking is allowed on any unlocked subtopic, including the first, so a later
      subtopic can stay completed while an earlier one is not: the completed
      subtopics of a chapter need not form a prefix. */
  lemma UncheckingBreaksPrefix()
    ensures var ch := Chapter("C1", ["A", "B", "C"], "", None);
            var both := map[Key("M1", "C1", "A") := true, Key("M1", "C1", "B") := true];
            var after := both[Key("M1", "C1", "A") := false];
            && CompletedPrefix(both, "M1", ch, 2)
            && IsUnlocked(both, "M1", ch, 0)
            && Done(after, Key("M1", "C1", "B"))
            && !Done(after, Key("M1", "C1", "A"))
            && forall n: nat :: !CompletedPrefix(after, "M1", ch, n)
  {
    var ch := Chapter("C1", ["A", "B", "C"], "", None);
    var ka, kb, kc := Key("M1", "C1", "A"), Key("M1", "C1", "B"), Key("M1", "C1", "C");
    assert ka == "M1_C1_A" && kb == "M1_C1_B" && kc == "M1_C1_C";
    var both := map[ka := true, kb := true];
    var after := both[ka := false];
    assert CompletedPrefix(both, "M1", ch, 2);
    forall n: nat ensures !CompletedPrefix(after, "M1", ch, n) {
      assert Done(after, Key("M1", ch.name, ch.subtopics[1]));
      assert !Done(after, Key("M1", ch.name, ch.subtopics[0]));
    }
  }

  /** A chapter with subtopics A, B and C: at first only A is unlocked; once A is
      completed B unlocks while C stays locked. */
  lemma ChecklistUnlocks()
    ensures var ch := Chapter("C1", ["A", "B", "C"], "", None);
            var after := map[Key("M1", "C1", "A") := true];
            && IsUnlocked(map[], "M1", ch, 0)
            && !IsUnlocked(map[], "M1", ch, 1) && !IsUnlocked(map[], "M1", ch, 2)
            && IsUnlocked(after, "M1", ch, 1) && !IsUnlocked(after, "M1", ch, 2)
  {
    var ch := Chapter("C1", ["A", "B", "C"], "", None);
    assert Key("M1", "C1", "A") == "M1_C1_A" && Key("M1", "C1", "B") == "M1_C1_B";
  }

  /** In a one-module, one-chapter curriculum with three different subtopics of
      which only the first is completed, one of three subtopics is done. */
  lemma ChecklistStats(m: string, ch: Chapter)
    requires |ch.subtopics| == 3
    requires ch.subtopics[0] != ch.subtopics[1] && ch.subtopics[0] != ch.subtopics[2]
    ensures StatsOf(map[Key(m, ch.name, ch.subtopics[0]) := true], [Module(m, [ch])]) == ProgressStats(1, 3, 1)
  {
    var after := map[Key(m, ch.name, ch.subtopics[0]) := true];
    var ts := ChapterTopics(m, ch);
    OneChapterTopics(m, ch);
    CountDoneThree(after, ts);
    KeyInjective(m, ch.name, ch.subtopics[0], ch.subtopics[1]);
    KeyInjective(m, ch.name, ch.subtopics[0], ch.subtopics[2]);
  }

  lemma CountDoneThree(progress: map<string, bool>, ts: seq<Topic>)
    requires |ts| == 3
    ensures CountDone(progress, ts)
            == (if Done(progress, TopicKey(ts[0])) then 1 else 0)
               + (if Done(progress, TopicKey(ts[1])) then 1 else 0)
               + (if Done(progress, TopicKey(ts[2])) then 1 else 0)
  {
    CountDoneOne(progress, ts[0]);
    CountDoneOne(progress, ts[1]);
    CountDoneOne(progress, ts[2]);
    CountDoneAppend(progress, [ts[1]], [ts[2]]);
    CountDoneAppend(progress, [ts[0]], [ts[1]] + [ts[2]]);
    ThreeParts(ts);
  }

  lemma ThreeParts<T>(s: seq<T>)
    requires |s| == 3
    ensures s == [s[0]] + ([s[1]] + [s[2]])
  {
  }

  lemma CountDoneOne(progress: map<string, bool>, t: Topic)
    ensures CountDone(progress, [t]) == if Done(progress, TopicKey(t)) then 1 else 0
  {
    assert [t][..0] == [];
  }

  lemma OneChapterTopics(moduleName: string, ch: Chapter)
    ensures Topics([Module(moduleName, [ch])]) == ChapterTopics(moduleName, ch)
  {
    assert ModuleTopics(moduleName, [ch]) == ModuleTopics(moduleName, []) + ChapterTopics(moduleName, ch);
    assert Topics([Module(moduleName, [ch])]) == Topics([]) + ModuleTopics(moduleName, [ch]);
  }
}
