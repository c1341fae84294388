/** The grouped curriculum (module -> chapter -> ordered subtopics), the
    progress map keyed by `module_chapter_subtopic`, and the flattened list of
    subtopics in curriculum order that the statistics and the scheduler walk. */
module Curriculum {
  import opened Calendar

  datatype Option<+T> = None | Some(value: T)

  /** A chapter: its ordered subtopics, its project text and an optional deadline. */
  datatype Chapter = Chapter(name: string, subtopics: seq<string>, project: string, deadline: Option<CalendarDate>)

  /** A module and its chapters, in the order the curriculum lists them. */
  datatype Module = Module(name: string, chapters: seq<Chapter>)

  /** The deadline assumed for a chapter that has none. */
  const FarFuture: CalendarDate := Date(9999, 12, 31)

  /** The default deadline is written `9999-12-31`, the text the collector falls back to. */
  lemma FarFutureText()
    ensures IsoText(FarFuture) == "9999-12-31"
  {
  }

  function Deadline(ch: Chapter): CalendarDate {
    match ch.deadline
    case Some(d) => d
    case None => FarFuture
  }

  /** One subtopic together with the module, chapter and deadline it belongs to. */
  datatype Topic = Topic(moduleName: string, chapterName: string, subtopic: string, deadline: CalendarDate)

  /** The progress-map key of a subtopic. */
  function Key(moduleName: string, chapterName: string, subtopic: string): string {
    moduleName + "_" + chapterName + "_" + subtopic
  }

  function TopicKey(t: Topic): string {
    Key(t.moduleName, t.chapterName, t.subtopic)
  }

  /** `progress.get(key, False)`: a missing key counts as not completed. */
  predicate Done(progress: map<string, bool>, key: string) {
    key in progress && progress[key]
  }

  /** Within one chapter of one module, different subtopics have different keys. */
  lemma KeyInjective(moduleName: string, chapterName: string, s1: string, s2: string)
    ensures Key(moduleName, chapterName, s1) == Key(moduleName, chapterName, s2) <==> s1 == s2
  {
    var prefix := moduleName + "_" + chapterName + "_";
    assert Key(moduleName, chapterName, s1) == prefix + s1;
    assert Key(moduleName, chapterName, s2) == prefix + s2;
    if prefix + s1 == prefix + s2 {
      assert s1 == (prefix + s1)[|prefix|..];
      assert s2 == (prefix + s2)[|prefix|..];
    }
  }

  /** Keys are not unique across chapters: an underscore inside a name can make
      two different subtopics share one progress entry. */
  lemma KeysCollideAcrossChapters()
    ensures Key("a_b", "c", "d") == Key("a", "b_c", "d")
    ensures ("a_b", "c") != ("a", "b_c")
  {
  }

  function ChapterTopics(moduleName: string, ch: Chapter): (ts: seq<Topic>)
    ensures |ts| == |ch.subtopics|
    ensures forall k :: 0 <= k < |ts| ==> ts[k] == Topic(moduleName, ch.name, ch.subtopics[k], Deadline(ch))
  {
    seq(|ch.subtopics|, k requires 0 <= k < |ch.subtopics| => Topic(moduleName, ch.name, ch.subtopics[k], Deadline(ch)))
  }

  function ModuleTopics(moduleName: string, chapters: seq<Chapter>): seq<Topic>
    decreases |chapters|
  {
    if chapters == [] then []
    else ModuleTopics(moduleName, chapters[..|chapters| - 1]) + ChapterTopics(moduleName, chapters[|chapters| - 1])
  }

  /** Every subtopic of the curriculum, module by module, chapter by chapter. */
  function Topics(curriculum: seq<Module>): seq<Topic>
    decreases |curriculum|
  {
    if curriculum == [] then []
    else
      var last := curriculum[|curriculum| - 1];
      Topics(curriculum[..|curriculum| - 1]) + ModuleTopics(last.name, last.chapters)
  }

  /** Sum of the lengths of the chapters' subtopic lists. */
  function ChapterSubtopicCount(chapters: seq<Chapter>): nat {
    if chapters == [] then 0 else |chapters[0].subtopics| + ChapterSubtopicCount(chapters[1..])
  }

  function SubtopicCount(curriculum: seq<Module>): nat {
    if curriculum == [] then 0 else ChapterSubtopicCount(curriculum[0].chapters) + SubtopicCount(curriculum[1..])
  }

  lemma {:induction false} ChapterSubtopicCountSplit(chapters: seq<Chapter>, n: nat)
    requires n <= |chapters|
    ensures ChapterSubtopicCount(chapters) == ChapterSubtopicCount(chapters[..n]) + ChapterSubtopicCount(chapters[n..])
  {
    if n > 0 {
      assert chapters[..n][1..] == chapters[1..][..n - 1];
      assert chapters[n..] == chapters[1..][n - 1..];
      ChapterSubtopicCountSplit(chapters[1..], n - 1);
    }
  }

  lemma {:induction false} SubtopicCountSplit(curriculum: seq<Module>, n: nat)
    requires n <= |curriculum|
    ensures SubtopicCount(curriculum) == SubtopicCount(curriculum[..n]) + SubtopicCount(curriculum[n..])
  {
    if n > 0 {
      assert curriculum[..n][1..] == curriculum[1..][..n - 1];
      assert curriculum[n..] == curriculum[1..][n - 1..];
      SubtopicCountSplit(curriculum[1..], n - 1);
    }
  }

  lemma {:induction false} ModuleTopicsLength(moduleName: string, chapters: seq<Chapter>)
    ensures |ModuleTopics(moduleName, chapters)| == ChapterSubtopicCount(chapters)
    decreases |chapters|
  {
    if chapters != [] {
      var n := |chapters| - 1;
      ModuleTopicsLength(moduleName, chapters[..n]);
      ChapterSubtopicCountSplit(chapters, n);
      assert chapters[n..] == [chapters[n]];
    }
  }

  /** The flattened list holds exactly as many entries as there are listed subtopics. */
  lemma {:induction false} TopicsLength(curriculum: seq<Module>)
    ensures |Topics(curriculum)| == SubtopicCount(curriculum)
    decreases |curriculum|
  {
    if curriculum != [] {
      var n := |curriculum| - 1;
      TopicsLength(curriculum[..n]);
      ModuleTopicsLength(curriculum[n].name, curriculum[n].chapters);
      SubtopicCountSplit(curriculum, n);
      assert curriculum[n..] == [curriculum[n]];
    }
  }

  /** Every subtopic listed in the chapter is completed. */
  ghost predicate ChapterDone(progress: map<string, bool>, moduleName: string, ch: Chapter) {
    forall k :: 0 <= k < |ch.subtopics| ==> Done(progress, Key(moduleName, ch.name, ch.subtopics[k]))
  }

  /** Every subtopic listed in the module is completed. */
  ghost predicate ModuleDone(progress: map<string, bool>, m: Module) {
    forall j :: 0 <= j < |m.chapters| ==> ChapterDone(progress, m.name, m.chapters[j])
  }

  /** Every subtopic listed anywhere in the curriculum is completed. */
  ghost predicate AllListedDone(progress: map<string, bool>, curriculum: seq<Module>) {
    forall i :: 0 <= i < |curriculum| ==> ModuleDone(progress, curriculum[i])
  }

  /** Every entry of a flattened list is completed. */
  ghost predicate AllTopicsDone(progress: map<string, bool>, ts: seq<Topic>) {
    forall n :: 0 <= n < |ts| ==> Done(progress, TopicKey(ts[n]))
  }

  lemma AllTopicsDoneAppend(progress: map<string, bool>, a: seq<Topic>, b: seq<Topic>)
    ensures AllTopicsDone(progress, a + b) <==> AllTopicsDone(progress, a) && AllTopicsDone(progress, b)
  {
    assert forall m :: 0 <= m < |a| ==> (a + b)[m] == a[m];
    assert forall m :: 0 <= m < |b| ==> (a + b)[|a| + m] == b[m];
  }

  lemma {:induction false} ModuleTopicsDone(progress: map<string, bool>, moduleName: string, chapters: seq<Chapter>)
    ensures AllTopicsDone(progress, ModuleTopics(moduleName, chapters)) <==> ModuleDone(progress, Module(moduleName, chapters))
    decreases |chapters|
  {
    if chapters != [] {
      var n := |chapters| - 1;
      ModuleTopicsDone(progress, moduleName, chapters[..n]);
      AllTopicsDoneAppend(progress, ModuleTopics(moduleName, chapters[..n]), ChapterTopics(moduleName, chapters[n]));
      assert AllTopicsDone(progress, ChapterTopics(moduleName, chapters[n])) <==> ChapterDone(progress, moduleName, chapters[n]);
      assert forall j :: 0 <= j < n ==> chapters[..n][j] == chapters[j];
    }
  }

  /** The flattened list is all completed exactly when every listed subtopic is. */
  lemma {:induction false} TopicsDone(progress: map<string, bool>, curriculum: seq<Module>)
    ensures AllTopicsDone(progress, Topics(curriculum)) <==> AllListedDone(progress, curriculum)
    decreases |curriculum|
  {
    if curriculum != [] {
      var n := |curriculum| - 1;
      var last := curriculum[n];
      TopicsDone(progress, curriculum[..n]);
      ModuleTopicsDone(progress, last.name, last.chapters);
      AllTopicsDoneAppend(progress, Topics(curriculum[..n]), ModuleTopics(last.name, last.chapters));
      assert Topics(curriculum) == Topics(curriculum[..n]) + ModuleTopics(last.name, last.chapters);
      assert Module(last.name, last.chapters) == last;
      assert AllListedDone(progress, curriculum) <==> AllListedDone(progress, curriculum[..n]) && ModuleDone(progress, last) by {
        assert forall i :: 0 <= i < n ==> curriculum[..n][i] == curriculum[i];
      }
    }
  }
}
