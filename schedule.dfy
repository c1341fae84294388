/** The study-schedule generator: uncompleted subtopics, stably sorted by deadline
    text, handed out one per allowed day over a fifteen-day window until the pool
    runs out or the weekly hour target is reached. */
module Schedule {
  import opened Text
  import opened Calendar
  import opened Curriculum
  import Progress

  /** Last day offset the generator walks to (today + 14 days, inclusive). */
  const Horizon: nat := 14
  /** Weekly hour target at which the generator stops adding sessions. */
  const TargetHours: int := 25
  /** Longest session the generator books. */
  const MaxSessionHours: int := 3
  /** Subtopic names longer than this are cut and marked with "...". */
  const LabelLimit: nat := 50

  // ---------------------------------------------------------------------------
  // Collecting the uncompleted subtopics

  /** The uncompleted entries of a flattened list, in their original order. */
  function Pending(progress: map<string, bool>, ts: seq<Topic>): seq<Topic>
    decreases |ts|
  {
    if ts == [] then []
    else
      var n := |ts| - 1;
      Pending(progress, ts[..n]) + (if Done(progress, TopicKey(ts[n])) then [] else [ts[n]])
  }

  /** The pending list holds, with their multiplicities, exactly the entries whose
      key is not true. */
  lemma {:induction false} PendingMembers(progress: map<string, bool>, ts: seq<Topic>)
    ensures forall t :: t in Pending(progress, ts) <==> t in ts && !Done(progress, TopicKey(t))
    ensures forall t :: multiset(Pending(progress, ts))[t] == if Done(progress, TopicKey(t)) then 0 else multiset(ts)[t]
    decreases |ts|
  {
    if ts != [] {
      var n := |ts| - 1;
      PendingMembers(progress, ts[..n]);
      assert ts == ts[..n] + [ts[n]];
    }
  }

  lemma {:induction false} PendingAppend(progress: map<string, bool>, a: seq<Topic>, b: seq<Topic>)
    ensures Pending(progress, a + b) == Pending(progress, a) + Pending(progress, b)
    decreases |b|
  {
    if b == [] {
      assert a + b == a;
    } else {
      var n := |b| - 1;
      assert (a + b)[..|a + b| - 1] == a + b[..n];
      PendingAppend(progress, a, b[..n]);
    }
  }

  /** Every entry is either counted as completed or collected as pending. */
  lemma {:induction false} PendingCount(progress: map<string, bool>, ts: seq<Topic>)
    ensures |Pending(progress, ts)| + Progress.CountDone(progress, ts) == |ts|
    decreases |ts|
  {
    if ts != [] {
      PendingCount(progress, ts[..|ts| - 1]);
    }
  }

  /** The generator's first loop: walks module -> chapter -> subtopic and collects,
      with the chapter's deadline attached, each subtopic whose key is not true. */
  method CollectPending(progress: map<string, bool>, curriculum: seq<Module>) returns (pending: seq<Topic>)
    ensures pending == Pending(progress, Topics(curriculum))
  {
    pending := [];
    for i := 0 to |curriculum|
      invariant pending == Pending(progress, Topics(curriculum[..i]))
    {
      var m := curriculum[i];
      var here := CollectModule(progress, m);
      assert curriculum[..i + 1][..i] == curriculum[..i];
      assert Topics(curriculum[..i + 1]) == Topics(curriculum[..i]) + ModuleTopics(m.name, m.chapters);
      PendingAppend(progress, Topics(curriculum[..i]), ModuleTopics(m.name, m.chapters));
      pending := pending + here;
    }
    assert curriculum[..|curriculum|] == curriculum;
  }

  /** The loop of the collection over the chapters of one module. */
  method CollectModule(progress: map<string, bool>, m: Module) returns (pending: seq<Topic>)
    ensures pending == Pending(progress, ModuleTopics(m.name, m.chapters))
  {
    pending := [];
    for j := 0 to |m.chapters|
      invariant pending == Pending(progress, ModuleTopics(m.name, m.chapters[..j]))
    {
      var here := CollectChapter(progress, m.name, m.chapters[j]);
      assert m.chapters[..j + 1][..j] == m.chapters[..j];
      assert ModuleTopics(m.name, m.chapters[..j + 1])
          == ModuleTopics(m.name, m.chapters[..j]) + ChapterTopics(m.name, m.chapters[j]);
      PendingAppend(progress, ModuleTopics(m.name, m.chapters[..j]), ChapterTopics(m.name, m.chapters[j]));
      pending := pending + here;
    }
    assert m.chapters[..|m.chapters|] == m.chapters;
  }

  /** The innermost loop of the collection, over the subtopics of one chapter. */
  method CollectChapter(progress: map<string, bool>, moduleName: string, ch: Chapter) returns (pending: seq<Topic>)
    ensures pending == Pending(progress, ChapterTopics(moduleName, ch))
  {
    ghost var here := ChapterTopics(moduleName, ch);
    pending := [];
    for k := 0 to |ch.subtopics|
      invariant pending == Pending(progress, here[..k])
    {
      assert here[..k + 1][..k] == here[..k];
      if !Done(progress, Key(moduleName, ch.name, ch.subtopics[k])) {
        pending := pending + [Topic(moduleName, ch.name, ch.subtopics[k], Deadline(ch))];
      }
    }
    assert here[..|ch.subtopics|] == here;
  }

  // ---------------------------------------------------------------------------
  // Stable sort by deadline text

  /** The sort key: the deadline as `YYYY-MM-DD` text, compared as a string. */
  function SortKey(t: Topic): string {
    IsoText(t.deadline)
  }

  predicate SortedByDeadline(s: seq<Topic>) {
    forall i, j :: 0 <= i < j < |s| ==> StrLe(SortKey(s[i]), SortKey(s[j]))
  }

  /** Places `x` after every entry whose key is not greater than its own. */
  function InsertByDeadline(x: Topic, s: seq<Topic>): seq<Topic>
    decreases |s|
  {
    if s == [] || !StrLe(SortKey(s[0]), SortKey(x)) then [x] + s
    else [s[0]] + InsertByDeadline(x, s[1..])
  }

  /** `list.sort(key=deadline)`: a stable sort on the deadline text. */
  function SortByDeadline(ts: seq<Topic>): seq<Topic>
    decreases |ts|
  {
    if ts == [] then []
    else
      var n := |ts| - 1;
      InsertByDeadline(ts[n], SortByDeadline(ts[..n]))
  }

  lemma {:induction false} InsertPermutes(x: Topic, s: seq<Topic>)
    ensures multiset(InsertByDeadline(x, s)) == multiset(s) + multiset{x}
    decreases |s|
  {
    if s != [] && StrLe(SortKey(s[0]), SortKey(x)) {
      InsertPermutes(x, s[1..]);
      assert s == [s[0]] + s[1..];
    }
  }

  /** The sorted list holds the same entries, each as often. */
  lemma {:induction false} SortPermutes(ts: seq<Topic>)
    ensures multiset(SortByDeadline(ts)) == multiset(ts)
    decreases |ts|
  {
    if ts != [] {
      var n := |ts| - 1;
      SortPermutes(ts[..n]);
      InsertPermutes(ts[n], SortByDeadline(ts[..n]));
      assert ts == ts[..n] + [ts[n]];
    }
  }

  lemma {:induction false} InsertSorted(x: Topic, s: seq<Topic>)
    requires SortedByDeadline(s)
    ensures SortedByDeadline(InsertByDeadline(x, s))
    decreases |s|
  {
    var r := InsertByDeadline(x, s);
    if s == [] {
    } else if !StrLe(SortKey(s[0]), SortKey(x)) {
      StrLeTotal(SortKey(s[0]), SortKey(x));
      forall j | 0 <= j < |s| ensures StrLe(SortKey(x), SortKey(s[j])) {
        if j > 0 {
          StrLeTransitive(SortKey(x), SortKey(s[0]), SortKey(s[j]));
        } else {
          assert StrLe(SortKey(x), SortKey(s[0]));
        }
      }
    } else {
      var tail := InsertByDeadline(x, s[1..]);
      InsertSorted(x, s[1..]);
      InsertPermutes(x, s[1..]);
      forall j | 0 <= j < |tail| ensures StrLe(SortKey(s[0]), SortKey(tail[j])) {
        assert tail[j] in multiset(s[1..]) + multiset{x};
        if tail[j] != x {
          assert tail[j] in s[1..];
        }
      }
      assert r == [s[0]] + tail;
    }
  }

  /** The sorted list is in non-decreasing order of deadline text. */
  lemma {:induction false} SortSorted(ts: seq<Topic>)
    ensures SortedByDeadline(SortByDeadline(ts))
    decreases |ts|
  {
    if ts != [] {
      var n := |ts| - 1;
      SortSorted(ts[..n]);
      InsertSorted(ts[n], SortByDeadline(ts[..n]));
    }
  }

  /** The entries of `s` whose sort key is `k`, in order. */
  function WithKey(s: seq<Topic>, k: string): seq<Topic>
    decreases |s|
  {
    if s == [] then []
    else (if SortKey(s[0]) == k then [s[0]] else []) + WithKey(s[1..], k)
  }

  lemma {:induction false} WithKeyAppend(a: seq<Topic>, b: seq<Topic>, k: string)
    ensures WithKey(a + b, k) == WithKey(a, k) + WithKey(b, k)
    decreases |a|
  {
    if a == [] {
      assert a + b == b;
    } else {
      var head, tail := a[0], a[1..];
      assert a == [head] + tail;
      assert a + b == [head] + (tail + b);
      WithKeyCons(head, tail + b, k);
      WithKeyCons(head, tail, k);
      WithKeyAppend(tail, b, k);
      AppendAssoc(if SortKey(head) == k then [head] else [], WithKey(tail, k), WithKey(b, k));
    }
  }

  lemma {:induction false} WithKeyNone(s: seq<Topic>, k: string)
    requires forall i :: 0 <= i < |s| ==> SortKey(s[i]) != k
    ensures WithKey(s, k) == []
    decreases |s|
  {
    if s != [] {
      WithKeyNone(s[1..], k);
    }
  }

  /** Inserting puts `x` after every entry with the same key. */
  lemma {:induction false} InsertStable(x: Topic, s: seq<Topic>, k: string)
    requires SortedByDeadline(s)
    ensures WithKey(InsertByDeadline(x, s), k) == WithKey(s, k) + (if SortKey(x) == k then [x] else [])
    decreases |s|
  {
    if s == [] {
      WithKeyCons(x, s, k);
    } else if !StrLe(SortKey(s[0]), SortKey(x)) {
      WithKeyCons(x, s, k);
      if SortKey(x) == k {
        NoneWithKeyAbove(x, s, k);
      }
    } else {
      var tail := InsertByDeadline(x, s[1..]);
      assert InsertByDeadline(x, s) == [s[0]] + tail;
      WithKeyCons(s[0], tail, k);
      SortedTail(s);
      InsertStable(x, s[1..], k);
      assert s == [s[0]] + s[1..];
      WithKeyCons(s[0], s[1..], k);
    }
  }

  lemma WithKeyCons(a: Topic, s: seq<Topic>, k: string)
    ensures WithKey([a] + s, k) == (if SortKey(a) == k then [a] else []) + WithKey(s, k)
  {
    assert ([a] + s)[0] == a && ([a] + s)[1..] == s;
  }

  lemma SortedTail(s: seq<Topic>)
    requires SortedByDeadline(s) && s != []
    ensures SortedByDeadline(s[1..])
  {
    forall i, j | 0 <= i < j < |s| - 1 ensures StrLe(SortKey(s[1..][i]), SortKey(s[1..][j])) {
      assert s[1..][i] == s[i + 1] && s[1..][j] == s[j + 1];
    }
  }

  /** A sorted list whose first key is above `x`'s key holds no entry with that key. */
  lemma NoneWithKeyAbove(x: Topic, s: seq<Topic>, k: string)
    requires SortedByDeadline(s) && s != [] && !StrLe(SortKey(s[0]), SortKey(x)) && SortKey(x) == k
    ensures WithKey(s, k) == []
  {
    forall i | 0 <= i < |s| ensures SortKey(s[i]) != k {
      if i == 0 {
        StrLeReflexive(SortKey(s[0]));
      }
    }
    WithKeyNone(s, k);
  }

  /** Stability: for every deadline text, the entries carrying it keep their relative order. */
  lemma {:induction false} SortStable(ts: seq<Topic>, k: string)
    ensures WithKey(SortByDeadline(ts), k) == WithKey(ts, k)
    decreases |ts|
  {
    if ts != [] {
      var n := |ts| - 1;
      var init, last := ts[..n], ts[n];
      SortStable(init, k);
      SortSorted(init);
      InsertStable(last, SortByDeadline(init), k);
      WithKeyLast(ts, k);
    }
  }

  /** Filtering by key commutes with taking off the last entry. */
  lemma WithKeyLast(ts: seq<Topic>, k: string)
    requires ts != []
    ensures var n := |ts| - 1;
            WithKey(ts, k) == WithKey(ts[..n], k) + (if SortKey(ts[n]) == k then [ts[n]] else [])
  {
    var n := |ts| - 1;
    var last := ts[n];
    assert WithKey([last], k) == (if SortKey(last) == k then [last] else []) + WithKey([], k);
    WithKeyAppend(ts[..n], [last], k);
    assert ts == ts[..n] + [last];
  }

  /** Because deadlines are `YYYY-MM-DD` text, the string order is the calendar order. */
  lemma SortChronological(ts: seq<Topic>)
    ensures forall i, j :: 0 <= i < j < |SortByDeadline(ts)| ==>
              SortByDeadline(ts)[i].deadline.OnOrBefore(SortByDeadline(ts)[j].deadline)
  {
    var r := SortByDeadline(ts);
    SortSorted(ts);
    forall i, j | 0 <= i < j < |r| ensures r[i].deadline.OnOrBefore(r[j].deadline) {
      IsoTextOrder(r[i].deadline, r[j].deadline);
    }
  }

  // ---------------------------------------------------------------------------
  // Walking the days

  /** The generator's inputs: today's date as an ordinal, the daily hours, the
      preferred start time and the weekday names chosen for study. */
  datatype ScheduleRequest = ScheduleRequest(today: int, dailyHours: int, startHour: int, startMinute: int, studyDays: seq<string>) {
    /** A start time `datetime.time` accepts. */
    predicate Valid() {
      0 <= startHour < 24 && 0 <= startMinute < 60
    }
  }

  /** One booked session. The date is an ordinal; `hours` is the session length. */
  datatype ScheduleEntry = ScheduleEntry(
    date: int, day: string, time: string, hours: int,
    moduleLabel: string, chapterLabel: string, subtopicLabel: string, urgent: bool)

  /** `min(daily_hours, 3)`. */
  function SessionHours(dailyHours: int): int {
    if dailyHours < MaxSessionHours then dailyHours else MaxSessionHours
  }

  /** The blackout: Tuesday to Friday when the start hour lies in [12, 20). */
  predicate Restricted(dayName: string, startHour: int) {
    dayName in ["Tuesday", "Wednesday", "Thursday", "Friday"] && 12 <= startHour < 20
  }

  function DayNameOf(date: int): string {
    DayName(Weekday(date))
  }

  /** The blackout on weekday numbers: Tuesday (1) to Friday (4). */
  predicate BlackoutWeekday(w: int, startHour: int) {
    1 <= w <= 4 && 12 <= startHour < 20
  }

  /** Testing the day's name against the four listed names is testing its weekday
      number against 1..4. */
  lemma RestrictedWeekday(w: int, startHour: int)
    requires 0 <= w < 7
    ensures Restricted(DayName(w), startHour) <==> BlackoutWeekday(w, startHour)
  {
    assert DayName(w) == ["Monday", "Tuesday", "Wednesday", "Thursday", "Friday", "Saturday", "Sunday"][w];
  }

  /** Whether the day with ordinal `date` is a chosen study day outside the blackout. */
  predicate StudyDate(req: ScheduleRequest, date: int) {
    var w := Weekday(date);
    DayName(w) in req.studyDays && !BlackoutWeekday(w, req.startHour)
  }

  /** Whether the day `offset` days from today gets a session. */
  predicate StudyDay(req: ScheduleRequest, offset: int) {
    StudyDate(req, req.today + offset)
  }

  /** The day walk's two tests, the chosen days first and the blackout second,
      together decide a study day. */
  lemma StudyDayTests(req: ScheduleRequest, offset: int)
    ensures var name := DayNameOf(req.today + offset);
            StudyDay(req, offset) <==> name in req.studyDays && !Restricted(name, req.startHour)
  {
    RestrictedWeekday(Weekday(req.today + offset), req.startHour);
  }

  /** `f"{hour:02d}:{minute:02d}"`. */
  function TimeText(hour: int, minute: int): string
    requires 0 <= hour < 24 && 0 <= minute < 60
  {
    Digits(hour, 2) + ":" + Digits(minute, 2)
  }

  /** The start time shows as five characters with a colon in the middle, and
      different start times show differently. */
  lemma TimeTextInjective(h1: int, m1: int, h2: int, m2: int)
    requires 0 <= h1 < 24 && 0 <= m1 < 60 && 0 <= h2 < 24 && 0 <= m2 < 60
    ensures |TimeText(h1, m1)| == 5 && TimeText(h1, m1)[2] == ':'
    ensures TimeText(h1, m1) == TimeText(h2, m2) <==> h1 == h2 && m1 == m2
  {
    DigitsOrder(h1, h2, 2);
    DigitsOrder(m1, m2, 2);
    if TimeText(h1, m1) == TimeText(h2, m2) {
      assert Digits(h1, 2) == TimeText(h1, m1)[..2];
      assert Digits(h2, 2) == TimeText(h2, m2)[..2];
      assert Digits(m1, 2) == TimeText(h1, m1)[3..];
      assert Digits(m2, 2) == TimeText(h2, m2)[3..];
    }
  }

  /** `module.split(":")[0]`. */
  function ModuleLabel(s: string): string {
    Split(s)[0]
  }

  /** `chapter.split(":")[1]` when the name has a colon, else the whole name. */
  function ChapterLabel(s: string): string {
    if ':' in s then
      SplitParts(s);
      Split(s)[1]
    else s
  }

  /** `subtopic[:50] + "..."` when longer than 50 characters, else the whole name. */
  function SubtopicLabel(s: string): string {
    if |s| > LabelLimit then s[..LabelLimit] + "..." else s
  }

  /** The module label is the name up to its first colon; the chapter label is the
      text between the first colon and the next colon or the end, or the whole name
      when it has no colon. */
  lemma LabelSegments(s: string)
    ensures ModuleLabel(s) == s[..IndexOfColon(s)]
    ensures ':' !in s ==> ChapterLabel(s) == s
    ensures ':' in s ==> var rest := s[IndexOfColon(s) + 1..]; ChapterLabel(s) == rest[..IndexOfColon(rest)]
  {
    SplitUnfold(s);
    if ':' in s {
      assert IndexOfColon(s) < |s|;
      SplitUnfold(s[IndexOfColon(s) + 1..]);
    }
  }

  /** A subtopic label is the name itself up to 50 characters, else its first 50
      characters followed by "...". */
  lemma SubtopicLabelShape(s: string)
    ensures |SubtopicLabel(s)| <= LabelLimit + 3
    ensures |s| <= LabelLimit ==> SubtopicLabel(s) == s
    ensures |s| > LabelLimit ==> |SubtopicLabel(s)| == LabelLimit + 3
                                 && SubtopicLabel(s)[..LabelLimit] == s[..LabelLimit]
                                 && SubtopicLabel(s)[LabelLimit..] == "..."
  {
  }

  /** A name of the form `prefix:rest` with no further colon shows as `prefix` for a
      module and `rest` for a chapter; a name without a colon shows unchanged. */
  lemma LabelsOfColonName(a: string, b: string)
    requires ':' !in a && ':' !in b
    ensures ModuleLabel(a + ":" + b) == a && ChapterLabel(a + ":" + b) == b
    ensures ModuleLabel(a) == a && ChapterLabel(a) == a
  {
    SplitJoin([a, b]);
    SplitJoin([a]);
    assert Join([a, b]) == a + ":" + b;
    assert (a + ":" + b)[|a|] == ':';
  }

  /** A chapter name with a second colon loses everything from that colon on. */
  lemma ChapterLabelStopsAtSecondColon()
    ensures ChapterLabel("Ch1:Intro:Part A") == "Intro"
  {
    assert "Ch1:Intro:Part A" == Join(["Ch1", "Intro", "Part A"]);
    SplitJoin(["Ch1", "Intro", "Part A"]);
  }

  /** The entry booked for topic `t` on the day with ordinal `date`; urgent when the
      deadline is at most 7 days after that day. */
  function MakeEntry(req: ScheduleRequest, t: Topic, date: int): ScheduleEntry
    requires req.Valid()
  {
    ScheduleEntry(
      date, DayNameOf(date), TimeText(req.startHour, req.startMinute), SessionHours(req.dailyHours),
      ModuleLabel(t.moduleName), ChapterLabel(t.chapterName), SubtopicLabel(t.subtopic),
      Ordinal(t.deadline) - date <= 7)
  }

  /** A topic handed to the day with the given ordinal. */
  datatype Booking = Booking(topic: Topic, date: int)

  /** The study-day test of each of the fifteen days of the window, in order. */
  function StudyFlags(req: ScheduleRequest): (open: seq<bool>)
    ensures |open| == Horizon + 1
    ensures forall d :: 0 <= d <= Horizon ==> open[d] == StudyDay(req, d)
  {
    seq(Horizon + 1, d => StudyDay(req, d))
  }

  /** The bookings the day walk makes from `offset` on, with `pool` still to hand
      out and `scheduled` hours already booked; `open` holds the study-day test of
      each day of the window (`StudyFlags`). */
  function Plan(req: ScheduleRequest, open: seq<bool>, pool: seq<Topic>, offset: nat, scheduled: int): seq<Booking>
    decreases |open| - offset
  {
    if offset >= |open| || pool == [] || scheduled >= TargetHours then []
    else if open[offset] then
      [Booking(pool[0], req.today + offset)]
        + Plan(req, open, pool[1..], offset + 1, scheduled + SessionHours(req.dailyHours))
    else Plan(req, open, pool, offset + 1, scheduled)
  }

  /** One step of the day walk while it is still running. */
  lemma PlanStep(req: ScheduleRequest, open: seq<bool>, pool: seq<Topic>, offset: nat, scheduled: int)
    requires offset < |open| && pool != [] && scheduled < TargetHours
    ensures open[offset] ==>
              Plan(req, open, pool, offset, scheduled)
              == [Booking(pool[0], req.today + offset)] + Plan(req, open, pool[1..], offset + 1, scheduled + SessionHours(req.dailyHours))
    ensures !open[offset] ==> Plan(req, open, pool, offset, scheduled) == Plan(req, open, pool, offset + 1, scheduled)
  {
  }

  lemma AppendAssoc<T>(a: seq<T>, b: seq<T>, c: seq<T>)
    ensures a + b + c == a + (b + c)
  {
  }

  /** The day walk's invariant survives booking a study day: what is booked so
      far followed by what the rest of the walk books is the whole plan. */
  lemma PlanBookStep(req: ScheduleRequest, open: seq<bool>, pool: seq<Topic>, booked: seq<Booking>, rest: seq<Topic>, offset: nat, scheduled: int)
    requires offset < |open| && rest != [] && scheduled < TargetHours && open[offset]
    requires booked + Plan(req, open, rest, offset, scheduled) == Plan(req, open, pool, 0, 0)
    ensures booked + [Booking(rest[0], req.today + offset)]
              + Plan(req, open, rest[1..], offset + 1, scheduled + SessionHours(req.dailyHours))
            == Plan(req, open, pool, 0, 0)
  {
    var b := Booking(rest[0], req.today + offset);
    var later := Plan(req, open, rest[1..], offset + 1, scheduled + SessionHours(req.dailyHours));
    PlanStep(req, open, rest, offset, scheduled);
    assert [b] + later == Plan(req, open, rest, offset, scheduled);
    AppendAssoc(booked, [b], later);
  }

  /** The day walk's invariant survives one day, whether the walk's own two tests
      let it book that day (`booked`, `rest` and `scheduled` move on by one
      session) or not (they stay as they were). */
  lemma WalkStep(req: ScheduleRequest, pool: seq<Topic>, offset: nat, bookable: bool,
                 booked0: seq<Booking>, rest0: seq<Topic>, scheduled0: int,
                 booked: seq<Booking>, rest: seq<Topic>, scheduled: int)
    requires offset <= Horizon && rest0 != [] && scheduled0 < TargetHours
    requires var name := DayNameOf(req.today + offset);
             bookable == (name in req.studyDays && !Restricted(name, req.startHour))
    requires booked0 + Plan(req, StudyFlags(req), rest0, offset, scheduled0) == Plan(req, StudyFlags(req), pool, 0, 0)
    requires bookable ==> booked == booked0 + [Booking(rest0[0], req.today + offset)] && rest == rest0[1..]
                          && scheduled == scheduled0 + SessionHours(req.dailyHours)
    requires !bookable ==> booked == booked0 && rest == rest0 && scheduled == scheduled0
    ensures booked + Plan(req, StudyFlags(req), rest, offset + 1, scheduled) == Plan(req, StudyFlags(req), pool, 0, 0)
  {
    var open := StudyFlags(req);
    StudyDayTests(req, offset);
    assert open[offset] == bookable;
    if bookable {
      PlanBookStep(req, open, pool, booked0, rest0, offset, scheduled0);
    } else {
      PlanStep(req, open, rest0, offset, scheduled0);
    }
  }

  /** Once the walk's loop test fails, the rest of the walk books nothing. */
  lemma WalkDone(req: ScheduleRequest, rest: seq<Topic>, offset: nat, scheduled: int)
    requires !(offset <= Horizon && rest != [] && scheduled < TargetHours)
    ensures Plan(req, StudyFlags(req), rest, offset, scheduled) == []
  {
  }

  /** The schedule entries of a list of bookings. */
  function Entries(req: ScheduleRequest, bs: seq<Booking>): (es: seq<ScheduleEntry>)
    requires req.Valid()
    ensures |es| == |bs|
    ensures forall i :: 0 <= i < |bs| ==> es[i] == MakeEntry(req, bs[i].topic, bs[i].date)
  {
    seq(|bs|, i requires 0 <= i < |bs| => MakeEntry(req, bs[i].topic, bs[i].date))
  }

  /** Booking one more session appends its entry. */
  lemma EntriesAppend(req: ScheduleRequest, bs: seq<Booking>, b: Booking)
    requires req.Valid()
    ensures Entries(req, bs + [b]) == Entries(req, bs) + [MakeEntry(req, b.topic, b.date)]
  {
    assert forall i :: 0 <= i < |bs| ==> (bs + [b])[i] == bs[i];
  }

  /** Appends the session entry of booking `b` (the `schedule.append` of the day
      walk) to the entries of the bookings made so far. */
  method AppendEntry(req: ScheduleRequest, entries: seq<ScheduleEntry>, ghost booked: seq<Booking>, b: Booking)
    returns (r: seq<ScheduleEntry>)
    requires req.Valid() && entries == Entries(req, booked)
    ensures r == Entries(req, booked + [b])
  {
    EntriesAppend(req, booked, b);
    r := entries + [MakeEntry(req, b.topic, b.date)];
  }

  /** The day walk of `generate_study_schedule`: from today to 14 days ahead, while
      topics remain and fewer than 25 hours are booked, a day whose name is among
      the chosen days and that is outside the blackout takes the next topic from the
      pool and appends its session. */
  method BookSessions(req: ScheduleRequest, pool: seq<Topic>) returns (entries: seq<ScheduleEntry>)
    requires req.Valid()
    ensures entries == Entries(req, Plan(req, StudyFlags(req), pool, 0, 0))
  {
    var rest := pool;
    var offset: nat := 0;
    var scheduled := 0;
    ghost var booked: seq<Booking> := [];
    entries := [];
    while offset <= Horizon && rest != [] && scheduled < TargetHours
      invariant offset <= Horizon + 1
      invariant booked + Plan(req, StudyFlags(req), rest, offset, scheduled) == Plan(req, StudyFlags(req), pool, 0, 0)
      invariant entries == Entries(req, booked)
      decreases Horizon + 1 - offset
    {
      var date := req.today + offset;
      var dayName := DayNameOf(date);
      var bookable := false;
      if dayName in req.studyDays {
        var restricted := Restricted(dayName, req.startHour);
        bookable := !restricted;
      }
      ghost var booked0, rest0, scheduled0 := booked, rest, scheduled;
      if bookable {
        var duration := SessionHours(req.dailyHours);
        var t := rest[0];
        rest := rest[1..];
        entries := AppendEntry(req, entries, booked, Booking(t, date));
        booked := booked + [Booking(t, date)];
        scheduled := scheduled + duration;
      }
      WalkStep(req, pool, offset, bookable, booked0, rest0, scheduled0, booked, rest, scheduled);
      offset := offset + 1;
    }
    WalkDone(req, rest, offset, scheduled);
    assert booked == Plan(req, StudyFlags(req), pool, 0, 0);
  }

  /** The offsets from `from` on whose flag in `open` is set, in increasing order. */
  function StudyOffsets(open: seq<bool>, from: nat): seq<nat>
    decreases |open| - from
  {
    if from >= |open| then []
    else (if open[from] then [from] else []) + StudyOffsets(open, from + 1)
  }

  /** The study offsets are exactly the flagged offsets from `from` on, each once,
      in increasing order. */
  lemma {:induction false} StudyOffsetsExact(open: seq<bool>, from: nat)
    ensures forall d :: d in StudyOffsets(open, from) <==> from <= d < |open| && open[d]
    ensures forall i, j :: 0 <= i < j < |StudyOffsets(open, from)| ==> StudyOffsets(open, from)[i] < StudyOffsets(open, from)[j]
    ensures forall i :: 0 <= i < |StudyOffsets(open, from)| ==> from <= StudyOffsets(open, from)[i] < |open|
    ensures |StudyOffsets(open, from)| <= if from <= |open| then |open| - from else 0
    decreases |open| - from
  {
    if from < |open| {
      StudyOffsetsExact(open, from + 1);
    }
  }

  /** The day walk books no more days than there are study days left or topics in the pool. */
  lemma {:induction false} PlanLength(req: ScheduleRequest, open: seq<bool>, pool: seq<Topic>, offset: nat, scheduled: int)
    ensures |Plan(req, open, pool, offset, scheduled)| <= |StudyOffsets(open, offset)|
    ensures |Plan(req, open, pool, offset, scheduled)| <= |pool|
    decreases |open| - offset
  {
    if offset >= |open| || pool == [] || scheduled >= TargetHours {
    } else if open[offset] {
      PlanLength(req, open, pool[1..], offset + 1, scheduled + SessionHours(req.dailyHours));
    } else {
      PlanLength(req, open, pool, offset + 1, scheduled);
    }
  }

  /** The `i`-th booking hands the `i`-th topic of the pool to the `i`-th study day. */
  lemma {:induction false} PlanEntries(req: ScheduleRequest, open: seq<bool>, pool: seq<Topic>, offset: nat, scheduled: int, i: nat)
    requires i < |Plan(req, open, pool, offset, scheduled)|
    ensures i < |StudyOffsets(open, offset)| && i < |pool|
    ensures Plan(req, open, pool, offset, scheduled)[i] == Booking(pool[i], req.today + StudyOffsets(open, offset)[i])
    decreases |open| - offset
  {
    var dur := SessionHours(req.dailyHours);
    PlanLength(req, open, pool, offset, scheduled);
    if open[offset] {
      if i > 0 {
        PlanEntries(req, open, pool[1..], offset + 1, scheduled + dur, i - 1);
        assert pool[1..][i - 1] == pool[i];
      }
    } else {
      PlanEntries(req, open, pool, offset + 1, scheduled, i);
    }
  }

  /** Every booking is made while fewer than 25 hours were booked before it, and
      the walk stops early only once the hours booked reach 25. */
  lemma {:induction false} PlanHours(req: ScheduleRequest, open: seq<bool>, pool: seq<Topic>, offset: nat, scheduled: int)
    ensures forall i :: 0 <= i < |Plan(req, open, pool, offset, scheduled)| ==>
              scheduled + i * SessionHours(req.dailyHours) < TargetHours
    ensures |Plan(req, open, pool, offset, scheduled)| < |StudyOffsets(open, offset)|
            && |Plan(req, open, pool, offset, scheduled)| < |pool|
            ==> scheduled + |Plan(req, open, pool, offset, scheduled)| * SessionHours(req.dailyHours) >= TargetHours
    decreases |open| - offset
  {
    var dur := SessionHours(req.dailyHours);
    var es := Plan(req, open, pool, offset, scheduled);
    if offset >= |open| || pool == [] || scheduled >= TargetHours {
    } else if open[offset] {
      var rest := Plan(req, open, pool[1..], offset + 1, scheduled + dur);
      PlanHours(req, open, pool[1..], offset + 1, scheduled + dur);
      assert |es| == 1 + |rest|;
      assert |StudyOffsets(open, offset)| == 1 + |StudyOffsets(open, offset + 1)|;
      forall i | 0 < i < |es| ensures scheduled + i * dur < TargetHours {
        MulStep(i - 1, dur);
      }
      MulStep(|rest|, dur);
    } else {
      PlanHours(req, open, pool, offset + 1, scheduled);
    }
  }

  lemma MulStep(i: int, d: int)
    ensures (i + 1) * d == d + i * d
  {
  }

  /** The bookings fall on distinct study days in [today, today + 14], in order. */
  lemma BookingDays(req: ScheduleRequest, pool: seq<Topic>)
    ensures var bs := Plan(req, StudyFlags(req), pool, 0, 0);
            && |bs| <= Horizon + 1
            && (forall i :: 0 <= i < |bs| ==> req.today <= bs[i].date <= req.today + Horizon)
            && (forall i, j :: 0 <= i < j < |bs| ==> bs[i].date < bs[j].date)
            && (forall i :: 0 <= i < |bs| ==> StudyDate(req, bs[i].date))
  {
    var bs := Plan(req, StudyFlags(req), pool, 0, 0);
    PlanLength(req, StudyFlags(req), pool, 0, 0);
    StudyOffsetsExact(StudyFlags(req), 0);
    forall i | 0 <= i < |bs|
      ensures req.today <= bs[i].date <= req.today + Horizon && StudyDate(req, bs[i].date)
    {
      BookingOnStudyDate(req, pool, i);
    }
    forall i, j | 0 <= i < j < |bs| ensures bs[i].date < bs[j].date {
      PlanEntries(req, StudyFlags(req), pool, 0, 0, i);
      PlanEntries(req, StudyFlags(req), pool, 0, 0, j);
    }
  }

  /** The `i`-th booking is on a study date within the window. */
  lemma BookingOnStudyDate(req: ScheduleRequest, pool: seq<Topic>, i: nat)
    requires i < |Plan(req, StudyFlags(req), pool, 0, 0)|
    ensures var date := Plan(req, StudyFlags(req), pool, 0, 0)[i].date;
            req.today <= date <= req.today + Horizon && StudyDate(req, date)
  {
    PlanEntries(req, StudyFlags(req), pool, 0, 0, i);
    StudyOffsetInWindow(req, i);
  }

  lemma StudyOffsetInWindow(req: ScheduleRequest, i: nat)
    requires i < |StudyOffsets(StudyFlags(req), 0)|
    ensures StudyOffsets(StudyFlags(req), 0)[i] <= Horizon && StudyDay(req, StudyOffsets(StudyFlags(req), 0)[i])
  {
    var ds := StudyOffsets(StudyFlags(req), 0);
    StudyOffsetsExact(StudyFlags(req), 0);
    assert ds[i] in ds;
  }

  /** An entry shows its booking's day and the weekday name of that day. */
  lemma EntryDay(req: ScheduleRequest, bs: seq<Booking>, i: nat)
    requires req.Valid() && i < |bs|
    ensures Entries(req, bs)[i].date == bs[i].date
    ensures Entries(req, bs)[i].day == DayNameOf(bs[i].date)
  {
  }

  /** At most one session per day, on days 0..14 from today that are chosen study
      days outside the blackout. */
  lemma PlanDays(req: ScheduleRequest, pool: seq<Topic>)
    requires req.Valid()
    ensures var es := Entries(req, Plan(req, StudyFlags(req), pool, 0, 0));
            && |es| <= Horizon + 1
            && (forall i :: 0 <= i < |es| ==> req.today <= es[i].date <= req.today + Horizon)
            && (forall i, j :: 0 <= i < j < |es| ==> es[i].date < es[j].date)
            && (forall i :: 0 <= i < |es| ==>
                  && es[i].day == DayNameOf(es[i].date)
                  && es[i].day in req.studyDays
                  && !Restricted(es[i].day, req.startHour))
  {
    var bs := Plan(req, StudyFlags(req), pool, 0, 0);
    var es := Entries(req, bs);
    BookingDays(req, pool);
    forall i | 0 <= i < |es|
      ensures es[i].date == bs[i].date && es[i].day == DayNameOf(bs[i].date)
      ensures es[i].day in req.studyDays && !Restricted(es[i].day, req.startHour)
    {
      EntryDay(req, bs, i);
      assert StudyDate(req, bs[i].date);
      RestrictedWeekday(Weekday(bs[i].date), req.startHour);
    }
  }

  /** Every session has the capped length, and each was booked while fewer than 25
      hours were booked, so the total stays below 25 plus one session. */
  lemma PlanSessionHours(req: ScheduleRequest, pool: seq<Topic>)
    requires req.Valid()
    ensures var es := Entries(req, Plan(req, StudyFlags(req), pool, 0, 0));
            var dur := SessionHours(req.dailyHours);
            && dur <= MaxSessionHours
            && (forall i :: 0 <= i < |es| ==> es[i].hours == dur)
            && (|es| > 0 ==> (|es| - 1) * dur < TargetHours)
  {
    PlanHours(req, StudyFlags(req), pool, 0, 0);
  }

  /** The sessions take the first topics of the pool, in order, each once, and are
      urgent exactly when the deadline is at most 7 days after the session's day. */
  lemma PlanTopics(req: ScheduleRequest, pool: seq<Topic>)
    requires req.Valid()
    ensures var es := Entries(req, Plan(req, StudyFlags(req), pool, 0, 0));
            && |es| <= |pool|
            && (forall i :: 0 <= i < |es| ==>
                  && es[i] == MakeEntry(req, pool[i], es[i].date)
                  && (es[i].urgent <==> Ordinal(pool[i].deadline) - es[i].date <= 7))
  {
    var bs := Plan(req, StudyFlags(req), pool, 0, 0);
    PlanLength(req, StudyFlags(req), pool, 0, 0);
    forall i | 0 <= i < |bs| ensures bs[i].topic == pool[i] {
      PlanEntries(req, StudyFlags(req), pool, 0, 0, i);
    }
  }

  /** The topics the generator hands out, in the order it hands them out. */
  function PoolFor(progress: map<string, bool>, curriculum: seq<Module>): seq<Topic> {
    SortByDeadline(Pending(progress, Topics(curriculum)))
  }

  /** The pool holds exactly the uncompleted subtopics, each as often as listed, in
      non-decreasing deadline order, and keeps curriculum order among equal deadlines. */
  lemma PoolProperties(progress: map<string, bool>, curriculum: seq<Module>)
    ensures var pool := PoolFor(progress, curriculum);
            && (forall i :: 0 <= i < |pool| ==> !Done(progress, TopicKey(pool[i])))
            && (forall t :: t in pool <==> t in Topics(curriculum) && !Done(progress, TopicKey(t)))
            && multiset(pool) == multiset(Pending(progress, Topics(curriculum)))
            && SortedByDeadline(pool)
            && (forall k :: WithKey(pool, k) == WithKey(Pending(progress, Topics(curriculum)), k))
  {
    var pending := Pending(progress, Topics(curriculum));
    var pool := PoolFor(progress, curriculum);
    PendingMembers(progress, Topics(curriculum));
    SortPermutes(pending);
    SortSorted(pending);
    forall k ensures WithKey(pool, k) == WithKey(pending, k) {
      SortStable(pending, k);
    }
    forall t ensures t in pool <==> t in pending {
      assert t in pool <==> t in multiset(pool);
    }
    forall i | 0 <= i < |pool| ensures !Done(progress, TopicKey(pool[i])) {
      assert pool[i] in pool;
    }
  }

  /** The whole schedule generated from a curriculum and its progress map. */
  function ScheduleFor(req: ScheduleRequest, progress: map<string, bool>, curriculum: seq<Module>): seq<ScheduleEntry>
    requires req.Valid()
  {
    Entries(req, Plan(req, StudyFlags(req), PoolFor(progress, curriculum), 0, 0))
  }

  /** When every weekday is a study day outside the blackout, every offset 0..14 is used. */
  lemma {:induction false} EveryDayOffsets(open: seq<bool>, from: nat)
    requires forall d :: 0 <= d < |open| ==> open[d]
    requires from <= |open|
    ensures |StudyOffsets(open, from)| == |open| - from
    decreases |open| - from
  {
    if from < |open| {
      EveryDayOffsets(open, from + 1);
    }
  }

  /** With a 3-hour cap the total can pass the 25-hour target: nine sessions of three
      hours book 27 hours when every day is a study day and at least 15 topics wait. */
  lemma PlanCanPassTarget(req: ScheduleRequest, pool: seq<Topic>)
    requires req.Valid() && req.dailyHours >= 3 && req.startHour < 12
    requires forall w :: 0 <= w < 7 ==> DayName(w) in req.studyDays
    requires |pool| >= 15
    ensures |Plan(req, StudyFlags(req), pool, 0, 0)| == 9
    ensures |Plan(req, StudyFlags(req), pool, 0, 0)| * SessionHours(req.dailyHours) == 27
  {
    EveryDayStudied(req);
    EveryDayOffsets(StudyFlags(req), 0);
    PlanLength(req, StudyFlags(req), pool, 0, 0);
    PlanHours(req, StudyFlags(req), pool, 0, 0);
    var k := |Plan(req, StudyFlags(req), pool, 0, 0)|;
    assert SessionHours(req.dailyHours) == 3;
    if k > 0 {
      assert 0 + (k - 1) * 3 < TargetHours;
    }
  }

  lemma EveryDayStudied(req: ScheduleRequest)
    requires req.startHour < 12
    requires forall w :: 0 <= w < 7 ==> DayName(w) in req.studyDays
    ensures forall d :: StudyDay(req, d)
  {
    forall d ensures StudyDay(req, d) {
      assert DayName(Weekday(req.today + d)) in req.studyDays;
    }
  }

  /** With Monday as the only chosen day and today a Wednesday, the study days of the
      window are the Mondays 5 and 12 days ahead. */
  lemma MondaysFromWednesday(req: ScheduleRequest)
    requires req.studyDays == ["Monday"] && Weekday(req.today) == 2
    ensures forall d :: 0 <= d <= Horizon ==> (StudyDay(req, d) <==> d == 5 || d == 12)
  {
    forall d | 0 <= d <= Horizon ensures StudyDay(req, d) <==> d == 5 || d == 12 {
      var w := Weekday(req.today + d);
      assert w == (2 + d) % 7;
      if w != 0 {
        assert DayName(w)[0] != 'M';
      }
    }
  }

  /** A Monday-only schedule started on a Wednesday with 4 daily hours and enough
      topics books two 3-hour sessions, the first on the next Monday and the second
      a week later, taking the first two topics of the pool. */
  lemma MondayOnlyExample(req: ScheduleRequest, pool: seq<Topic>)
    requires req.Valid() && req.studyDays == ["Monday"] && Weekday(req.today) == 2
    requires req.dailyHours == 4 && |pool| >= 2
    ensures var es := Entries(req, Plan(req, StudyFlags(req), pool, 0, 0));
            && |es| == 2
            && es[0].date == req.today + 5 && es[0].day == "Monday" && es[0].hours == 3
            && es[1].date == req.today + 12 && es[1].day == "Monday" && es[1].hours == 3
            && es[0] == MakeEntry(req, pool[0], req.today + 5)
            && es[1] == MakeEntry(req, pool[1], req.today + 12)
  {
    var b0, b1 := Booking(pool[0], req.today + 5), Booking(pool[1], req.today + 12);
    MondayBookings(req, pool);
    EntriesOfPair(req, b0, b1);
    WeekdayShift(req.today, 5);
    WeekdayShift(req.today, 12);
    MondayEntry(req, pool[0], req.today + 5);
    MondayEntry(req, pool[1], req.today + 12);
  }

  lemma EntriesOfPair(req: ScheduleRequest, b0: Booking, b1: Booking)
    requires req.Valid()
    ensures Entries(req, [b0, b1]) == [MakeEntry(req, b0.topic, b0.date), MakeEntry(req, b1.topic, b1.date)]
  {
  }

  lemma MondayEntry(req: ScheduleRequest, t: Topic, date: int)
    requires req.Valid() && req.dailyHours == 4 && Weekday(date) == 0
    ensures MakeEntry(req, t, date).date == date
    ensures MakeEntry(req, t, date).day == "Monday"
    ensures MakeEntry(req, t, date).hours == 3
  {
  }

  /** The Monday-only walk books the first topic on day 5 and the second on day 12. */
  lemma MondayBookings(req: ScheduleRequest, pool: seq<Topic>)
    requires req.studyDays == ["Monday"] && Weekday(req.today) == 2
    requires req.dailyHours == 4 && |pool| >= 2
    ensures Plan(req, StudyFlags(req), pool, 0, 0) == [Booking(pool[0], req.today + 5), Booking(pool[1], req.today + 12)]
  {
    MondaysFromWednesday(req);
    MondayPlan(req, StudyFlags(req), pool);
  }

  /** Only offsets 5 and 12 of the window are flagged. */
  predicate MondayFlags(open: seq<bool>) {
    |open| == Horizon + 1 && forall d :: 0 <= d < |open| ==> (open[d] <==> d == 5 || d == 12)
  }

  lemma MondayPlan(req: ScheduleRequest, open: seq<bool>, pool: seq<Topic>)
    requires MondayFlags(open) && req.dailyHours == 4 && |pool| >= 2
    ensures Plan(req, open, pool, 0, 0) == [Booking(pool[0], req.today + 5), Booking(pool[1], req.today + 12)]
  {
    var rest := pool[1..];
    var dur := SessionHours(req.dailyHours);
    var b0, b1 := Booking(pool[0], req.today + 5), Booking(rest[0], req.today + 12);
    var second := Plan(req, open, rest, 6, dur);
    MondayWalk(req, open, pool, 0, 5, 0);
    MondayWalk(req, open, rest, 6, 12, dur);
    MondayEnd(req, open, rest[1..], dur + dur);
    assert second == [b1];
    assert Plan(req, open, pool, 0, 0) == [b0] + [b1];
    assert rest[0] == pool[1];
  }

  /** From a day before a flagged offset, the walk books the next topic on that offset. */
  lemma MondayWalk(req: ScheduleRequest, open: seq<bool>, pool: seq<Topic>, from: nat, monday: nat, scheduled: int)
    requires MondayFlags(open) && req.dailyHours == 4
    requires (from == 0 && monday == 5) || (from == 6 && monday == 12)
    requires pool != [] && scheduled < TargetHours
    ensures Plan(req, open, pool, from, scheduled)
            == [Booking(pool[0], req.today + monday)]
               + Plan(req, open, pool[1..], monday + 1, scheduled + SessionHours(req.dailyHours))
  {
    PlanSkip(req, open, pool, from, monday, scheduled);
    PlanStep(req, open, pool, monday, scheduled);
  }

  /** After offset 12 the walk books nothing more. */
  lemma MondayEnd(req: ScheduleRequest, open: seq<bool>, pool: seq<Topic>, scheduled: int)
    requires MondayFlags(open)
    ensures Plan(req, open, pool, 13, scheduled) == []
  {
    PlanSkip(req, open, pool, 13, Horizon + 1, scheduled);
  }

  /** Days that are not study days are passed over without booking anything. */
  lemma {:induction false} PlanSkip(req: ScheduleRequest, open: seq<bool>, pool: seq<Topic>, from: nat, to: nat, scheduled: int)
    requires from <= to <= |open|
    requires forall d :: from <= d < to ==> !open[d]
    ensures Plan(req, open, pool, from, scheduled) == Plan(req, open, pool, to, scheduled)
    decreases (to as int) - (from as int)
  {
    if from < to {
      PlanSkip(req, open, pool, from + 1, to, scheduled);
    }
  }

  /** Moving `d` days ahead moves the weekday `d` places around the week. */
  lemma WeekdayShift(date: int, d: int)
    ensures Weekday(date + d) == (Weekday(date) + d) % 7
  {
    var q := (date + 6) / 7;
    assert date + 6 == 7 * q + Weekday(date);
    assert date + d + 6 == 7 * q + (Weekday(date) + d);
  }
}
