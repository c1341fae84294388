# Study dashboard progress engine in Dafny

This project models the curriculum progress engine of `study_dashboard.py`, a
Streamlit study dashboard, and proves properties of it. A curriculum is a list of
modules. Each module has chapters and each chapter has an ordered list of
subtopics. A progress map sends the key `module_chapter_subtopic` to whether that
subtopic is completed. On top of these the engine:

- computes progress statistics (completed, total, percentage, module count);
- decides which checklist boxes are unlocked: the first subtopic of a chapter
  always is, any other exactly when its predecessor is completed;
- applies a checkbox change only when the store reports the write succeeded. A
  completion adds 2 study hours and runs the badge check; un-completing takes 2
  hours off, never going below 0;
- awards badges (First Steps, Getting Started, Quarter Master, Halfway Hero,
  Streak Star, Study Master) once each, in that order, when their thresholds
  are met;
- generates a study schedule. It collects the uncompleted subtopics, sorts them
  stably by deadline text, and walks the days from today to 14 days ahead. Each
  chosen weekday outside the Tuesday–Friday 12:00–20:00 blackout gets one
  `min(daily_hours, 3)`-hour session with the next subtopic. The walk stops
  when the subtopics run out or 25 hours are booked;
- resets session state on sign-out, on "reset progress" and on "log study session".

Modules, one per file:

- `text.dfy` (`Text`): Python string order, `split(":")` and zero-padded digits.
- `calendar.dfy` (`Calendar`): dates, `toordinal`, `weekday` and day names.
- `curriculum.dfy` (`Curriculum`): the curriculum, progress keys and the
  flattened subtopic list.
- `progress.dfy` (`Progress`): statistics and the unlock rule.
- `badges.dfy` (`Badges`): the badge evaluator.
- `schedule.dfy` (`Schedule`): the schedule generator.
- `session.dfy` (`Dashboard`): the session state as a class whose methods are
  the handlers that change it.

Dates are Python ordinals (`date.toordinal()`); today's date is a parameter.
Percentages are compared by integer cross-multiplication. A real-valued
`Percent()` is tied to them by a lemma.

Where the system's documented behaviour and its code differ, the model follows
the code:

- The chapter label is `chapter.split(":")[1]`. That is the text between the
  first and the second colon, not everything after the first colon
  (`Schedule.ChapterLabelStopsAtSecondColon`).
- Un-checking is offered on every unlocked box, including the first, so a later
  subtopic can stay completed while an earlier one is not
  (`Progress.UncheckingBreaksPrefix`).
- The 25-hour target is checked before each booking, so the total can pass it:
  nine 3-hour sessions book 27 hours (`Schedule.PlanCanPassTarget`).

## Model

| member | source | states |
|---|---|---|
| Text.StrLeTotal | study_dashboard.py:838 | any two strings are comparable under Python's string order |
| Text.StrLeTransitive | study_dashboard.py:838 | Python's string order is transitive |
| Text.StrLeAntisymmetric | study_dashboard.py:838 | two strings each ordered before the other are equal |
| Text.SplitParts | study_dashboard.py:862-863 | no part of `split(":")` holds a colon, and there is exactly one part when the text has no colon |
| Text.JoinSplit | study_dashboard.py:862-863 | joining the parts of `split(":")` with colons gives back the text |
| Text.SplitJoin | study_dashboard.py:862-863 | splitting colon-free parts joined with colons gives back the parts |
| Text.DigitsOrder | study_dashboard.py:860 | zero-padded numbers of one width compare as text exactly as they compare as numbers, and are equal exactly when the numbers are |
| Calendar.Weekday | study_dashboard.py:847 | the weekday of an ordinal lies in 0..6 |
| Calendar.OrdinalAnchor | study_dashboard.py:855 | 2024-01-01 has ordinal 738886, as `date.toordinal()` gives |
| Calendar.WeekdayAnchor | study_dashboard.py:847 | weekday 0 is a real Monday: 2024-01-01 has weekday 0 and is named "Monday" |
| Calendar.IsoText | study_dashboard.py:834 | a deadline is written as 10 characters of `YYYY-MM-DD` |
| Calendar.MonthDayOrder | study_dashboard.py:838 | the `-MM-DD` tails of two dates compare as text exactly as (month, day) pairs compare, and are equal exactly when month and day are |
| Calendar.IsoTextOrder | study_dashboard.py:838 | comparing two deadline texts as strings is comparing the dates chronologically |
| Calendar.OrdinalMonotone | study_dashboard.py:855 | one date is on or before another exactly when its ordinal is not larger |
| Calendar.OrdinalNextDay | study_dashboard.py:855-856 | the next calendar day, across month and year ends and leap days, has the next ordinal, so ordinal differences count days |
| Curriculum.FarFutureText | study_dashboard.py:834 | the default deadline prints as `9999-12-31`, the text the collector falls back to |
| Curriculum.KeyInjective | study_dashboard.py:608 | within one chapter, two subtopics share a progress key exactly when they are the same subtopic |
| Curriculum.KeysCollideAcrossChapters | study_dashboard.py:608 | an underscore in a name lets two different (module, chapter) pairs build the same key |
| Curriculum.TopicsLength | study_dashboard.py:409-411 | the flattened curriculum holds as many entries as the chapters' subtopic lists together |
| Curriculum.TopicsDone | study_dashboard.py:409-414 | every flattened entry is completed exactly when every listed subtopic's key maps to true |
| Progress.CountDone | study_dashboard.py:412-414 | the completed count never exceeds the number of entries |
| Progress.CalculateProgressStats | study_dashboard.py:401-418 | the nested loops compute the completed count, the total and the module count of the whole curriculum, and all zeros for an empty one |
| Progress.CountModule | study_dashboard.py:409-414 | the chapter loop of one module counts that module's subtopics and the completed ones among them |
| Progress.CountChapter | study_dashboard.py:410-414 | the subtopic loop of one chapter counts the completed subtopics of that chapter |
| Progress.StatsOfEmpty | study_dashboard.py:403-404 | an empty curriculum gives zeros and a 0 percentage |
| Progress.StatsBounds | study_dashboard.py:401-418 | the total is the number of listed subtopics, completed is at most the total, the module count is the number of modules and the percentage lies in [0, 100] |
| Progress.PercentRange | study_dashboard.py:416 | the percentage of a count not above the total lies in [0, 100] |
| Progress.CompletedIffAllDone | study_dashboard.py:409-414 | completed equals total exactly when every listed key maps to true; a missing key counts as not completed |
| Progress.FullPercentIffAllDone | study_dashboard.py:416 | the percentage is 100 exactly when something is listed and all of it is completed |
| Progress.PercentAtLeastAgrees | study_dashboard.py:698-702 | the integer threshold test agrees with comparing the real percentage to the threshold |
| Progress.UnlockReadsOnlyPredecessor | study_dashboard.py:611-612 | whether a box is unlocked depends only on the predecessor's key in the same chapter, nothing else in the map |
| Progress.UnlockedFrontier | study_dashboard.py:611-612 | when the first n subtopics are the completed ones, exactly the first n + 1 are unlocked |
| Progress.CompletingExtendsPrefix | study_dashboard.py:611-625 | in a chapter whose subtopic names are distinct (a repeated name would give two boxes one key), checking an unlocked, unchecked box when the completed subtopics form a prefix checks the next one and keeps a prefix |
| Progress.UncheckingBreaksPrefix | study_dashboard.py:611-634 | un-checking the first of two completed subtopics leaves completed subtopics that form no prefix |
| Progress.ChecklistUnlocks | study_dashboard.py:611-612 | in a chapter A, B, C only A is unlocked at first; after A is completed B unlocks and C stays locked |
| Progress.ChecklistStats | study_dashboard.py:401-418 | a one-module curriculum whose only chapter has three subtopics, the first different from the others and the only one completed, gives 1 completed of 3 in 1 module |
| Badges.AwardUpTo | study_dashboard.py:690-708 | the first n checks append, in order, exactly the badges among them whose threshold holds and that are not held |
| Badges.BadgesToAward | study_dashboard.py:690-708 | a badge is appended exactly when its threshold holds and it is not held; the names appended are new and in the fixed order |
| Badges.AwardIdempotent | study_dashboard.py:690-712 | after the append every earned badge is held, and a second run on the same statistics appends nothing |
| Badges.NothingNewWhenHeld | study_dashboard.py:690-708 | the checks append nothing when every earned badge is already held |
| Badges.AwardKeepsNamesDistinct | study_dashboard.py:690-712 | appending the new badges never duplicates a name |
| Badges.ModuleMasterNeverAwarded | study_dashboard.py:738-746 | Module Master, which only has an icon, is never appended, and at most six badges are |
| Badges.StudyHoursAlone | study_dashboard.py:707-708 | 50 study hours with nothing else earned award exactly Study Master |
| Schedule.PendingMembers | study_dashboard.py:824-835 | the collected list holds, as often as listed, exactly the subtopics whose key is not true |
| Schedule.PendingCount | study_dashboard.py:824-835 | every listed subtopic is either counted as completed or collected |
| Schedule.CollectPending | study_dashboard.py:824-835 | the collection loops gather the uncompleted subtopics in curriculum order |
| Schedule.CollectModule | study_dashboard.py:825-835 | the chapter loop gathers one module's uncompleted subtopics in order |
| Schedule.CollectChapter | study_dashboard.py:826-835 | the subtopic loop gathers one chapter's uncompleted subtopics in order |
| Schedule.SortPermutes | study_dashboard.py:838 | sorting keeps every entry, each as often |
| Schedule.SortSorted | study_dashboard.py:838 | the sorted list is in non-decreasing deadline text |
| Schedule.SortStable | study_dashboard.py:838 | entries with equal deadline keep their relative order |
| Schedule.SortChronological | study_dashboard.py:838 | the sorted list is in calendar order of deadlines |
| Schedule.RestrictedWeekday | study_dashboard.py:850 | the blackout test on day names is the test of weekday 1..4 with the start hour in [12, 20) |
| Schedule.StudyDayTests | study_dashboard.py:847-851 | a day is a study day exactly when its name is chosen and it is not in the blackout |
| Schedule.TimeTextInjective | study_dashboard.py:860 | the time text is five characters with a colon in the middle, and different start times give different texts |
| Schedule.LabelSegments | study_dashboard.py:862-863 | the module label is the text before the first colon; the chapter label is the text between the first colon and the next, or the whole name without a colon |
| Schedule.SubtopicLabelShape | study_dashboard.py:864 | names up to 50 characters are kept; longer ones become their first 50 characters and "..." |
| Schedule.LabelsOfColonName | study_dashboard.py:862-863 | a name `a:b` shows as `a` for a module and `b` for a chapter; a name without a colon is unchanged |
| Schedule.ChapterLabelStopsAtSecondColon | study_dashboard.py:863 | the chapter "Ch1:Intro:Part A" shows as "Intro" |
| Schedule.WalkStep | study_dashboard.py:846-869 | one day of the walk, booked or skipped by the name and blackout tests, keeps "bookings so far followed by the rest of the walk" equal to the whole walk |
| Schedule.AppendEntry | study_dashboard.py:857-867 | appending a booking's entry to the entries of the earlier bookings gives the entries of all of them |
| Schedule.BookSessions | study_dashboard.py:841-869 | the day-walk loop produces the entries of the bookings the walk makes |
| Schedule.StudyOffsetsExact | study_dashboard.py:846-851 | the study offsets are the flagged days of the window from `from` on, each once, increasing |
| Schedule.PlanLength | study_dashboard.py:846-854 | no more bookings than study days left or subtopics in the pool |
| Schedule.PlanEntries | study_dashboard.py:854 | the i-th booking gives the i-th pool subtopic to the i-th study day |
| Schedule.PlanHours | study_dashboard.py:846-868 | each booking is made while fewer than 25 hours are booked, and the walk stops early only once 25 are reached |
| Schedule.BookingDays | study_dashboard.py:841-851 | bookings fall on distinct study days between today and 14 days ahead, in increasing order |
| Schedule.PlanDays | study_dashboard.py:841-859 | at most 15 sessions, one per day in the window, each on a chosen weekday outside the blackout and showing that day's name |
| Schedule.PlanSessionHours | study_dashboard.py:852-868 | every session lasts min(daily hours, 3), and all sessions but the last were booked below 25 hours |
| Schedule.PlanTopics | study_dashboard.py:853-865 | the sessions take the first subtopics of the pool, in order, each once, and are urgent exactly when the deadline is at most 7 days after the session |
| Schedule.PoolProperties | study_dashboard.py:824-838 | the pool holds exactly the uncompleted subtopics, each as often as listed, in deadline order, stable among equal deadlines |
| Schedule.EveryDayStudied | study_dashboard.py:847-851 | with all seven days chosen and a start before noon every day is a study day |
| Schedule.PlanCanPassTarget | study_dashboard.py:846-868 | with every day chosen, 3-hour sessions and at least 15 subtopics, nine sessions and 27 hours are booked |
| Schedule.WeekdayShift | study_dashboard.py:847 | d days later the weekday has moved d places around the week |
| Schedule.MondaysFromWednesday | study_dashboard.py:847-851 | with Monday the only chosen day and today a Wednesday, the study days in the window are 5 and 12 days ahead |
| Schedule.PlanSkip | study_dashboard.py:846-851 | days that are not study days are passed over without booking |
| Schedule.MondayPlan | study_dashboard.py:846-854 | when only offsets 5 and 12 are study days, with 4 daily hours and two or more subtopics, the first two subtopics go to those two days |
| Schedule.MondayBookings | study_dashboard.py:846-854 | in that case, with 4 daily hours and two or more subtopics, the first two subtopics go to those two Mondays |
| Schedule.MondayOnlyExample | study_dashboard.py:841-868 | that Monday-only schedule has two 3-hour Monday sessions, 5 and 12 days ahead, for the first two subtopics |
| Dashboard.Session.constructor | study_dashboard.py:167-184 | a new session is signed out with empty progress, badges and schedule and zero hours and streak |
| Dashboard.Session.SignIn | study_dashboard.py:252-254 | signing in sets the user id, the email and the signed-in flag and changes nothing else |
| Dashboard.Session.SignOut | study_dashboard.py:277-286 | signing out clears the user, progress, badges, hours, streak and schedule and keeps the curriculum |
| Dashboard.Session.ResetProgress | study_dashboard.py:1011-1044 | a signed-in reset clears progress, hours, streak, badges and schedule, and the curriculum too once the store is cleared; signed out nothing changes |
| Dashboard.Session.LogStudySession | study_dashboard.py:1130-1135 | for a signed-in user one more hour, one more streak day and today as last study date |
| Dashboard.Session.CheckAndAwardBadges | study_dashboard.py:680-712 | for a signed-in user the held badges gain exactly the newly earned ones, in order, without duplicates; nothing else changes |
| Dashboard.Session.ToggleSubtopic | study_dashboard.py:620-634 | the change applies exactly when signed in, unlocked, different from the stored state and saved; completing adds 2 hours and awards badges, un-completing takes 2 hours off floored at 0 |
| Dashboard.Session.GenerateStudySchedule | study_dashboard.py:815-869 | the schedule is replaced by the one built from the uncompleted subtopics; the curriculum is loaded only when absent; progress, hours, streak and badges are unchanged |

The definitions the contracts above are stated over, and the lines each models:

- `Curriculum.Key` (study_dashboard.py:608, also 413 and 827): the progress key `module_chapter_subtopic`.
- `Curriculum.ChapterTopics` (study_dashboard.py:824-835): a chapter's entries, one per subtopic, with the chapter's deadline or 9999-12-31.
- `Progress.StatsOf` (study_dashboard.py:401-418): the statistics of a curriculum and a progress map.
- `Progress.IsUnlocked` (study_dashboard.py:611-612): the sequential unlock rule.
- `Badges.Earned` (study_dashboard.py:692-708): each badge's threshold.
- `Schedule.Pending` (study_dashboard.py:824-835): the uncompleted entries, in curriculum order.
- `Schedule.SortByDeadline` (study_dashboard.py:838): `list.sort` on the deadline text, as a stable insertion sort.
- `Schedule.StudyFlags` (study_dashboard.py:846-851): the study-day test of each of the fifteen days of the window.
- `Schedule.Plan` (study_dashboard.py:846-869): the bookings the day walk makes.
- `Schedule.SessionHours` (study_dashboard.py:852): `min(daily_hours, 3)`.
- `Schedule.MakeEntry` (study_dashboard.py:855-866) and `Schedule.Entries` (study_dashboard.py:857-867): a booking's schedule entry, and the entries of a list of bookings.
- `Schedule.ModuleLabel`, `Schedule.ChapterLabel`, `Schedule.SubtopicLabel` (study_dashboard.py:862-864): the labels shown in an entry.
- `Calendar.Ordinal` (study_dashboard.py:855): `date.toordinal()`.
- `Calendar.DayName` (study_dashboard.py:847): the `strftime("%A")` name of a weekday.
- `Curriculum.Done` (study_dashboard.py:413, also 611, 615 and 828): `progress.get(key, False)`.
- `Curriculum.Deadline` (study_dashboard.py:834): a chapter's deadline, or 9999-12-31 when it has none.
- `Text.StrLe` (study_dashboard.py:838): Python's `<=` on strings, the order the deadline sort uses.
- `Text.Split` (study_dashboard.py:862-863): `str.split(":")`.
- `Schedule.Restricted` (study_dashboard.py:850): the Tuesday-to-Friday blackout from 12:00 to 20:00.
- `Schedule.TimeText` (study_dashboard.py:860): the zero-padded `HH:MM` start time.
- `Progress.ProgressStats.Percent` and `Progress.ProgressStats.PercentAtLeast` (study_dashboard.py:416, also 698-702): the completion percentage, and `percentage >= p` decided on integers.
- `Schedule.PoolFor` (study_dashboard.py:824-838) and `Schedule.ScheduleFor` (study_dashboard.py:824-869): the sorted list of uncompleted subtopics, and the whole schedule generated from it.

## Left out

- Streamlit rendering, CSS, charts, the quote of the day, the checklist search
  filter and the completion messages: they are presentation only.
- Firebase authentication and the store. Account lookup, `sign_up` and
  `sync_user_data` (with its exhausted-iterator streak reset) are left out, and
  so are the `save_*` writes and the curriculum upload and download. A write's
  outcome enters as a boolean parameter (`saved` in `ToggleSubtopic`,
  `storeCleared` in `ResetProgress`).
- The storage-bucket helpers: they refer to a bucket that is never created.
- E-mail and push notifications and the balloons in the badge loop: they are
  foreign network calls.
- CSV parsing of the curriculum (pandas `read_csv` and `groupby`). The grouped
  curriculum is an input, and `GenerateStudySchedule` takes the loaded one as
  the `loaded` parameter. The loader sets no deadline, so every chapter gets the
  9999-12-31 default, but the model keeps an optional deadline per chapter.
- The `curriculum_file` session field: it only records the uploaded file.
- iCalendar and CSV export: they are library serialisation.
- The clock: `datetime.now()` enters as the `today` ordinal and
  `LogStudySession`'s `today` parameter.
- The `Date` and `Duration` fields of a schedule entry keep the ordinal and the
  whole number of hours rather than the `%Y-%m-%d` and `3h` texts.
- The `estimated_hours` field of a collected subtopic: nothing reads it.
- A chapter deadline that is not `YYYY-MM-DD` text: deadlines are calendar
  dates of four-digit years, so the parse at line 855 cannot fail here.
- The weekly gauge (`study_hours % 7`): it is only displayed.
- Progress.CalculateProgressStats: returns the counts and leaves out the
  floating-point percentage; `ProgressStats.Percent` gives it as an exact
  rational, and badge thresholds use integer cross-multiplication.
- Schedule.BookSessions: the day walk builds its entries in a local sequence that
  `GenerateStudySchedule` stores once, so appending to the session's list one
  entry at a time is not modelled.
