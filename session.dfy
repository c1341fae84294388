/** The dashboard's session state and the handlers that change it: signing in and
    out, logging a study session, resetting progress, ticking a checklist box,
    awarding badges and generating the study schedule. */
module Dashboard {
  import opened Curriculum
  import opened Progress
  import opened Badges
  import opened Schedule

  /** The fields of `st.session_state` the progress engine reads and writes. An
      absent curriculum is the empty sequence. */
  class Session {
    var authenticated: bool
    var userId: Option<string>
    var userEmail: string
    var curriculum: seq<Module>
    var progress: map<string, bool>
    var studyHours: int
    var streak: int
    var badges: seq<string>
    var lastStudyDate: Option<int>
    var schedule: seq<ScheduleEntry>

    /** Hours and streak never go negative and no badge is held twice. */
    ghost predicate Valid()
      reads this
    {
      studyHours >= 0 && streak >= 0 && NoDuplicates(badges)
    }

    /** The state a fresh session starts in. */
    constructor ()
      ensures Valid()
      ensures !authenticated && userId == None && userEmail == ""
      ensures curriculum == [] && progress == map[] && studyHours == 0 && streak == 0
      ensures badges == [] && lastStudyDate == None && schedule == []
    {
      authenticated := false;
      userId := None;
      userEmail := "";
      curriculum := [];
      progress := map[];
      studyHours := 0;
      streak := 0;
      badges := [];
      lastStudyDate := None;
      schedule := [];
    }

    /** The session part of a successful sign-in; the account lookup and the
        download of stored progress are not part of this model. */
    method SignIn(uid: string, email: string)
      requires Valid()
      modifies this
      ensures Valid()
      ensures authenticated && userId == Some(uid) && userEmail == email
      ensures curriculum == old(curriculum) && progress == old(progress)
      ensures studyHours == old(studyHours) && streak == old(streak) && badges == old(badges)
      ensures lastStudyDate == old(lastStudyDate) && schedule == old(schedule)
    {
      userId := Some(uid);
      userEmail := email;
      authenticated := true;
    }

    /** Signing out forgets the user and everything tied to them, but keeps the
        loaded curriculum and the last study date. */
    method SignOut()
      modifies this
      ensures Valid()
      ensures !authenticated && userId == None && userEmail == ""
      ensures progress == map[] && badges == [] && studyHours == 0 && streak == 0 && schedule == []
      ensures curriculum == old(curriculum) && lastStudyDate == old(lastStudyDate)
    {
      userId := None;
      userEmail := "";
      authenticated := false;
      progress := map[];
      badges := [];
      studyHours := 0;
      streak := 0;
      schedule := [];
    }

    /** Clears progress, hours, streak, badges and schedule of a signed-in user; a
        signed-out session is left as it is. `storeCleared` is whether the deletion
        of the user's stored records succeeded; only then is the loaded curriculum
        dropped as well. */
    method ResetProgress(storeCleared: bool)
      requires Valid()
      modifies this
      ensures Valid()
      ensures !old(authenticated) ==>
                progress == old(progress) && studyHours == old(studyHours) && streak == old(streak)
                && badges == old(badges) && schedule == old(schedule) && curriculum == old(curriculum)
      ensures old(authenticated) ==>
                progress == map[] && studyHours == 0 && streak == 0 && badges == [] && schedule == []
                && curriculum == (if storeCleared then [] else old(curriculum))
      ensures authenticated == old(authenticated) && userId == old(userId) && userEmail == old(userEmail)
      ensures lastStudyDate == old(lastStudyDate)
    {
      if !authenticated {
        return;
      }
      progress := map[];
      studyHours := 0;
      streak := 0;
      badges := [];
      schedule := [];
      if storeCleared {
        curriculum := [];
      }
    }

    /** The "Log Study Session" button, shown only to a signed-in user: one more
        hour, one more streak day, and today as the last study date. */
    method LogStudySession(today: int)
      requires Valid()
      modifies this
      ensures Valid()
      ensures old(authenticated) ==>
                studyHours == old(studyHours) + 1 && streak == old(streak) + 1 && lastStudyDate == Some(today)
      ensures !old(authenticated) ==>
                studyHours == old(studyHours) && streak == old(streak) && lastStudyDate == old(lastStudyDate)
      ensures authenticated == old(authenticated) && userId == old(userId) && userEmail == old(userEmail)
      ensures curriculum == old(curriculum) && progress == old(progress)
      ensures badges == old(badges) && schedule == old(schedule)
    {
      if authenticated {
        studyHours := studyHours + 1;
        streak := streak + 1;
        lastStudyDate := Some(today);
      }
    }

    /** `check_and_award_badges`: for a signed-in user, appends, in the fixed order,
        every badge whose threshold the current statistics, streak and hours meet
        and that is not already held. Badges are never removed. */
    method CheckAndAwardBadges()
      requires Valid()
      modifies this
      ensures Valid()
      ensures badges == old(badges)
                + if old(authenticated) then BadgesToAward(StatsOf(progress, curriculum), streak, studyHours, old(badges)) else []
      ensures authenticated == old(authenticated) && userId == old(userId) && userEmail == old(userEmail)
      ensures curriculum == old(curriculum) && progress == old(progress) && studyHours == old(studyHours)
      ensures streak == old(streak) && lastStudyDate == old(lastStudyDate) && schedule == old(schedule)
    {
      if !authenticated {
        return;
      }
      var stats := CalculateProgressStats(progress, curriculum);
      var toAward := BadgesToAward(stats, streak, studyHours, badges);
      AwardKeepsNamesDistinct(stats, streak, studyHours, badges);
      ghost var held := badges;
      for i := 0 to |toAward|
        invariant badges == held + toAward[..i]
        invariant authenticated && userId == old(userId) && userEmail == old(userEmail)
        invariant curriculum == old(curriculum) && progress == old(progress) && studyHours == old(studyHours)
        invariant streak == old(streak) && lastStudyDate == old(lastStudyDate) && schedule == old(schedule)
      {
        badges := badges + [toAward[i]];
        assert toAward[..i + 1] == toAward[..i] + [toAward[i]];
      }
      assert toAward[..|toAward|] == toAward;
    }

    /** The checkbox of subtopic `si` of chapter `ci` of module `mi` is set to
        `newValue`, and `saved` is what the store reported for that write. The box
        exists only for a signed-in user and an unlocked subtopic; the change takes
        effect only when it differs from the stored state and the write succeeded.
        Completing adds 2 hours and runs the badge check; un-completing takes 2
        hours off, never going below 0. */
    method ToggleSubtopic(mi: nat, ci: nat, si: nat, newValue: bool, saved: bool) returns (applied: bool)
      requires Valid()
      requires mi < |curriculum| && ci < |curriculum[mi].chapters| && si < |curriculum[mi].chapters[ci].subtopics|
      modifies this
      ensures Valid()
      ensures var m := old(curriculum[mi]);
              var ch := m.chapters[ci];
              var key := Key(m.name, ch.name, ch.subtopics[si]);
              && (applied <==> old(authenticated) && IsUnlocked(old(progress), m.name, ch, si)
                               && newValue != Done(old(progress), key) && saved)
              && progress == (if applied then old(progress)[key := newValue] else old(progress))
      ensures !applied ==> studyHours == old(studyHours) && badges == old(badges)
      ensures applied && newValue ==>
                studyHours == old(studyHours) + 2
                && badges == old(badges) + BadgesToAward(StatsOf(progress, curriculum), streak, studyHours, old(badges))
      ensures applied && !newValue ==>
                studyHours == (if old(studyHours) >= 2 then old(studyHours) - 2 else 0) && badges == old(badges)
      ensures authenticated == old(authenticated) && userId == old(userId) && userEmail == old(userEmail)
      ensures curriculum == old(curriculum) && streak == old(streak)
      ensures lastStudyDate == old(lastStudyDate) && schedule == old(schedule)
    {
      applied := false;
      if !authenticated {
        return;
      }
      var m := curriculum[mi];
      var ch := m.chapters[ci];
      var key := Key(m.name, ch.name, ch.subtopics[si]);
      var isUnlocked := si == 0 || Done(progress, Key(m.name, ch.name, ch.subtopics[si - 1]));
      var isCompleted := Done(progress, key);
      if isUnlocked && newValue != isCompleted && saved {
        applied := true;
        progress := progress[key := newValue];
        if newValue {
          studyHours := studyHours + 2;
          CheckAndAwardBadges();
        } else {
          studyHours := if studyHours - 2 > 0 then studyHours - 2 else 0;
        }
      }
    }

    /** `generate_study_schedule`: loads the curriculum when none is present, then
        replaces the schedule with one session per allowed day over the next fifteen
        days, handing out the uncompleted subtopics in deadline order until they run
        out or 25 hours are booked. */
    method GenerateStudySchedule(req: ScheduleRequest, loaded: seq<Module>)
      requires Valid() && req.Valid()
      modifies this
      ensures Valid()
      ensures curriculum == if old(curriculum) == [] then loaded else old(curriculum)
      ensures schedule == ScheduleFor(req, progress, curriculum)
      ensures authenticated == old(authenticated) && userId == old(userId) && userEmail == old(userEmail)
      ensures progress == old(progress) && studyHours == old(studyHours) && streak == old(streak)
      ensures badges == old(badges) && lastStudyDate == old(lastStudyDate)
    {
      schedule := [];
      if curriculum == [] {
        curriculum := loaded;
      }
      var pending := CollectPending(progress, curriculum);
      var pool := SortByDeadline(pending);
      schedule := BookSessions(req, pool);
    }
  }
}
