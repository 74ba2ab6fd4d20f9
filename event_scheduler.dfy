/** The event scheduler: two timer tables (notify at start, finalize at end)
    keyed by event ID, the two-hour look-ahead that decides which timers to
    install, and the finalize callback. */
module Scheduler {
  import opened Common
  import opened ObjectIds
  import opened Events
  import opened JobMaps
  import opened CalendarModel

  /** The scheduler's abstract state: both timer tables. */
  datatype Jobs = Jobs(notifier: map<string, Job>, finalize: map<string, Job>)

  function Key(e: Event): string
  {
    ToHexString(e.id)
  }

  /** `moment(t).diff(now, "hours")`: whole hours, truncated toward zero. */
  function DiffHours(t: Instant, now: Instant): (h: int)
    ensures t >= now ==> h >= 0 && h * MsPerHour <= t - now < (h + 1) * MsPerHour
    ensures t < now ==> h <= 0 && (h - 1) * MsPerHour < t - now <= h * MsPerHour
  {
    var d := t - now;
    if d >= 0 then d / MsPerHour else -((-d) / MsPerHour)
  }

  /** The look-ahead test of `scheduleEvent`. */
  predicate InWindow(t: Instant, now: Instant)
  {
    DiffHours(t, now) < 2
  }

  /** Because the hour count is truncated, the test admits exactly the
      instants less than two hours ahead, including every past instant. */
  lemma InWindowExact(t: Instant, now: Instant)
    ensures InWindow(t, now) <==> t - now < 2 * MsPerHour
  {
  }

  /** `scheduleNotifierJob`: a timer at the start, only if none is held. */
  function InstallNotifier(js: Jobs, guildId: string, e: Event): Jobs
  {
    if Key(e) in js.notifier then js
    else js.(notifier := js.notifier[Key(e) := Job(e.start, guildId, e)])
  }

  /** `scheduleDeleteJob`: a timer at the end, only if none is held. */
  function InstallFinalizer(js: Jobs, guildId: string, e: Event): Jobs
  {
    if Key(e) in js.finalize then js
    else js.(finalize := js.finalize[Key(e) := Job(e.end, guildId, e)])
  }

  /** `scheduleEvent`. */
  function Schedule(js: Jobs, guildId: string, e: Event, now: Instant): (r: Jobs)
    ensures Extends(r, js) && Covers(r, e, now)
  {
    var js1 := if InWindow(e.start, now) then InstallNotifier(js, guildId, e) else js;
    if InWindow(e.end, now) then InstallFinalizer(js1, guildId, e) else js1
  }

  /** `unscheduleEvent`. */
  function Unschedule(js: Jobs, id: ObjectId): (r: Jobs)
    ensures Extends(js, r)
    ensures forall k :: k in js.notifier && k != ToHexString(id) ==> k in r.notifier
    ensures forall k :: k in js.finalize && k != ToHexString(id) ==> k in r.finalize
  {
    Jobs(js.notifier - {ToHexString(id)}, js.finalize - {ToHexString(id)})
  }

  /** `rescheduleEvent`: unschedule, then schedule. */
  function Reschedule(js: Jobs, guildId: string, e: Event, now: Instant): (r: Jobs)
    ensures Covers(r, e, now)
    ensures forall k :: k != Key(e) ==> (k in r.notifier <==> k in js.notifier) && (k in r.finalize <==> k in js.finalize)
  {
    Schedule(Unschedule(js, e.id), guildId, e, now)
  }

  /** `scheduleUpcomingEvents`: `scheduleEvent` on each event in turn, with
      one shared "now". */
  function ScheduleAll(js: Jobs, guildId: string, es: seq<Event>, now: Instant): (r: Jobs)
    ensures Extends(r, js)
  {
    if es == [] then js
    else Schedule(ScheduleAll(js, guildId, es[..|es| - 1], now), guildId, es[|es| - 1], now)
  }

  /** Scheduling installs a notify timer exactly when the start is inside
      the window and a finalize timer exactly when the end is, never
      replaces a timer already held for the event (so there is never a
      second one), touches no other event's entries, and doing it again
      changes nothing. */
  lemma ScheduleSpec(js: Jobs, guildId: string, e: Event, now: Instant)
    ensures var r := Schedule(js, guildId, e, now);
      && (Key(e) in r.notifier <==> Key(e) in js.notifier || InWindow(e.start, now))
      && (Key(e) in r.finalize <==> Key(e) in js.finalize || InWindow(e.end, now))
      && (Key(e) in js.notifier ==> r.notifier[Key(e)] == js.notifier[Key(e)])
      && (Key(e) in js.finalize ==> r.finalize[Key(e)] == js.finalize[Key(e)])
      && (Key(e) !in js.notifier && InWindow(e.start, now) ==> r.notifier[Key(e)] == Job(e.start, guildId, e))
      && (Key(e) !in js.finalize && InWindow(e.end, now) ==> r.finalize[Key(e)] == Job(e.end, guildId, e))
      && r.notifier - {Key(e)} == js.notifier - {Key(e)}
      && r.finalize - {Key(e)} == js.finalize - {Key(e)}
      && Schedule(r, guildId, e, now) == r
  {
  }

  /** Unscheduling leaves neither table holding the ID, keeps every other
      entry, and is a no-op for an ID that has no timers. */
  lemma UnscheduleSpec(js: Jobs, id: ObjectId)
    ensures var r := Unschedule(js, id);
      && ToHexString(id) !in r.notifier && ToHexString(id) !in r.finalize
      && (forall k :: k in js.notifier && k != ToHexString(id) ==> k in r.notifier && r.notifier[k] == js.notifier[k])
      && (forall k :: k in js.finalize && k != ToHexString(id) ==> k in r.finalize && r.finalize[k] == js.finalize[k])
      && (ToHexString(id) !in js.notifier && ToHexString(id) !in js.finalize ==> r == js)
  {
    var r := Unschedule(js, id);
    if ToHexString(id) !in js.notifier && ToHexString(id) !in js.finalize {
      assert r.notifier == js.notifier;
      assert r.finalize == js.finalize;
    }
  }

  /** After rescheduling, the event holds a notify timer exactly when its
      current start is inside the window and a finalize timer exactly when
      its current end is, both built from the event as given; every other
      event's entries are as before. */
  lemma RescheduleSpec(js: Jobs, guildId: string, e: Event, now: Instant)
    ensures var r := Reschedule(js, guildId, e, now);
      && (Key(e) in r.notifier <==> InWindow(e.start, now))
      && (Key(e) in r.finalize <==> InWindow(e.end, now))
      && (Key(e) in r.notifier ==> r.notifier[Key(e)] == Job(e.start, guildId, e))
      && (Key(e) in r.finalize ==> r.finalize[Key(e)] == Job(e.end, guildId, e))
      && r.notifier - {Key(e)} == js.notifier - {Key(e)}
      && r.finalize - {Key(e)} == js.finalize - {Key(e)}
  {
    var u := Unschedule(js, e.id);
    ScheduleSpec(u, guildId, e, now);
    assert u.notifier - {Key(e)} == js.notifier - {Key(e)};
    assert u.finalize - {Key(e)} == js.finalize - {Key(e)};
  }

  /** Every timer the table should hold for `e` is there. */
  ghost predicate Covers(js: Jobs, e: Event, now: Instant)
  {
    (InWindow(e.start, now) ==> Key(e) in js.notifier) && (InWindow(e.end, now) ==> Key(e) in js.finalize)
  }

  /** Scheduling only adds entries: what a table holds, it keeps. */
  ghost predicate Extends(big: Jobs, small: Jobs)
  {
    && (forall k :: k in small.notifier ==> k in big.notifier && big.notifier[k] == small.notifier[k])
    && (forall k :: k in small.finalize ==> k in big.finalize && big.finalize[k] == small.finalize[k])
  }

  /** A full pass keeps every timer already installed and covers every event
      of the list. */
  lemma {:induction false} ScheduleAllCovers(js: Jobs, guildId: string, es: seq<Event>, now: Instant)
    ensures var r := ScheduleAll(js, guildId, es, now);
      Extends(r, js) && forall i :: 0 <= i < |es| ==> Covers(r, es[i], now)
  {
    if es != [] {
      var prefix, last := es[..|es| - 1], es[|es| - 1];
      var mid := ScheduleAll(js, guildId, prefix, now);
      ScheduleAllCovers(js, guildId, prefix, now);
      ScheduleSpec(mid, guildId, last, now);
      var r := Schedule(mid, guildId, last, now);
      forall i | 0 <= i < |es|
        ensures Covers(r, es[i], now)
      {
        if i < |es| - 1 {
          assert es[i] == prefix[i];
        }
      }
    }
  }

  /** A pass over a table that already covers every event changes nothing. */
  lemma {:induction false} ScheduleAllCovered(js: Jobs, guildId: string, es: seq<Event>, now: Instant)
    requires forall i :: 0 <= i < |es| ==> Covers(js, es[i], now)
    ensures ScheduleAll(js, guildId, es, now) == js
  {
    if es != [] {
      var prefix, last := es[..|es| - 1], es[|es| - 1];
      assert forall i :: 0 <= i < |prefix| ==> prefix[i] == es[i];
      ScheduleAllCovered(js, guildId, prefix, now);
      assert Covers(js, last, now);
    }
  }

  /** Reconciliation is idempotent: a second pass over an unchanged
      calendar, with the same "now", installs nothing more. */
  lemma ScheduleAllIdempotent(js: Jobs, guildId: string, es: seq<Event>, now: Instant)
    ensures ScheduleAll(ScheduleAll(js, guildId, es, now), guildId, es, now) == ScheduleAll(js, guildId, es, now)
  {
    ScheduleAllCovers(js, guildId, es, now);
    ScheduleAllCovered(ScheduleAll(js, guildId, es, now), guildId, es, now);
  }

  // ---------------------------------------------------------------------
  // The finalize callback

  /** What one firing of a finalize timer leaves behind: whether the guild
      lock is still held, the reloaded calendar's events, and the tables. */
  datatype Firing = Firing(lockHeld: bool, events: Option<seq<Event>>, jobs: Jobs)

  /** The callback of `scheduleDeleteJob` as written. The lock is taken
      first; a missing calendar or event throws, the error is logged, and
      the lock is left held; a repeating event is rescheduled with the event
      the timer captured, not with its next occurrence. */
  function FireAsWritten(js: Jobs, loaded: Option<seq<Event>>, job: Job, now: Instant): (r: Firing)
    ensures r.lockHeld <==> loaded.None? || FinalizeEvents(loaded.value, ToHexString(job.event.id)).Err?
    ensures r.lockHeld ==> r.events == loaded && r.jobs == js
  {
    if loaded.None? then Firing(true, None, js)
    else
      var f := FinalizeEvents(loaded.value, ToHexString(job.event.id));
      if f.Err? then Firing(true, loaded, js)
      else if f.value.advanced.None? then Firing(false, Some(f.value.events), js)
      else Firing(false, Some(f.value.events), Reschedule(js, job.guildId, job.event, now))
  }

  /** The callback as evidently intended: the lock is released on every
      path, and a repeating event is rescheduled at its next occurrence. */
  function FireCorrected(js: Jobs, loaded: Option<seq<Event>>, job: Job, now: Instant): (r: Firing)
    ensures !r.lockHeld
    ensures r.events.None? <==> loaded.None?
  {
    if loaded.None? then Firing(false, None, js)
    else
      var f := FinalizeEvents(loaded.value, ToHexString(job.event.id));
      if f.Err? then Firing(false, loaded, js)
      else if f.value.advanced.None? then Firing(false, Some(f.value.events), js)
      else Firing(false, Some(f.value.events), Reschedule(js, job.guildId, f.value.advanced.value, now))
  }

  /** The callback as written reschedules only when the event repeated: a
      deleted event's tables are left as they were, and a failed firing
      changes neither the calendar nor the tables. */
  lemma FireAsWrittenSpec(js: Jobs, loaded: seq<Event>, job: Job, now: Instant)
    ensures var f := FireAsWritten(js, Some(loaded), job, now);
      var fin := FinalizeEvents(loaded, ToHexString(job.event.id));
      && (fin.Err? ==> f == Firing(true, Some(loaded), js))
      && (fin.Ok? ==> !f.lockHeld && f.events == Some(fin.value.events))
      && (fin.Ok? && fin.value.advanced.None? ==> f.jobs == js)
      && (fin.Ok? && fin.value.advanced.Some? ==> f.jobs == Reschedule(js, job.guildId, job.event, now))
  {
  }

  /** The corrected callback never leaves the lock held, and after a
      repeating event advances, its timers match the two-hour window of its
      next occurrence exactly. */
  lemma FireCorrectedSpec(js: Jobs, loaded: Option<seq<Event>>, job: Job, now: Instant)
    ensures var f := FireCorrected(js, loaded, job, now);
      && !f.lockHeld
      && (loaded.Some? && f.events.Some? && FinalizeEvents(loaded.value, ToHexString(job.event.id)).Ok? ==>
            var adv := FinalizeEvents(loaded.value, ToHexString(job.event.id)).value.advanced;
            adv.Some? ==>
              && (Key(adv.value) in f.jobs.notifier <==> InWindow(adv.value.start, now))
              && (Key(adv.value) in f.jobs.finalize <==> InWindow(adv.value.end, now))
              && (Key(adv.value) in f.jobs.notifier ==> f.jobs.notifier[Key(adv.value)].event == adv.value))
  {
    if loaded.Some? {
      var fin := FinalizeEvents(loaded.value, ToHexString(job.event.id));
      if fin.Ok? && fin.value.advanced.Some? {
        RescheduleSpec(js, job.guildId, fin.value.advanced.value, now);
      }
    }
  }

  // A daily one-hour event whose finalize timer fires at its end.
  const Standup: Event := Event(ObjectId([1]), "standup", 0, MsPerHour, None, Some(Daily))
  const StandupJob: Job := Job(MsPerHour, "guild", Standup)
  const NextStandup: Event := Standup.(start := MsPerDay, end := MsPerDay + MsPerHour)
  const Armed: Jobs := Jobs(map[], map[Key(Standup) := StandupJob])

  /** As written: after the daily event advances, its notify entry is a
      timer for the old start, already past, and the next reconciliation
      pass (half an hour before the next occurrence) keeps that entry, so
      the next occurrence gets no notify timer of its own. */
  lemma StaleRescheduleWitness()
    ensures var f := FireAsWritten(Armed, Some([Standup]), StandupJob, MsPerHour);
      && f.events == Some([NextStandup])
      && f.jobs.notifier == map[Key(Standup) := Job(0, "guild", Standup)]
      && ScheduleAll(f.jobs, "guild", [NextStandup], MsPerDay - 30 * MsPerMinute).notifier
         == map[Key(Standup) := Job(0, "guild", Standup)]
  {
    StaleFiring();
    PassKeepsHeldTimer(Stale);
  }

  /** Corrected: the same firing leaves no timer for the event (its next
      occurrence is a day away), and the reconciliation pass half an hour
      before it arms the notify timer for the next start. */
  lemma CorrectedRescheduleWitness()
    ensures var f := FireCorrected(Armed, Some([Standup]), StandupJob, MsPerHour);
      && f.events == Some([NextStandup])
      && f.jobs == Jobs(map[], map[])
      && ScheduleAll(f.jobs, "guild", [NextStandup], MsPerDay - 30 * MsPerMinute).notifier
         == map[Key(Standup) := Job(MsPerDay, "guild", NextStandup)]
  {
    CorrectedFiring();
    PassArmsNextStart();
  }

  /** The maps the callback as written leaves behind: the finalize timer it
      fired, and a notify timer for the start that has already passed. */
  const Stale: Jobs := Jobs(map[Key(Standup) := Job(0, "guild", Standup)], map[Key(Standup) := StandupJob])

  /** Finalizing the daily standup at its end moves it one day on. */
  lemma StandupFinalized()
    ensures FinalizeEvents([Standup], Key(Standup)) == Ok(Finalized([NextStandup], Some(NextStandup)))
  {
    assert IndexOfHex([Standup], Key(Standup)) == 0;
    assert Advance(Standup) == NextStandup;
    assert InsertSorted([], NextStandup) == [NextStandup];
  }

  lemma StaleFiring()
    ensures FireAsWritten(Armed, Some([Standup]), StandupJob, MsPerHour) == Firing(false, Some([NextStandup]), Stale)
  {
    StandupFinalized();
    InWindowExact(0, MsPerHour);
    InWindowExact(MsPerHour, MsPerHour);
    assert Unschedule(Armed, Standup.id) == Jobs(map[], map[]);
  }

  lemma CorrectedFiring()
    ensures FireCorrected(Armed, Some([Standup]), StandupJob, MsPerHour) == Firing(false, Some([NextStandup]), Jobs(map[], map[]))
  {
    StandupFinalized();
    assert NextStandup.id == Standup.id;
    InWindowExact(MsPerDay, MsPerHour);
    InWindowExact(MsPerDay + MsPerHour, MsPerHour);
    assert Unschedule(Armed, NextStandup.id) == Jobs(map[], map[]);
  }

  /** A pass over the advanced event keeps whatever notify timer the event
      already holds. */
  lemma PassKeepsHeldTimer(js: Jobs)
    requires Key(Standup) in js.notifier
    ensures ScheduleAll(js, "guild", [NextStandup], MsPerDay - 30 * MsPerMinute).notifier == js.notifier
  {
    var later := MsPerDay - 30 * MsPerMinute;
    assert [NextStandup][..0] == [];
    assert NextStandup.id == Standup.id;
    assert ScheduleAll(js, "guild", [NextStandup], later) == Schedule(js, "guild", NextStandup, later);
  }

  /** With no timers held, the pass half an hour before the next start arms
      the notify timer for it. */
  lemma PassArmsNextStart()
    ensures ScheduleAll(Jobs(map[], map[]), "guild", [NextStandup], MsPerDay - 30 * MsPerMinute).notifier
         == map[Key(Standup) := Job(MsPerDay, "guild", NextStandup)]
  {
    var later := MsPerDay - 30 * MsPerMinute;
    assert [NextStandup][..0] == [];
    assert NextStandup.id == Standup.id;
    InWindowExact(MsPerDay, later);
    assert ScheduleAll(Jobs(map[], map[]), "guild", [NextStandup], later) == Schedule(Jobs(map[], map[]), "guild", NextStandup, later);
  }

  /** As written, a firing whose calendar cannot be loaded leaves the guild
      lock held; the corrected callback releases it. */
  lemma LockLeftHeldWitness()
    ensures FireAsWritten(Armed, None, StandupJob, MsPerHour).lockHeld
    ensures !FireCorrected(Armed, None, StandupJob, MsPerHour).lockHeld
  {
  }

  /** The guild lock, reduced to whether a lease is held. Acquiring retries
      without limit and leases expire, so acquisition always succeeds in the
      end. */
  class GuildLock {
    var held: bool

    constructor()
      ensures !held
    {
      held := false;
    }

    method Acquire()
      modifies this
      ensures held
    {
      held := true;
    }

    method Release()
      modifies this
      ensures !held
    {
      held := false;
    }
  }

  class EventScheduler {
    const notifierJobs: JobMap
    const deleteJobs: JobMap

    ghost predicate Valid()
      reads this
    {
      notifierJobs != deleteJobs
    }

    function State(): Jobs
      reads this, notifierJobs, deleteJobs
    {
      Jobs(notifierJobs.jobs, deleteJobs.jobs)
    }

    constructor()
      ensures Valid() && fresh(notifierJobs) && fresh(deleteJobs)
      ensures State() == Jobs(map[], map[])
    {
      notifierJobs := new JobMap();
      deleteJobs := new JobMap();
    }

    method ScheduleUpcomingEvents(calendar: Calendar, now: Instant)
      requires Valid()
      modifies notifierJobs, deleteJobs
      ensures State() == ScheduleAll(old(State()), calendar.id, calendar.events, now)
    {
      var i := 0;
      while i < |calendar.events|
        invariant 0 <= i <= |calendar.events|
        invariant State() == ScheduleAll(old(State()), calendar.id, calendar.events[..i], now)
      {
        ScheduleEvent(calendar, calendar.events[i], now);
        assert calendar.events[..i + 1][..i] == calendar.events[..i];
        i := i + 1;
      }
      assert calendar.events[..i] == calendar.events;
    }

    method ScheduleEvent(calendar: Calendar, event: Event, now: Instant)
      requires Valid()
      modifies notifierJobs, deleteJobs
      ensures State() == Schedule(old(State()), calendar.id, event, now)
    {
      if DiffHours(event.start, now) < 2 {
        ScheduleNotifierJob(calendar, event);
      }
      if DiffHours(event.end, now) < 2 {
        ScheduleDeleteJob(calendar.id, event);
      }
    }

    method UnscheduleEvent(event: Event)
      requires Valid()
      modifies notifierJobs, deleteJobs
      ensures State() == Unschedule(old(State()), event.id)
    {
      UnscheduleNotifierJob(event);
      UnscheduleDeleteJob(event);
    }

    method RescheduleEvent(calendar: Calendar, event: Event, now: Instant)
      requires Valid()
      modifies notifierJobs, deleteJobs
      ensures State() == Reschedule(old(State()), calendar.id, event, now)
    {
      UnscheduleEvent(event);
      ScheduleEvent(calendar, event, now);
    }

    /** The notify timer's callback posts to the calendar's default channel;
        sending messages is not modelled, the handle records its target. */
    method ScheduleNotifierJob(calendar: Calendar, event: Event)
      requires Valid()
      modifies notifierJobs
      ensures State() == InstallNotifier(old(State()), calendar.id, event)
    {
      var existing := notifierJobs.Get(event.id);
      if existing.None? {
        var job := Job(event.start, calendar.id, event);
        var _ := notifierJobs.Set(event.id, job);
      }
    }

    method ScheduleDeleteJob(guildId: string, event: Event)
      requires Valid()
      modifies deleteJobs
      ensures State() == InstallFinalizer(old(State()), guildId, event)
    {
      var existing := deleteJobs.Get(event.id);
      if existing.None? {
        var job := Job(event.end, guildId, event);
        var _ := deleteJobs.Set(event.id, job);
      }
    }

    method UnscheduleNotifierJob(event: Event)
      requires Valid()
      modifies notifierJobs
      ensures State() == old(State()).(notifier := old(State()).notifier - {Key(event)})
    {
      var job := notifierJobs.Get(event.id);
      if job.Some? {
        var _ := notifierJobs.Delete(event.id);
      }
    }

    method UnscheduleDeleteJob(event: Event)
      requires Valid()
      modifies deleteJobs
      ensures State() == old(State()).(finalize := old(State()).finalize - {Key(event)})
    {
      var job := deleteJobs.Get(event.id);
      if job.Some? {
        var _ := deleteJobs.Delete(event.id);
      }
    }

    /** The finalize timer's callback as written, acting on the calendar
        reloaded by guild ID (null when the store has none). */
    method RunDeleteJob(job: Job, lock: GuildLock, loaded: Calendar?, now: Instant)
      requires Valid()
      requires loaded != null ==> loaded.id == job.guildId
      modifies notifierJobs, deleteJobs, lock, loaded
      ensures var f := FireAsWritten(old(State()), if loaded == null then None else Some(old(loaded.events)), job, now);
        && lock.held == f.lockHeld && State() == f.jobs
        && (loaded != null ==> f.events == Some(loaded.events))
      ensures loaded != null ==> unchanged(loaded`permissions, loaded`prefix, loaded`defaultChannel, loaded`timezone)
    {
      lock.Acquire();
      if loaded == null {
        return;
      }
      var repeatEvent := loaded.ScheduledDeleteEvent(ToHexString(job.event.id));
      if repeatEvent.Err? {
        return;
      }
      if repeatEvent.value.Some? {
        RescheduleEvent(loaded, job.event, now);
      }
      lock.Release();
    }

    /** The finalize callback as evidently intended. */
    method RunDeleteJobCorrected(job: Job, lock: GuildLock, loaded: Calendar?, now: Instant)
      requires Valid()
      requires loaded != null ==> loaded.id == job.guildId
      modifies notifierJobs, deleteJobs, lock, loaded
      ensures var f := FireCorrected(old(State()), if loaded == null then None else Some(old(loaded.events)), job, now);
        && lock.held == f.lockHeld && State() == f.jobs
        && (loaded != null ==> f.events == Some(loaded.events))
      ensures loaded != null ==> unchanged(loaded`permissions, loaded`prefix, loaded`defaultChannel, loaded`timezone)
    {
      lock.Acquire();
      if loaded != null {
        var repeatEvent := loaded.ScheduledDeleteEvent(ToHexString(job.event.id));
        if repeatEvent.Ok? && repeatEvent.value.Some? {
          RescheduleEvent(loaded, repeatEvent.value.value, now);
        }
      }
      lock.Release();
    }
  }
}
