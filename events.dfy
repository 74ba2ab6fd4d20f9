/** Events of a calendar and the pure specifications of how the calendar's
    event list changes: sorted insertion, removal, the partial update that
    `updateEvent` applies, the recurrence step, and the finalize step. */
module Events {
  import opened Common
  import opened ObjectIds
  import CivilTime

  /** The repeat values the command layer admits: "d", "w" and "m". */
  datatype RepeatMode = Daily | Weekly | Monthly

  datatype Event = Event(
    id: ObjectId,
    name: string,
    start: Instant,
    end: Instant,
    description: Option<string>,
    repeat: Option<RepeatMode>)

  /** The fields `addEvent` copies into a new event document. */
  datatype EventFields = EventFields(
    name: string,
    start: Instant,
    end: Instant,
    description: Option<string>,
    repeat: Option<RepeatMode>)

  /** A parsed update: every field may be missing; repeat may be "off". */
  datatype DraftRepeat = Off | Every(mode: RepeatMode)

  datatype EventDraft = EventDraft(
    name: Option<string>,
    start: Option<Instant>,
    end: Option<Instant>,
    description: Option<string>,
    repeat: Option<DraftRepeat>)

  /** JavaScript truthiness of an optional string: null and "" are falsy. */
  predicate Truthy(s: Option<string>)
  {
    s.Some? && s.value != ""
  }

  /** The event document `addEvent` builds from the command's fields. */
  function MakeEvent(id: ObjectId, f: EventFields): Event
  {
    Event(id, f.name, f.start, f.end, f.description, f.repeat)
  }

  /** The field merge of `updateEvent`: a missing (or empty) draft field keeps
      the event's value, "off" clears the repeat mode. */
  function ApplyDraft(existing: Event, draft: EventDraft): (r: Event)
    ensures r.id == existing.id
    ensures r.name == (if Truthy(draft.name) then draft.name.value else existing.name)
    ensures r.start == (if draft.start.Some? then draft.start.value else existing.start)
    ensures r.end == (if draft.end.Some? then draft.end.value else existing.end)
    ensures r.description == (if Truthy(draft.description) then draft.description else existing.description)
    ensures draft.repeat == Some(Off) ==> r.repeat == None
    ensures draft.repeat.None? ==> r.repeat == existing.repeat
    ensures (draft.repeat.Some? && draft.repeat.value.Every?) ==> r.repeat == Some(draft.repeat.value.mode)
  {
    var name := if Truthy(draft.name) then draft.name.value else existing.name;
    var start := if draft.start.Some? then draft.start.value else existing.start;
    var end := if draft.end.Some? then draft.end.value else existing.end;
    var description := if Truthy(draft.description) then draft.description else existing.description;
    var repeat :=
      match draft.repeat
      case Some(Off) => None
      case Some(Every(mode)) => Some(mode)
      case None => existing.repeat;
    Event(existing.id, name, start, end, description, repeat)
  }

  /** An update with nothing in it changes nothing, and applying the same
      update twice is the same as applying it once. */
  lemma ApplyDraftLaws(e: Event, draft: EventDraft)
    ensures ApplyDraft(e, EventDraft(None, None, None, None, None)) == e
    ensures ApplyDraft(ApplyDraft(e, draft), draft) == ApplyDraft(e, draft)
  {
  }

  // ---------------------------------------------------------------------
  // Order by start instant

  ghost predicate Sorted(s: seq<Event>)
  {
    forall i, j :: 0 <= i < j < |s| ==> s[i].start <= s[j].start
  }

  /** The index the insertion scan stops at: the first event whose start is
      the same as or later than `t`, or the end of the list. */
  function InsertionPoint(s: seq<Event>, t: Instant): (k: nat)
    ensures k <= |s|
    ensures forall j :: 0 <= j < k ==> s[j].start < t
    ensures k < |s| ==> s[k].start >= t
  {
    if s == [] then 0
    else if s[0].start >= t then 0
    else 1 + InsertionPoint(s[1..], t)
  }

  function InsertAt(s: seq<Event>, k: nat, e: Event): (r: seq<Event>)
    requires k <= |s|
    ensures |r| == |s| + 1 && r[k] == e
    ensures forall j :: 0 <= j < k ==> r[j] == s[j]
    ensures forall j :: k < j < |r| ==> r[j] == s[j - 1]
    ensures r[..k] + r[k + 1..] == s
    ensures multiset(r) == multiset(s) + multiset{e}
  {
    assert s == s[..k] + s[k..];
    var r := s[..k] + [e] + s[k..];
    assert r[..k] == s[..k] && r[k + 1..] == s[k..];
    r
  }

  /** `e` inserted before the first event that starts no earlier than it. */
  function InsertSorted(s: seq<Event>, e: Event): seq<Event>
  {
    InsertAt(s, InsertionPoint(s, e.start), e)
  }

  /** Inserting into a sorted list keeps it sorted, puts the new event after
      every earlier-starting event and before every other one (so ahead of
      events with an equal start), grows the list by one and keeps the
      relative order of the events already there. */
  lemma InsertSortedSpec(s: seq<Event>, e: Event)
    requires Sorted(s)
    ensures var r, k := InsertSorted(s, e), InsertionPoint(s, e.start);
      && Sorted(r)
      && |r| == |s| + 1 && r[k] == e
      && (forall j :: 0 <= j < k ==> r[j].start < e.start)
      && (forall j :: k < j < |r| ==> e.start <= r[j].start)
      && r[..k] + r[k + 1..] == s
      && multiset(r) == multiset(s) + multiset{e}
  {
    InsertAtSorted(s, InsertionPoint(s, e.start), e);
  }

  /** Inserting at a point with only earlier starts before it and a start no
      earlier after it keeps a sorted list sorted. */
  lemma InsertAtSorted(s: seq<Event>, k: nat, e: Event)
    requires Sorted(s) && k <= |s|
    requires forall j :: 0 <= j < k ==> s[j].start < e.start
    requires k < |s| ==> s[k].start >= e.start
    ensures var r := InsertAt(s, k, e);
      Sorted(r) && forall j :: k < j < |r| ==> e.start <= r[j].start
  {
    var r := InsertAt(s, k, e);
    forall j | k < j < |r|
      ensures e.start <= r[j].start
    {
      assert r[j] == s[j - 1] && s[k].start <= s[j - 1].start;
    }
    forall i, j | 0 <= i < j < |r|
      ensures r[i].start <= r[j].start
    {
      if i == k || j == k {
      } else if j < k {
        assert r[i] == s[i] && r[j] == s[j];
      } else if i < k {
        assert r[i] == s[i] && r[j] == s[j - 1];
      } else {
        assert r[i] == s[i - 1] && r[j] == s[j - 1];
      }
    }
  }

  function RemoveAt(s: seq<Event>, i: nat): (r: seq<Event>)
    requires i < |s|
    ensures |r| == |s| - 1
    ensures forall j :: 0 <= j < i ==> r[j] == s[j]
    ensures forall j :: i <= j < |r| ==> r[j] == s[j + 1]
    ensures multiset(r) == multiset(s) - multiset{s[i]}
  {
    assert s == s[..i] + [s[i]] + s[i + 1..];
    s[..i] + s[i + 1..]
  }

  lemma RemoveAtSorted(s: seq<Event>, i: nat)
    requires i < |s| && Sorted(s)
    ensures Sorted(RemoveAt(s, i))
  {
    var r := RemoveAt(s, i);
    forall a, b | 0 <= a < b < |r|
      ensures r[a].start <= r[b].start
    {
      assert r[a] == (if a < i then s[a] else s[a + 1]);
      assert r[b] == (if b < i then s[b] else s[b + 1]);
    }
  }

  /** Taking an event out and putting a changed one back in its sorted place
      (what `updateEvent` and `repeatUpdateEvent` do) keeps the list sorted,
      keeps its length, and exchanges exactly that one event. */
  lemma ReplaceSortedSpec(s: seq<Event>, i: nat, e: Event)
    requires i < |s| && Sorted(s)
    ensures var r := InsertSorted(RemoveAt(s, i), e);
      && Sorted(r) && |r| == |s| && e in r
      && multiset(r) == multiset(s) - multiset{s[i]} + multiset{e}
  {
    RemoveAtSorted(s, i);
    InsertSortedSpec(RemoveAt(s, i), e);
  }

  /** The part of ReplaceSortedSpec the calendar's methods rely on. */
  lemma ReplaceKeepsSorted(s: seq<Event>, i: nat, e: Event)
    requires i < |s| && Sorted(s)
    ensures Sorted(InsertSorted(RemoveAt(s, i), e)) && |InsertSorted(RemoveAt(s, i), e)| == |s|
  {
    ReplaceSortedSpec(s, i, e);
  }

  // ---------------------------------------------------------------------
  // Recurrence

  /** `moment(t).add(1, unit)` for the event's repeat value; with no repeat
      value moment reads the amount as milliseconds. */
  function Step(repeat: Option<RepeatMode>, t: Instant): (r: Instant)
    ensures r > t
    ensures repeat.Some? ==> MsPerDay <= r - t <= 31 * MsPerDay
  {
    match repeat
    case Some(Daily) => t + MsPerDay
    case Some(Weekly) => t + 7 * MsPerDay
    case Some(Monthly) => CivilTime.AddOneMonth(t)
    case None => t + 1
  }

  lemma StepIsLater(repeat: Option<RepeatMode>, t: Instant)
    ensures Step(repeat, t) > t
    ensures repeat == Some(Daily) ==> Step(repeat, t) - t == MsPerDay
    ensures repeat == Some(Weekly) ==> Step(repeat, t) - t == 7 * MsPerDay
    ensures repeat == Some(Monthly) ==> 28 * MsPerDay <= Step(repeat, t) - t <= 31 * MsPerDay
  {
    match repeat
    case Some(Monthly) =>
      CivilTime.AddOneMonthSpec(t);
    case _ =>
  }

  /** The next occurrence of a repeating event. */
  function Advance(e: Event): Event
  {
    e.(start := Step(e.repeat, e.start), end := Step(e.repeat, e.end))
  }

  /** The next occurrence starts and ends strictly later and is otherwise the
      same event (same ID, name, description and repeat mode). */
  lemma AdvanceSpec(e: Event)
    ensures Advance(e).start > e.start && Advance(e).end > e.end
    ensures Advance(e).(start := e.start, end := e.end) == e
  {
    StepIsLater(e.repeat, e.start);
    StepIsLater(e.repeat, e.end);
  }

  // ---------------------------------------------------------------------
  // Lookup by ID and the finalize step

  /** `findIndex` on the events by the hex string of their ID: the first
      match, or -1. */
  function IndexOfHex(s: seq<Event>, hex: string): (k: int)
    ensures -1 <= k < |s|
    ensures k >= 0 ==> ToHexString(s[k].id) == hex && forall j :: 0 <= j < k ==> ToHexString(s[j].id) != hex
    ensures k < 0 ==> forall j :: 0 <= j < |s| ==> ToHexString(s[j].id) != hex
  {
    if s == [] then -1
    else if ToHexString(s[0].id) == hex then 0
    else
      var k := IndexOfHex(s[1..], hex);
      if k < 0 then -1 else k + 1
  }

  /** Looking an event up by the hex of its ID finds an event with that very
      ID, and finds one whenever the list holds it. */
  lemma IndexOfHexFindsId(s: seq<Event>, id: ObjectId)
    ensures var k := IndexOfHex(s, ToHexString(id));
      (k >= 0 ==> s[k].id == id) && (k < 0 <==> forall j :: 0 <= j < |s| ==> s[j].id != id)
  {
    var k := IndexOfHex(s, ToHexString(id));
    if k >= 0 {
      ToHexStringInjective(s[k].id, id);
    }
    forall j | 0 <= j < |s| && s[j].id == id
      ensures k >= 0
    {
      assert ToHexString(s[j].id) == ToHexString(id);
    }
  }

  datatype Finalized = Finalized(events: seq<Event>, advanced: Option<Event>)

  /** What `scheduledDeleteEvent` does to the list: a non-repeating event is
      removed; a repeating one is replaced by its next occurrence in sorted
      position; an ID that is not there fails. */
  function FinalizeEvents(s: seq<Event>, hex: string): Result<Finalized>
  {
    var k := IndexOfHex(s, hex);
    if k < 0 then Err(EventIdMissing)
    else if s[k].repeat.None? then Ok(Finalized(RemoveAt(s, k), None))
    else Ok(Finalized(InsertSorted(RemoveAt(s, k), Advance(s[k])), Some(Advance(s[k]))))
  }

  lemma FinalizeEventsSorted(s: seq<Event>, hex: string)
    requires Sorted(s)
    ensures var f := FinalizeEvents(s, hex); f.Ok? ==> Sorted(f.value.events)
  {
    var k := IndexOfHex(s, hex);
    if k >= 0 {
      RemoveAtSorted(s, k);
      InsertSortedSpec(RemoveAt(s, k), Advance(s[k]));
    }
  }

  /** Finalizing fails exactly when no event has the ID. Otherwise it keeps
      the list sorted, and the event found is advanced exactly when it
      repeats. A non-repeating event disappears and the list shrinks by one.
      A repeating one is reported as the same event with a strictly later
      start and end, and it takes the old one's place in the multiset, so
      every other event is kept. */
  lemma FinalizeEventsSpec(s: seq<Event>, id: ObjectId)
    requires Sorted(s)
    ensures var f := FinalizeEvents(s, ToHexString(id));
      && (f.Err? <==> forall j :: 0 <= j < |s| ==> s[j].id != id)
      && (f.Ok? ==> Sorted(f.value.events))
      && (f.Ok? ==> (f.value.advanced.Some? <==> s[IndexOfHex(s, ToHexString(id))].repeat.Some?))
      && (f.Ok? && f.value.advanced.None? ==>
            |f.value.events| == |s| - 1 && multiset(f.value.events) == multiset(s) - multiset{s[IndexOfHex(s, ToHexString(id))]})
      && (f.Ok? && f.value.advanced.Some? ==>
            var old_ := s[IndexOfHex(s, ToHexString(id))];
            var adv := f.value.advanced.value;
            && old_.id == id && old_.repeat.Some?
            && adv.start > old_.start && adv.end > old_.end
            && adv.(start := old_.start, end := old_.end) == old_
            && |f.value.events| == |s|
            && multiset(f.value.events) == multiset(s) - multiset{old_} + multiset{adv})
  {
    var k := IndexOfHex(s, ToHexString(id));
    IndexOfHexFindsId(s, id);
    if k >= 0 {
      RemoveAtSorted(s, k);
      AdvanceSpec(s[k]);
      ReplaceSortedSpec(s, k, Advance(s[k]));
    }
  }

  // ---------------------------------------------------------------------
  // Unique IDs

  /** No two events of the list share an ID. */
  ghost predicate UniqueIds(s: seq<Event>)
  {
    forall i, j :: 0 <= i < j < |s| ==> s[i].id != s[j].id
  }

  /** Splicing in an event whose ID the list does not hold keeps the IDs
      unique. */
  lemma InsertAtUnique(s: seq<Event>, k: nat, e: Event)
    requires k <= |s| && UniqueIds(s)
    requires forall j :: 0 <= j < |s| ==> s[j].id != e.id
    ensures UniqueIds(InsertAt(s, k, e))
  {
    var r := InsertAt(s, k, e);
    forall i, j | 0 <= i < j < |r|
      ensures r[i].id != r[j].id
    {
      var si := if i < k then i else i - 1;
      var sj := if j < k then j else j - 1;
      if i != k && j != k {
        assert r[i] == s[si] && r[j] == s[sj] && si < sj;
      } else if i == k {
        assert r[j] == s[sj];
      } else {
        assert r[i] == s[si];
      }
    }
  }

  /** Removing an event keeps the IDs unique, and its ID is then absent. */
  lemma RemoveAtUnique(s: seq<Event>, i: nat)
    requires i < |s| && UniqueIds(s)
    ensures var r := RemoveAt(s, i);
      UniqueIds(r) && forall j :: 0 <= j < |r| ==> r[j].id != s[i].id
  {
    var r := RemoveAt(s, i);
    forall a, b | 0 <= a < b < |r|
      ensures r[a].id != r[b].id
    {
      assert r[a] == (if a < i then s[a] else s[a + 1]);
      assert r[b] == (if b < i then s[b] else s[b + 1]);
    }
    forall j | 0 <= j < |r|
      ensures r[j].id != s[i].id
    {
      assert r[j] == (if j < i then s[j] else s[j + 1]);
    }
  }

  /** `addEvent` keeps the IDs unique when the new ID is not in the list. */
  lemma InsertSortedUnique(s: seq<Event>, e: Event)
    requires UniqueIds(s)
    requires forall j :: 0 <= j < |s| ==> s[j].id != e.id
    ensures UniqueIds(InsertSorted(s, e))
  {
    InsertAtUnique(s, InsertionPoint(s, e.start), e);
  }

  /** Putting back a changed event under the ID it was taken out with (what
      `updateEvent` and `repeatUpdateEvent` do) keeps the IDs unique. */
  lemma ReplaceSortedUnique(s: seq<Event>, i: nat, e: Event)
    requires i < |s| && UniqueIds(s) && e.id == s[i].id
    ensures UniqueIds(InsertSorted(RemoveAt(s, i), e))
  {
    RemoveAtUnique(s, i);
    InsertSortedUnique(RemoveAt(s, i), e);
  }

  /** The finalize step keeps the IDs unique. */
  lemma FinalizeEventsUnique(s: seq<Event>, hex: string)
    requires UniqueIds(s)
    ensures var f := FinalizeEvents(s, hex); f.Ok? ==> UniqueIds(f.value.events)
  {
    var k := IndexOfHex(s, hex);
    if k >= 0 {
      RemoveAtUnique(s, k);
      if s[k].repeat.Some? {
        ReplaceSortedUnique(s, k, Advance(s[k]));
      }
    }
  }

  // ---------------------------------------------------------------------
  // Start and end of a repeating event

  /** The advance the source evidently intends: the next start as the
      repeat mode gives it, and the end the same length of time after it. */
  function AdvanceKeepingLength(e: Event): Event
  {
    var next := Step(e.repeat, e.start);
    e.(start := next, end := next + (e.end - e.start))
  }

  /** The corrected advance keeps the event's length, so an event that ends
      no earlier than it starts still does; it moves the event strictly
      later and keeps every other field. For every repeat mode except the
      monthly one it is the source's advance. */
  lemma AdvanceKeepingLengthSpec(e: Event)
    ensures var r := AdvanceKeepingLength(e);
      && r.start > e.start && r.end > e.end
      && r.end - r.start == e.end - e.start
      && (e.start <= e.end ==> r.start <= r.end)
      && r.(start := e.start, end := e.end) == e
    ensures e.repeat != Some(Monthly) ==> AdvanceKeepingLength(e) == Advance(e)
  {
    StepIsLater(e.repeat, e.start);
  }

  /** The source advances start and end by a calendar month each, and the
      month-end clamp can then put the end before the start: an event from
      2021-01-30 23:00 to 2021-01-31 01:00 UTC moves to February 28, from
      23:00 to 01:00. */
  lemma MonthlyAdvanceReversesWitness(id: ObjectId)
    ensures var t := CivilTime.DayNumber(CivilTime.Date(2021, 1, 30)) * MsPerDay + 23 * MsPerHour;
      var e := Event(id, "standup", t, t + 2 * MsPerHour, None, Some(Monthly));
      e.start <= e.end && Advance(e).end < Advance(e).start
  {
    var t := CivilTime.DayNumber(CivilTime.Date(2021, 1, 30)) * MsPerDay + 23 * MsPerHour;
    var e := Event(id, "standup", t, t + 2 * MsPerHour, None, Some(Monthly));
    assert Advance(e).start == CivilTime.AddOneMonth(t) && Advance(e).end == CivilTime.AddOneMonth(t + 2 * MsPerHour);
    CivilTime.LateJanuaryThirtieth(2021);
  }

  // ---------------------------------------------------------------------
  // Timezone shift

  function ShiftEvent(e: Event, delta: int): Event
  {
    e.(start := e.start + delta, end := e.end + delta)
  }

  /** Every event moved by the same amount. */
  function ShiftAll(s: seq<Event>, delta: int): seq<Event>
  {
    seq(|s|, i requires 0 <= i < |s| => ShiftEvent(s[i], delta))
  }

  /** Shifting back by the same amount restores the list, so a timezone
      change followed by the change back leaves every event where it was. */
  lemma ShiftAllInverse(s: seq<Event>, delta: int)
    ensures ShiftAll(ShiftAll(s, delta), -delta) == s
  {
    var r := ShiftAll(ShiftAll(s, delta), -delta);
    forall i | 0 <= i < |s|
      ensures r[i] == s[i]
    {
      assert ShiftAll(s, delta)[i] == ShiftEvent(s[i], delta);
    }
  }

  /** A shift moves only the instants, so the IDs stay unique. */
  lemma ShiftAllUnique(s: seq<Event>, delta: int)
    requires UniqueIds(s)
    ensures UniqueIds(ShiftAll(s, delta))
  {
    var r := ShiftAll(s, delta);
    forall i, j | 0 <= i < j < |r|
      ensures r[i].id != r[j].id
    {
      assert r[i].id == s[i].id && r[j].id == s[j].id;
    }
  }

  /** A fixed-offset shift keeps the list sorted, and if the shifted first
      event does not start before `now`, none of the shifted events does. */
  lemma ShiftAllSpec(s: seq<Event>, delta: int, now: Instant)
    requires Sorted(s)
    ensures Sorted(ShiftAll(s, delta))
    ensures |s| > 0 && s[0].start + delta >= now ==>
      forall i :: 0 <= i < |s| ==> ShiftAll(s, delta)[i].start >= now
  {
  }
}
