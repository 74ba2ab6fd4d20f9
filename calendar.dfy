/** The calendar document of one guild and its methods. Each method changes
    the document in place, as the Mongoose schema methods do; persisting the
    document (`this.save()`) is not modelled. */
module CalendarModel {
  import opened Common
  import opened ObjectIds
  import opened Events
  import opened Permissions

  /** UTC offset, in minutes, of a zone in the timezone database; an unset or
      unknown zone reads as the server's own zone, taken to be UTC. */
  function UtcOffset(zones: map<string, int>, tz: string): int
  {
    if tz in zones then zones[tz] else 0
  }

  /** `EventParser.getOffsetMoment(moment(t), newTz, oldTz)`: the instant
      whose wall-clock reading in `newTz` is the reading of `t` in `oldTz`. */
  function OffsetMoment(zones: map<string, int>, t: Instant, newTz: string, oldTz: string): (r: Instant)
    ensures r + UtcOffset(zones, newTz) * MsPerMinute == t + UtcOffset(zones, oldTz) * MsPerMinute
  {
    t + (UtcOffset(zones, oldTz) - UtcOffset(zones, newTz)) * MsPerMinute
  }

  /** With fixed offsets the adjustment is one constant shift for every
      instant. */
  lemma OffsetMomentIsShift(zones: map<string, int>, t: Instant, newTz: string, oldTz: string)
    ensures OffsetMoment(zones, t, newTz, oldTz) == t + OffsetMoment(zones, 0, newTz, oldTz)
  {
  }

  /** The position the insertion scan stops at is the first event starting no
      earlier than `t`. */
  lemma InsertionPointUnique(s: seq<Event>, t: Instant, i: nat)
    requires i <= |s|
    requires forall j :: 0 <= j < i ==> s[j].start < t
    requires i < |s| ==> s[i].start >= t
    ensures InsertionPoint(s, t) == i
  {
  }

  class Calendar {
    const id: string
    var events: seq<Event>
    var permissions: seq<Perms>
    var prefix: string
    var defaultChannel: string
    var timezone: string

    constructor(guildId: string, prefix: string, defaultChannel: string, timezone: string)
      ensures id == guildId && events == [] && permissions == []
      ensures this.prefix == prefix && this.defaultChannel == defaultChannel && this.timezone == timezone
    {
      id := guildId;
      events := [];
      permissions := [];
      this.prefix := prefix;
      this.defaultChannel := defaultChannel;
      this.timezone := timezone;
    }

    /** The insertion scan shared by `addEvent`, `updateEvent` and
        `repeatUpdateEvent`: splice `e` in before the first event whose start
        is the same or later, or push it at the end. */
    method InsertByStart(e: Event)
      modifies this`events
      ensures events == InsertSorted(old(events), e)
    {
      if |events| == 0 {
        events := events + [e];
        return;
      }
      var i := 0;
      while i < |events|
        invariant 0 <= i < |events|
        invariant events == old(events)
        invariant forall j :: 0 <= j < i ==> events[j].start < e.start
      {
        if events[i].start >= e.start {
          InsertionPointUnique(events, e.start, i);
          events := events[..i] + [e] + events[i..];
          return;
        }
        if i == |events| - 1 {
          InsertionPointUnique(events, e.start, |events|);
          events := events + [e];
          return;
        }
        i := i + 1;
      }
    }

    /** `addEvent`: a new event document with identifier `newId` (Mongo
        generates it) is inserted in start order and returned. */
    method AddEvent(fields: EventFields, newId: ObjectId) returns (stored: Event)
      modifies this`events
      ensures stored == MakeEvent(newId, fields)
      ensures events == InsertSorted(old(events), stored)
      ensures Sorted(old(events)) ==> Sorted(events) && |events| == |old(events)| + 1
      ensures UniqueIds(old(events)) && (forall j :: 0 <= j < |old(events)| ==> old(events)[j].id != newId) ==>
        UniqueIds(events)
    {
      stored := MakeEvent(newId, fields);
      InsertByStart(stored);
      if Sorted(old(events)) {
        InsertSortedSpec(old(events), stored);
      }
      if UniqueIds(old(events)) && forall j :: 0 <= j < |old(events)| ==> old(events)[j].id != newId {
        InsertSortedUnique(old(events), stored);
      }
    }

    /** `deleteEvent`: removes and returns the event at `index`, or rejects
        with "Event not found" leaving the list as it was. */
    method DeleteEvent(index: int) returns (r: Result<Event>)
      modifies this`events
      ensures 0 <= index < |old(events)| ==>
        r == Ok(old(events)[index]) && events == RemoveAt(old(events), index)
      ensures !(0 <= index < |old(events)|) ==> r == Err(EventNotFound) && events == old(events)
      ensures Sorted(old(events)) ==> Sorted(events)
      ensures UniqueIds(old(events)) ==> UniqueIds(events)
    {
      if 0 <= index < |events| {
        if Sorted(events) {
          RemoveAtSorted(events, index);
        }
        if UniqueIds(events) {
          RemoveAtUnique(events, index);
        }
        var removed := events[index];
        events := events[..index] + events[index + 1..];
        return Ok(removed);
      }
      return Err(EventNotFound);
    }

    /** `repeatUpdateEvent`: takes the event at `index` out, moves it to its
        next occurrence and puts it back in start order. */
    method RepeatUpdateEvent(index: int) returns (r: Result<Event>)
      modifies this`events
      ensures 0 <= index < |old(events)| ==>
        r == Ok(Advance(old(events)[index])) && events == InsertSorted(RemoveAt(old(events), index), r.value)
      ensures !(0 <= index < |old(events)|) ==> r == Err(EventNotFound) && events == old(events)
      ensures Sorted(old(events)) ==> Sorted(events) && |events| == |old(events)|
      ensures UniqueIds(old(events)) ==> UniqueIds(events)
    {
      if 0 <= index < |events| {
        var event := events[index];
        ghost var rest := RemoveAt(events, index);
        ghost var next := Advance(event);
        if Sorted(events) {
          ReplaceKeepsSorted(events, index, next);
        }
        if UniqueIds(events) {
          ReplaceSortedUnique(events, index, next);
        }
        events := events[..index] + events[index + 1..];
        assert events == rest;
        event := Advance(event);
        InsertByStart(event);
        return Ok(event);
      }
      return Err(EventNotFound);
    }

    /** `scheduledDeleteEvent`: the finalize step for the event whose ID
        renders as `eventId`. */
    method ScheduledDeleteEvent(eventId: string) returns (r: Result<Option<Event>>)
      modifies this`events
      ensures var f := FinalizeEvents(old(events), eventId);
        && (f.Err? ==> r == Err(f.error) && events == old(events))
        && (f.Ok? ==> r == Ok(f.value.advanced) && events == f.value.events)
      ensures Sorted(old(events)) ==> Sorted(events)
      ensures UniqueIds(old(events)) ==> UniqueIds(events)
    {
      if Sorted(events) {
        FinalizeEventsSorted(events, eventId);
      }
      if UniqueIds(events) {
        FinalizeEventsUnique(events, eventId);
      }
      var index := IndexOfHex(events, eventId);
      if index < 0 {
        // `this.events[-1]` is undefined and reading `.repeat` throws
        return Err(EventIdMissing);
      }
      if events[index].repeat.None? {
        events := events[..index] + events[index + 1..];
        return Ok(None);
      }
      var repeated := RepeatUpdateEvent(index);
      return Ok(Some(repeated.value));
    }

    /** `updateEvent`: takes the event at `index` out, merges the draft into
        it and puts it back in start order; an index out of range rejects. */
    method UpdateEvent(index: int, draft: EventDraft) returns (r: Result<Event>)
      modifies this`events
      ensures 0 <= index < |old(events)| ==>
        r == Ok(ApplyDraft(old(events)[index], draft)) && events == InsertSorted(RemoveAt(old(events), index), r.value)
      ensures !(0 <= index < |old(events)|) ==> r == Err(EventNotFound) && events == old(events)
      ensures Sorted(old(events)) ==> Sorted(events) && |events| == |old(events)|
      ensures UniqueIds(old(events)) ==> UniqueIds(events)
    {
      if 0 <= index < |events| {
        var existing := events[index];
        ghost var rest := RemoveAt(events, index);
        ghost var merged := ApplyDraft(existing, draft);
        if Sorted(events) {
          ReplaceKeepsSorted(events, index, merged);
        }
        if UniqueIds(events) {
          ReplaceSortedUnique(events, index, merged);
        }
        events := events[..index] + events[index + 1..];
        assert events == rest;
        existing := ApplyDraft(existing, draft);
        InsertByStart(existing);
        return Ok(existing);
      }
      return Err(EventNotFound);
    }

    method UpdatePrefix(newPrefix: string)
      modifies this`prefix
      ensures prefix == newPrefix
    {
      prefix := newPrefix;
    }

    method UpdateDefaultChannel(channelId: string)
      modifies this`defaultChannel
      ensures defaultChannel == channelId
    {
      defaultChannel := channelId;
    }

    /** `updateTimezone`: an unknown zone rejects; if the first event would
        start in the past once shifted, nothing changes and the answer is
        false; otherwise every event is shifted and the zone is set. */
    method UpdateTimezone(tz: string, zones: map<string, int>, now: Instant) returns (r: Result<bool>)
      modifies this`events, this`timezone
      ensures tz !in zones ==> r == Err(TimezoneNotFound) && events == old(events) && timezone == old(timezone)
      ensures tz in zones ==>
        var delta := OffsetMoment(zones, 0, tz, old(timezone));
        if |old(events)| > 0 && now - (old(events)[0].start + delta) > 0
        then r == Ok(false) && events == old(events) && timezone == old(timezone)
        else r == Ok(true) && events == ShiftAll(old(events), delta) && timezone == tz
      ensures r == Ok(true) && Sorted(old(events)) ==>
        Sorted(events) && forall j :: 0 <= j < |events| ==> events[j].start >= now
      ensures UniqueIds(old(events)) ==> UniqueIds(events)
    {
      if tz !in zones {
        return Err(TimezoneNotFound);
      }
      if |events| > 0 {
        var newStart := OffsetMoment(zones, events[0].start, tz, timezone);
        if now - newStart > 0 {
          return Ok(false);
        }
        var delta := OffsetMoment(zones, 0, tz, timezone);
        var i := 0;
        while i < |events|
          invariant 0 <= i <= |events| == |old(events)|
          invariant timezone == old(timezone)
          invariant forall j :: 0 <= j < i ==> events[j] == ShiftEvent(old(events)[j], delta)
          invariant forall j :: i <= j < |events| ==> events[j] == old(events)[j]
        {
          var event := events[i];
          OffsetMomentIsShift(zones, event.start, tz, timezone);
          OffsetMomentIsShift(zones, event.end, tz, timezone);
          events := events[i := event.(start := OffsetMoment(zones, event.start, tz, timezone),
                                       end := OffsetMoment(zones, event.end, tz, timezone))];
          i := i + 1;
        }
      }
      if Sorted(old(events)) {
        ShiftAllSpec(old(events), OffsetMoment(zones, 0, tz, old(timezone)), now);
      }
      if UniqueIds(old(events)) {
        ShiftAllUnique(old(events), OffsetMoment(zones, 0, tz, old(timezone)));
      }
      timezone := tz;
      return Ok(true);
    }

    /** The deny and allow operations differ only in the list they edit. */
    method DenyIn(which: DenyList, entityId: string, node: string)
      modifies this`permissions
      ensures permissions == Deny(old(permissions), node, which, entityId)
    {
      var index := FindNode(permissions, node);
      if index < 0 {
        permissions := permissions + [Perms(node, [], [])];
        index := |permissions| - 1;
      }
      if !Finds(Denied(permissions[index], which), entityId) {
        var entry := permissions[index];
        permissions := permissions[index := WithDenied(entry, which, Denied(entry, which) + [entityId])];
      }
    }

    method AllowIn(which: DenyList, entityId: string, node: string)
      modifies this`permissions
      ensures permissions == Allow(old(permissions), node, which, entityId)
    {
      var index := FindNode(permissions, node);
      if index >= 0 {
        var list := Denied(permissions[index], which);
        var position := IndexOf(list, entityId);
        if position >= 0 {
          permissions := permissions[index := WithDenied(permissions[index], which, list[..position] + list[position + 1..])];
        }
      }
    }

    method DenyRolePerm(roleId: string, node: string)
      modifies this`permissions
      ensures permissions == Deny(old(permissions), node, RoleList, roleId)
    {
      DenyIn(RoleList, roleId, node);
    }

    method DenyUserPerm(userId: string, node: string)
      modifies this`permissions
      ensures permissions == Deny(old(permissions), node, UserList, userId)
    {
      DenyIn(UserList, userId, node);
    }

    method AllowRolePerm(roleId: string, node: string)
      modifies this`permissions
      ensures permissions == Allow(old(permissions), node, RoleList, roleId)
    {
      AllowIn(RoleList, roleId, node);
    }

    method AllowUserPerm(userId: string, node: string)
      modifies this`permissions
      ensures permissions == Allow(old(permissions), node, UserList, userId)
    {
      AllowIn(UserList, userId, node);
    }

    /** `checkPerm`: the guild owner always passes; otherwise a denied user
        ID or any denied role of the member fails; a node without an entry
        passes. */
    method CheckPerm(node: string, member: Member, ownerId: string) returns (allowed: bool)
      ensures allowed == Permitted(permissions, node, member, ownerId)
      ensures ownerId == member.id ==> allowed
      ensures FindNode(permissions, node) < 0 ==> allowed
    {
      if ownerId == member.id {
        return true;
      }
      var index := FindNode(permissions, node);
      if index >= 0 {
        var perm := permissions[index];
        if Finds(perm.deniedUsers, member.id) {
          return false;
        }
        var i := 0;
        while i < |perm.deniedRoles|
          invariant 0 <= i <= |perm.deniedRoles|
          invariant forall j :: 0 <= j < i ==> !Finds(member.roles, perm.deniedRoles[j])
        {
          if Finds(member.roles, perm.deniedRoles[i]) {
            return false;
          }
          i := i + 1;
        }
      }
      return true;
    }
  }
}
