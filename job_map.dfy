/** The table of scheduled timers, keyed by the hex string of an event ID. */
module JobMaps {
  import opened Common
  import opened ObjectIds
  import opened Events

  /** An opaque timer handle: when it fires and what its callback captured
      (the guild the calendar belongs to and the event as it was when the
      timer was installed). */
  datatype Job = Job(fireAt: Instant, guildId: string, event: Event)

  class JobMap {
    var jobs: map<string, Job>

    constructor()
      ensures jobs == map[]
    {
      jobs := map[];
    }

    /** `get`: the job stored under the key's hex string, if any. */
    method Get(key: ObjectId) returns (job: Option<Job>)
      ensures ToHexString(key) in jobs ==> job == Some(jobs[ToHexString(key)])
      ensures ToHexString(key) !in jobs ==> job == None
    {
      var hex := ToHexString(key);
      if hex in jobs {
        return Some(jobs[hex]);
      }
      return None;
    }

    /** `set`: stores the job under the key's hex string; `Map.set` returns
        the map itself, which is truthy, so the answer is always true. */
    method Set(key: ObjectId, value: Job) returns (ok: bool)
      modifies this
      ensures ok
      ensures jobs == old(jobs)[ToHexString(key) := value]
    {
      jobs := jobs[ToHexString(key) := value];
      return true;
    }

    /** `delete`: true exactly when the key was present; the key is gone. */
    method Delete(key: ObjectId) returns (found: bool)
      modifies this
      ensures found == (ToHexString(key) in old(jobs))
      ensures jobs == old(jobs) - {ToHexString(key)}
    {
      var hex := ToHexString(key);
      found := hex in jobs;
      jobs := jobs - {hex};
    }
  }

  /** Writing or deleting one identifier's entry never disturbs the entry of
      a different identifier: distinct IDs have distinct hex keys. */
  lemma OtherKeysUntouched(jobs: map<string, Job>, key: ObjectId, other: ObjectId, value: Job)
    requires other != key
    ensures var h := ToHexString(other);
      && (h in jobs[ToHexString(key) := value] <==> h in jobs)
      && (h in jobs ==> jobs[ToHexString(key) := value][h] == jobs[h])
      && (h in jobs - {ToHexString(key)} <==> h in jobs)
      && (h in jobs ==> (jobs - {ToHexString(key)})[h] == jobs[h])
  {
    ToHexStringInjective(key, other);
  }
}
