/** Rotation of replica epochs: directories renamed and removed under the publisher lock, with the
    process allowed to stop between any two file-system operations. */
module EpochRotations {
  import opened Framing
  import opened Content
  import opened Retention
  import opened Runs

  type Name = Bytes

  /** The time an epoch name carries; None for a name that is not an epoch's. */
  type EpochTime = Name -> Option<int>

  datatype Record = Record(epoch: Name, duration: int)

  /** An epoch directory: its record, its metadata directory and the identity of its replica directory. */
  datatype EpochDir = EpochDir(record: Option<Record>, metadata: bool, replica: Option<nat>) {
    predicate Complete() {
      record.Some? && metadata && replica.Some?
    }

    /** What a removal that was stopped may have left of `whole`. */
    predicate RemainsOf(whole: EpochDir) {
      && (record.Some? ==> record == whole.record) && (metadata ==> whole.metadata)
      && (replica.Some? ==> replica == whole.replica)
    }

    /** What is left when only the parts named by `kept` survive. */
    function Kept(kept: (bool, bool, bool)): (left: EpochDir)
      ensures left.RemainsOf(this)
    {
      EpochDir(if kept.0 then record else None, kept.1 && metadata, if kept.2 then replica else None)
    }
  }

  /** The replica root.  `made` counts the replica directories ever created, and `serves` remembers
      the epoch each of them was published for. */
  datatype Root = Root(
    legacy: bool,
    active: Option<EpochDir>,
    pending: Option<EpochDir>,
    retired: map<Name, EpochDir>,
    made: nat,
    serves: map<nat, Name>)

  predicate ValidRecord(time: EpochTime, record: Record) {
    time(record.epoch).Some? && AcceptedDuration(record.duration)
  }

  // Single steps.

  predicate Retires(s: Root, t: Root) {
    && s.active.Some? && s.active.value.record.Some?
    && var name := s.active.value.record.value.epoch;
       name !in s.retired && t == s.(active := None, retired := s.retired[name := s.active.value])
  }

  predicate Clears(s: Root, t: Root) {
    && s.pending.Some? && (t.pending.Some? ==> t.pending.value.RemainsOf(s.pending.value))
    && t == s.(pending := t.pending)
  }

  predicate Opens(s: Root, t: Root) {
    s.pending.None? && t == s.(pending := Some(EpochDir(None, false, None)))
  }

  predicate AddsMetadata(s: Root, t: Root) {
    s.pending.Some? && s.pending.value.record.None? && t == s.(pending := Some(s.pending.value.(metadata := true)))
  }

  predicate AddsReplica(s: Root, t: Root) {
    && s.pending.Some? && s.pending.value.record.None? && s.pending.value.replica.None?
    && t == s.(pending := Some(s.pending.value.(replica := Some(s.made))), made := s.made + 1)
  }

  predicate AddsRecord(time: EpochTime, s: Root, t: Root) {
    && s.pending.Some? && s.pending.value.metadata && s.pending.value.replica.Some? && s.pending.value.record.None?
    && t.pending.Some? && t.pending.value.record.Some? && ValidRecord(time, t.pending.value.record.value)
    && t == s.(pending := Some(s.pending.value.(record := t.pending.value.record)))
  }

  predicate Exposes(s: Root, t: Root) {
    && s.pending.Some? && s.pending.value.Complete() && s.active.None?
    && t == s.(active := s.pending, pending := None,
               serves := s.serves[s.pending.value.replica.value := s.pending.value.record.value.epoch])
  }

  predicate Removes(s: Root, t: Root, name: Name) {
    && name in s.retired && (name in t.retired ==> t.retired[name].RemainsOf(s.retired[name]))
    && t == s.(retired := if name in t.retired then s.retired[name := t.retired[name]] else s.retired - {name})
  }

  ghost predicate Next(time: EpochTime, s: Root, t: Root) {
    || Retires(s, t) || Clears(s, t) || Opens(s, t) || AddsMetadata(s, t) || AddsReplica(s, t)
    || AddsRecord(time, s, t) || Exposes(s, t) || exists name :: Removes(s, t, name)
  }

  // What every step keeps.

  /** The replica directory is known to serve that epoch and no other. */
  predicate ServesOnly(root: Root, replica: Option<nat>, name: Name) {
    replica.Some? ==> replica.value in root.serves && root.serves[replica.value] == name
  }

  ghost predicate Inv(time: EpochTime, root: Root) {
    && (root.active.Some? ==>
          && root.active.value.Complete() && ValidRecord(time, root.active.value.record.value)
          && ServesOnly(root, root.active.value.replica, root.active.value.record.value.epoch))
    && (forall name | name in root.retired ::
          && time(name).Some? && ServesOnly(root, root.retired[name].replica, name)
          && (root.retired[name].record.Some? ==> root.retired[name].record.value.epoch == name))
    && (forall replica | replica in root.serves :: replica < root.made)
    && (root.pending.Some? ==>
          && (root.pending.value.replica.Some? ==>
                root.pending.value.replica.value < root.made && root.pending.value.replica.value !in root.serves)
          && (root.pending.value.record.Some? ==> ValidRecord(time, root.pending.value.record.value)))
  }

  /** Retired epochs lose at most what a removal takes, and replica directories keep their epoch. */
  ghost predicate Keeps(s: Root, t: Root) {
    && (forall name | name in s.retired && name in t.retired :: t.retired[name].RemainsOf(s.retired[name]))
    && (forall replica | replica in s.serves :: replica in t.serves && t.serves[replica] == s.serves[replica])
  }

  lemma RetireKeepsInv(time: EpochTime, s: Root, t: Root)
    requires Inv(time, s) && Retires(s, t)
    ensures Inv(time, t) && Keeps(s, t)
  {
    assert t.retired[s.active.value.record.value.epoch] == s.active.value;
  }

  lemma ExposeKeepsInv(time: EpochTime, s: Root, t: Root)
    requires Inv(time, s) && Exposes(s, t)
    ensures Inv(time, t) && Keeps(s, t)
  {
    assert s.pending.value.replica.value !in s.serves;
  }

  lemma RemoveKeepsInv(time: EpochTime, s: Root, t: Root, name: Name)
    requires Inv(time, s) && Removes(s, t, name)
    ensures Inv(time, t) && Keeps(s, t)
  {
    assert forall other | other in t.retired :: other in s.retired && t.retired[other].RemainsOf(s.retired[other]);
  }

  /** Every step keeps the invariant, overwrites no retired epoch and reassigns no replica. */
  lemma NextKeepsInv(time: EpochTime, s: Root, t: Root)
    requires Inv(time, s) && Next(time, s, t)
    ensures Inv(time, t) && Keeps(s, t)
  {
    if Retires(s, t) {
      RetireKeepsInv(time, s, t);
    } else if Exposes(s, t) {
      ExposeKeepsInv(time, s, t);
    } else if exists name :: Removes(s, t, name) {
      var name :| Removes(s, t, name);
      RemoveKeepsInv(time, s, t, name);
    }
  }

  // Runs.

  ghost function Steps(time: EpochTime): (Root, Root) -> bool {
    (s: Root, t: Root) => Next(time, s, t)
  }

  ghost function Safe(time: EpochTime): Root -> bool {
    (s: Root) => Inv(time, s)
  }

  lemma SafetyIsInvariant(time: EpochTime)
    ensures Invariant(Steps(time), Safe(time))
  {
    forall s, t | Safe(time)(s) && Steps(time)(s, t) ensures Safe(time)(t) {
      NextKeepsInv(time, s, t);
    }
  }

  lemma RunKeepsInv(time: EpochTime, trace: seq<Root>, i: nat)
    requires Run(Steps(time), trace) && i < |trace| && Inv(time, trace[0])
    ensures Inv(time, trace[i])
  {
    SafetyIsInvariant(time);
    HoldsAlong(Steps(time), Safe(time), trace, i);
    assert Safe(time)(trace[i]);
  }

  lemma StepOfRun(time: EpochTime, trace: seq<Root>, i: nat)
    requires Run(Steps(time), trace) && i + 1 < |trace| && Inv(time, trace[0])
    ensures Inv(time, trace[i]) && Next(time, trace[i], trace[i + 1]) && Keeps(trace[i], trace[i + 1])
  {
    RunKeepsInv(time, trace, i);
    assert Steps(time)(trace[i], trace[i + 1]);
    NextKeepsInv(time, trace[i], trace[i + 1]);
  }

  /** A fresh replica root. */
  function Fresh(legacy: bool): Root {
    Root(legacy, None, None, map[], 0, map[])
  }

  /** In every state of every run, wherever the process stopped: an active epoch is complete, and
      two directories that share a replica carry the same epoch. */
  lemma RotationSafety(time: EpochTime, trace: seq<Root>, legacy: bool, i: nat)
    requires Run(Steps(time), trace) && trace[0] == Fresh(legacy) && i < |trace|
    ensures Inv(time, trace[i])
    ensures trace[i].active.Some? ==> trace[i].active.value.Complete()
  {
    RunKeepsInv(time, trace, i);
  }

  ghost function Serving(): (Root, Root) -> bool {
    (s: Root, t: Root) =>
      forall replica | replica in s.serves :: replica in t.serves && t.serves[replica] == s.serves[replica]
  }

  lemma ServesForever(time: EpochTime, trace: seq<Root>, i: nat, j: nat, replica: nat)
    requires Run(Steps(time), trace) && Inv(time, trace[0]) && i <= j < |trace| && replica in trace[i].serves
    ensures replica in trace[j].serves && trace[j].serves[replica] == trace[i].serves[replica]
  {
    SafetyIsInvariant(time);
    forall s, t | Safe(time)(s) && Steps(time)(s, t) ensures Serving()(s, t) {
      NextKeepsInv(time, s, t);
    }
    RelatesAlong(Steps(time), Safe(time), Serving(), trace, i, j);
    assert Serving()(trace[i], trace[j]);
  }


  /** No replica directory ever serves two epochs. */
  lemma NoReplicaServesTwoEpochs(time: EpochTime, trace: seq<Root>, i: nat, j: nat)
    requires Run(Steps(time), trace) && Inv(time, trace[0]) && i < |trace| && j < |trace|
    requires trace[i].active.Some? && trace[j].active.Some?
    requires trace[i].active.value.replica == trace[j].active.value.replica
    ensures trace[i].active.value.record.Some? && trace[j].active.value.record.Some?
    ensures trace[i].active.value.record.value.epoch == trace[j].active.value.record.value.epoch
  {
    RunKeepsInv(time, trace, i);
    RunKeepsInv(time, trace, j);
    var replica := trace[i].active.value.replica.value;
    if i <= j {
      ServesForever(time, trace, i, j, replica);
    } else {
      ServesForever(time, trace, j, i, replica);
    }
  }

  /** A retired epoch that stays listed keeps its own contents, or what a removal left of them. */
  lemma {:induction false} RetiredIsNeverOverwritten(time: EpochTime, trace: seq<Root>, i: nat, j: nat, name: Name)
    requires Run(Steps(time), trace) && Inv(time, trace[0]) && i <= j < |trace|
    requires forall k | i <= k <= j :: name in trace[k].retired
    ensures trace[j].retired[name].RemainsOf(trace[i].retired[name])
    decreases j - i
  {
    if i < j {
      StepOfRun(time, trace, i);
      assert name in trace[i + 1].retired;
      RetiredIsNeverOverwritten(time, trace, i + 1, j, name);
    }
  }

  // Names drawn at random do not repeat.

  ghost predicate Served(serves: map<nat, Name>, name: Name) {
    exists replica :: replica in serves && serves[replica] == name
  }

  /** A step that writes a record writes the name of an epoch that was never served. */
  ghost predicate DrawsFreshName(s: Root, t: Root) {
    t.pending.Some? && t.pending.value.record.Some? && (s.pending.None? || s.pending.value.record.None?) ==>
      !Served(s.serves, t.pending.value.record.value.epoch)
  }

  ghost predicate NamesApart(root: Root) {
    && (forall name | name in root.retired :: Served(root.serves, name))
    && (root.active.Some? && root.active.value.record.Some? ==>
          root.active.value.record.value.epoch !in root.retired
          && Served(root.serves, root.active.value.record.value.epoch))
    && (root.pending.Some? && root.pending.value.record.Some? ==>
          !Served(root.serves, root.pending.value.record.value.epoch))
  }

  lemma ExposeKeepsApart(time: EpochTime, s: Root, t: Root)
    requires Inv(time, s) && NamesApart(s) && Exposes(s, t)
    ensures NamesApart(t)
  {
    var replica, name := s.pending.value.replica.value, s.pending.value.record.value.epoch;
    assert replica in t.serves && t.serves[replica] == name;
    forall other | other in t.retired ensures Served(t.serves, other) {
      var known :| known in s.serves && s.serves[known] == other;
      assert known in t.serves && t.serves[known] == other;
    }
  }

  lemma StepKeepsApart(time: EpochTime, s: Root, t: Root)
    requires Inv(time, s) && NamesApart(s) && Next(time, s, t) && DrawsFreshName(s, t)
    ensures NamesApart(t)
  {
    if Exposes(s, t) {
      ExposeKeepsApart(time, s, t);
    } else if exists name :: Removes(s, t, name) {
      var name :| Removes(s, t, name);
      RemoveKeepsApart(s, t, name);
    } else if Retires(s, t) {
      RetireKeepsApart(s, t);
    } else {
      PendingKeepsApart(s, t);
    }
  }

  lemma RemoveKeepsApart(s: Root, t: Root, name: Name)
    requires NamesApart(s) && Removes(s, t, name)
    ensures NamesApart(t)
  {
  }

  lemma RetireKeepsApart(s: Root, t: Root)
    requires NamesApart(s) && Retires(s, t)
    ensures NamesApart(t)
  {
  }

  lemma PendingKeepsApart(s: Root, t: Root)
    requires NamesApart(s) && t == s.(pending := t.pending, made := t.made) && DrawsFreshName(s, t)
    requires s.pending.Some? && s.pending.value.record.Some? && t.pending.Some? && t.pending.value.record.Some? ==>
               t.pending.value.record == s.pending.value.record
    ensures NamesApart(t)
  {
  }

  /** As long as names do not repeat, an active epoch's name is never among the retired ones: the
      refusal to overwrite a retired epoch is never met. */
  lemma {:induction false} FreshNamesNeverCollide(time: EpochTime, trace: seq<Root>, legacy: bool, i: nat)
    requires Run(Steps(time), trace) && trace[0] == Fresh(legacy) && i < |trace|
    requires forall k | 0 <= k < |trace| - 1 :: DrawsFreshName(trace[k], trace[k + 1])
    ensures NamesApart(trace[i])
    ensures trace[i].active.Some? ==>
              && trace[i].active.value.record.Some?
              && trace[i].active.value.record.value.epoch !in trace[i].retired
  {
    RunKeepsInv(time, trace, i);
    if i > 0 {
      FreshNamesNeverCollide(time, trace, legacy, i - 1);
      StepOfRun(time, trace, i - 1);
      assert DrawsFreshName(trace[i - 1], trace[i - 1 + 1]);
      StepKeepsApart(time, trace[i - 1], trace[i]);
    }
  }

  // The operations.

  datatype Refusal =
    DurationInvalid | InventoryLimit | LegacyReplica | RecordInvalid | ClockMovedBackwards | AlreadyRetired

  datatype Rotation = Done | Refused(reason: Refusal) | Stopped

  /** Why a preparation refuses to start, looked at in this order. */
  function PrepareRefusal(time: EpochTime, root: Root, duration: int, now: int): Option<Refusal> {
    if !AcceptedDuration(duration) then Some(DurationInvalid)
    else if |root.retired| >= MAX_EPOCHS then Some(InventoryLimit)
    else if root.legacy then Some(LegacyReplica)
    else if root.active.None? then None
    else if root.active.value.record.None? || !ValidRecord(time, root.active.value.record.value) then
      Some(RecordInvalid)
    else if time(root.active.value.record.value.epoch).value > now then Some(ClockMovedBackwards)
    else if root.active.value.record.value.epoch in root.retired then Some(AlreadyRetired)
    else None
  }

  /** Under the invariant an unreadable record is impossible, so only the documented refusals remain;
      when epoch names are not reused, the last one is impossible as well. */
  lemma RefusalsAreTheDocumentedOnes(time: EpochTime, root: Root, duration: int, now: int)
    requires Inv(time, root)
    ensures PrepareRefusal(time, root, duration, now).None? <==>
            && AcceptedDuration(duration) && |root.retired| < MAX_EPOCHS && !root.legacy
            && (root.active.Some? ==>
                  && time(root.active.value.record.value.epoch).value <= now
                  && root.active.value.record.value.epoch !in root.retired)
  {
  }

  class ReplicaRoot {
    const time: EpochTime
    var root: Root

    constructor (time: EpochTime, legacy: bool)
      ensures this.time == time && root == Fresh(legacy)
    {
      this.time, root := time, Fresh(legacy);
    }

    /** Retires the active epoch and exposes a new one.  `fuel` file-system operations are carried
        out before the process stops; `kept` is what a removal stopped midway leaves. */
    method PrepareEpoch(duration: int, now: int, name: Name, fuel: nat, kept: (bool, bool, bool))
      returns (r: Rotation, ghost trace: seq<Root>)
      requires time(name).Some?
      modifies this
      ensures Leads(Steps(time), trace, old(root), root)
      ensures r.Refused? <==> PrepareRefusal(time, old(root), duration, now).Some?
      ensures r.Refused? ==> r.reason == PrepareRefusal(time, old(root), duration, now).value && root == old(root)
      ensures fuel >= 7 ==> !r.Stopped?
      ensures r.Done? ==> root == Rotated(old(root), Record(name, duration))
    {
      trace := [root];
      var refusal := PrepareRefusal(time, root, duration, now);
      if refusal.Some? {
        return Refused(refusal.value), trace;
      }
      var left := fuel;
      if root.active.Some? {
        if left == 0 {
          return Stopped, trace;
        }
        left := left - 1;
        root := root.(active := None,
                      retired := root.retired[root.active.value.record.value.epoch := root.active.value]);
        trace := Extend(Steps(time), trace, root);
      }
      r, trace := BuildEpoch(Record(name, duration), left, kept, trace);
    }

    /** Builds the record and the directories aside, then exposes them by one rename. */
    method BuildEpoch(record: Record, fuel: nat, kept: (bool, bool, bool), ghost before: seq<Root>)
      returns (r: Rotation, ghost trace: seq<Root>)
      requires Run(Steps(time), before) && before[|before| - 1] == root && root.active.None?
               && ValidRecord(time, record)
      modifies this
      ensures Leads(Steps(time), trace, before[0], root)
      ensures !r.Refused? && (fuel >= 6 ==> r.Done?)
      ensures r.Done? ==> root == Exposed(old(root), record)
    {
      trace := before;
      var left := fuel;
      if root.pending.Some? {
        if left == 0 {
          root := root.(pending := Some(root.pending.value.Kept(kept)));
          trace := Extend(Steps(time), trace, root);
          return Stopped, trace;
        }
        left := left - 1;
        root := root.(pending := None);
        trace := Extend(Steps(time), trace, root);
      }
      if left == 0 {
        return Stopped, trace;
      }
      root := root.(pending := Some(EpochDir(None, false, None)));
      trace := Extend(Steps(time), trace, root);
      r, trace := FillEpoch(record, left - 1, trace);
    }

    method FillEpoch(record: Record, fuel: nat, ghost before: seq<Root>) returns (r: Rotation, ghost trace: seq<Root>)
      requires Run(Steps(time), before) && before[|before| - 1] == root && root.active.None?
               && ValidRecord(time, record)
      requires root.pending == Some(EpochDir(None, false, None))
      modifies this
      ensures Leads(Steps(time), trace, before[0], root)
      ensures !r.Refused? && (fuel >= 4 ==> r.Done?)
      ensures r.Done? ==> root == Exposed(old(root), record)
    {
      trace := before;
      if fuel < 1 {
        return Stopped, trace;
      }
      root := root.(pending := Some(EpochDir(None, true, None)));
      trace := Extend(Steps(time), trace, root);
      if fuel < 2 {
        return Stopped, trace;
      }
      root := root.(pending := Some(EpochDir(None, true, Some(root.made))), made := root.made + 1);
      trace := Extend(Steps(time), trace, root);
      r, trace := ExposeEpoch(record, old(root).made, fuel - 2, trace);
    }

    /** Adds the record to a pending epoch that has its directories, and exposes it. */
    method ExposeEpoch(record: Record, ghost replica: nat, fuel: nat, ghost before: seq<Root>)
      returns (r: Rotation, ghost trace: seq<Root>)
      requires Run(Steps(time), before) && before[|before| - 1] == root && root.active.None?
               && ValidRecord(time, record)
      requires root.pending == Some(EpochDir(None, true, Some(replica)))
      modifies this
      ensures Leads(Steps(time), trace, before[0], root)
      ensures !r.Refused? && (fuel >= 2 ==> r.Done?)
      ensures r.Done? ==> root == old(root).(active := Some(EpochDir(Some(record), true, Some(replica))),
                                             pending := None,
                                             serves := old(root).serves[replica := record.epoch])
    {
      trace := before;
      if fuel < 1 {
        return Stopped, trace;
      }
      root := root.(pending := Some(root.pending.value.(record := Some(record))));
      trace := Extend(Steps(time), trace, root);
      if fuel < 2 {
        return Stopped, trace;
      }
      root := root.(active := root.pending, pending := None,
                    serves := root.serves[root.pending.value.replica.value := record.epoch]);
      trace := Extend(Steps(time), trace, root);
      return Done, trace;
    }

    /** Removes the retired epochs that began before `cutoff`, in any order. */
    method ExpireRetired(cutoff: int, fuel: nat, kept: (bool, bool, bool)) returns (r: Rotation, ghost trace: seq<Root>)
      requires Inv(time, root)
      modifies this
      ensures Leads(Steps(time), trace, old(root), root)
      ensures r.Refused? <==> |old(root).retired| > MAX_EPOCHS
      ensures r.Refused? ==> root == old(root)
      ensures fuel >= |old(root).retired| ==> !r.Stopped?
      ensures r.Done? ==> root == old(root).(retired := Younger(time, old(root).retired, cutoff))
      ensures root.active == old(root).active && Inv(time, root)
    {
      trace := [root];
      if |root.retired| > MAX_EPOCHS {
        return Refused(InventoryLimit), trace;
      }
      ghost var listed := root.retired;
      var todo := root.retired.Keys;
      var left := fuel;
      while todo != {}
        invariant Leads(Steps(time), trace, old(root), root) && Inv(time, root)
        invariant root == old(root).(retired := root.retired) && todo <= root.retired.Keys
        invariant Swept(time, listed, root.retired, todo, cutoff)
        invariant fuel >= |listed| ==> left >= |todo|
        decreases todo
      {
        var name :| name in todo;
        assert todo == todo - {name} + {name};
        todo := todo - {name};
        SweptStep(time, listed, root.retired, todo, name, cutoff);
        if time(name).value < cutoff {
          if left == 0 {
            trace := RemoveRetired(name, Some(kept), trace);
            return Stopped, trace;
          }
          left := left - 1;
          trace := RemoveRetired(name, None, trace);
        }
      }
      SweptAll(time, listed, root.retired, cutoff);
      return Done, trace;
    }

    /** Removes one retired epoch, or is stopped with some of its parts left. */
    method RemoveRetired(name: Name, left: Option<(bool, bool, bool)>, ghost before: seq<Root>)
      returns (ghost trace: seq<Root>)
      requires Run(Steps(time), before) && before[|before| - 1] == root && name in root.retired && Inv(time, root)
      modifies this
      ensures Leads(Steps(time), trace, before[0], root) && Inv(time, root)
      ensures root == old(root).(retired := root.retired)
      ensures left.None? ==> root.retired == old(root).retired - {name}
    {
      root := root.(retired := if left.Some? then root.retired[name := root.retired[name].Kept(left.value)]
                               else root.retired - {name});
      assert Removes(old(root), root, name);
      RemoveKeepsInv(time, old(root), root, name);
      trace := Extend(Steps(time), before, root);
    }

    /** Retires and removes an active epoch that began before `cutoff`, unless its replica runs. */
    method ExpireStoppedReplica(cutoff: int, running: bool, fuel: nat, kept: (bool, bool, bool))
      returns (r: Rotation, ghost trace: seq<Root>)
      requires Inv(time, root)
      modifies this
      ensures Leads(Steps(time), trace, old(root), root)
      ensures var stale := !running && old(root).active.Some?
                           && time(old(root).active.value.record.value.epoch).value < cutoff;
              && (!stale ==> r.Done? && root == old(root))
              && (stale ==>
                    var name := old(root).active.value.record.value.epoch;
                    && (r.Refused? <==> name in old(root).retired) && (r.Refused? ==> root == old(root))
                    && (r.Done? ==> root == old(root).(active := None))
                    && (fuel >= 2 ==> !r.Stopped?))
    {
      trace := [root];
      if running || root.active.None? {
        return Done, trace;
      }
      var name := root.active.value.record.value.epoch;
      if time(name).value >= cutoff {
        return Done, trace;
      }
      if name in root.retired {
        return Refused(AlreadyRetired), trace;
      }
      if fuel == 0 {
        return Stopped, trace;
      }
      root := root.(active := None, retired := root.retired[name := root.active.value]);
      trace := Extend(Steps(time), trace, root);
      if fuel == 1 {
        root := root.(retired := root.retired[name := root.retired[name].Kept(kept)]);
        assert Removes(trace[|trace| - 1], root, name);
        trace := Extend(Steps(time), trace, root);
        return Stopped, trace;
      }
      root := root.(retired := root.retired - {name});
      assert Removes(trace[|trace| - 1], root, name);
      trace := Extend(Steps(time), trace, root);
      assert root.retired == old(root).retired;
      return Done, trace;
    }
  }

  /** Of the listed epochs all that are not left to do have been dealt with, and nothing else changed. */
  ghost predicate Swept(time: EpochTime, listed: map<Name, EpochDir>, retired: map<Name, EpochDir>, todo: set<Name>,
                        cutoff: int) {
    && (forall name | name in retired :: name in listed && retired[name] == listed[name] && time(name).Some?)
    && (forall name | name in listed && name !in todo ::
          time(name).Some? && (name in retired <==> time(name).value >= cutoff))
  }

  lemma SweptStep(time: EpochTime, listed: map<Name, EpochDir>, retired: map<Name, EpochDir>, todo: set<Name>,
                  name: Name, cutoff: int)
    requires Swept(time, listed, retired, todo + {name}, cutoff) && name in retired && name !in todo
             && todo <= retired.Keys
    ensures time(name).value >= cutoff ==> Swept(time, listed, retired, todo, cutoff)
    ensures time(name).value < cutoff ==>
              Swept(time, listed, retired - {name}, todo, cutoff) && todo <= (retired - {name}).Keys
  {
  }

  lemma SweptAll(time: EpochTime, listed: map<Name, EpochDir>, retired: map<Name, EpochDir>, cutoff: int)
    requires Swept(time, listed, retired, {}, cutoff)
    ensures retired == Younger(time, listed, cutoff)
  {
  }

  function Younger(time: EpochTime, retired: map<Name, EpochDir>, cutoff: int): map<Name, EpochDir> {
    map name | name in retired && time(name).Some? && time(name).value >= cutoff :: retired[name]
  }

  /** The root once a new epoch has been exposed. */
  function Exposed(root: Root, record: Record): Root {
    root.(active := Some(EpochDir(Some(record), true, Some(root.made))), pending := None,
          made := root.made + 1, serves := root.serves[root.made := record.epoch])
  }

  /** The root after a whole rotation. */
  function Rotated(root: Root, record: Record): Root {
    if root.active.Some? && root.active.value.record.Some? then
      Exposed(root.(retired := root.retired[root.active.value.record.value.epoch := root.active.value]), record)
    else
      Exposed(root, record)
  }
}
