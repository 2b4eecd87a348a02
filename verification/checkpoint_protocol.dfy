/** The protocol of checkpoint publication and expiration over a remote store and a local directory.

    A publication loads the open epoch, sends and verifies its objects, publishes the manifest,
    keeps a local copy and switches the selector last.  It may stop behind any step.  Expiration
    runs between publications, under the same lock, and a removal may stop midway. */
module CheckpointProtocol {
  import opened Framing
  import opened Content
  import opened Retention
  import opened Runs

  type Name = Bytes
  type Object = Bytes

  /** Accepted retention bounds in days, the time an epoch or checkpoint name carries, and the names
      that do not look like one at all. */
  datatype Config = Config(local: int, remote: int, time: Name -> Option<int>, foreign: Name -> bool)

  /** A manifest: the objects it lists and when it was uploaded. */
  datatype Manifest = Manifest(objects: set<Object>, uploaded: int)

  /** A remote epoch: when each object was first uploaded, and its manifests. */
  datatype Epoch = Epoch(objects: map<Object, int>, manifests: map<Name, Manifest>)

  /** The remote selector and when it was uploaded. */
  datatype Selection = Selection(epoch: Name, checkpoint: Name, uploaded: int)

  /** A local checkpoint directory: hard links to the objects, to the manifest and to its selector. */
  datatype Copy = Copy(epoch: Name, objects: set<Object>, manifest: Option<set<Object>>, selector: bool) {
    predicate Complete() {
      selector && manifest.Some? && manifest.value <= objects
    }

    /** What a removal that was stopped may have left of `whole`. */
    predicate RemainsOf(whole: Copy) {
      && epoch == whole.epoch && objects <= whole.objects
      && (manifest.Some? ==> manifest == whole.manifest) && (selector ==> whole.selector)
    }
  }

  datatype Job = Job(epoch: Name, duration: int, objects: set<Object>)

  datatype Phase =
    | Idle
    | Sending(job: Job)
    | Verified(job: Job)
    | Listed(job: Job, name: Name)
    | Rechecked(job: Job, name: Name)
    | Retained(job: Job, name: Name)

  datatype State = State(
    now: int,
    remote: map<Name, Epoch>,
    selector: Option<Selection>,
    copies: map<Name, Copy>,
    expired: set<Name>,
    phase: Phase)

  function Start(cfg: Config, name: Name): int {
    if cfg.time(name).Some? then cfg.time(name).value else 0
  }

  /** The local checkpoints an expiration removes. */
  predicate Overdue(cfg: Config, name: Name, now: int) {
    !cfg.foreign(name) && cfg.time(name).Some? && ExpiresCheckpoint(Start(cfg, name), now, cfg.local)
  }

  function RemoteEpoch(s: State, epoch: Name): Epoch {
    if epoch in s.remote then s.remote[epoch] else Epoch(map[], map[])
  }

  predicate LoadsEpoch(cfg: Config, epoch: Name, duration: int, now: int, reserve: nat) {
    cfg.time(epoch).Some? && AcceptedDuration(duration) && InWindow(Start(cfg, epoch), duration, now, reserve)
  }

  // Steps.

  ghost predicate Passes(s: State, t: State) {
    s.now <= t.now && t == s.(now := t.now)
  }

  ghost predicate Loads(cfg: Config, s: State, t: State) {
    && s.phase.Idle? && t.phase.Sending? && t == s.(phase := t.phase)
    && LoadsEpoch(cfg, t.phase.job.epoch, t.phase.job.duration, s.now, PUBLICATION_ALLOWANCE_SECONDS)
  }

  /** Uploads some objects of the job; those already there are left alone. */
  ghost predicate Sends(s: State, t: State) {
    && s.phase.Sending?
    && var e := s.phase.job.epoch;
       var before, after := RemoteEpoch(s, e), RemoteEpoch(t, e);
    && before.objects.Keys <= after.objects.Keys <= before.objects.Keys + s.phase.job.objects
    && (forall x | x in before.objects :: after.objects[x] == before.objects[x])
    && (forall x | x in after.objects && x !in before.objects :: after.objects[x] == s.now)
    && t == s.(remote := s.remote[e := Epoch(after.objects, before.manifests)])
  }

  ghost predicate Verifies(s: State, t: State) {
    && s.phase.Sending? && s.phase.job.objects <= RemoteEpoch(s, s.phase.job.epoch).objects.Keys
    && s.phase.job.epoch in s.remote && t == s.(phase := Verified(s.phase.job))
  }

  ghost predicate Lists(cfg: Config, s: State, t: State) {
    && s.phase.Verified? && t.phase.Listed? && t.phase.job == s.phase.job
    && var e := s.phase.job.epoch;
       e in s.remote && t.phase.name !in s.remote[e].manifests && cfg.time(t.phase.name) == Some(Stamp(s.now))
       && var manifest := Manifest(s.phase.job.objects, s.now);
          var more := s.remote[e].(manifests := s.remote[e].manifests[t.phase.name := manifest]);
          t == s.(phase := t.phase, remote := s.remote[e := more])
  }

  ghost predicate Rechecks(cfg: Config, s: State, t: State) {
    && s.phase.Listed? && LoadsEpoch(cfg, s.phase.job.epoch, s.phase.job.duration, s.now, 0)
    && t == s.(phase := Rechecked(s.phase.job, s.phase.name))
  }

  function CopyOf(job: Job): Copy {
    Copy(job.epoch, job.objects, Some(job.objects), true)
  }

  /** The rename that makes a finished local copy recognisable. */
  ghost predicate Retains(s: State, t: State) {
    && s.phase.Rechecked? && s.phase.name !in s.copies
    && t == s.(phase := Retained(s.phase.job, s.phase.name), copies := s.copies[s.phase.name := CopyOf(s.phase.job)])
  }

  ghost predicate Selects(s: State, t: State) {
    s.phase.Retained? && t == s.(phase := Idle, selector := Some(Selection(s.phase.job.epoch, s.phase.name, s.now)))
  }

  ghost predicate Stops(s: State, t: State) {
    t == s.(phase := Idle)
  }

  /** Purges an epoch beyond its cutoff, or is stopped with some of its objects left. */
  ghost predicate ExpiresRemote(cfg: Config, s: State, t: State, epoch: Name) {
    && s.phase.Idle? && epoch in s.remote && ExpiresEpoch(Start(cfg, epoch), s.now, cfg.local)
    && (epoch in t.remote ==> t.remote[epoch].objects.Keys <= s.remote[epoch].objects.Keys)
    && t == s.(expired := s.expired + {epoch},
               remote := if epoch in t.remote then s.remote[epoch := t.remote[epoch]] else s.remote - {epoch})
  }

  ghost predicate ExpiresCopy(cfg: Config, s: State, t: State, name: Name) {
    && s.phase.Idle? && name in s.copies && Overdue(cfg, name, s.now)
    && (name in t.copies ==> t.copies[name].RemainsOf(s.copies[name]))
    && t == s.(copies := if name in t.copies then s.copies[name := t.copies[name]] else s.copies - {name})
  }

  ghost predicate Next(cfg: Config, s: State, t: State) {
    || Passes(s, t) || Loads(cfg, s, t) || Sends(s, t) || Verifies(s, t) || Lists(cfg, s, t) || Rechecks(cfg, s, t)
    || Retains(s, t) || Selects(s, t) || Stops(s, t)
    || (exists epoch :: ExpiresRemote(cfg, s, t, epoch)) || (exists name :: ExpiresCopy(cfg, s, t, name))
  }

  // What every step keeps.

  /** Every published manifest is backed by objects, and nothing was uploaded before the epoch's start. */
  ghost predicate EpochInv(cfg: Config, s: State, epoch: Name)
    requires epoch in s.remote
  {
    && cfg.time(epoch).Some?
    && (epoch !in s.expired ==>
          && (forall c | c in s.remote[epoch].manifests ::
                s.remote[epoch].manifests[c].objects <= s.remote[epoch].objects.Keys
                && Start(cfg, epoch) <= s.remote[epoch].manifests[c].uploaded <= s.now)
          && (forall x | x in s.remote[epoch].objects :: Start(cfg, epoch) <= s.remote[epoch].objects[x] <= s.now))
  }

  ghost predicate RemoteInv(cfg: Config, s: State) {
    && (forall epoch | epoch in s.remote :: EpochInv(cfg, s, epoch))
    && (forall epoch | epoch in s.expired :: ExpiresEpoch(Start(cfg, epoch), s.now, cfg.local))
  }

  /** A checkpoint named within a day of its epoch's start, selected later, listed unless expired. */
  ghost predicate SelectableInv(cfg: Config, s: State, selected: Selection) {
    && Start(cfg, selected.checkpoint) < Start(cfg, selected.epoch) + DAY
    && Start(cfg, selected.checkpoint) <= Stamp(s.now) && Start(cfg, selected.checkpoint) <= selected.uploaded <= s.now
    && (selected.epoch in s.expired
        || (selected.epoch in s.remote && selected.checkpoint in s.remote[selected.epoch].manifests))
  }

  ghost predicate SelectorInv(cfg: Config, s: State) {
    s.selector.Some? ==> SelectableInv(cfg, s, s.selector.value)
  }

  ghost predicate CopiesInv(cfg: Config, s: State) {
    forall name | name in s.copies ::
      s.copies[name].Complete() || Overdue(cfg, name, s.now)
  }

  /** The epoch of a job in flight has been open at a time not behind us, and is not expired. */
  ghost predicate JobInv(cfg: Config, s: State, job: Job) {
    cfg.time(job.epoch).Some? && AcceptedDuration(job.duration) && Start(cfg, job.epoch) <= s.now
    && job.epoch !in s.expired
  }

  /** The manifest of a job in flight is listed, under a name no older than the selected one. */
  ghost predicate NameInv(cfg: Config, s: State, job: Job, name: Name) {
    && job.epoch in s.remote && name in s.remote[job.epoch].manifests
    && cfg.time(name).Some? && Start(cfg, name) <= Stamp(s.now)
    && (s.selector.Some? ==> Start(cfg, s.selector.value.checkpoint) <= Start(cfg, name))
  }

  ghost predicate PhaseInv(cfg: Config, s: State) {
    match s.phase
    case Idle => true
    case Sending(job) => JobInv(cfg, s, job)
    case Verified(job) =>
      JobInv(cfg, s, job) && job.epoch in s.remote && job.objects <= s.remote[job.epoch].objects.Keys
    case Listed(job, name) => JobInv(cfg, s, job) && NameInv(cfg, s, job, name)
    case Rechecked(job, name) =>
      JobInv(cfg, s, job) && NameInv(cfg, s, job, name) && Start(cfg, name) < Start(cfg, job.epoch) + DAY
    case Retained(job, name) =>
      JobInv(cfg, s, job) && NameInv(cfg, s, job, name) && Start(cfg, name) < Start(cfg, job.epoch) + DAY
  }

  ghost predicate Inv(cfg: Config, s: State) {
    RemoteInv(cfg, s) && SelectorInv(cfg, s) && CopiesInv(cfg, s) && PhaseInv(cfg, s)
  }

  /** The selected checkpoint never moves back in time. */
  ghost predicate Advances(cfg: Config, s: State, t: State) {
    s.selector.Some? ==>
      t.selector.Some? && Start(cfg, s.selector.value.checkpoint) <= Start(cfg, t.selector.value.checkpoint)
  }

  lemma StampsAreMonotone(earlier: int, later: int)
    requires earlier <= later
    ensures Stamp(earlier) <= Stamp(later)
  {
    assert Stamp(earlier) == SECOND * (earlier / SECOND) && Stamp(later) == SECOND * (later / SECOND);
  }

  lemma PassKeepsInv(cfg: Config, s: State, t: State)
    requires Inv(cfg, s) && Passes(s, t)
    ensures Inv(cfg, t)
  {
    StampsAreMonotone(s.now, t.now);
    forall epoch | epoch in t.remote ensures EpochInv(cfg, t, epoch) {
      assert EpochInv(cfg, s, epoch);
    }
  }

  lemma LoadKeepsInv(cfg: Config, s: State, t: State)
    requires Inv(cfg, s) && 1 <= cfg.local && Loads(cfg, s, t)
    ensures Inv(cfg, t)
  {
    var job := t.phase.job;
    if job.epoch in s.expired {
      ExpiredEpochsStayClosed(Start(cfg, job.epoch), job.duration, s.now, s.now, cfg.local,
                              PUBLICATION_ALLOWANCE_SECONDS);
    }
    forall epoch | epoch in t.remote ensures EpochInv(cfg, t, epoch) {
      assert EpochInv(cfg, s, epoch);
    }
  }

  lemma SendKeepsInv(cfg: Config, s: State, t: State)
    requires Inv(cfg, s) && Sends(s, t)
    ensures Inv(cfg, t)
  {
    var job := s.phase.job;
    if job.epoch in s.remote {
      assert EpochInv(cfg, s, job.epoch);
    }
    forall epoch | epoch in t.remote ensures EpochInv(cfg, t, epoch) {
      if epoch != job.epoch {
        assert EpochInv(cfg, s, epoch);
      }
    }
  }

  lemma ListKeepsInv(cfg: Config, s: State, t: State)
    requires Inv(cfg, s) && Lists(cfg, s, t)
    ensures Inv(cfg, t)
  {
    var job := s.phase.job;
    assert EpochInv(cfg, s, job.epoch);
    forall epoch | epoch in t.remote ensures EpochInv(cfg, t, epoch) {
      if epoch != job.epoch {
        assert EpochInv(cfg, s, epoch);
      }
    }
  }

  lemma SamePlaceKeepsInv(cfg: Config, s: State, t: State)
    requires Inv(cfg, s) && t == s.(phase := t.phase, copies := t.copies, selector := t.selector)
    ensures RemoteInv(cfg, t)
  {
    forall epoch | epoch in t.remote ensures EpochInv(cfg, t, epoch) {
      assert EpochInv(cfg, s, epoch);
    }
  }

  lemma PublishKeepsInv(cfg: Config, s: State, t: State)
    requires Inv(cfg, s)
    requires Verifies(s, t) || Rechecks(cfg, s, t) || Retains(s, t) || Selects(s, t) || Stops(s, t)
    ensures Inv(cfg, t) && Advances(cfg, s, t)
  {
    SamePlaceKeepsInv(cfg, s, t);
    if Rechecks(cfg, s, t) {
      assert s.phase.job.duration * SECOND <= DAY;
    }
  }

  lemma ExpireRemoteKeepsInv(cfg: Config, s: State, t: State, epoch: Name)
    requires Inv(cfg, s) && ExpiresRemote(cfg, s, t, epoch)
    ensures Inv(cfg, t)
  {
    forall other | other in t.remote ensures EpochInv(cfg, t, other) {
      assert EpochInv(cfg, s, other);
    }
  }

  lemma ExpireCopyKeepsInv(cfg: Config, s: State, t: State, name: Name)
    requires Inv(cfg, s) && ExpiresCopy(cfg, s, t, name)
    ensures Inv(cfg, t)
  {
    SamePlaceKeepsInv(cfg, s, t);
    forall other | other in t.copies
      ensures t.copies[other].Complete() || Overdue(cfg, other, t.now)
    {
      assert other in s.copies;
    }
  }

  /** Every step keeps the invariant, and the selector never moves back in time. */
  lemma NextKeepsInv(cfg: Config, s: State, t: State)
    requires AcceptedRetention(cfg.local, cfg.remote) && Inv(cfg, s) && Next(cfg, s, t)
    ensures Inv(cfg, t) && Advances(cfg, s, t)
  {
    if Passes(s, t) {
      PassKeepsInv(cfg, s, t);
    } else if Loads(cfg, s, t) {
      LoadKeepsInv(cfg, s, t);
    } else if Sends(s, t) {
      SendKeepsInv(cfg, s, t);
    } else if Lists(cfg, s, t) {
      ListKeepsInv(cfg, s, t);
    } else if exists epoch :: ExpiresRemote(cfg, s, t, epoch) {
      var epoch :| ExpiresRemote(cfg, s, t, epoch);
      ExpireRemoteKeepsInv(cfg, s, t, epoch);
    } else if exists name :: ExpiresCopy(cfg, s, t, name) {
      var name :| ExpiresCopy(cfg, s, t, name);
      ExpireCopyKeepsInv(cfg, s, t, name);
    } else {
      PublishKeepsInv(cfg, s, t);
    }
  }

  // Runs.

  ghost function Steps(cfg: Config): (State, State) -> bool {
    (s: State, t: State) => Next(cfg, s, t)
  }

  ghost function Safe(cfg: Config): State -> bool {
    (s: State) => Inv(cfg, s)
  }

  ghost function Forward(cfg: Config): (State, State) -> bool {
    (s: State, t: State) => Advances(cfg, s, t)
  }

  function Empty(now: int): State {
    State(now, map[], None, map[], {}, Idle)
  }

  lemma StepsAreSafe(cfg: Config)
    requires AcceptedRetention(cfg.local, cfg.remote)
    ensures Invariant(Steps(cfg), Safe(cfg)) && Progress(Steps(cfg), Safe(cfg), Forward(cfg))
  {
    forall s, t | Safe(cfg)(s) && Steps(cfg)(s, t) ensures Safe(cfg)(t) && Forward(cfg)(s, t) {
      NextKeepsInv(cfg, s, t);
    }
  }

  lemma RunKeepsInv(cfg: Config, trace: seq<State>, i: nat)
    requires AcceptedRetention(cfg.local, cfg.remote) && Run(Steps(cfg), trace) && Inv(cfg, trace[0]) && i < |trace|
    ensures Inv(cfg, trace[i])
  {
    StepsAreSafe(cfg);
    HoldsAlong(Steps(cfg), Safe(cfg), trace, i);
    assert Safe(cfg)(trace[i]);
  }

  /** The manifest is listed in the one epoch the selector names, and all its objects are there. */
  ghost predicate Restorable(s: State, epoch: Name, name: Name) {
    && epoch in s.remote && name in s.remote[epoch].manifests
    && s.remote[epoch].manifests[name].objects <= s.remote[epoch].objects.Keys
  }

  /** At every step of every run the selector names a restorable checkpoint, unless its epoch has
      been expired; and every recognised local checkpoint is complete, unless it is past its retention. */
  lemma SelectorSafety(cfg: Config, trace: seq<State>, start: int, i: nat)
    requires AcceptedRetention(cfg.local, cfg.remote) && Run(Steps(cfg), trace) && trace[0] == Empty(start)
             && i < |trace|
    ensures trace[i].selector.Some? ==>
              || trace[i].selector.value.epoch in trace[i].expired
              || Restorable(trace[i], trace[i].selector.value.epoch, trace[i].selector.value.checkpoint)
    ensures forall name | name in trace[i].copies ::
              trace[i].copies[name].Complete() || Overdue(cfg, name, trace[i].now)
  {
    RunKeepsInv(cfg, trace, i);
    if trace[i].selector.Some? && trace[i].selector.value.epoch !in trace[i].expired {
      assert EpochInv(cfg, trace[i], trace[i].selector.value.epoch);
    }
  }

  /** Nothing a restore from the selector needs is within a day of the provider's hiding age: the
      selector, its manifest and the objects of its epoch. */
  ghost predicate ClearOfHiding(cfg: Config, s: State, selected: Selection)
    requires Restorable(s, selected.epoch, selected.checkpoint)
  {
    var epoch, oldest := s.remote[selected.epoch], (cfg.remote - 1) * DAY;
    && s.now - selected.uploaded < oldest && s.now - epoch.manifests[selected.checkpoint].uploaded < oldest
    && forall x | x in epoch.objects :: s.now - epoch.objects[x] < oldest
  }

  /** While the selected checkpoint is at most the local retention old, its epoch has not been
      expired, it is restorable, and nothing it needs is close to the hiding age. */
  lemma FreshSelectionIsRestorable(cfg: Config, trace: seq<State>, start: int, i: nat)
    requires AcceptedRetention(cfg.local, cfg.remote) && Run(Steps(cfg), trace) && trace[0] == Empty(start)
             && i < |trace|
    requires trace[i].selector.Some?
    requires trace[i].now - Start(cfg, trace[i].selector.value.checkpoint) <= cfg.local * DAY
    ensures trace[i].selector.value.epoch !in trace[i].expired
    ensures Restorable(trace[i], trace[i].selector.value.epoch, trace[i].selector.value.checkpoint)
    ensures ClearOfHiding(cfg, trace[i], trace[i].selector.value)
  {
    var s, epoch := trace[i], trace[i].selector.value.epoch;
    RunKeepsInv(cfg, trace, i);
    assert SelectableInv(cfg, s, s.selector.value);
    assert s.now < Start(cfg, epoch) + DAY + cfg.local * DAY;
    assert !ExpiresEpoch(Start(cfg, epoch), s.now, cfg.local);
    assert EpochInv(cfg, s, epoch);
    assert (cfg.local + 1) * DAY <= (cfg.remote - 1) * DAY;
  }

  lemma SelectorAdvances(cfg: Config, trace: seq<State>, i: nat, j: nat)
    requires AcceptedRetention(cfg.local, cfg.remote) && Run(Steps(cfg), trace) && Inv(cfg, trace[0])
             && i <= j < |trace|
    ensures Advances(cfg, trace[i], trace[j])
  {
    StepsAreSafe(cfg);
    RelatesAlong(Steps(cfg), Safe(cfg), Forward(cfg), trace, i, j);
    assert Forward(cfg)(trace[i], trace[j]);
  }

  // A removal that is stopped midway leaves a recognised local checkpoint that is not complete.

  ghost predicate LeavesIncomplete(cfg: Config, s: State, t: State, name: Name) {
    Next(cfg, s, t) && name in t.copies && !t.copies[name].Complete()
  }

  /** The exact condition: a complete copy can become incomplete in one step exactly between
      publications and past its retention. */
  lemma CopiesBreakExactlyWhenExpirable(cfg: Config, s: State, name: Name)
    requires name in s.copies && s.copies[name].Complete()
    ensures (exists t :: LeavesIncomplete(cfg, s, t, name))
            <==> s.phase.Idle? && Overdue(cfg, name, s.now)
  {
    if s.phase.Idle? && Overdue(cfg, name, s.now) {
      var t := StopsRemoval(cfg, s, name);
      assert LeavesIncomplete(cfg, s, t, name);
    }
    if exists t :: LeavesIncomplete(cfg, s, t, name) {
      var t :| LeavesIncomplete(cfg, s, t, name);
      OnlyExpirationTouchesCopies(cfg, s, t, name);
    }
  }

  /** A copy stays as it is as long as it is not overdue. */
  ghost predicate KeepsCopies(cfg: Config, s: State, t: State) {
    && s.now <= t.now
    && forall name | name in s.copies ::
         Overdue(cfg, name, t.now) || (name in t.copies && t.copies[name] == s.copies[name])
  }

  ghost function Keeping(cfg: Config): (State, State) -> bool {
    (s: State, t: State) => KeepsCopies(cfg, s, t)
  }

  lemma NextKeepsCopies(cfg: Config, s: State, t: State)
    requires Next(cfg, s, t)
    ensures KeepsCopies(cfg, s, t)
  {
    forall name | name in s.copies
      ensures Overdue(cfg, name, t.now) || (name in t.copies && t.copies[name] == s.copies[name])
    {
      OnlyExpirationTouchesCopies(cfg, s, t, name);
    }
  }

  lemma KeepsCopiesIsTransitive(cfg: Config, s: State, t: State, u: State)
    requires KeepsCopies(cfg, s, t) && KeepsCopies(cfg, t, u)
    ensures KeepsCopies(cfg, s, u)
  {
    forall name | name in s.copies
      ensures Overdue(cfg, name, u.now) || (name in u.copies && u.copies[name] == s.copies[name])
    {
      assert Overdue(cfg, name, t.now) ==> Overdue(cfg, name, u.now);
    }
  }

  /** A recognised local checkpoint is still there at every later step at which it is within its
      retention, unchanged and complete. */
  lemma CopiesOutliveTheirRetention(cfg: Config, trace: seq<State>, start: int, i: nat, j: nat, name: Name)
    requires AcceptedRetention(cfg.local, cfg.remote) && Run(Steps(cfg), trace) && trace[0] == Empty(start)
             && i <= j < |trace|
    requires name in trace[i].copies && !Overdue(cfg, name, trace[j].now)
    ensures name in trace[j].copies && trace[j].copies[name] == trace[i].copies[name]
            && trace[j].copies[name].Complete()
  {
    forall s, t | Next(cfg, s, t) ensures KeepsCopies(cfg, s, t) {
      NextKeepsCopies(cfg, s, t);
    }
    forall s, t, u | KeepsCopies(cfg, s, t) && KeepsCopies(cfg, t, u) ensures KeepsCopies(cfg, s, u) {
      KeepsCopiesIsTransitive(cfg, s, t, u);
    }
    StepsAreSafe(cfg);
    RelatesAlong(Steps(cfg), Safe(cfg), Keeping(cfg), trace, i, j);
    assert Keeping(cfg)(trace[i], trace[j]);
    SelectorSafety(cfg, trace, start, j);
  }

  lemma OnlyExpirationTouchesCopies(cfg: Config, s: State, t: State, name: Name)
    requires Next(cfg, s, t) && name in s.copies
    ensures ExpiresCopy(cfg, s, t, name) || (name in t.copies && t.copies[name] == s.copies[name])
    ensures s.now <= t.now
  {
  }

  lemma StopsRemoval(cfg: Config, s: State, name: Name) returns (t: State)
    requires s.phase.Idle? && name in s.copies && Overdue(cfg, name, s.now)
    ensures LeavesIncomplete(cfg, s, t, name)
  {
    t := s.(copies := s.copies[name := s.copies[name].(manifest := None)]);
    assert ExpiresCopy(cfg, s, t, name);
  }

  /** The state in which the objects of a job have been sent at the time `start`. */
  function Sent(job: Job, start: int): State {
    Empty(start).(phase := Verified(job), remote := map[job.epoch := Epoch(map x | x in job.objects :: start, map[])])
  }

  lemma SendsFromEmpty(cfg: Config, job: Job, start: int) returns (trace: seq<State>)
    requires cfg.time(job.epoch) == Some(start) && AcceptedDuration(job.duration)
    ensures Leads(Steps(cfg), trace, Empty(start), Sent(job, start))
  {
    var sending := Empty(start).(phase := Sending(job));
    trace := Extend(Steps(cfg), [Empty(start)], sending);
    var sent := Sent(job, start).(phase := Sending(job));
    assert sent.remote == map[][job.epoch := RemoteEpoch(sent, job.epoch)];
    trace := Extend(Steps(cfg), trace, sent);
    trace := Extend(Steps(cfg), trace, Sent(job, start));
  }

  /** A publication at the very start of an epoch, step by step. */
  lemma PublishesFromEmpty(cfg: Config, job: Job, name: Name, start: int) returns (trace: seq<State>)
    requires cfg.time(job.epoch) == Some(start) && cfg.time(name) == Some(start) && start % SECOND == 0
    requires AcceptedDuration(job.duration)
    ensures Run(Steps(cfg), trace) && trace[0] == Empty(start)
    ensures var last := trace[|trace| - 1];
            last.now == start && last.phase.Idle? && last.copies == map[name := CopyOf(job)]
            && last.selector == Some(Selection(job.epoch, name, start)) && Restorable(last, job.epoch, name)
  {
    trace := SendsFromEmpty(cfg, job, start);
    var s := Sent(job, start);
    var listed := s.remote[job.epoch].(manifests := map[name := Manifest(job.objects, start)]);
    s := s.(phase := Listed(job, name), remote := map[job.epoch := listed]);
    trace := Extend(Steps(cfg), trace, s);
    s := s.(phase := Rechecked(job, name));
    trace := Extend(Steps(cfg), trace, s);
    s := s.(phase := Retained(job, name), copies := map[name := CopyOf(job)]);
    trace := Extend(Steps(cfg), trace, s);
    s := s.(phase := Idle, selector := Some(Selection(job.epoch, name, start)));
    trace := Extend(Steps(cfg), trace, s);
  }

  /** A run from the empty store that ends with a recognised, incomplete local checkpoint: publish,
      let the retention pass, stop the removal midway.  The age condition of SelectorSafety cannot
      be dropped. */
  lemma StoppedRemovalLeavesAnIncompleteCopy(cfg: Config, job: Job, name: Name, start: int) returns (trace: seq<State>)
    requires cfg.time(job.epoch) == Some(start) && cfg.time(name) == Some(start) && start % SECOND == 0
    requires AcceptedDuration(job.duration) && AcceptedRetention(cfg.local, cfg.remote) && !cfg.foreign(name)
    ensures Run(Steps(cfg), trace) && trace[0] == Empty(start)
    ensures name in trace[|trace| - 1].copies && !trace[|trace| - 1].copies[name].Complete()
  {
    trace := PublishesFromEmpty(cfg, job, name, start);
    var s := trace[|trace| - 1];
    s := s.(now := start + cfg.local * DAY + 1);
    trace := Extend(Steps(cfg), trace, s);
    var broken := StopsRemoval(cfg, s, name);
    trace := Extend(Steps(cfg), trace, broken);
  }
}
