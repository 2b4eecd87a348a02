/** The publisher and the two expiration jobs, as operations over the remote store and the local
    checkpoint directory; each of them is a run of the checkpoint protocol. */
module CheckpointServices {
  import opened Content
  import opened Retention
  import opened Runs
  import opened CheckpointProtocol
  import opened ManifestInventories

  /** The clock as a publication reads it. */
  datatype Clock = Clock(loaded: int, sent: int, named: int, rechecked: int, selected: int) {
    predicate Steady() {
      loaded <= sent <= named <= rechecked <= selected
    }
  }

  /** Where a publication is stopped; `delivered` tells which objects an incomplete transfer got across,
      `accepted` whether the remote took a selector whose upload was reported as failed, and `pruned`
      how many cached objects were removed before the stop. */
  datatype Fault =
    | Healthy
    | Interrupted(delivered: set<Object>)
    | Lossy(delivered: set<Object>)
    | AfterVerify
    | AfterList
    | InRetain(links: nat)
    | AfterRetain
    | InSelect(accepted: bool)
    | AfterSelect(pruned: nat)

  /** One try to publish, and how far it gets. */
  datatype Attempt = Attempt(job: Job, name: Name, clock: Clock, fault: Fault) {
    /** All objects of the job get across; the epoch is open at the start with the allowance to spare. */
    predicate Sends(cfg: Config, remote: map<Name, Epoch>) {
      && LoadsEpoch(cfg, job.epoch, job.duration, clock.loaded, PUBLICATION_ALLOWANCE_SECONDS)
      && !fault.Interrupted?
      && (fault.Lossy? ==> job.objects <= fault.delivered + KnownObjects(remote, job.epoch))
    }

    /** The manifest of the verified objects gets its name. */
    predicate Lists(cfg: Config, remote: map<Name, Epoch>) {
      Sends(cfg, remote) && !fault.AfterVerify? && name !in KnownManifests(remote, job.epoch)
    }

    /** The local copy becomes visible: the epoch is still open at the second check. */
    predicate Retains(cfg: Config, remote: map<Name, Epoch>, copies: map<Name, Copy>) {
      && Lists(cfg, remote) && !fault.AfterList?
      && LoadsEpoch(cfg, job.epoch, job.duration, clock.rechecked, 0)
      && (fault.InRetain? ==> fault.links >= |job.objects|) && name !in copies
    }

    /** The selector is switched, whatever is reported. */
    predicate Selects(cfg: Config, remote: map<Name, Epoch>, copies: map<Name, Copy>) {
      Retains(cfg, remote, copies) && !fault.AfterRetain? && (fault.InSelect? ==> fault.accepted)
    }
  }

  function DigestOf(entry: Entry): Object {
    if entry.file.Some? && entry.file.value.digest.Some? then entry.file.value.digest.value else []
  }

  function DigestsOf(entries: seq<Entry>): set<Object> {
    set i | 0 <= i < |entries| :: DigestOf(entries[i])
  }

  class CheckpointService {
    const cfg: Config
    var remote: map<Name, Epoch>
    var selector: Option<Selection>
    var copies: map<Name, Copy>
    var caches: map<Name, set<Object>>
    ghost var expired: set<Name>

    constructor (cfg: Config)
      ensures this.cfg == cfg && remote == map[] && selector == None && copies == map[] && caches == map[]
              && expired == {}
    {
      this.cfg, remote, selector, copies, caches, expired := cfg, map[], None, map[], map[], {};
    }

    ghost function View(now: int, phase: Phase): State
      reads this`remote, this`selector, this`copies, this`expired
    {
      State(now, remote, selector, copies, expired, phase)
    }

    /** One object per digest, however many files share it. */
    method EncryptObjects(epoch: Name, entries: seq<Entry>) returns (objects: set<Object>)
      modifies this`caches
      ensures objects == DigestsOf(entries)
      ensures caches == old(caches)[epoch := objects + if epoch in old(caches) then old(caches)[epoch] else {}]
    {
      objects := {};
      for i := 0 to |entries|
        invariant objects == DigestsOf(entries[..i])
      {
        objects := objects + {DigestOf(entries[i])};
        assert entries[..i + 1] == entries[..i] + [entries[i]];
        forall x ensures x in objects <==> x in DigestsOf(entries[..i + 1]) {
          if x in DigestsOf(entries[..i]) {
            var k :| 0 <= k < i && DigestOf(entries[..i][k]) == x;
            assert DigestOf(entries[..i + 1][k]) == x;
          }
          assert DigestOf(entries[..i + 1][i]) == DigestOf(entries[i]);
        }
      }
      assert entries[..|entries|] == entries;
      caches := caches[epoch := objects + if epoch in caches then caches[epoch] else {}];
    }

    /** Copies the delivered objects into the epoch; those already there are ignored. */
    method SendObjects(job: Job, delivered: set<Object>, now: int)
      modifies this`remote
      ensures Sends(old(View(now, Sending(job))), View(now, Sending(job)))
      ensures job.epoch in remote && remote[job.epoch].manifests == KnownManifests(old(remote), job.epoch)
      ensures remote[job.epoch].objects.Keys == KnownObjects(old(remote), job.epoch) + job.objects * delivered
    {
      var before := if job.epoch in remote then remote[job.epoch] else Epoch(map[], map[]);
      var missing := job.objects * delivered - before.objects.Keys;
      remote := remote[job.epoch := before.(objects := before.objects + map x | x in missing :: now)];
    }

    /** Links every object, the manifest and the selector into a pending directory, and renames it;
        a directory that is not finished is removed again. */
    method RetainCheckpoint(job: Job, name: Name, links: Option<nat>) returns (done: bool)
      modifies this`copies
      ensures done <==> name !in old(copies) && (links.Some? ==> links.value >= |job.objects|)
      ensures copies == if done then old(copies)[name := CopyOf(job)] else old(copies)
    {
      var pending := Copy(job.epoch, {}, None, false);
      var todo, linked := job.objects, 0;
      while todo != {}
        invariant pending == Copy(job.epoch, job.objects - todo, None, false) && todo <= job.objects
        invariant linked + |todo| == |job.objects|
        invariant links.Some? ==> linked <= links.value
        decreases todo
      {
        if links.Some? && linked == links.value {
          return false;
        }
        var x :| x in todo;
        todo := todo - {x};
        pending := pending.(objects := pending.objects + {x});
        linked := linked + 1;
      }
      assert job.objects - todo == job.objects;
      pending := pending.(manifest := Some(job.objects), selector := true);
      if name in copies {
        return false;
      }
      copies := copies[name := pending];
      return true;
    }

    /** Publishes one checkpoint.  The selector is switched only when all objects, the manifest and
        the local copy are in place and the epoch was found open.  Wherever the publication stops, the
        selector is the old one or the new one, exactly as `Selects` tells, and the new one can be
        restored; a failure may be reported behind the switch. */
    method Publish(epoch: Name, duration: int, entries: seq<Entry>, name: Name, clock: Clock, fault: Fault)
      returns (published: bool, ghost trace: seq<State>, ghost now: int)
      requires clock.Steady() && cfg.time(name) == Some(Stamp(clock.named))
      modifies this
      ensures expired == old(expired) && clock.loaded <= now
      ensures Leads(Steps(cfg), trace, old(View(clock.loaded, Idle)), View(now, Idle))
      ensures var a := Attempt(Job(epoch, duration, DigestsOf(entries)), name, clock, fault);
              && Left(a, old(remote), old(copies), old(selector))
              && (published <==> a.Selects(cfg, old(remote), old(copies)) && !fault.InSelect? && !fault.AfterSelect?)
      ensures published ==> caches == old(caches)[epoch := DigestsOf(entries)]
      ensures forall other | other != epoch && other in old(caches) ::
                other in caches && caches[other] == old(caches)[other]
    {
      published, trace, now := false, [View(clock.loaded, Idle)], clock.loaded;
      if LoadsEpoch(cfg, epoch, duration, clock.loaded, PUBLICATION_ALLOWANCE_SECONDS) {
        var objects := EncryptObjects(epoch, entries);
        UpdateTwice(old(caches), epoch, caches[epoch], objects);
        published, trace, now := PublishObjects(Attempt(Job(epoch, duration, objects), name, clock, fault));
      }
    }

    /** Publishes objects that are in the cache, and then removes the other ones from it. */
    method PublishObjects(a: Attempt) returns (published: bool, ghost trace: seq<State>, ghost now: int)
      requires a.clock.Steady() && cfg.time(a.name) == Some(Stamp(a.clock.named))
      requires LoadsEpoch(cfg, a.job.epoch, a.job.duration, a.clock.loaded, PUBLICATION_ALLOWANCE_SECONDS)
      requires a.job.epoch in caches && a.job.objects <= caches[a.job.epoch]
      modifies this`remote, this`copies, this`selector, this`caches
      ensures a.clock.loaded <= now && Leads(Steps(cfg), trace, old(View(a.clock.loaded, Idle)), View(now, Idle))
      ensures Left(a, old(remote), old(copies), old(selector))
      ensures published <==> a.Selects(cfg, old(remote), old(copies)) && !a.fault.InSelect? && !a.fault.AfterSelect?
      ensures published ==> caches == old(caches)[a.job.epoch := a.job.objects]
      ensures a.job.epoch in caches && caches == old(caches)[a.job.epoch := caches[a.job.epoch]]
    {
      published, trace, now := TransferAndAnnounce(a);
      ghost var end := View(now, Idle);
      if published {
        var stop := if a.fault.AfterSelect? then Some(a.fault.pruned) else None;
        published := PruneCache(a.job.epoch, a.job.objects, stop);
      }
      assert View(now, Idle) == end;
    }

    /** What a publication leaves of the selector and of the copies: a switched selector can be restored. */
    ghost predicate Left(a: Attempt, remote: map<Name, Epoch>, copies: map<Name, Copy>, selector: Option<Selection>)
      reads this`remote, this`copies, this`selector
    {
      && this.copies == (if a.Retains(cfg, remote, copies) then copies[a.name := CopyOf(a.job)] else copies)
      && if a.Selects(cfg, remote, copies) then
           && this.selector == Some(Selection(a.job.epoch, a.name, a.clock.selected))
           && a.job.epoch in this.remote && a.name in this.remote[a.job.epoch].manifests
           && this.remote[a.job.epoch].manifests[a.name].objects
              == a.job.objects <= this.remote[a.job.epoch].objects.Keys
         else
           this.selector == selector
    }

    method TransferAndAnnounce(a: Attempt) returns (done: bool, ghost trace: seq<State>, ghost now: int)
      requires a.clock.Steady() && cfg.time(a.name) == Some(Stamp(a.clock.named))
      requires LoadsEpoch(cfg, a.job.epoch, a.job.duration, a.clock.loaded, PUBLICATION_ALLOWANCE_SECONDS)
      modifies this`remote, this`copies, this`selector
      ensures a.clock.loaded <= now && Leads(Steps(cfg), trace, old(View(a.clock.loaded, Idle)), View(now, Idle))
      ensures Left(a, old(remote), old(copies), old(selector))
      ensures done <==> a.Selects(cfg, old(remote), old(copies)) && !a.fault.InSelect?
    {
      done, trace := Transfer(a);
      now := a.clock.sent;
      if done {
        done, trace, now := Announce(a, old(remote), trace);
      }
    }

    /** Sends and verifies the objects of an open epoch. */
    method Transfer(a: Attempt) returns (sent: bool, ghost trace: seq<State>)
      requires a.clock.Steady()
      requires LoadsEpoch(cfg, a.job.epoch, a.job.duration, a.clock.loaded, PUBLICATION_ALLOWANCE_SECONDS)
      modifies this`remote
      ensures sent <==> a.Sends(cfg, old(remote))
      ensures Leads(Steps(cfg), trace, old(View(a.clock.loaded, Idle)),
                    View(a.clock.sent, if sent then Verified(a.job) else Idle))
      ensures sent ==>
                a.job.epoch in remote && remote[a.job.epoch].manifests == KnownManifests(old(remote), a.job.epoch)
      ensures sent ==> a.job.objects <= remote[a.job.epoch].objects.Keys
    {
      var job, clock, fault := a.job, a.clock, a.fault;
      trace := [View(clock.loaded, Idle)];
      trace := Extend(Steps(cfg), trace, View(clock.loaded, Sending(job)));
      trace := Extend(Steps(cfg), trace, View(clock.sent, Sending(job)));
      SendObjects(job, if fault.Interrupted? || fault.Lossy? then fault.delivered else job.objects, clock.sent);
      trace := Extend(Steps(cfg), trace, View(clock.sent, Sending(job)));
      sent := !fault.Interrupted? && job.objects <= remote[job.epoch].objects.Keys;
      trace := Extend(Steps(cfg), trace, View(clock.sent, if sent then Verified(job) else Idle));
    }

    /** From verified objects to the switched selector; `found` is the remote before the transfer. */
    method Announce(a: Attempt, ghost found: map<Name, Epoch>, ghost before: seq<State>)
      returns (done: bool, ghost trace: seq<State>, ghost now: int)
      requires a.clock.Steady() && cfg.time(a.name) == Some(Stamp(a.clock.named)) && a.Sends(cfg, found)
      requires a.job.epoch in remote && remote[a.job.epoch].manifests == KnownManifests(found, a.job.epoch)
      requires a.job.objects <= remote[a.job.epoch].objects.Keys
      requires Run(Steps(cfg), before) && before[|before| - 1] == View(a.clock.sent, Verified(a.job))
      modifies this`remote, this`copies, this`selector
      ensures a.clock.loaded <= now && Leads(Steps(cfg), trace, before[0], View(now, Idle))
      ensures Left(a, found, old(copies), old(selector))
      ensures done <==> a.Selects(cfg, found, old(copies)) && !a.fault.InSelect?
      ensures remote == if a.Lists(cfg, found) then WithManifest(old(remote), a) else old(remote)
    {
      var job, name, clock, fault := a.job, a.name, a.clock, a.fault;
      trace, now, done := before, clock.sent, false;
      if fault.AfterVerify? || name in remote[job.epoch].manifests {
        trace := Extend(Steps(cfg), trace, View(now, Idle));
        return;
      }
      now := clock.named;
      trace := Extend(Steps(cfg), trace, View(now, Verified(job)));
      remote := WithManifest(remote, a);
      trace := Extend(Steps(cfg), trace, View(now, Listed(job, name)));
      done, trace, now := Conclude(a, found, trace);
    }

    /** From the listed manifest on: the second check of the epoch, the local copy, the selector. */
    method Conclude(a: Attempt, ghost found: map<Name, Epoch>, ghost before: seq<State>)
      returns (done: bool, ghost trace: seq<State>, ghost now: int)
      requires a.clock.Steady() && a.Lists(cfg, found)
      requires a.job.epoch in remote && a.name in remote[a.job.epoch].manifests
      requires remote[a.job.epoch].manifests[a.name].objects == a.job.objects <= remote[a.job.epoch].objects.Keys
      requires Run(Steps(cfg), before) && before[|before| - 1] == View(a.clock.named, Listed(a.job, a.name))
      modifies this`copies, this`selector
      ensures a.clock.loaded <= now && Leads(Steps(cfg), trace, before[0], View(now, Idle))
      ensures Left(a, found, old(copies), old(selector))
      ensures done <==> a.Selects(cfg, found, old(copies)) && !a.fault.InSelect?
    {
      var job, name, clock, fault := a.job, a.name, a.clock, a.fault;
      now, done := clock.rechecked, false;
      trace := Extend(Steps(cfg), before, View(now, Listed(job, name)));
      if fault.AfterList? || !LoadsEpoch(cfg, job.epoch, job.duration, clock.rechecked, 0) {
        trace := Extend(Steps(cfg), trace, View(now, Idle));
        return;
      }
      trace := Extend(Steps(cfg), trace, View(now, Rechecked(job, name)));
      var retained := RetainCheckpoint(job, name, if fault.InRetain? then Some(fault.links) else None);
      if !retained {
        trace := Extend(Steps(cfg), trace, View(now, Idle));
        return;
      }
      trace := Extend(Steps(cfg), trace, View(now, Retained(job, name)));
      done, trace, now := SwitchSelector(a, trace);
    }

    /** The upload of the selector; one that is reported as failed may have taken effect. */
    method SwitchSelector(a: Attempt, ghost before: seq<State>)
      returns (done: bool, ghost trace: seq<State>, ghost now: int)
      requires a.clock.Steady() && Run(Steps(cfg), before)
      requires before[|before| - 1] == View(a.clock.rechecked, Retained(a.job, a.name))
      modifies this`selector
      ensures a.clock.loaded <= now && Leads(Steps(cfg), trace, before[0], View(now, Idle))
      ensures done <==> !a.fault.AfterRetain? && !a.fault.InSelect?
      ensures selector == if a.fault.AfterRetain? || a.fault == InSelect(false) then old(selector)
                          else Some(Selection(a.job.epoch, a.name, a.clock.selected))
    {
      now := a.clock.selected;
      trace := Extend(Steps(cfg), before, View(now, Retained(a.job, a.name)));
      if !a.fault.AfterRetain? && a.fault != InSelect(false) {
        selector := Some(Selection(a.job.epoch, a.name, a.clock.selected));
      }
      trace := Extend(Steps(cfg), trace, View(now, Idle));
      done := !a.fault.AfterRetain? && !a.fault.InSelect?;
    }

    /** Removes cached objects the checkpoint does not use; a stop leaves some of them. */
    method PruneCache(epoch: Name, keep: set<Object>, stop: Option<nat>) returns (done: bool)
      requires epoch in caches && keep <= caches[epoch]
      modifies this`caches
      ensures done <==> stop.None?
      ensures done ==> caches == old(caches)[epoch := keep]
      ensures epoch in caches && keep <= caches[epoch] && caches == old(caches)[epoch := caches[epoch]]
    {
      var stale, pruned := caches[epoch] - keep, 0;
      assert caches[epoch] == keep + stale;
      while stale != {} && (stop.Some? ==> pruned < stop.value)
        invariant epoch in caches && caches == old(caches)[epoch := keep + stale]
        decreases stale
      {
        var x :| x in stale;
        stale, pruned := stale - {x}, pruned + 1;
        caches := caches[epoch := caches[epoch] - {x}];
        assert caches[epoch] == keep + stale;
      }
      assert stale == {} ==> keep + stale == keep;
      done := stop.None?;
    }

    /** Purges every remote epoch beyond the cutoff.  `fuel` purges complete; a further one is cut
        short and leaves `left` of its objects. */
    method ExpireRemoteEpochs(now: int, fuel: nat, left: set<Object>) returns (done: bool, ghost trace: seq<State>)
      requires forall epoch | epoch in remote :: cfg.time(epoch).Some?
      modifies this`remote, this`expired
      ensures Leads(Steps(cfg), trace, old(View(now, Idle)), View(now, Idle))
      ensures fuel >= |old(remote)| ==> done
      ensures forall epoch | epoch in old(remote) && !ExpiresEpoch(Start(cfg, epoch), now, cfg.local) ::
                epoch in remote && remote[epoch] == old(remote)[epoch]
      ensures done ==> remote == map epoch | epoch in old(remote) && !ExpiresEpoch(Start(cfg, epoch), now, cfg.local)
                                 :: old(remote)[epoch]
    {
      trace := [View(now, Idle)];
      ghost var listed := remote;
      var todo, remaining := remote.Keys, fuel;
      while todo != {}
        invariant Leads(Steps(cfg), trace, old(View(now, Idle)), View(now, Idle)) && todo <= remote.Keys <= listed.Keys
        invariant forall epoch | epoch in remote :: cfg.time(epoch).Some? && remote[epoch] == listed[epoch]
        invariant forall epoch | epoch in listed && !ExpiresEpoch(Start(cfg, epoch), now, cfg.local) :: epoch in remote
        invariant forall epoch | epoch in remote && epoch !in todo :: !ExpiresEpoch(Start(cfg, epoch), now, cfg.local)
        invariant fuel >= |listed| ==> remaining >= |todo|
        decreases todo
      {
        var epoch :| epoch in todo;
        todo := todo - {epoch};
        if ExpiresEpoch(Start(cfg, epoch), now, cfg.local) {
          trace := PurgeEpoch(epoch, now, if remaining == 0 then Some(left) else None, trace);
          if remaining == 0 {
            return false, trace;
          }
          remaining := remaining - 1;
        }
      }
      return true, trace;
    }

    method PurgeEpoch(epoch: Name, now: int, left: Option<set<Object>>, ghost before: seq<State>)
      returns (ghost trace: seq<State>)
      requires epoch in remote && ExpiresEpoch(Start(cfg, epoch), now, cfg.local)
      requires Run(Steps(cfg), before) && before[|before| - 1] == View(now, Idle)
      modifies this`remote, this`expired
      ensures Leads(Steps(cfg), trace, before[0], View(now, Idle))
      ensures left.None? ==> remote == old(remote) - {epoch}
      ensures forall other | other != epoch && other in old(remote) ::
                other in remote && remote[other] == old(remote)[other]
    {
      expired := expired + {epoch};
      if left.Some? {
        var kept := map x | x in remote[epoch].objects && x in left.value :: remote[epoch].objects[x];
        remote := remote[epoch := remote[epoch].(objects := kept)];
      } else {
        remote := remote - {epoch};
      }
      assert ExpiresRemote(cfg, old(View(now, Idle)), View(now, Idle), epoch);
      trace := Extend(Steps(cfg), before, View(now, Idle));
    }

    /** Removes every local checkpoint beyond its cutoff, and then the caches of epochs beyond theirs.
        Each directory is listed and checked as a whole before anything in it is removed.  `fuel`
        removals of each kind complete; a further one is cut short and leaves a part. */
    method ExpireLocalCheckpoints(now: int, fuel: nat, left: Copy) returns (done: bool, ghost trace: seq<State>)
      modifies this`copies, this`caches
      ensures Leads(Steps(cfg), trace, old(View(now, Idle)), View(now, Idle))
      ensures done ==> ReadableCopies(cfg, old(copies)) && ReadableCaches(cfg, old(caches))
      ensures fuel >= |old(copies)| && fuel >= |old(caches)| ==>
                (done <==> ReadableCopies(cfg, old(copies)) && ReadableCaches(cfg, old(caches)))
      ensures !ReadableCopies(cfg, old(copies)) ==> copies == old(copies)
      ensures !ReadableCopies(cfg, old(copies)) || !ReadableCaches(cfg, old(caches)) ==> caches == old(caches)
      ensures forall name | name in old(copies) && !Overdue(cfg, name, now) ::
                name in copies && copies[name] == old(copies)[name]
      ensures forall epoch | epoch in old(caches) && !ExpiresEpoch(Start(cfg, epoch), now, cfg.local) ::
                epoch in caches && caches[epoch] == old(caches)[epoch]
      ensures done || (ReadableCopies(cfg, old(copies)) && fuel >= |old(copies)|) ==>
                copies == map name | name in old(copies) && !Overdue(cfg, name, now) :: old(copies)[name]
      ensures done ==> caches == map epoch | epoch in old(caches) && !ExpiresEpoch(Start(cfg, epoch), now, cfg.local)
                                 :: old(caches)[epoch]
    {
      done, trace := ExpireCopies(now, fuel, left);
      if done {
        done := ExpireCaches(now, fuel, left.objects);
      }
    }

    method ExpireCopies(now: int, fuel: nat, left: Copy) returns (done: bool, ghost trace: seq<State>)
      modifies this`copies
      ensures Leads(Steps(cfg), trace, old(View(now, Idle)), View(now, Idle))
      ensures if ReadableCopies(cfg, old(copies)) then fuel >= |old(copies)| ==> done
              else !done && copies == old(copies)
      ensures forall name | name in old(copies) && !Overdue(cfg, name, now) ::
                name in copies && copies[name] == old(copies)[name]
      ensures done ==> copies == map name | name in old(copies) && !Overdue(cfg, name, now) :: old(copies)[name]
    {
      trace := [View(now, Idle)];
      if !ReadableCopies(cfg, copies) {
        return false, trace;
      }
      ghost var listed := copies;
      var todo, remaining := copies.Keys, fuel;
      while todo != {}
        invariant Leads(Steps(cfg), trace, old(View(now, Idle)), View(now, Idle)) && todo <= copies.Keys <= listed.Keys
        invariant forall name | name in copies :: copies[name] == listed[name]
        invariant forall name | name in listed && !Overdue(cfg, name, now) :: name in copies
        invariant forall name | name in copies && name !in todo :: !Overdue(cfg, name, now)
        invariant fuel >= |listed| ==> remaining >= |todo|
        decreases todo
      {
        var name :| name in todo;
        todo := todo - {name};
        if Overdue(cfg, name, now) {
          trace := RemoveCopy(name, now, if remaining == 0 then Some(left) else None, trace);
          if remaining == 0 {
            return false, trace;
          }
          remaining := remaining - 1;
        }
      }
      return true, trace;
    }

    /** The same for the caches, which no protocol step sees. */
    method ExpireCaches(now: int, fuel: nat, left: set<Object>) returns (done: bool)
      modifies this`caches
      ensures if ReadableCaches(cfg, old(caches)) then fuel >= |old(caches)| ==> done
              else !done && caches == old(caches)
      ensures forall epoch | epoch in old(caches) && !ExpiresEpoch(Start(cfg, epoch), now, cfg.local) ::
                epoch in caches && caches[epoch] == old(caches)[epoch]
      ensures done ==> caches == map epoch | epoch in old(caches) && !ExpiresEpoch(Start(cfg, epoch), now, cfg.local)
                                 :: old(caches)[epoch]
    {
      if !ReadableCaches(cfg, caches) {
        return false;
      }
      ghost var listed := caches;
      var todo, remaining := caches.Keys, fuel;
      while todo != {}
        invariant todo <= caches.Keys <= listed.Keys
        invariant forall epoch | epoch in caches :: caches[epoch] == listed[epoch]
        invariant forall epoch | epoch in listed && !ExpiresEpoch(Start(cfg, epoch), now, cfg.local) :: epoch in caches
        invariant forall epoch | epoch in caches && epoch !in todo :: !ExpiresEpoch(Start(cfg, epoch), now, cfg.local)
        invariant fuel >= |listed| ==> remaining >= |todo|
        decreases todo
      {
        var epoch :| epoch in todo;
        todo := todo - {epoch};
        if ExpiresEpoch(Start(cfg, epoch), now, cfg.local) {
          if remaining == 0 {
            caches := caches[epoch := caches[epoch] * left];
            return false;
          }
          caches := caches - {epoch};
          remaining := remaining - 1;
        }
      }
      return true;
    }

    method RemoveCopy(name: Name, now: int, left: Option<Copy>, ghost before: seq<State>)
      returns (ghost trace: seq<State>)
      requires name in copies && Overdue(cfg, name, now)
      requires Run(Steps(cfg), before) && before[|before| - 1] == View(now, Idle)
      modifies this`copies
      ensures Leads(Steps(cfg), trace, before[0], View(now, Idle))
      ensures left.None? ==> copies == old(copies) - {name}
      ensures forall other | other != name && other in old(copies) ::
                other in copies && copies[other] == old(copies)[other]
    {
      if left.Some? {
        var whole := copies[name];
        copies := copies[name := Copy(whole.epoch, whole.objects * left.value.objects,
                                      if left.value.manifest.Some? then whole.manifest else None,
                                      whole.selector && left.value.selector)];
      } else {
        copies := copies - {name};
      }
      assert ExpiresCopy(cfg, old(View(now, Idle)), View(now, Idle), name);
      trace := Extend(Steps(cfg), before, View(now, Idle));
    }
  }

  lemma UpdateTwice(caches: map<Name, set<Object>>, epoch: Name, first: set<Object>, second: set<Object>)
    ensures caches[epoch := first][epoch := second] == caches[epoch := second]
  {
  }

  /** Checkpoints are listed by their names: foreign ones are skipped, and one that looks like a
      checkpoint but carries no time refuses the listing. */
  predicate ReadableCopies(cfg: Config, copies: map<Name, Copy>) {
    |copies| <= MAX_CHECKPOINTS && forall name | name in copies :: cfg.foreign(name) || cfg.time(name).Some?
  }

  predicate ReadableCaches(cfg: Config, caches: map<Name, set<Object>>) {
    |caches| <= MAX_EPOCHS && forall epoch | epoch in caches :: cfg.time(epoch).Some?
  }

  function KnownObjects(remote: map<Name, Epoch>, epoch: Name): set<Object> {
    if epoch in remote then remote[epoch].objects.Keys else {}
  }

  function KnownManifests(remote: map<Name, Epoch>, epoch: Name): map<Name, Manifest> {
    if epoch in remote then remote[epoch].manifests else map[]
  }

  function WithManifest(remote: map<Name, Epoch>, a: Attempt): map<Name, Epoch>
    requires a.job.epoch in remote
  {
    var epoch := remote[a.job.epoch];
    remote[a.job.epoch := epoch.(manifests := epoch.manifests[a.name := Manifest(a.job.objects, a.clock.named)])]
  }
}
