/** Time windows of backup epochs and the bounds that keep a checkpoint's dependencies alive.

    Times are in microseconds.  Names carry whole seconds only, so the time read from a name may
    lie up to a second before the moment the name was made. */
module Retention {
  const SECOND := 1_000_000
  const DAY := 86_400_000_000

  const MIN_EPOCH_SECONDS := 3600
  const MAX_EPOCH_SECONDS := 86_400
  const PUBLICATION_ALLOWANCE_SECONDS := 600

  // How many entries a directory of epochs or of checkpoints may have.
  const MAX_EPOCHS := 16_384
  const MAX_CHECKPOINTS := 65_536

  /** The time that a name made at `now` carries. */
  function Stamp(now: int): (stamp: int)
    ensures stamp <= now < stamp + SECOND
  {
    now - now % SECOND
  }

  predicate AcceptedDuration(duration: int) {
    MIN_EPOCH_SECONDS <= duration <= MAX_EPOCH_SECONDS
  }

  /** `load_epoch`: the epoch is open now, and still open `reserve` seconds later. */
  predicate InWindow(start: int, duration: int, now: int, reserve: nat) {
    start <= now && now + reserve * SECOND < start + duration * SECOND
  }

  /** The bounds checked before anything is expired. */
  predicate AcceptedRetention(local: int, remote: int) {
    1 <= local <= 30 && local + 2 <= remote <= 90
  }

  function CheckpointCutoff(now: int, local: int): int {
    now - local * DAY
  }

  /** Epochs outlive checkpoints by the longest time a checkpoint may trail its epoch's start. */
  function EpochCutoff(now: int, local: int): int {
    CheckpointCutoff(now, local) - MAX_EPOCH_SECONDS * SECOND
  }

  predicate ExpiresCheckpoint(stamp: int, now: int, local: int) {
    stamp < CheckpointCutoff(now, local)
  }

  predicate ExpiresEpoch(start: int, now: int, local: int) {
    start < EpochCutoff(now, local)
  }

  /** A publication: load the epoch, name the checkpoint, check the epoch again, publish. */
  ghost predicate Published(start: int, duration: int, loaded: int, named: int, rechecked: int) {
    && AcceptedDuration(duration) && loaded <= named <= rechecked
    && InWindow(start, duration, loaded, PUBLICATION_ALLOWANCE_SECONDS) && InWindow(start, duration, rechecked, 0)
  }

  /** While a checkpoint is at most `local` days old its epoch is not expired, and no object its
      epoch ever received is within a day of the provider's hiding age. */
  lemma DependenciesOutliveCheckpoint(start: int, duration: int, loaded: int, named: int, rechecked: int,
                                      local: int, remote: int, now: int, uploaded: int)
    requires AcceptedRetention(local, remote) && Published(start, duration, loaded, named, rechecked)
    requires rechecked <= now && now - Stamp(named) <= local * DAY
    requires start <= uploaded
    ensures !ExpiresEpoch(start, now, local) && !ExpiresCheckpoint(Stamp(named), now, local)
    ensures now - uploaded < (remote - 1) * DAY
  {
    assert duration * SECOND <= DAY;
    assert now < start + DAY + local * DAY;
    assert (local + 1) * DAY <= (remote - 1) * DAY;
  }

  /** The upload alarm fires before the epoch closes: nothing is uploaded outside the window. */
  lemma UploadsStayInWindow(start: int, duration: int, started: int, loaded: int, uploaded: int)
    requires InWindow(start, duration, loaded, PUBLICATION_ALLOWANCE_SECONDS) && started <= loaded <= uploaded
    requires uploaded <= started + PUBLICATION_ALLOWANCE_SECONDS * SECOND
    ensures InWindow(start, duration, uploaded, 0)
  {
  }

  /** An expired epoch is never loaded again, even by a publication that starts at once. */
  lemma ExpiredEpochsStayClosed(start: int, duration: int, expired: int, now: int, local: int, reserve: nat)
    requires AcceptedDuration(duration) && 1 <= local && ExpiresEpoch(start, expired, local) && expired <= now
    ensures !InWindow(start, duration, now, reserve)
  {
    assert duration * SECOND <= DAY;
    assert local * DAY >= DAY;
    assert reserve * SECOND >= 0;
  }

  /** A checkpoint within its retention, in an epoch that expires under the given allowance for the
      epoch's length.  Epoch names carry whole seconds. */
  ghost predicate Stranded(allowance: int, local: int, start: int, duration: int, loaded: int, named: int,
                           rechecked: int, now: int) {
    && start % SECOND == 0 && Published(start, duration, loaded, named, rechecked) && rechecked <= now
    && now - Stamp(named) <= local * DAY && start < CheckpointCutoff(now, local) - allowance * SECOND
  }

  /** No publication and no expiration time strand a checkpoint. */
  ghost predicate SafeAllowance(allowance: int, local: int) {
    forall start, duration, loaded, named, rechecked, now ::
      !Stranded(allowance, local, start, duration, loaded, named, rechecked, now)
  }

  /** Exactly the allowances from 86,399 seconds on are safe: the day that is used is one second more
      than the least safe one. */
  lemma LeastSafeAllowance(allowance: int, local: int)
    requires 1 <= local <= 30
    ensures SafeAllowance(allowance, local) <==> MAX_EPOCH_SECONDS - 1 <= allowance
  {
    if MAX_EPOCH_SECONDS - 1 <= allowance {
      assert (MAX_EPOCH_SECONDS - 1) * SECOND <= allowance * SECOND;
      forall start, duration, loaded, named, rechecked, now
        ensures !Stranded(allowance, local, start, duration, loaded, named, rechecked, now)
      {
        if Stranded(allowance, local, start, duration, loaded, named, rechecked, now) {
          LastStamp(start, duration, loaded, named, rechecked);
        }
      }
    } else {
      var named := (MAX_EPOCH_SECONDS - 1) * SECOND;
      assert allowance * SECOND < named;
      assert Stranded(allowance, local, 0, MAX_EPOCH_SECONDS, 0, named, named, named + local * DAY);
    }
  }

  /** The last name an epoch can give out lies a second short of a day behind its start. */
  lemma LastStamp(start: int, duration: int, loaded: int, named: int, rechecked: int)
    requires start % SECOND == 0 && Published(start, duration, loaded, named, rechecked)
    ensures Stamp(named) <= start + (MAX_EPOCH_SECONDS - 1) * SECOND
  {
    assert duration * SECOND <= MAX_EPOCH_SECONDS * SECOND;
    assert named == SECOND * (named / SECOND) + named % SECOND;
    assert start == SECOND * (start / SECOND) + start % SECOND;
  }
}
