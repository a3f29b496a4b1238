/**
 The signing-key snapshot and its single-flight refresh. Any number of threads look keys up and
 refresh; each section under the condition variable is one step of the shared state, and fetches
 happen outside it. Time never goes back.
 */
module JwksVerifier {
  import opened Basics

  const STALE_SECONDS := 900.0
  const KEY_MISS_COOLDOWN_SECONDS := 60.0
  const REFRESH_WAIT_SECONDS := 6.0

  type Key = string
  type Keys = map<string, Key>

  function Find(keys: Keys, kid: string): Option<Key> {
    if kid in keys then Some(keys[kid]) else None
  }

  // ----- the sections under the condition variable -----

  /** No key-miss refresh has started as long as `lastKeyMiss` is none. */
  datatype Shared = Shared(keys: Keys, lastRefresh: real, lastKeyMiss: Option<real>, inProgress: bool)

  /** What a caller does after its first section. */
  datatype Verdict = Return(key: Option<Key>) | Wait | Fetch

  predicate CoolingDown(sh: Shared, now: real) {
    sh.lastKeyMiss.Some? && now - sh.lastKeyMiss.value < KEY_MISS_COOLDOWN_SECONDS
  }

  function EnterLookup(sh: Shared, kid: string, now: real): (Shared, Verdict) {
    if kid in sh.keys then (sh, Return(Some(sh.keys[kid])))
    else if sh.inProgress then (sh, Wait)
    else if CoolingDown(sh, now) then (sh, Return(None))
    else (sh.(lastKeyMiss := Some(now), inProgress := true), Fetch)
  }

  function EnterRefresh(sh: Shared): (Shared, Verdict) {
    if sh.inProgress then (sh, Wait) else (sh.(inProgress := true), Fetch)
  }

  function Complete(sh: Shared, fetched: Option<Keys>, now: real): Shared {
    match fetched
    case Some(keys) => sh.(keys := keys, lastRefresh := now, inProgress := false)
    case None => sh.(inProgress := false)
  }

  predicate IsReady(sh: Shared, now: real) {
    sh.keys != map[] && now - sh.lastRefresh <= STALE_SECONDS
  }

  class Verifier {
    var keys: Keys
    var lastRefresh: real
    var lastKeyMissRefresh: Option<real>
    var refreshInProgress: bool

    function View(): Shared
      reads this
    {
      Shared(keys, lastRefresh, lastKeyMissRefresh, refreshInProgress)
    }

    constructor ()
      ensures View() == Initial().shared
    {
      keys := map[];
      lastRefresh := 0.0;
      lastKeyMissRefresh := None;
      refreshInProgress := false;
    }

    method BeginLookup(kid: string, now: real) returns (verdict: Verdict)
      modifies this
      ensures (View(), verdict) == EnterLookup(old(View()), kid, now)
    {
      if kid in keys {
        return Return(Some(keys[kid]));
      }
      if refreshInProgress {
        return Wait;
      }
      if lastKeyMissRefresh.Some? && now - lastKeyMissRefresh.value < KEY_MISS_COOLDOWN_SECONDS {
        return Return(None);
      }
      lastKeyMissRefresh := Some(now);
      refreshInProgress := true;
      return Fetch;
    }

    method BeginRefresh() returns (verdict: Verdict)
      modifies this
      ensures (View(), verdict) == EnterRefresh(old(View()))
    {
      if refreshInProgress {
        return Wait;
      }
      refreshInProgress := true;
      return Fetch;
    }

    method CompleteRefresh(fetched: Option<Keys>, now: real)
      modifies this
      ensures View() == Complete(old(View()), fetched, now)
    {
      if fetched.Some? {
        keys := fetched.value;
        lastRefresh := now;
      }
      refreshInProgress := false;
    }

    method Ready(now: real) returns (ready: bool)
      ensures ready == IsReady(View(), now)
    {
      ready := keys != map[] && now - lastRefresh <= STALE_SECONDS;
    }
  }

  // ----- the threads -----

  /**
   Where a thread stands; `kid` is absent in a refresh that no lookup asked for, and `since` is how
   many fetches had been installed when the thread claimed its fetch or began to wait.
   */
  datatype Pc =
    | Idle
    | Looking(lookup: string)
    | Refreshing
    | WaitingLookup(lookup: string, deadline: real)
    | WaitingRefresh(deadline: real, since: nat)
    | Fetching(kid: Option<string>, since: nat)
    | Fetched(kid: Option<string>, result: Option<Keys>, since: nat)
    | ReadingBack(lookup: string)

  datatype Action =
    | CallLookup(kid: string)
    | CallRefresh
    | Acquire                      // the thread's next section under the condition variable
    | Answer(result: Option<Keys>) // the fetch ends: a set of keys, or a failure

  /** A successful fetch and when it was installed. */
  datatype Install = Install(keys: Keys, at: real)

  /** A lookup's answer, and how many fetches had been installed by then. */
  datatype Handed = Handed(kid: string, key: Option<Key>, installs: nat)

  /**
   How a call of `refresh` ended: it returned or raised, after its own fetch or after a wait; and
   how many fetches had been installed when that began and when the call ended.
   */
  datatype Refreshed = Refreshed(returned: bool, fetched: bool, before: nat, after: nat)

  datatype System = System(
    shared: Shared,
    threads: map<int, Pc>,
    now: real,
    missStarts: seq<real>,
    installs: seq<Install>,
    handed: seq<Handed>,
    refreshed: seq<Refreshed>)

  datatype Move = Move(thread: int, action: Action, at: real)

  function Initial(): System {
    System(Shared(map[], 0.0, None, false), map[], 0.0, [], [], [], [])
  }

  function PcOf(s: System, t: int): Pc {
    if t in s.threads then s.threads[t] else Idle
  }

  function Goto(s: System, t: int, pc: Pc): System {
    s.(threads := s.threads[t := pc])
  }

  /** The lookup returns what the snapshot holds at this very section. */
  function HandOut(s: System, t: int, kid: string): System {
    Goto(s, t, Idle).(handed := s.handed + [Handed(kid, Find(s.shared.keys, kid), |s.installs|)])
  }

  function EndRefresh(s: System, t: int, returned: bool, fetched: bool, since: nat): System {
    Goto(s, t, Idle).(refreshed := s.refreshed + [Refreshed(returned, fetched, since, |s.installs|)])
  }

  predicate Released(s: System, deadline: real) {
    !s.shared.inProgress || s.now >= deadline
  }

  function FirstLookup(s: System, t: int, kid: string): System {
    match EnterLookup(s.shared, kid, s.now)
    case (_, Return(key)) => Goto(s, t, Idle).(handed := s.handed + [Handed(kid, key, |s.installs|)])
    case (_, Wait) => Goto(s, t, WaitingLookup(kid, s.now + REFRESH_WAIT_SECONDS))
    case (sh, Fetch) =>
      Goto(s, t, Fetching(Some(kid), |s.installs|)).(shared := sh, missStarts := s.missStarts + [s.now])
  }

  function FirstRefresh(s: System, t: int): System {
    match EnterRefresh(s.shared)
    case (sh, Fetch) => Goto(s, t, Fetching(None, |s.installs|)).(shared := sh)
    case (_, _) => Goto(s, t, WaitingRefresh(s.now + REFRESH_WAIT_SECONDS, |s.installs|))
  }

  function FinishFetch(s: System, t: int, kid: Option<string>, result: Option<Keys>, since: nat): System {
    var installed := match result case Some(keys) => s.installs + [Install(keys, s.now)] case None => s.installs;
    var done := s.(shared := Complete(s.shared, result, s.now), installs := installed);
    match kid
    case Some(id) => Goto(done, t, ReadingBack(id))
    case None => EndRefresh(done, t, result.Some?, true, since)
  }

  /** One step of one thread; none when the thread cannot take it. */
  function Next(before: System, m: Move): Option<System> {
    if m.at < before.now then None
    else
      var s := before.(now := m.at);
      var t := m.thread;
      match (PcOf(s, t), m.action)
      case (Idle, CallLookup(kid)) => Some(Goto(s, t, Looking(kid)))
      case (Idle, CallRefresh) => Some(Goto(s, t, Refreshing))
      case (Looking(kid), Acquire) => Some(FirstLookup(s, t, kid))
      case (Refreshing, Acquire) => Some(FirstRefresh(s, t))
      case (WaitingLookup(kid, deadline), Acquire) =>
        if Released(s, deadline) then Some(HandOut(s, t, kid)) else None
      case (WaitingRefresh(deadline, since), Acquire) =>
        if Released(s, deadline) then Some(EndRefresh(s, t, !s.shared.inProgress, false, since)) else None
      case (Fetching(kid, since), Answer(result)) =>
        if result == Some(map[]) then None else Some(Goto(s, t, Fetched(kid, result, since)))
      case (Fetched(kid, result, since), Acquire) => Some(FinishFetch(s, t, kid, result, since))
      case (ReadingBack(kid), Acquire) => Some(HandOut(s, t, kid))
      case _ => None
  }

  // ----- the invariant -----

  /** The thread is between claiming a fetch and completing it. */
  predicate InFlight(pc: Pc) {
    pc.Fetching? || pc.Fetched?
  }

  predicate Waiting(pc: Pc) {
    pc.WaitingLookup? || pc.WaitingRefresh?
  }

  ghost predicate SingleFlight(s: System) {
    && (forall t, u :: InFlight(PcOf(s, t)) && InFlight(PcOf(s, u)) ==> t == u)
    && (s.shared.inProgress <==> exists t :: InFlight(PcOf(s, t)))
  }

  /** Nothing is installed between the claim of a fetch and its completion. */
  ghost predicate Undisturbed(s: System) {
    && (forall t :: InFlight(PcOf(s, t)) ==> PcOf(s, t).since == |s.installs|)
    && (forall t :: PcOf(s, t).WaitingRefresh? ==> PcOf(s, t).since <= |s.installs|)
  }

  /** Whatever has been fetched and not yet installed is a whole, non-empty key set. */
  ghost predicate WholeFetches(s: System) {
    && (forall t :: PcOf(s, t).Fetched? ==> PcOf(s, t).result != Some(map[]))
    && (forall i :: 0 <= i < |s.installs| ==> s.installs[i].keys != map[] && s.installs[i].at <= s.now)
  }

  /** The snapshot after the first `n` installs; it is empty before the first. */
  function SnapshotAfter(installs: seq<Install>, n: nat): Keys
    requires n <= |installs|
  {
    if n == 0 then map[] else installs[n - 1].keys
  }

  /** The snapshot is the last successful fetch. */
  ghost predicate SnapshotIsLastInstall(s: System) {
    && s.shared.keys == SnapshotAfter(s.installs, |s.installs|)
    && (s.installs != [] ==> s.shared.lastRefresh == s.installs[|s.installs| - 1].at)
  }

  ghost predicate Spaced(times: seq<real>) {
    forall i, j :: 0 <= i < j < |times| ==> times[j] - times[i] >= KEY_MISS_COOLDOWN_SECONDS
  }

  ghost predicate MissesAreSpaced(s: System) {
    && Spaced(s.missStarts)
    && (forall i :: 0 <= i < |s.missStarts| ==> s.missStarts[i] <= s.now)
    && s.shared.lastKeyMiss == (if s.missStarts == [] then None else Some(s.missStarts[|s.missStarts| - 1]))
  }

  /** Each answer is what one snapshot held, and later answers never come from earlier snapshots. */
  ghost predicate HandedFromInstalls(s: System) {
    && (forall i :: 0 <= i < |s.handed| ==>
          && s.handed[i].installs <= |s.installs|
          && s.handed[i].key == Find(SnapshotAfter(s.installs, s.handed[i].installs), s.handed[i].kid))
    && (forall i, j :: 0 <= i <= j < |s.handed| ==> s.handed[i].installs <= s.handed[j].installs)
  }

  /** What a call of `refresh` that ended has to do with the installs made meanwhile. */
  predicate EndedRight(end: Refreshed) {
    && end.before <= end.after
    && (end.fetched ==> end.after == end.before + if end.returned then 1 else 0)
  }

  ghost predicate RefreshesEndedRight(s: System) {
    forall i :: 0 <= i < |s.refreshed| ==> EndedRight(s.refreshed[i]) && s.refreshed[i].after <= |s.installs|
  }

  /** No thread waits longer than the refresh wait. */
  ghost predicate WaitsAreBounded(s: System) {
    forall t :: Waiting(PcOf(s, t)) ==> PcOf(s, t).deadline <= s.now + REFRESH_WAIT_SECONDS
  }

  ghost predicate Inv(s: System) {
    && SingleFlight(s)
    && Undisturbed(s)
    && WaitsAreBounded(s)
    && WholeFetches(s)
    && SnapshotIsLastInstall(s)
    && MissesAreSpaced(s)
    && HandedFromInstalls(s)
    && RefreshesEndedRight(s)
  }

  lemma InitialInv()
    ensures Inv(Initial())
  {
  }

  // ----- what one step can do -----

  lemma OthersStand(s: System, m: Move)
    requires Next(s, m).Some?
    ensures forall u :: u != m.thread ==> PcOf(Next(s, m).value, u) == PcOf(s, u)
    ensures Next(s, m).value.now == m.at >= s.now
  {
    hide EnterLookup, EnterRefresh, Complete, Released;
  }

  /** A step claims a fetch, completes one, or leaves flag and flight alone. */
  lemma FlightMoves(s: System, m: Move)
    requires Next(s, m).Some?
    ensures var s' := Next(s, m).value; var was := PcOf(s, m.thread); var now := PcOf(s', m.thread);
      || (InFlight(was) == InFlight(now) && s'.shared.inProgress == s.shared.inProgress)
      || (!InFlight(was) && InFlight(now) && !s.shared.inProgress && s'.shared.inProgress)
      || (InFlight(was) && !InFlight(now) && !s'.shared.inProgress)
  {
  }

  /** Only a thread in flight installs anything; a thread that claims or waits notes what is installed. */
  lemma SinceMoves(s: System, m: Move)
    requires Next(s, m).Some?
    ensures var s' := Next(s, m).value; var was := PcOf(s, m.thread); var now := PcOf(s', m.thread);
      && (s'.installs != s.installs ==> InFlight(was) && !InFlight(now) && |s'.installs| == |s.installs| + 1)
      && (InFlight(now) && InFlight(was) ==> now.since == was.since)
      && (InFlight(now) && !InFlight(was) ==> now.since == |s.installs|)
      && (now.WaitingRefresh? ==> now.since == |s.installs|)
  {
  }

  lemma WaitsMove(s: System, m: Move)
    requires Next(s, m).Some?
    ensures var now := PcOf(Next(s, m).value, m.thread);
      Waiting(now) ==> now.deadline == m.at + REFRESH_WAIT_SECONDS
  {
  }

  /** A step leaves snapshot and installs alone, or installs what its thread has fetched. */
  lemma SnapshotMoves(s: System, m: Move)
    requires Next(s, m).Some?
    ensures var s' := Next(s, m).value; var was := PcOf(s, m.thread);
      || (s'.installs == s.installs && s'.shared.keys == s.shared.keys && s'.shared.lastRefresh == s.shared.lastRefresh)
      || (&& was.Fetched? && was.result.Some? && m.action.Acquire?
          && s'.installs == s.installs + [Install(was.result.value, m.at)]
          && s'.shared.keys == was.result.value && s'.shared.lastRefresh == m.at)
  {
  }

  /** No empty key set ever counts as fetched. */
  lemma FetchMoves(s: System, m: Move)
    requires Next(s, m).Some?
    ensures var now := PcOf(Next(s, m).value, m.thread); now.Fetched? ==> now.result != Some(map[])
  {
  }

  /** A step starts no fetch for an unknown key id, or does so after the cooldown. */
  lemma MissesMove(s: System, m: Move)
    requires Next(s, m).Some?
    ensures var s' := Next(s, m).value;
      || (s'.missStarts == s.missStarts && s'.shared.lastKeyMiss == s.shared.lastKeyMiss)
      || (s'.missStarts == s.missStarts + [m.at] && s'.shared.lastKeyMiss == Some(m.at) && !CoolingDown(s.shared, m.at))
  {
  }

  /** A lookup answers from the snapshot current at the section in which it returns. */
  predicate Hands(s: System, m: Move, after: System, h: Handed) {
    && m.action.Acquire? && after.handed == s.handed + [h]
    && h == Handed(h.kid, Find(s.shared.keys, h.kid), |s.installs|)
    && after.shared == s.shared && after.installs == s.installs && PcOf(after, m.thread).Idle?
  }

  lemma HandedMoves(s: System, m: Move)
    requires Next(s, m).Some?
    ensures var s' := Next(s, m).value;
      s'.handed == s.handed || (|s'.handed| == |s.handed| + 1 && Hands(s, m, s', s'.handed[|s.handed|]))
  {
  }

  /**
   A refresh ends after its own fetch, and returns exactly when that fetch succeeded and has just
   become the snapshot; or after a wait, and returns exactly when no fetch is in flight any more.
   */
  predicate Ends(s: System, m: Move, after: System, end: Refreshed) {
    var was := PcOf(s, m.thread);
    && m.action.Acquire? && after.refreshed == s.refreshed + [end] && PcOf(after, m.thread).Idle?
    && end.after == |after.installs|
    && if end.fetched then
         was == Fetched(None, if end.returned then Some(after.shared.keys) else None, end.before)
         && |after.installs| == |s.installs| + if end.returned then 1 else 0
       else
         was.WaitingRefresh? && was.since == end.before && after.shared == s.shared && after.installs == s.installs
         && (end.returned <==> !s.shared.inProgress)
  }

  lemma RefreshedMoves(s: System, m: Move)
    requires Next(s, m).Some?
    ensures var s' := Next(s, m).value;
      s'.refreshed == s.refreshed
      || (|s'.refreshed| == |s.refreshed| + 1 && Ends(s, m, s', s'.refreshed[|s.refreshed|]))
  {
  }

  // ----- every step keeps the invariant -----

  lemma SingleFlightStep(s: System, m: Move)
    requires SingleFlight(s) && Next(s, m).Some?
    ensures SingleFlight(Next(s, m).value)
  {
    hide Next, PcOf, InFlight;
    var s' := Next(s, m).value;
    var t := m.thread;
    OthersStand(s, m);
    FlightMoves(s, m);
    if s'.shared.inProgress && s.shared.inProgress {
      var u :| InFlight(PcOf(s, u));
      assert InFlight(PcOf(s', u));
    }
    assert s'.shared.inProgress && !s.shared.inProgress ==> InFlight(PcOf(s', t));
    assert InFlight(PcOf(s, t)) ==> s.shared.inProgress;
  }

  lemma UndisturbedStep(s: System, m: Move)
    requires SingleFlight(s) && Undisturbed(s) && Next(s, m).Some?
    ensures Undisturbed(Next(s, m).value)
  {
    hide Next, PcOf;
    OthersStand(s, m);
    SinceMoves(s, m);
    assert InFlight(PcOf(s, m.thread)) ==> forall u :: InFlight(PcOf(s, u)) ==> u == m.thread;
  }

  lemma WaitsStep(s: System, m: Move)
    requires WaitsAreBounded(s) && Next(s, m).Some?
    ensures WaitsAreBounded(Next(s, m).value)
  {
    hide Next, PcOf;
    OthersStand(s, m);
    WaitsMove(s, m);
  }

  lemma WholeFetchesStep(s: System, m: Move)
    requires WholeFetches(s) && Next(s, m).Some?
    ensures WholeFetches(Next(s, m).value)
  {
    hide Next, PcOf;
    OthersStand(s, m);
    FetchMoves(s, m);
    SnapshotMoves(s, m);
  }

  lemma SnapshotStep(s: System, m: Move)
    requires SnapshotIsLastInstall(s) && Next(s, m).Some?
    ensures SnapshotIsLastInstall(Next(s, m).value)
  {
    hide Next, PcOf;
    SnapshotMoves(s, m);
  }

  lemma MissesStep(s: System, m: Move)
    requires MissesAreSpaced(s) && Next(s, m).Some?
    ensures MissesAreSpaced(Next(s, m).value)
  {
    hide Next, PcOf;
    MissesMove(s, m);
    OthersStand(s, m);
    var s' := Next(s, m).value;
    if s'.missStarts != s.missStarts && s.missStarts != [] {
      var n := |s.missStarts|;
      forall i | 0 <= i < n ensures m.at - s'.missStarts[i] >= KEY_MISS_COOLDOWN_SECONDS {
        assert i < n - 1 ==> s.missStarts[n - 1] - s.missStarts[i] >= KEY_MISS_COOLDOWN_SECONDS;
      }
    }
  }

  lemma HandedStep(s: System, m: Move)
    requires SnapshotIsLastInstall(s) && HandedFromInstalls(s) && Next(s, m).Some?
    ensures HandedFromInstalls(Next(s, m).value)
  {
    hide Next, PcOf, Find;
    SnapshotMoves(s, m);
    HandedMoves(s, m);
    var s' := Next(s, m).value;
    assert forall n: nat :: n <= |s.installs| ==> SnapshotAfter(s'.installs, n) == SnapshotAfter(s.installs, n);
    assert forall i :: 0 <= i < |s.handed| ==> s'.handed[i] == s.handed[i];
  }

  lemma RefreshedStep(s: System, m: Move)
    requires Undisturbed(s) && RefreshesEndedRight(s) && Next(s, m).Some?
    ensures RefreshesEndedRight(Next(s, m).value)
  {
    hide Next, PcOf;
    SnapshotMoves(s, m);
    RefreshedMoves(s, m);
    assert InFlight(PcOf(s, m.thread)) ==> PcOf(s, m.thread).since == |s.installs|;
  }

  lemma InvStep(s: System, m: Move)
    requires Inv(s) && Next(s, m).Some?
    ensures Inv(Next(s, m).value)
  {
    hide Next, SingleFlight, Undisturbed, WaitsAreBounded, WholeFetches, SnapshotIsLastInstall, MissesAreSpaced,
      HandedFromInstalls, RefreshesEndedRight;
    SingleFlightStep(s, m);
    UndisturbedStep(s, m);
    WaitsStep(s, m);
    WholeFetchesStep(s, m);
    SnapshotStep(s, m);
    MissesStep(s, m);
    HandedStep(s, m);
    RefreshedStep(s, m);
  }

  // ----- whole runs -----

  /** The state after a run of steps, if each of them could be taken. */
  function Run(s: System, moves: seq<Move>): Option<System>
    decreases |moves|
  {
    if moves == [] then Some(s)
    else
      match Next(s, moves[0])
      case None => None
      case Some(next) => Run(next, moves[1..])
  }

  /** The invariant holds in every state that any number of threads can reach. */
  lemma {:induction false} RunInv(s: System, moves: seq<Move>)
    requires Inv(s) && Run(s, moves).Some?
    ensures Inv(Run(s, moves).value)
    decreases |moves|
  {
    hide Next, Inv;
    if moves != [] {
      InvStep(s, moves[0]);
      RunInv(Next(s, moves[0]).value, moves[1..]);
    }
  }

  /** A run can be taken up to any of its steps, and that step follows. */
  lemma {:induction false} RunStep(s: System, moves: seq<Move>, k: nat)
    requires Run(s, moves).Some? && k < |moves|
    ensures Run(s, moves[..k]).Some? && Next(Run(s, moves[..k]).value, moves[k]).Some?
    ensures Run(s, moves[..k + 1]) == Next(Run(s, moves[..k]).value, moves[k])
    decreases k
  {
    hide Next;
    if k == 0 {
      assert moves[..1] == [moves[0]];
    } else {
      RunStep(Next(s, moves[0]).value, moves[1..], k - 1);
      assert moves[..k][1..] == moves[1..][..k - 1];
      assert moves[..k + 1][1..] == moves[1..][..k];
    }
  }

  /** The state that a run from the beginning has reached before its step `k`. */
  function Reached(moves: seq<Move>, k: nat): System
    requires k <= |moves| && Run(Initial(), moves[..k]).Some?
  {
    Run(Initial(), moves[..k]).value
  }

  /** At most one fetch is in flight, and the flag says whether one is. */
  lemma SingleFlightAlways(moves: seq<Move>, t: int, u: int)
    requires Run(Initial(), moves).Some?
    ensures var s := Run(Initial(), moves).value;
      && (InFlight(PcOf(s, t)) && InFlight(PcOf(s, u)) ==> t == u)
      && (InFlight(PcOf(s, t)) ==> s.shared.inProgress)
      && (s.shared.inProgress ==> exists w :: InFlight(PcOf(s, w)))
  {
    hide Run;
    InitialInv();
    RunInv(Initial(), moves);
  }

  /**
   Wherever a run changes the snapshot, the step completes a successful fetch, and that whole,
   non-empty fetch is what it installs.
   */
  lemma OnlySuccessInstalls(moves: seq<Move>, k: nat)
    requires Run(Initial(), moves).Some? && k < |moves|
    ensures Run(Initial(), moves[..k]).Some? && Run(Initial(), moves[..k + 1]).Some?
    ensures var s := Reached(moves, k); var s' := Reached(moves, k + 1); var was := PcOf(s, moves[k].thread);
      s'.shared.keys != s.shared.keys || s'.shared.lastRefresh != s.shared.lastRefresh ==>
        && was.Fetched? && moves[k].action.Acquire? && was.result == Some(s'.shared.keys)
        && s'.shared.keys != map[] && s'.shared.lastRefresh == moves[k].at
  {
    hide Run, Next, PcOf, SingleFlight, WaitsAreBounded, SnapshotIsLastInstall, MissesAreSpaced, HandedFromInstalls;
    RunStep(Initial(), moves, k);
    InitialInv();
    RunInv(Initial(), moves[..k]);
    SnapshotMoves(Reached(moves, k), moves[k]);
  }

  /**
   Every answer ever given is what the snapshot held at the section in which the lookup returned:
   the fetch installed last by then, and no answer comes from an older snapshot than an earlier one.
   */
  lemma HandedIsCurrent(moves: seq<Move>)
    requires Run(Initial(), moves).Some?
    ensures var s := Run(Initial(), moves).value;
      forall i, j :: 0 <= i <= j < |s.handed| ==>
        && s.handed[i].installs <= s.handed[j].installs <= |s.installs|
        && s.handed[i].key == Find(SnapshotAfter(s.installs, s.handed[i].installs), s.handed[i].kid)
  {
    hide Run, Find;
    InitialInv();
    RunInv(Initial(), moves);
  }

  /** The answer was given by step `k`, as the lookup returned. */
  ghost predicate HandedAt(moves: seq<Move>, k: nat, h: Handed) {
    && k < |moves| && Run(Initial(), moves[..k]).Some? && Run(Initial(), moves[..k + 1]).Some?
    && Hands(Reached(moves, k), moves[k], Reached(moves, k + 1), h)
  }

  /** Every answer was given by some step of the run, from the snapshot that this step saw. */
  lemma {:induction false} HandedAtReturn(moves: seq<Move>, n: nat, i: nat)
    requires Run(Initial(), moves).Some? && n <= |moves| && Run(Initial(), moves[..n]).Some?
    requires i < |Reached(moves, n).handed|
    ensures exists k :: 0 <= k < n && HandedAt(moves, k, Reached(moves, n).handed[i])
    decreases n
  {
    hide Run, Next, Hands;
    StartsEmpty(moves);
    RunStep(Initial(), moves, n - 1);
    var before := Reached(moves, n - 1);
    HandedMoves(before, moves[n - 1]);
    HandsAppends(before, moves[n - 1]);
    if i < |before.handed| {
      HandedAtReturn(moves, n - 1, i);
    } else {
      assert HandedAt(moves, n - 1, Reached(moves, n).handed[i]);
    }
  }

  lemma StartsEmpty(moves: seq<Move>)
    ensures Run(Initial(), moves[..0]) == Some(Initial())
  {
  }

  lemma HandsAppends(s: System, m: Move)
    requires Next(s, m).Some?
    ensures s.handed <= Next(s, m).value.handed && s.refreshed <= Next(s, m).value.refreshed
  {
    hide Next, PcOf;
    HandedMoves(s, m);
    RefreshedMoves(s, m);
  }

  ghost predicate EndedAt(moves: seq<Move>, k: nat, end: Refreshed) {
    && k < |moves| && Run(Initial(), moves[..k]).Some? && Run(Initial(), moves[..k + 1]).Some?
    && Ends(Reached(moves, k), moves[k], Reached(moves, k + 1), end)
  }

  /** Every call of `refresh` that ended did so at some step of the run, by what that step saw. */
  lemma {:induction false} EndedAtStep(moves: seq<Move>, n: nat, i: nat)
    requires Run(Initial(), moves).Some? && n <= |moves| && Run(Initial(), moves[..n]).Some?
    requires i < |Reached(moves, n).refreshed|
    ensures exists k :: 0 <= k < n && EndedAt(moves, k, Reached(moves, n).refreshed[i])
    decreases n
  {
    hide Run, Next, Ends;
    StartsEmpty(moves);
    RunStep(Initial(), moves, n - 1);
    var before := Reached(moves, n - 1);
    RefreshedMoves(before, moves[n - 1]);
    HandsAppends(before, moves[n - 1]);
    if i < |before.refreshed| {
      EndedAtStep(moves, n - 1, i);
    } else {
      assert EndedAt(moves, n - 1, Reached(moves, n).refreshed[i]);
    }
  }

  /**
   A refresh that fetched returns exactly when the one fetch installed since it claimed is its own,
   and raises exactly when nothing was installed. One that waited returns exactly when no fetch is
   in flight as it ends, whatever has been installed meanwhile.
   */
  lemma RefreshReturns(moves: seq<Move>, i: nat)
    requires Run(Initial(), moves).Some? && i < |Run(Initial(), moves).value.refreshed|
    ensures var end := Run(Initial(), moves).value.refreshed[i];
      && end.before <= end.after
      && (end.fetched ==>
            (end.returned <==> end.after == end.before + 1) && (!end.returned <==> end.after == end.before))
      && exists k :: 0 <= k < |moves| && EndedAt(moves, k, end)
  {
    hide Run, Ends, EndedAt;
    InitialInv();
    RunInv(Initial(), moves);
    assert moves[..|moves|] == moves;
    EndedAtStep(moves, |moves|, i);
  }

  /** One thread refreshes and its fetch fails; another waits for it. */
  function FailedFetch(): seq<Move> {
    [Move(0, CallRefresh, 0.0), Move(1, CallRefresh, 0.0), Move(0, Acquire, 0.0), Move(1, Acquire, 0.0),
     Move(0, Answer(None), 1.0), Move(0, Acquire, 1.0), Move(1, Acquire, 1.0)]
  }

  /** The waiting refresh returns normally although nothing has ever been fetched. */
  lemma WaitingHidesFailure()
    ensures Run(Initial(), FailedFetch()).Some?
    ensures var s := Run(Initial(), FailedFetch()).value;
      && s.refreshed == [Refreshed(false, true, 0, 0), Refreshed(true, false, 0, 0)]
      && s.installs == [] && s.shared.keys == map[]
  {
    hide Run;
    var moves := FailedFetch();
    var s1 := Next(Initial(), moves[0]).value;
    var s2 := Next(s1, moves[1]).value;
    var s3 := Next(s2, moves[2]).value;
    var s4 := Next(s3, moves[3]).value;
    var s5 := Next(s4, moves[4]).value;
    var s6 := Next(s5, moves[5]).value;
    var s7 := Next(s6, moves[6]).value;
    RunOne(Initial(), moves, 0, s1);
    RunOne(s1, moves, 1, s2);
    RunOne(s2, moves, 2, s3);
    RunOne(s3, moves, 3, s4);
    RunOne(s4, moves, 4, s5);
    RunOne(s5, moves, 5, s6);
    RunOne(s6, moves, 6, s7);
  }

  lemma RunOne(s: System, moves: seq<Move>, k: nat, next: System)
    requires k < |moves| && Next(s, moves[k]) == Some(next)
    ensures Run(s, moves[k..]) == Run(next, moves[k + 1..])
    ensures k + 1 == |moves| ==> Run(s, moves[k..]) == Some(next)
    ensures k == 0 ==> moves[k..] == moves
  {
    hide Next;
    assert moves[k..][1..] == moves[k + 1..];
  }

  /** However long a fetch takes, every waiting thread can go on after six seconds at most. */
  lemma WaitersAreReleased(moves: seq<Move>, t: int, at: real)
    requires Run(Initial(), moves).Some?
    requires Waiting(PcOf(Run(Initial(), moves).value, t))
    requires at >= Run(Initial(), moves).value.now + REFRESH_WAIT_SECONDS
    ensures Next(Run(Initial(), moves).value, Move(t, Acquire, at)).Some?
  {
    hide Run;
    InitialInv();
    RunInv(Initial(), moves);
  }

  // ----- what each step of a run does -----

  /** What the snapshot holds under this id, by the last successful fetch. */
  function Held(s: System, kid: string): Option<Key> {
    if s.installs == [] then None else Find(s.installs[|s.installs| - 1].keys, kid)
  }

  ghost predicate SomeInFlight(s: System) {
    exists t :: InFlight(PcOf(s, t))
  }

  /** An unknown key id has started a fetch less than a minute before. */
  predicate MissedLately(s: System, at: real) {
    s.missStarts != [] && at - s.missStarts[|s.missStarts| - 1] < 60.0
  }

  /** Nothing but the clock, the thread and its answers differs. */
  predicate OnlyAnswers(s: System, s': System, m: Move, pc: Pc, handed: seq<Handed>) {
    s' == s.(now := m.at, threads := s.threads[m.thread := pc], handed := s.handed + handed)
  }

  ghost predicate Reachable(s: System) {
    exists moves :: Run(Initial(), moves) == Some(s)
  }

  lemma ReachableInv(s: System)
    requires Reachable(s)
    ensures Inv(s)
  {
    hide Run, Inv;
    var moves :| Run(Initial(), moves) == Some(s);
    InitialInv();
    RunInv(Initial(), moves);
  }

  /** What the shared state says, in terms of the installs, the fetches in flight and the key misses. */
  lemma SharedSays(s: System)
    requires Reachable(s)
    ensures forall kid :: Find(s.shared.keys, kid) == Held(s, kid)
    ensures s.shared.inProgress <==> SomeInFlight(s)
    ensures forall at :: CoolingDown(s.shared, at) <==> MissedLately(s, at)
  {
    ReachableInv(s);
  }

  /**
   A lookup in its first section: it answers at once when the snapshot holds the key; otherwise it
   waits for a fetch in flight; otherwise it answers that there is none when an unknown key id has
   started a fetch less than a minute before; and otherwise it starts a fetch itself.
   */
  lemma LookupStep(s: System, m: Move, kid: string)
    requires Reachable(s) && m.at >= s.now && PcOf(s, m.thread) == Looking(kid) && m.action == Acquire
    ensures Next(s, m).Some?
    ensures var s' := Next(s, m).value;
      if Held(s, kid).Some? then OnlyAnswers(s, s', m, Idle, [Handed(kid, Held(s, kid), |s.installs|)])
      else if SomeInFlight(s) then OnlyAnswers(s, s', m, WaitingLookup(kid, m.at + 6.0), [])
      else if MissedLately(s, m.at) then OnlyAnswers(s, s', m, Idle, [Handed(kid, None, |s.installs|)])
      else s' == s.(now := m.at, threads := s.threads[m.thread := Fetching(Some(kid), |s.installs|)],
                    missStarts := s.missStarts + [m.at],
                    shared := s.shared.(lastKeyMiss := Some(m.at), inProgress := true))
  {
    hide Reachable, SomeInFlight, MissedLately, CoolingDown;
    SharedSays(s);
    assert Find(s.shared.keys, kid) == Held(s, kid);
    assert CoolingDown(s.shared, m.at) <==> MissedLately(s, m.at);
    assert s.handed + [] == s.handed;
  }

  /** A refresh in its first section starts a fetch unless one is in flight, for which it waits. */
  lemma RefreshStep(s: System, m: Move)
    requires Reachable(s) && m.at >= s.now && PcOf(s, m.thread) == Refreshing && m.action == Acquire
    ensures Next(s, m).Some?
    ensures var s' := Next(s, m).value;
      if SomeInFlight(s) then OnlyAnswers(s, s', m, WaitingRefresh(m.at + 6.0, |s.installs|), [])
      else s' == s.(now := m.at, threads := s.threads[m.thread := Fetching(None, |s.installs|)],
                    shared := s.shared.(inProgress := true))
  {
    hide Reachable, SomeInFlight;
    SharedSays(s);
    assert s.handed + [] == s.handed;
  }

  /** A waiting lookup goes on when no fetch is in flight or its six seconds are over, not before, and answers. */
  lemma WaitingLookupStep(s: System, m: Move, kid: string, deadline: real)
    requires Reachable(s) && m.at >= s.now && PcOf(s, m.thread) == WaitingLookup(kid, deadline) && m.action == Acquire
    ensures Next(s, m).Some? <==> !SomeInFlight(s) || m.at >= deadline
    ensures Next(s, m).Some? ==>
              OnlyAnswers(s, Next(s, m).value, m, Idle, [Handed(kid, Held(s, kid), |s.installs|)])
  {
    hide Reachable, SomeInFlight;
    SharedSays(s);
    assert Find(s.shared.keys, kid) == Held(s, kid);
  }

  /** So does a waiting refresh, which returns when no fetch is in flight and raises otherwise. */
  lemma WaitingRefreshStep(s: System, m: Move, deadline: real, since: nat)
    requires Reachable(s) && m.at >= s.now && m.action == Acquire
    requires PcOf(s, m.thread) == WaitingRefresh(deadline, since)
    ensures Next(s, m).Some? <==> !SomeInFlight(s) || m.at >= deadline
    ensures Next(s, m).Some? ==>
              var end := Refreshed(!SomeInFlight(s), false, since, |s.installs|);
              Next(s, m).value
              == s.(now := m.at, threads := s.threads[m.thread := Idle], refreshed := s.refreshed + [end])
  {
    hide Reachable, SomeInFlight;
    SharedSays(s);
  }

  /** Any failure, and any non-empty set of keys, can be what a fetch ends with. */
  lemma FetchStep(s: System, m: Move, kid: Option<string>, since: nat, result: Option<Keys>)
    requires m.at >= s.now && PcOf(s, m.thread) == Fetching(kid, since) && m.action == Answer(result)
    ensures Next(s, m).Some? <==> result != Some(map[])
    ensures Next(s, m).Some? ==> OnlyAnswers(s, Next(s, m).value, m, Fetched(kid, result, since), [])
  {
    assert s.handed + [] == s.handed;
  }

  /** A successful fetch is installed as it completes, a failed one is not, and the claim ends either way. */
  lemma CompletionStep(s: System, m: Move, kid: Option<string>, result: Option<Keys>, since: nat)
    requires Reachable(s) && m.at >= s.now && PcOf(s, m.thread) == Fetched(kid, result, since) && m.action == Acquire
    ensures Next(s, m).Some?
    ensures var s' := Next(s, m).value;
      && s'.installs == s.installs + (if result.Some? then [Install(result.value, m.at)] else [])
      && (forall id :: Held(s', id) == if result.Some? then Find(result.value, id) else Held(s, id))
      && !SomeInFlight(s')
      && s'.threads == s.threads[m.thread := if kid.Some? then ReadingBack(kid.value) else Idle]
      && s'.now == m.at && s'.handed == s.handed && s'.missStarts == s.missStarts
      && (s'.refreshed == if kid.Some? then s.refreshed
                          else s.refreshed + [Refreshed(result.Some?, true, since, |s'.installs|)])
  {
    ReachableInv(s);
    InvStep(s, m);
    assert s.installs + [] == s.installs;
  }

  /** The lookup that has fetched then answers from the snapshot. */
  lemma ReadingBackStep(s: System, m: Move, kid: string)
    requires Reachable(s) && m.at >= s.now && PcOf(s, m.thread) == ReadingBack(kid) && m.action == Acquire
    ensures Next(s, m).Some?
    ensures OnlyAnswers(s, Next(s, m).value, m, Idle, [Handed(kid, Held(s, kid), |s.installs|)])
  {
    hide Reachable;
    SharedSays(s);
    assert Find(s.shared.keys, kid) == Held(s, kid);
  }

  // ----- the rate of key-miss fetches -----

  /** How many of the times lie in the closed interval. */
  function CountIn(times: seq<real>, from: real, to: real): nat {
    if times == [] then 0
    else
      var last := times[|times| - 1];
      CountIn(times[..|times| - 1], from, to) + if from <= last <= to then 1 else 0
  }

  /** Spaced times cannot crowd an interval. */
  lemma {:induction false} SpacedCount(times: seq<real>, from: real, to: real)
    requires Spaced(times) && from <= to
    ensures (CountIn(times, from, to) as real) * KEY_MISS_COOLDOWN_SECONDS <= to - from + KEY_MISS_COOLDOWN_SECONDS
    decreases |times|
  {
    if times != [] {
      var n := |times| - 1;
      var last := times[n];
      var rest := times[..n];
      if from <= last <= to {
        var limit := last - KEY_MISS_COOLDOWN_SECONDS;
        assert forall i :: 0 <= i < n ==> rest[i] <= limit;
        if from <= limit {
          SpacedCount(rest, from, limit);
          CountBelow(rest, from, limit, to);
        } else {
          CountNone(rest, from, to);
        }
      } else {
        SpacedCount(rest, from, to);
      }
    }
  }

  lemma {:induction false} CountBelow(times: seq<real>, from: real, limit: real, to: real)
    requires limit <= to && forall i :: 0 <= i < |times| ==> times[i] <= limit
    ensures CountIn(times, from, to) == CountIn(times, from, limit)
    decreases |times|
  {
    if times != [] {
      CountBelow(times[..|times| - 1], from, limit, to);
    }
  }

  lemma {:induction false} CountNone(times: seq<real>, from: real, to: real)
    requires forall i :: 0 <= i < |times| ==> times[i] < from
    ensures CountIn(times, from, to) == 0
    decreases |times|
  {
    if times != [] {
      CountNone(times[..|times| - 1], from, to);
    }
  }

  /**
   Whatever the threads and the key ids, any interval of T seconds sees at most T/60 + 1 fetches
   that an unknown key id started.
   */
  lemma KeyMissRate(moves: seq<Move>, from: real, to: real)
    requires Run(Initial(), moves).Some? && from <= to
    ensures (CountIn(Run(Initial(), moves).value.missStarts, from, to) as real) <= (to - from) / 60.0 + 1.0
  {
    hide Run;
    InitialInv();
    RunInv(Initial(), moves);
    SpacedCount(Run(Initial(), moves).value.missStarts, from, to);
  }

  /** Readiness means a whole, non-empty key set that was installed at most 900 seconds ago. */
  lemma ReadyIsRecent(moves: seq<Move>)
    requires Run(Initial(), moves).Some?
    ensures var s := Run(Initial(), moves).value;
      IsReady(s.shared, s.now) <==>
        s.installs != [] && s.now - s.installs[|s.installs| - 1].at <= 900.0
    ensures var s := Run(Initial(), moves).value;
      s.installs != [] ==> s.shared.keys == s.installs[|s.installs| - 1].keys && s.shared.keys != map[]
  {
    hide Run;
    InitialInv();
    RunInv(Initial(), moves);
  }
}
