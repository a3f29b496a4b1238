/**
 The gates in front of the upstream gateway, in their order: a caller is authenticated, the body
 is checked, one policy is resolved, the model must be allowed by it, the limiter must admit the
 caller under that policy, and its key must resolve. Only then is anything sent upstream.
 */
module Gateway {
  import opened Basics
  import opened Entitlement
  import opened RateLimiter

  datatype Identity = Identity(subject: string, claims: Claims)

  /**
   What the gates see of a request; `body` is the model of a body that passed every body check.
   The limiter is asked at `time`, the policy's secret then resolves to a usable key or does not, and
   what passes all gates is sent upstream at `sentAt`.
   */
  datatype Incoming = Incoming(
    identity: Option<Identity>,
    body: Option<string>,
    clientIp: string,
    time: real,
    keyResolves: bool,
    sentAt: real)

  datatype Outcome =
    | Refused(status: int)
    | Sent(subject: string, policy: Policy, clientIp: string)

  datatype Gate = Rejected(status: int) | Granted(subject: string, policy: Policy)

  /** The policy that answers for this caller and model, or the refusal. */
  function Entitled(policies: seq<Policy>, r: Incoming): Gate {
    match r.identity
    case None => Rejected(401)
    case Some(identity) =>
      match r.body
      case None => Rejected(400)
      case Some(model) =>
        match Resolve(policies, identity.claims)
        case None => Rejected(403)
        case Some(policy) => if model !in policy.allowedModels then Rejected(403) else Granted(identity.subject, policy)
  }

  function LimitKey(subject: string, policy: Policy, clientIp: string): Key {
    (subject, policy.id, clientIp)
  }

  function Forward(c: Config, policies: seq<Policy>, st: State, r: Incoming): (State, Outcome)
    requires ValidConfig(c)
  {
    match Entitled(policies, r)
    case Rejected(status) => (st, Refused(status))
    case Granted(subject, policy) =>
      var (next, admitted) := Call(c, st, LimitKey(subject, policy, r.clientIp), WindowOf(c, r.time));
      if !admitted then (next, Refused(429))
      else if !r.keyResolves then (next, Refused(503))
      else (next, Sent(subject, policy, r.clientIp))
  }

  // ----- the model list -----

  datatype Listing = NotListed(status: int) | Listed(models: set<string>)

  /** What `/v1/models` answers. */
  function ListModels(policies: seq<Policy>, identity: Option<Identity>): Listing {
    match identity
    case None => NotListed(401)
    case Some(caller) =>
      match Resolve(policies, caller.claims)
      case None => NotListed(403)
      case Some(policy) => Listed(policy.allowedModels)
  }

  /** The list names exactly the models with which the same caller passes the entitlement gates. */
  lemma ListedModelsAreForwarded(policies: seq<Policy>, caller: Identity, model: string, clientIp: string,
                                 time: real, keyResolves: bool, sentAt: real)
    ensures ListModels(policies, None) == NotListed(401)
    ensures ListModels(policies, Some(caller)).NotListed? ==> ListModels(policies, Some(caller)).status == 403
    ensures (ListModels(policies, Some(caller)).Listed? && model in ListModels(policies, Some(caller)).models)
      <==> Entitled(policies, Incoming(Some(caller), Some(model), clientIp, time, keyResolves, sentAt)).Granted?
  {
    hide Resolve;
  }

  // ----- whole runs -----

  /** The calls that a run of requests makes to the limiter. */
  function LimiterCalls(policies: seq<Policy>, run: seq<Incoming>): seq<Request> {
    if run == [] then []
    else
      var last := run[|run| - 1];
      var before := LimiterCalls(policies, run[..|run| - 1]);
      match Entitled(policies, last)
      case Rejected(_) => before
      case Granted(subject, policy) => before + [Request(LimitKey(subject, policy, last.clientIp), last.time)]
  }

  /** The limiter's state after a run of requests through the gates. */
  function AfterRun(c: Config, policies: seq<Policy>, run: seq<Incoming>): State
    requires ValidConfig(c)
  {
    if run == [] then Empty()
    else Forward(c, policies, AfterRun(c, policies, run[..|run| - 1]), run[|run| - 1]).0
  }

  function LastOutcome(c: Config, policies: seq<Policy>, run: seq<Incoming>): Outcome
    requires ValidConfig(c) && run != []
  {
    Forward(c, policies, AfterRun(c, policies, run[..|run| - 1]), run[|run| - 1]).1
  }

  predicate SentFor(outcome: Outcome, key: Key) {
    outcome.Sent? && LimitKey(outcome.subject, outcome.policy, outcome.clientIp) == key
  }

  /** Counting what is sent by when the limiter was asked, or by when it was sent. */
  datatype Clock = AtAdmission | AtSending

  function TimeOf(clock: Clock, r: Incoming): real {
    match clock
    case AtAdmission => r.time
    case AtSending => r.sentAt
  }

  /** How often the run sent something upstream for this subject, policy and address in the interval. */
  function SentBetween(c: Config, policies: seq<Policy>, run: seq<Incoming>, key: Key,
                       clock: Clock, from: real, to: real): nat
    requires ValidConfig(c)
  {
    if run == [] then 0
    else
      var last := run[|run| - 1];
      SentBetween(c, policies, run[..|run| - 1], key, clock, from, to)
      + if SentFor(LastOutcome(c, policies, run), key) && from <= TimeOf(clock, last) < to then 1 else 0
  }

  /** From asking the limiter to sending takes no more than this. */
  ghost predicate SentWithin(run: seq<Incoming>, delay: real) {
    forall i :: 0 <= i < |run| ==> run[i].time <= run[i].sentAt <= run[i].time + delay
  }

  /** The gates give the limiter nothing but these calls. */
  lemma {:induction false} RunDrivesLimiter(c: Config, policies: seq<Policy>, run: seq<Incoming>)
    requires ValidConfig(c)
    ensures AfterRun(c, policies, run) == After(c, LimiterCalls(policies, run))
    decreases |run|
  {
    hide Entitled, Call;
    if run != [] {
      var rest := run[..|run| - 1];
      RunDrivesLimiter(c, policies, rest);
      var calls := LimiterCalls(policies, run);
      assert calls == LimiterCalls(policies, rest) || calls[..|calls| - 1] == LimiterCalls(policies, rest);
    }
  }

  /**
   Everything sent upstream was first admitted by the limiter under the same key: at the same time
   when sends are counted by admission, and no longer ago than the delay when they are counted as sent.
   */
  lemma {:induction false} SendsAreAdmitted(c: Config, policies: seq<Policy>, run: seq<Incoming>,
                                            key: Key, clock: Clock, delay: real, from: real, to: real)
    requires ValidConfig(c) && delay >= 0.0 && (clock.AtSending? ==> SentWithin(run, delay))
    ensures SentBetween(c, policies, run, key, clock, from, to)
      <= AdmittedBetween(c, LimiterCalls(policies, run), key, if clock.AtSending? then from - delay else from, to)
    decreases |run|
  {
    hide Entitled, Call, WindowOf, After;
    if run != [] {
      var rest := run[..|run| - 1];
      SendsAreAdmitted(c, policies, rest, key, clock, delay, from, to);
      RunDrivesLimiter(c, policies, rest);
      var calls := LimiterCalls(policies, run);
      assert calls == LimiterCalls(policies, rest) || calls[..|calls| - 1] == LimiterCalls(policies, rest);
    }
  }

  ghost predicate InOrder(run: seq<Incoming>) {
    forall i, j :: 0 <= i <= j < |run| ==> run[i].time <= run[j].time
  }

  lemma {:induction false} CallsInOrder(policies: seq<Policy>, run: seq<Incoming>)
    requires InOrder(run)
    ensures NonDecreasing(LimiterCalls(policies, run))
    ensures run != [] ==> forall r :: r in LimiterCalls(policies, run) ==> r.time <= run[|run| - 1].time
    ensures run == [] ==> LimiterCalls(policies, run) == []
    decreases |run|
  {
    hide Entitled;
    if run != [] {
      CallsInOrder(policies, run[..|run| - 1]);
      var before := LimiterCalls(policies, run[..|run| - 1]);
      assert forall i :: 0 <= i < |before| ==> before[i] in before;
    }
  }

  /**
   With a clock that never goes back, at most requests * (ceil(L/W) + 1) of the requests of one
   subject, policy and address that are admitted in any half-open interval of L seconds are sent.
   When sending follows within D seconds, at most requests * (ceil((L+D)/W) + 1) are sent in it.
   */
  lemma UpstreamRateBound(c: Config, policies: seq<Policy>, run: seq<Incoming>, key: Key,
                          clock: Clock, delay: real, from: real, length: real)
    requires ValidConfig(c) && InOrder(run) && length >= 0.0 && delay >= 0.0
    requires clock.AtSending? ==> SentWithin(run, delay)
    ensures var span := if clock.AtSending? then length + delay else length;
      SentBetween(c, policies, run, key, clock, from, from + length)
      <= c.requests * (Ceil(span / (c.windowSeconds as real)) + 1)
  {
    hide SentBetween, AdmittedBetween, LimiterCalls, Ceil, InOrder, NonDecreasing;
    SendsAreAdmitted(c, policies, run, key, clock, delay, from, from + length);
    CallsInOrder(policies, run);
    if clock.AtSending? {
      assert (from - delay) + (length + delay) == from + length;
      RateBound(c, LimiterCalls(policies, run), key, from - delay, length + delay);
    } else {
      RateBound(c, LimiterCalls(policies, run), key, from, length);
    }
  }

  // ----- why a request is refused -----

  /** Some policy wins for the caller, and it allows the model. */
  ghost predicate MayUse(policies: seq<Policy>, caller: Identity, model: string) {
    exists p :: Wins(multiset(policies), caller.claims, p) && model in p.allowedModels
  }

  lemma EntitledExactly(policies: seq<Policy>, r: Incoming)
    ensures Entitled(policies, r) == Rejected(401) <==> r.identity.None?
    ensures Entitled(policies, r) == Rejected(400) <==> r.identity.Some? && r.body.None?
    ensures Entitled(policies, r) == Rejected(403) <==>
              r.identity.Some? && r.body.Some? && !MayUse(policies, r.identity.value, r.body.value)
    ensures Entitled(policies, r).Granted? <==>
              r.identity.Some? && r.body.Some? && MayUse(policies, r.identity.value, r.body.value)
    ensures Entitled(policies, r).Granted? ==>
              && Entitled(policies, r).subject == r.identity.value.subject
              && Wins(multiset(policies), r.identity.value.claims, Entitled(policies, r).policy)
  {
    hide Resolve, Wins;
    if r.identity.Some? {
      forall p ensures Resolve(policies, r.identity.value.claims) == Some(p)
                       <==> Wins(multiset(policies), r.identity.value.claims, p) {
        ResolveGivesTheWinner(policies, r.identity.value.claims, p);
      }
    }
  }

  /**
   Every answer has its cause: 401 without an identity; 400 for a body that does not pass; 403
   without a winning policy that allows the model; 429 when the limiter refuses this call; 503 when
   the key does not resolve; and otherwise the request is sent for its subject under that policy.
   */
  lemma AnswersByCause(c: Config, policies: seq<Policy>, run: seq<Incoming>)
    requires ValidConfig(c) && run != []
    ensures var r := run[|run| - 1]; var outcome := LastOutcome(c, policies, run);
      if r.identity.None? then outcome == Refused(401)
      else if r.body.None? then outcome == Refused(400)
      else if !MayUse(policies, r.identity.value, r.body.value) then outcome == Refused(403)
      else
        && LimiterCalls(policies, run) != []
        && if !LastAdmitted(c, LimiterCalls(policies, run)) then outcome == Refused(429)
           else if !r.keyResolves then outcome == Refused(503)
           else
             && outcome.Sent? && outcome.subject == r.identity.value.subject && outcome.clientIp == r.clientIp
             && Wins(multiset(policies), r.identity.value.claims, outcome.policy)
             && var call := LimiterCalls(policies, run)[|LimiterCalls(policies, run)| - 1];
                call == Request((outcome.subject, outcome.policy.id, outcome.clientIp), r.time)
  {
    hide Entitled, Call, Wins, MayUse, WindowOf;
    var r := run[|run| - 1];
    var rest := run[..|run| - 1];
    EntitledExactly(policies, r);
    RunDrivesLimiter(c, policies, rest);
    if Entitled(policies, r).Granted? {
      var calls := LimiterCalls(policies, run);
      assert calls[..|calls| - 1] == LimiterCalls(policies, rest);
    }
  }

  // ----- why sends are counted within a delay -----

  function SolePolicy(): Policy {
    Policy("policy", {"group"}, {"model"}, "reference", 0, {})
  }

  /** A request that is admitted at `time` and sent twenty seconds into the run. */
  function Delayed(time: real): Incoming {
    Incoming(Some(Identity("subject", Claims({"group"}, {}))), Some("model"), "address", time, true, 20.0)
  }

  lemma DelayedIsEntitled(time: real)
    ensures Entitled([SolePolicy()], Delayed(time)) == Granted("subject", SolePolicy())
  {
    var policies := [SolePolicy()];
    var claims := Claims({"group"}, {});
    assert "group" in SolePolicy().groupIds * claims.groupIds;
    assert Matching(policies, claims) == policies;
    assert AtPriority(policies, 0) == policies;
  }

  /** A first call in a new window is admitted whatever the limits are. */
  lemma NewWindowAdmits(c: Config, st: State, key: Key, window: int)
    requires ValidConfig(c) && st.window != Some(window)
    ensures Call(c, st, key, window) == (State(Some(window), map[key := 1]), true)
  {
  }

  lemma DelayedIsSent(c: Config, st: State, time: real)
    requires ValidConfig(c) && st.window != Some(WindowOf(c, time))
    ensures var (next, outcome) := Forward(c, [SolePolicy()], st, Delayed(time));
      next.window == Some(WindowOf(c, time)) && SentFor(outcome, ("subject", "policy", "address"))
  {
    hide Entitled, Call, WindowOf;
    DelayedIsEntitled(time);
    NewWindowAdmits(c, st, ("subject", "policy", "address"), WindowOf(c, time));
  }

  /**
   Without a bound on the delay the limit on admissions is none on sends: one request a second is
   allowed, three are admitted ten seconds apart, and all of them are sent in the same second.
   */
  lemma DelayedSendsCrowd()
    ensures var c := Config(1, 1, 1); var run := [Delayed(0.0), Delayed(10.0), Delayed(20.0)];
      && InOrder(run)
      && SentBetween(c, [SolePolicy()], run, ("subject", "policy", "address"), AtSending, 20.0, 21.0) == 3
      && c.requests * (Ceil(1.0 / (c.windowSeconds as real)) + 1) == 2
  {
    hide Forward, SentFor;
    var c := Config(1, 1, 1);
    var run := [Delayed(0.0), Delayed(10.0), Delayed(20.0)];
    assert run[..2] == [Delayed(0.0), Delayed(10.0)];
    assert run[..2][..1] == [Delayed(0.0)];
    assert run[..2][..1][..0] == [];
    assert WindowOf(c, 0.0) == 0 && WindowOf(c, 10.0) == 10 && WindowOf(c, 20.0) == 20;
    var policies := [SolePolicy()];
    var st := AfterRun(c, policies, []);
    DelayedIsSent(c, st, 0.0);
    var st1 := AfterRun(c, policies, [Delayed(0.0)]);
    DelayedIsSent(c, st1, 10.0);
    var st2 := AfterRun(c, policies, run[..2]);
    DelayedIsSent(c, st2, 20.0);
  }
}
