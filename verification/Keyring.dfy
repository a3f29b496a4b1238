/**
 The operating-system credential store as the cache sees it: a map from account to value, in
 which any call may fail and the process may stop at any call. A write that fails, or at which
 the process stops, may or may not have taken effect.
 */
module Keyring {
  import opened Basics
  import opened Json
  import opened CacheFormat
  import CacheFormatLaws

  // ----- accounts -----

  datatype Account = Primary | Journal | Chunk(generation: string, index: nat)

  const CACHE_ACCOUNT := "broker-device-code-cache"

  /** The account name under which the operating system keeps a credential. */
  function Name(a: Account): string {
    match a
    case Primary => CACHE_ACCOUNT
    case Journal => CACHE_ACCOUNT + "-chunk-cleanup"
    case Chunk(generation, index) => CACHE_ACCOUNT + ("-chunk-" + (generation + ("-" + PrintNat(index))))
  }

  predicate ValidAccount(a: Account) {
    a.Chunk? ==> ValidGeneration(a.generation)
  }

  lemma PrintNatInjective(m: nat, n: nat)
    requires PrintNat(m) == PrintNat(n)
    ensures m == n
  {
    CacheFormatLaws.PrintNatDecimal(m);
    CacheFormatLaws.PrintNatDecimal(n);
  }

  lemma PrefixCancels(p: string, s: string, t: string)
    requires p + s == p + t
    ensures s == t
  {
    assert (p + s)[|p|..] == s;
    assert (p + t)[|p|..] == t;
  }

  /** Different accounts have different names, so the store is a map over accounts. */
  lemma NamesAreInjective(a: Account, b: Account)
    requires ValidAccount(a) && ValidAccount(b) && Name(a) == Name(b)
    ensures a == b
  {
    hide PrintNat;
    if a.Chunk? && b.Chunk? {
      var s := a.generation + ("-" + PrintNat(a.index));
      var t := b.generation + ("-" + PrintNat(b.index));
      PrefixCancels(CACHE_ACCOUNT, "-chunk-" + s, "-chunk-" + t);
      PrefixCancels("-chunk-", s, t);
      assert s[..32] == a.generation && t[..32] == b.generation;
      PrefixCancels(a.generation, "-" + PrintNat(a.index), "-" + PrintNat(b.index));
      PrefixCancels("-", PrintNat(a.index), PrintNat(b.index));
      PrintNatInjective(a.index, b.index);
    } else {
      assert |Name(Primary)| == 24 && |Name(Journal)| == 38;
      assert a.Chunk? ==> |Name(a)| >= 64;
      assert b.Chunk? ==> |Name(b)| >= 64;
    }
  }

  // ----- outcomes -----

  /** Why an operation did not complete. */
  datatype Problem =
    | Unavailable   // a call of the credential store raised an error
    | InvalidState  // what is stored is not understood, and is left alone
    | CannotSave    // the state cannot be represented within the limits
    | Interrupted   // the process stopped

  datatype Result<+T> = Ok(value: T) | Err(problem: Problem) {
    predicate IsFailure() {
      Err?
    }

    predicate IsInterrupted() {
      Err? && problem.Interrupted?
    }

    function PropagateFailure<U>(): Result<U>
      requires Err?
    {
      Err(problem)
    }

    function Extract(): T
      requires Ok?
    {
      value
    }
  }

  datatype Fault = Works | RaisesUntouched | RaisesApplied | StopsUntouched | StopsApplied

  predicate Applies(f: Fault) {
    f == Works || f == RaisesApplied || f == StopsApplied
  }

  predicate Stops(f: Fault) {
    f == StopsUntouched || f == StopsApplied
  }

  predicate Raises(f: Fault) {
    f == RaisesUntouched || f == RaisesApplied
  }

  /** What a caller sees of a call that would give `r`. */
  function Reply<T>(f: Fault, r: Result<T>): Result<T> {
    match f
    case Works => r
    case RaisesUntouched => Err(Unavailable)
    case RaisesApplied => Err(Unavailable)
    case StopsUntouched => Err(Interrupted)
    case StopsApplied => Err(Interrupted)
  }

  // ----- the store -----

  type Store = map<Account, string>

  /** Windows refuses a credential above this size. */
  const CREDENTIAL_MAX_BYTES := 2_560

  datatype Kind = Reading | Writing | Deleting

  datatype Call = Call(kind: Kind, account: Account)

  /** The calls made so far, in order. */
  type Log = seq<Call>

  class CredentialStore {
    var entries: Store
    var log: Log
    const schedule: nat -> Fault

    constructor (entries: Store, schedule: nat -> Fault)
      ensures this.entries == entries && this.schedule == schedule && log == []
    {
      this.entries := entries;
      this.schedule := schedule;
      log := [];
    }

    method GetPassword(account: Account) returns (r: Result<Option<string>>)
      modifies this`log
      ensures log == old(log) + [Call(Reading, account)] && (!account.Chunk? ==> NoReaping(old(log), log))
      ensures StopsAtLast(schedule, old(log), log, r.IsInterrupted())
      ensures r == Reply(schedule(|old(log)|), Ok(if account in entries then Some(entries[account]) else None))
    {
      r := Reply(schedule(|log|), Ok(if account in entries then Some(entries[account]) else None));
      log := log + [Call(Reading, account)];
    }

    method SetPassword(account: Account, value: string) returns (r: Result<()>)
      requires Utf16Bytes(value) <= CREDENTIAL_MAX_BYTES
      modifies this
      ensures log == old(log) + [Call(Writing, account)] && NoReaping(old(log), log)
      ensures StopsAtLast(schedule, old(log), log, r.IsInterrupted())
      ensures r == Reply(schedule(|old(log)|), Ok(()))
      ensures entries == if Applies(schedule(|old(log)|)) then old(entries)[account := value] else old(entries)
    {
      if Applies(schedule(|log|)) {
        entries := entries[account := value];
      }
      r := Reply(schedule(|log|), Ok(()));
      log := log + [Call(Writing, account)];
    }

    /** Deleting an absent credential raises an error. */
    method DeletePassword(account: Account) returns (r: Result<()>)
      modifies this
      ensures log == old(log) + [Call(Deleting, account)] && (!account.Chunk? ==> NoReaping(old(log), log))
      ensures StopsAtLast(schedule, old(log), log, r.IsInterrupted())
      ensures r == Reply(schedule(|old(log)|), if account in old(entries) then Ok(()) else Err(Unavailable))
      ensures entries == if Applies(schedule(|old(log)|)) then old(entries) - {account} else old(entries)
    {
      r := Reply(schedule(|log|), if account in entries then Ok(()) else Err(Unavailable));
      if Applies(schedule(|log|)) {
        entries := entries - {account};
      }
      log := log + [Call(Deleting, account)];
    }
  }

  // ----- the calls of one operation -----

  /**
   Between these two logs an operation ran: it is interrupted exactly when the process stops at its
   last call, and the process stops at none before that.
   */
  ghost predicate StopsAtLast(schedule: nat -> Fault, before: Log, after: Log, interrupted: bool) {
    && before <= after && (interrupted ==> before != after)
    && forall c :: |before| <= c < |after| ==> (Stops(schedule(c)) <==> interrupted && c == |after| - 1)
  }

  /** Every call in between works. */
  ghost predicate Faultless(schedule: nat -> Fault, before: Log, after: Log) {
    forall c :: |before| <= c < |after| ==> schedule(c) == Works
  }

  /** How the calls of an operation are made up of the calls of its parts. */
  lemma CallsCompose(schedule: nat -> Fault)
    ensures forall a :: StopsAtLast(schedule, a, a, false)
    ensures forall a, b :: |a| < |b| && Faultless(schedule, a, b) ==> schedule(|a|) == Works
    ensures forall a, b, c, interrupted ::
              StopsAtLast(schedule, a, b, false) && StopsAtLast(schedule, b, c, interrupted) ==>
                && StopsAtLast(schedule, a, c, interrupted)
                && (Faultless(schedule, a, c) ==> Faultless(schedule, a, b) && Faultless(schedule, b, c))
                && (NoReaping(a, b) && NoReaping(b, c) ==> NoReaping(a, c))
    ensures forall a :: NoReaping(a, a)
  {
    forall a: Log, b: Log, c: Log | a <= b <= c && NoReaping(a, b) && NoReaping(b, c) ensures NoReaping(a, c) {
      assert forall n :: |a| <= n < |b| ==> b[n] == c[n];
    }
  }

  // ----- calls that reap chunks -----

  /** The call looks for a chunk of the entry, or deletes it. */
  predicate Reaps(call: Call, e: Entry) {
    && !call.kind.Writing? && call.account.Chunk?
    && call.account.generation == e.generation && call.account.index < e.count
  }

  /** A call in between that should have reaped the entry raised an error. */
  ghost predicate Hit(schedule: nat -> Fault, before: Log, after: Log, e: Entry) {
    exists c :: |before| <= c < |after| && Raises(schedule(c)) && Reaps(after[c], e)
  }

  /** Every call in between could have reaped the entry. */
  ghost predicate AllReap(before: Log, after: Log, e: Entry) {
    forall c :: |before| <= c < |after| ==> Reaps(after[c], e)
  }

  lemma OneMoreCall(schedule: nat -> Fault, a: Log, b: Log, call: Call, e: Entry)
    requires a <= b && AllReap(a, b, e) && Reaps(call, e)
    ensures AllReap(a, b + [call], e)
    ensures Hit(schedule, a, b + [call], e) <==> Hit(schedule, a, b, e) || Raises(schedule(|b|))
  {
    var c := b + [call];
    assert forall n :: |a| <= n < |b| ==> c[n] == b[n];
    assert c[|b|] == call;
    if Hit(schedule, a, b, e) {
      var n :| |a| <= n < |b| && Raises(schedule(n)) && Reaps(b[n], e);
      assert Reaps(c[n], e);
    }
    if Raises(schedule(|b|)) {
      assert Reaps(c[|b|], e);
    }
  }

  lemma NoCalls(schedule: nat -> Fault, a: Log, e: Entry)
    ensures AllReap(a, a, e) && !Hit(schedule, a, a, e)
  {
  }

  /** Those of the entries that could not be reaped. */
  ghost function Failing(schedule: nat -> Fault, before: Log, after: Log, entries: seq<Entry>): (failing: seq<Entry>)
    ensures forall e :: e in failing <==> e in entries && Hit(schedule, before, after, e)
    ensures |failing| <= |entries|
  {
    if entries == [] then []
    else
      var n := |entries| - 1;
      assert forall e :: e in entries <==> e in entries[..n] || e == entries[n];
      Failing(schedule, before, after, entries[..n])
      + if Hit(schedule, before, after, entries[n]) then [entries[n]] else []
  }

  /** Calls that should have reaped one of the entries may have raised an error; all others worked. */
  ghost predicate OnlyReapingFails(schedule: nat -> Fault, before: Log, after: Log, entries: seq<Entry>) {
    forall c :: |before| <= c < |after| ==>
      schedule(c) == Works || (Raises(schedule(c)) && exists e :: e in entries && Reaps(after[c], e))
  }

  /** No call in between could have reaped anything. */
  ghost predicate NoReaping(before: Log, after: Log) {
    forall c :: |before| <= c < |after| ==> after[c].kind.Writing? || !after[c].account.Chunk?
  }

  lemma OnlyReapingParts(schedule: nat -> Fault, a: Log, b: Log, c: Log, entries: seq<Entry>)
    requires a <= b <= c && OnlyReapingFails(schedule, a, c, entries)
    ensures OnlyReapingFails(schedule, a, b, entries) && OnlyReapingFails(schedule, b, c, entries)
    ensures NoReaping(a, b) ==> Faultless(schedule, a, b)
    ensures NoReaping(b, c) ==> Faultless(schedule, b, c)
  {
    assert forall n :: |a| <= n < |b| ==> b[n] == c[n];
  }

  lemma {:induction false} FailingParts(schedule: nat -> Fault, a: Log, b: Log, c: Log, entries: seq<Entry>)
    requires a <= b <= c
    ensures NoReaping(a, b) ==> Failing(schedule, a, c, entries) == Failing(schedule, b, c, entries)
    ensures NoReaping(b, c) ==> Failing(schedule, a, c, entries) == Failing(schedule, a, b, entries)
    decreases |entries|
  {
    assert forall n :: |a| <= n < |b| ==> b[n] == c[n];
    if entries != [] {
      var n := |entries| - 1;
      FailingParts(schedule, a, b, c, entries[..n]);
      HitParts(schedule, a, b, c, entries[n]);
    }
  }

  lemma HitParts(schedule: nat -> Fault, a: Log, b: Log, c: Log, e: Entry)
    requires a <= b <= c
    ensures Hit(schedule, a, c, e) <==> Hit(schedule, a, b, e) || Hit(schedule, b, c, e)
    ensures NoReaping(a, b) ==> !Hit(schedule, a, b, e)
    ensures NoReaping(b, c) ==> !Hit(schedule, b, c, e)
  {
    assert forall n :: |a| <= n < |b| ==> b[n] == c[n];
    if Hit(schedule, a, c, e) {
      var n :| |a| <= n < |c| && Raises(schedule(n)) && Reaps(c[n], e);
      assert n < |b| ==> Reaps(b[n], e);
    }
    if Hit(schedule, a, b, e) {
      var n :| |a| <= n < |b| && Raises(schedule(n)) && Reaps(b[n], e);
      assert Reaps(c[n], e);
    }
  }

  lemma {:induction false} NothingFails(schedule: nat -> Fault, a: Log, b: Log, entries: seq<Entry>)
    requires Faultless(schedule, a, b)
    ensures Failing(schedule, a, b, entries) == [] && OnlyReapingFails(schedule, a, b, entries)
    decreases |entries|
  {
    if entries != [] {
      NothingFails(schedule, a, b, entries[..|entries| - 1]);
    }
  }

  /** Every call in between could have reaped one of the entries. */
  ghost predicate AllReapSome(before: Log, after: Log, entries: seq<Entry>) {
    forall c :: |before| <= c < |after| ==> exists e :: e in entries && Reaps(after[c], e)
  }

  predicate OneEach(entries: seq<Entry>) {
    forall j, k :: 0 <= j < k < |entries| ==> entries[j].generation != entries[k].generation
  }

  /** Reaping one more entry, of another generation, adds it to the failures exactly when a call for it fails. */
  lemma OneMoreEntry(schedule: nat -> Fault, a: Log, b: Log, c: Log, entries: seq<Entry>, e: Entry)
    requires a <= b <= c && AllReapSome(a, b, entries) && AllReap(b, c, e) && OneEach(entries + [e])
    ensures AllReapSome(a, c, entries + [e])
    ensures Failing(schedule, a, c, entries + [e])
      == Failing(schedule, a, b, entries) + if Hit(schedule, b, c, e) then [e] else []
  {
    hide Failing, Hit;
    var all := entries + [e];
    assert forall n :: |a| <= n < |b| ==> b[n] == c[n];
    assert forall d :: d in entries ==> d in all;
    assert all[|entries|] == e && e in all;
    forall d | d in entries ensures d.generation != e.generation {
      var j :| 0 <= j < |entries| && entries[j] == d;
      assert all[j] == d;
    }
    OthersSpared(schedule, a, b, c, entries, e);
    EarlierSpared(schedule, a, b, entries, e);
    HitParts(schedule, a, b, c, e);
    FailingStep(schedule, a, c, entries, e);
  }

  lemma FailingStep(schedule: nat -> Fault, a: Log, c: Log, entries: seq<Entry>, e: Entry)
    ensures Failing(schedule, a, c, entries + [e])
      == Failing(schedule, a, c, entries) + if Hit(schedule, a, c, e) then [e] else []
  {
    hide Hit;
    var all := entries + [e];
    assert all[..|all| - 1] == entries && all[|all| - 1] == e;
  }

  lemma {:induction false} OthersSpared(schedule: nat -> Fault, a: Log, b: Log, c: Log, entries: seq<Entry>, e: Entry)
    requires a <= b <= c && AllReap(b, c, e) && forall d :: d in entries ==> d.generation != e.generation
    ensures Failing(schedule, a, c, entries) == Failing(schedule, a, b, entries)
    decreases |entries|
  {
    if entries != [] {
      var d := entries[|entries| - 1];
      OthersSpared(schedule, a, b, c, entries[..|entries| - 1], e);
      HitParts(schedule, a, b, c, d);
      assert !Hit(schedule, b, c, d) by {
        assert forall n :: |b| <= n < |c| ==> Reaps(c[n], e) && !Reaps(c[n], d);
      }
    }
  }

  lemma EarlierSpared(schedule: nat -> Fault, a: Log, b: Log, entries: seq<Entry>, e: Entry)
    requires AllReapSome(a, b, entries) && forall d :: d in entries ==> d.generation != e.generation
    ensures !Hit(schedule, a, b, e)
  {
  }

  lemma NoEntries(schedule: nat -> Fault, a: Log)
    ensures AllReapSome(a, a, []) && Failing(schedule, a, a, []) == []
  {
  }

  /** A call that reaps nothing is not among those that may fail, and no operation that only fails so is interrupted. */
  lemma OnlyReapingMeans(schedule: nat -> Fault, before: Log, entries: seq<Entry>)
    ensures forall call: Call :: call.kind.Writing? || !call.account.Chunk? ==>
              && NoReaping(before, before + [call])
              && (OnlyReapingFails(schedule, before, before + [call], entries) ==> schedule(|before|) == Works)
    ensures forall after, interrupted ::
              StopsAtLast(schedule, before, after, interrupted)
              && OnlyReapingFails(schedule, before, after, entries) ==>
                !interrupted
    ensures forall after :: NoReaping(before, after) && OnlyReapingFails(schedule, before, after, entries) ==>
              Faultless(schedule, before, after)
  {
    forall call: Call | (call.kind.Writing? || !call.account.Chunk?)
                  && OnlyReapingFails(schedule, before, before + [call], entries)
      ensures schedule(|before|) == Works
    {
      assert (before + [call])[|before|] == call;
    }
    forall after, interrupted | StopsAtLast(schedule, before, after, interrupted)
                                && OnlyReapingFails(schedule, before, after, entries)
      ensures !interrupted
    {
      assert |before| < |after| ==> (Stops(schedule(|after| - 1)) <==> interrupted);
    }
  }

  lemma FaultlessMeans(schedule: nat -> Fault, before: Log, entries: seq<Entry>)
    ensures forall after :: Faultless(schedule, before, after) ==>
              OnlyReapingFails(schedule, before, after, entries) && Failing(schedule, before, after, entries) == []
  {
    hide Faultless, Failing, OnlyReapingFails;
    forall after | Faultless(schedule, before, after)
      ensures OnlyReapingFails(schedule, before, after, entries) && Failing(schedule, before, after, entries) == []
    {
      NothingFails(schedule, before, after, entries);
    }
  }

  /** Calls that reap nothing, before and behind, change nothing about which entries could not be reaped. */
  lemma ReapingBetween(schedule: nat -> Fault, a: Log, b: Log, c: Log, d: Log, interrupted: bool, entries: seq<Entry>)
    requires a <= b <= c && StopsAtLast(schedule, c, d, interrupted) && NoReaping(a, b) && NoReaping(c, d)
    ensures Failing(schedule, a, d, entries) == Failing(schedule, b, c, entries)
    ensures OnlyReapingFails(schedule, a, d, entries) ==>
              OnlyReapingFails(schedule, b, c, entries) && Faultless(schedule, a, b) && Faultless(schedule, c, d)
  {
    hide OnlyReapingFails, Failing, NoReaping, Faultless;
    FailingParts(schedule, a, b, c, entries);
    FailingParts(schedule, a, c, d, entries);
    if OnlyReapingFails(schedule, a, d, entries) {
      OnlyReapingParts(schedule, a, c, d, entries);
      OnlyReapingParts(schedule, a, b, c, entries);
    }
  }

  /** No call in between could have reaped any of these entries. */
  ghost predicate NoneReaps(before: Log, after: Log, entries: seq<Entry>) {
    forall c, e :: |before| <= c < |after| && e in entries ==> !Reaps(after[c], e)
  }

  lemma {:induction false} ReapingAfter(schedule: nat -> Fault, a: Log, b: Log, c: Log, entries: seq<Entry>)
    requires a <= b <= c && NoneReaps(a, b, entries)
    ensures Failing(schedule, a, c, entries) == Failing(schedule, b, c, entries)
    decreases |entries|
  {
    if entries != [] {
      hide Hit, NoneReaps;
      var n := |entries| - 1;
      NoneHit(schedule, a, b, entries);
      ReapingAfter(schedule, a, b, c, entries[..n]);
      HitParts(schedule, a, b, c, entries[n]);
    }
  }

  lemma NoneHit(schedule: nat -> Fault, a: Log, b: Log, entries: seq<Entry>)
    requires NoneReaps(a, b, entries) && entries != []
    ensures NoneReaps(a, b, entries[..|entries| - 1]) && !Hit(schedule, a, b, entries[|entries| - 1])
  {
    var rest := entries[..|entries| - 1];
    forall c, e | |a| <= c < |b| && e in rest ensures !Reaps(b[c], e) {
      assert e in entries;
    }
    assert entries[|entries| - 1] in entries;
  }

  lemma WorksUnlessReaping(schedule: nat -> Fault, a: Log, b: Log, c: Log, entries: seq<Entry>)
    requires a <= b <= c && NoneReaps(a, b, entries) && OnlyReapingFails(schedule, a, c, entries)
    ensures Faultless(schedule, a, b) && OnlyReapingFails(schedule, b, c, entries)
  {
    OnlyReapingParts(schedule, a, b, c, entries);
  }
}
