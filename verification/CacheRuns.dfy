/**
 Whole runs: any sequence of stores, loads and logouts against one credential store, any call of
 which may fail and each of which may be cut short by the process stopping.
 */
module CacheRuns {
  import opened Basics
  import opened Json
  import opened CacheChunks
  import opened CacheFormat
  import opened Keyring
  import opened CacheState
  import opened CredentialCache
  import opened IdTokens
  import opened SignOut
  import ManifestKey
  import opened CleanupJournal

  datatype Operation =
    | Store(payload: string, draws: seq<string>)
    | Load(sanitize: Sanitizer, draws: seq<string>)
    | Logout

  function Draws(op: Operation): seq<string> {
    if op.Logout? then [] else op.draws
  }

  /**
   The operation draws fresh generations and writes no small payload that claims the reserved key. Of
   what a load may find, and so of what it has to write, the run knows that it has a given shape.
   */
  ghost predicate Allowed(op: Operation, embedded: seq<Entry>, shape: string -> bool) {
    && AllFresh(Draws(op), embedded)
    && match op
       case Store(payload, draws) => ValidDraws(draws) && Publishable(payload) && shape(payload)
       case Load(sanitize, draws) => ValidDraws(draws) && KeepsShape(sanitize, shape)
       case Logout => true
  }

  ghost predicate KeepsShape(sanitize: Sanitizer, shape: string -> bool) {
    forall text :: shape(text) && Rewrites(sanitize, text) ==>
      Publishable(Rewritten(sanitize, text)) && shape(Rewritten(sanitize, text))
  }

  predicate Shaped(c: Contents, shape: string -> bool) {
    c.Payload? ==> shape(c.text)
  }

  /** The shape that every payload of this program has: it does not claim the reserved key, whatever its size. */
  predicate KeyFree(text: string) {
    !ManifestKey.Contains(text)
  }

  /** Storing a payload without the reserved key, and loading with the program's own sanitizer, are always allowed. */
  lemma KeyFreeIsKept(op: Operation)
    requires !op.Logout? ==> ValidDraws(op.draws)
    requires op.Store? ==> KeyFree(op.payload)
    requires op.Load? ==> RemovesIdTokens(op.sanitize)
    ensures Allowed(op, [], KeyFree)
  {
    hide ManifestKey.Contains, IsSanitized;
    if op.Load? {
      forall text | KeyFree(text) && Rewrites(op.sanitize, text) ensures KeyFree(Rewritten(op.sanitize, text)) {
        assert IsSanitized(text, op.sanitize(text));
        SanitizingKeepsClaims(text, op.sanitize(text));
      }
    }
  }

  /** The operation, if it writes, leaves exactly this for later loads. */
  predicate Writes(before: Contents, op: Operation, c: Contents) {
    match op
    case Store(payload, _) => c == Payload(payload)
    case Load(sanitize, _) =>
      before.Payload? && Rewrites(sanitize, before.text) && c == Payload(Rewritten(sanitize, before.text))
    case Logout => c == Nothing
  }

  /** The operation completes only if it writes. An empty payload is loaded without being rewritten. */
  predicate MustWrite(before: Contents, op: Operation) {
    match op
    case Load(sanitize, _) => before.Payload? && before.text != "" && Rewrites(sanitize, before.text)
    case _ => true
  }

  /** What a load may give after an operation, by what it gave before and whether the operation completed. */
  predicate MayLeave(before: Contents, op: Operation, completed: bool, after: Contents) {
    || Writes(before, op, after)
    || (after == before && !(completed && MustWrite(before, op)))
  }

  ghost predicate IsTrace(ops: seq<Operation>, completed: seq<bool>, trace: seq<Contents>) {
    && |completed| == |ops| && |trace| == |ops| + 1
    && forall i :: 0 <= i < |ops| ==> MayLeave(trace[i], ops[i], completed[i], trace[i + 1])
  }

  lemma ValidIsLoadable(s: Keyring.Store)
    requires Valid(s)
    ensures !Loaded(s).Damaged?
  {
    hide JournalIn, ManifestIn, InvalidManifest;
  }

  lemma EmptyStoreIsSettled()
    ensures Settled(map[]) && Valid(map[]) && Loaded(map[]) == Nothing
  {
  }

  // ----- when an operation is bound to complete -----

  /** The payload can be represented, and the draws are not all the same. */
  predicate Manageable(payload: string, draws: seq<string>) {
    || Small(payload)
    || (|Pieces(payload)| <= 1_024 && exists c, d :: c in draws && d in draws && c != d)
  }

  /** With no failing call the operation completes, whatever was done to the store before. */
  predicate BoundToComplete(before: Contents, op: Operation) {
    match op
    case Store(payload, draws) => Manageable(payload, draws)
    case Load(sanitize, draws) =>
      || before.Nothing?
      || (&& before.Payload? && before.text != "" && sanitize(before.text).Some?
          && (Rewrites(sanitize, before.text) ==> Manageable(Rewritten(sanitize, before.text), draws)))
    case Logout => true
  }

  lemma ManageableIsStorable(s: Keyring.Store, payload: string, draws: seq<string>)
    requires Settled(s) && Manageable(payload, draws)
    ensures Storable(s, [], payload, draws)
  {
    hide JournalIn, ManifestIn, InvalidManifest, Pieces, Small, Journaled, Active, Pending, Embedded, Fresh;
    assert Migratable(s) by {
      assert (set e | e in Pending(s) + Embedded(s)) == (set e | e in Pending(s));
      PendingSize(s);
    }
    assert Remaining(s, []) == ListOf(Active(s));
    if !Small(payload) {
      var c, d :| c in draws && d in draws && c != d;
      OneIsFresh(c, d, Active(s));
    }
  }

  lemma OneIsFresh(c: string, d: string, active: Option<Entry>)
    requires c != d
    ensures Fresh(c, ListOf(active)) || Fresh(d, ListOf(active))
  {
  }

  lemma PendingSize(s: Keyring.Store)
    ensures |set e | e in Pending(s)| <= MAX_CLEANUP_ENTRIES
  {
    hide JournalIn;
    DistinctSize(Pending(s));
  }

  lemma SettledStores(s: Keyring.Store)
    requires Settled(s)
    ensures Valid(s) && Embedded(s) == [] && Removable(s) && forall draws :: AllFresh(draws, Embedded(s))
  {
    hide JournalIn, ManifestIn, InvalidManifest;
    SettledIsRemovable(s);
  }

  method Perform(k: CredentialStore, op: Operation, ghost shape: string -> bool) returns (completed: bool)
    requires Allowed(op, Embedded(k.entries), shape) && Shaped(Loaded(k.entries), shape)
    modifies k
    ensures old(Valid(k.entries)) ==> Valid(k.entries)
    ensures old(Settled(k.entries)) ==> Settled(k.entries)
    ensures Embedded(k.entries) == old(Embedded(k.entries)) || Embedded(k.entries) == []
    ensures old(Valid(k.entries)) ==> MayLeave(Loaded(old(k.entries)), op, completed, Loaded(k.entries))
    ensures old(Valid(k.entries)) ==> Shaped(Loaded(k.entries), shape)
    ensures old(Settled(k.entries)) && BoundToComplete(Loaded(old(k.entries)), op)
            && Faultless(k.schedule, old(k.log), k.log) ==>
              completed
  {
    hide JournalIn, ManifestIn, InvalidManifest, Loaded, Valid, Settled, Publishable, Readable, Refused, Pieces,
      Storable, Removable, Manageable, StopsAtLast, Faultless, Merge, Recorded;
    ghost var s := k.entries;
    ghost var before := Loaded(s);
    if Settled(s) {
      SettledStores(s);
    }
    match op
    case Store(payload, draws) =>
      if Settled(s) && Manageable(payload, draws) {
        ManageableIsStorable(s, payload, draws);
      }
      var stored := StoreCacheUnlocked(k, payload, draws);
      completed := stored.Ok?;
    case Load(sanitize, draws) =>
      if before.Payload? && Rewrites(sanitize, before.text) {
        assert Publishable(Rewritten(sanitize, before.text));
        if Settled(s) && Manageable(Rewritten(sanitize, before.text), draws) {
          ManageableIsStorable(s, Rewritten(sanitize, before.text), draws);
        }
      }
      var loaded := LoadCache(k, sanitize, draws);
      completed := loaded.Ok?;
    case Logout =>
      var removed := SignOut.Logout(k);
      completed := removed.Ok?;
      if Primary !in k.entries {
        NoPrimary(k.entries);
      }
  }

  /**
   One run. The store stays valid throughout, and what it would load moves only as completed and
   interrupted operations allow. From a settled store, such as the empty one, no operation is ever
   refused for what earlier ones left behind: it completes unless a call fails, it exceeds the
   limits by itself, or a load does not understand what was stored. `marks` are the calls made
   before each operation.
   */
  method Session(k: CredentialStore, ops: seq<Operation>, ghost shape: string -> bool)
    returns (completed: seq<bool>, ghost trace: seq<Contents>, ghost marks: seq<Log>)
    requires Valid(k.entries) && Shaped(Loaded(k.entries), shape)
    requires forall op :: op in ops ==> Allowed(op, Embedded(k.entries), shape)
    modifies k
    ensures Valid(k.entries) && Shaped(Loaded(k.entries), shape)
    ensures IsTrace(ops, completed, trace)
    ensures trace[0] == Loaded(old(k.entries)) && trace[|ops|] == Loaded(k.entries)
    ensures forall i :: 0 <= i <= |ops| ==> !trace[i].Damaged?
    ensures |marks| == |ops| + 1 && marks[0] == old(k.log) && marks[|ops|] == k.log
    ensures old(Settled(k.entries)) ==>
              && Settled(k.entries)
              && forall i :: 0 <= i < |ops| && BoundToComplete(trace[i], ops[i])
                             && Faultless(k.schedule, marks[i], marks[i + 1]) ==>
                   completed[i]
  {
    hide JournalIn, ManifestIn, InvalidManifest, Loaded, Valid, Settled, MayLeave, BoundToComplete, Faultless, Embedded,
      Allowed;
    ghost var embedded := Embedded(k.entries);
    completed, trace, marks := [], [Loaded(k.entries)], [k.log];
    ValidIsLoadable(k.entries);
    for i := 0 to |ops|
      invariant Valid(k.entries) && Shaped(Loaded(k.entries), shape) && (old(Settled(k.entries)) ==> Settled(k.entries))
      invariant Embedded(k.entries) == embedded || Embedded(k.entries) == []
      invariant |completed| == i && |trace| == |marks| == i + 1
      invariant trace[0] == Loaded(old(k.entries)) && trace[i] == Loaded(k.entries)
      invariant marks[0] == old(k.log) && marks[i] == k.log
      invariant forall j :: 0 <= j < i ==> MayLeave(trace[j], ops[j], completed[j], trace[j + 1])
      invariant forall j :: 0 <= j <= i ==> !trace[j].Damaged?
      invariant old(Settled(k.entries)) ==>
                  forall j :: 0 <= j < i && BoundToComplete(trace[j], ops[j])
                              && Faultless(k.schedule, marks[j], marks[j + 1]) ==>
                    completed[j]
    {
      AllowedLater(ops[i], embedded, Embedded(k.entries), shape);
      var done := Perform(k, ops[i], shape);
      completed := completed + [done];
      trace := trace + [Loaded(k.entries)];
      marks := marks + [k.log];
      ValidIsLoadable(k.entries);
    }
  }

  lemma AllowedLater(op: Operation, embedded: seq<Entry>, later: seq<Entry>, shape: string -> bool)
    requires Allowed(op, embedded, shape) && (later == embedded || later == [])
    ensures Allowed(op, later, shape)
  {
  }

  // ----- what a run can load -----

  /** Operation `n` of the run can have put `c` where a load finds it. */
  ghost predicate PutBy(ops: seq<Operation>, trace: seq<Contents>, n: nat, c: Contents)
    requires n < |ops| && n < |trace|
  {
    Writes(trace[n], ops[n], c)
  }

  /**
   Nothing is ever loaded that was not stored: from any point of a run on, a load gives what it
   gave at that point, or exactly what one later operation wrote.
   */
  lemma {:induction false} LoadsComeFromWrites(ops: seq<Operation>, completed: seq<bool>, trace: seq<Contents>,
                                               i: nat, j: nat)
    requires IsTrace(ops, completed, trace) && i <= j <= |ops|
    ensures trace[j] == trace[i] || exists n :: i <= n < j && PutBy(ops, trace, n, trace[j])
    decreases j - i
  {
    if i < j {
      LoadsComeFromWrites(ops, completed, trace, i, j - 1);
      if trace[j] != trace[j - 1] {
        assert PutBy(ops, trace, j - 1, trace[j]);
      }
    }
  }

  /**
   After a completed store, logout or rewriting load, what was there before can only come back by
   being written again.
   */
  lemma CompletedWritesLast(ops: seq<Operation>, completed: seq<bool>, trace: seq<Contents>, i: nat, j: nat)
    requires IsTrace(ops, completed, trace) && i < j <= |ops| && completed[i] && MustWrite(trace[i], ops[i])
    ensures PutBy(ops, trace, i, trace[j]) || exists n :: i < n < j && PutBy(ops, trace, n, trace[j])
  {
    LoadsComeFromWrites(ops, completed, trace, i + 1, j);
  }

  /** Once a load with the program's own sanitizer has completed, no identity token is left to load. */
  lemma CompletedLoadsLeaveNoTokens(ops: seq<Operation>, completed: seq<bool>, trace: seq<Contents>, i: nat)
    requires IsTrace(ops, completed, trace) && i < |ops| && completed[i]
    requires ops[i].Load? && RemovesIdTokens(ops[i].sanitize)
    ensures trace[i + 1].Payload? ==> !Rewrites(ops[i].sanitize, trace[i + 1].text)
  {
    hide IsSanitized;
    var sanitize := ops[i].sanitize;
    if trace[i].Payload? && Rewrites(sanitize, trace[i].text) {
      EmptyIsNotUnderstood(sanitize);
      SanitizedStays(sanitize, trace[i].text);
    }
  }

  lemma EmptyIsNotUnderstood(sanitize: Sanitizer)
    requires RemovesIdTokens(sanitize)
    ensures sanitize("") == None
  {
    assert IsSanitized("", sanitize(""));
  }
}
