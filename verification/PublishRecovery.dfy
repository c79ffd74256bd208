/** A rerun can always finish the job, unless the repository has withdrawn a record it had reported as published. */
module PublishRecovery {
  import opened Outcomes
  import opened Publish

  /** Events of the process and of its own POSTs; nobody else touches the records. */
  predicate Undisturbed(events: seq<Event>) {
    forall e :: e in events ==> !e.Changed?
  }

  lemma {:induction false} RunConcat(s: State, a: seq<Event>, b: seq<Event>)
    ensures Run(s, a + b) == Run(Run(s, a), b)
    decreases |a|
  {
    hide Next;
    if |a| == 0 {
      assert a + b == b;
    } else {
      assert (a + b)[1..] == a[1..] + b;
      RunConcat(Next(s, a[0]), a[1..], b);
    }
  }

  lemma RunOne(s: State, e: Event)
    ensures Run(s, [e]) == Next(s, e)
  {
    hide Next;
    assert Run(Next(s, e), [e][1..]) == Next(s, e);
  }

  /** A run that stands at `at`, sees nothing unexpected, and has seen public only what is still done. */
  ghost predicate Standing(s: State, at: Point, all: set<RecordId>) {
    && s.process.Some?
    && var p := s.process.value;
    && p.at == at && p.unexpected == {} && p.baseline.Some? && all == p.baseline.value + p.plan.planned
    && p.listed <= all && p.public <= s.remote.done
  }

  /** What one step keeps of a standing run. */
  lemma Reads(s: State, i: nat, all: set<RecordId>)
    requires Standing(s, Reading(i), all) && i < RECORDS
    ensures Standing(Next(s, Got), if i + 1 < RECORDS then Reading(i + 1) else Comparing, all)
    ensures Next(s, Got).remote == s.remote
  {
  }

  lemma {:induction false} ReadsAll(s: State, i: nat, all: set<RecordId>) returns (events: seq<Event>)
    requires Standing(s, Reading(i), all) && i < RECORDS
    ensures Undisturbed(events) && Standing(Run(s, events), Comparing, all) && Run(s, events).remote == s.remote
    decreases RECORDS - i
  {
    hide Standing, Next, Run;
    Reads(s, i, all);
    RunOne(s, Got);
    if i + 1 < RECORDS {
      var rest := ReadsAll(Next(s, Got), i + 1, all);
      events := [Got] + rest;
      RunConcat(s, [Got], rest);
    } else {
      events := [Got];
    }
  }

  lemma Passes(s: State, at: Point, next: Point, all: set<RecordId>)
    requires Standing(s, at, all)
    requires (at == Comparing && next == Screening) || (at == Screening && next == Checking(0))
          || (at.Checking? && at.i + 1 < RECORDS && next == Checking(at.i + 1))
          || (at.Checking? && at.i + 1 == RECORDS && next == SavingFirst)
    ensures Standing(Next(s, Passed), next, all) && Next(s, Passed).remote == s.remote
  {
    if at == Comparing {
      var p := s.process.value;
      assert Extra(p) == {};
    }
  }

  lemma {:induction false} ChecksAll(s: State, i: nat, all: set<RecordId>) returns (events: seq<Event>)
    requires Standing(s, Checking(i), all) && i < RECORDS
    ensures Undisturbed(events) && Standing(Run(s, events), SavingFirst, all) && Run(s, events).remote == s.remote
    decreases RECORDS - i
  {
    hide Standing, Next, Run;
    RunOne(s, Passed);
    if i + 1 < RECORDS {
      Passes(s, Checking(i), Checking(i + 1), all);
      var rest := ChecksAll(Next(s, Passed), i + 1, all);
      events := [Passed] + rest;
      RunConcat(s, [Passed], rest);
    } else {
      Passes(s, Checking(i), SavingFirst, all);
      events := [Passed];
    }
  }

  /** From the first listing to the ORDER loop. */
  lemma Preflights(s: State, all: set<RecordId>) returns (events: seq<Event>)
    requires Standing(s, Reading(0), all)
    ensures Undisturbed(events) && Standing(Run(s, events), Fetching(0), all)
  {
    hide Standing, Next, Run;
    var gets := ReadsAll(s, 0, all);
    var a := Run(s, gets);
    Passes(a, Comparing, Screening, all);
    RunOne(a, Passed);
    var b := Next(a, Passed);
    Passes(b, Screening, Checking(0), all);
    RunOne(b, Passed);
    var c := Next(b, Passed);
    var checks := ChecksAll(c, 0, all);
    var d := Run(c, checks);
    SavesFirst(d, all);
    RunOne(d, Saved);
    events := gets + [Passed] + [Passed] + checks + [Saved];
    RunConcat(s, gets, [Passed]);
    RunConcat(s, gets + [Passed], [Passed]);
    RunConcat(s, gets + [Passed] + [Passed], checks);
    RunConcat(s, gets + [Passed] + [Passed] + checks, [Saved]);
  }

  lemma SavesFirst(s: State, all: set<RecordId>)
    requires Standing(s, SavingFirst, all)
    ensures Standing(Next(s, Saved), Fetching(0), all)
  {
  }

  // ----- one record

  /** Records below `n` are public, in the run and in the durable journal. */
  ghost predicate PublicBelow(s: State, n: nat) {
    && s.process.Some? && UpTo(n, s.process.value.public)
    && (n > 0 ==> s.durable.Some? && UpTo(n, s.durable.value.public))
  }

  lemma FetchesDone(s: State, i: nat, all: set<RecordId>)
    requires Standing(s, Fetching(i), all) && i in s.remote.done && PublicBelow(s, i)
    ensures var t := Next(Next(s, Got), Passed);
      Standing(t, SavingDone(i), all) && UpTo(i + 1, t.process.value.public)
  {
  }

  lemma FetchesDraft(s: State, i: nat, all: set<RecordId>)
    requires Standing(s, Fetching(i), all) && i !in s.remote.done && PublicBelow(s, i)
    ensures var t := Next(Next(s, Got), Passed);
      Standing(t, SavingIntent(i), all) && UpTo(i, t.process.value.public)
  {
  }

  lemma Posts(s: State, i: nat, all: set<RecordId>)
    requires Standing(s, SavingIntent(i), all) && UpTo(i, s.process.value.public)
    ensures var t := Next(Next(Next(s, Saved), Sent(true)), Processed(i));
      Standing(t, Confirming(i), all) && UpTo(i, t.process.value.public) && i in t.remote.done
  {
    var a := Next(s, Saved);
    var b := Next(a, Sent(true));
    assert i in b.remote.inflight;
  }

  lemma Confirms(s: State, i: nat, all: set<RecordId>)
    requires Standing(s, Confirming(i), all) && i in s.remote.done && UpTo(i, s.process.value.public)
    ensures var t := Next(Next(s, Got), Passed);
      Standing(t, SavingDone(i), all) && UpTo(i + 1, t.process.value.public)
  {
  }

  lemma Records(s: State, i: nat, all: set<RecordId>)
    requires Standing(s, SavingDone(i), all) && i < RECORDS && UpTo(i + 1, s.process.value.public)
    ensures
      var b := Next(Next(Next(s, Saved), Listed(all)), Saved);
      var t := Next(b, Passed);
      && t.durable.Some? && UpTo(i + 1, t.durable.value.public)
      && (i + 1 < RECORDS ==> Standing(t, Fetching(i + 1), all) && PublicBelow(t, i + 1))
      && (i + 1 == RECORDS ==> t.process.None?)
  {
    var a := Next(Next(s, Saved), Listed(all));
    assert Extra(a.process.value) == {};
    assert a.process.value.unexpected == {};
  }

  lemma Advances(s: State, i: nat, all: set<RecordId>) returns (events: seq<Event>)
    requires Standing(s, Fetching(i), all) && PublicBelow(s, i) && i < RECORDS
    ensures Undisturbed(events)
    ensures
      var t := Run(s, events);
      && t.durable.Some? && UpTo(i + 1, t.durable.value.public)
      && (i + 1 < RECORDS ==> Standing(t, Fetching(i + 1), all) && PublicBelow(t, i + 1))
      && (i + 1 == RECORDS ==> t.process.None?)
  {
    hide Standing, Next, Run, UpTo, PublicBelow;
    var fetch := [Got, Passed];
    RunTwo(s, Got, Passed);
    var ready := fetch;
    if i in s.remote.done {
      FetchesDone(s, i, all);
    } else {
      FetchesDraft(s, i, all);
      var a := Run(s, fetch);
      Posts(a, i, all);
      RunThree(a, Saved, Sent(true), Processed(i));
      var b := Run(a, [Saved, Sent(true), Processed(i)]);
      Confirms(b, i, all);
      RunTwo(b, Got, Passed);
      ready := fetch + [Saved, Sent(true), Processed(i)] + fetch;
      RunConcat(s, fetch, [Saved, Sent(true), Processed(i)]);
      RunConcat(s, fetch + [Saved, Sent(true), Processed(i)], fetch);
    }
    var c := Run(s, ready);
    Records(c, i, all);
    RunTwo(c, Saved, Listed(all));
    var d := Run(c, [Saved, Listed(all)]);
    RunTwo(d, Saved, Passed);
    events := ready + [Saved, Listed(all)] + [Saved, Passed];
    RunConcat(s, ready, [Saved, Listed(all)]);
    RunConcat(s, ready + [Saved, Listed(all)], [Saved, Passed]);
  }

  lemma RunTwo(s: State, a: Event, b: Event)
    ensures Run(s, [a, b]) == Next(Next(s, a), b)
  {
    hide Next;
    RunOne(Next(s, a), b);
    assert [a, b][1..] == [b];
  }

  lemma RunThree(s: State, a: Event, b: Event, c: Event)
    ensures Run(s, [a, b, c]) == Next(Next(Next(s, a), b), c)
  {
    hide Next;
    RunTwo(Next(s, a), b, c);
    assert [a, b, c][1..] == [b, c];
  }

  lemma {:induction false} AdvancesAll(s: State, i: nat, all: set<RecordId>) returns (events: seq<Event>)
    requires Standing(s, Fetching(i), all) && PublicBelow(s, i) && i < RECORDS
    ensures Undisturbed(events)
    ensures var t := Run(s, events);
      t.process.None? && t.durable.Some? && UpTo(RECORDS, t.durable.value.public)
    decreases RECORDS - i
  {
    hide Standing, Next, Run, UpTo, PublicBelow;
    events := Advances(s, i, all);
    if i + 1 < RECORDS {
      var rest := AdvancesAll(Run(s, events), i + 1, all);
      RunConcat(s, events, rest);
      events := events + rest;
    }
  }

  // ----- reruns

  /** A stopped run whose journal, if there is one, belongs to the plan and calls public only what is still done. */
  ghost predicate Resumable(s: State, plan: Plan) {
    && s.process.None?
    && (s.visible.Some? ==> s.visible.value.digest == plan.digest && s.visible.value.public <= s.remote.done)
  }

  /** What a rerun of the plan can end in: all six public, durably journalled so, nothing running. */
  ghost predicate Finished(s: State) {
    s.process.None? && s.durable.Some? && UpTo(RECORDS, s.durable.value.public)
  }

  /** From every resumable state of every run, a rerun of the plan can finish, given only answers to its requests. */
  lemma RerunCanFinish(s: State, plan: Plan) returns (events: seq<Event>)
    requires Resumable(s, plan)
    ensures Undisturbed(events) && Finished(Run(s, events))
  {
    hide Standing, Next, Run, PublicBelow, UpTo;
    var found := (if s.visible.Some? then s.visible.value.inventory else {}) + plan.planned;
    Starts(s, plan, found);
    RunTwo(s, Start(plan), Listed(found));
    var a := Run(s, [Start(plan), Listed(found)]);
    var before := Preflights(a, found);
    NothingBelow(Run(a, before), found);
    var rest := AdvancesAll(Run(a, before), 0, found);
    events := [Start(plan), Listed(found)] + before + rest;
    RunConcat(s, [Start(plan), Listed(found)], before);
    RunConcat(s, [Start(plan), Listed(found)] + before, rest);
  }

  lemma Starts(s: State, plan: Plan, found: set<RecordId>)
    requires Resumable(s, plan) && found == (if s.visible.Some? then s.visible.value.inventory else {}) + plan.planned
    ensures Standing(Next(Next(s, Start(plan)), Listed(found)), Reading(0), found)
  {
    var p := Next(s, Start(plan)).process.value;
    assert p.unexpected == {};
  }

  lemma NothingBelow(s: State, all: set<RecordId>)
    requires Standing(s, Fetching(0), all)
    ensures PublicBelow(s, 0)
  {
  }

  /** If the repository has withdrawn a record the journal calls public, no rerun sends a POST, whatever the answers. */
  lemma {:induction false} WithdrawnBlocks(s: State, k: Key, events: seq<Event>)
    requires Inv(s) && Blocked(s, k) && k < RECORDS && Undisturbed(events)
    ensures Blocked(Run(s, events), k) && Run(s, events).posted == s.posted
    decreases |events|
  {
    hide Inv, Next, Blocked;
    if |events| > 0 {
      assert events[0] in events;
      NextKeepsInv(s, events[0]);
      BlockedStays(s, k, events[0]);
      WithdrawnBlocks(Next(s, events[0]), k, events[1..]);
    }
  }

  /**
   Record `k` is public in both journals but no longer done, no POST of it is under way, and no run
   is past its preflight.
   */
  ghost predicate Blocked(s: State, k: Key) {
    && s.durable.Some? && k in s.durable.value.public && s.visible.Some? && k in s.visible.value.public
    && k !in s.remote.done && k !in s.remote.inflight
    && (s.process.Some? ==>
        var p := s.process.value;
        && k in p.public
        && (p.at.Listing? || (p.at.Reading? && p.at.i <= k) || p.at.Recovering? || p.at.SavingError?))
  }

  lemma BlockedStays(s: State, k: Key, e: Event)
    requires Inv(s) && Blocked(s, k) && k < RECORDS && !e.Changed?
    ensures Blocked(Next(s, e), k) && Next(s, e).posted == s.posted
  {
    hide UpTo;
  }

  // ----- what the error handler records

  /** Reads, answered or not. */
  predicate Attempts(events: seq<Event>) {
    forall j :: 0 <= j < |events| ==> events[j].Got? || events[j].Raised?
  }

  /** The records, from `i` on, whose read was answered with done. */
  function SeenDone(done: set<Key>, i: nat, events: seq<Event>): set<Key> {
    set k | k in done && i <= k < i + |events| && events[k - i].Got?
  }

  /** The handler tries to read the records from `i` on; neither a lost answer nor a withdrawn record stops it. */
  lemma {:induction false} HandlerReads(s: State, i: nat, events: seq<Event>)
    requires s.process.Some? && i < RECORDS && s.process.value.at == Recovering(i)
    requires |events| == RECORDS - i && Attempts(events)
    ensures
      var p, t := s.process.value, Run(s, events);
      && t.process.Some? && t == s.(process := t.process)
      && var q, seen := t.process.value, SeenDone(s.remote.done, i, events);
      && q.at == SavingError && q.public == p.public + seen && q.uncertain == p.uncertain - seen
      && q.plan == p.plan && q.baseline == p.baseline && q.unexpected == p.unexpected
    decreases RECORDS - i
  {
    var t, rest := Next(s, events[0]), events[1..];
    SeenFirst(s.remote.done, i, events);
    HandlerStep(s, i, events[0]);
    if i + 1 < RECORDS {
      HandlerReads(t, i + 1, rest);
    } else {
      assert rest == [] && Run(t, []) == t && SeenDone(s.remote.done, i + 1, []) == {};
    }
  }

  lemma SeenFirst(done: set<Key>, i: nat, events: seq<Event>)
    requires |events| > 0
    ensures SeenDone(done, i, events)
         == SeenDone(done, i + 1, events[1..]) + (if i in done && events[0].Got? then {i} else {})
  {
  }

  lemma HandlerStep(s: State, i: nat, e: Event)
    requires s.process.Some? && i < RECORDS && s.process.value.at == Recovering(i) && (e.Got? || e.Raised?)
    ensures
      var p, t := s.process.value, Next(s, e);
      && t.process.Some? && t == s.(process := t.process)
      && var q, seen := t.process.value, if i in s.remote.done && e.Got? then {i} else {};
      && q.at == (if i + 1 < RECORDS then Recovering(i + 1) else SavingError)
      && q.public == p.public + seen && q.uncertain == p.uncertain - seen
      && q.plan == p.plan && q.baseline == p.baseline && q.unexpected == p.unexpected
  {
  }

  /**
   Wherever a run raises, its handler tries to read all six records and then saves. The journal ends up durable with
   exactly the records that answered done moved from uncertain to public, and with the unexpected records of the run.
   */
  lemma HandlerReconciles(s: State, attempts: seq<Event>)
    requires s.process.Some? && s.process.value.baseline.Some?
    requires !s.process.value.at.Recovering? && !s.process.value.at.SavingError?
    requires |attempts| == RECORDS && Attempts(attempts)
    ensures
      var p, t := s.process.value, Run(s, [Raised] + attempts + [Saved]);
      var seen := SeenDone(s.remote.done, 0, attempts);
      && t.process.None? && t.visible == t.durable && t.remote == s.remote && t.posted == s.posted
      && t.durable == Some(Journal(p.plan.digest, p.baseline.value, p.public + seen, p.uncertain - seen, p.unexpected))
  {
    hide Run;
    RunOne(s, Raised);
    RunConcat(s, [Raised], attempts);
    RunConcat(s, [Raised] + attempts, [Saved]);
    HandlerReads(Next(s, Raised), 0, attempts);
    RunOne(Run(s, [Raised] + attempts), Saved);
  }
}
