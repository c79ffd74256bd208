/**
 The publish protocol: six records are made public, one after the other, by POSTs that cannot be undone and whose
 answers can be lost. A journal is replaced atomically before and after each one; the process can fail, be interrupted,
 be killed or lose power between any two steps, and be started again.
 */
module Publish {
  import opened Outcomes

  /** Records are numbered in publication order. */
  const RECORDS: nat := 6

  type Key = nat
  type RecordId = nat

  datatype Journal = Journal(
    digest: nat, inventory: set<RecordId>, public: set<Key>, uncertain: set<Key>, unexpected: set<RecordId>)

  /** The records the journal says were or may have been published. */
  function Covered(j: Option<Journal>): set<Key> {
    if j.None? then {} else j.value.public + j.value.uncertain
  }

  /** Where `publish_locked` stands; `i` is a record. */
  datatype Point =
    | Listing
    | Reading(i: nat)
    | Comparing
    | Screening
    | Checking(i: nat)
    | SavingFirst
    | Fetching(i: nat)
    | Verifying(i: nat)
    | SavingIntent(i: nat)
    | Posting(i: nat)
    | Confirming(i: nat)
    | VerifyingDone(i: nat)
    | SavingDone(i: nat)
    | Relisting(i: nat)
    | SavingListing(i: nat)
    | ScreeningAgain(i: nat)
    | Recovering(i: nat)
    | SavingError

  /** The plan of a run: its digest and the ids of the six planned records. */
  datatype Plan = Plan(digest: nat, planned: set<RecordId>)

  /** One run. `preflighted` and `verified` record what this run has checked. */
  datatype Process = Process(
    at: Point, plan: Plan, baseline: Option<set<RecordId>>, listed: set<RecordId>,
    public: set<Key>, uncertain: set<Key>, unexpected: set<RecordId>,
    fetchedDone: bool, preflighted: set<Key>, verified: set<Key>)

  /** The repository: what it reports as done, what it ever did, what our POSTs made done, and POSTs under way. */
  datatype Remote = Remote(done: set<Key>, everDone: set<Key>, made: set<Key>, inflight: set<Key>)

  /** `visible` is the journal file, `durable` what a power loss leaves of it, `posted` the POSTs ever sent. */
  datatype State = State(
    remote: Remote, visible: Option<Journal>, durable: Option<Journal>, process: Option<Process>, posted: set<Key>)

  datatype Event =
    | Start(plan: Plan)
    | Listed(found: set<RecordId>)
    | Got
    | Passed
    | Saved
    | SavedLate(settled: bool)
    | Sent(answered: bool)
    | Raised
    | Killed
    | PowerLost
    | Processed(key: Key)
    | Dropped(key: Key)
    | Changed(key: Key, done: bool)

  // ----- one step

  function Snapshot(p: Process): Journal
    requires p.baseline.Some?
  {
    Journal(p.plan.digest, p.baseline.value, p.public, p.uncertain, p.unexpected)
  }

  /** Loads the journal of the same plan; another plan's journal is refused. */
  function StartRun(s: State, plan: Plan): State {
    if s.process.Some? || (s.visible.Some? && s.visible.value.digest != plan.digest) then s
    else
      var blank := Process(Listing, plan, None, {}, {}, {}, {}, false, {}, {});
      s.(process := Some(
        if s.visible.None? then blank
        else blank.(baseline := Some(s.visible.value.inventory), public := s.visible.value.public,
                    uncertain := s.visible.value.uncertain)))
  }

  /** An exception: to the handler, on with the handler, or out of it. */
  function Fail(p: Process): Option<Process> {
    match p.at
    case Recovering(i) => Some(p.(at := AfterRecovering(i)))
    case SavingError => None
    case _ => Some(p.(at := Recovering(0)))
  }

  function AfterRecovering(i: nat): Point {
    if i + 1 < RECORDS then Recovering(i + 1) else SavingError
  }

  /** `get`: a record seen done is public and no longer uncertain; one seen public before must still be done. */
  function Observe(p: Process, i: Key, done: bool): Process {
    if done then p.(public := p.public + {i}, uncertain := p.uncertain - {i}, fetchedDone := true)
    else p.(fetchedDone := false)
  }

  function AfterGet(p: Process, i: Key, done: bool, next: Point): Option<Process> {
    if !done && i in p.public then Fail(p) else Some(Observe(p, i, done).(at := next))
  }

  function Get(p: Process, remote: Remote): Option<Process> {
    match p.at
    case Reading(i) => AfterGet(p, i, i in remote.done, if i + 1 < RECORDS then Reading(i + 1) else Comparing)
    case Fetching(i) => AfterGet(p, i, i in remote.done, Verifying(i))
    case Confirming(i) => AfterGet(p, i, i in remote.done, VerifyingDone(i))
    case Recovering(i) => AfterGet(p, i, i in remote.done, AfterRecovering(i))
    case _ => Some(p)
  }

  /** Listed records that are neither planned nor in the baseline. */
  function Extra(p: Process): set<RecordId> {
    p.listed - (if p.baseline.Some? then p.baseline.value else {}) - p.plan.planned
  }

  /** A listing; the first one ever becomes the baseline. */
  function List(p: Process, found: set<RecordId>): Process {
    match p.at
    case Listing =>
      p.(listed := found, baseline := Some(if p.baseline.None? then found else p.baseline.value), at := Reading(0))
    case Relisting(i) =>
      var q := p.(listed := found, at := SavingListing(i));
      q.(unexpected := Extra(q))
    case _ => p
  }

  /** The checks at the current point accept; after the last record the run is over. */
  function Pass(p: Process): Option<Process> {
    match p.at
    case Comparing => Some(p.(unexpected := Extra(p), at := Screening))
    case Screening => Some(if p.unexpected == {} then p.(at := Checking(0)) else p)
    case Checking(i) =>
      Some(p.(preflighted := p.preflighted + {i}, at := if i + 1 < RECORDS then Checking(i + 1) else SavingFirst))
    case Verifying(i) =>
      Some(if p.fetchedDone then p.(verified := p.verified + {i}, at := SavingDone(i))
           else p.(uncertain := p.uncertain + {i}, at := SavingIntent(i)))
    case VerifyingDone(i) =>
      Some(if p.fetchedDone then p.(verified := p.verified + {i}, at := SavingDone(i)) else p)
    case ScreeningAgain(i) =>
      if p.unexpected != {} then Some(p) else if i + 1 < RECORDS then Some(p.(at := Fetching(i + 1))) else None
    case _ => Some(p)
  }

  /** Where a save returns to; None when it does not happen here. */
  function AfterSave(at: Point): Option<Point> {
    match at
    case SavingFirst => Some(Fetching(0))
    case SavingIntent(i) => Some(Posting(i))
    case SavingDone(i) => Some(Relisting(i))
    case SavingListing(i) => Some(ScreeningAgain(i))
    case _ => None
  }

  predicate Saves(p: Process) {
    p.baseline.Some? && (AfterSave(p.at).Some? || p.at.SavingError?)
  }

  function Next(s: State, e: Event): State {
    match e
    case Start(plan) => StartRun(s, plan)
    case Killed => s.(process := None)
    case PowerLost => s.(process := None, visible := s.durable)
    case Processed(k) =>
      if k in s.remote.inflight then
        s.(remote := s.remote.(done := s.remote.done + {k}, everDone := s.remote.everDone + {k},
                               made := s.remote.made + {k}, inflight := s.remote.inflight - {k}))
      else s
    case Dropped(k) => s.(remote := s.remote.(inflight := s.remote.inflight - {k}))
    case Changed(k, done) =>
      if done then s.(remote := s.remote.(done := s.remote.done + {k}, everDone := s.remote.everDone + {k}))
      else s.(remote := s.remote.(done := s.remote.done - {k}))
    case _ => if s.process.None? then s else Act(s, s.process.value, e)
  }

  /** A step of the running process. */
  function Act(s: State, p: Process, e: Event): State {
    match e
    case Listed(found) => s.(process := Some(List(p, found)))
    case Got => s.(process := Get(p, s.remote))
    case Passed => s.(process := Pass(p))
    case Saved =>
      if !Saves(p) then s
      else s.(visible := Some(Snapshot(p)), durable := Some(Snapshot(p)),
              process := if p.at.SavingError? then None else Some(p.(at := AfterSave(p.at).value)))
    case SavedLate(settled) =>
      if !Saves(p) then s
      else s.(visible := Some(Snapshot(p)), durable := if settled then Some(Snapshot(p)) else s.durable,
              process := Fail(p))
    case Sent(answered) =>
      if !p.at.Posting? then s
      else s.(posted := s.posted + {p.at.i}, remote := s.remote.(inflight := s.remote.inflight + {p.at.i}),
              process := if answered then Some(p.(at := Confirming(p.at.i))) else Fail(p))
    case Raised => s.(process := Fail(p))
    case _ => s
  }

  // ----- runs

  function Initial(done: set<Key>): State {
    State(Remote(done, done, {}, {}), None, None, None, {})
  }

  function Run(s: State, events: seq<Event>): State
    decreases |events|
  {
    if |events| == 0 then s else Run(Next(s, events[0]), events[1..])
  }

  // ----- what every step keeps

  ghost predicate UpTo(n: nat, keys: set<Key>) {
    forall i: nat :: i < n ==> i in keys
  }

  /** The record a point of the ORDER loop is at. */
  function Turn(at: Point): Option<nat> {
    match at
    case Fetching(i) => Some(i)
    case Verifying(i) => Some(i)
    case SavingIntent(i) => Some(i)
    case Posting(i) => Some(i)
    case Confirming(i) => Some(i)
    case VerifyingDone(i) => Some(i)
    case SavingDone(i) => Some(i)
    case Relisting(i) => Some(i)
    case SavingListing(i) => Some(i)
    case ScreeningAgain(i) => Some(i)
    case _ => None
  }

  /** This run has verified record `i` itself by these points. */
  predicate PastRecord(at: Point) {
    at.SavingDone? || at.Relisting? || at.SavingListing? || at.ScreeningAgain?
  }

  /** What the run has checked by the time it stands at a point. */
  ghost predicate Checked(p: Process) {
    && (p.at.Checking? ==> UpTo(p.at.i, p.preflighted))
    && (p.at.SavingFirst? || Turn(p.at).Some? ==> UpTo(RECORDS, p.preflighted))
    && (Turn(p.at).Some? ==> Turn(p.at).value < RECORDS && UpTo(Turn(p.at).value, p.verified))
    && (PastRecord(p.at) ==> Turn(p.at).value in p.verified)
    && (p.at.SavingIntent? || p.at.Posting? ==> p.at.i in p.uncertain && p.at.i !in p.public)
    && (p.at.Verifying? && !p.fetchedDone ==> p.at.i !in p.public)
    && ((p.at.Verifying? || p.at.VerifyingDone?) && p.fetchedDone ==> p.at.i in p.public)
    && p.verified <= p.public
    && (p.baseline.None? ==> p.at.Listing? || p.at.Recovering? || p.at.SavingError?)
    && Screened(p)
  }

  /** The points at which the last listing has been compared with what is expected, but not yet acted on. */
  predicate Screens(at: Point) {
    at.Screening? || at.SavingListing? || at.ScreeningAgain?
  }

  /** Nothing but the baseline and the planned records was listed. */
  predicate Expected(baseline: Option<set<RecordId>>, planned: set<RecordId>, listed: set<RecordId>) {
    baseline.Some? && listed <= baseline.value + planned
  }

  predicate ListedExpected(p: Process) {
    Expected(p.baseline, p.plan.planned, p.listed)
  }

  /** A run goes on only while its last listing is as expected. */
  ghost predicate Screened(p: Process) {
    && (Screens(p.at) && p.unexpected == {} ==> ListedExpected(p))
    && (!Screens(p.at) && (p.at.Checking? || p.at.SavingFirst? || Turn(p.at).Some?) ==> ListedExpected(p))
  }

  ghost predicate ProcessInv(s: State, p: Process) {
    && Checked(p)
    && Covered(s.visible) <= p.public + p.uncertain
    && (s.visible.Some? ==> p.baseline == Some(s.visible.value.inventory) && p.plan.digest == s.visible.value.digest)
    && (p.at.Posting? ==> s.durable.Some? && p.at.i in s.durable.value.uncertain && p.at.i !in s.durable.value.public)
    && p.public <= s.remote.everDone
  }

  ghost predicate Inv(s: State) {
    && s.posted <= Covered(s.durable) <= Covered(s.visible)
    && (s.durable.Some? ==>
        && s.visible.Some? && s.visible.value.inventory == s.durable.value.inventory
        && s.visible.value.digest == s.durable.value.digest)
    && (s.visible.Some? ==> s.visible.value.public <= s.remote.everDone)
    && (s.durable.Some? ==> s.durable.value.public <= s.remote.everDone)
    && s.remote.made + s.remote.inflight <= s.posted && s.remote.done <= s.remote.everDone
    && (s.process.Some? ==> ProcessInv(s, s.process.value))
  }

  lemma FailKeeps(s: State, p: Process)
    requires ProcessInv(s, p) && Fail(p).Some?
    ensures ProcessInv(s, Fail(p).value)
  {
    hide UpTo, Covered;
  }

  lemma GetKeeps(s: State, p: Process)
    requires ProcessInv(s, p) && s.remote.done <= s.remote.everDone && Get(p, s.remote).Some?
    ensures ProcessInv(s, Get(p, s.remote).value)
  {
    hide UpTo, Covered, Fail, Expected;
    if Fail(p).Some? {
      FailKeeps(s, p);
    }
  }

  lemma NothingExtra(p: Process)
    requires p.baseline.Some?
    ensures Extra(p) == {} <==> ListedExpected(p)
  {
    assert forall x :: x in p.listed ==> x in Extra(p) || x in p.baseline.value + p.plan.planned;
  }

  lemma ListKeeps(s: State, p: Process, found: set<RecordId>)
    requires ProcessInv(s, p)
    ensures ProcessInv(s, List(p, found))
  {
    hide UpTo, Covered, Extra, Expected;
    if p.at.Relisting? {
      NothingExtra(p.(listed := found, at := SavingListing(p.at.i)));
    }
  }

  lemma PassKeeps(s: State, p: Process)
    requires ProcessInv(s, p) && Pass(p).Some?
    ensures ProcessInv(s, Pass(p).value)
  {
    hide Covered, Extra, Expected;
    if p.at.Comparing? {
      NothingExtra(p);
    }
  }

  lemma SavedKeeps(s: State, p: Process)
    requires Inv(s) && s.process == Some(p)
    ensures Inv(Act(s, p, Saved))
  {
  }

  lemma SavedLateKeeps(s: State, p: Process, settled: bool)
    requires Inv(s) && s.process == Some(p)
    ensures Inv(Act(s, p, SavedLate(settled)))
  {
    hide UpTo, Fail;
    if Saves(p) {
      var next := s.(visible := Some(Snapshot(p)), durable := if settled then Some(Snapshot(p)) else s.durable);
      assert ProcessInv(next, p);
      if Fail(p).Some? {
        FailKeeps(next, p);
      }
    }
  }

  lemma SendKeeps(s: State, p: Process, answered: bool)
    requires Inv(s) && s.process == Some(p)
    ensures Inv(Act(s, p, Sent(answered)))
  {
    hide UpTo, Fail;
    if Fail(p).Some? {
      FailKeeps(Act(s, p, Sent(answered)), p);
    }
  }

  lemma NextKeepsInv(s: State, e: Event)
    requires Inv(s)
    ensures Inv(Next(s, e))
  {
    hide Checked, Fail, Get, List, Pass, Covered;
    if s.process.Some? {
      var p := s.process.value;
      match e {
        case Listed(found) => ListKeeps(s, p, found);
        case Got =>
          if Get(p, s.remote).Some? {
            GetKeeps(s, p);
          }
        case Passed =>
          if Pass(p).Some? {
            PassKeeps(s, p);
          }
        case Saved => SavedKeeps(s, p);
        case SavedLate(settled) => SavedLateKeeps(s, p, settled);
        case Sent(answered) => SendKeeps(s, p, answered);
        case Raised =>
          if Fail(p).Some? {
            FailKeeps(s, p);
          }
        case _ =>
      }
    }
    if e.Start? {
      StartKeeps(s, e.plan);
    }
  }

  lemma StartKeeps(s: State, plan: Plan)
    requires Inv(s)
    ensures Inv(StartRun(s, plan))
  {
    hide UpTo;
  }

  lemma {:induction false} RunKeepsInv(s: State, events: seq<Event>)
    requires Inv(s)
    ensures Inv(Run(s, events))
    decreases |events|
  {
    hide Inv, Next;
    if |events| > 0 {
      NextKeepsInv(s, events[0]);
      RunKeepsInv(Next(s, events[0]), events[1..]);
    }
  }

  // ----- safety of every run

  lemma InitialInv(done: set<Key>)
    ensures Inv(Initial(done))
  {
  }

  /**
   In every run, when a POST is sent for a record: the process has last listed only baseline and planned records, has
   preflighted all six, has seen every earlier record done and verified it, and the journal on disk already lists the
   record as uncertain, not as public, for this plan.
   */
  lemma PostOnlyWhenReady(done: set<Key>, events: seq<Event>, answered: bool)
    ensures
      var s := Run(Initial(done), events);
      var posts := s.process.Some? && s.process.value.at.Posting?;
      && (Next(s, Sent(answered)).posted != s.posted ==> posts)
      && (posts ==>
          var p := s.process.value;
          && Next(s, Sent(answered)).posted == s.posted + {p.at.i}
          && ListedExpected(p)
          && p.at.i < RECORDS && UpTo(RECORDS, p.preflighted) && UpTo(p.at.i, p.verified * p.public * s.remote.everDone)
          && s.durable.Some? && s.durable.value.digest == p.plan.digest
          && p.at.i in s.durable.value.uncertain && p.at.i !in s.durable.value.public)
  {
    hide Run, Covered;
    InitialInv(done);
    RunKeepsInv(Initial(done), events);
  }

  /** POSTs are sent by no other event. */
  lemma OnlySendingPosts(s: State, e: Event)
    ensures Next(s, e).posted != s.posted ==> e.Sent?
  {
    hide Fail, Get, List, Pass;
  }

  /**
   In every run, whatever was ever POSTed, and so whatever the tool made public, stands in the journal's public or
   uncertain set, in the file and in what a power loss leaves of it; and what the journal calls public was once
   seen done.
   */
  lemma JournalCoversPosts(done: set<Key>, events: seq<Event>)
    ensures
      var s := Run(Initial(done), events);
      && s.remote.made <= s.posted <= Covered(s.durable)
      && s.posted <= Covered(s.visible)
      && (s.durable.Some? ==> s.durable.value.public <= s.remote.everDone)
      && (s.visible.Some? ==> s.visible.value.public <= s.remote.everDone)
  {
    hide Run, UpTo, Covered;
    InitialInv(done);
    RunKeepsInv(Initial(done), events);
  }

  /** One step forgets no record of the durable journal and changes neither its baseline nor its plan. */
  lemma NextKeepsJournal(s: State, e: Event)
    requires Inv(s) && s.durable.Some?
    ensures Next(s, e).durable.Some?
    ensures Next(s, e).durable.value.inventory == s.durable.value.inventory
    ensures Next(s, e).durable.value.digest == s.durable.value.digest
    ensures Covered(s.durable) <= Covered(Next(s, e).durable)
  {
    hide Fail, Get, List, Pass, UpTo, Checked;
  }

  /** Once journalled, the baseline inventory and the plan never change, and no record leaves the journal. */
  lemma {:induction false} BaselineNeverChanges(s: State, events: seq<Event>)
    requires Inv(s) && s.durable.Some?
    ensures var t := Run(s, events);
      && t.durable.Some? && t.durable.value.inventory == s.durable.value.inventory
      && t.durable.value.digest == s.durable.value.digest && Covered(s.durable) <= Covered(t.durable)
    decreases |events|
  {
    hide Inv, Next, Covered;
    if |events| > 0 {
      NextKeepsInv(s, events[0]);
      NextKeepsJournal(s, events[0]);
      BaselineNeverChanges(Next(s, events[0]), events[1..]);
    }
  }

  // ----- no POST of a record that is seen done

  /** The run has fetched record `k`, found it not done, and not yet sent its POST. */
  predicate Intends(s: State, k: Key) {
    s.process.Some? &&
    var p := s.process.value;
    p.at == SavingIntent(k) || p.at == Posting(k) || (p.at == Verifying(k) && !p.fetchedDone)
  }

  predicate SendsPost(s: State, e: Event, k: Key) {
    e.Sent? && s.process.Some? && s.process.value.at == Posting(k)
  }

  lemma DoneIsNotIntended(s: State, e: Event, k: Key)
    requires k in s.remote.done && !Intends(s, k)
    ensures !Intends(Next(s, e), k)
  {
  }

  lemma {:induction false} RunOneMore(s: State, events: seq<Event>, i: nat)
    requires i < |events|
    ensures Run(s, events[..i + 1]) == Next(Run(s, events[..i]), events[i])
    decreases i
  {
    hide Next;
    if i > 0 {
      RunOneMore(Next(s, events[0]), events[1..], i - 1);
      assert events[..i + 1][1..] == events[1..][..i] && events[..i][1..] == events[1..][..i - 1];
    }
  }

  lemma {:induction false} StaysUnintended(s: State, events: seq<Event>, k: Key, n: nat)
    requires n <= |events| && !Intends(s, k)
    requires forall i :: 0 <= i < n ==> k in Run(s, events[..i]).remote.done
    ensures !Intends(Run(s, events[..n]), k)
    decreases n
  {
    hide Next, Intends;
    if n > 0 {
      StaysUnintended(s, events, k, n - 1);
      RunOneMore(s, events, n - 1);
      DoneIsNotIntended(Run(s, events[..n - 1]), events[n - 1], k);
    }
  }

  /**
   From a state where a record is done and no run stands between its fetch and its POST of it, no POST is sent for the
   record while it stays done, by this run or any later one, however they end.
   */
  lemma DoneIsNotPostedAgain(s: State, events: seq<Event>, k: Key, n: nat)
    requires n < |events| && !Intends(s, k)
    requires forall i :: 0 <= i <= n ==> k in Run(s, events[..i]).remote.done
    ensures !SendsPost(Run(s, events[..n]), events[n], k)
  {
    hide Run;
    StaysUnintended(s, events, k, n);
  }

  // ----- an unexpected record stops a run

  /** This run has listed exactly `found`, and that is not expected. */
  ghost predicate ListedBadly(s: State, found: set<RecordId>) {
    s.process.Some? ==> s.process.value.listed == found && !ListedExpected(s.process.value)
  }

  lemma ListingIsTaken(s: State, found: set<RecordId>)
    requires s.process.Some? && (s.process.value.at.Listing? || s.process.value.at.Relisting?)
    ensures Next(s, Listed(found)).process.Some?
    ensures var p := Next(s, Listed(found)).process.value;
      && p.listed == found && p.plan == s.process.value.plan
      && p.baseline == if s.process.value.at.Listing? && s.process.value.baseline.None? then Some(found)
                       else s.process.value.baseline
  {
    hide Extra;
  }

  lemma StaysBad(s: State, e: Event, found: set<RecordId>)
    requires ListedBadly(s, found) && !e.Listed? && !e.Start?
    ensures ListedBadly(Next(s, e), found)
  {
    hide Extra, Expected, UpTo;
  }

  lemma {:induction false} StaysListedBadly(s: State, events: seq<Event>, found: set<RecordId>)
    requires ListedBadly(s, found) && forall i :: 0 <= i < |events| ==> !events[i].Listed? && !events[i].Start?
    ensures ListedBadly(Run(s, events), found)
    decreases |events|
  {
    hide Next, ListedBadly;
    if |events| > 0 {
      StaysBad(s, events[0], found);
      StaysListedBadly(Next(s, events[0]), events[1..], found);
    }
  }

  /**
   In every run, once a listing holds a record that is neither in the baseline nor planned, the process that read it
   sends no POST before it lists again, whatever else happens.
   */
  lemma UnexpectedRecordStops(
    done: set<Key>, events: seq<Event>, found: set<RecordId>, more: seq<Event>, answered: bool, k: Key)
    requires
      var s := Run(Initial(done), events);
      && s.process.Some? && (s.process.value.at.Listing? || s.process.value.at.Relisting?)
      && s.process.value.baseline.Some? && !(found <= s.process.value.baseline.value + s.process.value.plan.planned)
    requires forall i :: 0 <= i < |more| ==> !more[i].Listed? && !more[i].Start?
    ensures !SendsPost(Run(Next(Run(Initial(done), events), Listed(found)), more), Sent(answered), k)
  {
    hide Run, Next;
    var s := Run(Initial(done), events);
    var t := Next(s, Listed(found));
    InitialInv(done);
    RunKeepsInv(Initial(done), events);
    NextKeepsInv(s, Listed(found));
    ListingIsTaken(s, found);
    StaysListedBadly(t, more, found);
    RunKeepsInv(t, more);
  }
}
