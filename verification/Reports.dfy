/** The report pipeline as a machine of atomic steps: requests push events into a
    bounded queue, the event loop counts and stores results, and a report is written
    either by the flush worker between the loop's steps (interval mode) or by the loop
    itself after each stored result (serial mode). */
module Reports {
  import opened Api
  import RingBuffer

  datatype Outcome = Passed | Failed | Errored

  /** An event: its outcome, and whether its request can be marshalled. */
  datatype Event = Event(outcome: Outcome, marshals: bool)

  datatype Counters = Counters(pass: nat, fail: nat, error: nat) {
    function Of(o: Outcome): nat {
      match o case Passed => pass case Failed => fail case Errored => error
    }

    function Total(): nat { pass + fail + error }

    function Add(o: Outcome): Counters {
      match o
      case Passed => this.(pass := pass + 1)
      case Failed => this.(fail := fail + 1)
      case Errored => this.(error := error + 1)
    }
  }

  /** What a written report says. `now` are the counters when its results were read or,
      on the update path, when its last counter was read. */
  datatype Report = Report(created: bool, results: seq<Outcome>, summary: Counters, now: Counters)

  datatype Loop = Idle | Taken(event: Event) | Counted(event: Event) | Reporting | Stopped

  /** Where the writing of a report stands. Updating reads the ring first, then the error,
      pass and fail counters; creating reads the three counters first, then the ring. */
  datatype Writer =
    | Waiting
    | Updating
    | Updating1(results: seq<Outcome>)
    | Updating2(results: seq<Outcome>, e: nat)
    | Updating3(results: seq<Outcome>, e: nat, p: nat)
    | Creating
    | Creating1(e: nat)
    | Creating2(e: nat, p: nat)
    | Creating3(e: nat, p: nat, f: nat)
    | Exited

  datatype Config = Config(size: nat, interval: bool)

  /** `accepted` are the queued events in order and `taken` how many of them the loop
      has taken; these, `dropped`, `failures`, `stored` and `reports` record the run. */
  datatype State = State(
    queue: seq<Event>,
    counters: Counters,
    ring: seq<Outcome>,
    loop: Loop,
    writer: Writer,
    cancelled: bool,
    accepted: seq<Event>,
    dropped: nat,
    taken: nat,
    failures: nat,
    stored: seq<Outcome>,
    reports: seq<Report>)

  datatype Got = Found | NotFound | GetFailed

  datatype Label = Push(event: Event) | Receive | Count | Store | Begin(got: Got) | Advance | Cancel | StopLoop | StopWriter

  const CAPACITY := 50

  function Start(): State { State([], Counters(0, 0, 0), [], Idle, Waiting, false, [], 0, 0, 0, [], []) }

  /** One atomic step; a step that is not enabled leaves the state alone. */
  function Step(c: Config, s: State, l: Label): State {
    match l
    case Push(ev) =>
      if |s.queue| < CAPACITY then s.(queue := s.queue + [ev], accepted := s.accepted + [ev])
      else s.(dropped := s.dropped + 1)
    case Receive =>
      if s.loop.Idle? && s.queue != [] then
        s.(queue := s.queue[1..], loop := Taken(s.queue[0]), taken := s.taken + 1)
      else s
    case Count =>
      if s.loop.Taken? then
        s.(counters := s.counters.Add(s.loop.event.outcome), loop := Counted(s.loop.event))
      else s
    case Store =>
      if !s.loop.Counted? then s
      else if !s.loop.event.marshals then s.(failures := s.failures + 1, loop := Idle)
      else
        s.(ring := RingBuffer.Latest(s.ring + [s.loop.event.outcome], c.size),
           stored := s.stored + [s.loop.event.outcome],
           loop := if c.interval then Idle else Reporting)
    case Begin(got) =>
      if s.writer.Waiting? && (c.interval || s.loop.Reporting?) then
        match got
        case Found => s.(writer := Updating)
        case NotFound => s.(writer := Creating)
        case GetFailed => Finished(c, s)
      else s
    case Advance => Write(c, s)
    case Cancel => s.(cancelled := true)
    case StopLoop => if s.cancelled && s.loop.Idle? then s.(loop := Stopped) else s
    case StopWriter => if s.cancelled && c.interval && s.writer.Waiting? then s.(writer := Exited) else s
  }

  /** A report attempt is over; in serial mode the loop goes on. */
  function Finished(c: Config, s: State): State {
    s.(writer := Waiting, loop := if c.interval then s.loop else Idle)
  }

  function Publish(c: Config, s: State, r: Report): State {
    Finished(c, s.(reports := s.reports + [r]))
  }

  function Write(c: Config, s: State): State {
    match s.writer
    case Waiting => s
    case Exited => s
    case Updating => s.(writer := Updating1(s.ring))
    case Updating1(rs) => s.(writer := Updating2(rs, s.counters.error))
    case Updating2(rs, e) => s.(writer := Updating3(rs, e, s.counters.pass))
    case Updating3(rs, e, p) => Publish(c, s, Report(false, rs, Counters(p, s.counters.fail, e), s.counters))
    case Creating => s.(writer := Creating1(s.counters.error))
    case Creating1(e) => s.(writer := Creating2(e, s.counters.pass))
    case Creating2(e, p) => s.(writer := Creating3(e, p, s.counters.fail))
    case Creating3(e, p, f) => Publish(c, s, Report(true, s.ring, Counters(p, f, e), s.counters))
  }

  function Run(c: Config, ls: seq<Label>): State {
    if ls == [] then Start() else Step(c, Run(c, ls[..|ls| - 1]), ls[|ls| - 1])
  }

  // ---------------------------------------------------------- conservation

  function PushCalls(ls: seq<Label>): nat {
    if ls == [] then 0 else PushCalls(ls[..|ls| - 1]) + if ls[|ls| - 1].Push? then 1 else 0
  }

  /** The outcomes that marshal, in order. */
  function Marshalled(evs: seq<Event>): seq<Outcome> {
    if evs == [] then [] else
    Marshalled(evs[..|evs| - 1]) + if evs[|evs| - 1].marshals then [evs[|evs| - 1].outcome] else []
  }

  function WithOutcome(o: Outcome, evs: seq<Event>): nat {
    if evs == [] then 0 else
    WithOutcome(o, evs[..|evs| - 1]) + if evs[|evs| - 1].outcome == o then 1 else 0
  }

  /** How many accepted events were counted, and how many of these are done with. */
  function CountedEvents(s: State): int { s.taken - if s.loop.Taken? then 1 else 0 }

  function DoneEvents(s: State): int { CountedEvents(s) - if s.loop.Counted? then 1 else 0 }

  /** The queue is what is left of the accepted events; the counters count exactly the
      counted ones by outcome; every one done with was stored in order or failed to
      marshal; and the ring holds the latest stored results. */
  ghost predicate Conserved(c: Config, s: State) {
    && s.taken <= |s.accepted| && 0 <= DoneEvents(s)
    && s.queue == s.accepted[s.taken..] && |s.queue| <= CAPACITY
    && (s.loop.Taken? || s.loop.Counted? ==> s.taken > 0 && s.loop.event == s.accepted[s.taken - 1])
    && (forall o: Outcome :: s.counters.Of(o) == WithOutcome(o, s.accepted[..CountedEvents(s)]))
    && s.stored == Marshalled(s.accepted[..DoneEvents(s)])
    && |s.stored| + s.failures == DoneEvents(s)
    && s.ring == RingBuffer.Latest(s.stored, c.size)
    && (!c.interval && !s.writer.Waiting? ==> s.loop.Reporting?)
  }

  lemma StartConserved(c: Config)
    ensures Conserved(c, Start())
  {
  }

  lemma DropAppend(evs: seq<Event>, n: nat, ev: Event)
    requires n <= |evs|
    ensures (evs + [ev])[n..] == evs[n..] + [ev]
  {
  }

  lemma PushConserves(c: Config, s: State, ev: Event)
    requires Conserved(c, s)
    ensures Conserved(c, Step(c, s, Push(ev)))
  {
    var t := Step(c, s, Push(ev));
    if |s.queue| < CAPACITY {
      DropAppend(s.accepted, s.taken, ev);
    }
    assert t.accepted[..CountedEvents(t)] == s.accepted[..CountedEvents(s)];
    assert t.accepted[..DoneEvents(t)] == s.accepted[..DoneEvents(s)];
  }

  lemma ReceiveConserves(c: Config, s: State)
    requires Conserved(c, s) && s.loop.Idle? && s.queue != []
    ensures Conserved(c, Step(c, s, Receive))
  {
    var t := Step(c, s, Receive);
    assert CountedEvents(t) == CountedEvents(s) && DoneEvents(t) == DoneEvents(s);
    assert s.queue[1..] == s.accepted[s.taken + 1..];
    assert s.queue[0] == s.accepted[s.taken];
  }

  lemma CountConserves(c: Config, s: State)
    requires Conserved(c, s) && s.loop.Taken?
    ensures Conserved(c, Step(c, s, Count))
  {
    var t := Step(c, s, Count);
    var now, before := s.accepted[..s.taken], s.accepted[..s.taken - 1];
    assert CountedEvents(t) == s.taken && CountedEvents(s) == s.taken - 1 && DoneEvents(t) == DoneEvents(s);
    assert now[..s.taken - 1] == before && now[s.taken - 1] == s.loop.event;
    forall o: Outcome ensures t.counters.Of(o) == WithOutcome(o, now) {
      assert s.counters.Of(o) == WithOutcome(o, before);
      assert WithOutcome(o, now) == WithOutcome(o, before) + if s.loop.event.outcome == o then 1 else 0;
    }
  }

  lemma StoreConserves(c: Config, s: State)
    requires Conserved(c, s) && s.loop.Counted?
    ensures Conserved(c, Step(c, s, Store))
  {
    var t := Step(c, s, Store);
    var now, before := s.accepted[..s.taken], s.accepted[..s.taken - 1];
    assert DoneEvents(t) == s.taken && DoneEvents(s) == s.taken - 1 && CountedEvents(t) == CountedEvents(s);
    assert now[..s.taken - 1] == before && now[s.taken - 1] == s.loop.event;
    assert Marshalled(now) == Marshalled(before) + if s.loop.event.marshals then [s.loop.event.outcome] else [];
    RingBuffer.LatestOfLatest(s.stored, s.loop.event.outcome, c.size);
  }

  /** Nothing that is accounted for has moved between `s` and `t`. */
  ghost predicate SameBooks(s: State, t: State) {
    && t.queue == s.queue && t.accepted == s.accepted && t.taken == s.taken && t.counters == s.counters
    && t.stored == s.stored && t.failures == s.failures && t.ring == s.ring
    && (t.loop == s.loop || (!(s.loop.Taken? || s.loop.Counted?) && !(t.loop.Taken? || t.loop.Counted?)))
  }

  lemma SameBooksConserve(c: Config, s: State, t: State)
    requires Conserved(c, s) && SameBooks(s, t)
    requires !c.interval && !t.writer.Waiting? ==> t.loop.Reporting?
    ensures Conserved(c, t)
  {
    assert CountedEvents(t) == CountedEvents(s) && DoneEvents(t) == DoneEvents(s);
  }

  lemma WriteKeepsBooks(c: Config, s: State)
    requires !c.interval && !s.writer.Waiting? ==> s.loop.Reporting?
    ensures SameBooks(s, Write(c, s))
    ensures !c.interval && !Write(c, s).writer.Waiting? ==> Write(c, s).loop.Reporting?
  {
  }

  lemma WriterConserves(c: Config, s: State, l: Label)
    requires Conserved(c, s) && (l.Begin? || l.Advance? || l.StopWriter?)
    ensures Conserved(c, Step(c, s, l))
  {
    if l.Advance? {
      WriteKeepsBooks(c, s);
    }
    SameBooksConserve(c, s, Step(c, s, l));
  }

  lemma CancelConserves(c: Config, s: State, l: Label)
    requires Conserved(c, s) && (l.Cancel? || l.StopLoop?)
    ensures Conserved(c, Step(c, s, l))
  {
    SameBooksConserve(c, s, Step(c, s, l));
  }

  lemma StepConserves(c: Config, s: State, l: Label)
    requires Conserved(c, s)
    ensures Conserved(c, Step(c, s, l))
  {
    match l
    case Push(ev) => PushConserves(c, s, ev);
    case Receive => if s.loop.Idle? && s.queue != [] { ReceiveConserves(c, s); }
    case Count => if s.loop.Taken? { CountConserves(c, s); }
    case Store => if s.loop.Counted? { StoreConserves(c, s); }
    case Cancel => CancelConserves(c, s, l);
    case StopLoop => CancelConserves(c, s, l);
    case _ => WriterConserves(c, s, l);
  }

  /** In every run, also after a cancellation, each accepted event is queued, in the
      loop's hands, stored or failed. */
  lemma {:induction false} RunConserves(c: Config, ls: seq<Label>)
    ensures Conserved(c, Run(c, ls))
  {
    if ls == [] {
      StartConserved(c);
    } else {
      RunConserves(c, ls[..|ls| - 1]);
      StepConserves(c, Run(c, ls[..|ls| - 1]), ls[|ls| - 1]);
    }
  }

  /** Each push call is accepted or dropped. */
  lemma {:induction false} CallsAddUp(c: Config, ls: seq<Label>)
    ensures PushCalls(ls) == |Run(c, ls).accepted| + Run(c, ls).dropped
  {
    if ls == [] {
    } else {
      CallsAddUp(c, ls[..|ls| - 1]);
    }
  }

  lemma {:induction false} OutcomesAddUp(evs: seq<Event>)
    ensures WithOutcome(Passed, evs) + WithOutcome(Failed, evs) + WithOutcome(Errored, evs) == |evs|
  {
    if evs == [] {
    } else {
      OutcomesAddUp(evs[..|evs| - 1]);
    }
  }

  /** The balance of every run: push calls are dropped, queued or taken; what is taken
      is counted under one outcome or just being taken; what is counted was stored,
      failed, or is about to be stored. */
  lemma Balance(c: Config, ls: seq<Label>)
    ensures var s := Run(c, ls);
      && PushCalls(ls) == s.dropped + |s.queue| + s.taken && |s.queue| <= CAPACITY
      && s.taken == s.counters.Total() + (if s.loop.Taken? then 1 else 0)
      && s.counters.Total() == |s.stored| + s.failures + (if s.loop.Counted? then 1 else 0)
  {
    RunConserves(c, ls);
    CallsAddUp(c, ls);
    var s := Run(c, ls);
    OutcomesAddUp(s.accepted[..CountedEvents(s)]);
    assert s.counters.Of(Passed) + s.counters.Of(Failed) + s.counters.Of(Errored) == s.counters.Total();
  }

  // ----------------------------------------------------------- consistency

  function Number(o: Outcome, rs: seq<Outcome>): nat { multiset(rs)[o] }

  /** No outcome has more results than the counters say. */
  ghost predicate Covers(counters: Counters, rs: seq<Outcome>) {
    forall o: Outcome :: Number(o, rs) <= counters.Of(o)
  }

  ghost predicate Consistent(r: Report) { Covers(r.summary, r.results) }

  lemma LatestHasNoMore(log: seq<Outcome>, size: nat, o: Outcome)
    ensures Number(o, RingBuffer.Latest(log, size)) <= Number(o, log)
  {
    if |log| > size {
      assert log == log[..|log| - size] + RingBuffer.Latest(log, size);
    }
  }

  /** What a half-written report has read is still covered by the counters; in serial
      mode nothing moves while a report is written. */
  ghost predicate WriterOk(c: Config, s: State) {
    match s.writer
       case Waiting => true
       case Exited => true
       case Updating => true
       case Updating1(rs) => Covers(s.counters, rs)
       case Updating2(rs, e) => Covers(s.counters, rs) && Number(Errored, rs) <= e <= s.counters.error
       case Updating3(rs, e, p) =>
         && Covers(s.counters, rs)
         && Number(Errored, rs) <= e <= s.counters.error && Number(Passed, rs) <= p <= s.counters.pass
       case Creating => true
       case Creating1(e) => e <= s.counters.error && (!c.interval ==> e == s.counters.error)
       case Creating2(e, p) =>
         && e <= s.counters.error && p <= s.counters.pass
         && (!c.interval ==> e == s.counters.error && p == s.counters.pass)
       case Creating3(e, p, f) =>
         && e <= s.counters.error && p <= s.counters.pass && f <= s.counters.fail
         && (!c.interval ==> e == s.counters.error && p == s.counters.pass && f == s.counters.fail)
  }

  ghost predicate ReportsOk(c: Config, s: State) {
    forall r :: r in s.reports ==> ReportOk(c, r)
  }

  ghost predicate Inv(c: Config, s: State) {
    Conserved(c, s) && WriterOk(c, s) && ReportsOk(c, s)
  }

  lemma {:induction false} MarshalledAreCounted(evs: seq<Event>, n: nat, o: Outcome)
    requires n <= |evs|
    ensures Number(o, Marshalled(evs[..n])) <= WithOutcome(o, evs)
  {
    if evs == [] {
    } else {
      var init := evs[..|evs| - 1];
      if n < |evs| {
        assert init[..n] == evs[..n];
        MarshalledAreCounted(init, n, o);
      } else {
        assert evs[..n] == evs && init[..n - 1] == init;
        MarshalledAreCounted(init, n - 1, o);
      }
    }
  }

  /** Counters rise before the ring is written, so they always cover it. */
  lemma RingCovered(c: Config, s: State)
    requires Conserved(c, s)
    ensures Covers(s.counters, s.ring)
  {
    var counted := s.accepted[..CountedEvents(s)];
    assert counted[..DoneEvents(s)] == s.accepted[..DoneEvents(s)];
    forall o: Outcome ensures Number(o, s.ring) <= s.counters.Of(o) {
      LatestHasNoMore(s.stored, c.size, o);
      MarshalledAreCounted(counted, DoneEvents(s), o);
    }
  }

  lemma CountersRise(c: Config, s: State, l: Label)
    ensures forall o: Outcome :: s.counters.Of(o) <= Step(c, s, l).counters.Of(o)
  {
  }

  lemma RiseKeepsWriter(c: Config, s: State, t: State)
    requires WriterOk(c, s) && t.writer == s.writer
    requires forall o: Outcome :: s.counters.Of(o) <= t.counters.Of(o)
    requires !c.interval && !s.writer.Waiting? ==> t.counters == s.counters
    ensures WriterOk(c, t)
  {
    assert s.counters.pass == s.counters.Of(Passed) <= t.counters.Of(Passed) == t.counters.pass;
    assert s.counters.fail == s.counters.Of(Failed) <= t.counters.Of(Failed) == t.counters.fail;
    assert s.counters.error == s.counters.Of(Errored) <= t.counters.Of(Errored) == t.counters.error;
  }

  lemma LoopStepKeepsWriter(c: Config, s: State, l: Label)
    requires WriterOk(c, s) && !l.Advance? && !l.Begin? && !l.StopWriter?
    requires !c.interval && !s.writer.Waiting? ==> s.loop.Reporting?
    ensures WriterOk(c, Step(c, s, l))
  {
    CountersRise(c, s, l);
    RiseKeepsWriter(c, s, Step(c, s, l));
  }

  /** A published report is covered by the counters of its moment, and by its own
      summary unless it was created in interval mode while the counters moved. */
  ghost predicate ReportOk(c: Config, r: Report) {
    && Covers(r.now, r.results)
    && (forall o: Outcome :: r.summary.Of(o) <= r.now.Of(o))
    && (!r.created || !c.interval || r.summary == r.now ==> Consistent(r))
  }

  lemma UpdatedReportOk(c: Config, s: State)
    requires WriterOk(c, s) && s.writer.Updating3?
    ensures ReportOk(c, Report(false, s.writer.results, Counters(s.writer.p, s.counters.fail, s.writer.e), s.counters))
  {
    var r := Report(false, s.writer.results, Counters(s.writer.p, s.counters.fail, s.writer.e), s.counters);
    forall o: Outcome ensures Number(o, r.results) <= r.summary.Of(o) <= r.now.Of(o) {
      assert Number(o, r.results) <= s.counters.Of(o);
    }
  }

  lemma CreatedReportOk(c: Config, s: State)
    requires WriterOk(c, s) && s.writer.Creating3? && Covers(s.counters, s.ring)
    ensures ReportOk(c, Report(true, s.ring, Counters(s.writer.p, s.writer.f, s.writer.e), s.counters))
  {
    var r := Report(true, s.ring, Counters(s.writer.p, s.writer.f, s.writer.e), s.counters);
    forall o: Outcome ensures r.summary.Of(o) <= r.now.Of(o) {}
    assert !c.interval ==> r.summary == r.now;
  }

  lemma ReportsStep(c: Config, s: State)
    requires Inv(c, s)
    ensures ReportsOk(c, Write(c, s))
  {
    RingCovered(c, s);
    if s.writer.Updating3? {
      UpdatedReportOk(c, s);
    } else if s.writer.Creating3? {
      CreatedReportOk(c, s);
    }
  }

  lemma UpdateStep(c: Config, s: State)
    requires WriterOk(c, s) && Covers(s.counters, s.ring)
    requires s.writer.Updating? || s.writer.Updating1? || s.writer.Updating2?
    ensures WriterOk(c, Write(c, s))
  {
    if s.writer.Updating1? {
      assert Number(Errored, s.writer.results) <= s.counters.Of(Errored);
    } else if s.writer.Updating2? {
      assert Number(Passed, s.writer.results) <= s.counters.Of(Passed);
    }
  }

  lemma CreateStep(c: Config, s: State)
    requires WriterOk(c, s) && (s.writer.Creating? || s.writer.Creating1? || s.writer.Creating2?)
    ensures WriterOk(c, Write(c, s))
  {
  }

  lemma WriterStep(c: Config, s: State)
    requires WriterOk(c, s) && Covers(s.counters, s.ring)
    ensures WriterOk(c, Write(c, s))
  {
    match s.writer
    case Waiting =>
    case Exited =>
    case Updating => UpdateStep(c, s);
    case Updating1(_) => UpdateStep(c, s);
    case Updating2(_, _) => UpdateStep(c, s);
    case Updating3(_, _, _) =>
    case Creating => CreateStep(c, s);
    case Creating1(_) => CreateStep(c, s);
    case Creating2(_, _) => CreateStep(c, s);
    case Creating3(_, _, _) =>
  }

  lemma OthersKeepReports(c: Config, s: State, l: Label)
    requires !l.Advance?
    ensures Step(c, s, l).reports == s.reports
    ensures l.Begin? || l.StopWriter? ==> WriterOk(c, s) ==> WriterOk(c, Step(c, s, l))
  {
  }

  lemma StepKeeps(c: Config, s: State, l: Label)
    requires Inv(c, s)
    ensures Inv(c, Step(c, s, l))
  {
    StepConserves(c, s, l);
    if l.Advance? {
      RingCovered(c, s);
      WriterStep(c, s);
      ReportsStep(c, s);
    } else {
      OthersKeepReports(c, s, l);
      if !l.Begin? && !l.StopWriter? {
        LoopStepKeepsWriter(c, s, l);
      }
    }
  }

  lemma {:induction false} RunKeeps(c: Config, ls: seq<Label>)
    ensures Inv(c, Run(c, ls))
  {
    if ls == [] {
    } else {
      RunKeeps(c, ls[..|ls| - 1]);
      StepKeeps(c, Run(c, ls[..|ls| - 1]), ls[|ls| - 1]);
    }
  }

  /** Every report that some run writes by the given path is consistent. */
  ghost predicate PathConsistent(c: Config, created: bool) {
    forall ls: seq<Label>, r :: r in Run(c, ls).reports && r.created == created ==> Consistent(r)
  }

  lemma Extend(c: Config, ls: seq<Label>, l: Label)
    ensures Run(c, ls + [l]) == Step(c, Run(c, ls), l)
  {
    assert (ls + [l])[..|ls|] == ls;
  }

  /** One event slips in between the counter reads and the ring read of a creation. */
  lemma CreationCanOvertake(c: Config) returns (ls: seq<Label>, r: Report)
    requires c.interval && c.size > 0
    ensures r in Run(c, ls).reports && r.created && !Consistent(r)
  {
    var l0, s0 := [Begin(NotFound)], Start();
    assert [] + l0 == l0;
    Extend(c, [], Begin(NotFound));
    Extend(c, l0, Advance);
    Extend(c, l0 + [Advance], Advance);
    Extend(c, l0 + [Advance] + [Advance], Advance);
    ls := l0 + [Advance] + [Advance] + [Advance];
    assert Run(c, ls) == s0.(writer := Creating3(0, 0, 0));
    r := OvertakenFrom(c, ls);
    ls := ls + [Push(Event(Passed, true))] + [Receive] + [Count] + [Store] + [Advance];
  }

  lemma CountedMeanwhile(c: Config, ls: seq<Label>)
    requires Run(c, ls) == Start().(writer := Creating3(0, 0, 0))
    ensures var s := Run(c, ls + [Push(Event(Passed, true))] + [Receive] + [Count]);
      && s.loop == Counted(Event(Passed, true)) && s.counters == Counters(1, 0, 0)
      && s.ring == [] && s.writer == Creating3(0, 0, 0) && s.reports == []
  {
    var l1 := ls + [Push(Event(Passed, true))];
    Extend(c, ls, Push(Event(Passed, true)));
    assert Run(c, l1).queue == [Event(Passed, true)];
    Extend(c, l1, Receive);
    Extend(c, l1 + [Receive], Count);
  }

  lemma OvertakenFrom(c: Config, ls: seq<Label>) returns (r: Report)
    requires c.interval && c.size > 0 && Run(c, ls) == Start().(writer := Creating3(0, 0, 0))
    ensures r in Run(c, ls + [Push(Event(Passed, true))] + [Receive] + [Count] + [Store] + [Advance]).reports
    ensures r.created && !Consistent(r)
  {
    CountedMeanwhile(c, ls);
    var l3 := ls + [Push(Event(Passed, true))] + [Receive] + [Count];
    Extend(c, l3, Store);
    assert Run(c, l3 + [Store]).ring == [Passed];
    Extend(c, l3 + [Store], Advance);
    r := Report(true, [Passed], Counters(0, 0, 0), Counters(1, 0, 0));
    assert Number(Passed, r.results) == 1 > r.summary.Of(Passed);
  }

  /** No interleaving can make a report list more results of an outcome than its summary
      counts, except a report created by the flush worker; and those can. */
  lemma ConsistentExactly(c: Config, created: bool)
    requires c.size > 0
    ensures PathConsistent(c, created) <==> !(created && c.interval)
  {
    if created && c.interval {
      var ls, r := CreationCanOvertake(c);
    } else {
      forall ls: seq<Label>, r | r in Run(c, ls).reports && r.created == created ensures Consistent(r) {
        RunKeeps(c, ls);
      }
    }
  }

  // ------------------------------------------------------------ what is counted

  /** How often an outcome was counted is how often it occurs. */
  lemma {:induction false} CountsOccurrences(o: Outcome, evs: seq<Event>)
    ensures WithOutcome(o, evs) == multiset(seq(|evs|, i requires 0 <= i < |evs| => evs[i].outcome))[o]
  {
    if evs == [] {
    } else {
      var init, ev := evs[..|evs| - 1], evs[|evs| - 1];
      CountsOccurrences(o, init);
      assert seq(|evs|, i requires 0 <= i < |evs| => evs[i].outcome) ==
             seq(|init|, i requires 0 <= i < |init| => init[i].outcome) + [ev.outcome];
    }
  }

  /** Each counter holds the number of counted events with its own outcome. */
  lemma CountersTell(c: Config, ls: seq<Label>)
    ensures var s := Run(c, ls);
      && 0 <= CountedEvents(s) <= |s.accepted|
      && s.counters.pass == WithOutcome(Passed, s.accepted[..CountedEvents(s)])
      && s.counters.fail == WithOutcome(Failed, s.accepted[..CountedEvents(s)])
      && s.counters.error == WithOutcome(Errored, s.accepted[..CountedEvents(s)])
  {
    RunConserves(c, ls);
    var s := Run(c, ls);
    assert s.counters.Of(Passed) == s.counters.pass && s.counters.Of(Failed) == s.counters.fail;
    assert s.counters.Of(Errored) == s.counters.error;
  }

  /** What marshals is kept event by event, in order. */
  lemma {:induction false} MarshalledConcat(a: seq<Event>, b: seq<Event>)
    ensures Marshalled(a + b) == Marshalled(a) + Marshalled(b)
  {
    if b == [] {
      assert a + b == a;
    } else {
      assert (a + b)[..|a + b| - 1] == a + b[..|b| - 1];
      MarshalledConcat(a, b[..|b| - 1]);
    }
  }

  lemma MarshalledOne(ev: Event)
    ensures Marshalled([ev]) == if ev.marshals then [ev.outcome] else []
  {
    assert [ev][..0] == [];
  }

  /** The loop and the flush worker end after a cancellation only, and the worker exists in
      interval mode only. */
  lemma {:induction false} EndsWhenCancelled(c: Config, ls: seq<Label>)
    ensures var s := Run(c, ls);
      && (s.cancelled <==> Cancel in ls)
      && (s.loop.Stopped? || s.writer.Exited? ==> Cancel in ls)
      && (s.writer.Exited? ==> c.interval)
  {
    if ls == [] {
    } else {
      var init, l := ls[..|ls| - 1], ls[|ls| - 1];
      EndsWhenCancelled(c, init);
      assert ls == init + [l];
      EndStep(c, Run(c, init), l);
    }
  }

  lemma EndStep(c: Config, s: State, l: Label)
    ensures var t := Step(c, s, l);
      && (t.cancelled <==> s.cancelled || l.Cancel?)
      && (t.loop.Stopped? && !s.loop.Stopped? ==> s.cancelled && s.loop.Idle?)
      && (t.writer.Exited? && !s.writer.Exited? ==> s.cancelled && c.interval)
  {
  }

  // ---------------------------------------------------- each result is reported

  /** The step is a fetch that fails, of a report that was due. */
  predicate FetchFails(c: Config, s: State, l: Label) {
    l == Begin(GetFailed) && s.writer.Waiting? && (c.interval || s.loop.Reporting?)
  }

  /** The step ends an attempt to write a report. */
  predicate EndsAttempt(c: Config, s: State, l: Label) {
    FetchFails(c, s, l) || (!s.writer.Waiting? && Step(c, s, l).writer.Waiting?)
  }

  function Attempts(c: Config, ls: seq<Label>): nat {
    if ls == [] then 0 else
    var init := ls[..|ls| - 1];
    Attempts(c, init) + if EndsAttempt(c, Run(c, init), ls[|ls| - 1]) then 1 else 0
  }

  function FailedFetches(c: Config, ls: seq<Label>): nat {
    if ls == [] then 0 else
    var init := ls[..|ls| - 1];
    FailedFetches(c, init) + if FetchFails(c, Run(c, init), ls[|ls| - 1]) then 1 else 0
  }

  /** Every attempt whose fetch did not fail has written its report, in either mode. */
  lemma {:induction false} AttemptsWrite(c: Config, ls: seq<Label>)
    ensures Attempts(c, ls) == |Run(c, ls).reports| + FailedFetches(c, ls)
  {
    if ls == [] {
    } else {
      AttemptsWrite(c, ls[..|ls| - 1]);
      StepWrites(c, Run(c, ls[..|ls| - 1]), ls[|ls| - 1]);
    }
  }

  lemma StepWrites(c: Config, s: State, l: Label)
    ensures |Step(c, s, l).reports| ==
            |s.reports| + if EndsAttempt(c, s, l) && !FetchFails(c, s, l) then 1 else 0
  {
  }

  /** In serial mode there is one attempt for each stored result: all are over, but for the
      last one while the loop is at it, and only then does the loop take the next event. */
  lemma {:induction false} SerialAttempts(c: Config, ls: seq<Label>)
    requires !c.interval
    ensures var s := Run(c, ls);
      && |s.stored| == Attempts(c, ls) + (if s.loop.Reporting? then 1 else 0)
      && (Step(c, s, Receive).taken > s.taken ==> |s.stored| == Attempts(c, ls))
  {
    if ls == [] {
    } else {
      var init := ls[..|ls| - 1];
      SerialAttempts(c, init);
      RunConserves(c, init);
      SerialStep(c, Run(c, init), ls[|ls| - 1]);
    }
  }

  lemma SerialStep(c: Config, s: State, l: Label)
    requires !c.interval && (!s.writer.Waiting? ==> s.loop.Reporting?)
    ensures |Step(c, s, l).stored| - (if Step(c, s, l).loop.Reporting? then 1 else 0) ==
            |s.stored| - (if s.loop.Reporting? then 1 else 0) + (if EndsAttempt(c, s, l) then 1 else 0)
  {
  }

  /** What a half-written report of serial mode has read is what there still is. */
  ghost predicate Unmoved(s: State) {
    match s.writer
    case Updating1(rs) => rs == s.ring
    case Updating2(rs, e) => rs == s.ring && e == s.counters.error
    case Updating3(rs, e, p) => rs == s.ring && e == s.counters.error && p == s.counters.pass
    case Creating1(e) => e == s.counters.error
    case Creating2(e, p) => e == s.counters.error && p == s.counters.pass
    case Creating3(e, p, f) => Counters(p, f, e) == s.counters
    case _ => true
  }

  /** The report lists the latest results up to number `i`, with the counters of one moment. */
  ghost predicate ReportsUpTo(c: Config, stored: seq<Outcome>, i: nat, r: Report) {
    i < |stored| && r.results == RingBuffer.Latest(stored[..i + 1], c.size) && r.summary == r.now
  }

  /** The reports of serial mode, where no fetch failed, are those of the stored results,
      one by one. */
  ghost predicate OneByOne(c: Config, s: State) {
    forall i :: 0 <= i < |s.reports| ==> ReportsUpTo(c, s.stored, i, s.reports[i])
  }

  lemma UnmovedStep(c: Config, s: State, l: Label)
    requires !c.interval && (!s.writer.Waiting? ==> s.loop.Reporting?) && Unmoved(s)
    ensures Unmoved(Step(c, s, l))
  {
  }

  lemma OneByOneStep(c: Config, s: State, l: Label)
    requires !c.interval && OneByOne(c, s) && Unmoved(s) && Conserved(c, s) && l != Begin(GetFailed)
    requires |s.stored| == |s.reports| + if s.loop.Reporting? then 1 else 0
    ensures OneByOne(c, Step(c, s, l))
  {
    var t := Step(c, s, l);
    KeepsReports(c, s, l);
    forall i | 0 <= i < |t.reports| ensures ReportsUpTo(c, t.stored, i, t.reports[i]) {
      if i < |s.reports| {
        assert ReportsUpTo(c, s.stored, i, s.reports[i]) && t.stored[..i + 1] == s.stored[..i + 1];
      } else {
        assert s.stored[..|s.stored|] == s.stored;
      }
    }
  }

  /** A step adds results and reports, and a new report lists what there is. */
  lemma KeepsReports(c: Config, s: State, l: Label)
    requires !c.interval && Unmoved(s) && (!s.writer.Waiting? ==> s.loop.Reporting?)
    ensures var t := Step(c, s, l);
      && s.stored <= t.stored && s.reports <= t.reports && |t.reports| <= |s.reports| + 1
      && (|t.reports| > |s.reports| ==>
            && t.stored == s.stored && s.loop.Reporting?
            && t.reports[|s.reports|].results == s.ring
            && t.reports[|s.reports|].summary == t.reports[|s.reports|].now)
  {
  }

  /** In serial mode, when no fetch fails, the stored results are reported one by one: the
      report number `i` lists the latest results up to number `i`, with the counters of one
      moment; and only the last one can be still to come. */
  lemma {:induction false} SerialReportsExactly(c: Config, ls: seq<Label>)
    requires !c.interval && forall i :: 0 <= i < |ls| ==> ls[i] != Begin(GetFailed)
    ensures var s := Run(c, ls);
      && |s.stored| == |s.reports| + (if s.loop.Reporting? then 1 else 0)
      && OneByOne(c, s) && Unmoved(s)
  {
    if ls == [] {
    } else {
      var init, l := ls[..|ls| - 1], ls[|ls| - 1];
      SerialReportsExactly(c, init);
      RunConserves(c, init);
      OneByOneStep(c, Run(c, init), l);
      UnmovedStep(c, Run(c, init), l);
      SerialStep(c, Run(c, init), l);
      StepWrites(c, Run(c, init), l);
    }
  }

  // ---------------------------------------------------------- the subscriber

  /** One uninterrupted turn of the event loop over a waiting event. */
  function Processed(c: Config, s: State): State {
    Step(c, Step(c, Step(c, s, Receive), Count), Store)
  }

  /** One uninterrupted attempt to write a report. */
  function Attempted(c: Config, s: State, got: Got): State {
    var begun := Step(c, s, Begin(got));
    if got == GetFailed then begun
    else Step(c, Step(c, Step(c, Step(c, begun, Advance), Advance), Advance), Advance)
  }

  /** Written without interruption, either path publishes the ring and the counters of
      one moment. */
  lemma AttemptedResult(c: Config, s: State, got: Got)
    requires s.writer.Waiting? && (c.interval || s.loop.Reporting?)
    ensures Attempted(c, s, got) ==
            if got == GetFailed then Finished(c, s)
            else Publish(c, s, Report(got == NotFound, s.ring, s.counters, s.counters))
  {
    var s0 := Step(c, s, Begin(got));
    var s1 := Step(c, s0, Advance);
    var s2 := Step(c, s1, Advance);
    var s3 := Step(c, s2, Advance);
    if got == Found {
      assert s1 == s.(writer := Updating1(s.ring));
      assert s2 == s.(writer := Updating2(s.ring, s.counters.error));
      assert s3 == s.(writer := Updating3(s.ring, s.counters.error, s.counters.pass));
    } else if got == NotFound {
      assert s1 == s.(writer := Creating1(s.counters.error));
      assert s2 == s.(writer := Creating2(s.counters.error, s.counters.pass));
      assert s3 == s.(writer := Creating3(s.counters.error, s.counters.pass, s.counters.fail));
    }
  }

  /** The subscriber object. Between other goroutines its methods run as the steps above;
      run without interruption they are the composition of their steps. */
  class Subscriber {
    const config: Config
    const results: RingBuffer.RingBuffer<Outcome>
    var eventChan: seq<Event>
    var allowed: nat
    var denied: nat
    var errored: nat
    /** The machine state that the fields and the run so far amount to. */
    ghost var state: State

    ghost predicate Valid()
      reads this, results, results.data
    {
      && results.Valid() && results.size == config.size
      && state.queue == eventChan
      && state.counters == Counters(allowed, denied, errored)
      && state.stored == results.log && state.ring == RingBuffer.Latest(results.log, config.size)
    }

    constructor (config: Config)
      requires config.size > 0
      ensures Valid() && this.config == config && state == Start()
    {
      this.config := config;
      results := new RingBuffer.RingBuffer<Outcome>(config.size);
      eventChan, allowed, denied, errored, state := [], 0, 0, 0, Start();
    }

    /** Queue the event, or drop it when the queue is full. */
    method Push(ev: Event)
      requires Valid()
      modifies this`eventChan, this`state
      ensures Valid() && state == Step(config, old(state), Label.Push(ev))
      ensures eventChan == if |old(eventChan)| < 50 then old(eventChan) + [ev] else old(eventChan)
    {
      if |eventChan| < CAPACITY {
        eventChan := eventChan + [ev];
      }
      state := Step(config, state, Label.Push(ev));
    }

    /** Count the outcome first, then try to marshal the request. */
    method NewReportResult(ev: Event) returns (marshalled: bool)
      requires Valid() && state.loop == Taken(ev)
      modifies this`allowed, this`denied, this`errored, this`state
      ensures Valid() && state == Step(config, old(state), Count)
      ensures allowed == old(allowed) + if ev.outcome == Passed then 1 else 0
      ensures denied == old(denied) + if ev.outcome == Failed then 1 else 0
      ensures errored == old(errored) + if ev.outcome == Errored then 1 else 0
      ensures marshalled == ev.marshals
    {
      match ev.outcome {
        case Passed => allowed := allowed + 1;
        case Failed => denied := denied + 1;
        case Errored => errored := errored + 1;
      }
      state := Step(config, state, Count);
      marshalled := ev.marshals;
    }

    /** One turn of the event loop, up to the point where a report may be written. */
    method ProcessEvent()
      requires Valid() && state.loop == Idle && eventChan != []
      modifies this, results, results.data
      ensures Valid() && state == Processed(config, old(state))
      ensures state.loop == if !config.interval && old(eventChan[0]).marshals then Reporting else Idle
      ensures eventChan == old(eventChan)[1..]
      ensures results.log == old(results.log) + if old(eventChan[0]).marshals then [old(eventChan[0]).outcome] else []
    {
      var ev := eventChan[0];
      eventChan := eventChan[1..];
      state := Step(config, state, Receive);
      var marshalled := NewReportResult(ev);
      if marshalled {
        RingBuffer.LatestOfLatest(results.log, ev.outcome, config.size);
        results.Push(ev.outcome);
      }
      state := Step(config, state, Store);
    }

    /** Write a report: create one from the counters and then the ring, or update the
        existing one from the ring and then the counters. */
    method PushReport(got: Got) returns (written: Option<Report>)
      requires Valid() && state.writer == Waiting && (config.interval || state.loop == Reporting)
      modifies this`state
      ensures Valid() && state == Attempted(config, old(state), got)
      ensures state.reports == old(state.reports) + if written.Some? then [written.value] else []
      ensures written.None? <==> got == GetFailed
      ensures written.Some? ==>
        && (written.value.created <==> got == NotFound)
        && written.value.results == RingBuffer.Latest(results.log, config.size)
        && written.value.summary == Counters(allowed, denied, errored)
    {
      AttemptedResult(config, state, got);
      state := Attempted(config, state, got);
      match got {
        case GetFailed =>
          written := None;
        case NotFound =>
          var e, p, f := errored, allowed, denied;
          var values := results.Values();
          written := Some(Report(true, values[..], Counters(p, f, e), Counters(allowed, denied, errored)));
        case Found =>
          var values := results.Values();
          var e, p, f := errored, allowed, denied;
          written := Some(Report(false, values[..], Counters(p, f, e), Counters(allowed, denied, errored)));
      }
    }
  }
}
