/** The life of all processes that generate packet names on one system: they start, generate
    names, wait for the clock and exit, one at a time. */
module PacketProtocol {
  import opened PacketNames
  import opened Wrappers

  /** What a system's primary address determines. */
  datatype System = System(offset: nat, start: nat)

  /** The static variables of the generator. `refTime == 0` marks them as not initialised. */
  datatype Process = Process(counter: nat, refCounter: nat, refTime: nat,
                             lastUsed: nat, mayRunAhead: bool)

  const NO_COUNTER: nat := 0x100
  const FRESH := Process(NO_COUNTER, NO_COUNTER, 0, 0, false)

  /** The first call reads the clock and tries to register the exit handler. */
  function Initialised(p: Process, now: nat, atexitWorks: bool): Process {
    if p.refTime == 0 then p.(refTime := now, mayRunAhead := atexitWorks, lastUsed := now) else p
  }

  /** All counters of the current base time are used up, or were made for another address. */
  predicate BaseExhausted(start: nat, p: Process) {
    p.counter == start || start != p.refCounter
  }

  function Rebased(start: nat, p: Process): Process {
    if BaseExhausted(start, p) then
      p.(counter := start, refCounter := start, refTime := p.refTime + 1, lastUsed := p.refTime + 1)
    else p
  }

  /** The variables after a call, and what the call emitted. */
  function Called(start: nat, p: Process, now: nat, atexitWorks: bool): (Process, Emission) {
    var q := Rebased(start, Initialised(p, now, atexitWorks));
    (q.(counter := (q.counter + 1) % 36), Emission(q.refTime, q.counter))
  }

  /** Without an exit handler, a call that moves the base time waits for the clock to reach it. */
  predicate CallWaits(start: nat, p: Process, now: nat, atexitWorks: bool) {
    var q := Initialised(p, now, atexitWorks);
    BaseExhausted(start, q) && !q.mayRunAhead
  }

  /** The exit handler is registered, and lets the process end only at `lastUsed`. */
  predicate MayExit(p: Process, now: nat) {
    p.refTime != 0 && p.mayRunAhead ==> p.lastUsed <= now
  }

  /** The clock, the running process if there is one, and everything emitted so far. */
  datatype World = World(clock: nat, process: Option<Process>, emitted: seq<Emission>)

  predicate Init(w: World) {
    w.process == None && w.emitted == []
  }

  predicate Tick(w: World, w': World) {
    w' == w.(clock := w'.clock) && w.clock <= w'.clock
  }

  predicate Start(w: World, w': World) {
    w.process == None && w' == w.(process := Some(FRESH))
  }

  predicate Call(sys: System, w: World, w': World, atexitWorks: bool) {
    && w.process.Some?
    && var (p, e) := Called(sys.start, w.process.value, w.clock, atexitWorks);
    && w.clock <= w'.clock
    && (CallWaits(sys.start, w.process.value, w.clock, atexitWorks) ==> e.base <= w'.clock)
    && w' == World(w'.clock, Some(p), w.emitted + [e])
  }

  predicate Exit(w: World, w': World) {
    && w.process.Some?
    && MayExit(w.process.value, w.clock)
    && w' == w.(process := None)
  }

  predicate Next(sys: System, w: World, w': World) {
    || Tick(w, w')
    || Start(w, w')
    || Call(sys, w, w', true)
    || Call(sys, w, w', false)
    || Exit(w, w')
  }

  /** A run of the system: any interleaving of the five kinds of steps. */
  predicate Run(sys: System, ws: seq<World>) {
    && ws != []
    && Init(ws[0])
    && forall i :: 0 < i < |ws| ==> Next(sys, ws[i - 1], ws[i])
  }

  /** Emissions are totally ordered by base time and by distance from the start counter. */
  function Serial(start: nat, e: Emission): int {
    36 * e.base + (e.counter - start) % 36
  }

  lemma SerialOrder(start: nat, e: Emission, f: Emission)
    requires e.counter < 36 && f.counter < 36 && Serial(start, e) < Serial(start, f)
    ensures e.base <= f.base && (e.base == f.base ==> e.counter != f.counter)
  {}

  predicate Increasing(start: nat, es: seq<Emission>) {
    forall i, j :: 0 <= i < j < |es| ==> Serial(start, es[i]) < Serial(start, es[j])
  }

  /** The serial of the next emission is at least this. */
  function NextSerial(start: nat, w: World): int {
    match w.process
    case Some(p) =>
      if p.refTime == 0 then 36 * (w.clock + 1)
      else if p.counter == start then 36 * (p.refTime + 1)
      else Serial(start, Emission(p.refTime, p.counter))
    case None => 36 * (w.clock + 1)
  }

  /** No base time emitted so far is later than this: the one in use, or else the clock. */
  function LatestBase(w: World): nat {
    if w.process.Some? && w.process.value.refTime != 0 then w.process.value.refTime else w.clock
  }

  predicate ProcessOk(start: nat, p: Process, clock: nat) {
    if p.refTime == 0 then p == FRESH
    else
      && p.counter < 36
      && p.refCounter == start
      && p.lastUsed == p.refTime
      && (!p.mayRunAhead ==> p.refTime <= clock)
  }

  predicate Invariant(sys: System, begin: nat, w: World) {
    && sys.start < 36
    && begin <= w.clock
    && (w.process.Some? ==> ProcessOk(sys.start, w.process.value, w.clock)
                            && (w.process.value.refTime != 0 ==> begin < w.process.value.refTime))
    && (forall i :: 0 <= i < |w.emitted| ==>
          && w.emitted[i].counter < 36
          && begin < w.emitted[i].base
          && Serial(sys.start, w.emitted[i]) < NextSerial(sys.start, w))
    && Increasing(sys.start, w.emitted)
  }

  lemma CallKeepsInvariant(sys: System, begin: nat, w: World, w': World, atexitWorks: bool)
    requires Invariant(sys, begin, w) && Call(sys, w, w', atexitWorks)
    ensures Invariant(sys, begin, w')
  {
    var p := w.process.value;
    var (p', e) := Called(sys.start, p, w.clock, atexitWorks);
    CallSerial(sys.start, p, w.clock, atexitWorks);
    assert w'.emitted == w.emitted + [e];
    assert NextSerial(sys.start, w) <= Serial(sys.start, e) < NextSerial(sys.start, w');
  }

  /** What one call emits lies between the bound before and the bound after it. */
  lemma CallSerial(start: nat, p: Process, now: nat, atexitWorks: bool)
    requires start < 36 && ProcessOk(start, p, now)
    ensures var (p', e) := Called(start, p, now, atexitWorks);
            && e.counter < 36
            && p'.refTime == e.base > 0
            && (p.refTime == 0 ==> e == Emission(now + 1, start))
            && (p.refTime != 0 ==> p.refTime <= e.base)
            && NextSerial(start, World(now, Some(p), [])) <= Serial(start, e)
            && Serial(start, e) < NextSerial(start, World(now, Some(p'), []))
  {
    CounterMoves(start, Called(start, p, now, atexitWorks).1.counter);
  }

  lemma CounterMoves(start: nat, counter: nat)
    requires start < 36 && counter < 36
    ensures var next := (counter + 1) % 36;
            if next == start then (counter - start) % 36 == 35 else (next - start) % 36 == (counter - start) % 36 + 1
  {}

  lemma NextKeepsInvariant(sys: System, begin: nat, w: World, w': World)
    requires Invariant(sys, begin, w) && Next(sys, w, w')
    ensures Invariant(sys, begin, w')
  {
    if Call(sys, w, w', true) {
      CallKeepsInvariant(sys, begin, w, w', true);
    } else if Call(sys, w, w', false) {
      CallKeepsInvariant(sys, begin, w, w', false);
    } else {
      assert w'.emitted == w.emitted;
      assert NextSerial(sys.start, w) <= NextSerial(sys.start, w');
    }
  }

  lemma {:induction false} RunKeepsInvariant(sys: System, ws: seq<World>)
    requires sys.start < 36 && Run(sys, ws)
    ensures Invariant(sys, ws[0].clock, ws[|ws| - 1])
  {
    if |ws| == 1 {
    } else {
      RunKeepsInvariant(sys, ws[..|ws| - 1]);
      NextKeepsInvariant(sys, ws[0].clock, ws[|ws| - 2], ws[|ws| - 1]);
    }
  }

  /** The run ends in this state. */
  predicate RunTo(sys: System, ws: seq<World>, w: World) {
    Run(sys, ws) && w == ws[|ws| - 1]
  }

  /** In every run, a name is repeated exactly when its counter comes up again after a positive
      multiple of 36^7 seconds of base time. */
  lemma NamesRepeatExactly(sys: System, ws: seq<World>, w: World, i: nat, j: nat)
    requires sys.start < 36 && RunTo(sys, ws, w)
    requires i < j < |w.emitted|
    ensures var e, f := w.emitted[i], w.emitted[j];
            && e.counter < 36 && f.counter < 36 && e.base <= f.base
            && (Stem(sys.offset, e) == Stem(sys.offset, f) <==>
                e.base < f.base && (f.base - e.base) % EPOCH_SPAN == 0 && e.counter == f.counter)
  {
    hide Stem, Serial;
    RunKeepsInvariant(sys, ws);
    SerialOrder(sys.start, w.emitted[i], w.emitted[j]);
    StemsEqual(sys.offset, w.emitted[j], sys.offset, w.emitted[i]);
  }

  lemma EmittedInSpan(sys: System, begin: nat, w: World, i: nat)
    requires Invariant(sys, begin, w) && i < |w.emitted|
    ensures begin < w.emitted[i].base <= LatestBase(w)
  {}

  /** The names of a run, in the order of the calls. */
  function Names(sys: System, es: seq<Emission>): (names: seq<string>)
    requires forall i :: 0 <= i < |es| ==> es[i].counter < 36
  {
    seq(|es|, i requires 0 <= i < |es| => Stem(sys.offset, es[i]))
  }

  predicate AllDistinct(names: seq<string>) {
    forall i, j :: 0 <= i < j < |names| ==> names[i] != names[j]
  }

  /** All base times lie less than so many seconds apart. */
  predicate BasesWithin(es: seq<Emission>, span: int) {
    forall i, j :: 0 <= i < j < |es| ==> -span < es[j].base - es[i].base < span
  }

  /** So all names are distinct as long as the base times lie less than 36^7 seconds apart. */
  lemma NamesUnique(sys: System, ws: seq<World>, w: World)
    requires sys.start < 36 && RunTo(sys, ws, w)
    requires BasesWithin(w.emitted, EPOCH_SPAN)
    ensures forall i :: 0 <= i < |w.emitted| ==> w.emitted[i].counter < 36
    ensures AllDistinct(Names(sys, w.emitted))
  {
    hide Stem, Serial;
    RunKeepsInvariant(sys, ws);
    var es := w.emitted;
    forall i, j | 0 <= i < j < |es|
      ensures Stem(sys.offset, es[i]) != Stem(sys.offset, es[j])
    {
      NamesRepeatExactly(sys, ws, w, i, j);
      if es[j].base != es[i].base {
        NotCongruent(es[j].base - es[i].base);
      }
    }
  }

  /** Base times follow the clock: it is enough that the last of them is at most 36^7 seconds behind
      the start of the run. */
  lemma NamesUniqueByClock(sys: System, ws: seq<World>, w: World)
    requires sys.start < 36 && RunTo(sys, ws, w)
    requires LatestBase(w) - ws[0].clock <= EPOCH_SPAN
    ensures forall i :: 0 <= i < |w.emitted| ==> w.emitted[i].counter < 36
    ensures AllDistinct(Names(sys, w.emitted))
  {
    hide Stem, Serial;
    RunKeepsInvariant(sys, ws);
    forall i | 0 <= i < |w.emitted|
      ensures ws[0].clock < w.emitted[i].base <= LatestBase(w)
    {
      EmittedInSpan(sys, ws[0].clock, w, i);
    }
    NamesUnique(sys, ws, w);
  }

  /** For the system of an address nothing else is needed. */
  lemma NamesOfAddressUnique(aka: Aka, ws: seq<World>, w: World)
    requires RunTo(System(Offset(aka), StartCounter(aka)), ws, w) && BasesWithin(w.emitted, EPOCH_SPAN)
    ensures forall i, j :: 0 <= i < j < |w.emitted| ==>
              && w.emitted[i].counter < 36 && w.emitted[j].counter < 36
              && Stem(Offset(aka), w.emitted[i]) != Stem(Offset(aka), w.emitted[j])
  {
    hide Stem, Offset, StartCounter, RunTo;
    var sys := System(Offset(aka), StartCounter(aka));
    NamesUnique(sys, ws, w);
    var names := Names(sys, w.emitted);
    assert forall i :: 0 <= i < |w.emitted| ==> names[i] == Stem(Offset(aka), w.emitted[i]);
  }

  /** When the address has changed since the last call, the next base time is begun, with the start
      counter of the new address. */
  lemma AddressChanges(start: nat, p: Process, now: nat, atexitWorks: bool)
    requires start < 36 && p.refTime != 0 && start != p.refCounter
    ensures var (q, e) := Called(start, p, now, atexitWorks);
            && e == Emission(p.refTime + 1, start) && q.refTime == q.lastUsed == p.refTime + 1
            && q.refCounter == start && q.counter == (start + 1) % 36 && q.mayRunAhead == p.mayRunAhead
  {}

  lemma FirstCall(start: nat, now: nat, atexitWorks: bool)
    requires start < 36
    ensures Called(start, FRESH, now, atexitWorks)
            == (Process((start + 1) % 36, start, now + 1, now + 1, atexitWorks), Emission(now + 1, start))
    ensures CallWaits(start, FRESH, now, atexitWorks) == !atexitWorks
  {}

  /** The bound is tight: two processes started 36^7 seconds apart emit the same name, so names
      are not unique over an unbounded epoch. */
  lemma NamesRepeatAfterEpoch(sys: System, t: nat) returns (ws: seq<World>, w: World)
    requires sys.start < 36
    ensures RunTo(sys, ws, w) && ws[0].clock == t
    ensures && w.clock == t + EPOCH_SPAN + 1
            && |w.emitted| == 2
            && w.emitted[0].counter < 36 && w.emitted[1].counter < 36
            && Stem(sys.offset, w.emitted[0]) == Stem(sys.offset, w.emitted[1])
  {
    hide Stem, Called;
    FirstCall(sys.start, t, true);
    FirstCall(sys.start, t + EPOCH_SPAN, true);
    var (first, e) := Called(sys.start, FRESH, t, true);
    var (second, f) := Called(sys.start, FRESH, t + EPOCH_SPAN, true);
    w := World(t + EPOCH_SPAN + 1, None, [e, f]);
    ws := [World(t, None, []),
           World(t, Some(FRESH), []),
           World(t, Some(first), [e]),
           World(t + EPOCH_SPAN, Some(first), [e]),
           World(t + EPOCH_SPAN, None, [e]),
           World(t + EPOCH_SPAN, Some(FRESH), [e]),
           World(t + EPOCH_SPAN, Some(second), [e, f]),
           World(t + EPOCH_SPAN + 1, Some(second), [e, f]),
           w];
    assert [e] + [f] == [e, f] && [] + [e] == [e];
    assert Call(sys, ws[1], ws[2], true) && Call(sys, ws[5], ws[6], true);
    StemsEqual(sys.offset, e, sys.offset, f);
  }

  /** When a call finds which time, and whether the exit handler could be registered then. */
  datatype Moment = Moment(now: nat, atexitWorks: bool)

  /** The variables after these calls of one process. */
  function AfterCalls(start: nat, calls: seq<Moment>): Process {
    if calls == [] then FRESH
    else
      var n := |calls| - 1;
      Called(start, AfterCalls(start, calls[..n]), calls[n].now, calls[n].atexitWorks).0
  }

  lemma CounterRound(start: nat, n: nat)
    requires start < 36
    ensures ((start + n) % 36 + 1) % 36 == (start + n + 1) % 36
    ensures (start + n) % 36 == start <==> n % 36 == 0
  {}

  lemma BaseRound(n: nat)
    requires n > 0
    ensures n / 36 == (if n % 36 == 0 then (n - 1) / 36 + 1 else (n - 1) / 36)
  {}

  /** One base time serves 36 names: call number `n` of a process uses the base time `n / 36`
      seconds after the first, whatever the clock does, and the counters go round once from the start
      counter. */
  lemma {:induction false} ThirtySixNamesPerSecond(start: nat, calls: seq<Moment>)
    requires start < 36 && calls != []
    ensures var n := |calls| - 1;
            var base := calls[0].now + 1 + n / 36;
            && Called(start, AfterCalls(start, calls[..n]), calls[n].now, calls[n].atexitWorks).1
               == Emission(base, (start + n) % 36)
            && AfterCalls(start, calls) == Process((start + n + 1) % 36, start, base, base, calls[0].atexitWorks)
  {
    hide Called;
    var n := |calls| - 1;
    if n == 0 {
      assert calls[..0] == [];
      FirstCall(start, calls[0].now, calls[0].atexitWorks);
    } else {
      ThirtySixNamesPerSecond(start, calls[..n]);
      LaterCall(start, n, calls[0].now + 1, calls[0].atexitWorks, calls[n]);
    }
  }

  lemma LaterCall(start: nat, n: nat, first: nat, ahead: bool, call: Moment)
    requires start < 36 && n > 0 && first > 0
    ensures var last, base := first + (n - 1) / 36, first + n / 36;
            Called(start, Process((start + n) % 36, start, last, last, ahead), call.now, call.atexitWorks)
            == (Process((start + n + 1) % 36, start, base, base, ahead), Emission(base, (start + n) % 36))
  {
    CounterRound(start, n);
    BaseRound(n);
  }
}
