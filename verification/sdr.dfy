/**
 * The SDR pipeline controller of backend/src/sdr.rs.
 *
 * `SDRManager` owns the configuration, the running flag, an optional slot
 * for the sending half of a bounded channel and the receiving half. `start`
 * moves the sender out of its slot into a spawned worker thread together
 * with a copy of the configuration; the worker then pushes one spectrum
 * frame per cycle into the channel. Here the whole system is one immutable
 * value: the manager's fields, the worker (its configuration snapshot and
 * the sender it owns), and the frames buffered in the channel.
 *
 * The spectrum values themselves (simulated IQ, FFT, dB conversion) are an
 * opaque function handed to each worker cycle; only a frame's frequency and
 * the length of its spectrum are modelled.
 */
module Sdr {
  import opened Wrappers

  /** Rust's `u32`. */
  type U32 = x: int | 0 <= x < 0x1_0000_0000
  /** An `f32` that is only ever copied, kept as its IEEE-754 bit pattern. */
  type F32 = bv32

  /** Capacity of the bounded channel created in `new`. */
  const Capacity: nat := 100

  const DefaultDevice: string := "rtlsdr"
  const DefaultSampleRate: U32 := 2_400_000
  const DefaultFrequency: U64 := 14_200_000
  /** 30.0 as an IEEE-754 single. */
  const DefaultGain: F32 := 0x41F0_0000
  const DefaultFftSize: U64 := 1024

  datatype Config = Config(device: string, sampleRate: U32, frequency: U64, gain: F32, fftSize: U64)

  /** A `SpectrumData` frame; its capture `Instant` is not modelled. */
  datatype Frame = Frame(frequency: U64, spectrum: seq<F32>)

  /** `SDRStatus`: the read-only projection served to the HTTP layer. */
  datatype Status = Status(running: bool, frequency: U64, sampleRate: U32, gain: F32)

  /**
   * The two errors the manager can return ("SDR already running", "SDR not
   * running"); the handlers discard the text, so only the kind is kept.
   */
  datatype Error = AlreadyRunning | NotRunning

  /** The one sending handle of the channel; only where it lives matters. */
  datatype Sender = Sender

  /** The receiving half, with the frames currently buffered in the channel (oldest first). */
  datatype Receiver = Receiver(buffered: seq<Frame>)

  /** A spawned worker thread: the configuration it was spawned with and the sender it owns. */
  datatype Worker = Worker(snapshot: Config, tx: Sender)

  datatype Manager = Manager(
    config: Config,
    running: bool,
    tx: Option<Sender>,
    rx: Option<Receiver>,
    worker: Option<Worker>)

  /** The manager after a mutating call, and the call's `Result<(), String>`. */
  datatype Reply = Reply(state: Manager, result: Result<(), Error>)

  /** The outcome of one worker cycle's `send`. */
  datatype Delivery =
    | Delivered(state: Manager)     // frame appended to the channel
    | Blocked                       // channel full: the send waits, nothing changes
    | Disconnected(state: Manager)  // receiver gone: the worker loop breaks and drops its sender

  /** The frames the channel currently holds (none when there is no receiver). */
  function Buffered(m: Manager): seq<Frame> {
    if m.rx.Some? then m.rx.value.buffered else []
  }

  /**
   * What every state reachable from `New` satisfies: the receiver is
   * present; the single sender sits either in its slot or in the worker,
   * never both and never neither; a running manager has a worker; the
   * channel holds at most `Capacity` frames, and every buffered frame was
   * made from the worker's snapshot.
   */
  ghost predicate Valid(m: Manager) {
    && m.rx.Some?
    && (m.tx.Some? <==> m.worker.None?)
    && (m.running ==> m.worker.Some?)
    && |m.rx.value.buffered| <= Capacity
    && (m.worker.None? ==> m.rx.value.buffered == [])
    && (m.worker.Some? ==> forall f :: f in m.rx.value.buffered ==> MadeFrom(f, m.worker.value.snapshot))
  }

  /** A frame built by a worker that runs on `snapshot`. */
  ghost predicate MadeFrom(f: Frame, snapshot: Config) {
    f.frequency == snapshot.frequency && |f.spectrum| == snapshot.fftSize
  }

  /** `SDRManager::new`. */
  function New(): (m: Manager)
    ensures !m.running && m.tx.Some? && m.rx.Some? && m.worker.None?
    ensures Buffered(m) == []
    ensures m.config.frequency == 14_200_000 && m.config.sampleRate == 2_400_000
    ensures m.config.gain == 0x41F0_0000 && m.config.fftSize == 1024 && m.config.device == "rtlsdr"
    ensures Valid(m)
  {
    Manager(
      Config(DefaultDevice, DefaultSampleRate, DefaultFrequency, DefaultGain, DefaultFftSize),
      false, Some(Sender), Some(Receiver([])), None)
  }

  /** `start` reaches `self.spectrum_tx.take().unwrap()` with an empty slot and panics. */
  predicate StartPanics(m: Manager) {
    !m.running && m.tx.None?
  }

  /**
   * `SDRManager::start`. Its precondition is the `unwrap` at the moment
   * the sender is moved out: the call is only defined when it does not
   * panic.
   */
  function Start(m: Manager): (r: Reply)
    requires !StartPanics(m)
    ensures r.result.Err? <==> m.running
    ensures r.result.Err? ==> r.result.error == AlreadyRunning && r.state == m
    ensures r.result.Ok? ==>
      && r.state.running
      && r.state.tx.None?
      && r.state.worker == Some(Worker(m.config, m.tx.value))
      && r.state.config == m.config
      && r.state.rx == m.rx
    ensures Valid(m) ==> Valid(r.state)
  {
    if m.running then Reply(m, Err(AlreadyRunning))
    else
      var tx := m.tx.value;
      Reply(m.(running := true, tx := None, worker := Some(Worker(m.config, tx))), Ok(()))
  }

  /**
   * `SDRManager::stop`. The `take()` finds the slot already emptied by
   * `start`, so the worker keeps its sender and the channel stays open.
   */
  function Stop(m: Manager): (r: Reply)
    ensures r.result.Err? <==> !m.running
    ensures r.result.Err? ==> r.result.error == NotRunning && r.state == m
    ensures r.result.Ok? ==>
      && !r.state.running
      && r.state.tx.None?
      && r.state.config == m.config
      && r.state.worker == m.worker
      && r.state.rx == m.rx
    ensures Valid(m) ==> Valid(r.state)
  {
    if !m.running then Reply(m, Err(NotRunning))
    else Reply(m.(running := false, tx := None), Ok(()))
  }

  /** `SDRManager::set_frequency`: changes the manager's config, not the worker's snapshot. */
  function SetFrequency(m: Manager, freq: U64): (r: Reply)
    ensures r.result.Err? <==> !m.running
    ensures r.result.Err? ==> r.result.error == NotRunning && r.state == m
    ensures r.result.Ok? ==> r.state == m.(config := m.config.(frequency := freq))
    ensures r.state.worker == m.worker && Buffered(r.state) == Buffered(m)
    ensures Valid(m) ==> Valid(r.state)
  {
    if !m.running then Reply(m, Err(NotRunning))
    else Reply(m.(config := m.config.(frequency := freq)), Ok(()))
  }

  /** `SDRManager::get_status`. */
  function GetStatus(m: Manager): (s: Status) {
    Status(m.running, m.config.frequency, m.config.sampleRate, m.config.gain)
  }

  /**
   * `SDRManager::get_spectrum_data`: a non-blocking `try_recv` while
   * running. The receiver is unwrapped, hence the precondition.
   */
  function GetSpectrumData(m: Manager): (r: (Manager, Option<Frame>))
    requires m.running ==> m.rx.Some?
    ensures !m.running ==> r == (m, None)
    ensures m.running ==> (r.1.Some? <==> Buffered(m) != [])
    ensures r.1.Some? ==>
      && Buffered(m) != []
      && r.1.value == Buffered(m)[0]
      && Buffered(r.0) == Buffered(m)[1..]
      && r.0 == m.(rx := Some(Receiver(Buffered(m)[1..])))
    ensures r.1.None? ==> r.0 == m
    ensures Valid(m) ==> Valid(r.0)
    ensures Valid(m) && r.1.Some? ==> MadeFrom(r.1.value, m.worker.value.snapshot)
  {
    if !m.running then (m, None)
    else
      var q := m.rx.value.buffered;
      if q == [] then (m, None)
      else (m.(rx := Some(Receiver(q[1..]))), Some(q[0]))
  }

  /** One frame of the worker on `snapshot`; `power` stands for FFT plus dB conversion of bin `i`. */
  function MakeFrame(snapshot: Config, power: nat -> F32): (f: Frame)
    ensures MadeFrom(f, snapshot)
    ensures forall i :: 0 <= i < |f.spectrum| ==> f.spectrum[i] == power(i)
  {
    Frame(snapshot.frequency, seq(snapshot.fftSize, (i: int) requires 0 <= i => power(i)))
  }

  /**
   * One iteration of the worker loop: build a frame from the snapshot and
   * `send` it on the bounded channel, which blocks while full and fails
   * once the receiver is gone.
   */
  function WorkerSend(m: Manager, power: nat -> F32): (d: Delivery)
    requires m.worker.Some?
    ensures d.Disconnected? <==> m.rx.None?
    ensures d.Blocked? <==> m.rx.Some? && |m.rx.value.buffered| >= Capacity
    ensures d.Delivered? ==>
      && Buffered(d.state) == Buffered(m) + [MakeFrame(m.worker.value.snapshot, power)]
      && d.state == m.(rx := Some(Receiver(Buffered(d.state))))
    ensures d.Disconnected? ==> d.state == m.(worker := None)
    ensures Valid(m) && !d.Blocked? ==> Valid(d.state)
  {
    if m.rx.None? then Disconnected(m.(worker := None))
    else
      var q := m.rx.value.buffered;
      if |q| >= Capacity then Blocked
      else Delivered(m.(rx := Some(Receiver(q + [MakeFrame(m.worker.value.snapshot, power)]))))
  }

  /** Something that can happen to the system: a call on the manager or a worker cycle. */
  datatype Event =
    | StartCall
    | StopCall
    | Retune(freq: U64)
    | StatusCall
    | PollCall
    | WorkerCycle(power: nat -> F32)

  /**
   * The system after one event. A call that panics (the `unwrap`s of
   * `start` and `get_spectrum_data`) leaves the manager as it was: the
   * panic happens before any field is written.
   */
  function Step(m: Manager, e: Event): Manager {
    match e
    case StartCall => if StartPanics(m) then m else Start(m).state
    case StopCall => Stop(m).state
    case Retune(f) => SetFrequency(m, f).state
    case StatusCall => m
    case PollCall => if m.running && m.rx.None? then m else GetSpectrumData(m).0
    case WorkerCycle(power) =>
      if m.worker.None? then m
      else
        match WorkerSend(m, power)
        case Delivered(s) => s
        case Blocked => m
        case Disconnected(s) => s
  }

  /** The system after a sequence of events. */
  function Run(m: Manager, es: seq<Event>): Manager
    decreases |es|
  {
    if es == [] then m else Run(Step(m, es[0]), es[1..])
  }

  /** Every event keeps the system invariant. */
  lemma StepPreservesValid(m: Manager, e: Event)
    requires Valid(m)
    ensures Valid(Step(m, e))
  {
    match e
    case WorkerCycle(power) =>
      if m.worker.Some? {
        var d := WorkerSend(m, power);
        assert !d.Disconnected?;
      }
    case _ =>
  }

  /** Every state reachable from `New` satisfies `Valid`. */
  lemma {:induction false} RunPreservesValid(m: Manager, es: seq<Event>)
    requires Valid(m)
    ensures Valid(Run(m, es))
    decreases |es|
  {
    if es != [] {
      StepPreservesValid(m, es[0]);
      RunPreservesValid(Step(m, es[0]), es[1..]);
    }
  }

  /** Once moved out by `start`, the sender never returns to its slot. */
  lemma {:induction false} SenderNeverReturns(m: Manager, es: seq<Event>)
    requires m.tx.None?
    ensures Run(m, es).tx.None?
    decreases |es|
  {
    if es != [] {
      SenderNeverReturns(Step(m, es[0]), es[1..]);
    }
  }

  /**
   * Once a worker exists (and the receiver is there), it is the same
   * worker, with the same snapshot, for ever: no later event replaces it.
   */
  lemma {:induction false} WorkerIsForever(m: Manager, es: seq<Event>)
    requires Valid(m) && m.worker.Some?
    ensures Run(m, es).worker == m.worker
    decreases |es|
  {
    if es != [] {
      var e := es[0];
      StepPreservesValid(m, e);
      if e.WorkerCycle? {
        assert WorkerSend(m, e.power).Delivered? || WorkerSend(m, e.power).Blocked?;
      }
      WorkerIsForever(Step(m, e), es[1..]);
    }
  }

  /**
   * After any successful start, a later `start` on a stopped manager
   * panics, whatever happened in between: the manager can be started at
   * most once.
   */
  lemma RestartPanics(m: Manager, es: seq<Event>)
    requires Valid(m) && !m.running && m.tx.Some?
    ensures var later := Run(Start(m).state, es);
      later.running || StartPanics(later)
  {
    SenderNeverReturns(Start(m).state, es);
  }

  /**
   * A retune changes what `get_status` reports at once, yet every frame
   * buffered or polled at any later time still carries the frequency of
   * the spawn-time snapshot.
   */
  lemma RetuneNotSeenByWorker(m: Manager, freq: U64, es: seq<Event>)
    requires Valid(m) && m.running
    ensures SetFrequency(m, freq).result.Ok?
    ensures GetStatus(SetFrequency(m, freq).state).frequency == freq
    ensures var later := Run(SetFrequency(m, freq).state, es);
      && later.worker == m.worker
      && forall f :: f in Buffered(later) ==> f.frequency == m.worker.value.snapshot.frequency
  {
    var s := SetFrequency(m, freq).state;
    WorkerIsForever(s, es);
    RunPreservesValid(s, es);
  }

  /** The first `start` of a new manager succeeds; an immediate second one is refused. */
  lemma StartOnceThenAlreadyRunning()
    ensures Start(New()).result.Ok?
    ensures var s := Start(New()).state;
      !StartPanics(s) && Start(s).result == Err(AlreadyRunning) && Start(s).state == s
  {
  }

  /** On the defaults: start, status, stop, a refused second stop, and a restart that would panic. */
  lemma DefaultScenario()
    ensures var s1 := Start(New());
      && s1.result.Ok?
      && GetStatus(s1.state) == Status(true, 14_200_000, 2_400_000, 0x41F0_0000)
      && var s2 := Stop(s1.state);
      && s2.result.Ok?
      && !GetStatus(s2.state).running
      && Stop(s2.state).result == Err(NotRunning)
      && StartPanics(s2.state)
  {
  }

  /** While stopped, polling yields nothing even though the worker keeps filling the channel. */
  lemma StoppedPollYieldsNothing(m: Manager, power: nat -> F32)
    requires Valid(m) && !m.running && m.worker.Some? && |Buffered(m)| < Capacity
    ensures GetSpectrumData(m).1.None?
    ensures WorkerSend(m, power).Delivered?
    ensures |Buffered(WorkerSend(m, power).state)| == |Buffered(m)| + 1
  {
  }
}
