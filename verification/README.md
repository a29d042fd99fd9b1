# HamShack backend core, modelled in Dafny

This project models three parts of the HamShack Rust backend:

- **The SDR manager** (`backend/src/sdr.rs`). It tracks whether acquisition
  is running and holds the configuration. It also owns both halves of a
  bounded spectrum channel with capacity 100. On start it moves the sending
  half into a worker thread that has its own snapshot of the configuration.
  `Sdr.Manager` records the manager's fields. It also records the spawned
  worker (its snapshot and its sender) and the frames buffered in the
  channel. `Sdr.Step`/`Sdr.Run` interleave calls on the manager with worker
  cycles. `Sdr.Valid` is the invariant every reachable state keeps.
- **The spot cache** (`backend/src/cache.rs`). It maps each callsign to the
  latest spot heard for it. This module is not compiled into the server
  binary: `backend/src/main.rs` declares `config`, `sdr` and `websocket`
  but no `cache`. Spots are kept for 1800 seconds, aged with
  saturating subtraction. When the cache is over its size bound, the oldest
  timestamps are evicted first. The wall clock becomes an explicit `now`
  parameter. The `HashMap`'s iteration order becomes an explicit enumeration
  `order` of its keys. That order decides the order of `get_spots`' result
  and which of several equal-timestamp spots is evicted.
- **The sequential parts of `main`** (`backend/src/main.rs`):
  - the `--port=N` / `--port N` override, including Rust's `u16` parsing
    and `split('=')`;
  - the host forced to `127.0.0.1`;
  - the boot-time `start`;
  - the `{success, message}` replies of the start, stop and retune handlers.

`stop` does not do what its own comment promises. At
`backend/src/sdr.rs:83` it calls `take()` on the sender slot, commenting
that this "will break the SDR thread". But `start` already emptied that slot
at `backend/src/sdr.rs:65` when it moved the sender into the worker. So
nothing is dropped, and the channel stays open. The first worker keeps
running, still on its spawn-time snapshot. A later `start` unwraps the empty
slot and panics. The model follows the code as written:

- `Sdr.Start` is defined only where the `unwrap` succeeds.
- At the event and handler level, a panicking call leaves the manager as it
  was (`Server.Handled.Aborted`).
- `Sdr.WorkerIsForever`, `Sdr.SenderNeverReturns` and `Sdr.RestartPanics`
  state the consequences.

Integer widths are subset types: `u16`, `u32`, `u64` and `i32`. Floats that
are only stored and copied (`gain`, a spot's `frequency`) are kept as their
IEEE-754 bit patterns, so gain 30.0 is `0x41F0_0000`.

## Model

| member | source | states |
|---|---|---|
| Sdr.New | backend/src/sdr.rs:37-52 | a new manager is idle. It holds both channel halves, an empty buffer and no worker. Its defaults are "rtlsdr", 2 400 000 S/s, 14.2 MHz, gain 30.0 and 1024 bins. It satisfies the invariant |
| Sdr.Start | backend/src/sdr.rs:54-74 | fails with AlreadyRunning exactly when running, and then changes nothing. Otherwise it runs, its sender slot is empty, and a worker holds a snapshot of the current config and the sender. The invariant is preserved |
| Sdr.Stop | backend/src/sdr.rs:76-86 | fails with NotRunning exactly when idle, and then changes nothing. Otherwise it is idle, but the worker and the buffered frames stay as they were: the channel is not closed. The invariant is preserved |
| Sdr.SetFrequency | backend/src/sdr.rs:88-97 | fails with NotRunning exactly when idle, and then changes nothing. Otherwise only the config frequency changes. The worker and the buffer never change. The invariant is preserved |
| Sdr.GetSpectrumData | backend/src/sdr.rs:108-118 | yields nothing while idle. While running it yields a frame exactly when one is buffered: the oldest one, which it removes (FIFO). That frame carries the worker snapshot's frequency and bin count |
| Sdr.MakeFrame | backend/src/sdr.rs:142-163 | a frame carries the snapshot's frequency and exactly fft-size bins, bin i being the power of bin i |
| Sdr.WorkerSend | backend/src/sdr.rs:158-170 | the send fails exactly when the receiver is gone, and the worker then ends. It blocks exactly when 100 frames are buffered. Otherwise it appends one frame of the snapshot at the back. The invariant is preserved |
| Sdr.StepPreservesValid | backend/src/sdr.rs:54-118 | every call and every worker cycle keeps the invariant: one sender, with the worker exactly when not in the slot; at most 100 buffered frames; every buffered frame built from the worker's snapshot |
| Sdr.RunPreservesValid | backend/src/sdr.rs:54-118 | the invariant holds after any sequence of calls and worker cycles |
| Sdr.SenderNeverReturns | backend/src/sdr.rs:65 | once moved out by start, the sender never comes back to the manager's slot |
| Sdr.WorkerIsForever | backend/src/sdr.rs:81-83 | once spawned, the same worker with the same snapshot exists after any later events: stop never ends it |
| Sdr.RestartPanics | backend/src/sdr.rs:54-86 | after a successful start, whatever follows, the manager is either running or a start on it panics: it can be started at most once |
| Sdr.RetuneNotSeenByWorker | backend/src/sdr.rs:88-106 | a retune shows at once in the status. Yet after any later events every buffered frame still carries the frequency of the spawn-time snapshot |
| Sdr.StartOnceThenAlreadyRunning | backend/src/sdr.rs:54-57 | the first start of a new manager succeeds. An immediate second one is refused with AlreadyRunning and changes nothing |
| Sdr.DefaultScenario | backend/src/sdr.rs:37-106 | start then status gives (running, 14200000, 2400000, 30.0). Stop then gives idle. A second stop is refused with NotRunning, and a further start would panic |
| Sdr.StoppedPollYieldsNothing | backend/src/sdr.rs:108-111 | after stop, polling yields nothing, while the surviving worker still delivers frames into the channel |
| SpotCache.New | backend/src/cache.rs:24-30 | a new cache is empty with the given size bound |
| SpotCache.SaturatingSub | backend/src/cache.rs:58 | the difference when it is non-negative, zero otherwise |
| SpotCache.IsActiveIffBeforeExpiry | backend/src/cache.rs:52-59 | a spot is active exactly when now is before its timestamp plus 1800 s; a spot stamped in the future is active |
| SpotCache.Live | backend/src/cache.rs:68 | the retained spots are exactly the active ones, with their values unchanged |
| SpotCache.SortBy | backend/src/cache.rs:73-78 | the result is a permutation of the keys, in non-decreasing timestamp order |
| SpotCache.InsertBy | backend/src/cache.rs:78 | inserting into a sorted sequence keeps it sorted and adds exactly one occurrence of the key |
| SpotCache.FilterKeys | backend/src/cache.rs:68 | the iteration order restricted to the retained keys: exactly those keys, each once |
| SpotCache.RemoveSortedPrefix | backend/src/cache.rs:80-83 | removing the first n keys of the sorted enumeration removes exactly n spots, none newer than a spot that stays |
| SpotCache.EvictOldest | backend/src/cache.rs:71-84 | under the bound nothing changes. Over it, exactly max_size spots stay, every evicted spot is no newer than every kept one, and kept values are unchanged |
| SpotCache.Cleanup | backend/src/cache.rs:61-85 | only active spots of the map stay, unchanged and at most max_size of them. If the active spots fit, exactly they stay; otherwise exactly max_size stay. An evicted active spot is no newer than any kept one |
| SpotCache.AddSpot | backend/src/cache.rs:32-40 | afterwards the new spot is stored under its callsign. Every other entry is an active, unchanged spot of the old cache. The size is at most max_size + 1. Keys stay the callsigns of their spots |
| SpotCache.Put | backend/src/cache.rs:39 | inserting by callsign stores the spot there and keeps every other entry |
| SpotCache.AddSpotEvictsOldest | backend/src/cache.rs:32-40 | an active spot lost by add_spot is no newer than any spot kept besides the new one |
| SpotCache.AddSpotKeepsLiveWhenRoom | backend/src/cache.rs:32-40 | while the active spots fit the bound, add_spot keeps every one of them |
| SpotCache.ActiveOnly | backend/src/cache.rs:46-49 | the filter keeps only active spots taken from its input |
| SpotCache.ActiveValuesCount | backend/src/cache.rs:46-49 | filtering the values in any enumeration keeps each active spot once per key holding it, and no expired spot |
| SpotCache.ActiveValuesSize | backend/src/cache.rs:46-49 | filtering the values in any enumeration keeps one spot per live key |
| SpotCache.GetSpots | backend/src/cache.rs:42-50 | the result holds only active spots, each as often as keys hold it, so it is the multiset of live values whatever the iteration order. Its length is the number of live spots. In a cache keyed by callsign no spot repeats |
| SpotCache.AddedSpotIsServed | backend/src/cache.rs:32-50 | a spot that is active when added is among the spots read back at that time |
| Server.ParseU16 | backend/src/main.rs:37 | the checked digit-by-digit parse, which rejects an empty string, a lone sign, the first non-digit or an overflow, agrees on every string with the declarative reading: an optional '+' and then one or more decimal digits denoting at most 65535 |
| Server.DecimalRoundTrip | backend/src/main.rs:37 | printing a natural number in decimal and reading it back gives the number |
| Server.U16RoundTrip | backend/src/main.rs:37 | every u16 printed in decimal parses back to itself |
| Server.Split | backend/src/main.rs:36 | split yields at least one piece and no piece contains the separator |
| Server.JoinSplit | backend/src/main.rs:36 | joining the pieces with the separator gives back the original string |
| Server.SplitHasSecond | backend/src/main.rs:36 | a second piece exists exactly when the separator occurs |
| Server.OverridePort | backend/src/main.rs:35-45 | the port changes only if the first argument starts with --port. With an '=' in the flag, the following arguments are ignored |
| Server.EqualsFormReadsSecondField | backend/src/main.rs:36-39 | for --port=S[=...], the port becomes S if S is a valid u16 and is otherwise left as loaded |
| Server.SpaceFormReadsNextArgument | backend/src/main.rs:40-44 | for --port without '=', a valid u16 in the next argument becomes the port. An invalid or missing one leaves it as loaded |
| Server.PortFlagRoundTrip | backend/src/main.rs:35-45 | both --port=N and --port N select exactly port N |
| Server.ApplyArgs | backend/src/main.rs:34-48 | the host is always 127.0.0.1, whatever was loaded, and the port is the override result |
| Server.Boot | backend/src/main.rs:50-52 | the boot-time start succeeds. The manager runs with the default config, a worker on that config holds the sender, and the invariant holds |
| Server.Respond | backend/src/main.rs:147-150 | success is exactly is_ok(), and the message is chosen by that flag alone |
| Server.HandleStart | backend/src/main.rs:141-151 | the handler panics exactly when start would unwrap an empty sender slot. Otherwise success is "was idle", with "SDR started" / "Failed to start SDR" |
| Server.HandleStop | backend/src/main.rs:153-163 | always replies. Success is "was running", with "SDR stopped" / "Failed to stop SDR", leaving stop's state |
| Server.HandleSetFrequency | backend/src/main.rs:165-177 | always replies and always echoes the requested frequency. Success is "was running", with "Frequency set" / "Failed to set frequency" |
| Server.ErrorKindsCollapse | backend/src/main.rs:147-150 | two results that agree on is_ok() give identical replies: the error kind is not reported |
| Server.StartRequestsAfterBoot | backend/src/main.rs:50-52 | after boot a start request is refused. After a successful stop request, the next start request panics instead of restarting |

## Left out

- Threads and timing: the worker thread, the 100 ms sleep and the
  `Instant` timestamp of each frame are left out. Worker cycles are events
  interleaved with manager calls. A blocked send is a cycle that changes
  nothing.
- Signal processing: simulated IQ generation, the FFT, the dB conversion and
  random noise are left out, because they are floating point and random. A
  worker cycle takes the bin powers as an opaque parameter.
- The Radix-4 FFT plan's own checks on the transform size are left out; the
  library is not part of this model.
- Floats: `gain` and a spot's `frequency` are carried as their bit patterns
  and never computed with.
- Locks: the cache's `RwLock` and the handlers' `tokio::sync::Mutex` are left
  out. Every operation is atomic in the model.
- Sdr.GetStatus: has no contract of its own. What it reports is stated
  through Sdr.DefaultScenario and Sdr.RetuneNotSeenByWorker.
- SpotCache.GetSpots: the source reads the clock once per spot while
  filtering; the model uses a single `now` for the whole call.
- SpotCache.AddedSpotIsServed: uses one `now` for the insertion and the
  later read. `get_spots` reads the clock again, in `is_active`, so in the
  source some time passes between the two.
- The clock read `duration_since(UNIX_EPOCH).unwrap()` in `is_active` and
  `cleanup` panics on a system clock set before 1970. That panic is left
  out, because `now` is an unsigned number of seconds since the epoch.
- `std::env::args()` panics on a command-line argument that is not valid
  Unicode. That panic is left out, because arguments are modelled as
  strings.
- SpotCache.SortBy: does not state stability (ties keeping iteration order).
  Iteration order is arbitrary anyway, so the eviction contracts only rely
  on the timestamp order.
- The cache's `retention` field is the constant 1800 seconds, since nothing
  changes it.
- Console output (`println!`), logging initialisation and
  `Config::load` are left out. config.rs is not part of this model, and
  the loaded configuration is a parameter.
- Routing, the SSE stream, the status, health and index handlers, static
  files, websocket.rs and the frontend are left out. They are transport
  and presentation around the modelled core.
