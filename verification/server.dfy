/**
 * The sequential parts of backend/src/main.rs: the `--port` override read
 * from the command line, the forced host, the boot sequence of the SDR
 * manager, and the `{success, message}` replies of the three control
 * handlers. Routing, SSE streaming and static files are not modelled.
 */
module Server {
  import opened Wrappers
  import Sdr

  /** Rust's `u16`. */
  type U16 = x: int | 0 <= x < 0x1_0000

  /** The two fields of `Config` that `main` reads or writes. */
  datatype ServerConfig = ServerConfig(port: U16, host: string)

  const ForcedHost: string := "127.0.0.1"

  // ---------------------------------------------------------------------
  // `str::parse::<u16>`

  predicate IsDigit(c: char) {
    '0' <= c <= '9'
  }

  predicate AllDigits(s: string) {
    forall i :: 0 <= i < |s| ==> IsDigit(s[i])
  }

  function DigitValue(c: char): (d: nat)
    requires IsDigit(c)
    ensures d < 10
  {
    c as int - '0' as int
  }

  /** The number a string of decimal digits denotes (0 for the empty string). */
  function DecimalValue(ds: string): nat
    requires AllDigits(ds)
    decreases |ds|
  {
    if ds == [] then 0 else DecimalValue(ds[..|ds| - 1]) * 10 + DigitValue(ds[|ds| - 1])
  }

  /** The digits that follow an optional leading `+`. */
  function Unsigned(s: string): string {
    if |s| > 0 && s[0] == '+' then s[1..] else s
  }

  /**
   * What `parse::<u16>` accepts, stated declaratively: an optional `+`,
   * then at least one decimal digit, denoting at most 65535. Leading
   * zeros are allowed; a `-`, a blank or any other character is not.
   */
  function U16Value(s: string): Option<U16> {
    var ds := Unsigned(s);
    if ds != [] && AllDigits(ds) && DecimalValue(ds) < 0x1_0000 then Some(DecimalValue(ds)) else None
  }

  /** Extending a digit string never lowers the number it denotes. */
  lemma {:induction false} DecimalValuePrefix(ds: string, i: nat)
    requires AllDigits(ds) && i <= |ds|
    ensures AllDigits(ds[..i]) && DecimalValue(ds[..i]) <= DecimalValue(ds)
    decreases |ds| - i
  {
    if i < |ds| {
      DecimalValuePrefix(ds, i + 1);
      var p := ds[..i + 1];
      assert p[..|p| - 1] == ds[..i];
    } else {
      assert ds[..i] == ds;
    }
  }

  /**
   * `u16::from_str` as the standard library runs it: a lone sign is an
   * error, a leading `+` is skipped, then digits accumulate with checked
   * multiplication and addition, failing on the first non-digit or
   * overflow.
   */
  method ParseU16(s: string) returns (r: Option<U16>)
    ensures r == U16Value(s)
  {
    if |s| == 0 {
      return None;
    }
    if (s[0] == '+' || s[0] == '-') && |s| == 1 {
      return None;
    }
    var ds := if s[0] == '+' then s[1..] else s;
    assert ds == Unsigned(s) && ds != [];
    var acc := 0;
    var i := 0;
    while i < |ds|
      invariant 0 <= i <= |ds|
      invariant AllDigits(ds[..i])
      invariant acc == DecimalValue(ds[..i]) && acc < 0x1_0000
    {
      var c := ds[i];
      if !IsDigit(c) {
        return None;
      }
      var next := acc * 10 + DigitValue(c);
      var p := ds[..i + 1];
      assert p[..|p| - 1] == ds[..i];
      assert AllDigits(p) && next == DecimalValue(p);
      if next >= 0x1_0000 {
        if AllDigits(ds) {
          DecimalValuePrefix(ds, i + 1);
        }
        return None;
      }
      acc := next;
      i := i + 1;
    }
    assert ds[..i] == ds;
    return Some(acc);
  }

  /** The decimal spelling of `n`, without sign or leading zeros. */
  function DecimalString(n: nat): (s: string)
    ensures s != [] && AllDigits(s)
    decreases n
  {
    if n < 10 then [('0' as int + n) as char]
    else DecimalString(n / 10) + [('0' as int + n % 10) as char]
  }

  /** Printing a number and reading it back gives the number. */
  lemma {:induction false} DecimalRoundTrip(n: nat)
    ensures DecimalValue(DecimalString(n)) == n
    decreases n
  {
    var s := DecimalString(n);
    if n >= 10 {
      DecimalRoundTrip(n / 10);
      assert s[..|s| - 1] == DecimalString(n / 10);
    }
  }

  /** Every `u16` printed in decimal parses back to itself. */
  lemma U16RoundTrip(n: U16)
    ensures U16Value(DecimalString(n)) == Some(n)
  {
    DecimalRoundTrip(n);
  }

  // ---------------------------------------------------------------------
  // `str::split('=')`

  /** The position of the first `sep` in `s`. */
  function IndexOf(s: string, sep: char): (i: nat)
    requires sep in s
    ensures i < |s| && s[i] == sep && sep !in s[..i]
    decreases |s|
  {
    if s[0] == sep then 0
    else
      var j := IndexOf(s[1..], sep);
      assert s[1..][..j] == s[1..j + 1];
      j + 1
  }

  /** The pieces of `s` between occurrences of `sep`: Rust's `s.split(sep)`. */
  function Split(s: string, sep: char): (parts: seq<string>)
    ensures |parts| >= 1
    ensures forall i :: 0 <= i < |parts| ==> sep !in parts[i]
    decreases |s|
  {
    if sep !in s then [s]
    else
      var i := IndexOf(s, sep);
      [s[..i]] + Split(s[i + 1..], sep)
  }

  /** The inverse of `Split`: the pieces glued back with `sep`. */
  function Join(parts: seq<string>, sep: char): string
    requires |parts| >= 1
    decreases |parts|
  {
    if |parts| == 1 then parts[0] else parts[0] + [sep] + Join(parts[1..], sep)
  }

  /** Splitting and joining gives back the string. */
  lemma {:induction false} JoinSplit(s: string, sep: char)
    ensures Join(Split(s, sep), sep) == s
    decreases |s|
  {
    if sep in s {
      var i := IndexOf(s, sep);
      JoinSplit(s[i + 1..], sep);
      assert s == s[..i] + [sep] + s[i + 1..];
    }
  }

  /** Splitting a string with a first `sep` after `head` gives `head`, then the pieces of the rest. */
  lemma SplitAfterFirst(head: string, rest: string, sep: char)
    requires sep !in head
    ensures Split(head + [sep] + rest, sep) == [head] + Split(rest, sep)
  {
    var s := head + [sep] + rest;
    assert s[|head|] == sep;
    var i := IndexOf(s, sep);
    assert s[..i] == head && s[i + 1..] == rest;
  }

  /** A string that ends or continues with `sep` right after a `sep`-free `head` splits with `head` first. */
  lemma SplitHead(head: string, tail: string, sep: char)
    requires sep !in head && (tail == [] || tail[0] == sep)
    ensures Split(head + tail, sep)[0] == head
  {
    if tail == [] {
      assert head + tail == head;
    } else {
      SplitAfterFirst(head, tail[1..], sep);
      assert head + tail == head + [sep] + tail[1..];
    }
  }

  /** `split(sep).nth(1)` exists exactly when `sep` occurs. */
  lemma SplitHasSecond(s: string, sep: char)
    ensures |Split(s, sep)| > 1 <==> sep in s
  {
    if sep in s {
      var i := IndexOf(s, sep);
      assert Split(s, sep) == [s[..i]] + Split(s[i + 1..], sep);
    }
  }

  // ---------------------------------------------------------------------
  // Command line

  predicate StartsWith(s: string, prefix: string) {
    |prefix| <= |s| && s[..|prefix|] == prefix
  }

  /**
   * The `--port` override of `main`: `--port=N` takes the text between
   * the first and second `=` of the first argument; `--port N` takes the
   * next argument. Anything that does not parse as a `u16` leaves `port`
   * as loaded.
   */
  function OverridePort(args: seq<string>, port: U16): (r: U16)
    ensures |args| < 2 || !StartsWith(args[1], "--port") ==> r == port
    ensures |args| > 1 && '=' in args[1] ==> r == OverridePort(args[..2], port)
  {
    if |args| > 1 && StartsWith(args[1], "--port") then
      var parts := Split(args[1], '=');
      if |parts| > 1 then U16Value(parts[1]).GetOr(port)
      else if |args| > 2 then U16Value(args[2]).GetOr(port)
      else port
    else port
  }

  /** `--port=<seg>[=...]`: only `seg` is read; a valid `u16` there becomes the port, otherwise nothing changes. */
  lemma EqualsFormReadsSecondField(args: seq<string>, port: U16, flag: string, seg: string, more: string)
    requires |args| > 1 && args[1] == flag + "=" + seg + more
    requires StartsWith(flag, "--port") && '=' !in flag && '=' !in seg
    requires more == [] || more[0] == '='
    ensures OverridePort(args, port) == (if U16Value(seg).Some? then U16Value(seg).value else port)
  {
    var rest := seg + more;
    assert args[1] == flag + ['='] + rest;
    assert StartsWith(args[1], "--port") by {
      assert args[1][..6] == flag[..6];
    }
    SplitAfterFirst(flag, rest, '=');
    SplitHead(seg, more, '=');
    var parts := Split(args[1], '=');
    assert |parts| > 1 && parts[1] == seg;
  }

  /** `--port N`: without `=` in the flag, a valid `u16` in the next argument becomes the port. */
  lemma SpaceFormReadsNextArgument(args: seq<string>, port: U16)
    requires |args| > 1 && StartsWith(args[1], "--port") && '=' !in args[1]
    ensures |args| > 2 ==> OverridePort(args, port) == U16Value(args[2]).GetOr(port)
    ensures |args| == 2 ==> OverridePort(args, port) == port
  {
    SplitHasSecond(args[1], '=');
  }

  /** Either spelling of a port in decimal selects exactly that port. */
  lemma PortFlagRoundTrip(program: string, n: U16, port: U16)
    ensures OverridePort([program, "--port=" + DecimalString(n)], port) == n
    ensures OverridePort([program, "--port", DecimalString(n)], port) == n
  {
    U16RoundTrip(n);
    var s := DecimalString(n);
    EqualsFormReadsSecondField([program, "--port=" + s], port, "--port", s, "");
    assert "--port=" + s == "--port" + "=" + s + "";
    assert ['='] !in ["--port"];
    SpaceFormReadsNextArgument([program, "--port", s], port);
  }

  /** The command-line step of `main`: override the port, then force the host to localhost. */
  function ApplyArgs(args: seq<string>, loaded: ServerConfig): (c: ServerConfig)
    ensures c.host == "127.0.0.1"
    ensures c.port == OverridePort(args, loaded.port)
  {
    ServerConfig(OverridePort(args, loaded.port), ForcedHost)
  }

  /**
   * `main` up to serving: apply the arguments, create the SDR manager and
   * start it (the `expect` never fires).
   */
  function Boot(args: seq<string>, loaded: ServerConfig): (r: (ServerConfig, Sdr.Manager))
    ensures r.0 == ApplyArgs(args, loaded)
    ensures r.1.running && Sdr.Valid(r.1)
    ensures r.1.worker == Some(Sdr.Worker(Sdr.New().config, Sdr.Sender))
    ensures r.1.config == Sdr.New().config && r.1.tx.None?
  {
    var started := Sdr.Start(Sdr.New());
    (ApplyArgs(args, loaded), started.state)
  }

  // ---------------------------------------------------------------------
  // Control handlers

  /** The JSON body of a control handler; `frequency` is echoed by the retune handler only. */
  datatype Response = Response(success: bool, message: string, frequency: Option<U64>)

  /** A handler either replies, with the manager it leaves behind, or its task panics. */
  datatype Handled = Replied(state: Sdr.Manager, response: Response) | Aborted

  /** `success` is `is_ok()`; the message is chosen by that flag alone. */
  function Respond(result: Result<(), Sdr.Error>, ok: string, failed: string, echo: Option<U64>): (r: Response)
    ensures r.success <==> result.Ok?
    ensures r.message == (if result.Ok? then ok else failed)
    ensures r.frequency == echo
  {
    Response(result.IsOk(), if result.IsOk() then ok else failed, echo)
  }

  /** `GET /api/sdr/start`. */
  function HandleStart(m: Sdr.Manager): (h: Handled)
    ensures h.Aborted? <==> Sdr.StartPanics(m)
    ensures h.Replied? ==>
      && h.state == Sdr.Start(m).state
      && (h.response.success <==> !m.running)
      && h.response.message == (if !m.running then "SDR started" else "Failed to start SDR")
  {
    if Sdr.StartPanics(m) then Aborted
    else
      var reply := Sdr.Start(m);
      Replied(reply.state, Respond(reply.result, "SDR started", "Failed to start SDR", None))
  }

  /** `GET /api/sdr/stop`. */
  function HandleStop(m: Sdr.Manager): (h: Handled)
    ensures h.Replied?
    ensures h.state == Sdr.Stop(m).state
    ensures h.response.success <==> m.running
    ensures h.response.message == (if m.running then "SDR stopped" else "Failed to stop SDR")
  {
    var reply := Sdr.Stop(m);
    Replied(reply.state, Respond(reply.result, "SDR stopped", "Failed to stop SDR", None))
  }

  /** `GET /api/sdr/frequency/{freq}`: the requested frequency is echoed whatever the outcome. */
  function HandleSetFrequency(m: Sdr.Manager, freq: U64): (h: Handled)
    ensures h.Replied?
    ensures h.state == Sdr.SetFrequency(m, freq).state
    ensures h.response.success <==> m.running
    ensures h.response.message == (if m.running then "Frequency set" else "Failed to set frequency")
    ensures h.response.frequency == Some(freq)
  {
    var reply := Sdr.SetFrequency(m, freq);
    Replied(reply.state, Respond(reply.result, "Frequency set", "Failed to set frequency", Some(freq)))
  }

  /** All error kinds collapse: two results that agree on `is_ok()` give the same reply. */
  lemma ErrorKindsCollapse(a: Result<(), Sdr.Error>, b: Result<(), Sdr.Error>, ok: string, failed: string, echo: Option<U64>)
    requires a.Ok? == b.Ok?
    ensures Respond(a, ok, failed, echo) == Respond(b, ok, failed, echo)
  {
  }

  /**
   * After boot the manager runs, so a start request is refused; after a
   * stop request, the next start request panics instead of restarting.
   */
  lemma StartRequestsAfterBoot(args: seq<string>, loaded: ServerConfig)
    ensures var m := Boot(args, loaded).1;
      && HandleStart(m) == Replied(m, Response(false, "Failed to start SDR", None))
      && var stopped := HandleStop(m);
      && stopped.response.success
      && HandleStart(stopped.state).Aborted?
  {
  }
}
