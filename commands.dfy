/** The outbound command queue: injection of the mode commands, the timed
    retransmission of the front command with a retry cap, and the
    acknowledgement handler that pops the front and tracks configuration
    mode. */
module Commands {
  import opened Wire

  /** The opcodes of the HLK-LD2450 protocol (byte 0 of a command). Only
      their distinctness matters to what is proved here. */
  const EnterConfig: byte := 0xFF
  const LeaveConfig: byte := 0xFE
  const ReadVersion: byte := 0xA0

  /** The commands the engine adds by itself. */
  const EnterConfigCommand: seq<byte> := [EnterConfig, 0x00, 0x01, 0x00]
  const LeaveConfigCommand: seq<byte> := [LeaveConfig, 0x00]

  /** `COMMAND_RETRY_DELAY` (ms) and `COMMAND_MAX_RETRIES`. */
  datatype Timing = Timing(retryDelay: nat, maxRetries: nat)

  /** `command_queue_`, `command_send_retries_`, `command_last_sent_` and
      `configuration_mode_`. */
  datatype Engine = Engine(queue: seq<seq<byte>>, retries: nat, lastSent: nat, configMode: bool)

  /** Every queued command has an opcode byte. */
  predicate WellFormed(q: seq<seq<byte>>) {
    forall i :: 0 <= i < |q| ==> |q[i]| > 0
  }

  /** The engine's invariant: well-formed queue, retries within the cap. */
  predicate EngineValid(e: Engine, t: Timing) {
    WellFormed(e.queue) && e.retries <= t.maxRetries
  }

  /** The queue once ENTER_CONFIG has been put in front of a non-empty queue
      when the device is not in configuration mode. */
  function Injected(e: Engine): (q: seq<seq<byte>>)
    requires WellFormed(e.queue) && |e.queue| > 0
    ensures WellFormed(q) && |q| > 0
    ensures !e.configMode ==> q[0][0] == EnterConfig
    // ENTER_CONFIG is put in front exactly when not in configuration mode
    // and not already at the front; otherwise the queue is unchanged
    ensures !e.configMode && e.queue[0][0] != EnterConfig ==> q == [EnterConfigCommand] + e.queue
    ensures e.configMode || e.queue[0][0] == EnterConfig ==> q == e.queue
  {
    if !e.configMode && e.queue[0][0] != EnterConfig then [EnterConfigCommand] + e.queue else e.queue
  }

  /** One pass of the queue engine: the new state and the command it
      transmitted, if any. */
  datatype Cycle = Cycle(engine: Engine, sent: Option<seq<byte>>)

  /** The queue engine at the start of a poll at time `now`. */
  function QueueStep(e: Engine, now: nat, t: Timing): (r: Cycle)
    requires WellFormed(e.queue)
    ensures EngineValid(e, t) ==> EngineValid(r.engine, t)
    ensures WellFormed(r.engine.queue)
    // only an acknowledgement changes the mode
    ensures r.engine.configMode == e.configMode
    // what goes out is the front, which stays queued, counted and timestamped
    ensures r.sent.Some? ==>
      |r.engine.queue| > 0 && r.sent.value == r.engine.queue[0] &&
      r.engine.retries == e.retries + 1 && r.engine.retries <= t.maxRetries && r.engine.lastSent == now
    // a command goes out only in configuration mode, or is ENTER_CONFIG itself
    ensures r.sent.Some? ==> |r.sent.value| > 0 && (e.configMode || r.sent.value[0] == EnterConfig)
    // empty queue: nothing sent; LEAVE_CONFIG appended exactly when in configuration mode
    ensures |e.queue| == 0 ==>
      r.sent == None && r.engine.retries == e.retries && r.engine.lastSent == e.lastSent &&
      r.engine.queue == (if e.configMode then [LeaveConfigCommand] else [])
    // within the retry delay: only the injection happens
    ensures |e.queue| > 0 && now - e.lastSent <= t.retryDelay ==>
      r == Cycle(e.(queue := Injected(e)), None)
    // delay elapsed at the cap: the front is dropped, nothing is sent, retries restart
    ensures |e.queue| > 0 && now - e.lastSent > t.retryDelay && e.retries >= t.maxRetries ==>
      r.sent == None && r.engine.queue == Injected(e)[1..] && r.engine.retries == 0 &&
      r.engine.lastSent == e.lastSent
    // delay elapsed below the cap: the front is sent
    ensures |e.queue| > 0 && now - e.lastSent > t.retryDelay && e.retries < t.maxRetries ==>
      r.sent == Some(Injected(e)[0]) && r.engine.queue == Injected(e)
  {
    if |e.queue| > 0 then
      var q := Injected(e);
      if now - e.lastSent > t.retryDelay then
        if e.retries >= t.maxRetries then
          Cycle(e.(queue := q[1..], retries := 0), None)
        else
          Cycle(e.(queue := q, lastSent := now, retries := e.retries + 1), Some(q[0]))
      else
        Cycle(e.(queue := q), None)
    else if e.configMode then
      Cycle(e.(queue := e.queue + [LeaveConfigCommand]), None)
    else
      Cycle(e, None)
  }

  /** An acknowledgement of the front command: same opcode, success byte 1. */
  predicate Acknowledges(q: seq<seq<byte>>, msg: seq<byte>)
    requires WellFormed(q) && |msg| >= 2
  {
    |q| > 0 && q[0][0] == msg[0] && msg[1] == 0x01
  }

  /** `process_config_message`: the state after a config frame whose payload
      (and trailer) is `msg`. */
  function AckStep(e: Engine, msg: seq<byte>): (r: Engine)
    requires WellFormed(e.queue) && |msg| >= 2
    ensures WellFormed(r.queue)
    // only the front is ever removed, and only by its acknowledgement
    ensures Acknowledges(e.queue, msg) ==> r.queue == e.queue[1..] && r.retries == 0 && r.lastSent == 0
    ensures !Acknowledges(e.queue, msg) ==>
      r.queue == e.queue && r.retries == e.retries && r.lastSent == e.lastSent
    // mode follows successful ENTER_CONFIG and LEAVE_CONFIG replies, and nothing else
    ensures msg[0] == EnterConfig && msg[1] == 0x01 ==> r.configMode
    ensures msg[0] == LeaveConfig && msg[1] == 0x01 ==> !r.configMode
    ensures !(msg[1] == 0x01 && (msg[0] == EnterConfig || msg[0] == LeaveConfig)) ==>
      r.configMode == e.configMode
  {
    var e1 := if |e.queue| > 0 && e.queue[0][0] == msg[0] && msg[1] == 0x01
      then e.(queue := e.queue[1..], retries := 0, lastSent := 0)
      else e;
    var e2 := if msg[0] == EnterConfig && msg[1] == 0x01 then e1.(configMode := true) else e1;
    if msg[0] == LeaveConfig && msg[1] == 0x01 then e2.(configMode := false) else e2
  }

  /** A READ_VERSION reply is informational: apart from acknowledging the
      front, it changes nothing. */
  lemma ReadVersionChangesNothing(e: Engine, msg: seq<byte>)
    requires WellFormed(e.queue) && |msg| >= 2 && msg[0] == ReadVersion
    requires !Acknowledges(e.queue, msg)
    ensures AckStep(e, msg) == e
  {
  }

  /** Each poll time is more than the retry delay after the previous one
      (the first after `last`). */
  predicate Spaced(last: nat, times: seq<nat>, delay: nat)
    decreases |times|
  {
    |times| > 0 ==> times[0] - last > delay && Spaced(times[0], times[1..], delay)
  }

  /** The engine run over a sequence of polls with no acknowledgement in
      between: the final state and the commands sent, in order. */
  function Replay(e: Engine, times: seq<nat>, t: Timing): (r: (Engine, seq<seq<byte>>))
    requires WellFormed(e.queue)
    ensures WellFormed(r.0.queue)
    ensures r.0.configMode == e.configMode
    decreases |times|
  {
    if times == [] then (e, [])
    else
      var c := QueueStep(e, times[0], t);
      var rest := Replay(c.engine, times[1..], t);
      (rest.0, (if c.sent.Some? then [c.sent.value] else []) + rest.1)
  }

  /** `n` copies of a command. */
  function Repeat(c: seq<byte>, n: nat): (r: seq<seq<byte>>)
    ensures |r| == n && forall i :: 0 <= i < n ==> r[i] == c
  {
    if n == 0 then [] else [c] + Repeat(c, n - 1)
  }

  /** The retry cap: a front command that is never acknowledged, polled at
      intervals longer than the retry delay, is sent until the retry count
      reaches the cap (from no retries: exactly `maxRetries` times) and then
      dropped, which shortens the queue by one and resets the count. This
      holds in configuration mode, or for ENTER_CONFIG itself; outside it a
      queued command stays behind a fresh ENTER_CONFIG on every poll (see
      `RetryCapStallsOutsideConfig`). */
  lemma {:induction false} RetryCapDrops(e: Engine, c: seq<byte>, rest: seq<seq<byte>>, times: seq<nat>, t: Timing)
    requires |c| > 0 && e.queue == [c] + rest && WellFormed(e.queue)
    requires e.configMode || c[0] == EnterConfig
    requires e.retries <= t.maxRetries
    requires |times| == t.maxRetries - e.retries + 1
    requires Spaced(e.lastSent, times, t.retryDelay)
    ensures Replay(e, times, t).1 == Repeat(c, t.maxRetries - e.retries)
    ensures Replay(e, times, t).0.queue == rest && Replay(e, times, t).0.retries == 0
    decreases |times|
  {
    var step := QueueStep(e, times[0], t);
    assert Injected(e) == e.queue;
    if e.retries == t.maxRetries {
      assert times[1..] == [];
      assert step.sent == None && step.engine.queue == rest;
    } else {
      assert step.sent == Some(c) && step.engine.queue == e.queue;
      RetryCapDrops(step.engine, c, rest, times[1..], t);
    }
  }

  /** Outside configuration mode the cap never reaches a queued command: each
      poll puts ENTER_CONFIG back in front of it, so an unanswered device gets
      ENTER_CONFIG `maxRetries` times, the cap drops that ENTER_CONFIG, and
      the engine is back where it started, the command still queued and
      never sent. */
  lemma RetryCapStallsOutsideConfig(e: Engine, c: seq<byte>, rest: seq<seq<byte>>, times: seq<nat>, t: Timing)
    requires |c| > 0 && e.queue == [c] + rest && WellFormed(e.queue)
    requires !e.configMode && c[0] != EnterConfig
    requires e.retries == 0
    requires |times| == t.maxRetries + 1
    requires Spaced(e.lastSent, times, t.retryDelay)
    ensures Replay(e, times, t).1 == Repeat(EnterConfigCommand, t.maxRetries)
    ensures Replay(e, times, t).0.queue == e.queue
    ensures Replay(e, times, t).0.retries == 0 && !Replay(e, times, t).0.configMode
  {
    var step := QueueStep(e, times[0], t);
    if t.maxRetries == 0 {
      assert times[1..] == [];
      assert step.sent == None && step.engine.queue == e.queue;
    } else {
      assert step.sent == Some(EnterConfigCommand) && step.engine.queue == [EnterConfigCommand] + e.queue;
      RetryCapDrops(step.engine, EnterConfigCommand, e.queue, times[1..], t);
    }
  }

  /** A command queued outside configuration mode is preceded on the line by
      ENTER_CONFIG: the first transmission is ENTER_CONFIG, and the command
      stays queued right behind it. */
  lemma EnterConfigGoesFirst(e: Engine, c: seq<byte>, rest: seq<seq<byte>>, now: nat, t: Timing)
    requires |c| > 0 && e.queue == [c] + rest && WellFormed(e.queue)
    requires !e.configMode && c[0] != EnterConfig
    requires now - e.lastSent > t.retryDelay && e.retries < t.maxRetries
    ensures QueueStep(e, now, t).sent == Some(EnterConfigCommand)
    ensures QueueStep(e, now, t).engine.queue == [EnterConfigCommand, c] + rest
  {
  }

  /** Draining the queue in configuration mode appends LEAVE_CONFIG once: the
      next poll, once the delay has passed, sends it without appending
      another. */
  lemma {:induction false} LeaveConfigAppendedOnce(e: Engine, now1: nat, now2: nat, t: Timing)
    requires e.queue == [] && e.configMode
    requires now2 - e.lastSent > t.retryDelay && e.retries < t.maxRetries
    ensures QueueStep(e, now1, t).engine.queue == [LeaveConfigCommand]
    ensures QueueStep(QueueStep(e, now1, t).engine, now2, t).sent == Some(LeaveConfigCommand)
    ensures QueueStep(QueueStep(e, now1, t).engine, now2, t).engine.queue == [LeaveConfigCommand]
  {
    var e1 := QueueStep(e, now1, t).engine;
    assert e1.lastSent == e.lastSent && e1.retries == e.retries;
    assert Injected(e1) == [LeaveConfigCommand];
  }

  /** An acknowledged ENTER_CONFIG puts the engine in configuration mode with
      the next command at the front and a fresh retry count, so that command
      goes out on the next poll. */
  lemma {:induction false} AckOfEnterReleasesNext(e: Engine, c: seq<byte>, rest: seq<seq<byte>>, msg: seq<byte>, now: nat, t: Timing)
    requires e.queue == [EnterConfigCommand, c] + rest && WellFormed(e.queue)
    requires |msg| >= 2 && msg[0] == EnterConfig && msg[1] == 0x01
    requires now > t.retryDelay && t.maxRetries > 0
    ensures AckStep(e, msg).configMode && AckStep(e, msg).queue == [c] + rest
    ensures QueueStep(AckStep(e, msg), now, t).sent == Some(c)
  {
    var e1 := AckStep(e, msg);
    assert Acknowledges(e.queue, msg);
    assert e1.queue == [c] + rest && e1.lastSent == 0 && e1.retries == 0;
    assert Injected(e1) == e1.queue;
  }
}
