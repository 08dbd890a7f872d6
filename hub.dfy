/** The LD2450 hub: one poll of `loop` runs the command-queue engine, the
    header scanner, the target-frame reader and the config-frame reader in
    that order, over the hub's fields. The phases are specified on a value
    `State` holding exactly those fields; the class `LD2450` keeps them as
    its own fields and each of its methods is proved to perform its phase. */
module Hub {
  import opened Wire
  import opened Targets
  import opened FrameSync
  import opened Commands

  /** The settings the integration layer supplies once. */
  datatype Settings = Settings(gating: Gating, timing: Timing, presence: PresenceRule)

  /** The hub's mutable state: the slots and occupancy, `peek_status_`,
      `configuration_message_length_`, the command engine, and the serial
      line (everything received with the read cursor; everything written). */
  datatype State = State(
    targets: seq<Target>, occupied: bool,
    pending: Pending, configLength: nat,
    engine: Engine,
    rx: seq<byte>, cursor: nat, tx: seq<byte>)

  /** The invariant every poll keeps. */
  predicate StateValid(s: State, t: Timing) {
    |s.targets| >= 3 && s.cursor <= |s.rx| && EngineValid(s.engine, t) &&
    (s.pending != ConfigFrame ==> s.configLength == 0)
  }

  /** Lines 73-105 of `loop`: the queue engine, whose transmission is a
      command frame on the line. */
  function CommandPhase(s: State, now: nat, cfg: Settings): (r: State)
    requires StateValid(s, cfg.timing)
    ensures StateValid(r, cfg.timing)
    ensures r.targets == s.targets && r.occupied == s.occupied && r.pending == s.pending &&
            r.configLength == s.configLength && r.rx == s.rx && r.cursor == s.cursor
    ensures r.engine == QueueStep(s.engine, now, cfg.timing).engine
    ensures var sent := QueueStep(s.engine, now, cfg.timing).sent;
      r.tx == s.tx + (if sent.Some? then CommandFrame(sent.value) else [])
  {
    var c := QueueStep(s.engine, now, cfg.timing);
    s.(engine := c.engine, tx := s.tx + (if c.sent.Some? then CommandFrame(c.sent.value) else []))
  }

  /** Lines 108-135: the header scanner, which runs only with nothing pending. */
  function ScanPhase(s: State, cfg: Settings): (r: State)
    requires StateValid(s, cfg.timing)
    ensures StateValid(r, cfg.timing)
    ensures s.pending != NoFrame ==> r == s
    ensures s.pending == NoFrame ==> r == s.(cursor := Scan(s.rx, s.cursor).0, pending := Scan(s.rx, s.cursor).1)
  {
    if s.pending != NoFrame then s
    else
      var (c, p) := Scan(s.rx, s.cursor);
      s.(cursor := c, pending := p)
  }

  /** Whether the target-frame reader runs: a target header is pending and
      at least 28 bytes are available. */
  predicate UpdateReady(s: State)
    requires s.cursor <= |s.rx|
  {
    s.pending == UpdateFrame && |s.rx| - s.cursor >= 28
  }

  /** The fields the target-frame reader writes: the cursor,
      `peek_status_`, the slots and `is_occupied_`. */
  datatype UpdateFields = UpdateFields(cursor: nat, pending: Pending, targets: seq<Target>, occupied: bool)

  /** Lines 137-148 on the fields they write: with a target header pending
      and 28 bytes available, 26 bytes are consumed and the classification
      reset, and the slots are gated against them when the trailer is 55 CC. */
  function TargetFrame(rx: seq<byte>, f: UpdateFields, cfg: Settings): (r: UpdateFields)
    requires f.cursor <= |rx| && |f.targets| >= 3
    ensures r.cursor <= |rx| && |r.targets| == |f.targets|
  {
    if f.pending == UpdateFrame && |rx| - f.cursor >= 28 then
      if rx[f.cursor + 24] != UpdateTrailer[0] || rx[f.cursor + 25] != UpdateTrailer[1] then f.(cursor := f.cursor + 26, pending := NoFrame)
      else
        var ts := TargetsAfter(f.targets, rx[f.cursor..f.cursor + 26], cfg.gating, cfg.presence);
        UpdateFields(f.cursor + 26, NoFrame, ts, Occupied(ts))
    else f
  }

  /** Lines 137-148: the target-frame reader and `process_message`. */
  function UpdatePhase(s: State, cfg: Settings): (r: State)
    requires StateValid(s, cfg.timing)
    ensures StateValid(r, cfg.timing)
    ensures !UpdateReady(s) ==> r == s
    // exactly 26 bytes are consumed and the classification is reset
    ensures UpdateReady(s) ==> r.cursor == s.cursor + 26 && r.pending == NoFrame
    ensures r.engine == s.engine && r.tx == s.tx && r.rx == s.rx && r.configLength == s.configLength
    // the slots change only through a frame whose trailer is 55 CC
    ensures UpdateReady(s) && s.rx[s.cursor + 24] == UpdateTrailer[0] && s.rx[s.cursor + 25] == UpdateTrailer[1] ==>
      r.targets == TargetsAfter(s.targets, s.rx[s.cursor..s.cursor + 26], cfg.gating, cfg.presence) &&
      r.occupied == Occupied(r.targets)
    ensures !(UpdateReady(s) && s.rx[s.cursor + 24] == UpdateTrailer[0] && s.rx[s.cursor + 25] == UpdateTrailer[1]) ==>
      r.targets == s.targets && r.occupied == s.occupied
  {
    var f := TargetFrame(s.rx, UpdateFields(s.cursor, s.pending, s.targets, s.occupied), cfg);
    s.(cursor := f.cursor, pending := f.pending, targets := f.targets, occupied := f.occupied)
  }

  /** Lines 149-173: the config-frame reader and `process_config_message`. */
  function ConfigPhase(s: State, cfg: Settings): (r: State)
    requires StateValid(s, cfg.timing)
    ensures StateValid(r, cfg.timing)
    ensures r.targets == s.targets && r.occupied == s.occupied && r.tx == s.tx && r.rx == s.rx
    ensures s.pending != ConfigFrame ==> r == s
    ensures s.pending == ConfigFrame ==>
      var p := ReadConfig(s.rx, s.cursor, s.configLength);
      r.cursor == p.cursor && r.pending == p.pending && r.configLength == p.length &&
      r.engine == (if p.delivered.Some? then AckStep(s.engine, p.delivered.value) else s.engine)
  {
    if s.pending == ConfigFrame then
      var p := ReadConfig(s.rx, s.cursor, s.configLength);
      var e := if p.delivered.Some? then AckStep(s.engine, p.delivered.value) else s.engine;
      s.(cursor := p.cursor, pending := p.pending, configLength := p.length, engine := e)
    else s
  }

  /** A state that differs from `s` only where the header scanner writes,
      and there as the scanner leaves it, is the scan phase's result. */
  lemma ScanPhaseIs(s: State, r: State, cfg: Settings)
    requires StateValid(s, cfg.timing)
    requires r == s.(cursor := r.cursor, pending := r.pending)
    requires s.pending != NoFrame ==> r.cursor == s.cursor && r.pending == s.pending
    requires s.pending == NoFrame ==> (r.cursor, r.pending) == Scan(s.rx, s.cursor)
    ensures r == ScanPhase(s, cfg)
  {
  }

  /** Likewise for the config-frame reader: its result is fixed by the
      cursor, the classification, the cached length and the engine. */
  lemma ConfigPhaseIs(s: State, r: State, cfg: Settings)
    requires StateValid(s, cfg.timing)
    requires r == s.(cursor := r.cursor, pending := r.pending, configLength := r.configLength, engine := r.engine)
    requires s.pending != ConfigFrame ==>
      r.cursor == s.cursor && r.pending == s.pending && r.configLength == s.configLength && r.engine == s.engine
    requires s.pending == ConfigFrame ==>
      var p := ReadConfig(s.rx, s.cursor, s.configLength);
      r.cursor == p.cursor && r.pending == p.pending && r.configLength == p.length &&
      r.engine == (if p.delivered.Some? then AckStep(s.engine, p.delivered.value) else s.engine)
    ensures r == ConfigPhase(s, cfg)
  {
  }

  /** Lines 108-173: the receiving side of a poll, the header scanner and
      then the two frame readers. */
  function IncomingPhase(s: State, cfg: Settings): (r: State)
    requires StateValid(s, cfg.timing)
    ensures StateValid(r, cfg.timing)
    // nothing is written; the input is consumed in order, never re-read
    ensures r.tx == s.tx && r.rx == s.rx && s.cursor <= r.cursor
  {
    ConfigPhase(UpdatePhase(ScanPhase(s, cfg), cfg), cfg)
  }

  /** A whole target frame at the cursor, with nothing pending, is read in
      one poll: the scanner finds its header, the reader gates the slots
      against its payload, and 30 bytes are consumed. */
  lemma TargetFrameReadThrough(s: State, cfg: Settings, payload: seq<byte>, extra: seq<byte>)
    requires StateValid(s, cfg.timing) && s.pending == NoFrame
    requires |payload| == 24 && |extra| >= 2
    requires s.rx[s.cursor..] == UpdateHeader + payload + UpdateTrailer + extra
    ensures IncomingPhase(s, cfg).targets == TargetsAfter(s.targets, payload + UpdateTrailer, cfg.gating, cfg.presence)
    ensures IncomingPhase(s, cfg).occupied == Occupied(IncomingPhase(s, cfg).targets)
    ensures IncomingPhase(s, cfg).cursor == s.cursor + 30
  {
    TargetFrameBytes(s.rx, s.cursor, payload, extra);
    ScanFindsHeader(s.rx, s.cursor, UpdateHeader);
    var s1 := ScanPhase(s, cfg);
    assert s1.cursor == s.cursor + 4 && s1.pending == UpdateFrame;
    var s2 := UpdatePhase(s1, cfg);
    assert s2.pending == NoFrame && s2.cursor == s.cursor + 30;
  }

  /** The bytes of a whole target frame at `c`, as the readers index them. */
  lemma TargetFrameBytes(rx: seq<byte>, c: nat, payload: seq<byte>, extra: seq<byte>)
    requires c <= |rx| && |payload| == 24 && |extra| >= 2
    requires rx[c..] == UpdateHeader + payload + UpdateTrailer + extra
    ensures c + 32 <= |rx| && HeaderAt(rx, c, UpdateHeader)
    ensures rx[c + 28] == UpdateTrailer[0] && rx[c + 29] == UpdateTrailer[1]
    ensures rx[c + 4..c + 30] == payload + UpdateTrailer
  {
    var w := UpdateHeader + payload + UpdateTrailer + extra;
    assert forall k :: 0 <= k < |w| ==> rx[c + k] == w[k];
    assert w[0] == 0xAA && w[1] == 0xFF && w[2] == 0x03 && w[3] == 0x00;
    assert w[28] == 0x55 && w[29] == 0xCC;
    assert rx[c..][4..30] == w[4..30];
    assert w[4..30] == payload + UpdateTrailer;
  }

  /** One call of `loop` at time `now`. */
  function LoopStep(s: State, now: nat, cfg: Settings): (r: State)
    requires StateValid(s, cfg.timing)
    ensures StateValid(r, cfg.timing)
    // the input is consumed in order, never re-read
    ensures r.rx == s.rx && s.cursor <= r.cursor
    // the output is only appended to, by at most one command frame
    ensures |s.tx| <= |r.tx| && r.tx[..|s.tx|] == s.tx
    ensures r.tx == s.tx || exists m :: r.tx == s.tx + CommandFrame(m)
  {
    var s1 := CommandPhase(s, now, cfg);
    var r := IncomingPhase(s1, cfg);
    var sent := QueueStep(s.engine, now, cfg.timing).sent;
    assert sent.Some? ==> r.tx == s.tx + CommandFrame(sent.value);
    r
  }

  /** The driver, with the fields of its C++ class. */
  class LD2450 {
    const flipXAxis: bool
    const maxDetectionDistance: int
    const maxDistanceMargin: int
    const commandRetryDelay: nat
    const commandMaxRetries: nat
    /** The targets' own presence logic, which is not part of this model. */
    const presence: PresenceRule

    var targets: seq<Target>
    var isOccupied: bool
    var peekStatus: Pending
    var configurationMessageLength: nat
    var commandQueue: seq<seq<byte>>
    var commandSendRetries: nat
    var commandLastSent: nat
    var configurationMode: bool
    /** The UART: every byte received so far and the read cursor. */
    var rx: seq<byte>
    var cursor: nat
    /** Every byte written to the UART. */
    var tx: seq<byte>

    function Config(): Settings {
      Settings(Gating(flipXAxis, maxDetectionDistance, maxDistanceMargin),
               Timing(commandRetryDelay, commandMaxRetries), presence)
    }

    ghost function EngineState(): Engine
      reads this
    {
      Engine(commandQueue, commandSendRetries, commandLastSent, configurationMode)
    }

    ghost function Snapshot(): State
      reads this
    {
      State(targets, isOccupied, peekStatus, configurationMessageLength, EngineState(), rx, cursor, tx)
    }

    ghost predicate Valid()
      reads this
    {
      StateValid(Snapshot(), Config().timing)
    }

    /** The command engine's part of the invariant. */
    ghost predicate EngineOk()
      reads this
    {
      EngineValid(EngineState(), Config().timing)
    }

    /** A hub with its three slots, as `setup` leaves them, and nothing
        queued, pending, received or sent. */
    constructor (flipXAxis: bool, maxDetectionDistance: int, maxDistanceMargin: int,
                 commandRetryDelay: nat, commandMaxRetries: nat, presence: PresenceRule)
      ensures Valid()
      ensures Config() == Settings(Gating(flipXAxis, maxDetectionDistance, maxDistanceMargin),
                                   Timing(commandRetryDelay, commandMaxRetries), presence)
      ensures Snapshot() == State([Cleared, Cleared, Cleared], false, NoFrame, 0, Engine([], 0, 0, false), [], 0, [])
    {
      this.flipXAxis := flipXAxis;
      this.maxDetectionDistance := maxDetectionDistance;
      this.maxDistanceMargin := maxDistanceMargin;
      this.commandRetryDelay := commandRetryDelay;
      this.commandMaxRetries := commandMaxRetries;
      this.presence := presence;
      targets := [Cleared, Cleared, Cleared];
      isOccupied := false;
      peekStatus := NoFrame;
      configurationMessageLength := 0;
      commandQueue := [];
      commandSendRetries := 0;
      commandLastSent := 0;
      configurationMode := false;
      rx := [];
      cursor := 0;
      tx := [];
    }

    /** Bytes arriving on the UART. */
    method Receive(bytes: seq<byte>)
      requires Valid()
      modifies this`rx
      ensures Valid()
      ensures Snapshot() == old(Snapshot()).(rx := old(rx) + bytes)
    {
      rx := rx + bytes;
    }

    /** A command handed to the hub by the integration layer. */
    method EnqueueCommand(command: seq<byte>)
      requires Valid() && |command| > 0
      modifies this`commandQueue
      ensures Valid()
      ensures Snapshot() == old(Snapshot()).(engine := old(EngineState()).(queue := old(commandQueue) + [command]))
    {
      commandQueue := commandQueue + [command];
    }

    function Available(): nat
      reads this
      requires cursor <= |rx|
    {
      |rx| - cursor
    }

    function Peek(): byte
      reads this
      requires cursor < |rx|
    {
      rx[cursor]
    }

    method Read() returns (b: byte)
      requires cursor < |rx|
      modifies this`cursor
      ensures b == rx[old(cursor)] && cursor == old(cursor) + 1
    {
      b := rx[cursor];
      cursor := cursor + 1;
    }

    method ReadArray(n: nat) returns (bytes: seq<byte>)
      requires cursor + n <= |rx|
      modifies this`cursor
      ensures bytes == rx[old(cursor)..old(cursor) + n] && cursor == old(cursor) + n
    {
      bytes := rx[cursor..cursor + n];
      cursor := cursor + n;
    }

    /** `loop`. */
    method Loop(now: nat)
      requires Valid()
      modifies this
      ensures Valid()
      ensures Snapshot() == LoopStep(old(Snapshot()), now, Config())
    {
      CommandPhaseStep(now);
      ReadIncoming();
    }

    /** Lines 108-173 of `loop`. */
    method ReadIncoming()
      requires Valid()
      modifies this
      ensures Valid()
      ensures Snapshot() == IncomingPhase(old(Snapshot()), Config())
    {
      ScanPhaseStep();
      UpdatePhaseStep();
      // after a bad 55 CC trailer the driver returns here; with nothing
      // pending the config-frame reader does nothing anyway
      ConfigPhaseStep();
    }

    /** The header scanner as a phase of the hub's state. */
    method ScanPhaseStep()
      requires Valid()
      modifies this`cursor, this`peekStatus
      ensures Valid()
      ensures Snapshot() == ScanPhase(old(Snapshot()), Config())
    {
      ghost var s := Snapshot();
      ScanHeader();
      ScanPhaseIs(s, Snapshot(), Config());
    }

    /** The target-frame reader as a phase of the hub's state. */
    method UpdatePhaseStep()
      requires Valid()
      modifies this`cursor, this`peekStatus, this`targets, this`isOccupied
      ensures Valid()
      ensures Snapshot() == UpdatePhase(old(Snapshot()), Config())
    {
      ReadUpdateFrame();
    }

    /** The config-frame reader as a phase of the hub's state. */
    method ConfigPhaseStep()
      requires Valid()
      modifies this`cursor, this`peekStatus, this`configurationMessageLength
      modifies this`commandQueue, this`commandSendRetries, this`commandLastSent, this`configurationMode
      ensures Valid()
      ensures Snapshot() == ConfigPhase(old(Snapshot()), Config())
    {
      ghost var s := Snapshot();
      ReadConfigFrame();
      ConfigPhaseIs(s, Snapshot(), Config());
    }

    /** The queue engine as a phase of the hub's state. */
    method CommandPhaseStep(now: nat)
      requires Valid()
      modifies this`commandQueue, this`commandSendRetries, this`commandLastSent, this`tx
      ensures Valid()
      ensures Snapshot() == CommandPhase(old(Snapshot()), now, Config())
    {
      ProcessCommandQueue(now);
    }

    /** Lines 73-105 of `loop`. */
    method ProcessCommandQueue(now: nat)
      requires EngineOk()
      modifies this`commandQueue, this`commandSendRetries, this`commandLastSent, this`tx
      ensures EngineOk()
      ensures EngineState() == QueueStep(old(EngineState()), now, Config().timing).engine
      ensures var sent := QueueStep(old(EngineState()), now, Config().timing).sent;
        tx == old(tx) + (if sent.Some? then CommandFrame(sent.value) else [])
    {
      ghost var e0 := EngineState();
      if |commandQueue| > 0 {
        if !configurationMode && commandQueue[0][0] != EnterConfig {
          commandQueue := [EnterConfigCommand] + commandQueue;
        }
        assert commandQueue == Injected(e0);
        if now - commandLastSent > commandRetryDelay {
          if commandSendRetries >= commandMaxRetries {
            commandQueue := commandQueue[1..];
            commandSendRetries := 0;
          } else {
            var command := commandQueue[0];
            WriteCommand(command);
            commandLastSent := now;
            commandSendRetries := commandSendRetries + 1;
          }
        }
      } else if configurationMode {
        commandQueue := commandQueue + [LeaveConfigCommand];
      }
    }

    /** Lines 108-135 of `loop`. */
    method ScanHeader()
      requires cursor <= |rx|
      modifies this`cursor, this`peekStatus
      ensures old(peekStatus) != NoFrame ==> cursor == old(cursor) && peekStatus == old(peekStatus)
      ensures old(peekStatus) == NoFrame ==> (cursor, peekStatus) == Scan(rx, old(cursor))
    {
      ghost var c0, p0 := cursor, peekStatus;
      while peekStatus == NoFrame && Available() >= 4
        invariant c0 <= cursor <= |rx|
        invariant p0 != NoFrame ==> cursor == c0 && peekStatus == p0
        invariant p0 == NoFrame && peekStatus == NoFrame ==> Scan(rx, cursor) == Scan(rx, c0)
        invariant p0 == NoFrame && peekStatus != NoFrame ==> (cursor, peekStatus) == Scan(rx, c0)
        decreases |rx| - cursor
      {
        ScanOnce();
      }
    }

    /** One pass of the scanner's loop body (lines 110-134): the header the
        byte at the cursor could start is matched, and recorded when all
        four bytes match. */
    method ScanOnce()
      requires peekStatus == NoFrame && cursor + 4 <= |rx|
      modifies this`cursor, this`peekStatus
      ensures old(cursor) < cursor <= |rx|
      ensures peekStatus == NoFrame ==> Scan(rx, cursor) == Scan(rx, old(cursor))
      ensures peekStatus != NoFrame ==> (cursor, peekStatus) == Scan(rx, old(cursor))
    {
      ghost var start := cursor;
      var header: seq<byte>;
      var target: Pending;
      if Peek() == UpdateHeader[0] {
        header := UpdateHeader;
        target := UpdateFrame;
      } else {
        header := ConfigHeader;
        target := ConfigFrame;
      }
      var skip := MatchHeader(header);
      if skip {
        ScanAfterMismatch(rx, start, cursor - start - 1);
        return;
      }
      ScanAfterMatch(rx, start);
      peekStatus := target;
    }

    /** The `for` loop of lines 125-129: read the header's bytes until one
        of them mismatches. */
    method MatchHeader(header: seq<byte>) returns (skip: bool)
      requires |header| == 4 && cursor + 4 <= |rx|
      modifies this`cursor
      ensures var m := FirstMismatch(rx, old(cursor), header, 0);
        skip == (m < 4) && cursor == old(cursor) + (if m < 4 then m + 1 else 4)
    {
      ghost var start := cursor;
      skip := false;
      var i := 0;
      while i < 4 && !skip
        invariant 0 <= i <= 4 && cursor == start + i
        invariant !skip ==> FirstMismatch(rx, start, header, 0) == FirstMismatch(rx, start, header, i)
        invariant skip ==> 1 <= i && FirstMismatch(rx, start, header, 0) == i - 1
      {
        var b := Read();
        if b != header[i] {
          skip := true;
        }
        i := i + 1;
      }
    }

    /** Lines 137-148 of `loop`. */
    method ReadUpdateFrame()
      requires cursor <= |rx| && |targets| >= 3
      modifies this`cursor, this`peekStatus, this`targets, this`isOccupied
      ensures UpdateFields(cursor, peekStatus, targets, isOccupied) ==
        TargetFrame(rx, old(UpdateFields(cursor, peekStatus, targets, isOccupied)), Config())
    {
      if peekStatus == UpdateFrame && Available() >= 28 {
        var msg := ReadArray(26);
        peekStatus := NoFrame;
        if msg[24] != UpdateTrailer[0] || msg[25] != UpdateTrailer[1] {
          return;
        }
        var count := ProcessMessage(msg);
      }
    }

    /** Lines 149-173 of `loop`. */
    method ReadConfigFrame()
      requires cursor <= |rx| && EngineOk()
      modifies this`cursor, this`peekStatus, this`configurationMessageLength
      modifies this`commandQueue, this`commandSendRetries, this`commandLastSent, this`configurationMode
      ensures EngineOk()
      ensures old(peekStatus) != ConfigFrame ==>
        cursor == old(cursor) && peekStatus == old(peekStatus) &&
        configurationMessageLength == old(configurationMessageLength) && EngineState() == old(EngineState())
      ensures old(peekStatus) == ConfigFrame ==>
        var p := ReadConfig(rx, old(cursor), old(configurationMessageLength));
        cursor == p.cursor && peekStatus == p.pending && configurationMessageLength == p.length &&
        EngineState() == (if p.delivered.Some? then AckStep(old(EngineState()), p.delivered.value) else old(EngineState()))
    {
      if peekStatus == ConfigFrame && (Available() >= 2 || configurationMessageLength > 0) {
        ReadConfigPayload();
      }
    }

    /** Lines 151-172: the body of the config-frame reader, once it has
        something to do. */
    method ReadConfigPayload()
      requires cursor <= |rx| && ConfigReady(rx, cursor, configurationMessageLength) && EngineOk()
      requires peekStatus == ConfigFrame
      modifies this`cursor, this`peekStatus, this`configurationMessageLength
      modifies this`commandQueue, this`commandSendRetries, this`commandLastSent, this`configurationMode
      ensures EngineOk()
      ensures var p := ReadConfig(rx, old(cursor), old(configurationMessageLength));
        cursor == p.cursor && peekStatus == p.pending && configurationMessageLength == p.length &&
        EngineState() == (if p.delivered.Some? then AckStep(old(EngineState()), p.delivered.value) else old(EngineState()))
    {
      ReadConfigLength();
      AwaitConfigFrame();
    }

    /** Lines 159-172: the frame is consumed once payload and trailer are
        all there. */
    method AwaitConfigFrame()
      requires cursor <= |rx| && EngineOk() && peekStatus == ConfigFrame
      modifies this`cursor, this`peekStatus, this`configurationMessageLength
      modifies this`commandQueue, this`commandSendRetries, this`commandLastSent, this`configurationMode
      ensures EngineOk()
      ensures var p := AwaitFrame(rx, old(cursor), old(configurationMessageLength));
        cursor == p.cursor && peekStatus == p.pending && configurationMessageLength == p.length &&
        EngineState() == (if p.delivered.Some? then AckStep(old(EngineState()), p.delivered.value) else old(EngineState()))
    {
      if Available() >= configurationMessageLength + 4 {
        ConsumeConfigFrame(configurationMessageLength);
      }
    }

    /** Lines 151-157: the payload length is read unless one is cached. */
    method ReadConfigLength()
      requires cursor <= |rx| && ConfigReady(rx, cursor, configurationMessageLength)
      modifies this`cursor, this`configurationMessageLength
      ensures configurationMessageLength == FrameLength(rx, old(cursor), old(configurationMessageLength))
      ensures cursor == old(cursor) + (if old(configurationMessageLength) == 0 then 2 else 0)
    {
      if configurationMessageLength == 0 {
        var contentLength := ReadArray(2);
        configurationMessageLength := Word(contentLength[0], contentLength[1]);
      }
    }

    /** Lines 160-172: a complete config frame of payload length `n` is
        consumed, handed on when its trailer is right, and the reader reset. */
    method ConsumeConfigFrame(n: nat)
      requires EngineOk() && cursor + n + 4 <= |rx|
      modifies this`cursor, this`peekStatus, this`configurationMessageLength
      modifies this`commandQueue, this`commandSendRetries, this`commandLastSent, this`configurationMode
      ensures EngineOk()
      ensures cursor == old(cursor) + n + 4 && peekStatus == NoFrame && configurationMessageLength == 0
      ensures var msg := rx[old(cursor)..old(cursor) + n + 4];
        EngineState() == if HasConfigTrailer(msg, n) then AckStep(old(EngineState()), msg) else old(EngineState())
    {
      var msg := ReadArray(n + 4);
      if msg[n] == 0x04 && msg[n + 1] == 0x03 && msg[n + 2] == 0x02 && msg[n + 3] == 0x01 {
        ProcessConfigMessage(msg);
      }
      configurationMessageLength := 0;
      peekStatus := NoFrame;
    }

    /** `process_message`: gate the three slots against the payload, then
        count the present slots; the count is what the driver publishes to
        its target-count sensor. */
    method ProcessMessage(msg: seq<byte>) returns (targetCount: nat)
      requires |msg| >= 24 && |targets| >= 3
      modifies this`targets, this`isOccupied
      ensures targets == TargetsAfter(old(targets), msg, Config().gating, presence)
      ensures targetCount == CountPresent(targets)
      ensures isOccupied == Occupied(targets)
      ensures isOccupied <==> exists i :: 0 <= i < |targets| && targets[i].present
    {
      ghost var before := targets;
      for i := 0 to 3
        invariant |targets| == |before|
        invariant forall j :: 0 <= j < i ==> targets[j] == SlotAfter(before[j], DecodeRecord(msg, 8 * j), Config().gating, presence)
        invariant forall j :: i <= j < |targets| ==> targets[j] == before[j]
      {
        ProcessSlot(msg, i);
      }
      TargetsAfterSlots(before, msg, Config().gating, presence);
      assert targets == TargetsAfter(before, msg, Config().gating, presence);
      targetCount := CountTargets();
      isOccupied := targetCount > 0;
    }

    /** One iteration of the first loop of `process_message`: slot `i`
        against the record at `8 * i`. */
    method ProcessSlot(msg: seq<byte>, i: nat)
      requires |msg| >= 24 && i < 3 && i < |targets|
      modifies this`targets
      ensures targets == old(targets)[i := SlotAfter(old(targets)[i], DecodeRecord(msg, 8 * i), Config().gating, presence)]
    {
      var offset := 8 * i;
      var x := DecodeX(msg[offset], msg[offset + 1]);
      var y := DecodeY(msg[offset + 2], msg[offset + 3]);
      var speed := DecodeSpeed(msg[offset + 4], msg[offset + 5]);
      var distanceResolution := Word(msg[offset + 6], msg[offset + 7]);

      // mirrored when the sensor is mounted the other way round
      x := Int16(x * (if flipXAxis then -1 else 1));
      var reading := Reading(x, y, speed, distanceResolution);
      assert reading == Flipped(DecodeRecord(msg, offset), flipXAxis);

      targets := targets[i := UpdateValues(targets[i], reading, presence)];

      // keep within D, or within D + M if already present; clear from D + M on
      if y <= maxDetectionDistance || (targets[i].present && y <= maxDetectionDistance + maxDistanceMargin) {
        targets := targets[i := UpdateValues(targets[i], reading, presence)];
      } else if y >= maxDetectionDistance + maxDistanceMargin {
        targets := targets[i := Cleared];
      }
    }

    /** The second loop of `process_message`: the number of present slots. */
    method CountTargets() returns (targetCount: nat)
      ensures targetCount == CountPresent(targets)
      ensures targetCount > 0 <==> exists i :: 0 <= i < |targets| && targets[i].present
    {
      targetCount := 0;
      for j := 0 to |targets|
        invariant targetCount == CountPresent(targets[..j])
      {
        assert targets[..j + 1][..j] == targets[..j];
        if targets[j].present {
          targetCount := targetCount + 1;
        }
      }
      assert targets[..|targets|] == targets;
    }

    /** `process_config_message`. The driver reads `front()` before testing
        the queue's size; here the front is read only when there is one. */
    method ProcessConfigMessage(msg: seq<byte>)
      requires EngineOk() && |msg| >= 2
      modifies this`commandQueue, this`commandSendRetries, this`commandLastSent, this`configurationMode
      ensures EngineOk()
      ensures EngineState() == AckStep(old(EngineState()), msg)
    {
      // an ack of the front command releases it and resets its retries
      if |commandQueue| > 0 && commandQueue[0][0] == msg[0] && msg[1] == 0x01 {
        commandQueue := commandQueue[1..];
        commandSendRetries := 0;
        commandLastSent := 0;
      }
      if msg[0] == EnterConfig && msg[1] == 0x01 {
        configurationMode := true;
      }
      if msg[0] == LeaveConfig && msg[1] == 0x01 {
        configurationMode := false;
      }
      // a READ_VERSION reply is only logged
    }

    /** `write_command`: the frame is written field by field. */
    method WriteCommand(msg: seq<byte>)
      modifies this`tx
      ensures tx == old(tx) + CommandFrame(msg)
    {
      tx := tx + ConfigHeader;
      // the length, low byte first; the high byte is `len << 8` narrowed
      tx := tx + [|msg| % 0x100];
      tx := tx + [(|msg| * 0x100) % 0x100];
      tx := tx + msg;
      tx := tx + ConfigTrailer;
    }
  }
}
