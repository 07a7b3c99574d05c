// The driver object: its command queue and counter, one step of each of
// its loops (processor, parser, poller) and its read-only queries.

module Vfd {
  import opened Wrappers
  import opened Crc16
  import opened Gcode
  import opened Commands
  import opened Telemetry

  /** Capacity of the command channel. */
  const Capacity := 10

  /** Size of the parser's receive buffer: one read returns at most this many bytes. */
  const RxSize := 10

  const Int32Modulus := 0x1_0000_0000
  const Int32Min := -0x8000_0000

  /** The int32 a Go addition on int32 values yields for the exact sum `x`. */
  function Wrap32(x: int): (r: int)
    ensures Int32Min <= r < Int32Min + Int32Modulus
    ensures (r - x) % Int32Modulus == 0
  {
    (x - Int32Min) % Int32Modulus + Int32Min
  }

  /** Two int32 values that agree modulo 2^32 are equal. */
  lemma Wrap32Unique(x: int, r: int)
    requires Int32Min <= r < Int32Min + Int32Modulus
    requires (r - x) % Int32Modulus == 0
    ensures Wrap32(x) == r
  {
    var w := Wrap32(x);
    var k1 := (r - x) / Int32Modulus;
    var k2 := (w - x) / Int32Modulus;
    assert r - x == k1 * Int32Modulus;
    assert w - x == k2 * Int32Modulus;
    assert r - w == (k1 - k2) * Int32Modulus;
  }

  /** Wrapping an intermediate sum does not change the final int32. */
  lemma Wrap32Add(x: int, y: int)
    ensures Wrap32(Wrap32(x) + y) == Wrap32(x + y)
  {
    var w := Wrap32(x);
    var r := Wrap32(x + y);
    var k1 := (w - x) / Int32Modulus;
    var k2 := (r - (x + y)) / Int32Modulus;
    assert w - x == k1 * Int32Modulus;
    assert r - (x + y) == k2 * Int32Modulus;
    assert r - (w + y) == (k2 - k1) * Int32Modulus;
    Wrap32Unique(w + y, r);
  }

  /** An int32 value wraps to itself. */
  lemma Wrap32Small(x: int)
    requires Int32Min <= x < Int32Min + Int32Modulus
    ensures Wrap32(x) == x
  {
    Wrap32Unique(x, x);
  }

  function Min(a: int, b: int): int {
    if a <= b then a else b
  }

  /** The queue after offering `ts`, in order, with non-blocking sends:
      a token enters while there is room and is dropped otherwise. */
  function Admit(q: seq<string>, ts: seq<string>): seq<string>
    decreases |ts|
  {
    if ts == [] then q
    else if |q| < Capacity then Admit(q + [ts[0]], ts[1..])
    else Admit(q, ts[1..])
  }

  /** Offering tokens to a queue within capacity appends the longest prefix
      of them that fits and drops the rest. */
  lemma {:induction false} AdmitPrefix(q: seq<string>, ts: seq<string>)
    requires |q| <= Capacity
    ensures Admit(q, ts) == q + ts[..Min(Capacity - |q|, |ts|)]
    decreases |ts|
  {
    if ts != [] {
      if |q| < Capacity {
        AdmitPrefix(q + [ts[0]], ts[1..]);
        assert [ts[0]] + ts[1..][..Min(Capacity - |q| - 1, |ts| - 1)] == ts[..Min(Capacity - |q|, |ts|)];
      } else {
        AdmitPrefix(q, ts[1..]);
      }
    }
  }

  /** GCode's admission of tokens `ts` to a channel holding `q`, with
      counter `counter`: the counter first grows by the number of tokens,
      then every token that finds the channel full is dropped and counted
      off again. Returns the new channel contents, the new counter and
      whether every token fitted. */
  method Offer(q: seq<string>, counter: int, ts: seq<string>) returns (r: seq<string>, c: int, ok: bool)
    requires |q| <= Capacity && counter == |q|
    ensures r == q + ts[..Min(Capacity - |q|, |ts|)]
    ensures c == |r|
    ensures ok <==> |q| + |ts| <= Capacity
  {
    ok := true;
    r, c := q, counter;
    Wrap32Add(|ts|, c);
    c := Wrap32(c + Wrap32(|ts|));
    var i := 0;
    while i < |ts|
      invariant 0 <= i <= |ts|
      invariant |r| <= Capacity && |r| == Min(Capacity, |q| + i)
      invariant Admit(r, ts[i..]) == Admit(q, ts)
      invariant c == Wrap32(|r| + |ts| - i)
      invariant ok <==> |q| + i <= Capacity
    {
      assert ts[i..][1..] == ts[i + 1..];
      if |r| < Capacity {
        r := r + [ts[i]];
      } else {
        ok := false;
        Wrap32Add(|r| + |ts| - i, -1);
        c := Wrap32(c - 1);
      }
      i := i + 1;
    }
    assert ts[i..] == [];
    Wrap32Small(|r|);
    AdmitPrefix(q, ts);
  }

  /** What the port receives for a frame that may be absent. */
  function Written(frame: Option<seq<Byte>>): (r: seq<seq<Byte>>)
    ensures |r| <= 1
    ensures r == [] <==> frame.None?
    ensures frame.Some? ==> r[0] == frame.value
  {
    match frame
    case Some(f) => [f]
    case None => []
  }

  /** The poller's command is a single token. */
  lemma QueryTokens(cmd: string)
    requires cmd == "?"
    ensures Tokens(cmd) == ["?"]
  {
    assert MatchAt(cmd) == None;
    assert Separate(cmd) == cmd by {
      assert Separate(cmd[1..]) == [];
    }
    FieldsAt(cmd, 0, 1);
    FieldsOfBlank(cmd[1..]);
  }

  /** The output frequency is within the band around the set frequency:
      0.9 * target <= out <= 1.1 * target, in exact arithmetic. */
  predicate InBand(target: Word, out: Word) {
    9 * (target as int) <= 10 * (out as int) <= 11 * (target as int)
  }

  /** Reaching the set frequency exactly is always within the band. */
  lemma InBandReached(f: Word)
    ensures InBand(f, f)
  {
  }

  /** With no speed set, only a stopped spindle is within the band. */
  lemma InBandStopped(out: Word)
    ensures InBand(0, out) <==> out == 0
  {
  }

  /** The three results of Processed. */
  datatype Status = Status(processed: bool, outputFrequencyOk: bool, commandsProcessed: bool)

  class HyInverter {
    /** The command channel's buffered tokens, oldest first. */
    var queue: seq<string>
    /** commandQueue: the int32 counter of tokens accepted but not yet interpreted. */
    var commandQueue: int
    var setFrequency: Word
    var outputFrequency: Word
    var outputRpm: Word
    /** Time of the last accepted answer; None before the first one. */
    var lastReceived: Option<int>
    /** The parser's accumulation buffer (modbusRtu). */
    var buffer: seq<Byte>
    /** Time of the parser's previous read. */
    var lastRead: int
    /** Every frame written to the port, in order. */
    ghost var written: seq<seq<Byte>>

    /** Poll interval, in milliseconds. */
    const pollInterval: int
    /** uint16(float32(rpm) * rpmToHertz): the set frequency for an rpm. */
    const frequency: Uint16 -> Word
    /** uint16(float32(f) / rpmToHertz): the rpm for an output frequency. */
    const rpm: Word -> Word

    /** Between calls the counter equals the number of queued tokens, and the
        channel never holds more than its capacity. */
    predicate Valid()
      reads this
    {
      |queue| <= Capacity && commandQueue == |queue|
    }

    /** The state Open leaves behind, with the parser started at `now`. */
    constructor (pollInterval: int, frequency: Uint16 -> Word, rpm: Word -> Word, now: int)
      ensures Valid()
      ensures queue == [] && commandQueue == 0
      ensures setFrequency == 0 && outputFrequency == 0 && outputRpm == 0
      ensures lastReceived == None && buffer == [] && lastRead == now && written == []
      ensures this.pollInterval == pollInterval && this.frequency == frequency && this.rpm == rpm
    {
      this.pollInterval := pollInterval;
      this.frequency := frequency;
      this.rpm := rpm;
      queue := [];
      commandQueue := 0;
      setFrequency := 0;
      outputFrequency := 0;
      outputRpm := 0;
      lastReceived := None;
      buffer := [];
      lastRead := now;
      written := [];
    }

    /** GCode: split the command into tokens and offer each to the channel.
        The tokens that fit are queued in order and counted; `ok` is false
        exactly when a token was dropped. */
    method GCode(cmd: string) returns (ok: bool)
      requires Valid()
      modifies this
      ensures Valid()
      ensures queue == old(queue) + Tokens(cmd)[..Min(Capacity - |old(queue)|, |Tokens(cmd)|)]
      ensures ok <==> |old(queue)| + |Tokens(cmd)| <= Capacity
      ensures commandQueue == old(commandQueue) + (|queue| - |old(queue)|)
      ensures setFrequency == old(setFrequency) && outputFrequency == old(outputFrequency)
      ensures outputRpm == old(outputRpm) && lastReceived == old(lastReceived)
      ensures buffer == old(buffer) && lastRead == old(lastRead) && written == old(written)
    {
      queue, commandQueue, ok := Offer(queue, commandQueue, Tokens(cmd));
    }

    /** One pass of the processor loop: take the oldest token, count it off,
        and write the frame its command calls for; a speed command also
        records the set frequency. Any other token only leaves the queue. */
    method ProcessorStep()
      requires Valid() && queue != []
      modifies this
      ensures Valid()
      ensures queue == old(queue[1..])
      ensures var c := Classify(Normalize(old(queue[0])));
        && written == old(written) + Written(Frame(c, frequency))
        && setFrequency == (if c.SetSpeed? then frequency(c.rpm) else old(setFrequency))
      ensures outputFrequency == old(outputFrequency) && outputRpm == old(outputRpm)
      ensures lastReceived == old(lastReceived) && buffer == old(buffer) && lastRead == old(lastRead)
    {
      var cmd := queue[0];
      queue := queue[1..];
      Wrap32Small(commandQueue - 1);
      commandQueue := Wrap32(commandQueue - 1);
      var c := Classify(Normalize(cmd));
      written := written + Written(Frame(c, frequency));
      if c.SetSpeed? {
        setFrequency := frequency(c.rpm);
      }
    }

    /** One pass of the poller: queue a status request. */
    method PollStep()
      requires Valid()
      modifies this
      ensures Valid()
      ensures queue == old(queue) + (if |old(queue)| < Capacity then ["?"] else [])
      ensures setFrequency == old(setFrequency) && outputFrequency == old(outputFrequency)
      ensures outputRpm == old(outputRpm) && lastReceived == old(lastReceived)
      ensures buffer == old(buffer) && lastRead == old(lastRead) && written == old(written)
    {
      QueryTokens("?");
      var _ := GCode("?");
    }

    /** parseModbusRTU: an accepted answer sets the output frequency, the
        output rpm and the time of the last answer; anything else changes
        nothing. */
    method ParseModbusRtu(msg: seq<Byte>, now: int)
      modifies this
      ensures Accepts(msg) ==> && outputFrequency == ReadFrequency(msg)
                               && outputRpm == rpm(ReadFrequency(msg))
                               && lastReceived == Some(now)
      ensures !Accepts(msg) ==> && outputFrequency == old(outputFrequency)
                                && outputRpm == old(outputRpm)
                                && lastReceived == old(lastReceived)
      ensures queue == old(queue) && commandQueue == old(commandQueue)
      ensures setFrequency == old(setFrequency) && buffer == old(buffer)
      ensures lastRead == old(lastRead) && written == old(written)
    {
      if |msg| == ResponseLength {
        if msg[0] == 0x01 && msg[1] == 0x04 && msg[2] == 0x03 && msg[3] == 0x01 {
          var signTest := Crc16.Sign(msg[..6]);
          if signTest[6] == msg[6] && signTest[7] == msg[7] {
            outputFrequency := ((msg[4] as Word) << 8) | (msg[5] as Word);
            outputRpm := rpm(outputFrequency);
            lastReceived := Some(now);
          }
        }
      }
    }

    /** One pass of the parser loop: a read of `read` at time `now`, which
        failed if `failed`. */
    method ParserStep(now: int, read: seq<Byte>, failed: bool)
      requires |read| <= RxSize
      modifies this
      ensures buffer == Gather(old(buffer), old(lastRead), now, read, failed)
      ensures lastRead == now
      ensures Delivers(old(buffer), old(lastRead), now, read, failed) ==>
        && outputFrequency == ReadFrequency(buffer)
        && outputRpm == rpm(ReadFrequency(buffer))
        && lastReceived == Some(now)
      ensures !Delivers(old(buffer), old(lastRead), now, read, failed) ==>
        && outputFrequency == old(outputFrequency)
        && outputRpm == old(outputRpm)
        && lastReceived == old(lastReceived)
      ensures queue == old(queue) && commandQueue == old(commandQueue)
      ensures setFrequency == old(setFrequency) && written == old(written)
    {
      if now - lastRead > Gap {
        buffer := [];
      }
      if |read| > 0 && !failed {
        buffer := buffer + read;
        ParseModbusRtu(buffer, now);
      }
      lastRead := now;
    }

    function OutputFrequency(): Word
      reads this
    {
      outputFrequency
    }

    function OutputRpm(): Word
      reads this
    {
      outputRpm
    }

    /** Online: an answer arrived less than two poll intervals before `now`. */
    predicate Online(now: int)
      reads this
    {
      match lastReceived
      case None => false
      case Some(t) => now - t < 2 * pollInterval
    }

    /** Processed: the output frequency is within the band around the set
        frequency, and no command is waiting. */
    function Processed(): (s: Status)
      reads this
      ensures s.processed <==> s.outputFrequencyOk && s.commandsProcessed
      ensures s.outputFrequencyOk <==> InBand(setFrequency, outputFrequency)
      ensures s.commandsProcessed <==> commandQueue == 0
      ensures Valid() ==> (s.commandsProcessed <==> queue == [])
    {
      var outputFrequencyOk := InBand(setFrequency, outputFrequency);
      var commandsProcessed := commandQueue == 0;
      Status(outputFrequencyOk && commandsProcessed, outputFrequencyOk, commandsProcessed)
    }
  }

  /** Between calls, commands count as processed exactly when the queue is
      empty. */
  lemma ProcessedIffDrained(v: HyInverter)
    requires v.Valid()
    ensures v.Processed().commandsProcessed <==> v.queue == []
    ensures v.Processed().processed <==> v.queue == [] && InBand(v.setFrequency, v.outputFrequency)
  {
  }

  /** An answer to the status request, arriving in one read after a pause,
      puts its frequency in OutputFrequency, the converted speed in
      OutputRpm, and makes the driver online for two poll intervals. */
  lemma AnswerSeen(v: HyInverter, f: Word, now: int, later: int)
    requires v.buffer == Response(f) && v.lastReceived == Some(now)
    requires v.outputFrequency == ReadFrequency(v.buffer)
    requires v.outputRpm == v.rpm(ReadFrequency(v.buffer))
    ensures v.OutputFrequency() == f
    ensures v.OutputRpm() == v.rpm(f)
    ensures v.Online(later) <==> later - now < 2 * v.pollInterval
  {
    ResponseAccepted(f);
  }

  /** Before the first accepted answer the driver is offline, whatever the
      time. */
  lemma OfflineUntilAnswer(v: HyInverter, now: int)
    requires v.lastReceived.None?
    ensures !v.Online(now)
  {
  }

  /** Without a new answer, a driver that has gone offline stays offline. */
  lemma OnlineFades(v: HyInverter, now: int, later: int)
    requires now <= later
    ensures !v.Online(now) ==> !v.Online(later)
  {
  }
}
