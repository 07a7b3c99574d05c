/** The interpreter's view of one queued token: it is lower-cased and
    trimmed, then compared against the fixed command spellings, and every
    recognised command is turned into the Modbus request payload the
    inverter understands. */
module Commands {
  import opened Wrappers
  import opened Crc16
  import opened Gcode

  /** The range of Go's uint16, for numbers the model computes with. */
  type Uint16 = x: int | 0 <= x < 0x1_0000

  // ---------------------------------------------------------------------
  // strings.ToLower and strings.TrimSpace, on ASCII

  function LowerChar(c: char): char {
    if 'A' <= c <= 'Z' then (c as int + 32) as char else c
  }

  function ToLower(s: string): string
    decreases |s|
  {
    if s == [] then [] else [LowerChar(s[0])] + ToLower(s[1..])
  }

  /** ToLower keeps the length, turns each upper-case letter into the
      lower-case one 32 code points above it, leaves no upper-case letter,
      changes nothing but upper-case letters, and so is idempotent. */
  lemma {:induction false} ToLowerSpec(s: string)
    ensures |ToLower(s)| == |s|
    ensures forall k :: 0 <= k < |s| && 'A' <= s[k] <= 'Z' ==> ToLower(s)[k] == (s[k] as int + 32) as char
    ensures forall k :: 0 <= k < |s| ==> !('A' <= ToLower(s)[k] <= 'Z')
    ensures forall k :: 0 <= k < |s| && !('A' <= s[k] <= 'Z') ==> ToLower(s)[k] == s[k]
    ensures ToLower(ToLower(s)) == ToLower(s)
    decreases |s|
  {
    if s != [] {
      ToLowerSpec(s[1..]);
      var r := ToLower(s);
      assert r == [LowerChar(s[0])] + ToLower(s[1..]);
      assert r[1..] == ToLower(s[1..]);
      assert forall k :: 1 <= k < |s| ==> r[k] == ToLower(s[1..])[k - 1];
      assert ToLower(r) == [LowerChar(r[0])] + ToLower(r[1..]);
    }
  }

  /** Lower-casing never turns a character into white space or back. */
  lemma {:induction false} ToLowerNoSpace(s: string)
    requires NoSpace(s)
    ensures NoSpace(ToLower(s))
    decreases |s|
  {
    if s != [] {
      assert In(NonSpace, s[0]);
      assert NoSpace(s[1..]) by {
        forall k | 0 <= k < |s| - 1
          ensures In(NonSpace, s[1..][k])
        {
          assert s[1..][k] == s[k + 1];
        }
      }
      ToLowerNoSpace(s[1..]);
      var r := ToLower(s);
      assert r == [LowerChar(s[0])] + ToLower(s[1..]);
      forall k | 0 <= k < |r|
        ensures In(NonSpace, r[k])
      {
        if k > 0 {
          assert r[k] == ToLower(s[1..])[k - 1];
        }
      }
    }
  }

  /** The number of white-space characters at the end of `s`. */
  function TrailingSpace(s: string): (n: nat)
    ensures n <= |s|
    decreases |s|
  {
    if s != [] && IsSpace(s[|s| - 1]) then 1 + TrailingSpace(s[..|s| - 1]) else 0
  }

  /** strings.TrimSpace: `s` without its leading and trailing white space. */
  function TrimSpace(s: string): string {
    var t := s[Span(s, 0, Space)..];
    t[..|t| - TrailingSpace(t)]
  }

  lemma {:induction false} TrailingSpaceSpec(s: string)
    ensures AllIn(s, |s| - TrailingSpace(s), |s|, Space)
    ensures TrailingSpace(s) < |s| ==> !IsSpace(s[|s| - 1 - TrailingSpace(s)])
    decreases |s|
  {
    if s != [] && IsSpace(s[|s| - 1]) {
      var p := s[..|s| - 1];
      TrailingSpaceSpec(p);
      forall k | |s| - TrailingSpace(s) <= k < |s|
        ensures In(Space, s[k])
      {
        if k < |s| - 1 {
          assert In(Space, p[k]);
        }
      }
    }
  }

  /** TrimSpace removes only white space, from both ends, and leaves text
      that neither starts nor ends with it. */
  lemma TrimSpaceSpec(s: string)
    ensures var r := TrimSpace(s);
      exists i: nat, j: nat :: i <= j <= |s| && r == s[i..j]
        && AllIn(s, 0, i, Space) && AllIn(s, j, |s|, Space)
        && (r != [] ==> !IsSpace(r[0]) && !IsSpace(r[|r| - 1]))
  {
    var i := Span(s, 0, Space);
    var t := s[i..];
    var j := i + |t| - TrailingSpace(t);
    TrailingSpaceSpec(t);
    assert TrimSpace(s) == s[i..j];
    assert AllIn(s, j, |s|, Space) by {
      forall k | j <= k < |s|
        ensures In(Space, s[k])
      {
        assert s[k] == t[k - i];
      }
    }
    if i < j {
      assert In(NonSpace, s[i]);
      assert s[j - 1] == t[|t| - 1 - TrailingSpace(t)];
    }
  }

  /** A token strings.Fields produced has no white space, so TrimSpace
      leaves it as it is. */
  lemma TrimSpaceOfField(t: string)
    requires NoSpace(t)
    ensures TrimSpace(t) == t
  {
    if t == [] {
      SpanIs(t, 0, Space, 0);
    } else {
      assert In(NonSpace, t[0]);
      SpanIs(t, 0, Space, 0);
      assert In(NonSpace, t[|t| - 1]);
      assert TrailingSpace(t) == 0;
      assert t[0..|t|] == t;
    }
  }

  /** The processor's normalisation of a token. */
  function Normalize(t: string): string {
    TrimSpace(ToLower(t))
  }

  // ---------------------------------------------------------------------
  // strconv.ParseUint(_, 10, 16)

  predicate IsDecimal(d: string) {
    forall k :: 0 <= k < |d| ==> '0' <= d[k] <= '9'
  }

  /** The value of a decimal numeral, most significant digit first. */
  function DecimalValue(d: string): nat
    requires IsDecimal(d)
    decreases |d|
  {
    if d == [] then 0 else DecimalValue(d[..|d| - 1]) * 10 + (d[|d| - 1] as int - '0' as int)
  }

  /** strconv.ParseUint(d, 10, 16): a non-empty string of decimal digits
      (leading zeros allowed, no sign) whose value fits in 16 bits; anything
      else is an error. */
  function ParseUint16(d: string): Option<Uint16> {
    if d == [] || !IsDecimal(d) then None
    else if DecimalValue(d) > 0xFFFF then None
    else Some(DecimalValue(d))
  }

  /** The numeral of `n` without leading zeros. */
  function Decimal(n: nat): (d: string)
    ensures d != [] && IsDecimal(d)
    decreases n
  {
    if n < 10 then [('0' as int + n) as char]
    else Decimal(n / 10) + [('0' as int + n % 10) as char]
  }

  lemma {:induction false} DecimalValueOf(n: nat)
    ensures DecimalValue(Decimal(n)) == n
    decreases n
  {
    var d := Decimal(n);
    if n >= 10 {
      DecimalValueOf(n / 10);
      assert d[..|d| - 1] == Decimal(n / 10);
    } else {
      assert d[..0] == [];
    }
  }

  /** ParseUint16 reads back every rendered 16-bit number. */
  lemma ParseDecimal(n: Uint16)
    ensures ParseUint16(Decimal(n)) == Some(n)
  {
    DecimalValueOf(n);
  }

  /** ParseUint16 succeeds exactly on non-empty digit strings of value at
      most 65535. */
  lemma ParseUint16Iff(d: string, v: int)
    ensures ParseUint16(d) == Some(v) <==>
      d != [] && IsDecimal(d) && DecimalValue(d) == v && v <= 0xFFFF
  {
  }

  lemma {:induction false} LeadingZeroValue(d: string)
    requires IsDecimal(d)
    ensures IsDecimal("0" + d) && DecimalValue("0" + d) == DecimalValue(d)
    decreases |d|
  {
    var z := "0" + d;
    if d != [] {
      assert z[..|z| - 1] == "0" + d[..|d| - 1];
      LeadingZeroValue(d[..|d| - 1]);
    } else {
      assert z[..0] == [];
    }
  }

  /** Leading zeros do not change what ParseUint16 reads. */
  lemma LeadingZero(d: string)
    requires d != []
    ensures ParseUint16("0" + d) == ParseUint16(d)
  {
    if IsDecimal(d) {
      LeadingZeroValue(d);
    } else {
      var k :| 0 <= k < |d| && !('0' <= d[k] <= '9');
      assert ("0" + d)[k + 1] == d[k];
    }
  }

  // ---------------------------------------------------------------------
  // Classification

  /** What a normalised token asks the inverter to do. */
  datatype Command =
    | Stop
    | RunForward
    | RunBackward
    | SetSpeed(rpm: Uint16)
    | Query
    | Ignored

  const StopSpellings: set<string> := {"end", "m0", "m1", "m30", "m60", "m5", "m05"}

  /** The interpreter's if-chain, in its order, on a normalised token. */
  function Classify(t: string): Command {
    if t in StopSpellings then Stop
    else if t == "m3" || t == "m03" then RunForward
    else if t == "m4" || t == "m04" then RunBackward
    else if |t| >= 1 && t[0] == 's' then
      match ParseUint16(t[1..])
      case Some(v) => SetSpeed(v)
      case None => Ignored
    else if t == "?" then Query
    else Ignored
  }

  /** A spelling the interpreter accepts for each command. */
  function Spell(c: Command): string {
    match c
    case Stop => "m5"
    case RunForward => "m3"
    case RunBackward => "m4"
    case SetSpeed(v) => "s" + Decimal(v)
    case Query => "?"
    case Ignored => ""
  }

  /** Every command but Ignored is recognised from its spelling, so no
      command hides another in the if-chain. */
  lemma ClassifySpell(c: Command)
    requires !c.Ignored?
    ensures Classify(Spell(c)) == c
  {
    if c.SetSpeed? {
      var t := Spell(c);
      assert t[1..] == Decimal(c.rpm);
      ParseDecimal(c.rpm);
      assert t !in StopSpellings by {
        assert t[0] == 's';
      }
    }
  }

  /** Stop is requested exactly by its seven spellings, `end` included. */
  lemma StopIff(t: string)
    ensures Classify(t) == Stop <==> t in StopSpellings
  {
  }

  lemma RunIff(t: string)
    ensures Classify(t) == RunForward <==> t == "m3" || t == "m03"
    ensures Classify(t) == RunBackward <==> t == "m4" || t == "m04"
    ensures Classify(t) == Query <==> t == "?"
  {
  }

  /** A set-speed command is an `s` followed by a numeral ParseUint16 accepts. */
  lemma SetSpeedIff(t: string, v: Uint16)
    ensures Classify(t) == SetSpeed(v) <==> |t| >= 1 && t[0] == 's' && ParseUint16(t[1..]) == Some(v)
  {
    if |t| >= 1 && t[0] == 's' {
      assert t !in StopSpellings by {
        assert "end"[0] != 's' && "m0"[0] != 's' && "m1"[0] != 's' && "m30"[0] != 's';
        assert "m60"[0] != 's' && "m5"[0] != 's' && "m05"[0] != 's';
      }
    }
  }

  /** M2 is listed among the accepted commands but has no branch. */
  lemma M2Ignored()
    ensures Classify(Normalize("M2")) == Ignored
  {
    assert ToLower("M2") == "m2" by {
      assert ToLower("M2") == [LowerChar('M')] + ToLower("2");
      assert ToLower("2") == [LowerChar('2')] + ToLower("");
    }
    TrimSpaceOfField("m2");
  }

  // ---------------------------------------------------------------------
  // Request payloads

  /** The two bytes of a 16-bit value, most significant first
      (binary.BigEndian.PutUint16). */
  function BigEndian(f: Word): (r: seq<Byte>)
    ensures |r| == 2 && ((r[0] as Word) << 8) | (r[1] as Word) == f
  {
    [(f >> 8) as Byte, (f & 0xFF) as Byte]
  }

  /** The payload written for a command, before signing, or None when the
      token writes nothing. A set-speed request carries the inverter
      frequency `frequency(rpm)`. */
  function Payload(c: Command, frequency: Uint16 -> Word): Option<seq<Byte>> {
    match c
    case Stop => Some([0x01, 0x03, 0x01, 0x08])
    case RunForward => Some([0x01, 0x03, 0x01, 0x01])
    case RunBackward => Some([0x01, 0x03, 0x01, 0x11])
    case SetSpeed(rpm) => Some([0x01, 0x05, 0x02] + BigEndian(frequency(rpm)))
    case Query => Some([0x01, 0x04, 0x03, 0x01, 0x00, 0x00])
    case Ignored => None
  }

  /** Every request payload is addressed to slave 1, and the function code
      tells the commands apart: 3 for the run/stop control word, 5 for the
      frequency, 4 for the status read. */
  lemma PayloadShape(c: Command, frequency: Uint16 -> Word)
    ensures Payload(c, frequency).None? <==> c.Ignored?
    ensures Payload(c, frequency).Some? ==> Payload(c, frequency).value[0] == 0x01
    ensures Payload(c, frequency).Some? ==>
      (Payload(c, frequency).value[1] == 0x03 <==> c.Stop? || c.RunForward? || c.RunBackward?)
    ensures c.SetSpeed? ==>
      && |Payload(c, frequency).value| == 5
      && ((Payload(c, frequency).value[3] as Word) << 8) | (Payload(c, frequency).value[4] as Word) == frequency(c.rpm)
  {
  }

  /** Distinct commands write distinct payloads, except that two speeds
      mapping to the same frequency write the same request. */
  lemma PayloadInjective(c: Command, d: Command, frequency: Uint16 -> Word)
    requires Payload(c, frequency).Some? && Payload(c, frequency) == Payload(d, frequency)
    ensures c == d || (c.SetSpeed? && d.SetSpeed? && frequency(c.rpm) == frequency(d.rpm))
  {
    if c.SetSpeed? && d.SetSpeed? {
      var bc, bd := BigEndian(frequency(c.rpm)), BigEndian(frequency(d.rpm));
      var pc, pd := [0x01, 0x05, 0x02] + bc, [0x01, 0x05, 0x02] + bd;
      assert pc == pd;
      assert pc[3] == bc[0] && pc[4] == bc[1] && pd[3] == bd[0] && pd[4] == bd[1];
    }
  }

  /** The frame written for a command: its payload, signed. */
  function Frame(c: Command, frequency: Uint16 -> Word): Option<seq<Byte>> {
    match Payload(c, frequency)
    case Some(p) => Some(Crc16.Sign(p))
    case None => None
  }

  /** The stop frame is the one in the driver's test: 01 03 01 08 F1 8E. */
  lemma StopFrame(frequency: Uint16 -> Word)
    ensures Frame(Stop, frequency) == Some([0x01, 0x03, 0x01, 0x08, 0xF1, 0x8E])
  {
    StopVector();
  }

  /** The status request is the one in the driver's comment: 01 04 03 01 00 00 A1 8E. */
  lemma QueryFrame(frequency: Uint16 -> Word)
    ensures Frame(Query, frequency) == Some([0x01, 0x04, 0x03, 0x01, 0x00, 0x00, 0xA1, 0x8E])
  {
    QueryVector();
  }
}
