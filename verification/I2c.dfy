/**
 The bit-banged I2C master (WF_i2c.c) on a wired-AND bus, and a bus decoder that knows
 nothing of the master: it looks only at the two lines, as sections 3.1.3 to 3.1.6 of
 NXP UM10204 describe them.
 */
module I2c {
  import opened Wire

  // ---- The decoder -------------------------------------------------------------------------

  /** The levels of the two lines at one moment. */
  datatype Sample = Sample(scl: bool, sda: bool)

  datatype Event = Start | Stop | Bit(high: bool)

  /** What the events mean: bytes are eight bits, most significant first, and an acknowledge bit. */
  datatype Item = START | STOP | Byte(value: nat, nack: bool) | Torn(bits: seq<bool>)

  /** The items so far, and the bits since the last of them. */
  datatype Parser = Parser(items: seq<Item>, bits: seq<bool>)

  function Feed(p: Parser, e: Event): Parser {
    match e
    case Start => Parser(p.items + TornOff(p.bits) + [START], [])
    case Stop => Parser(p.items + TornOff(p.bits) + [STOP], [])
    case Bit(high) =>
      if |p.bits| < 8 then Parser(p.items, p.bits + [high])
      else Parser(p.items + [Byte(Value(p.bits), high)], [])
  }

  /** A byte cut off by a START or STOP. */
  function TornOff(bits: seq<bool>): seq<Item> { if bits == [] then [] else [Torn(bits)] }

  function Value(bits: seq<bool>): nat {
    if bits == [] then 0 else 2 * Value(bits[..|bits| - 1]) + if bits[|bits| - 1] then 1 else 0
  }

  /** `bit` is what SDA was when SCL rose, unless a START or STOP has come since. */
  datatype Watcher = Watcher(scl: bool, sda: bool, bit: Option<bool>, heard: Parser)

  /** The decoder sees the next levels of the lines. */
  function Observe(w: Watcher, s: Sample): Watcher {
    if w.scl && s.scl then
      if w.sda && !s.sda then Watcher(true, false, None, Feed(w.heard, Start))
      else if !w.sda && s.sda then Watcher(true, true, None, Feed(w.heard, Stop))
      else w
    else if s.scl then Watcher(true, s.sda, Some(s.sda), w.heard)
    else if w.scl && w.bit.Some? then Watcher(false, s.sda, None, Feed(w.heard, Bit(w.bit.value)))
    else Watcher(false, s.sda, None, w.heard)
  }

  /** SDA moves while SCL stays high. */
  predicate Moved(w: Watcher, s: Sample) { w.scl && s.scl && w.sda != s.sda }

  function Conditions(items: seq<Item>): nat {
    if items == [] then 0
    else Conditions(items[..|items| - 1]) + if items[|items| - 1] in [START, STOP] then 1 else 0
  }

  /** SDA moves while SCL stays high exactly when a START or STOP is recognised; data bits are stable. */
  lemma {:induction false} MovesAreConditions(w: Watcher, s: Sample)
    ensures Conditions(Observe(w, s).heard.items) ==
            Conditions(w.heard.items) + if Moved(w, s) then 1 else 0
  {
    var items, items' := w.heard.items, Observe(w, s).heard.items;
    var torn := items + TornOff(w.heard.bits);
    if items' != items {
      assert torn == items || torn[..|torn| - 1] == items;
      assert items'[..|items'| - 1] == torn || items'[..|items'| - 1] == items;
    }
  }

  // ---- The bus and the slave --------------------------------------------------------------

  /**
   A slave that changes SDA only while SCL is low.  In pulse k of SCL it holds the level
   hold(k), true when it leaves the line alone; between the pulses it does as it likes.
   */
  datatype Slave = Slave(hold: nat -> bool)

  /** The slave leaves SDA to the master in the pulses from `first` to `last`. */
  ghost predicate Yields(s: Slave, first: nat, last: nat) {
    forall k :: first <= k < last ==> s.hold(k)
  }

  /** The levels the slave holds in n pulses. */
  function Held(s: Slave, first: nat, n: nat): (r: seq<bool>)
    ensures |r| == n
  {
    seq(n, k requires 0 <= k => s.hold(first + k))
  }

  function FeedBits(p: Parser, bits: seq<bool>): Parser {
    if bits == [] then p else Feed(FeedBits(p, bits[..|bits| - 1]), Bit(bits[|bits| - 1]))
  }

  /** byte <<= 1 */
  function ShiftLeft(b: byte): byte {
    var n: int := b;
    2 * n % 256
  }

  /** byte <<= 1, i times */
  function Shifted(b: byte, i: nat): byte
    decreases i, b
  {
    if i == 0 then b else ShiftLeft(Shifted(b, i - 1))
  }

  /** The bits of a byte, as shifting left brings them out. */
  function MsbFirst(b: byte): (r: seq<bool>)
    ensures |r| == 8
  {
    seq(8, i requires 0 <= i => Shifted(b, i) >= 128)
  }

  class Master {
    const slave: Slave
    var scl: bool
    var sda: bool
    var slaveSda: bool
    var pulses: nat
    /** The decoder at the other end of the bus. */
    ghost var seen: Watcher
    /** How often SDA has moved while SCL stayed high. */
    ghost var moves: nat

    /** The decoder knows the lines as they are. */
    ghost predicate Valid()
      reads this
    {
      seen.scl == scl && seen.sda == (sda && slaveSda)
    }

    ghost function Heard(): Parser
      reads this
    {
      seen.heard
    }

    ghost predicate Low()
      reads this
    {
      Valid() && !scl
    }

    ghost predicate Idle()
      reads this
    {
      Valid() && scl && sda && slaveSda && seen.bit == None
    }

    constructor (other: Slave)
      ensures Idle() && slave == other && pulses == 0 && Heard() == Parser([], [])
    {
      slave, scl, sda, slaveSda, pulses := other, true, true, true, 0;
      seen, moves := Watcher(true, true, None, Parser([], [])), 0;
    }

    /** The lines have new levels. */
    ghost method Show()
      modifies this`seen, this`moves
      ensures seen == Observe(old(seen), Sample(scl, sda && slaveSda))
      ensures moves == old(moves) + if Moved(old(seen), Sample(scl, sda && slaveSda)) then 1 else 0
    {
      moves := moves + if Moved(seen, Sample(scl, sda && slaveSda)) then 1 else 0;
      seen := Observe(seen, Sample(scl, sda && slaveSda));
    }

    /** While SCL is low the slave may move. */
    method Wiggle()
      requires Low()
      modifies this`slaveSda, this`seen, this`moves
      ensures Low() && Heard() == old(Heard())
      ensures moves == old(moves)
    {
      slaveSda := *;
      Show();
    }

    /** io_write_pin(IIC_SDA_PIN, level) */
    method WriteSda(level: bool)
      requires Valid()
      modifies this`sda, this`slaveSda, this`seen, this`moves
      ensures Valid() && sda == level
      ensures !scl ==> Heard() == old(Heard())
      ensures scl ==> slaveSda == old(slaveSda)
      ensures scl ==> seen == Observe(old(seen), Sample(true, level && slaveSda))
      ensures moves == old(moves) + if scl && old(seen).sda != (level && slaveSda) then 1 else 0
    {
      sda := level;
      Show();
      if !scl {
        Wiggle();
      }
    }

    /** io_write_pin(IIC_SCL_PIN, 1) */
    method SclHigh()
      requires Valid()
      modifies this`scl, this`slaveSda, this`seen, this`moves, this`pulses
      ensures Valid() && scl
      ensures old(scl) ==> pulses == old(pulses) && slaveSda == old(slaveSda) && seen == old(seen)
      ensures !old(scl) ==> pulses == old(pulses) + 1 && slaveSda == slave.hold(old(pulses))
      ensures !old(scl) ==> seen == Watcher(true, sda && slaveSda, Some(sda && slaveSda), old(Heard()))
      ensures moves == old(moves)
    {
      if scl {
        Show();
      } else {
        slaveSda := slave.hold(pulses);
        Show();
        scl := true;
        pulses := pulses + 1;
        Show();
      }
    }

    /** io_write_pin(IIC_SCL_PIN, 0) */
    method SclLow()
      requires Valid()
      modifies this`scl, this`slaveSda, this`seen, this`moves
      ensures Low()
      ensures Heard() ==
              if old(scl) && old(seen.bit).Some? then Feed(old(Heard()), Bit(old(seen.bit).value)) else old(Heard())
      ensures moves == old(moves)
    {
      scl := false;
      Show();
      Wiggle();
    }

    /** A pulse of SCL is one bit, the wired-AND of both sides. */
    method Pulse()
      requires Low()
      modifies this`scl, this`slaveSda, this`seen, this`moves, this`pulses
      ensures Low() && pulses == old(pulses) + 1
      ensures Heard() == Feed(old(Heard()), Bit(sda && slave.hold(old(pulses))))
      ensures moves == old(moves)
    {
      SclHigh();
      SclLow();
    }

    /** iic_start: from an idle bus, or between two bytes. */
    method IicStart()
      requires Idle() || (Low() && slave.hold(pulses))
      modifies this
      ensures Low() && pulses == old(pulses) + if old(scl) then 0 else 1
      ensures Heard() == Feed(old(Heard()), Start)
      ensures moves == old(moves) + 1
    {
      WriteSda(true);
      SclHigh();
      WriteSda(false);
      SclLow();
    }

    /** iic_stop: back to an idle bus. */
    method IicStop()
      requires Low() && slave.hold(pulses)
      modifies this
      ensures Idle() && pulses == old(pulses) + 1
      ensures Heard() == Feed(old(Heard()), Stop)
      ensures moves == old(moves) + 1
    {
      SclLow();
      WriteSda(false);
      SclHigh();
      WriteSda(true);
    }

    /** iic_wait_ack: polls at most 251 times, and goes on either way. */
    method IicWaitAck()
      requires Low()
      modifies this
      ensures Low() && pulses == old(pulses) + 1
      ensures Heard() == Feed(old(Heard()), Bit(slave.hold(old(pulses))))
      ensures moves == old(moves)
    {
      var errTime := 0;
      WriteSda(true);
      WriteSda(true);
      SclHigh();
      while sda && slaveSda
        invariant 0 <= errTime <= 250
        decreases 250 - errTime
      {
        errTime := errTime + 1;
        if errTime > 250 {
          break;
        }
      }
      SclLow();
    }

    /** iic_ack */
    method IicAck()
      requires Low()
      modifies this
      ensures Low() && pulses == old(pulses) + 1
      ensures Heard() == Feed(old(Heard()), Bit(false))
      ensures moves == old(moves)
    {
      WriteSda(false);
      Pulse();
      WriteSda(true);
    }

    /** iic_noAck */
    method IicNoAck()
      requires Low() && slave.hold(pulses)
      modifies this
      ensures Low() && pulses == old(pulses) + 1
      ensures Heard() == Feed(old(Heard()), Bit(true))
      ensures moves == old(moves)
    {
      WriteSda(true);
      Pulse();
      WriteSda(false);
    }

    /** One bit from the master. */
    method WriteBit(level: bool)
      requires Low() && slave.hold(pulses)
      modifies this
      ensures Low() && pulses == old(pulses) + 1
      ensures Heard() == Feed(old(Heard()), Bit(level))
      ensures moves == old(moves)
    {
      WriteSda(level);
      Pulse();
    }

    /** iic_write_byte */
    method IicWriteByte(b: byte)
      requires Low() && forall k :: pulses <= k < pulses + 8 ==> slave.hold(k)
      modifies this
      ensures Low() && pulses == old(pulses) + 8
      ensures Heard() == FeedBits(old(Heard()), MsbFirst(b))
      ensures moves == old(moves)
    {
      SclLow();
      var i, rest: byte := 0, b;
      ghost var before, first, whole := Heard(), pulses, MsbFirst(b);
      while i < 8
        invariant i <= 8 && Low() && pulses == first + i && rest == Shifted(b, i)
        invariant Heard() == FeedBits(before, whole[..i]) && moves == old(moves)
      {
        NextBit(before, whole, i);
        WriteBit(rest >= 128);
        rest := ShiftLeft(rest);
        i := i + 1;
      }
      assert whole[..8] == whole;
    }

    /** One bit from the slave: SDA is read while SCL is high. */
    method ReadBit() returns (high: bool)
      requires Low() && sda
      modifies this
      ensures Low() && sda && pulses == old(pulses) + 1 && high == slave.hold(old(pulses))
      ensures Heard() == Feed(old(Heard()), Bit(high))
      ensures moves == old(moves)
    {
      SclHigh();
      high := sda && slaveSda;
      SclLow();
    }

    /** iic_read_byte */
    method IicReadByte() returns (b: byte)
      requires Low()
      modifies this
      ensures Low() && pulses == old(pulses) + 8
      ensures b == Value(Held(slave, old(pulses), 8))
      ensures Heard() == FeedBits(old(Heard()), Held(slave, old(pulses), 8))
      ensures moves == old(moves)
    {
      b := 0;
      WriteSda(true);
      var i := 0;
      ghost var before, first, whole := Heard(), pulses, Held(slave, pulses, 8);
      while i < 8
        invariant i <= 8 && Low() && sda && pulses == first + i && b == Value(whole[..i])
        invariant Heard() == FeedBits(before, whole[..i]) && moves == old(moves)
      {
        NextBit(before, whole, i);
        ShiftIn(whole, i, b);
        var high := ReadBit();
        b := ShiftLeft(b);
        if high {
          b := b + 1;
        }
        i := i + 1;
      }
      assert whole[..8] == whole;
    }

    /** iic_write_byte and iic_wait_ack */
    method SendByte(b: byte)
      requires Low() && Yields(slave, pulses, pulses + 8) && Heard().bits == []
      modifies this
      ensures Low() && pulses == old(pulses) + 9
      ensures Heard() == Parser(old(Heard().items) + [Byte(b, slave.hold(old(pulses) + 8))], [])
      ensures moves == old(moves)
    {
      FrameIsHeard(Heard(), b, slave.hold(pulses + 8));
      IicWriteByte(b);
      IicWaitAck();
    }

    /** iic_start, and a byte that the slave acknowledges in pulse `at`. */
    method StartWith(b: byte, ghost at: nat)
      requires (Idle() && at == pulses + 8) || (Low() && slave.hold(pulses) && at == pulses + 9)
      requires Yields(slave, at - 8, at) && Heard().bits == []
      modifies this
      ensures Low() && pulses == at + 1
      ensures Heard() == Parser(old(Heard().items) + [START, Byte(b, slave.hold(at))], [])
      ensures moves == old(moves) + 1
    {
      ghost var items := Heard().items;
      IicStart();
      SendByte(b);
      assert items + [START] + [Byte(b, slave.hold(at))] == items + [START, Byte(b, slave.hold(at))];
    }

    /** iic_stop and SDA_INPUT */
    method End()
      requires Low() && slave.hold(pulses) && Heard().bits == []
      modifies this
      ensures Idle() && pulses == old(pulses) + 1
      ensures Heard() == Parser(old(Heard().items) + [STOP], [])
      ensures moves == old(moves) + 1
    {
      IicStop();
      WriteSda(true);
    }

    /** The beginning of every transaction: the slave acknowledges in pulses 8 and 17. */
    method Address(device: byte, addr: byte)
      requires Idle() && Heard().bits == []
      requires Yields(slave, pulses, pulses + 8) && Yields(slave, pulses + 9, pulses + 17)
      modifies this
      ensures Low() && pulses == old(pulses) + 18
      ensures Heard() == Parser(old(Heard().items) + Opening(slave, old(pulses), device, addr), [])
      ensures moves == old(moves) + 1
    {
      ghost var items, first := Heard().items, pulses;
      SclHigh();
      StartWith(device, pulses + 8);
      SendByte(addr);
      assert items + [START, Byte(device, slave.hold(first + 8))] + [Byte(addr, slave.hold(first + 17))] ==
             items + Opening(slave, first, device, addr);
    }

    /** IIC_WriteByte: the slave acknowledges in pulses 8, 17 and 26. */
    method WriteByte(device: byte, addr: byte, data: byte)
      requires Idle() && Heard().bits == []
      requires Yields(slave, pulses, pulses + 8) && Yields(slave, pulses + 9, pulses + 17)
      requires Yields(slave, pulses + 18, pulses + 26) && slave.hold(pulses + 27)
      modifies this
      ensures Idle() && pulses == old(pulses) + 28
      ensures Heard() == Parser(old(Heard().items) + WriteTransaction(slave, old(pulses), device, addr, data), [])
      ensures moves == old(moves) + 2
    {
      ghost var items, first := Heard().items, pulses;
      Address(device, addr);
      SendByte(data);
      End();
      assert items + Opening(slave, first, device, addr) + [Byte(data, slave.hold(first + 26))] + [STOP] ==
             items + WriteTransaction(slave, first, device, addr, data);
    }

    /** iic_read_byte on a bus where no byte is under way. */
    method ReceiveByte() returns (b: byte)
      requires Low() && Heard().bits == []
      modifies this
      ensures Low() && pulses == old(pulses) + 8
      ensures b == Value(Held(slave, old(pulses), 8))
      ensures Heard() == Parser(old(Heard().items), Held(slave, old(pulses), 8))
      ensures moves == old(moves)
    {
      BitsAreHeard(Heard(), Held(slave, pulses, 8), 8);
      b := IicReadByte();
    }

    /** iic_ack behind a byte. */
    method AcceptByte()
      requires Low() && |Heard().bits| == 8
      modifies this
      ensures Low() && pulses == old(pulses) + 1
      ensures Heard() == Parser(old(Heard().items) + [Byte(Value(old(Heard().bits)), false)], [])
      ensures moves == old(moves)
    {
      IicAck();
    }

    /** iic_noAck and iic_stop: behind a byte they close the transaction, and otherwise they tear a byte off. */
    method Finish()
      requires Low() && slave.hold(pulses) && slave.hold(pulses + 1)
      requires Heard().bits == [] || |Heard().bits| == 8
      modifies this
      ensures Idle() && pulses == old(pulses) + 2
      ensures Heard() == Parser(old(Heard().items) + Ending(old(Heard().bits)), [])
      ensures moves == old(moves) + 1
    {
      EndingIsHeard(Heard());
      IicNoAck();
      IicStop();
      WriteSda(true);
      SclHigh();
    }

    /** The reading loop of IIC_ReadContiune: all bytes but the last are acknowledged. */
    method ReadBytes(p: array<byte>, length: byte)
      requires Low() && Heard().bits == [] && length <= p.Length
      modifies this, p
      ensures Low()
      ensures forall k :: 0 <= k < p.Length ==>
                p[k] == if k < length then Received(slave, old(pulses), k) else old(p[k])
      ensures length == 0 ==> pulses == old(pulses) && Heard() == old(Heard())
      ensures length > 0 ==> pulses == old(pulses) + 9 * length - 1
      ensures length > 0 ==>
                Heard() == Parser(old(Heard().items) + Accepted(slave, old(pulses), length - 1),
                                  Held(slave, old(pulses) + 9 * (length - 1), 8))
      ensures moves == old(moves)
    {
      var i := 0;
      ghost var first, items := pulses, Heard().items;
      assert items + Accepted(slave, first, 0) == items;
      while i < length
        invariant 0 <= i <= length && Low() && moves == old(moves)
        invariant forall k :: 0 <= k < p.Length ==> p[k] == if k < i then Received(slave, first, k) else old(p[k])
        invariant i < length || length == 0 ==>
                    pulses == first + 9 * i && Heard() == Parser(items + Accepted(slave, first, i), [])
        invariant i == length > 0 ==>
                    && pulses == first + 9 * i - 1
                    && Heard() == Parser(items + Accepted(slave, first, i - 1), Held(slave, first + 9 * (i - 1), 8))
      {
        var b := ReceiveByte();
        p[i] := b;
        if i < length - 1 {
          OneMoreAccepted(items, slave, first, i);
          AcceptByte();
        }
        i := i + 1;
      }
    }

    /** The first half of a read: the register is addressed, and the direction turned round. */
    method AddressRead(device: byte, addr: byte)
      requires Idle() && Heard().bits == []
      requires Yields(slave, pulses, pulses + 8) && Yields(slave, pulses + 9, pulses + 17)
      requires Yields(slave, pulses + 18, pulses + 27)
      modifies this
      ensures Low() && pulses == old(pulses) + 28
      ensures Heard() == Parser(old(Heard().items) + ReadOpening(slave, old(pulses), device, addr), [])
      ensures moves == old(moves) + 2
    {
      ghost var items, first := Heard().items, pulses;
      Address(device, addr);
      StartWith(ReadAddress(device), first + 27);
      assert items + Opening(slave, first, device, addr) + [START, Byte(ReadAddress(device), slave.hold(first + 27))] ==
             items + ReadOpening(slave, first, device, addr);
    }

    /** The second half: the bytes, a refusal and the STOP. */
    method ReadAndFinish(p: array<byte>, length: byte)
      requires Low() && Heard().bits == [] && length <= p.Length
      requires Yields(slave, pulses + RefusalPulse(length), pulses + RefusalPulse(length) + 2)
      modifies this, p
      ensures Idle() && pulses == old(pulses) + RefusalPulse(length) + 2
      ensures p[..] == AllReceived(slave, old(pulses), length) + old(p[length..])
      ensures Heard() == Parser(old(Heard().items) + ReadClosing(slave, old(pulses), length), [])
      ensures moves == old(moves) + 1
    {
      ghost var items, first := Heard().items, pulses;
      ghost var rest := p[length..];
      ReadBytes(p, length);
      assert p[..] == AllReceived(slave, first, length) + rest;
      Finish();
      if length > 0 {
        JoinItems(items, Accepted(slave, first, length - 1), Ending(Held(slave, first + 9 * (length - 1), 8)));
      }
    }

    /** IIC_ReadContiune: the slave acknowledges in pulses 8, 17 and 27, and sends from pulse 28 on. */
    method ReadContinue(device: byte, addr: byte, p: array<byte>, length: byte)
      requires Idle() && Heard().bits == [] && length <= p.Length
      requires Yields(slave, pulses, pulses + 8) && Yields(slave, pulses + 9, pulses + 17)
      requires Yields(slave, pulses + 18, pulses + 27)
      requires Yields(slave, pulses + 28 + RefusalPulse(length), pulses + 30 + RefusalPulse(length))
      modifies this, p
      ensures Idle() && pulses == old(pulses) + 30 + RefusalPulse(length)
      ensures p[..] == AllReceived(slave, old(pulses) + 28, length) + old(p[length..])
      ensures Heard() == Parser(old(Heard().items) + ReadTransaction(slave, old(pulses), device, addr, length), [])
      ensures moves == old(moves) + 3
    {
      JoinItems(Heard().items, ReadOpening(slave, pulses, device, addr), ReadClosing(slave, pulses + 28, length));
      AddressRead(device, addr);
      ReadAndFinish(p, length);
    }
  }

  /** Device | 0x01 */
  function ReadAddress(device: byte): byte { if device % 2 == 1 then device else device + 1 }

  /** The byte the slave sends as number k, counting pulses from `first`. */
  function Received(s: Slave, first: nat, k: nat): nat { Value(Held(s, first + 9 * k, 8)) }

  function AllReceived(s: Slave, first: nat, n: nat): (r: seq<nat>)
    ensures |r| == n
  {
    seq(n, k requires 0 <= k => Received(s, first, k))
  }

  ghost function Accepted(s: Slave, first: nat, n: nat): (r: seq<Item>)
    ensures |r| == n
  {
    seq(n, k requires 0 <= k => Byte(Received(s, first, k), false))
  }

  ghost function Ending(bits: seq<bool>): seq<Item> {
    [if bits == [] then Torn([true]) else Byte(Value(bits), true), STOP]
  }

  lemma {:induction false} EndingIsHeard(p: Parser)
    requires p.bits == [] || |p.bits| == 8
    ensures Feed(Feed(p, Bit(true)), Stop) == Parser(p.items + Ending(p.bits), [])
  {
    if p.bits == [] {
      assert [] + [true] == [true];
      assert p.items + [Torn([true])] + [STOP] == p.items + Ending([]);
    } else {
      assert p.items + [Byte(Value(p.bits), true)] + [] + [STOP] == p.items + Ending(p.bits);
    }
  }

  /** The pulse, from the first data bit on, in which the master refuses further bytes. */
  function RefusalPulse(length: nat): nat { if length == 0 then 0 else 9 * length - 1 }

  /** START, the device, the register, and a repeated START with the read address. */
  ghost function ReadOpening(s: Slave, first: nat, device: byte, addr: byte): seq<Item> {
    Opening(s, first, device, addr) + [START, Byte(ReadAddress(device), s.hold(first + 27))]
  }

  /** The bytes the slave sends from pulse `first` on, all but the last acknowledged, and the STOP. */
  ghost function ReadClosing(s: Slave, first: nat, length: nat): seq<Item> {
    if length == 0 then Ending([])
    else Accepted(s, first, length - 1) + Ending(Held(s, first + 9 * (length - 1), 8))
  }

  /** A complete read in the pulses from `first` on. */
  ghost function ReadTransaction(s: Slave, first: nat, device: byte, addr: byte, length: nat): seq<Item> {
    ReadOpening(s, first, device, addr) + ReadClosing(s, first + 28, length)
  }

  lemma {:induction false} JoinItems(a: seq<Item>, b: seq<Item>, c: seq<Item>)
    ensures a + b + c == a + (b + c)
  {
  }

  /** The STARTs and STOPs of the two kinds of calls: as many as WriteByte and ReadContinue move SDA while SCL is high. */
  lemma {:induction false} TransactionConditions(s: Slave, first: nat, device: byte, addr: byte, data: byte, length: nat)
    ensures Conditions(WriteTransaction(s, first, device, addr, data)) == 2
    ensures Conditions(ReadTransaction(s, first, device, addr, length)) == 3
  {
    var opening, turn := Opening(s, first, device, addr), [START, Byte(ReadAddress(device), s.hold(first + 27))];
    FewConditions(opening[0], opening[1], opening[2]);
    assert opening == [opening[0], opening[1], opening[2]];
    FewConditions(START, turn[1], Byte(data, s.hold(first + 26)));
    ConditionsAppend(opening, [Byte(data, s.hold(first + 26)), STOP]);
    FewConditions(START, Byte(data, s.hold(first + 26)), STOP);
    ConditionsAppend(opening, turn);
    ConditionsAppend(opening + turn, ReadClosing(s, first + 28, length));
    ClosingConditions(s, first + 28, length);
  }

  function Weight(x: Item): nat { if x in [START, STOP] then 1 else 0 }

  lemma {:induction false} FewConditions(a: Item, b: Item, c: Item)
    ensures Conditions([a, b]) == Weight(a) + Weight(b)
    ensures Conditions([b, c]) == Weight(b) + Weight(c)
    ensures Conditions([a, b, c]) == Weight(a) + Weight(b) + Weight(c)
  {
    assert [a, b, c][..2] == [a, b] && [a, b][..1] == [a] && [b, c][..1] == [b];
    assert Conditions([a]) == Weight(a) by { assert [a][..0] == []; }
    assert Conditions([b]) == Weight(b) by { assert [b][..0] == []; }
  }

  lemma {:induction false} ConditionsAppend(a: seq<Item>, b: seq<Item>)
    ensures Conditions(a + b) == Conditions(a) + Conditions(b)
    decreases |b|
  {
    if b == [] {
      assert a + b == a;
    } else {
      assert (a + b)[..|a + b| - 1] == a + b[..|b| - 1];
      ConditionsAppend(a, b[..|b| - 1]);
    }
  }

  lemma {:induction false} AcceptedConditions(s: Slave, first: nat, n: nat)
    ensures Conditions(Accepted(s, first, n)) == 0
    decreases n
  {
    if n > 0 {
      assert Accepted(s, first, n)[..n - 1] == Accepted(s, first, n - 1);
      AcceptedConditions(s, first, n - 1);
    }
  }

  lemma {:induction false} ClosingConditions(s: Slave, first: nat, length: nat)
    ensures Conditions(ReadClosing(s, first, length)) == 1
  {
    var bits := if length == 0 then [] else Held(s, first + 9 * (length - 1), 8);
    var ending := Ending(bits);
    FewConditions(STOP, ending[0], ending[1]);
    assert ending == [ending[0], ending[1]];
    if length > 0 {
      AcceptedConditions(s, first, length - 1);
      ConditionsAppend(Accepted(s, first, length - 1), ending);
    }
  }

  lemma {:induction false} OneMoreAccepted(items: seq<Item>, s: Slave, first: nat, n: nat)
    ensures items + Accepted(s, first, n) + [Byte(Received(s, first, n), false)] == items + Accepted(s, first, n + 1)
  {
  }

  /**
   What the decoder hears of the two calls, item by item.  The read address is the device
   with its lowest bit set; each byte of a read is acknowledged but the last.
   */
  lemma {:induction false} TransactionItems(s: Slave, first: nat, device: byte, addr: byte, data: byte, length: nat)
    ensures WriteTransaction(s, first, device, addr, data) ==
            [START, Byte(device, s.hold(first + 8)), Byte(addr, s.hold(first + 17)), Byte(data, s.hold(first + 26)), STOP]
    ensures var items := ReadTransaction(s, first, device, addr, length);
            && |items| == 6 + (if length == 0 then 1 else length)
            && items[0] == START && items[1] == Byte(device, s.hold(first + 8)) && items[2] == Byte(addr, s.hold(first + 17))
            && items[3] == START
            && items[4].Byte? && items[4].nack == s.hold(first + 27)
            && items[4].value % 2 == 1 && items[4].value / 2 == device / 2
            && (forall k :: 0 <= k < length ==>
                  items[5 + k] == Byte(Value(Held(s, first + 28 + 9 * k, 8)), k == length - 1))
            && (length == 0 ==> items[5] == Torn([true]))
            && items[|items| - 1] == STOP
  {
    var opening, closing := ReadOpening(s, first, device, addr), ReadClosing(s, first + 28, length);
    assert |opening| == 5;
    forall k | 0 <= k < length
      ensures closing[k] == Byte(Value(Held(s, first + 28 + 9 * k, 8)), k == length - 1) {}
    assert ReadTransaction(s, first, device, addr, length) == opening + closing;
  }

  /** The first bit of a byte is the most significant one. */
  lemma {:induction false} MostSignificantFirst(bits: seq<bool>)
    requires |bits| == 8
    ensures Value(bits) ==
            (if bits[0] then 128 else 0) + (if bits[1] then 64 else 0) + (if bits[2] then 32 else 0) +
            (if bits[3] then 16 else 0) + (if bits[4] then 8 else 0) + (if bits[5] then 4 else 0) +
            (if bits[6] then 2 else 0) + (if bits[7] then 1 else 0)
  {
    FourMore(bits, 0);
    FourMore(bits, 4);
    assert bits[..8] == bits && Value(bits[..0]) == 0;
  }

  lemma {:induction false} FourMore(bits: seq<bool>, k: nat)
    requires k + 4 <= |bits|
    ensures Value(bits[..k + 4]) ==
            16 * Value(bits[..k]) + (if bits[k] then 8 else 0) + (if bits[k + 1] then 4 else 0) +
            (if bits[k + 2] then 2 else 0) + (if bits[k + 3] then 1 else 0)
  {
    NextValue(bits, k);
    NextValue(bits, k + 1);
    NextValue(bits, k + 2);
    NextValue(bits, k + 3);
  }

  lemma {:induction false} NextValue(bits: seq<bool>, k: nat)
    requires k < |bits|
    ensures Value(bits[..k + 1]) == 2 * Value(bits[..k]) + if bits[k] then 1 else 0
  {
    assert bits[..k + 1][..k] == bits[..k];
  }

  /** A read of no bytes is the one transaction that is not made of whole bytes. */
  lemma {:induction false} OnlyEmptyReadsAreTorn(s: Slave, first: nat, device: byte, addr: byte, length: nat)
    ensures (exists k :: 0 <= k < |ReadTransaction(s, first, device, addr, length)| &&
                         ReadTransaction(s, first, device, addr, length)[k].Torn?) <==> length == 0
  {
    var items := ReadTransaction(s, first, device, addr, length);
    if length == 0 { assert items[5].Torn?; }
  }

  /** START, the device and the register, with their acknowledge bits. */
  ghost function Opening(s: Slave, first: nat, device: byte, addr: byte): seq<Item> {
    [START, Byte(device, s.hold(first + 8)), Byte(addr, s.hold(first + 17))]
  }

  /** A complete write in the pulses from `first` on. */
  ghost function WriteTransaction(s: Slave, first: nat, device: byte, addr: byte, data: byte): seq<Item> {
    Opening(s, first, device, addr) + [Byte(data, s.hold(first + 26)), STOP]
  }

  lemma {:induction false} FrameIsHeard(p: Parser, b: byte, nack: bool)
    requires p.bits == []
    ensures Feed(FeedBits(p, MsbFirst(b)), Bit(nack)) == Parser(p.items + [Byte(b, nack)], [])
  {
    BitsAreHeard(p, MsbFirst(b), 8);
    ByteComesBack(b);
  }

  /** Bits pile up until the byte is full. */
  lemma {:induction false} BitsAreHeard(p: Parser, bits: seq<bool>, n: nat)
    requires n == |bits| <= 8 && p.bits == []
    ensures FeedBits(p, bits) == Parser(p.items, bits)
    decreases n
  {
    if n > 0 {
      var front, last := bits[..n - 1], bits[n - 1];
      assert FeedBits(p, front) == Parser(p.items, front) by { BitsAreHeard(p, front, n - 1); }
      assert Feed(Parser(p.items, front), Bit(last)) == Parser(p.items, front + [last]);
      assert front + [last] == bits;
    }
  }

  /** Eight shifts bring out the byte, most significant bit first. */
  lemma {:induction false} ByteComesBack(b: byte)
    ensures Value(MsbFirst(b)) == b
  {
    ShiftedOut(b, 8);
    assert MsbFirst(b)[..8] == MsbFirst(b);
    assert Pow2(8) == 256;
  }

  lemma {:induction false} ShiftedOut(b: byte, n: nat)
    requires n <= 8
    ensures 256 * Value(MsbFirst(b)[..n]) + Shifted(b, n) == b * Pow2(n)
    decreases n
  {
    if n > 0 {
      ShiftedOut(b, n - 1);
      var bits := MsbFirst(b);
      assert bits[..n][..n - 1] == bits[..n - 1];
      assert Value(bits[..n]) == 2 * Value(bits[..n - 1]) + if bits[n - 1] then 1 else 0;
      TopBit(Shifted(b, n - 1));
      DoublePow(b, n);
    }
  }

  lemma {:induction false} TopBit(b: byte)
    ensures ShiftLeft(b) == 2 * b - if b >= 128 then 256 else 0
  {
  }

  lemma {:induction false} DoublePow(b: nat, n: nat)
    requires n > 0
    ensures b * Pow2(n) == 2 * (b * Pow2(n - 1))
  {
  }

  lemma {:induction false} NextBit(p: Parser, bits: seq<bool>, i: nat)
    requires i < |bits|
    ensures FeedBits(p, bits[..i + 1]) == Feed(FeedBits(p, bits[..i]), Bit(bits[i]))
  {
    assert bits[..i + 1][..i] == bits[..i];
  }

  /** Fewer than eight bits can be shifted left in a byte. */
  lemma {:induction false} ShiftIn(bits: seq<bool>, i: nat, b: byte)
    requires i < |bits| <= 8 && b == Value(bits[..i])
    ensures Value(bits[..i + 1]) == ShiftLeft(b) + (if bits[i] then 1 else 0) < 256
  {
    assert bits[..i + 1][..i] == bits[..i];
    ValueBound(bits[..i], 7);
  }

  lemma {:induction false} ValueBound(bits: seq<bool>, n: nat)
    requires |bits| <= n
    ensures Value(bits) < Pow2(n)
    ensures n <= 7 ==> Value(bits) < 128
    decreases n
  {
    if bits != [] { ValueBound(bits[..|bits| - 1], n - 1); }
    if n <= 7 { Pow2Bound(n); }
  }

  lemma {:induction false} Pow2Bound(n: nat)
    requires n <= 7
    ensures Pow2(n) <= 128
  {
    if n > 0 { assert Pow2(n) == 2 * Pow2(n - 1); }
    if n > 1 { assert Pow2(n - 1) == 2 * Pow2(n - 2); }
    if n > 2 { assert Pow2(n - 2) == 2 * Pow2(n - 3); }
    if n > 3 { assert Pow2(n - 3) == 2 * Pow2(n - 4); }
    if n > 4 { assert Pow2(n - 4) == 2 * Pow2(n - 5); }
    if n > 5 { assert Pow2(n - 5) == 2 * Pow2(n - 6); }
  }

  function Pow2(n: nat): (p: nat)
    ensures p >= 1
  {
    if n == 0 then 1 else 2 * Pow2(n - 1)
  }
}
