/** The firmware's driver for the 28C256 parallel EEPROM: the address is
    shifted out to two 8-bit shift registers (high byte first), and a data
    byte travels over eight I/O pins, bit i on pin IOROM[i]. Pin levels are
    booleans, `true` for HIGH; the control lines OE, CE and WE are active low. */
module Eeprom {
  import opened Common

  /** The highest address of the chip's 32 KiB. */
  const MAX_ADDR := 32767

  const HIGH := true
  const LOW := false

  /** Arduino's 32-bit signed `long`. */
  type Long = x: int | -0x8000_0000 <= x < 0x8000_0000

  /** C's `%` on a positive divisor: the remainder takes the dividend's sign. */
  function CRem(a: int, b: int): (r: int)
    requires b > 0
    ensures -b < r < b && (a >= 0 ==> r == a % b) && (a < 0 ==> r <= 0)
    ensures a == CDiv(a, b) * b + r
  {
    if a >= 0 then a % b else -((-a) % b)
  }

  /** C's `/` on a positive divisor: the quotient is truncated toward zero. */
  function CDiv(a: int, b: int): (q: int)
    requires b > 0
    ensures a >= 0 ==> 0 <= q && q * b <= a < q * b + b
    ensures a < 0 ==> q <= 0 && q * b - b < a <= q * b
  {
    TruncatedBounds(a, b);
    if a >= 0 then a / b else -((-a) / b)
  }

  /** Division of the dividend's magnitude brackets it between two
      consecutive multiples of the divisor, on either side of zero. */
  lemma TruncatedBounds(a: int, b: int)
    requires b > 0
    ensures a >= 0 ==> 0 <= a / b && a / b * b <= a < a / b * b + b
    ensures a < 0 ==> 0 <= (-a) / b && -((-a) / b) * b - b < a <= -((-a) / b) * b
  {
    var n := if a >= 0 then a else -a;
    FloorBounds(n, b);
    NegatedProduct(n / b, b);
  }

  /** Euclidean division of a natural number by a positive divisor. */
  lemma FloorBounds(n: nat, b: int)
    requires b > 0
    ensures 0 <= n / b && n / b * b <= n < n / b * b + b
  {
    var m := n / b;
    assert n == m * b + n % b && 0 <= n % b < b;
  }

  /** Negating a factor negates the product. */
  lemma NegatedProduct(m: int, b: int)
    ensures -m * b == -(m * b)
  {
  }

  /** Storing an integer in a `byte`: its value modulo 256. */
  function ToByte(x: int): Byte {
    x % 0x100
  }

  /** `set_address`'s low byte: `address % 0x0100`, stored in a byte. */
  function LowByte(address: Long): (b: Byte)
    ensures b == address % 0x100
  {
    ToByte(CRem(address, 0x100))
  }

  /** `set_address`'s high byte: `(address - low) / 0x0100`, stored in a byte. */
  function HighByte(address: Long): (b: Byte)
    ensures b == (address / 0x100) % 0x100
  {
    ToByte(CDiv(address - LowByte(address), 0x100))
  }

  /** The address the two shift registers present to the chip once latched. */
  function Latched(high: Byte, low: Byte): (address: int)
    ensures 0 <= address < 0x10000
  {
    high * 0x100 + low
  }

  /** Splitting an address of the chip's range into its two bytes and joining
      them again gives the address back; its high byte fits in 7 bits, as the
      chip has 15 address lines. */
  lemma SplitJoin(address: Long)
    requires 0 <= address <= MAX_ADDR
    ensures Latched(HighByte(address), LowByte(address)) == address
    ensures HighByte(address) <= 0x7F
  {
    assert LowByte(address) == address % 0x100;
    assert HighByte(address) == address / 0x100;
  }

  /** Joining two bytes and splitting the result gives the two bytes back. */
  lemma JoinSplit(high: Byte, low: Byte)
    ensures HighByte(Latched(high, low)) == high && LowByte(Latched(high, low)) == low
  {
    var address := Latched(high, low);
    assert address % 0x100 == low;
    assert (address - low) / 0x100 == high;
  }

  /** The eight pin levels of a byte: bit i (least significant first) at index i. */
  function Bits(n: nat, k: nat): (levels: seq<bool>)
    ensures |levels| == k
  {
    if k == 0 then [] else [n % 2 == 1] + Bits(n / 2, k - 1)
  }

  /** The number pin levels stand for, index i weighing 2^i. */
  function BitsValue(levels: seq<bool>): nat {
    if |levels| == 0 then 0 else (if levels[0] then 1 else 0) + 2 * BitsValue(levels[1..])
  }

  /** k pin levels stand for less than 2^k. */
  lemma {:induction false} BitsValueBound(levels: seq<bool>)
    ensures BitsValue(levels) < Pow2(|levels|)
  {
    if |levels| > 0 {
      BitsValueBound(levels[1..]);
    }
  }

  /** Reading back the levels a number was written as gives the number,
      whenever it fits in that many bits. */
  lemma {:induction false} BitsRoundTrip(n: nat, k: nat)
    requires n < Pow2(k)
    ensures BitsValue(Bits(n, k)) == n
  {
    if k > 0 {
      BitsRoundTrip(n / 2, k - 1);
      assert Bits(n, k)[1..] == Bits(n / 2, k - 1);
    }
  }

  /** Writing out the number any levels stand for gives the same levels. */
  lemma {:induction false} ValueRoundTrip(levels: seq<bool>)
    ensures Bits(BitsValue(levels), |levels|) == levels
  {
    if |levels| > 0 {
      var rest := BitsValue(levels[1..]);
      ValueRoundTrip(levels[1..]);
      assert BitsValue(levels) / 2 == rest;
      assert levels == [levels[0]] + levels[1..];
    }
  }

  /** Reading the levels `write` drives for a byte gives the byte back. */
  lemma ReadBackWritten(data: Byte)
    ensures BitsValue(Bits(data, 8)) == data
  {
    assert Pow2(8) == 0x100;
    BitsRoundTrip(data, 8);
  }

  /** One doubling step of `read`, over the eight pin levels: reading
      level `i` after the ones above it gives the value of levels i..7,
      which still fits a byte. */
  lemma ReadStep(levels: seq<bool>, i: nat)
    requires i < |levels| == 8
    ensures BitsValue(levels[i..]) == 2 * BitsValue(levels[i + 1..]) + (if levels[i] then 1 else 0)
    ensures BitsValue(levels[i..]) < 0x100
  {
    BitsValueStep(levels, i);
    BitsValueBound(levels[i..]);
    PowMonotone(8 - i, 8);
    assert Pow2(8) == 0x100;
  }

  lemma BitsValueStep(levels: seq<bool>, i: nat)
    requires i < |levels|
    ensures BitsValue(levels[i..]) == (if levels[i] then 1 else 0) + 2 * BitsValue(levels[i + 1..])
  {
    assert levels[i..][1..] == levels[i + 1..];
  }

  class Eeprom28C256 {
    /** Whether the eight data pins are currently outputs. */
    var ioOutput: bool
    /** Levels of the control lines OE, CE and WE (active low). */
    var oe: bool
    var ce: bool
    var we: bool
    /** The bytes last shifted into the high and the low address register. */
    var high: Byte
    var low: Byte
    /** Direction of each data pin IOROM[0..7], `true` for OUTPUT. */
    const mode: array<bool>
    /** Level on each data pin IOROM[0..7]: driven by `write` when the pins
        are outputs, by the chip when they are inputs. */
    const io: array<bool>

    /** Eight data pins, whose directions all agree with `io_output`. */
    ghost predicate Valid()
      reads this, mode
    {
      mode.Length == 8 && io.Length == 8 && mode != io
      && forall i :: 0 <= i < 8 ==> mode[i] == ioOutput
    }

    /** The constructor: the data pins become inputs, and OE, WE and CE are
        raised, so the chip is idle. */
    constructor ()
      ensures Valid() && fresh(mode) && fresh(io)
      ensures !ioOutput && oe == HIGH && we == HIGH && ce == HIGH
    {
      mode := new bool[8](_ => true);
      io := new bool[8](_ => LOW);
      new;
      SetIoOutput(false);
      oe := HIGH;
      we := HIGH;
      ce := HIGH;
    }

    /** `set_io_output`: every data pin takes the direction asked for, and the
        flag records it. */
    method SetIoOutput(pinStatus: bool)
      requires mode.Length == 8 && io.Length == 8 && mode != io
      modifies this, mode
      ensures Valid() && ioOutput == pinStatus
      ensures oe == old(oe) && ce == old(ce) && we == old(we) && high == old(high) && low == old(low)
      ensures forall i :: 0 <= i < 8 ==> mode[i] == pinStatus
    {
      for i := 0 to 8
        modifies mode
        invariant forall j :: 0 <= j < i ==> mode[j] == pinStatus
      {
        mode[i] := pinStatus;
      }
      ioOutput := pinStatus;
    }

    /** `set_address`: the high byte is shifted out first, then the low byte,
        and the output registers latch them. */
    method SetAddress(address: Long)
      modifies this
      ensures high == HighByte(address) && low == LowByte(address)
      ensures ioOutput == old(ioOutput) && oe == old(oe) && ce == old(ce) && we == old(we)
    {
      var l := LowByte(address);
      var h := ToByte(CDiv(address - l, 0x100));
      high := h;
      low := l;
    }

    /** `read`: the pins become inputs if they were outputs, the address is
        latched, the chip is enabled with its outputs on, and the eight pin
        levels are read from IOROM[7] down to IOROM[0], doubling as it goes;
        the chip is then disabled. */
    method Read(address: Long) returns (value: Byte)
      requires Valid()
      modifies this, mode
      ensures Valid() && !ioOutput
      ensures value == BitsValue(io[..])
      ensures high == HighByte(address) && low == LowByte(address)
      ensures ce == HIGH && oe == HIGH && we == old(we)
    {
      if ioOutput == true {
        SetIoOutput(false);
      }
      SetAddress(address);
      ce := LOW;
      oe := LOW;
      value := ReadPins();
      ce := HIGH;
      oe := HIGH;
    }

    /** `read`'s loop: the eight pin levels are sampled from IOROM[7] down to
        IOROM[0], the value doubling before each one is added. */
    method ReadPins() returns (value: Byte)
      requires io.Length == 8
      ensures value == BitsValue(io[..])
    {
      ghost var levels := io[..];
      value := 0;
      var i := 7;
      while i >= 0
        invariant -1 <= i <= 7
        invariant value == BitsValue(levels[i + 1..])
      {
        ReadStep(levels, i);
        value := 2 * value + (if io[i] == HIGH then 1 else 0);
        i := i - 1;
      }
      assert levels[i + 1..] == levels by {
        assert i + 1 == 0;
      }
    }

    /** `write`: the pins become outputs if they were inputs, the chip's
        outputs are turned off, the address is latched, the chip is enabled
        and write-enabled, and bit i of `data` is driven onto IOROM[i] by
        repeated halving; WE and CE are then raised and OE lowered. */
    method Write(address: Long, data: Byte)
      requires Valid()
      modifies this, mode, io
      ensures Valid() && ioOutput
      ensures io[..] == Bits(data, 8)
      ensures high == HighByte(address) && low == LowByte(address)
      ensures we == HIGH && ce == HIGH && oe == LOW
    {
      if ioOutput == false {
        SetIoOutput(true);
      }
      oe := HIGH;
      SetAddress(address);
      ce := LOW;
      we := LOW;
      var current: Byte := data;
      for i := 0 to 8
        invariant current == Shifted(data, i)
        invariant io[..i] == Bits(data, i)
        invariant Valid() && ioOutput && high == HighByte(address) && low == LowByte(address)
        invariant oe == HIGH && ce == LOW && we == LOW
      {
        var rem: Byte := current % 2;
        current := (current - rem) / 2;
        if rem == 0 {
          io[i] := LOW;
        } else {
          io[i] := HIGH;
        }
        BitsSnoc(data, i);
        assert io[..i + 1] == io[..i] + [io[i]];
      }
      assert current == 0 by {
        ShiftedBound(data, 8);
      }
      assert io[..] == io[..8];
      we := HIGH;
      ce := HIGH;
      oe := LOW;
    }
  }

  lemma {:induction false} PowMonotone(m: nat, n: nat)
    requires m <= n
    ensures Pow2(m) <= Pow2(n)
    decreases n
  {
    if m < n {
      PowMonotone(m, n - 1);
    }
  }

  /** `n` halved `i` times, as `write`'s `current` is after `i` rounds. */
  function Shifted(n: nat, i: nat): nat {
    if i == 0 then n else Shifted(n, i - 1) / 2
  }

  /** Halving `i` times is halving once and then `i - 1` times. */
  lemma {:induction false} ShiftedFirst(n: nat, i: nat)
    requires i > 0
    ensures Shifted(n, i) == Shifted(n / 2, i - 1)
    decreases i
  {
    if i > 1 {
      ShiftedFirst(n, i - 1);
    }
  }

  /** A byte halved `i` times is less than 2^(8 - i): nothing is left after eight rounds. */
  lemma {:induction false} ShiftedBound(data: Byte, i: nat)
    requires i <= 8
    ensures Shifted(data, i) < Pow2(8 - i)
    decreases i
  {
    if i == 0 {
      assert Pow2(8) == 0x100;
    } else {
      ShiftedBound(data, i - 1);
      assert Pow2(8 - (i - 1)) == 2 * Pow2(8 - i);
    }
  }

  /** The first i + 1 levels of a number are its first i levels and then
      the parity of the number halved i times. */
  lemma {:induction false} BitsSnoc(n: nat, i: nat)
    ensures Bits(n, i + 1) == Bits(n, i) + [Shifted(n, i) % 2 == 1]
    decreases i
  {
    if i > 0 {
      BitsSnoc(n / 2, i - 1);
      ShiftedFirst(n, i);
    }
  }
}
