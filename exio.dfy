/** The TCA9554 I/O expander driver (main/EXIO/TCA9554PWR.c): a register store reached over
    I2C, and the pin operations as read-modify-write cycles around one bit. The outcome of
    each I2C transfer is a parameter. */
module Exio {

  const INPUT_REG: nat := 0
  const OUTPUT_REG: nat := 1
  const POLARITY_REG: nat := 2
  const CONFIG_REG: nat := 3

  /** The pins the header names, EXIO1 to EXIO8. */
  predicate IsPin(pin: nat) { 1 <= pin <= 8 }

  /** 1 << (pin - 1) */
  function Mask(pin: nat): bv8
    requires IsPin(pin)
  {
    (1 as bv8) << (pin - 1)
  }

  /** Bit pin - 1 of a register, as 0 or 1. */
  function BitOf(v: bv8, pin: nat): (b: bv8)
    requires IsPin(pin)
    ensures b == 0 || b == 1
  {
    (v >> (pin - 1)) & 1
  }

  function SetBit(v: bv8, pin: nat): bv8
    requires IsPin(pin)
  {
    v | Mask(pin)
  }

  function ClearBit(v: bv8, pin: nat): bv8
    requires IsPin(pin)
  {
    v & !Mask(pin)
  }

  function ToggleBit(v: bv8, pin: nat): bv8
    requires IsPin(pin)
  {
    v ^ Mask(pin)
  }

  /** The new value of a bit written by Mode_EXIO or Set_EXIO. */
  function WithBit(v: bv8, pin: nat, on: bool): bv8
    requires IsPin(pin)
  {
    if on then SetBit(v, pin) else ClearBit(v, pin)
  }

  /** A register is determined by its eight bits. */
  lemma BitsDetermineRegister(v: bv8, w: bv8)
    ensures v == w <==> forall p :: IsPin(p) ==> BitOf(v, p) == BitOf(w, p)
  {
    if forall p :: IsPin(p) ==> BitOf(v, p) == BitOf(w, p) {
      assert BitOf(v, 1) == BitOf(w, 1) && BitOf(v, 2) == BitOf(w, 2);
      assert BitOf(v, 3) == BitOf(w, 3) && BitOf(v, 4) == BitOf(w, 4);
      assert BitOf(v, 5) == BitOf(w, 5) && BitOf(v, 6) == BitOf(w, 6);
      assert BitOf(v, 7) == BitOf(w, 7) && BitOf(v, 8) == BitOf(w, 8);
    }
  }

  /** The masks of the eight pins, written out. */
  lemma MaskValues(pin: nat)
    requires IsPin(pin)
    ensures Mask(pin) == [1, 2, 4, 8, 16, 32, 64, 128][pin - 1]
  {
    if pin == 1 {} else if pin == 2 {} else if pin == 3 {} else if pin == 4 {}
    else if pin == 5 {} else if pin == 6 {} else if pin == 7 {} else {}
  }

  /** The source's shift-and-mask reads the bit the pin's mask selects. */
  lemma BitOfMask(v: bv8, pin: nat)
    requires IsPin(pin)
    ensures BitOf(v, pin) == if v & Mask(pin) == 0 then 0 else 1
  {
    var k := (pin - 1) as bv8;
    assert Mask(pin) == 1 << k && BitOf(v, pin) == (v >> k) & 1;
    ShiftedBit(v, k);
  }

  lemma ShiftedBit(v: bv8, k: bv8)
    requires k < 8
    ensures ((v >> k) & 1 == 0) == (v & (1 << k) == 0)
  {
  }

  /** Two different pins have disjoint single-bit masks. */
  lemma MasksDisjoint(pin: nat, q: nat)
    requires IsPin(pin) && IsPin(q)
    ensures Mask(pin) != 0
    ensures pin != q ==> Mask(pin) & Mask(q) == 0
    ensures Mask(pin) & (Mask(pin) - 1) == 0
  {
    MaskValues(pin);
    MaskValues(q);
  }

  /** Writing one bit sets exactly that bit to the value asked for; any other pin q keeps its
      level. */
  lemma WithBitSpec(v: bv8, pin: nat, on: bool, q: nat)
    requires IsPin(pin) && IsPin(q)
    ensures BitOf(WithBit(v, pin, on), pin) == (if on then 1 else 0)
    ensures q != pin ==> BitOf(WithBit(v, pin, on), q) == BitOf(v, q)
  {
    MasksDisjoint(pin, q);
    BitOfMask(WithBit(v, pin, on), pin);
    BitOfMask(WithBit(v, pin, on), q);
    BitOfMask(v, q);
  }

  /** Toggling flips exactly one bit, and toggling twice restores the register. */
  lemma ToggleBitSpec(v: bv8, pin: nat, q: nat)
    requires IsPin(pin) && IsPin(q)
    ensures BitOf(ToggleBit(v, pin), pin) == 1 - BitOf(v, pin)
    ensures q != pin ==> BitOf(ToggleBit(v, pin), q) == BitOf(v, q)
    ensures ToggleBit(ToggleBit(v, pin), pin) == v
  {
    MasksDisjoint(pin, q);
    BitOfMask(ToggleBit(v, pin), pin);
    BitOfMask(v, pin);
    BitOfMask(ToggleBit(v, pin), q);
    BitOfMask(v, q);
  }

  /** What Read_REG returns: 0 with no device attached, and 0 (the initial value of its
      result) when the transfer fails. */
  function RegisterRead(attached: bool, readOk: bool, stored: bv8): (v: bv8)
    ensures !attached || !readOk ==> v == 0
  {
    if attached && readOk then stored else 0
  }

  /** A pin write whose read fails starts from 0, so it also clears the other seven bits. */
  lemma FailedReadClearsOthers(pin: nat, on: bool, q: nat)
    requires IsPin(pin) && IsPin(q) && q != pin
    ensures WithBit(RegisterRead(true, false, 0xFF), pin, on) == (if on then Mask(pin) else 0)
    ensures BitOf(WithBit(RegisterRead(true, false, 0xFF), pin, on), q) == 0
  {
    WithBitSpec(0, pin, on, q);
    MaskValues(pin);
  }

  /** How EXIO_Init ends. */
  datatype InitResult = InitOk | InvalidArg | AddDeviceFailed

  /** The expander: whether its device handle exists, and its four registers (input, output,
      polarity inversion, configuration). */
  class Tca9554 {
    var attached: bool
    const regs: array<bv8>

    ghost predicate Valid()
      reads this
    {
      regs.Length == 4
    }

    /** The chip with the given register contents and no device handle yet. */
    constructor (initial: seq<bv8>)
      requires |initial| == 4
      ensures Valid() && !attached && regs[..] == initial
      ensures fresh(regs)
    {
      attached := false;
      var r := new bv8[4];
      r[0], r[1], r[2], r[3] := initial[0], initial[1], initial[2], initial[3];
      regs := r;
    }

    /** Read_REG. */
    method ReadReg(reg: nat, readOk: bool) returns (data: bv8)
      requires Valid() && reg < 4
      ensures data == RegisterRead(attached, readOk, regs[reg])
    {
      data := 0;
      if !attached {
        return;
      }
      if readOk {
        data := regs[reg];
      }
    }

    /** Write_REG: the register takes the value when a device is attached and the transfer
        succeeds; otherwise nothing changes. */
    method WriteReg(reg: nat, data: bv8, writeOk: bool)
      requires Valid() && reg < 4
      modifies regs
      ensures regs[..] == if attached && writeOk then old(regs[..])[reg := data] else old(regs[..])
    {
      if !attached {
        return;
      }
      if writeOk {
        regs[reg] := data;
      }
    }

    /** Mode_EXIO: bit pin - 1 of the configuration register becomes 0 for State 0 and 1
        otherwise, over whatever the read returned. */
    method ModeExio(pin: nat, state: bv8, readOk: bool, writeOk: bool)
      requires Valid() && IsPin(pin)
      modifies regs
      ensures var written := WithBit(RegisterRead(attached, readOk, old(regs[CONFIG_REG])), pin, state != 0);
        regs[..] == if attached && writeOk then old(regs[..])[CONFIG_REG := written] else old(regs[..])
    {
      var bitsStatus := ReadReg(CONFIG_REG, readOk);
      var data: bv8;
      if state == 0 {
        data := ClearBit(bitsStatus, pin);
      } else {
        data := SetBit(bitsStatus, pin);
      }
      WriteReg(CONFIG_REG, data, writeOk);
    }

    /** Mode_EXIOS: the whole configuration register. */
    method ModeExios(pinState: bv8, writeOk: bool)
      requires Valid()
      modifies regs
      ensures regs[..] == if attached && writeOk then old(regs[..])[CONFIG_REG := pinState] else old(regs[..])
    {
      WriteReg(CONFIG_REG, pinState, writeOk);
    }

    /** Read_EXIO: the level of one input pin. */
    method ReadExio(pin: nat, readOk: bool) returns (level: bv8)
      requires Valid() && IsPin(pin)
      ensures level == BitOf(RegisterRead(attached, readOk, regs[INPUT_REG]), pin)
      ensures level == 0 || level == 1
    {
      var inputBits := ReadReg(INPUT_REG, readOk);
      level := (inputBits >> (pin - 1)) & 1;
    }

    /** Read_EXIOS: the whole input register. */
    method ReadExios(readOk: bool) returns (v: bv8)
      requires Valid()
      ensures v == RegisterRead(attached, readOk, regs[INPUT_REG])
    {
      v := ReadReg(INPUT_REG, readOk);
    }

    /** Set_EXIO: bit pin - 1 of the output register becomes `state`. */
    method SetExio(pin: nat, state: bool, readOk: bool, writeOk: bool)
      requires Valid() && IsPin(pin)
      modifies regs
      ensures var written := WithBit(RegisterRead(attached, readOk, old(regs[OUTPUT_REG])), pin, state);
        regs[..] == if attached && writeOk then old(regs[..])[OUTPUT_REG := written] else old(regs[..])
    {
      var bitsStatus := ReadReg(OUTPUT_REG, readOk);
      var data: bv8;
      if state {
        data := SetBit(bitsStatus, pin);
      } else {
        data := ClearBit(bitsStatus, pin);
      }
      WriteReg(OUTPUT_REG, data, writeOk);
    }

    /** Set_EXIOS: the whole output register. */
    method SetExios(pinState: bv8, writeOk: bool)
      requires Valid()
      modifies regs
      ensures regs[..] == if attached && writeOk then old(regs[..])[OUTPUT_REG := pinState] else old(regs[..])
    {
      WriteReg(OUTPUT_REG, pinState, writeOk);
    }

    /** Set_Toggle: bit pin - 1 of the output register flips. */
    method SetToggle(pin: nat, readOk: bool, writeOk: bool)
      requires Valid() && IsPin(pin)
      modifies regs
      ensures var written := ToggleBit(RegisterRead(attached, readOk, old(regs[OUTPUT_REG])), pin);
        regs[..] == if attached && writeOk then old(regs[..])[OUTPUT_REG := written] else old(regs[..])
    {
      var bitsStatus := ReadReg(OUTPUT_REG, readOk);
      var data := bitsStatus ^ Mask(pin);
      WriteReg(OUTPUT_REG, data, writeOk);
    }

    /** TCA9554PWR_Init: the configuration register takes PinState, then the output
        register 0. */
    method Init(pinState: bv8, configWriteOk: bool, outputWriteOk: bool)
      requires Valid()
      modifies regs
      ensures attached && configWriteOk ==> regs[CONFIG_REG] == pinState
      ensures attached && outputWriteOk ==> regs[OUTPUT_REG] == 0
      ensures !attached || !configWriteOk ==> regs[CONFIG_REG] == old(regs[CONFIG_REG])
      ensures !attached || !outputWriteOk ==> regs[OUTPUT_REG] == old(regs[OUTPUT_REG])
      ensures regs[INPUT_REG] == old(regs[INPUT_REG]) && regs[POLARITY_REG] == old(regs[POLARITY_REG])
    {
      WriteReg(CONFIG_REG, pinState, configWriteOk);
      WriteReg(OUTPUT_REG, 0, outputWriteOk);
    }

    /** EXIO_Init: refuses a missing bus, gives up when the device cannot be added, and
        otherwise attaches the device and makes every pin an output driven low. */
    method ExioInit(busPresent: bool, addOk: bool, configWriteOk: bool, outputWriteOk: bool)
      returns (result: InitResult)
      requires Valid()
      modifies this, regs
      ensures Valid()
      ensures !busPresent ==> result == InvalidArg && attached == old(attached) && regs[..] == old(regs[..])
      ensures busPresent && !addOk ==> result == AddDeviceFailed && attached == old(attached) && regs[..] == old(regs[..])
      ensures busPresent && addOk ==>
        && result == InitOk && attached
        && regs[..] == old(regs[..])[CONFIG_REG := if configWriteOk then 0 else old(regs[CONFIG_REG])]
                                    [OUTPUT_REG := if outputWriteOk then 0 else old(regs[OUTPUT_REG])]
    {
      if !busPresent {
        return InvalidArg;
      }
      if !addOk {
        return AddDeviceFailed;
      }
      attached := true;
      Init(0, configWriteOk, outputWriteOk);
      result := InitOk;
    }
  }
}
