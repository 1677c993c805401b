/**
 * The Ethernet driver's cached register bank, and its receive buffer. The controller has four banks
 * of control registers; which one an opcode reaches depends on the two bank bits of ECON1, and the
 * driver remembers them in `eth_bank_pointer`. Register values and masks are sets of bits.
 */
module Ethernet {
  import opened Machine
  import opened Addresses
  import opened OnesComplement
  import opened Checksum

  const ECON1: nat := 0x1F
  const ECON1_BSEL: Bits := {0, 1}
  const ECON1_RXEN: Bits := {2}

  // ---------- the controller ----------

  /** Control registers by number: bank and low bits, or the low bits alone for those of every bank. */
  type Registers = map<nat, Bits>

  ghost predicate Total(regs: Registers)
  {
    forall r :: 0 <= r < 0x80 ==> r in regs
  }

  function BankOf(address: byte): (b: nat)
    ensures b < 4
  {
    address / 0x20 % 4
  }

  /** The five registers present in every bank. */
  predicate InEveryBank(address: byte)
  {
    address % 0x20 >= 0x1B
  }

  /** The register that an opcode, which carries only five address bits, reaches in a bank. */
  function Reached(bank: nat, address: byte): (r: nat)
    requires bank < 4
    ensures r < 0x80
  {
    if InEveryBank(address) then address % 0x20 else bank * 0x20 + address % 0x20
  }

  /** The register a full address names. */
  function Named(address: byte): (r: nat)
    ensures r < 0x80
  {
    Reached(BankOf(address), address)
  }

  function BankBits(bank: nat): (b: Bits)
    requires bank < 4
    ensures b <= ECON1_BSEL
  {
    (if bank % 2 == 1 then {0} else {}) + (if bank >= 2 then {1} else {})
  }

  /** `(address & BANK_MASK) >> 5`, as the bits that are set in ECON1. */
  lemma BankBitsAreBits(bank: nat)
    requires bank < 4
    ensures BankBits(bank) == BitsOf(bank)
  {
    assert Bit(bank, 0) <==> bank % 2 == 1;
    assert Bit(bank, 1) <==> bank / 2 % 2 == 1;
    NoOnes(8);
    forall i | 2 <= i < 8 ensures !Bit(bank, i) {
      assert Bit(bank, i) == Bit(bank / 2, i - 1) == Bit(bank / 2 / 2, i - 2);
    }
  }

  /** A full address names the register of its low seven bits, or of its low five from 0x1B up. */
  lemma NamedByNumber(address: byte)
    ensures Named(address) == if address % 0x20 >= 0x1B then address % 0x20 else address % 0x80
  {
    LowSevenBits(address / 0x20, address % 0x20);
  }

  lemma LowSevenBits(high: nat, low: nat)
    requires high < 8 && low < 0x20
    ensures (high * 0x20 + low) % 0x80 == high % 4 * 0x20 + low
  {
  }

  /** The bank the controller has selected. */
  function Selected(regs: Registers): (b: nat)
    requires Total(regs)
    ensures b < 4
    ensures regs[ECON1] * ECON1_BSEL == BankBits(b)
  {
    (if 0 in regs[ECON1] then 1 else 0) + (if 1 in regs[ECON1] then 2 else 0)
  }

  lemma SelectedByBits(regs: Registers, bank: nat)
    requires Total(regs) && bank < 4 && regs[ECON1] * ECON1_BSEL == BankBits(bank)
    ensures Selected(regs) == bank
  {
    assert 0 in regs[ECON1] <==> 0 in BankBits(bank);
    assert 1 in regs[ECON1] <==> 1 in BankBits(bank);
  }

  // ---------- runs of the driver, and of a flat register file ----------

  /** The driver's calls: banked byte access, and raw bit-field opcodes. */
  datatype Op =
    | Read(address: byte)
    | Write(address: byte, data: Bits)
    | RawSet(address: byte, mask: Bits)
    | RawClear(address: byte, mask: Bits)

  datatype Driver = Driver(bank: nat, regs: Registers)

  ghost predicate Coherent(d: Driver)
  {
    Total(d.regs) && d.bank == Selected(d.regs)
  }

  /** `eth_set_bank`: clear both bank bits, set those of the address. */
  function SetBank(d: Driver, address: byte): (r: Driver)
    requires Total(d.regs)
    ensures Total(r.regs)
  {
    if BankOf(address) == d.bank then d
    else Driver(BankOf(address), d.regs[ECON1 := d.regs[ECON1] - ECON1_BSEL + BankBits(BankOf(address))])
  }

  function Step(d: Driver, op: Op): (r: (Driver, Bits))
    requires Total(d.regs)
    ensures Total(r.0.regs)
  {
    match op
    case Read(address) =>
      var e := SetBank(d, address);
      (e, e.regs[Reached(Selected(e.regs), address)])
    case Write(address, data) =>
      var e := SetBank(d, address);
      (e.(regs := e.regs[Reached(Selected(e.regs), address) := data]), {})
    case RawSet(address, mask) =>
      var r := Reached(Selected(d.regs), address);
      (d.(regs := d.regs[r := d.regs[r] + mask]), {})
    case RawClear(address, mask) =>
      var r := Reached(Selected(d.regs), address);
      (d.(regs := d.regs[r := d.regs[r] - mask]), {})
  }

  /** A register's value without banks: the bank bits of ECON1 are no part of it. */
  function FlatValue(r: nat, value: Bits): (v: Bits)
  {
    if r == ECON1 then value - ECON1_BSEL else value
  }

  function FlatView(regs: Registers): (r: Registers)
    requires Total(regs)
    ensures Total(r)
  {
    regs[ECON1 := FlatValue(ECON1, regs[ECON1])]
  }

  function FlatStep(regs: Registers, op: Op): (r: (Registers, Bits))
    requires Total(regs)
    ensures Total(r.0)
  {
    var r := Named(op.address);
    match op
    case Read(_) => (regs, regs[r])
    case Write(_, data) => (regs[r := FlatValue(r, data)], {})
    case RawSet(_, mask) => (regs[r := FlatValue(r, regs[r] + mask)], {})
    case RawClear(_, mask) => (regs[r := FlatValue(r, regs[r] - mask)], {})
  }

  /** A raw opcode names a register of every bank, or of the bank selected. */
  predicate WellPlaced(d: Driver, address: byte)
  {
    InEveryBank(address) || BankOf(address) == d.bank
  }

  /** Whatever reaches ECON1 leaves the bank bits as they are, and a raw opcode is well placed. */
  predicate Harmless(d: Driver, op: Op)
  {
    match op
    case Read(_) => true
    case Write(address, data) => Named(address) == ECON1 ==> data * ECON1_BSEL == BankBits(BankOf(address))
    case RawSet(address, mask) => WellPlaced(d, address) && (Named(address) == ECON1 ==> mask * ECON1_BSEL == {})
    case RawClear(address, mask) => WellPlaced(d, address) && (Named(address) == ECON1 ==> mask * ECON1_BSEL == {})
  }

  lemma SetBankKeepsFlat(d: Driver, address: byte)
    requires Total(d.regs)
    ensures FlatView(SetBank(d, address).regs) == FlatView(d.regs)
  {
    assert d.regs[ECON1] - ECON1_BSEL + BankBits(BankOf(address)) - ECON1_BSEL == d.regs[ECON1] - ECON1_BSEL;
  }

  /** After `eth_set_bank` the cache is right, and only the bank bits have changed. */
  lemma SetBankSelects(d: Driver, address: byte)
    requires Coherent(d)
    ensures var e := SetBank(d, address);
            Coherent(e) && e.bank == BankOf(address) && FlatView(e.regs) == FlatView(d.regs)
  {
    var e := SetBank(d, address);
    if BankOf(address) != d.bank {
      SelectedByBits(e.regs, BankOf(address));
      assert e.regs[ECON1] - ECON1_BSEL == d.regs[ECON1] - ECON1_BSEL;
    }
  }

  /** A store that keeps the bank bits, if it goes to ECON1. */
  lemma StoreRefinesFlat(d: Driver, r: nat, value: Bits)
    requires Coherent(d) && r < 0x80 && (r == ECON1 ==> value * ECON1_BSEL == BankBits(d.bank))
    ensures Coherent(Driver(d.bank, d.regs[r := value]))
    ensures FlatView(d.regs[r := value]) == FlatView(d.regs)[r := FlatValue(r, value)]
  {
    if r == ECON1 {
      SelectedByBits(d.regs[r := value], d.bank);
    }
  }

  /**
   * One harmless call keeps the cache coherent and does to the flat register file what its full
   * address says; a read returns the flat value, with the bank bits added if it is ECON1.
   */
  lemma StepRefinesFlat(d: Driver, op: Op)
    requires Coherent(d) && Harmless(d, op)
    ensures Coherent(Step(d, op).0)
    ensures FlatView(Step(d, op).0.regs) == FlatStep(FlatView(d.regs), op).0
    ensures op.Read? ==> FlatValue(Named(op.address), Step(d, op).1) == FlatStep(FlatView(d.regs), op).1
  {
    var r := Named(op.address);
    match op {
      case Read(address) =>
        SetBankSelects(d, address);
        assert FlatView(SetBank(d, address).regs)[r] == FlatValue(r, SetBank(d, address).regs[r]);
      case Write(address, data) =>
        SetBankSelects(d, address);
        StoreRefinesFlat(SetBank(d, address), r, data);
      case RawSet(address, mask) =>
        KeepsBankBits(d.regs[ECON1], mask);
        StoreRefinesFlat(d, r, d.regs[r] + mask);
      case RawClear(address, mask) =>
        KeepsBankBits(d.regs[ECON1], mask);
        StoreRefinesFlat(d, r, d.regs[r] - mask);
    }
  }

  lemma KeepsBankBits(value: Bits, mask: Bits)
    ensures mask * ECON1_BSEL == {} ==> (value + mask) * ECON1_BSEL == value * ECON1_BSEL
    ensures mask * ECON1_BSEL == {} ==> (value - mask) * ECON1_BSEL == value * ECON1_BSEL
    ensures (value - ECON1_BSEL + mask) - ECON1_BSEL == (value + mask) - ECON1_BSEL
    ensures (value - ECON1_BSEL - mask) - ECON1_BSEL == (value - mask) - ECON1_BSEL
  {
    if mask * ECON1_BSEL == {} {
      assert forall b :: b in ECON1_BSEL ==> b !in mask by {
        forall b | b in ECON1_BSEL ensures b !in mask {
          assert b in mask ==> b in mask * ECON1_BSEL;
        }
      }
    }
  }

  /** A banked write keeps the cache coherent exactly when it is harmless. */
  lemma WriteCoherentExactly(d: Driver, address: byte, data: Bits)
    requires Coherent(d)
    ensures Coherent(Step(d, Write(address, data)).0) <==> Harmless(d, Write(address, data))
  {
    SetBankSelects(d, address);
    if Harmless(d, Write(address, data)) {
      StepRefinesFlat(d, Write(address, data));
    }
  }

  function Run(d: Driver, ops: seq<Op>): (r: Driver)
    requires Total(d.regs)
    ensures Total(r.regs)
    decreases |ops|
  {
    if ops == [] then d else Run(Step(d, ops[0]).0, ops[1..])
  }

  function FlatRun(regs: Registers, ops: seq<Op>): (r: Registers)
    requires Total(regs)
    decreases |ops|
  {
    if ops == [] then regs else FlatRun(FlatStep(regs, ops[0]).0, ops[1..])
  }

  ghost predicate HarmlessRun(d: Driver, ops: seq<Op>)
    requires Total(d.regs)
    decreases |ops|
  {
    ops != [] ==> Harmless(d, ops[0]) && HarmlessRun(Step(d, ops[0]).0, ops[1..])
  }

  /** Over every harmless run the banked controller behaves as the flat register file. */
  lemma {:induction false} RunRefinesFlat(d: Driver, ops: seq<Op>)
    requires Coherent(d) && HarmlessRun(d, ops)
    ensures Coherent(Run(d, ops))
    ensures FlatView(Run(d, ops).regs) == FlatRun(FlatView(d.regs), ops)
    decreases |ops|
  {
    if ops != [] {
      StepRefinesFlat(d, ops[0]);
      RunRefinesFlat(Step(d, ops[0]).0, ops[1..]);
    }
  }

  // ---------- the driver ----------

  // Addresses used by `eth_init`, by bank.
  const EIE: byte := 0x1B
  const ERXSTL: byte := 0x08
  const ERXSTH: byte := 0x09
  const ERXNDL: byte := 0x0A
  const ERXNDH: byte := 0x0B
  const ERXRDPTL: byte := 0x0C
  const ERXRDPTH: byte := 0x0D
  const ETXSTL: byte := 0x04
  const ETXSTH: byte := 0x05
  const ETXNDL: byte := 0x06
  const ETXNDH: byte := 0x07
  const ERXFCON: byte := 0x38
  const EPMM0: byte := 0x28
  const EPMM1: byte := 0x29
  const EPMCSL: byte := 0x30
  const EPMCSH: byte := 0x31
  const MACON1: byte := 0xC0
  const MACON2: byte := 0xC1
  const MACON3: byte := 0xC2
  const MABBIPG: byte := 0xC4
  const MAIPGL: byte := 0xC6
  const MAIPGH: byte := 0xC7
  const MAMXFLL: byte := 0xCA
  const MAMXFLH: byte := 0xCB
  const MIREGADR: byte := 0xD4
  const MIWRL: byte := 0xD6
  const MIWRH: byte := 0xD7
  const MISTAT: byte := 0xEA
  const MAADR1: byte := 0xE0
  const MAADR0: byte := 0xE1
  const MAADR3: byte := 0xE2
  const MAADR2: byte := 0xE3
  const MAADR5: byte := 0xE4
  const MAADR4: byte := 0xE5

  const ETH_REG_RX_STOP: u16 := 0x1FFF - 0x0600 - 1
  const ETH_REG_TX_START: u16 := 0x1FFF - 0x0600
  const ETH_REG_TX_STOP: u16 := 0x1FFF
  const ETH_MAX_FRAME_LENGTH: u16 := 1500

  // What `eth_init` leaves in the registers it writes, by number: bank times 0x20, plus the low five bits.

  ghost predicate Holds(regs: Registers, r: nat, data: byte)
  {
    r in regs && regs[r] == BitsOf(data)
  }

  /** The registers written, by step: buffers; filter and MACON; gaps, PHY access, hardware address, EIE and ECON1. */
  predicate IsBuffer(r: nat)
  {
    0x04 <= r <= 0x0D
  }

  predicate IsFilterOrMac(r: nat)
  {
    0x28 <= r <= 0x29 || 0x30 <= r <= 0x31 || r == 0x38 || 0x40 <= r <= 0x42
  }

  predicate IsLinkOrControl(r: nat)
  {
    || r == 0x44 || 0x46 <= r <= 0x47 || 0x4A <= r <= 0x4B || r == 0x54 || 0x56 <= r <= 0x57 || 0x60 <= r <= 0x65
    || r == 0x1B || r == 0x1F
  }

  /** Every other register is as the reset left it. */
  ghost predicate OthersKept(before: Registers, after: Registers)
  {
    && Total(before) && Total(after)
    && forall r :: 0 <= r < 0x80 && !IsBuffer(r) && !IsFilterOrMac(r) && !IsLinkOrControl(r) ==> after[r] == before[r]
  }

  /** ETXST 0x19FF, ETXND 0x1FFF, ERXST and ERXRDPT 0, ERXND 0x19FE, each low byte first. */
  ghost predicate BuffersSet(regs: Registers)
  {
    && Holds(regs, 0x04, 0xFF) && Holds(regs, 0x05, 0x19) && Holds(regs, 0x06, 0xFF) && Holds(regs, 0x07, 0x1F)
    && Holds(regs, 0x08, 0) && Holds(regs, 0x09, 0) && Holds(regs, 0x0A, 0xFE) && Holds(regs, 0x0B, 0x19)
    && Holds(regs, 0x0C, 0) && Holds(regs, 0x0D, 0)
  }

  /** Unicast, valid CRC, and the pattern of a broadcast ARP frame: EPMM0, EPMM1, EPMCS, ERXFCON. */
  ghost predicate FilterSet(regs: Registers)
  {
    && Holds(regs, 0x28, 0x3F) && Holds(regs, 0x29, 0x30) && Holds(regs, 0x30, 0xF9) && Holds(regs, 0x31, 0xF7)
    && Holds(regs, 0x38, 0xB0)
  }

  /** MACON1 and MACON2 written, three bits of MACON3 set: padding, CRC and length check. */
  ghost predicate MacSet(regs: Registers, before: Registers)
  {
    && Holds(regs, 0x40, 0x0D) && Holds(regs, 0x41, 0)
    && 0x42 in regs && 0x42 in before && regs[0x42] == before[0x42] + {1, 4, 5}
  }

  /** Inter-frame gaps, and a maximum frame length of 1500. */
  ghost predicate GapsSet(regs: Registers)
  {
    && Holds(regs, 0x44, 0x12) && Holds(regs, 0x46, 0x12) && Holds(regs, 0x47, 0x0C)
    && Holds(regs, 0x4A, 0xDC) && Holds(regs, 0x4B, 0x05)
  }

  /** PHY register 0x10 is written with 0x0100. */
  ghost predicate FullDuplexSet(regs: Registers)
  {
    Holds(regs, 0x54, 0x10) && Holds(regs, 0x56, 0) && Holds(regs, 0x57, 0x01)
  }

  /** The hardware address, its first octet in MAADR5 and its last in MAADR0. */
  ghost predicate AddressSet(regs: Registers, mac: seq<byte>)
    requires |mac| == 6
  {
    && Holds(regs, 0x64, mac[0]) && Holds(regs, 0x65, mac[1]) && Holds(regs, 0x62, mac[2])
    && Holds(regs, 0x63, mac[3]) && Holds(regs, 0x60, mac[4]) && Holds(regs, 0x61, mac[5])
  }

  lemma BitsOfMasks()
    ensures BitsOf(0xC0) == {6, 7} && BitsOf(0x32) == {1, 4, 5}
  {
  }

  // The same as steps on the flat register file, in the order of `eth_init`.

  function WithBuffers(m: Registers): (r: Registers)
  {
    m[0x08 := BitsOf(0)][0x09 := BitsOf(0)][0x0C := BitsOf(0)][0x0D := BitsOf(0)]
     [0x0A := BitsOf(0xFE)][0x0B := BitsOf(0x19)][0x04 := BitsOf(0xFF)][0x05 := BitsOf(0x19)]
     [0x06 := BitsOf(0xFF)][0x07 := BitsOf(0x1F)]
  }

  function WithFilter(m: Registers): (r: Registers)
  {
    m[0x38 := BitsOf(0xB0)][0x28 := BitsOf(0x3F)][0x29 := BitsOf(0x30)][0x30 := BitsOf(0xF9)][0x31 := BitsOf(0xF7)]
  }

  function WithMac(m: Registers): (r: Registers)
    requires 0x42 in m
  {
    m[0x40 := BitsOf(0x0D)][0x41 := BitsOf(0)][0x42 := m[0x42] + {1, 4, 5}]
  }

  function WithGaps(m: Registers): (r: Registers)
  {
    m[0x46 := BitsOf(0x12)][0x47 := BitsOf(0x0C)][0x44 := BitsOf(0x12)][0x4A := BitsOf(0xDC)][0x4B := BitsOf(0x05)]
  }

  function WithAddress(m: Registers, mac: seq<byte>): (r: Registers)
    requires |mac| == 6
  {
    m[0x64 := BitsOf(mac[0])][0x65 := BitsOf(mac[1])][0x62 := BitsOf(mac[2])][0x63 := BitsOf(mac[3])]
     [0x60 := BitsOf(mac[4])][0x61 := BitsOf(mac[5])]
  }

  function WithPhy(m: Registers, address: byte, data: u16): (r: Registers)
  {
    m[0x54 := BitsOf(address)][0x56 := BitsOf(data % 0x100)][0x57 := BitsOf(data / 0x100)]
  }

  function Receiving(m: Registers): (r: Registers)
    requires 0x1B in m && 0x1F in m
  {
    m[0x1B := m[0x1B] + {6, 7}][0x1F := m[0x1F] + {2}]
  }

  lemma BuffersThen(m: Registers) returns (r: Registers)
    requires Total(m)
    ensures r == WithBuffers(m) && Total(r) && BuffersSet(r)
    ensures forall k :: 0 <= k < 0x80 && !IsBuffer(k) ==> r[k] == m[k]
  {
    r := WithBuffers(m);
  }

  lemma FilterAndMacThen(m: Registers) returns (r: Registers)
    requires Total(m)
    ensures r == WithMac(WithFilter(m)) && Total(r) && FilterSet(r) && MacSet(r, m)
    ensures forall k :: 0 <= k < 0x80 && !IsFilterOrMac(k) ==> r[k] == m[k]
  {
    r := WithMac(WithFilter(m));
  }

  lemma LinkThen(m: Registers, mac: seq<byte>) returns (r: Registers)
    requires Total(m) && |mac| == 6
    ensures r == Receiving(WithPhy(WithAddress(WithGaps(m), mac), 0x10, 0x0100)) && Total(r)
    ensures GapsSet(r) && FullDuplexSet(r) && AddressSet(r, mac)
    ensures r[0x1B] == m[0x1B] + {6, 7} && r[0x1F] == m[0x1F] + {2}
    ensures forall k :: 0 <= k < 0x80 && !IsLinkOrControl(k) ==> r[k] == m[k]
  {
    r := Receiving(WithPhy(WithAddress(WithGaps(m), mac), 0x10, 0x0100));
  }

  lemma EarlierStay(m: Registers, buffers: Registers, macs: Registers, end: Registers)
    requires Total(m) && Total(buffers) && Total(macs) && Total(end)
    requires BuffersSet(buffers) && FilterSet(macs) && MacSet(macs, buffers)
    requires forall k :: 0 <= k < 0x80 && !IsBuffer(k) ==> buffers[k] == m[k]
    requires forall k :: 0 <= k < 0x80 && !IsFilterOrMac(k) ==> macs[k] == buffers[k]
    requires forall k :: 0 <= k < 0x80 && !IsLinkOrControl(k) ==> end[k] == macs[k]
    ensures BuffersSet(end) && FilterSet(end) && MacSet(end, m)
    ensures macs[0x1B] == m[0x1B] && macs[0x1F] == m[0x1F] && OthersKept(m, end)
  {
  }

  /** With bank 0 selected before and after, ECON1 is its flat value. */
  lemma InBankZero(regs: Registers)
    requires Total(regs) && regs[ECON1] * ECON1_BSEL == {}
    ensures FlatView(regs) == regs
  {
    assert regs[ECON1] - ECON1_BSEL == regs[ECON1] - regs[ECON1] * ECON1_BSEL == regs[ECON1];
    assert regs[ECON1 := regs[ECON1]] == regs;
  }

  /** `eth_bank_pointer`, and the registers of the controller it talks to. */
  class EthDriver {
    var bank: nat
    var regs: Registers

    ghost predicate Valid()
      reads this
    {
      bank < 4 && Total(regs)
    }

    ghost function State(): (d: Driver)
      reads this
    {
      Driver(bank, regs)
    }

    /** The registers, the bank bits of ECON1 aside. */
    ghost function Flat(): (r: Registers)
      requires Valid()
      reads this
      ensures Total(r)
    {
      FlatView(regs)
    }

    /** `eth_write_opcode(ENC28J60_BIT_FIELD_SET, ...)` */
    method SetBits(address: byte, mask: Bits)
      requires Valid()
      modifies this`regs
      ensures Valid() && State() == Step(old(State()), RawSet(address, mask)).0
    {
      var r := Reached(Selected(regs), address);
      regs := regs[r := regs[r] + mask];
    }

    /** `eth_write_opcode(ENC28J60_BIT_FIELD_CLR, ...)` */
    method ClearBits(address: byte, mask: Bits)
      requires Valid()
      modifies this`regs
      ensures Valid() && State() == Step(old(State()), RawClear(address, mask)).0
    {
      var r := Reached(Selected(regs), address);
      regs := regs[r := regs[r] - mask];
    }

    /** `eth_set_bank` */
    method SelectBank(address: byte)
      requires Valid()
      modifies this
      ensures Valid() && State() == SetBank(old(State()), address)
    {
      var masked := BankOf(address);
      if masked != bank {
        ClearBits(ECON1, ECON1_BSEL);
        SetBits(ECON1, BankBits(masked));
        bank := masked;
      }
    }

    /** `eth_read_byte`: from a coherent state, the register the full address names. */
    method ReadByte(address: byte) returns (value: Bits)
      requires Valid()
      modifies this
      ensures Valid() && (State(), value) == Step(old(State()), Read(address))
      ensures old(Coherent(State())) ==> Coherent(State()) && bank == BankOf(address) && value == regs[Named(address)]
    {
      ghost var before := State();
      SelectBank(address);
      value := regs[Reached(Selected(regs), address)];
      if Coherent(before) {
        SetBankSelects(before, address);
      }
    }

    /** `eth_write_byte`: also coherent afterwards if the controller already was in the address's bank. */
    method WriteByte(address: byte, data: Bits)
      requires Valid()
      modifies this
      ensures Valid() && State() == Step(old(State()), Write(address, data)).0
      ensures bank == BankOf(address)
      ensures old(Coherent(State()) || Selected(regs) == BankOf(address)) && Named(address) != ECON1
          ==> Coherent(State()) && regs[Named(address)] == data
    {
      ghost var before := State();
      SelectBank(address);
      if Coherent(before) {
        SetBankSelects(before, address);
      } else if BankOf(address) != before.bank {
        SelectedByBits(regs, BankOf(address));
      }
      regs := regs[Reached(Selected(regs), address) := data];
    }

    /** The soft reset, of which only the cleared bank bits are known. */
    method SoftReset(after: Registers)
      requires Total(after) && after[ECON1] * ECON1_BSEL == {}
      modifies this`regs
      ensures regs == after && Selected(regs) == 0
    {
      regs := after;
      SelectedByBits(regs, 0);
    }

    /**
     * The register sequence of `eth_init`. Whatever the cache held before, the reset and the first
     * write to bank 0 bring it back in step; every raw opcode is well placed; the driver ends in
     * bank 0 with reception enabled, and every register holds what the source gives it.
     */
    method Init(mac: seq<byte>, after: Registers, polls: nat)
      requires Valid() && |mac| == 6
      requires Total(after) && after[ECON1] * ECON1_BSEL == {}
      modifies this
      ensures Valid() && Coherent(State()) && bank == 0
      ensures BuffersSet(regs) && FilterSet(regs) && MacSet(regs, after)
      ensures GapsSet(regs) && FullDuplexSet(regs) && AddressSet(regs, mac)
      ensures regs[0x1B] == after[0x1B] + {6, 7} && regs[0x1F] == after[0x1F] + {2}
      ensures OthersKept(after, regs)
    {
      SoftReset(after);
      InBankZero(after);
      ghost var buffers := BuffersThen(after);
      ghost var macs := FilterAndMacThen(buffers);
      ghost var end := LinkThen(macs, mac);
      WriteAll(mac, polls);
      EarlierStay(after, buffers, macs, end);
      InBankZero(regs);
      assert regs == end;
    }

    /** The writes of `eth_init`, by bank. */
    method WriteAll(mac: seq<byte>, polls: nat)
      requires Valid() && Selected(regs) == 0 && |mac| == 6
      modifies this
      ensures Valid() && Coherent(State()) && bank == 0
      ensures var first := WithMac(WithFilter(WithBuffers(old(Flat()))));
              Flat() == Receiving(WithPhy(WithAddress(WithGaps(first), mac), 0x10, 0x0100))
    {
      InitBuffers();
      InitFilter();
      InitMac();
      InitGaps();
      SetMac(mac);
      WritePhy(0x10, 0x0100, polls);
      Enable();
    }

    /** The end of `eth_init`: back to bank 0, interrupts and reception on. */
    method Enable()
      requires Valid() && Coherent(State())
      modifies this
      ensures Valid() && Coherent(State()) && bank == 0
      ensures Flat() == Receiving(old(Flat()))
    {
      SetBankSelects(State(), ECON1);
      SelectBank(ECON1);
      BitsOfMasks();
      InstructRaw(EIE, BitsOf(0xC0), 0x1B);
      ghost var was := Flat()[0x1F];
      assert was + ECON1_RXEN - ECON1_BSEL == was + {2};
      InstructRaw(ECON1, ECON1_RXEN, 0x1F);
    }

    /** A raw bit-field set, which must be well placed, on the register of that number. */
    method InstructRaw(address: byte, mask: Bits, ghost number: nat)
      requires Valid() && Coherent(State()) && Harmless(State(), RawSet(address, mask)) && Named(address) == number
      modifies this`regs
      ensures Valid() && Coherent(State()) && bank == old(bank)
      ensures Flat() == old(Flat())[number := FlatValue(number, old(Flat())[number] + mask)]
    {
      StepRefinesFlat(State(), RawSet(address, mask));
      SetBits(address, mask);
    }

    /** A banked write of `eth_init`, to the register of that number. */
    method Configure(address: byte, data: byte, ghost number: nat)
      requires Valid() && Named(address) == number != ECON1
      requires Coherent(State()) || Selected(regs) == BankOf(address)
      modifies this
      ensures Valid() && Coherent(State()) && bank == BankOf(address)
      ensures Flat() == old(Flat())[number := BitsOf(data)]
    {
      ghost var before := State();
      WriteByte(address, BitsOf(data));
      SetBankKeepsFlat(before, address);
      assert Flat() == FlatView(SetBank(before, address).regs)[number := BitsOf(data)];
    }

    method InitBuffers()
      requires Valid() && Selected(regs) == 0
      modifies this
      ensures Valid() && Coherent(State()) && bank == 0
      ensures Flat() == WithBuffers(old(Flat()))
    {
      Configure(ERXSTL, 0, 0x08);
      Configure(ERXSTH, 0, 0x09);
      Configure(ERXRDPTL, 0, 0x0C);
      Configure(ERXRDPTH, 0, 0x0D);
      Configure(ERXNDL, ETH_REG_RX_STOP % 0x100, 0x0A);
      Configure(ERXNDH, ETH_REG_RX_STOP / 0x100, 0x0B);
      Configure(ETXSTL, ETH_REG_TX_START % 0x100, 0x04);
      Configure(ETXSTH, ETH_REG_TX_START / 0x100, 0x05);
      Configure(ETXNDL, ETH_REG_TX_STOP % 0x100, 0x06);
      Configure(ETXNDH, ETH_REG_TX_STOP / 0x100, 0x07);
    }

    method InitFilter()
      requires Valid() && Coherent(State())
      modifies this
      ensures Valid() && Coherent(State()) && bank == 1
      ensures Flat() == WithFilter(old(Flat()))
    {
      Configure(ERXFCON, 0xB0, 0x38);
      Configure(EPMM0, 0x3F, 0x28);
      Configure(EPMM1, 0x30, 0x29);
      Configure(EPMCSL, 0xF9, 0x30);
      Configure(EPMCSH, 0xF7, 0x31);
    }

    method InitMac()
      requires Valid() && Coherent(State())
      modifies this
      ensures Valid() && Coherent(State()) && bank == 2
      ensures Flat() == WithMac(old(Flat()))
    {
      Configure(MACON1, 0x0D, 0x40);
      Configure(MACON2, 0, 0x41);
      BitsOfMasks();
      InstructRaw(MACON3, BitsOf(0x32), 0x42);
    }

    method InitGaps()
      requires Valid() && Coherent(State())
      modifies this
      ensures Valid() && Coherent(State()) && bank == 2
      ensures Flat() == WithGaps(old(Flat()))
    {
      Configure(MAIPGL, 0x12, 0x46);
      Configure(MAIPGH, 0x0C, 0x47);
      Configure(MABBIPG, 0x12, 0x44);
      Configure(MAMXFLL, ETH_MAX_FRAME_LENGTH % 0x100, 0x4A);
      Configure(MAMXFLH, ETH_MAX_FRAME_LENGTH / 0x100, 0x4B);
    }

    method SetMac(mac: seq<byte>)
      requires Valid() && Coherent(State()) && |mac| == 6
      modifies this
      ensures Valid() && Coherent(State()) && bank == 3
      ensures Flat() == WithAddress(old(Flat()), mac)
    {
      Configure(MAADR5, mac[0], 0x64);
      Configure(MAADR4, mac[1], 0x65);
      Configure(MAADR3, mac[2], 0x62);
      Configure(MAADR2, mac[3], 0x63);
      Configure(MAADR1, mac[4], 0x60);
      Configure(MAADR0, mac[5], 0x61);
    }

    /** `eth_write_phy`; the busy bit is seen set `polls` times. */
    method WritePhy(address: byte, data: u16, polls: nat)
      requires Valid() && Coherent(State())
      modifies this
      ensures Valid() && Coherent(State()) && bank == 3
      ensures Flat() == WithPhy(old(Flat()), address, data)
    {
      Configure(MIREGADR, address, 0x54);
      Configure(MIWRL, data % 0x100, 0x56);
      Configure(MIWRH, data / 0x100, 0x57);
      ghost var written := Flat();
      var status := Poll();
      for i := 0 to polls
        invariant Valid() && Coherent(State()) && bank == 3 && Flat() == written
      {
        status := Poll();
      }
    }

    /** One reading of the PHY's busy bit. */
    method Poll() returns (status: Bits)
      requires Valid() && Coherent(State())
      modifies this
      ensures Valid() && Coherent(State()) && bank == 3 && Flat() == old(Flat())
    {
      SetBankSelects(State(), MISTAT);
      status := ReadByte(MISTAT);
    }
  }

  // ---------- the receive buffer ----------

  /** `eth_read_buffer`: the bytes from the controller, then a zero. */
  method ReadBuffer(incoming: seq<byte>, data: array<byte>)
    requires |incoming| < data.Length
    modifies data
    ensures data[..|incoming|] == incoming && data[|incoming|] == 0
    ensures data[|incoming| + 1..] == old(data[..])[|incoming| + 1..]
  {
    for i := 0 to |incoming|
      invariant forall k :: 0 <= k < i ==> data[k] == incoming[k]
      invariant forall k :: i <= k < data.Length ==> data[k] == old(data[k])
    {
      data[i] := incoming[i];
    }
    data[|incoming|] := 0;
  }

  /** Every range ending at `length` checksums as RFC 1071 asks, whatever its length. */
  ghost predicate ChecksumsToEnd(buffer: seq<byte>, length: nat)
    requires length < |buffer|
  {
    forall base: nat :: base <= length ==>
      RoutineChecksum(buffer[base..length], Following(buffer, base, length - base)) == RfcChecksum(buffer[base..length])
  }

  /** The copying part of `eth_receive_packet`: a frame is cut to one byte less than `max`. */
  method Receive(frame: seq<byte>, intact: bool, max: nat, packet: array<byte>) returns (length: nat)
    requires 0 < max <= packet.Length
    modifies packet
    ensures length == if !intact then 0 else if |frame| < max then |frame| else max - 1
    ensures intact ==> packet[..length] == frame[..length] && packet[length] == 0
    ensures intact ==> packet[length + 1..] == old(packet[..])[length + 1..]
    ensures intact ==> ChecksumsToEnd(packet[..], length)
    ensures !intact ==> packet[..] == old(packet[..])
  {
    length := |frame|;
    if length > max - 1 {
      length := max - 1;
    }
    if !intact {
      length := 0;
    } else {
      ReadBuffer(frame[..length], packet);
      ChecksumToFrameEnd(packet[..], length);
    }
  }

  /** A zero after the frame makes the checksum routine right on every range that ends with it. */
  lemma ChecksumToFrameEnd(buffer: seq<byte>, length: nat)
    requires length < |buffer| && buffer[length] == 0
    ensures ChecksumsToEnd(buffer, length)
  {
    forall base: nat | base <= length
      ensures RoutineChecksum(buffer[base..length], Following(buffer, base, length - base))
           == RfcChecksum(buffer[base..length])
    {
      RoutineIsRfcChecksum(buffer[base..length], Following(buffer, base, length - base));
    }
  }
}
