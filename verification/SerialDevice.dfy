/**
 The serial device behind COM1: the register file that `outb` and `inb` reach, and the
 transmitter (FIFO, shift register, wire) that works on its own time.
 */
module SerialDevice {

  newtype Byte = b: int | 0 <= b < 0x100

  /** The bit of `v` with the given weight, 1, 2, 4, ..., 0x80. */
  predicate Bit(v: Byte, weight: Byte)
    requires weight > 0
  {
    v / weight % 2 == 1
  }

  /** The transmit side. `shift` holds the byte being serialised, so it has at most one
      element; `wire` is everything that has left the device. */
  datatype Transmitter = Transmitter(depth: nat, fifo: seq<Byte>, shift: seq<Byte>, wire: seq<Byte>) {

    predicate Empty() {
      fifo == [] && shift == []
    }

    /** Every byte the device has accepted, in order, wherever it is now. */
    function Stream(): seq<Byte> {
      wire + shift + fifo
    }

    /** A byte written to the holding register; a full FIFO has no room and the byte is gone. */
    function Put(b: Byte, capacity: nat): Transmitter {
      if |fifo| < capacity then this.(fifo := fifo + [b]) else this
    }

    /** One step of the device: finish the byte in the shift register, or load the next one. */
    function Drain(): Transmitter {
      if shift != [] then this.(wire := wire + shift, shift := [])
      else if fifo != [] then this.(shift := [fifo[0]], fifo := fifo[1..])
      else this
    }

    function DrainFor(steps: nat): Transmitter
      decreases steps
    {
      if steps == 0 then this else Drain().DrainFor(steps - 1)
    }

    /** Steps the device still has to take before it is empty. */
    function Work(): nat {
      2 * |fifo| + |shift|
    }
  }

  const THR_REG := 0
  const IER_REG := 1
  const FCR_REG := 2
  const LCR_REG := 3
  const MCR_REG := 4

  /** `status` holds the line-status bits that do not concern the transmitter. */
  datatype Uart = Uart(ier: Byte, lcr: Byte, mcr: Byte, dll: Byte, dlm: Byte, status: Byte,
                       fifoOn: bool, trigger: Byte, tx: Transmitter) {

    /** Divisor-latch access: while set, registers 0 and 1 are the two halves of the divisor. */
    predicate Dlab() {
      Bit(lcr, 0x80)
    }

    /** Without FIFO mode there is a single holding register. */
    function Capacity(): nat {
      if fifoOn then tx.depth else 1
    }

    predicate Full() {
      |tx.fifo| >= Capacity()
    }

    /** What `log_printf` relies on: register 0 is the transmit FIFO. */
    predicate Ready() {
      !Dlab() && fifoOn
    }

    /** FIFO control. A change of mode empties the FIFOs; the other bits are programmed
        only together with the enable bit. The shift register is never cleared. */
    function SetFifoControl(v: Byte): Uart {
      var on := Bit(v, 0x01);
      var clear := on != fifoOn || (on && Bit(v, 0x04));
      this.(fifoOn := on,
            trigger := if on then v / 0x40 else trigger,
            tx := if clear then tx.(fifo := []) else tx)
    }

    function Outb(reg: nat, v: Byte): Uart {
      if reg == THR_REG then
        if Dlab() then this.(dll := v) else this.(tx := tx.Put(v, Capacity()))
      else if reg == IER_REG then
        if Dlab() then this.(dlm := v) else this.(ier := v % 0x10)
      else if reg == FCR_REG then SetFifoControl(v)
      else if reg == LCR_REG then this.(lcr := v)
      else if reg == MCR_REG then this.(mcr := v % 0x20)
      else this
    }

    /** The line status register: bit 5 is set when the FIFO is empty, bit 6 when the shift
        register is empty as well. */
    function LineStatus(): Byte {
      (if Bit(status, 0x80) then 0x80 else 0)
      + (if tx.Empty() then 0x40 else 0)
      + (if tx.fifo == [] then 0x20 else 0)
      + status % 0x20
    }

    /** The test that ends the polling loop of `log_printf`. */
    predicate PollReady() {
      Bit(LineStatus(), 0x40)
    }

    function Elapse(steps: nat): Uart {
      this.(tx := tx.DrainFor(steps))
    }
  }

  /** The line status register bit by bit: data ready, errors and break from elsewhere, the
      transmit FIFO empty, the whole transmitter empty, and an error in the receive FIFO. */
  lemma StatusBits(u: Uart)
    ensures Bit(u.LineStatus(), 0x20) <==> u.tx.fifo == []
    ensures Bit(u.LineStatus(), 0x40) <==> u.tx.fifo == [] && u.tx.shift == []
    ensures Bit(u.LineStatus(), 0x80) <==> Bit(u.status, 0x80)
    ensures u.LineStatus() % 0x20 == u.status % 0x20
  {
  }

  /** Bit 6 says "transmitter empty" whatever the other status bits are. */
  lemma PollSeesEmpty(u: Uart)
    ensures u.PollReady() <==> u.tx.Empty()
  {
  }

  /** The device neither loses, nor invents, nor reorders a byte, and takes exactly
      `Work()` steps to become empty. */
  lemma DrainStep(x: Transmitter)
    requires |x.shift| <= 1
    ensures x.Drain().Stream() == x.Stream()
    ensures |x.Drain().shift| <= 1 && |x.Drain().fifo| <= |x.fifo|
    ensures x.Drain().depth == x.depth
    ensures !x.Empty() ==> x.Drain().Work() == x.Work() - 1
  {
  }

  lemma {:induction false} DrainForSteps(x: Transmitter, steps: nat)
    requires |x.shift| <= 1
    ensures var y := x.DrainFor(steps);
            && y.Stream() == x.Stream() && |y.shift| <= 1 && |y.fifo| <= |x.fifo|
            && y.depth == x.depth
            && y.Work() == if steps < x.Work() then x.Work() - steps else 0
    decreases steps
  {
    if steps > 0 {
      DrainStep(x);
      DrainForSteps(x.Drain(), steps - 1);
    }
  }

  // ---------------------------------------------------------------- log_init

  /** The writes of `log_init`, as offsets from the base port and values, in order. */
  const INIT_WRITES: seq<(nat, Byte)> :=
    [(1, 0x00), (3, 0x80), (0, 0x03), (1, 0x00), (3, 0x03), (2, 0xC7), (4, 0x0F)]

  /** A sequence of writes, the device running for `pauses[i]` steps before write `i`. */
  function WriteAll(u: Uart, writes: seq<(nat, Byte)>, pauses: seq<nat>): Uart
    requires |pauses| == |writes|
  {
    if writes == [] then u
    else
      var last := |writes| - 1;
      WriteAll(u, writes[..last], pauses[..last]).Elapse(pauses[last]).Outb(writes[last].0, writes[last].1)
  }

  /** Divisor 3, eight data bits, no parity, one stop bit, the transmit FIFO on and empty. */
  predicate Initialised(u: Uart) {
    && u.Ready()
    && u.dll == 3 && u.dlm == 0
    && u.lcr == 0x03
    && u.mcr == 0x0F
    && u.trigger == 3
    && u.tx.fifo == [] && |u.tx.shift| <= 1
  }

  predicate InterruptsOff(u: Uart) {
    u.ier == 0
  }

  /** What the first `k` writes of `log_init` have established, starting from `u`. */
  ghost predicate InitPhase(u: Uart, k: nat, v: Uart) {
    && |v.tx.shift| <= 1 && v.tx.depth == u.tx.depth
    && (k == 0 ==> v.lcr == u.lcr && v.ier == u.ier)
    && (k == 1 ==> v.lcr == u.lcr)
    && (k >= 1 ==> v.ier == if u.Dlab() then u.ier else 0)
    && (2 <= k < 5 ==> v.lcr == 0x80)
    && (k >= 3 ==> v.dll == 3)
    && (k >= 4 ==> v.dlm == 0)
    && (k >= 5 ==> v.lcr == 0x03)
    && (k >= 6 ==> v.fifoOn && v.tx.fifo == [] && v.trigger == 3)
    && (k >= 7 ==> v.mcr == 0x0F)
  }

  lemma InitStep(u: Uart, k: nat, v: Uart, pause: nat)
    requires k < |INIT_WRITES| && InitPhase(u, k, v)
    ensures InitPhase(u, k + 1, v.Elapse(pause).Outb(INIT_WRITES[k].0, INIT_WRITES[k].1))
  {
    DrainForSteps(v.tx, pause);
  }

  lemma NothingWritten(u: Uart)
    ensures INIT_WRITES[..0] == [] && WriteAll(u, [], []) == u
  {
  }

  lemma WriteOneMore(u: Uart, writes: seq<(nat, Byte)>, pauses: seq<nat>, reg: nat, v: Byte, pause: nat)
    requires |pauses| == |writes|
    ensures WriteAll(u, writes + [(reg, v)], pauses + [pause])
         == WriteAll(u, writes, pauses).Elapse(pause).Outb(reg, v)
  {
    assert (writes + [(reg, v)])[..|writes|] == writes && (pauses + [pause])[..|pauses|] == pauses;
  }

  lemma {:induction false} InitPhases(u: Uart, k: nat, pauses: seq<nat>)
    requires |u.tx.shift| <= 1
    requires |pauses| == k <= |INIT_WRITES|
    ensures InitPhase(u, k, WriteAll(u, INIT_WRITES[..k], pauses))
  {
    if k > 0 {
      InitPhases(u, k - 1, pauses[..k - 1]);
      assert INIT_WRITES[..k][..k - 1] == INIT_WRITES[..k - 1];
      InitStep(u, k - 1, WriteAll(u, INIT_WRITES[..k - 1], pauses[..k - 1]), pauses[k - 1]);
    }
  }

  /** From every state of the device, `log_init` establishes what the logger relies on. Its
      first write disables interrupts only when register 1 is the interrupt-enable register,
      that is, when divisor-latch access was off on entry. */
  lemma InitialisationEstablishes(u: Uart, pauses: seq<nat>)
    requires |u.tx.shift| <= 1
    requires |pauses| == |INIT_WRITES|
    ensures var v := WriteAll(u, INIT_WRITES, pauses);
            && v.dll == 3 && v.dlm == 0 && v.lcr == 0x03 && v.mcr == 0x0F
            && v.fifoOn && v.trigger == 3 && v.tx.fifo == [] && |v.tx.shift| <= 1
            && Initialised(v)
            && v.tx.depth == u.tx.depth
            && (InterruptsOff(v) <==> !u.Dlab() || InterruptsOff(u))
  {
    InitPhases(u, |INIT_WRITES|, pauses);
    assert INIT_WRITES[..|INIT_WRITES|] == INIT_WRITES;
  }
}
