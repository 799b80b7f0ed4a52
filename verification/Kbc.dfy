/** The status register of the keyboard controller, as its clients test it. */
module Kbc {
  import opened Bits

  const OUT_BUF_FULL: nat := 0x01
  const MOUSE_DATA: nat := 0x20
  const STAT_CHECK: nat := 0xC0

  /** The outcome of `util_sys_inb`: whether the call succeeded and the byte it stores. */
  datatype PortRead = PortRead(ok: bool, value: byte)

  /** `kbc_output_buf_full`; a failed read counts as full. */
  predicate OutputFull(r: PortRead) {
    !r.ok || BitAnd(r.value, OUT_BUF_FULL) != 0
  }

  /** `mouse_check`; a failed read counts as mouse data. */
  predicate MouseData(r: PortRead) {
    !r.ok || BitAnd(r.value, MOUSE_DATA) != 0
  }

  /** `kbc_communication_error`; a failed read counts as an error. */
  predicate CommError(r: PortRead) {
    !r.ok || BitAnd(r.value, STAT_CHECK) != 0
  }

  // ----- what these tests mean, in terms of the number read

  /** An odd status: there is a byte to read. */
  predicate SaysFull(r: PortRead) {
    r.ok ==> r.value % 2 == 1
  }

  /** Bit 5 of the status: the byte is the mouse's. */
  predicate SaysMouse(r: PortRead) {
    r.ok ==> r.value / 32 % 2 == 1
  }

  /** One of the two top bits of the status: time-out or parity error. */
  predicate SaysError(r: PortRead) {
    r.ok ==> r.value >= 64
  }

  lemma FullIs(r: PortRead)
    ensures OutputFull(r) <==> SaysFull(r)
  {
    Powers();
    SingleBit(r.value, 0);
  }

  lemma MouseDataIs(r: PortRead)
    ensures MouseData(r) <==> SaysMouse(r)
  {
    Powers();
    SingleBit(r.value, 5);
  }

  lemma AndEven(a: nat, b: nat)
    ensures BitAnd(a, 2 * b) == 2 * BitAnd(a / 2, b)
  {
  }

  lemma AndEighth(a: nat, b: nat)
    ensures BitAnd(a, 8 * b) == 8 * BitAnd(a / 8, b)
  {
    AndEven(a, 4 * b);
    AndEven(a / 2, 2 * b);
    AndEven(a / 4, b);
  }

  lemma ErrorIs(r: PortRead)
    ensures CommError(r) <==> SaysError(r)
  {
    AndEighth(r.value, 8 * 3);
    AndEighth(r.value / 8, 3);
    TopBits(r.value / 64);
  }

  lemma TopBits(v: nat)
    requires v < 4
    ensures BitAnd(v, 3) == 0 <==> v == 0
  {
    assert BitAnd(v, 3) == if v == 0 then 0 else v % 2 + 2 * BitAnd(v / 2, 1);
  }
}
