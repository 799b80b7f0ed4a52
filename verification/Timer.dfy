/** Programming the i8254 as lab2/timer.c does, against a model of the chip: control words,
    the read-back command and two-byte counts, as the Intel 8254 data sheet gives them. */
module Timer {
  import opened Bits

  const TIMER_FREQ: nat := 1193182
  const TIMER_RB_CMD: nat := 0xC0
  const TIMER_RB_COUNT_: nat := 0x20
  const TIMER_LSB_MSB: nat := 0x30

  // ----- the chip

  /** A byte that may be waiting in the chip. */
  datatype Latch = Free | Held(value: byte)

  /** A counter: the low six bits of its control word, its count, the first byte of a count
      being written, and the status latched for the next read. */
  datatype Counter = Counter(control: nat, count: nat, low: Latch, status: Latch)

  datatype Chip = Chip(counters: seq<Counter>)

  ghost predicate CounterOk(c: Counter) {
    c.control < 64 && c.count < 0x1_0000
  }

  ghost predicate ChipOk(c: Chip) {
    |c.counters| == 3 && forall k :: 0 <= k < 3 ==> CounterOk(c.counters[k])
  }

  /** The status byte: output pin and null-count flag on top, then the control bits. */
  function StatusByte(c: Counter, pins: nat): byte {
    (pins % 4) * 64 + c.control % 64
  }

  /** A control word of the read-back kind, as far as it latches status: a status already
      latched is kept. */
  function ReadBack(c: Counter, k: nat, v: byte, pins: nat): Counter {
    if BitAnd(v, Pow2(k + 1)) != 0 && BitAnd(v, 0x10) == 0 && c.status.Free?
    then c.(status := Held(StatusByte(c, pins)))
    else c
  }

  /** A write to the control port. */
  function WriteControl(c: Chip, v: byte, pins: nat): Chip
    requires |c.counters| == 3
  {
    if v / 64 == 3 then Chip(seq(3, k requires 0 <= k < 3 => ReadBack(c.counters[k], k, v, pins)))
    else if v / 16 % 4 == 0 then c
    else Chip(c.counters[v / 64 := c.counters[v / 64].(control := v % 64, low := Free)])
  }

  /** A write to a counter's port, in the way its control word asks for. */
  function WriteCount(c: Counter, v: byte): Counter {
    match c.control / 16 % 4
    case 1 => c.(count := v)
    case 2 => c.(count := v * 256)
    case 3 => if c.low.Free? then c.(low := Held(v)) else c.(count := c.low.value + v * 256, low := Free)
    case _ => c
  }

  // ----- the driver

  /** The read-back command for the status of a timer, as `timer_get_conf` builds it. */
  function Command(timer: nat): byte {
    BitOr(BitOr(TIMER_RB_CMD, TIMER_RB_COUNT_), Pow2(timer + 1)) % 256
  }

  /** A kernel result code; zero is OK. */
  type Code = bv32

  function WithCounter(c: Chip, k: nat, x: Counter): Chip
    requires k < |c.counters|
  {
    Chip(c.counters[k := x])
  }

  /** The status byte a read-back makes readable: one that is still latched comes first. */
  function Seen(c: Counter, pins: nat): byte {
    if c.status.Held? then c.status.value else StatusByte(c, pins)
  }

  /** What `timer_get_conf` does to the chip, by the results of its two port calls. */
  function Asked(c: Chip, timer: nat, pins: nat, sent: Code, got: Code): Chip
    requires |c.counters| == 3
  {
    if sent != 0 || timer >= 3 then c
    else
      var x := c.counters[timer];
      WithCounter(c, timer, x.(status := if got != 0 then Held(Seen(x, pins)) else Free))
  }

  /** A counter after a control word for low-then-high access with the mode bits of `st`. */
  function Awaiting(x: Counter, st: byte): Counter {
    x.(control := TIMER_LSB_MSB + st % 16, low := Free)
  }

  /** A waiting counter after the two writes of a count, by whether each of them got through:
      a single byte is taken for the low one. */
  function Written(x: Counter, count: nat, first: bool, second: bool): Counter
    requires count < 0x1_0000
  {
    if first && second then x.(count := count)
    else if first then x.(low := Held(count % 256))
    else if second then x.(low := Held(count / 256))
    else x
  }

  /** The count for a frequency, cut to 16 bits. */
  function CountFor(freq: nat): (r: nat)
    requires freq > 0
    ensures r < 0x1_0000
  {
    DivNat(TIMER_FREQ, freq);
    TIMER_FREQ / freq % 0x1_0000
  }

  /** What `timer_set_frequency` does to the chip, by the results of its five port calls. */
  function Setting(c: Chip, timer: nat, freq: nat, pins: nat, codes: seq<Code>): Chip
    requires |c.counters| == 3 && freq > 0 && |codes| == 5
  {
    var d := Asked(c, timer, pins, codes[0], codes[1]);
    if codes[0] != 0 || timer >= 3 || codes[1] != 0 || codes[2] != 0 then d
    else
      var x := Awaiting(d.counters[timer], Seen(c.counters[timer], pins));
      WithCounter(d, timer, Written(x, CountFor(freq), codes[3] == 0, codes[4] == 0))
  }

  /** What `timer_set_frequency` returns. */
  function Returned(timer: nat, codes: seq<Code>): Code
    requires |codes| == 5
  {
    if codes[0] != 0 || timer >= 3 || codes[1] != 0 || codes[2] != 0 then 1 else codes[3] & codes[4]
  }

  class Driver {
    var chip: Chip

    constructor ()
      ensures ChipOk(chip)
    {
      chip := Chip(seq(3, _ => Counter(0, 0, Free, Free)));
    }

    /** `sys_outb` on the control port, with the result `code`; a failed call does not reach the chip. */
    method OutControl(v: byte, pins: nat, code: Code) returns (r: Code)
      requires ChipOk(chip)
      modifies this
      ensures r == code && ChipOk(chip)
      ensures chip == if code == 0 then WriteControl(old(chip), v, pins) else old(chip)
    {
      if code == 0 { chip := WriteControl(chip, v, pins); }
      r := code;
    }

    /** `sys_outb` on the port of counter `k`. */
    method OutCounter(k: nat, v: byte, code: Code) returns (r: Code)
      requires ChipOk(chip) && k < 3
      modifies this
      ensures r == code && ChipOk(chip)
      ensures chip == if code == 0 then WithCounter(old(chip), k, WriteCount(old(chip).counters[k], v)) else old(chip)
    {
      if code == 0 { chip := WithCounter(chip, k, WriteCount(chip.counters[k], v)); }
      r := code;
    }

    /** `util_sys_inb` on the port of counter `k`: a latched status is read first, otherwise
        the byte `live` of the running count; a failed call stores 0. */
    method InCounter(k: nat, live: byte, code: Code) returns (r: Code, v: byte)
      requires ChipOk(chip) && k < 3
      modifies this
      ensures r == code && ChipOk(chip)
      ensures code != 0 ==> v == 0 && chip == old(chip)
      ensures code == 0 ==>
                && chip == WithCounter(old(chip), k, old(chip).counters[k].(status := Free))
                && v == if old(chip).counters[k].status.Held? then old(chip).counters[k].status.value else live
    {
      r, v := code, 0;
      if code == 0 {
        var x := chip.counters[k];
        v := if x.status.Held? then x.status.value else live;
        chip := WithCounter(chip, k, x.(status := Free));
      }
    }

    method GetConf(timer: nat, pins: nat, live: byte, sent: Code, got: Code) returns (r: Code, st: byte)
      requires ChipOk(chip) && timer < 31
      modifies this
      ensures ChipOk(chip) && chip == Asked(old(chip), timer, pins, sent, got)
      ensures r == if sent != 0 || timer >= 3 then 1 else got
      ensures st == if r == 0 then Seen(old(chip).counters[timer], pins) else 0
    {
      st := 0;
      var command := Command(timer);
      r := OutControl(command, pins, sent);
      if r != 0 { return 1, 0; }
      if timer < 3 { StatusLatched(old(chip), timer, pins); } else { NothingLatched(old(chip), timer, pins); }
      if timer < 3 {
        r, st := InCounter(timer, live, got);
      } else {
        r := 1;
      }
    }

    /** Sets the frequency of a timer; `codes` are the results of the five port calls, in order. */
    method SetFrequency(timer: nat, freq: nat, pins: nat, live: byte, codes: seq<Code>) returns (r: Code)
      requires ChipOk(chip) && timer < 31 && freq > 0 && |codes| == 5
      modifies this
      ensures ChipOk(chip) && chip == Setting(old(chip), timer, freq, pins, codes)
      ensures r == Returned(timer, codes)
    {
      var st: byte;
      r, st := GetConf(timer, pins, live, codes[0], codes[1]);
      if r != 0 { return 1; }
      ControlWordIs(st, timer);
      var word: byte := BitOr(BitAnd(st, 0x0F), BitOr(Shl(timer, 6), TIMER_LSB_MSB));
      r := Load(timer, st, word, CountFor(freq), pins, codes[2], codes[3], codes[4]);
    }

    /** The control word and the count. */
    method Load(timer: nat, ghost st: byte, word: byte, count: nat, pins: nat, code0: Code, code1: Code, code2: Code)
      returns (r: Code)
      requires ChipOk(chip) && timer < 3 && count < 0x1_0000 && word == timer * 64 + TIMER_LSB_MSB + st % 16
      modifies this
      ensures ChipOk(chip)
      ensures code0 != 0 ==> r == 1 && chip == old(chip)
      ensures code0 == 0 ==>
                && r == code1 & code2
                && chip == WithCounter(old(chip), timer,
                                       Written(Awaiting(old(chip).counters[timer], st), count, code1 == 0, code2 == 0))
    {
      r := OutControl(word, pins, code0);
      if r != 0 { return 1; }
      AfterControl(old(chip), timer, word, st, pins);
      r := WriteBytes(timer, count, code1, code2);
    }

    /** The two writes of a count, low byte first; the result is the AND of the two codes. */
    method WriteBytes(timer: nat, count: nat, code1: Code, code2: Code) returns (r: Code)
      requires ChipOk(chip) && timer < 3 && count < 0x1_0000
      requires chip.counters[timer].control / 16 % 4 == 3 && chip.counters[timer].low.Free?
      modifies this
      ensures ChipOk(chip) && r == code1 & code2
      ensures chip == WithCounter(old(chip), timer, Written(old(chip).counters[timer], count, code1 == 0, code2 == 0))
    {
      var lsb: byte, msb: byte := count % 256, count / 256;
      var res1 := OutCounter(timer, lsb, code1);
      var res2 := OutCounter(timer, msb, code2);
      r := res1 & res2;
    }
  }

  // ----- the bytes the driver writes

  lemma ReadBackBits()
    ensures BitOr(TIMER_RB_CMD, TIMER_RB_COUNT_) == 0xE0
  {
    Powers();
    OrDisjoint(0x20, 3, 6);
  }

  lemma LowSelect(p: nat)
    requires p < 32
    ensures BitOr(0xE0, p) == 0xE0 + p
  {
    Powers();
    OrDisjoint(p, 7, 5);
  }

  lemma HighSelect(m: nat)
    requires m == 1 || m == 2 || m == 4
    ensures BitOr(0xE0, 32 * m) == 0xE0
  {
    Powers();
    OrShl(7, m, 5);
    assert BitOr(7, m) == 7;
  }

  lemma NoSelect(timer: nat)
    requires timer >= 7
    ensures BitOr(0xE0, Pow2(timer + 1)) % 256 == 0xE0
  {
    Powers();
    Pow2Add(timer - 7, 8);
    OrDisjoint(0xE0, Pow2(timer - 7), 8);
    OrComm(0xE0, Pow2(timer + 1));
    DivModUnique(Pow2(timer - 7), 256, 0xE0);
  }

  lemma CommandIs(timer: nat)
    requires timer < 3
    ensures Command(timer) == 0xE0 + Pow2(timer + 1)
  {
    Powers();
    ReadBackBits();
    LowSelect(Pow2(timer + 1));
  }

  /** For any other timer number the command selects no counter, or does not ask for status. */
  lemma CommandSelectsNone(timer: nat)
    requires timer >= 3
    ensures Command(timer) == if timer == 3 then 0xF0 else 0xE0
  {
    Powers();
    ReadBackBits();
    if timer == 3 { LowSelect(16); }
    else if timer == 4 { HighSelect(1); }
    else if timer == 5 { HighSelect(2); }
    else if timer == 6 { HighSelect(4); }
    else { NoSelect(timer); }
  }

  lemma BitOf(v: byte, n: nat, p: nat)
    requires p == Pow2(n)
    ensures BitAnd(v, p) != 0 <==> v / p % 2 == 1
  {
    SingleBit(v, n);
  }

  /** The command latches the status of exactly the timer it is for, unless one is latched already. */
  lemma StatusLatched(c: Chip, timer: nat, pins: nat)
    requires ChipOk(c) && timer < 3
    ensures WriteControl(c, Command(timer), pins) ==
            WithCounter(c, timer, c.counters[timer].(status := Held(Seen(c.counters[timer], pins))))
  {
    CommandIs(timer);
    Powers();
    Selects(Command(timer), c.counters[0], 0, 2, pins);
    Selects(Command(timer), c.counters[1], 1, 4, pins);
    Selects(Command(timer), c.counters[2], 2, 8, pins);
    BitOf(Command(timer), 4, 16);
  }

  /** For other timer numbers the command leaves the chip alone. */
  lemma NothingLatched(c: Chip, timer: nat, pins: nat)
    requires ChipOk(c) && timer >= 3
    ensures WriteControl(c, Command(timer), pins) == c
  {
    CommandSelectsNone(timer);
    Powers();
    Selects(Command(timer), c.counters[0], 0, 2, pins);
    Selects(Command(timer), c.counters[1], 1, 4, pins);
    Selects(Command(timer), c.counters[2], 2, 8, pins);
    BitOf(Command(timer), 4, 16);
  }

  lemma Selects(v: byte, x: Counter, k: nat, p: nat, pins: nat)
    requires p == Pow2(k + 1)
    ensures ReadBack(x, k, v, pins) ==
            if v / p % 2 == 1 && BitAnd(v, 0x10) == 0 then x.(status := Held(Seen(x, pins))) else x
  {
    BitOf(v, k + 1, p);
  }

  /** The control word: the timer, low byte then high byte, and the old mode and base. */
  lemma ControlWordIs(st: byte, timer: nat)
    requires timer < 3
    ensures BitOr(BitAnd(st, 0x0F), BitOr(Shl(timer, 6), TIMER_LSB_MSB)) == timer * 64 + TIMER_LSB_MSB + st % 16
  {
    Powers();
    AndComm(st, 0x0F);
    MaskIsMod(4, st);
    OrDisjoint(TIMER_LSB_MSB, timer, 6);
    OrDisjoint(st % 16, timer * 4 + 3, 4);
    OrComm(st % 16, Shl(timer * 4 + 3, 4));
  }

  /** What the control word makes of the timer: ready for the low byte. */
  lemma AfterControl(c: Chip, timer: nat, word: byte, st: byte, pins: nat)
    requires ChipOk(c) && timer < 3 && word == timer * 64 + TIMER_LSB_MSB + st % 16
    ensures WriteControl(c, word, pins) == WithCounter(c, timer, Awaiting(c.counters[timer], st))
    ensures Awaiting(c.counters[timer], st).control / 16 % 4 == 3
  {
  }

  lemma {:induction false} AndComm(a: nat, b: nat)
    ensures BitAnd(a, b) == BitAnd(b, a)
  {
    if a != 0 && b != 0 { AndComm(a / 2, b / 2); }
  }

  // ----- what a successful call leaves

  /** The chip with one timer at the new frequency. */
  function Programmed(c: Chip, timer: nat, freq: nat, pins: nat): Chip
    requires |c.counters| == 3 && timer < 3 && freq > 0
  {
    WithCounter(c, timer, Counter(TIMER_LSB_MSB + Seen(c.counters[timer], pins) % 16, CountFor(freq), Free, Free))
  }

  lemma SettingSucceeds(c: Chip, timer: nat, freq: nat, pins: nat, codes: seq<Code>)
    requires ChipOk(c) && timer < 3 && freq > 0 && |codes| == 5 && forall i :: 0 <= i < 5 ==> codes[i] == 0
    ensures Setting(c, timer, freq, pins, codes) == Programmed(c, timer, freq, pins) && Returned(timer, codes) == 0
  {
    assert codes[0] == 0 && codes[1] == 0 && codes[2] == 0 && codes[3] == 0 && codes[4] == 0;
  }

  /** Mode and counting base are kept exactly when no status is left over from before, or an
      equal one. */
  lemma ModeKeptExactly(c: Chip, timer: nat, freq: nat, pins: nat)
    requires ChipOk(c) && timer < 3 && freq > 0
    ensures var was, x := c.counters[timer], Programmed(c, timer, freq, pins).counters[timer];
            x.control % 16 == was.control % 16 <==> was.status.Free? || was.status.value % 16 == was.control % 16
  {
    StatusLow(c.counters[timer], pins);
    LowBits(Seen(c.counters[timer], pins));
  }

  lemma StatusLow(x: Counter, pins: nat)
    ensures StatusByte(x, pins) % 16 == x.control % 16
  {
    var high, low := pins % 4, x.control % 64;
    assert StatusByte(x, pins) == high * 64 + low;
    AboveNibble(high, low);
    AboveNibble(x.control / 64, low);
  }

  lemma AboveNibble(high: nat, low: nat)
    ensures (high * 64 + low) % 16 == low % 16
  {
    DivModUnique(4 * high + low / 16, 16, low % 16);
  }

  lemma LowBits(st: byte)
    ensures (TIMER_LSB_MSB + st % 16) % 16 == st % 16 && (TIMER_LSB_MSB + st % 16) % 2 == st % 2
  {
  }

  /** A left-over status of the driver's own making does no harm: after a failed read, a
      second try programs the timer as the first one would have. */
  lemma RetryProgramsAlike(c: Chip, timer: nat, freq: nat, pins: nat, later: nat, codes: seq<Code>)
    requires ChipOk(c) && timer < 3 && freq > 0 && |codes| == 5
    requires c.counters[timer].status.Free? && codes[0] == 0 && codes[1] != 0
    ensures var d := Setting(c, timer, freq, pins, codes);
            d != c && Programmed(d, timer, freq, later) == Programmed(c, timer, freq, later)
  {
    StatusLow(c.counters[timer], pins);
    StatusLow(c.counters[timer], later);
    assert Setting(c, timer, freq, pins, codes).counters[timer].status == Held(StatusByte(c.counters[timer], pins));
  }

  // ----- failures that are not reported

  /** Whether the call returns OK and yet has not programmed the timer. */
  predicate HidesFailure(c: Chip, timer: nat, freq: nat, pins: nat, codes: seq<Code>)
    requires ChipOk(c) && timer < 3 && freq > 0 && |codes| == 5
  {
    Returned(timer, codes) == 0 && Setting(c, timer, freq, pins, codes) != Programmed(c, timer, freq, pins)
  }

  /** A failure is hidden exactly when a write of the count failed after three successful calls
      and the codes of the two writes share no bit; where both failed, the count must not have
      been the wanted one already. */
  lemma HiddenExactly(c: Chip, timer: nat, freq: nat, pins: nat, codes: seq<Code>)
    requires ChipOk(c) && timer < 3 && freq > 0 && |codes| == 5
    ensures HidesFailure(c, timer, freq, pins, codes) <==>
            && codes[0] == 0 && codes[1] == 0 && codes[2] == 0
            && (codes[3] != 0 || codes[4] != 0) && codes[3] & codes[4] == 0
            && (codes[3] == 0 || codes[4] == 0 || c.counters[timer].count != CountFor(freq))
  {
    if codes[0] == 0 && codes[1] == 0 && codes[2] == 0 {
      var done, wanted := Setting(c, timer, freq, pins, codes), Programmed(c, timer, freq, pins);
      OtherCounters(c, timer, freq, pins, codes);
      assert done == wanted <==> done.counters[timer] == wanted.counters[timer];
    }
  }

  /** Whatever fails, the other two counters are left alone. */
  lemma OtherCounters(c: Chip, timer: nat, freq: nat, pins: nat, codes: seq<Code>)
    requires ChipOk(c) && timer < 3 && freq > 0 && |codes| == 5
    ensures var done, wanted := Setting(c, timer, freq, pins, codes), Programmed(c, timer, freq, pins);
            && |done.counters| == 3
            && done.counters[timer := c.counters[timer]] == c.counters == wanted.counters[timer := c.counters[timer]]
  {
  }

  /** Success is reported exactly for the three timers, when the first three calls succeed and
      the codes of the two writes share no bit. */
  lemma ReportedExactly(timer: nat, codes: seq<Code>)
    requires |codes| == 5
    ensures Returned(timer, codes) == 0 <==>
            && timer < 3 && codes[0] == 0 && codes[1] == 0 && codes[2] == 0 && codes[3] & codes[4] == 0
  {
  }

  /** Both kinds of it: one write failed, which leaves the count half written, and both failed
      with different codes. */
  lemma HiddenShown(c: Chip, timer: nat, freq: nat, pins: nat)
    requires ChipOk(c) && timer < 3 && freq > 0
    ensures HidesFailure(c, timer, freq, pins, [0, 0, 0, 1, 0])
    ensures Setting(c, timer, freq, pins, [0, 0, 0, 1, 0]).counters[timer].low == Held(CountFor(freq) / 256)
    ensures c.counters[timer].count != CountFor(freq) ==> HidesFailure(c, timer, freq, pins, [0, 0, 0, 1, 2])
  {
    HiddenExactly(c, timer, freq, pins, [0, 0, 0, 1, 0]);
    HiddenExactly(c, timer, freq, pins, [0, 0, 0, 1, 2]);
  }

  // ----- the divisor

  /** How long a counter takes: the chip counts in binary or in four decimal digits, and takes
      0 for the largest count; other digits have no meaning. */
  datatype Span = Undefined | Clocks(n: nat)

  predicate DecimalDigits(n: nat) {
    n % 16 < 10 && n / 16 % 16 < 10 && n / 16 / 16 % 16 < 10 && n / 16 / 16 / 16 % 16 < 10
  }

  function Decimal(n: nat): nat {
    n % 16 + 10 * (n / 16 % 16) + 100 * (n / 16 / 16 % 16) + 1000 * (n / 16 / 16 / 16 % 16)
  }

  function Period(x: Counter): Span {
    if x.control % 2 == 0 then Clocks(if x.count == 0 then 0x1_0000 else x.count)
    else if !DecimalDigits(x.count) then Undefined
    else Clocks(if x.count == 0 then 10000 else Decimal(x.count))
  }

  /** The counter's period is the largest whole number of clocks within that of the frequency. */
  predicate Fits(x: Counter, freq: nat) {
    Period(x).Clocks? && Period(x).n * freq <= 1193182 < (Period(x).n + 1) * freq
  }

  lemma QuotientIs(n: nat, freq: nat)
    requires freq > 0
    ensures n * freq <= TIMER_FREQ < (n + 1) * freq <==> n == TIMER_FREQ / freq
  {
    var q := TIMER_FREQ / freq;
    DivModIs(TIMER_FREQ, freq);
    assert (n + 1) * freq == n * freq + freq;
    if n < q { MulLess(n, q, freq); }
    if n > q { MulLess(q, n, freq); }
  }

  lemma QuotientAtMost(m: nat, freq: nat)
    requires freq > 0
    ensures TIMER_FREQ / freq <= m <==> TIMER_FREQ < (m + 1) * freq
  {
    var q := TIMER_FREQ / freq;
    DivModIs(TIMER_FREQ, freq);
    if q <= m { MulLeq(q + 1, m + 1, freq); assert (q + 1) * freq == q * freq + freq; }
    if q > m { MulLess(m, q, freq); assert (m + 1) * freq == m * freq + freq; }
  }

  /** The digits of a count are worth less in decimal than in binary, unless there is only one. */
  lemma DecimalLess(n: nat)
    requires n < 0x1_0000
    ensures Decimal(n) <= n && Decimal(n) <= 16665 && (Decimal(n) == n <==> n < 16)
  {
    var a := n / 16;
    var b := a / 16;
    TopDigit(b, b / 16);
    DigitsLess(n % 16, a % 16, b % 16, b / 16);
    assert n == n % 16 + 16 * a && a == a % 16 + 16 * b && b == b % 16 + 16 * (b / 16);
  }

  lemma TopDigit(b: nat, d: nat)
    requires b < 256 && d == b / 16
    ensures d < 16 && d % 16 == d
  {
  }

  lemma DigitsLess(d0: nat, d1: nat, d2: nat, d3: nat)
    requires d0 < 16 && d1 < 16 && d2 < 16 && d3 < 16
    ensures var n, v := d0 + 16 * (d1 + 16 * (d2 + 16 * d3)), d0 + 10 * d1 + 100 * d2 + 1000 * d3;
            v <= n && v <= 16665 && (v == n <==> n < 16)
  {
  }

  lemma DecimalOk(n: nat)
    requires n < 0x1_0000 && DecimalDigits(n)
    ensures Decimal(n) <= 9999 && (n < 16 ==> n < 10)
  {
  }

  lemma FitsIs(x: Counter, freq: nat)
    requires freq > 0
    ensures TIMER_FREQ / freq >= 0 && (Fits(x, freq) <==> Period(x) == Clocks(TIMER_FREQ / freq))
  {
    DivNat(TIMER_FREQ, freq);
    if Period(x).Clocks? { QuotientIs(Period(x).n, freq); }
  }

  lemma BinaryPeriod(x: Counter, q: nat)
    requires x.control % 2 == 0 && x.count == q % 0x1_0000
    ensures Period(x) == Clocks(q) <==> 1 <= q <= 0x1_0000
  {
  }

  lemma DecimalPeriod(x: Counter, q: nat)
    requires x.control % 2 == 1 && x.count == q % 0x1_0000
    ensures Period(x) == Clocks(q) <==> 1 <= q <= 9
  {
    var n := x.count;
    assert n <= q && (q < 0x1_0000 ==> n == q);
    DecimalValue(n, q, if n == 0 then 10000 else Decimal(n));
  }

  /** The value `v` of the count that a quotient is cut to. */
  lemma DecimalValue(n: nat, q: nat, v: nat)
    requires n < 0x1_0000 && n <= q && (q < 0x1_0000 ==> n == q) && v == if n == 0 then 10000 else Decimal(n)
    ensures DecimalDigits(n) && v == q <==> 1 <= q <= 9
  {
    DecimalLess(n);
    if DecimalDigits(n) { DecimalOk(n); }
  }

  lemma QuotientRange(freq: nat)
    requires freq > 0
    ensures 1 <= TIMER_FREQ / freq <= 0x1_0000 <==> 19 <= freq <= TIMER_FREQ
    ensures 1 <= TIMER_FREQ / freq <= 9 <==> 119319 <= freq <= TIMER_FREQ
  {
    QuotientAtMost(0, freq);
    QuotientAtMost(9, freq);
    QuotientAtMost(0x1_0000, freq);
  }

  /** The frequencies for which a timer is set right, by the counting base it had. */
  predicate Settable(bcd: bool, freq: nat) {
    (if bcd then 119319 else 19) <= freq <= 1193182
  }

  /** A successful call leaves a counter whose period fits the frequency exactly for frequencies
      from 19 Hz in binary, and from 119319 Hz in BCD, to the clock's own. */
  lemma DivisorExactly(c: Chip, timer: nat, freq: nat, pins: nat)
    requires ChipOk(c) && timer < 3 && freq > 0
    ensures Fits(Programmed(c, timer, freq, pins).counters[timer], freq) <==>
            Settable(Seen(c.counters[timer], pins) % 2 == 1, freq)
  {
    var x := Programmed(c, timer, freq, pins).counters[timer];
    FitsIs(x, freq);
    QuotientRange(freq);
    LowBits(Seen(c.counters[timer], pins));
    if x.control % 2 == 0 { BinaryPeriod(x, TIMER_FREQ / freq); } else { DecimalPeriod(x, TIMER_FREQ / freq); }
  }

  /** The binary count written to a BCD counter: 596 is read as 254. */
  lemma BcdMisread(c: Chip, timer: nat, pins: nat)
    requires ChipOk(c) && timer < 3 && c.counters[timer].status.Free? && c.counters[timer].control % 2 == 1
    ensures Period(Programmed(c, timer, 2000, pins).counters[timer]) == Clocks(254)
    ensures !Fits(Programmed(c, timer, 2000, pins).counters[timer], 2000)
  {
    DivModUnique(596, 2000, 1182);
    assert CountFor(2000) == 596;
  }
}
