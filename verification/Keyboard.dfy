/** The keyboard handler of lab3/keyboard.c and the loops of lab3/lab3.c. */
module Keyboard {
  import opened Bits
  import opened Kbc
  import opened Watchdog

  const BREAK_BIT: nat := 0x80
  const TWO_BYTES: byte := 0xE0
  const ESC_BREAK: byte := 0x81

  /** The ports as one call of the handler finds them, in the order it reads them. */
  datatype Reads = Reads(status: PortRead, data: PortRead, check: PortRead)

  /** A scancode as it is handed to `kbd_print_scancode`. */
  datatype Scancode = Scancode(make: bool, bytes: seq<byte>)

  datatype State = State(twoBytes: bool, running: bool, sysIn: nat, printed: seq<Scancode>)

  const START: State := State(false, true, 0, [])

  predicate Accepted(r: Reads) {
    OutputFull(r.status) && !CommError(r.check)
  }

  /** The code with the prefix behind it, as the handler stores them. */
  function Code(prefixed: bool, b: byte): Scancode {
    Scancode(BitAnd(b, BREAK_BIT) == 0, if prefixed then [b, TWO_BYTES] else [b])
  }

  /** What one accepted byte does. */
  function Feed(s: State, b: byte): State {
    if b == TWO_BYTES then s.(twoBytes := true)
    else s.(twoBytes := false, running := s.running && b != ESC_BREAK, printed := s.printed + [Code(s.twoBytes, b)])
  }

  function Handle(s: State, r: Reads): State {
    var t := s.(sysIn := s.sysIn + if OutputFull(r.status) then 3 else 1);
    if Accepted(r) then Feed(t, r.data.value) else t
  }

  function HandleAll(s: State, rs: seq<Reads>): State {
    if rs == [] then s else Handle(HandleAll(s, rs[..|rs| - 1]), rs[|rs| - 1])
  }

  class Controller {
    var flag2Bytes: bool
    var flagESC: bool
    var counterSysIn: nat
    var printed: seq<Scancode>

    constructor ()
      ensures Value() == START
    {
      flag2Bytes, flagESC, counterSysIn, printed := false, true, 0, [];
    }

    method Restart()
      modifies this
      ensures Value() == START
    {
      flagESC, flag2Bytes, counterSysIn, printed := true, false, 0, [];
    }

    ghost function Value(): State
      reads this
    {
      State(flag2Bytes, flagESC, counterSysIn, printed)
    }

    method OutputBufFull(r: PortRead) returns (full: bool)
      modifies `counterSysIn
      ensures full == OutputFull(r) && counterSysIn == old(counterSysIn) + 1
    {
      counterSysIn := counterSysIn + 1;
      if !r.ok { return true; }
      return BitAnd(r.value, OUT_BUF_FULL) != 0;
    }

    method CommunicationError(r: PortRead) returns (error: bool)
      modifies `counterSysIn
      ensures error == CommError(r) && counterSysIn == old(counterSysIn) + 1
    {
      counterSysIn := counterSysIn + 1;
      if !r.ok { return true; }
      return BitAnd(r.value, STAT_CHECK) != 0;
    }

    method ReadOutputBuffer(r: PortRead) returns (b: byte)
      modifies `counterSysIn
      ensures b == r.value && counterSysIn == old(counterSysIn) + 1
    {
      counterSysIn := counterSysIn + 1;
      b := r.value;
    }

    method KbcIh(r: Reads)
      modifies this
      ensures Value() == Handle(old(Value()), r)
    {
      var full := OutputBufFull(r.status);
      if !full { return; }
      var scanCode := ReadOutputBuffer(r.data);
      var error := CommunicationError(r.check);
      if error { return; }
      if scanCode == TWO_BYTES {
        flag2Bytes := true;
        return;
      }
      var arr: seq<byte> := [scanCode];
      if flag2Bytes {
        arr := arr + [TWO_BYTES];
        flag2Bytes := false;
      }
      assert arr == Code(old(flag2Bytes), scanCode).bytes;
      if scanCode == ESC_BREAK { flagESC := false; }
      printed := printed + [Scancode(BitAnd(scanCode, BREAK_BIT) == 0, arr)];
    }

    /** The loop of `kbd_test_scan`, over the messages `ns`; `n` of them are handled. */
    method TestScan(ns: seq<Notification<Reads>>) returns (n: nat)
      modifies this
      ensures n <= |ns| && Value() == HandleAll(START, DeviceReads(ns[..n]))
      ensures n < |ns| ==> EscAt(ns, n)
      ensures forall i :: 0 <= i < n ==> !EscAt(ns, i)
    {
      Restart();
      n := 0;
      RunningStart(ns);
      while n < |ns| && flagESC
        invariant n <= |ns| && Running(ns, n, Value())
      {
        RunningNext(ns, n, Value());
        if ns[n].device.Some? { KbcIh(ns[n].device.value); }
        n := n + 1;
      }
      RunningEnds(ns, n, Value());
    }

    /** The loop of `kbd_test_timed_scan`, which also stops after `seconds` without a
        keyboard notification. */
    method TestTimedScan(ns: seq<Notification<Reads>>, seconds: nat) returns (n: nat)
      modifies this
      ensures n <= |ns| && Value() == HandleAll(START, DeviceReads(ns[..n]))
      ensures n < |ns| ==> ScanOver(ns, n, seconds)
      ensures forall i :: 0 <= i < n ==> !ScanOver(ns, i, seconds)
    {
      Restart();
      var counter := 0;
      n := 0;
      while n < |ns| && flagESC && counter / TICKS_PER_SECOND < seconds
        invariant n <= |ns| && Timed(ns, n, seconds, Value(), counter)
      {
        TimedNext(ns, n, seconds, Value(), counter);
        counter := HandleMessage(ns[n], counter);
        n := n + 1;
      }
      TimedEnds(ns, n, seconds, Value(), counter);
    }

    /** The loop's body: the keyboard resets the idle counter, the timer advances it. */
    method HandleMessage(msg: Notification<Reads>, was: nat) returns (counter: nat)
      modifies this
      ensures Value() == OnMessage(old(Value()), msg)
      ensures counter == (if msg.device.Some? then 0 else was) + if msg.timer then 1 else 0
    {
      counter := was;
      if msg.device.Some? {
        KbcIh(msg.device.value);
        counter := 0;
      }
      if msg.timer { counter := counter + 1; }
    }
  }

  /** What one message does. */
  function OnMessage(s: State, msg: Notification<Reads>): State {
    if msg.device.Some? then Handle(s, msg.device.value) else s
  }

  /** The first `n` messages have been handled and none of them released ESC. */
  ghost predicate Running(ns: seq<Notification<Reads>>, n: nat, s: State)
    requires n <= |ns|
  {
    s == HandleAll(START, DeviceReads(ns[..n])) && forall i :: 0 <= i < n ==> !EscAt(ns, i)
  }

  lemma RunningStart(ns: seq<Notification<Reads>>)
    ensures Running(ns, 0, START)
  {
  }

  lemma RunningNext(ns: seq<Notification<Reads>>, n: nat, s: State)
    requires n < |ns| && Running(ns, n, s) && s.running
    ensures Running(ns, n + 1, OnMessage(s, ns[n]))
  {
    MessageNext(ns, n);
    EscAtExactly(ns, n);
  }

  lemma RunningEnds(ns: seq<Notification<Reads>>, n: nat, s: State)
    requires n <= |ns| && Running(ns, n, s)
    ensures EscAt(ns, n) <==> !s.running
  {
    EscAtExactly(ns, n);
  }

  /** The first `n` messages have been handled and none of them was a reason to stop. */
  ghost predicate Timed(ns: seq<Notification<Reads>>, n: nat, seconds: nat, s: State, counter: nat)
    requires n <= |ns|
  {
    && s == HandleAll(START, DeviceReads(ns[..n])) && counter == Idle(ns, n)
    && forall i :: 0 <= i < n ==> !ScanOver(ns, i, seconds)
  }

  lemma TimedNext(ns: seq<Notification<Reads>>, n: nat, seconds: nat, s: State, counter: nat)
    requires n < |ns| && Timed(ns, n, seconds, s, counter) && s.running && counter / TICKS_PER_SECOND < seconds
    ensures Timed(ns, n + 1, seconds, OnMessage(s, ns[n]),
                  (if ns[n].device.Some? then 0 else counter) + if ns[n].timer then 1 else 0)
  {
    MessageNext(ns, n);
    ScanOverExactly(ns, n, seconds);
  }

  lemma TimedEnds(ns: seq<Notification<Reads>>, n: nat, seconds: nat, s: State, counter: nat)
    requires n <= |ns| && Timed(ns, n, seconds, s, counter)
    ensures ScanOver(ns, n, seconds) <==> !(s.running && counter / TICKS_PER_SECOND < seconds)
  {
    ScanOverExactly(ns, n, seconds);
  }

  // ----- what the handler makes of a stream of reads

  lemma MessageNext(ns: seq<Notification<Reads>>, n: nat)
    requires n < |ns|
    ensures HandleAll(START, DeviceReads(ns[..n + 1])) == OnMessage(HandleAll(START, DeviceReads(ns[..n])), ns[n])
  {
    DeviceReadsNext(ns, n);
    var rs := DeviceReads(ns[..n]);
    if ns[n].device.Some? {
      assert (rs + [ns[n].device.value])[..|rs|] == rs;
    }
  }

  /** A byte has arrived: the status before it is odd, the one behind it below 64. */
  predicate Arrives(r: Reads) {
    SaysFull(r.status) && !SaysError(r.check)
  }

  lemma AcceptedExactly(r: Reads)
    ensures Accepted(r) <==> Arrives(r)
  {
    FullIs(r.status);
    ErrorIs(r.check);
  }

  /** The bytes that have arrived. */
  function Bytes(rs: seq<Reads>): seq<byte> {
    if rs == [] then []
    else Bytes(rs[..|rs| - 1]) + if Arrives(rs[|rs| - 1]) then [rs[|rs| - 1].data.value] else []
  }

  /** ESC has been released in the first `i` messages. */
  ghost predicate EscAt(ns: seq<Notification<Reads>>, i: nat)
    requires i <= |ns|
  {
    0x81 in Bytes(DeviceReads(ns[..i]))
  }

  /** The run flag is down exactly when an ESC break code has been accepted, prefixed or not. */
  lemma {:induction false} EscExactly(rs: seq<Reads>)
    ensures HandleAll(START, rs).running <==> 0x81 !in Bytes(rs)
  {
    if rs != [] {
      EscExactly(rs[..|rs| - 1]);
      AcceptedExactly(rs[|rs| - 1]);
    }
  }

  lemma EscAtExactly(ns: seq<Notification<Reads>>, i: nat)
    requires i <= |ns|
    ensures EscAt(ns, i) <==> !HandleAll(START, DeviceReads(ns[..i])).running
  {
    EscExactly(DeviceReads(ns[..i]));
  }

  /** After `i` messages there is a reason to stop: ESC was released, or the keyboard has been
      quiet for `seconds`. */
  ghost predicate ScanOver(ns: seq<Notification<Reads>>, i: nat, seconds: nat)
    requires i <= |ns|
  {
    EscAt(ns, i) || Quiet(ns, i, 60 * seconds)
  }

  /** The loop condition sees exactly these reasons. */
  lemma ScanOverExactly(ns: seq<Notification<Reads>>, i: nat, seconds: nat)
    requires i <= |ns|
    ensures ScanOver(ns, i, seconds) <==>
            !(HandleAll(START, DeviceReads(ns[..i])).running && Idle(ns, i) / TICKS_PER_SECOND < seconds)
  {
    EscAtExactly(ns, i);
    QuietSeconds(ns, i, seconds, TICKS_PER_SECOND * seconds);
  }

  function FullCalls(rs: seq<Reads>): nat {
    if rs == [] then 0 else FullCalls(rs[..|rs| - 1]) + if SaysFull(rs[|rs| - 1].status) then 1 else 0
  }

  /** One port read for every call, and two more when the output buffer was found full. */
  lemma {:induction false} SysInCount(rs: seq<Reads>)
    ensures HandleAll(START, rs).sysIn == |rs| + 2 * FullCalls(rs)
  {
    if rs != [] {
      SysInCount(rs[..|rs| - 1]);
      FullIs(rs[|rs| - 1].status);
    }
  }

  /** The bytes of the scancodes in the order they arrived: a prefix goes first. */
  function Wire(codes: seq<Scancode>): seq<byte> {
    if codes == [] then []
    else Wire(codes[..|codes| - 1]) + WireOf(codes[|codes| - 1])
  }

  function WireOf(c: Scancode): seq<byte> {
    if |c.bytes| == 2 then [c.bytes[1], c.bytes[0]] else c.bytes
  }

  /** The stream without the prefixes that no code follows at once. */
  function Tidy(bs: seq<byte>): seq<byte> {
    if bs == [] then []
    else if bs[0] == 0xE0 && (|bs| == 1 || bs[1] == 0xE0) then Tidy(bs[1..])
    else [bs[0]] + Tidy(bs[1..])
  }

  lemma {:induction false} TidyEnd(bs: seq<byte>, b: byte)
    ensures b == TWO_BYTES ==> Tidy(bs + [b]) == Tidy(bs)
    ensures b != TWO_BYTES ==>
              Tidy(bs + [b]) == Tidy(bs) + if bs != [] && bs[|bs| - 1] == TWO_BYTES then [TWO_BYTES, b] else [b]
  {
    if bs == [] {
      assert bs + [b] == [b];
    } else {
      assert (bs + [b])[1..] == bs[1..] + [b];
      TidyEnd(bs[1..], b);
      if |bs| == 1 {
        assert bs[1..] == [];
        assert Tidy([b]) == if b == TWO_BYTES then [] else [b];
      }
    }
  }

  /** The state after the bytes `bs`. */
  function FeedAll(s: State, bs: seq<byte>): State {
    if bs == [] then s else Feed(FeedAll(s, bs[..|bs| - 1]), bs[|bs| - 1])
  }

  lemma FrontLast<T>(s: seq<T>)
    requires s != []
    ensures s == s[..|s| - 1] + [s[|s| - 1]]
  {
  }

  lemma FeedOne(s: State, bs: seq<byte>, b: byte)
    ensures FeedAll(s, bs + [b]) == Feed(FeedAll(s, bs), b)
  {
    assert (bs + [b])[..|bs|] == bs;
  }

  lemma FeedSysIn(s: State, n: nat, b: byte)
    ensures Feed(s.(sysIn := n), b) == Feed(s, b).(sysIn := n)
  {
  }

  /** Only the accepted bytes matter, apart from the read counter. */
  lemma {:induction false} OnlyAccepted(rs: seq<Reads>)
    ensures HandleAll(START, rs) == FeedAll(START, Bytes(rs)).(sysIn := HandleAll(START, rs).sysIn)
  {
    if rs != [] {
      var front, r := rs[..|rs| - 1], rs[|rs| - 1];
      OnlyAccepted(front);
      AcceptedExactly(r);
      HandleFeeds(HandleAll(START, front), FeedAll(START, Bytes(front)), r);
      if Accepted(r) { FeedOne(START, Bytes(front), r.data.value); } else { assert Bytes(rs) == Bytes(front); }
    }
  }

  /** One call on states that agree but for the counter of reads. */
  lemma HandleFeeds(s: State, t: State, r: Reads)
    requires s == t.(sysIn := s.sysIn)
    ensures Handle(s, r) == (if Accepted(r) then Feed(t, r.data.value) else t).(sysIn := Handle(s, r).sysIn)
  {
    if Accepted(r) { FeedSysIn(t, s.sysIn + 3, r.data.value); }
  }

  predicate EndsInPrefix(bs: seq<byte>) {
    bs != [] && bs[|bs| - 1] == TWO_BYTES
  }

  lemma PrintedNext(s: State, bs: seq<byte>, b: byte)
    requires Wire(s.printed) == Tidy(bs) && (s.twoBytes <==> EndsInPrefix(bs))
    ensures Wire(Feed(s, b).printed) == Tidy(bs + [b]) && (Feed(s, b).twoBytes <==> EndsInPrefix(bs + [b]))
  {
    TidyEnd(bs, b);
    if b != TWO_BYTES {
      var codes := s.printed + [Code(s.twoBytes, b)];
      assert codes[..|codes| - 1] == s.printed;
    }
  }

  lemma {:induction false} PrintedBytes(bs: seq<byte>)
    ensures Wire(FeedAll(START, bs).printed) == Tidy(bs)
    ensures FeedAll(START, bs).twoBytes <==> EndsInPrefix(bs)
  {
    if bs != [] {
      var front, b := bs[..|bs| - 1], bs[|bs| - 1];
      PrintedBytes(front);
      PrintedNext(FeedAll(START, front), front, b);
      FrontLast(bs);
    }
  }

  /** For every sequence of reads: what has been printed, put back in the order of arrival,
      is the accepted stream without idle prefixes, and the handler remembers exactly
      whether the last accepted byte was a prefix. */
  lemma PrintedStream(rs: seq<Reads>)
    ensures Wire(HandleAll(START, rs).printed) == Tidy(Bytes(rs))
    ensures HandleAll(START, rs).twoBytes <==> EndsInPrefix(Bytes(rs))
  {
    OnlyAccepted(rs);
    PrintedBytes(Bytes(rs));
  }

  // ----- every list of scancodes comes through

  /** A scancode the keyboard can send: one byte, or a prefixed one. */
  datatype AnyKey = Key(prefixed: bool, code: byte)

  type Key = k: AnyKey | k.code != 0xE0 witness Key(false, 0)

  function KeyBytes(k: Key): seq<byte> {
    if k.prefixed then [0xE0, k.code] else [k.code]
  }

  function Sent(keys: seq<Key>): seq<byte> {
    if keys == [] then [] else Sent(keys[..|keys| - 1]) + KeyBytes(keys[|keys| - 1])
  }

  function Printout(keys: seq<Key>): seq<Scancode> {
    seq(|keys|, i requires 0 <= i < |keys| => Code(keys[i].prefixed, keys[i].code))
  }

  lemma SentNext(keys: seq<Key>, s: State, k: Key)
    requires s.printed == Printout(keys) && !s.twoBytes
    ensures var t := Feed(if k.prefixed then Feed(s, TWO_BYTES) else s, k.code);
            t.printed == Printout(keys + [k]) && !t.twoBytes
  {
    assert Printout(keys + [k]) == Printout(keys) + [Code(k.prefixed, k.code)];
  }

  lemma {:induction false} FeedSent(keys: seq<Key>)
    ensures FeedAll(START, Sent(keys)).printed == Printout(keys) && !FeedAll(START, Sent(keys)).twoBytes
  {
    if keys != [] {
      var front, k := keys[..|keys| - 1], keys[|keys| - 1];
      FeedSent(front);
      FrontLast(keys);
      FeedSentOn(front, Sent(front), k, keys, Sent(keys));
    }
  }

  lemma FeedSentOn(keys: seq<Key>, bs: seq<byte>, k: Key, more: seq<Key>, moreBytes: seq<byte>)
    requires more == keys + [k] && moreBytes == bs + KeyBytes(k)
    requires FeedAll(START, bs).printed == Printout(keys) && !FeedAll(START, bs).twoBytes
    ensures FeedAll(START, moreBytes).printed == Printout(more) && !FeedAll(START, moreBytes).twoBytes
  {
    FeedKey(bs, k);
    SentNext(keys, FeedAll(START, bs), k);
  }

  lemma FeedKey(bs: seq<byte>, k: Key)
    ensures FeedAll(START, bs + KeyBytes(k)) ==
            Feed(if k.prefixed then Feed(FeedAll(START, bs), TWO_BYTES) else FeedAll(START, bs), k.code)
  {
    if k.prefixed {
      FeedOne(START, bs, TWO_BYTES);
      FeedOne(START, bs + [TWO_BYTES], k.code);
      assert bs + [TWO_BYTES, k.code] == bs + [TWO_BYTES] + [k.code];
    } else {
      FeedOne(START, bs, k.code);
    }
  }

  /** Whatever is rejected in between, the keys that were sent are the scancodes printed. */
  lemma KeysComeThrough(keys: seq<Key>, rs: seq<Reads>)
    requires Bytes(rs) == Sent(keys)
    ensures HandleAll(START, rs).printed == Printout(keys)
  {
    OnlyAccepted(rs);
    FeedSent(keys);
  }

  /** The make flag is the absence of the top bit. */
  lemma MakeIs(prefixed: bool, b: byte)
    ensures Code(prefixed, b).make <==> b < 0x80
  {
    assert Pow2(7) == 0x80;
    SingleBit(b, 7);
    DivModIs(b, 0x80);
  }
}
