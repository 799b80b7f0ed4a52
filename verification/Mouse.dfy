/** The mouse handler of lab4/mouse.c and the loops of lab4/lab4.c. */
module Mouse {
  import opened Bits
  import opened Kbc
  import opened Watchdog

  /** The ports as one call of the handler finds them, in the order it reads them. */
  datatype Reads = Reads(source: PortRead, status: PortRead, data: PortRead, check: PortRead)

  datatype Packet = Packet(
    bytes: seq<byte>, rb: bool, mb: bool, lb: bool, deltaX: int, deltaY: int, xOv: bool, yOv: bool)

  predicate Bit(b: byte, n: nat) {
    BitAnd(b, Pow2(n)) != 0
  }

  /** The conversion of an `int` to `int16_t`. */
  function ToInt16(n: nat): int {
    if n % 0x1_0000 < 0x8000 then n % 0x1_0000 else n % 0x1_0000 - 0x1_0000
  }

  /** A nine-bit displacement: the sign comes from the packet's first byte. */
  function Delta(b: byte, negative: bool): int {
    ToInt16(if negative then BitOr(b, 0xFF00) else b)
  }

  function Parse(b0: byte, b1: byte, b2: byte): Packet {
    Packet([b0, b1, b2], Bit(b0, 1), Bit(b0, 2), Bit(b0, 0), Delta(b1, Bit(b0, 4)), Delta(b2, Bit(b0, 5)),
           Bit(b0, 6), Bit(b0, 7))
  }

  predicate Accepted(r: Reads) {
    MouseData(r.source) && OutputFull(r.status) && !CommError(r.check)
  }

  /** The bytes of the packet under way and the packets reported so far. */
  datatype State = State(pending: seq<byte>, packets: seq<Packet>)

  const START: State := State([], [])

  ghost predicate StateOk(s: State) {
    |s.pending| < 3
  }

  /** A byte that cannot start a packet is skipped when one is expected to start. */
  predicate Skipped(s: State, b: byte) {
    s.pending == [] && !Bit(b, 3)
  }

  /** What one accepted byte does, together with the caller's reset. */
  function Feed(s: State, b: byte): (t: State)
    requires StateOk(s)
    ensures StateOk(t)
  {
    if Skipped(s, b) then s
    else if |s.pending| < 2 then s.(pending := s.pending + [b])
    else State([], s.packets + [Parse(s.pending[0], s.pending[1], b)])
  }

  function Handle(s: State, r: Reads): (t: State)
    requires StateOk(s)
    ensures StateOk(t)
  {
    if Accepted(r) then Feed(s, r.data.value) else s
  }

  function HandleAll(s: State, rs: seq<Reads>): (t: State)
    requires StateOk(s)
    ensures StateOk(t)
  {
    if rs == [] then s else Handle(HandleAll(s, rs[..|rs| - 1]), rs[|rs| - 1])
  }

  class Driver {
    const arr: array<byte>
    var nbytes: nat
    var p: Packet
    var printed: seq<Packet>

    constructor ()
      ensures Valid() && Value() == START && fresh(arr)
    {
      arr := new byte[3](_ => 0);
      nbytes := 0;
      p := Packet([], false, false, false, 0, 0, false, false);
      printed := [];
    }

    predicate Valid()
      reads this
    {
      arr.Length == 3 && nbytes < 3
    }

    ghost function Value(): State
      requires Valid()
      reads this, arr
    {
      State(arr[..nbytes], printed)
    }

    /** One call of the handler: `nbytes` is 3 afterwards exactly when it completed a packet. */
    method MouseIh(r: Reads)
      requires Valid()
      modifies this, arr
      ensures printed == old(printed) && nbytes <= 3
      ensures nbytes < 3 ==> Value() == Handle(old(Value()), r) && p == old(p)
      ensures nbytes == 3 ==> Handle(old(Value()), r) == State([], printed + [p])
    {
      if nbytes == 0 {
        for i := 0 to 3
          invariant unchanged(this)
        {
          arr[i] := 0;
        }
      }
      assert arr[..nbytes] == old(arr[..nbytes]);
      if !MouseData(r.source) { return; }
      if !OutputFull(r.status) { return; }
      var b := r.data.value;
      if CommError(r.check) { return; }
      if !Bit(b, 3) && nbytes == 0 { return; }
      arr[nbytes] := b;
      nbytes := nbytes + 1;
      if nbytes == 3 {
        assert old(arr[..nbytes]) == [arr[0], arr[1]];
        var x: nat, y: nat := arr[1], arr[2];
        if Bit(arr[0], 4) { x := BitOr(x, 0xFF00); }
        if Bit(arr[0], 5) { y := BitOr(y, 0xFF00); }
        p := Packet([arr[0], arr[1], arr[2]], Bit(arr[0], 1), Bit(arr[0], 2), Bit(arr[0], 0), ToInt16(x), ToInt16(y),
                    Bit(arr[0], 6), Bit(arr[0], 7));
      }
    }

    /** The handler with what both loops do after it: a complete packet is printed and the
        count reset. */
    method HandleNotification(r: Reads) returns (complete: bool)
      requires Valid()
      modifies this, arr
      ensures Valid() && Value() == Handle(old(Value()), r)
      ensures |printed| == |old(printed)| + if complete then 1 else 0
    {
      MouseIh(r);
      complete := nbytes == 3;
      if complete {
        nbytes := 0;
        printed := printed + [p];
      }
    }

    /** The loop of `mouse_test_packet`, over the messages `ns`; `n` of them are handled. */
    method TestPacket(ns: seq<Notification<Reads>>, cnt: nat) returns (n: nat)
      requires Valid()
      modifies this, arr
      ensures Valid() && n <= |ns| && Value() == HandleAll(old(Value()), DeviceReads(ns[..n]))
      ensures n < |ns| ==> PacketsIn(old(Value()), ns, n) >= ToInt32(cnt)
      ensures forall i :: 0 <= i < n ==> PacketsIn(old(Value()), ns, i) < ToInt32(cnt)
    {
      ghost var s := Value();
      var counter := 0;
      n := 0;
      while n < |ns| && counter < ToInt32(cnt)
        invariant Valid() && n <= |ns| && Value() == HandleAll(s, DeviceReads(ns[..n]))
        invariant counter == PacketsIn(s, ns, n)
        invariant forall i :: 0 <= i < n ==> PacketsIn(s, ns, i) < ToInt32(cnt)
      {
        MessageNext(s, ns, n);
        if ns[n].device.Some? {
          var complete := HandleNotification(ns[n].device.value);
          if complete { counter := counter + 1; }
        }
        n := n + 1;
      }
    }

    /** The loop of `mouse_test_async`, which stops after `seconds` without a mouse notification. */
    method TestAsync(ns: seq<Notification<Reads>>, seconds: nat) returns (n: nat)
      requires Valid()
      modifies this, arr
      ensures Valid() && n <= |ns| && Value() == HandleAll(old(Value()), DeviceReads(ns[..n]))
      ensures n < |ns| ==> Quiet(ns, n, 60 * seconds)
      ensures forall i :: 0 <= i < n ==> !Quiet(ns, i, 60 * seconds)
    {
      ghost var s, limit := Value(), TICKS_PER_SECOND * seconds;
      var timerGlobalCounter := 0;
      n := 0;
      while n < |ns| && timerGlobalCounter / TICKS_PER_SECOND < seconds
        invariant Valid() && n <= |ns| && Value() == HandleAll(s, DeviceReads(ns[..n]))
        invariant timerGlobalCounter == Idle(ns, n)
        invariant forall i :: 0 <= i < n ==> !Quiet(ns, i, limit)
      {
        MessageNext(s, ns, n);
        QuietSeconds(ns, n, seconds, limit);
        if ns[n].device.Some? {
          timerGlobalCounter := 0;
          var _ := HandleNotification(ns[n].device.value);
        }
        if ns[n].timer { timerGlobalCounter := timerGlobalCounter + 1; }
        n := n + 1;
      }
      QuietSeconds(ns, n, seconds, limit);
    }
  }

  /** The cast of the wanted packet count to `int`. */
  function ToInt32(n: nat): (r: int)
    ensures -0x8000_0000 <= r < 0x8000_0000 && (n - r) % 0x1_0000_0000 == 0
  {
    if n % 0x1_0000_0000 < 0x8000_0000 then n % 0x1_0000_0000 else n % 0x1_0000_0000 - 0x1_0000_0000
  }

  /** Packets completed by the first `i` messages. */
  ghost function PacketsIn(s: State, ns: seq<Notification<Reads>>, i: nat): int
    requires StateOk(s) && i <= |ns|
  {
    |HandleAll(s, DeviceReads(ns[..i])).packets| - |s.packets|
  }

  /** What one message does. */
  lemma MessageNext(s: State, ns: seq<Notification<Reads>>, n: nat)
    requires StateOk(s) && n < |ns|
    ensures HandleAll(s, DeviceReads(ns[..n + 1])) ==
            var t := HandleAll(s, DeviceReads(ns[..n]));
            if ns[n].device.Some? then Handle(t, ns[n].device.value) else t
  {
    DeviceReadsNext(ns, n);
    var rs := DeviceReads(ns[..n]);
    if ns[n].device.Some? {
      assert (rs + [ns[n].device.value])[..|rs|] == rs;
    }
  }

  // ----- what the handler makes of a stream of reads

  /** A byte of the mouse has arrived: bit 5 of the first status, an odd second one, and a last
      one below 64. */
  predicate Arrives(r: Reads) {
    SaysMouse(r.source) && SaysFull(r.status) && !SaysError(r.check)
  }

  lemma AcceptedExactly(r: Reads)
    ensures Accepted(r) <==> Arrives(r)
  {
    MouseDataIs(r.source);
    FullIs(r.status);
    ErrorIs(r.check);
  }

  /** The bytes that have arrived. */
  function Bytes(rs: seq<Reads>): seq<byte> {
    if rs == [] then []
    else Bytes(rs[..|rs| - 1]) + if Arrives(rs[|rs| - 1]) then [rs[|rs| - 1].data.value] else []
  }

  function FeedAll(s: State, bs: seq<byte>): (t: State)
    requires StateOk(s)
    ensures StateOk(t)
  {
    if bs == [] then s else Feed(FeedAll(s, bs[..|bs| - 1]), bs[|bs| - 1])
  }

  lemma FeedOne(s: State, bs: seq<byte>, b: byte)
    requires StateOk(s)
    ensures FeedAll(s, bs + [b]) == Feed(FeedAll(s, bs), b)
  {
    assert (bs + [b])[..|bs|] == bs;
  }

  lemma {:induction false} FeedMore(s: State, bs: seq<byte>, cs: seq<byte>)
    requires StateOk(s)
    ensures FeedAll(s, bs + cs) == FeedAll(FeedAll(s, bs), cs)
  {
    if cs == [] {
      assert bs + cs == bs;
    } else {
      var front, c := cs[..|cs| - 1], cs[|cs| - 1];
      FeedMore(s, bs, front);
      FeedOne(s, bs + front, c);
      assert bs + cs == bs + front + [c];
    }
  }

  lemma {:induction false} OnlyAccepted(s: State, rs: seq<Reads>)
    requires StateOk(s)
    ensures HandleAll(s, rs) == FeedAll(s, Bytes(rs))
  {
    if rs != [] {
      var front, r := rs[..|rs| - 1], rs[|rs| - 1];
      OnlyAccepted(s, front);
      AcceptedExactly(r);
      if Accepted(r) {
        FeedOne(s, Bytes(front), r.data.value);
      } else {
        assert Bytes(rs) == Bytes(front);
      }
    }
  }

  /** How many bytes of the stream were stored in a packet. */
  function Stored(bs: seq<byte>): nat {
    if bs == [] then 0
    else Stored(bs[..|bs| - 1]) + if Skipped(FeedAll(START, bs[..|bs| - 1]), bs[|bs| - 1]) then 0 else 1
  }

  /** No byte is lost: every stored byte is in a reported packet or in the one under way. */
  lemma {:induction false} BytesBalance(bs: seq<byte>)
    ensures Stored(bs) == 3 * |FeedAll(START, bs).packets| + |FeedAll(START, bs).pending|
  {
    if bs != [] { BytesBalance(bs[..|bs| - 1]); }
  }

  // ----- every list of movements comes through

  datatype Move = Move(rb: bool, mb: bool, lb: bool, dx: int, dy: int, xOv: bool, yOv: bool)

  predicate MoveOk(m: Move) {
    -256 <= m.dx < 256 && -256 <= m.dy < 256
  }

  function B(b: bool): nat {
    if b then 1 else 0
  }

  /** The packet of the PS/2 protocol: bit 3 of the first byte is always set. */
  function Encode(m: Move): seq<byte>
    requires MoveOk(m)
  {
    [B(m.lb) + 2 * B(m.rb) + 4 * B(m.mb) + 8 + 16 * B(m.dx < 0) + 32 * B(m.dy < 0) + 64 * B(m.xOv) + 128 * B(m.yOv),
     m.dx % 256, m.dy % 256]
  }

  /** What should be reported. */
  function Report(m: Move): Packet
    requires MoveOk(m)
  {
    Packet(Encode(m), m.rb, m.mb, m.lb, m.dx, m.dy, m.xOv, m.yOv)
  }

  lemma BitArithmetic(p: nat, low: nat, v: nat, high: nat)
    requires low < p && v < 2
    ensures ((v + 2 * high) * p + low) / p % 2 == v
  {
    DivModUnique(v + 2 * high, p, low);
    DivModUnique(high, 2, v);
  }

  lemma BitIs(b: byte, n: nat, p: nat, low: nat, v: nat, high: nat)
    requires p == Pow2(n) && low < p && v < 2 && b == (v + 2 * high) * p + low
    ensures Bit(b, n) <==> v == 1
  {
    SingleBit(b, n);
    BitArithmetic(p, low, v, high);
  }

  /** The bits of a byte are the digits it was made of. */
  lemma DigitsDecode(v0: nat, v1: nat, v2: nat, v3: nat, v4: nat, v5: nat, v6: nat, v7: nat, b: byte)
    requires v0 < 2 && v1 < 2 && v2 < 2 && v3 < 2 && v4 < 2 && v5 < 2 && v6 < 2 && v7 < 2
    requires b == v0 + 2 * v1 + 4 * v2 + 8 * v3 + 16 * v4 + 32 * v5 + 64 * v6 + 128 * v7
    ensures (Bit(b, 0) <==> v0 == 1) && (Bit(b, 1) <==> v1 == 1) && (Bit(b, 2) <==> v2 == 1)
    ensures (Bit(b, 3) <==> v3 == 1) && (Bit(b, 4) <==> v4 == 1) && (Bit(b, 5) <==> v5 == 1)
    ensures (Bit(b, 6) <==> v6 == 1) && (Bit(b, 7) <==> v7 == 1)
  {
    Powers();
    var l3 := v0 + 2 * v1 + 4 * v2;
    var l5 := l3 + 8 * v3 + 16 * v4;
    var h5 := v6 + 2 * v7;
    var h3 := v4 + 2 * v5 + 4 * h5;
    BitIs(b, 0, 1, 0, v0, v1 + 2 * v2 + 4 * v3 + 8 * h3);
    BitIs(b, 1, 2, v0, v1, v2 + 2 * v3 + 4 * h3);
    BitIs(b, 2, 4, v0 + 2 * v1, v2, v3 + 2 * h3);
    BitIs(b, 3, 8, l3, v3, h3);
    BitIs(b, 4, 16, l3 + 8 * v3, v4, v5 + 2 * h5);
    BitIs(b, 5, 32, l5, v5, h5);
    BitIs(b, 6, 64, l5 + 32 * v5, v6, v7);
    BitIs(b, 7, 128, l5 + 32 * v5 + 64 * v6, v7, 0);
  }

  /** Sign extension recovers every nine-bit displacement. */
  lemma DeltaDecode(d: int)
    requires -256 <= d < 256
    ensures Delta(d % 256, d < 0) == d
  {
    if d < 0 {
      SignExtended(d % 256);
      NegativeByte(d);
    }
  }

  lemma NegativeByte(d: int)
    requires -256 <= d < 0
    ensures d % 256 == d + 256 && ToInt16(0xFF00 + (d + 256)) == d
  {
  }

  lemma SignExtended(b: byte)
    ensures BitOr(b, 0xFF00) == 0xFF00 + b
  {
    Powers();
    OrDisjoint(b, 0xFF, 8);
    OrComm(0xFF00, b);
  }

  lemma ParseEncode(m: Move)
    requires MoveOk(m)
    ensures Bit(Encode(m)[0], 3)
    ensures Parse(Encode(m)[0], Encode(m)[1], Encode(m)[2]) == Report(m)
  {
    DigitsDecode(B(m.lb), B(m.rb), B(m.mb), 1, B(m.dx < 0), B(m.dy < 0), B(m.xOv), B(m.yOv), Encode(m)[0]);
    DeltaDecode(m.dx);
    DeltaDecode(m.dy);
  }

  /** A movement, and the stray bytes that arrive before its packet. */
  datatype AnyBurst = Burst(strays: seq<byte>, move: Move)

  predicate BurstOk(b: AnyBurst) {
    MoveOk(b.move) && forall i :: 0 <= i < |b.strays| ==> !Bit(b.strays[i], 3)
  }

  type Burst = b: AnyBurst | BurstOk(b) witness Burst([], Move(false, false, false, 0, 0, false, false))

  function Stream(bursts: seq<Burst>): seq<byte>
  {
    if bursts == [] then []
    else Stream(bursts[..|bursts| - 1]) + (bursts[|bursts| - 1].strays + Encode(bursts[|bursts| - 1].move))
  }

  function Reports(bursts: seq<Burst>): seq<Packet>
  {
    seq(|bursts|, i requires 0 <= i < |bursts| => Report(bursts[i].move))
  }

  lemma {:induction false} StraysSkipped(s: State, strays: seq<byte>)
    requires StateOk(s) && s.pending == [] && forall i :: 0 <= i < |strays| ==> !Bit(strays[i], 3)
    ensures FeedAll(s, strays) == s
  {
    if strays != [] { StraysSkipped(s, strays[..|strays| - 1]); }
  }

  lemma PacketFed(s: State, m: Move)
    requires StateOk(s) && s.pending == [] && MoveOk(m)
    ensures FeedAll(s, Encode(m)) == State([], s.packets + [Report(m)])
  {
    ParseEncode(m);
    ThreeFed(s, Encode(m)[0], Encode(m)[1], Encode(m)[2]);
    assert Encode(m) == [Encode(m)[0], Encode(m)[1], Encode(m)[2]];
  }

  lemma ThreeFed(s: State, b0: byte, b1: byte, b2: byte)
    requires StateOk(s) && s.pending == [] && Bit(b0, 3)
    ensures FeedAll(s, [b0, b1, b2]) == State([], s.packets + [Parse(b0, b1, b2)])
  {
    FeedOne(s, [], b0);
    FeedOne(s, [b0], b1);
    FeedOne(s, [b0, b1], b2);
    assert [] + [b0] == [b0] && [b0] + [b1] == [b0, b1] && [b0, b1] + [b2] == [b0, b1, b2];
  }

  lemma {:induction false} StreamFed(bursts: seq<Burst>)
    ensures FeedAll(START, Stream(bursts)) == State([], Reports(bursts))
  {
    if bursts != [] {
      var front, b := bursts[..|bursts| - 1], bursts[|bursts| - 1];
      StreamFed(front);
      FeedMore(START, Stream(front), b.strays + Encode(b.move));
      FeedMore(State([], Reports(front)), b.strays, Encode(b.move));
      StraysSkipped(State([], Reports(front)), b.strays);
      PacketFed(State([], Reports(front)), b.move);
      assert Reports(bursts) == Reports(front) + [Report(b.move)];
    }
  }

  /** Whatever is rejected in between and whatever stray bytes separate the packets, the
      movements that were sent are the packets reported, and nothing is left over. */
  lemma MovesComeThrough(bursts: seq<Burst>, rs: seq<Reads>)
    requires Bytes(rs) == Stream(bursts)
    ensures HandleAll(START, rs) == State([], Reports(bursts))
  {
    OnlyAccepted(START, rs);
    StreamFed(bursts);
  }
}
