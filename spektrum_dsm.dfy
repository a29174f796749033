/** The Spektrum DSM receiver: an event-driven decoder that collects serial
    bytes into a frame buffer, using the silence between events to find frame
    boundaries, and decodes each full frame into the channel table.

    The pure part states what one event does to the decoder's state
    (HandleEvent); the class SpektrumDSM keeps that state in fields and arrays
    and is proved to follow it. */
module SpektrumDsm {
  import opened DsmFrame

  newtype uint32 = x: int | 0 <= x < 0x1_0000_0000

  /** Silence, in microseconds, that separates two frames. */
  const FrameGapMicros: uint32 := 2500
  /** Offset that turns a decoded value into a pulse width in microseconds. */
  const PulseOffset: nat := 988

  /** usec - last on uint32: the time from last to now, across timer wrap-around. */
  function Lag(now: uint32, last: uint32): (r: uint32)
    ensures (last as int + r as int) % 0x1_0000_0000 == now as int
    ensures now >= last ==> r == now - last
  {
    ((now as int - last as int) % 0x1_0000_0000) as uint32
  }

  /** The timer value d microseconds after t. */
  function Advance(t: uint32, d: uint32): uint32 {
    ((t as int + d as int) % 0x1_0000_0000) as uint32
  }

  /** The lag measured d microseconds after t is d, even when the timer wraps
      in between. */
  lemma LagAfterAdvance(t: uint32, d: uint32)
    ensures Lag(Advance(t, d), t) == d
  {
    if t as int + d as int >= 0x1_0000_0000 {
      assert Advance(t, d) as int == t as int + d as int - 0x1_0000_0000;
    }
  }

  function Min(a: nat, b: nat): nat {
    if a <= b then a else b
  }

  /** Everything the decoder stores. */
  datatype DecoderState = DecoderState(
    lastInterruptMicros: uint32,  // usec of the most recent event, for timeouts
    timeLast: uint32,             // usec of the previous event, for the frame gap
    pos: nat,                     // write cursor into rxBuf
    rxBuf: seq<bv8>,              // frame buffer
    fadeCount: bv8,               // byte 0 of the last completed frame
    rcValue: seq<uint16>,         // channel table
    gotNewFrame: bool)            // a frame completed since the flag was last read

  predicate Wf(s: DecoderState) {
    s.pos <= BufferSize && |s.rxBuf| == BufferSize && |s.rcValue| == ChannelSlots
  }

  /** The state of a freshly constructed decoder: no frame and a last-event
      time of 0. The cursor, buffer, table and fade count are left unset by
      the C++ constructor; the model chooses 0 for them. */
  function Initial(): (s: DecoderState)
    ensures Wf(s) && s.pos == 0 && !s.gotNewFrame && s.lastInterruptMicros == 0
  {
    DecoderState(0, 0, 0, seq(BufferSize, _ => 0), 0, seq(ChannelSlots, _ => 0), false)
  }

  /** buf with bytes written from offset at on. */
  function Fill(buf: seq<bv8>, at: nat, bytes: seq<bv8>): (r: seq<bv8>)
    requires at + |bytes| <= |buf|
    ensures |r| == |buf|
    ensures r[..at] == buf[..at] && r[at..at + |bytes|] == bytes && r[at + |bytes|..] == buf[at + |bytes|..]
  {
    buf[..at] + bytes + buf[at + |bytes|..]
  }

  /** Where writing resumes: 0 after a frame gap, the old cursor otherwise. */
  function StartPos(s: DecoderState, usec: uint32): (r: nat)
    ensures usec >= s.timeLast ==>
      r == if usec as int - s.timeLast as int > FrameGapMicros as int then 0 else s.pos
    ensures usec < s.timeLast ==>
      r == if usec as int + 0x1_0000_0000 - s.timeLast as int > FrameGapMicros as int then 0 else s.pos
  {
    if Lag(usec, s.timeLast) > FrameGapMicros then 0 else s.pos
  }

  /** How many of the available bytes one event reads. */
  function Consumed(s: DecoderState, usec: uint32, available: nat): (n: nat)
    requires Wf(s)
    ensures n <= available && StartPos(s, usec) + n <= BufferSize
    ensures n < available ==> StartPos(s, usec) + n == BufferSize
  {
    Min(available, BufferSize - StartPos(s, usec))
  }

  /** One serial event at time usec with the bytes available bytes waiting. */
  function HandleEvent(v: Variant, s: DecoderState, usec: uint32, available: seq<bv8>): (t: DecoderState)
    requires Wf(s)
    ensures Wf(t)
    ensures t.lastInterruptMicros == usec && t.timeLast == usec
    ensures Lag(usec, s.timeLast) > FrameGapMicros ==>
      t.pos == Min(|available|, BufferSize) && t.rxBuf[..t.pos] == available[..t.pos]
    ensures Lag(usec, s.timeLast) <= FrameGapMicros ==>
      s.pos <= t.pos == s.pos + Min(|available|, BufferSize - s.pos) &&
      t.rxBuf[..s.pos] == s.rxBuf[..s.pos] &&
      t.rxBuf[s.pos..t.pos] == available[..t.pos - s.pos]
    ensures t.rxBuf[t.pos..] == s.rxBuf[t.pos..]
    ensures t.pos == BufferSize ==>
      t.gotNewFrame && t.fadeCount == t.rxBuf[0] && t.rcValue == DecodeFrame(v, t.rxBuf, s.rcValue)
    ensures t.pos < BufferSize ==>
      t.gotNewFrame == s.gotNewFrame && t.fadeCount == s.fadeCount && t.rcValue == s.rcValue
  {
    var start := StartPos(s, usec);
    var n := Consumed(s, usec, |available|);
    var buf := Fill(s.rxBuf, start, available[..n]);
    var pos := start + n;
    if pos == BufferSize then
      DecoderState(usec, usec, pos, buf, buf[0], DecodeFrame(v, buf, s.rcValue), true)
    else
      DecoderState(usec, usec, pos, buf, s.fadeCount, s.rcValue, s.gotNewFrame)
  }

  /** A whole frame delivered in one event after a frame gap is decoded at once. */
  lemma WholeFrameAfterGap(v: Variant, s: DecoderState, usec: uint32, frame: seq<bv8>)
    requires Wf(s) && |frame| == BufferSize && Lag(usec, s.timeLast) > FrameGapMicros
    ensures HandleEvent(v, s, usec, frame).rxBuf == frame
    ensures HandleEvent(v, s, usec, frame).gotNewFrame
    ensures HandleEvent(v, s, usec, frame).fadeCount == frame[0]
    ensures HandleEvent(v, s, usec, frame).rcValue == DecodeFrame(v, frame, s.rcValue)
  {
    var t := HandleEvent(v, s, usec, frame);
    assert t.rxBuf == t.rxBuf[..BufferSize];
  }

  /** A frame split over two events no more than 2500 us apart is assembled
      in order and decoded when its last byte arrives. */
  lemma FrameInTwoParts(v: Variant, s: DecoderState, usec1: uint32, usec2: uint32, a1: seq<bv8>, a2: seq<bv8>)
    requires Wf(s) && Lag(usec1, s.timeLast) > FrameGapMicros
    requires |a1| < BufferSize && |a1| + |a2| >= BufferSize
    requires Lag(usec2, usec1) <= FrameGapMicros
    ensures var t := HandleEvent(v, HandleEvent(v, s, usec1, a1), usec2, a2);
      t.gotNewFrame && t.rxBuf == a1 + a2[..BufferSize - |a1|] &&
      t.fadeCount == (a1 + a2)[0] && t.rcValue == DecodeFrame(v, t.rxBuf, s.rcValue)
  {
    var t1 := HandleEvent(v, s, usec1, a1);
    assert t1.pos == |a1| && t1.rxBuf[..|a1|] == a1 && t1.timeLast == usec1;
    var t := HandleEvent(v, t1, usec2, a2);
    assert t.pos == BufferSize;
    assert t.rxBuf[..|a1|] == a1;
    assert t.rxBuf[|a1|..BufferSize] == a2[..BufferSize - |a1|];
    assert t.rxBuf == t.rxBuf[..|a1|] + t.rxBuf[|a1|..BufferSize];
    assert (a1 + a2)[0] == t.rxBuf[0];
  }

  /** A frame gap discards a partial frame: the next event writes from
      offset 0 whatever the cursor was, and a full frame is needed again. */
  lemma GapDiscardsPartialFrame(v: Variant, s: DecoderState, usec: uint32, a: seq<bv8>)
    requires Wf(s) && 0 < s.pos < BufferSize && Lag(usec, s.timeLast) > FrameGapMicros
    requires |a| < BufferSize
    ensures HandleEvent(v, s, usec, a).pos == |a|
    ensures !HandleEvent(v, s, usec, a).gotNewFrame <==> !s.gotNewFrame
  {
  }

  /** Once the buffer is full, another event within 2500 us reads nothing but
      decodes the same buffer again and raises the flag again. */
  lemma FullBufferDecodedAgain(v: Variant, s: DecoderState, usec: uint32, a: seq<bv8>)
    requires Wf(s) && s.pos == BufferSize && Lag(usec, s.timeLast) <= FrameGapMicros
    ensures Consumed(s, usec, |a|) == 0
    ensures HandleEvent(v, s, usec, a).rxBuf == s.rxBuf
    ensures HandleEvent(v, s, usec, a).gotNewFrame
    ensures HandleEvent(v, s, usec, a).rcValue == DecodeFrame(v, s.rxBuf, s.rcValue)
  {
    var t := HandleEvent(v, s, usec, a);
    assert t.rxBuf == t.rxBuf[..BufferSize];
    assert s.rxBuf == s.rxBuf[..BufferSize];
  }

  /** Reading the flag clears it: the read returns the flag, and a second
      read with no event in between returns false. */
  function ReadFlag(s: DecoderState): (r: (bool, DecoderState))
    ensures r.0 == s.gotNewFrame && !r.1.gotNewFrame
    ensures r.1 == s.(gotNewFrame := false)
  {
    (s.gotNewFrame, s.(gotNewFrame := false))
  }

  /** The flag is true once per completed frame: an event that completes a
      frame raises it, the first read reports it and the second does not. */
  lemma FlagReadOnce(v: Variant, s: DecoderState, usec: uint32, frame: seq<bv8>)
    requires Wf(s) && |frame| == BufferSize && Lag(usec, s.timeLast) > FrameGapMicros
    ensures ReadFlag(HandleEvent(v, s, usec, frame)).0
    ensures !ReadFlag(ReadFlag(HandleEvent(v, s, usec, frame)).1).0
  {
    WholeFrameAfterGap(v, s, usec, frame);
  }

  /** getChannelValues' output for one slot: value + 988, stored in a uint16. */
  function ScaleChannel(x: uint16): (r: uint16)
    ensures x as int + PulseOffset < 0x1_0000 ==> r as int == x as int + PulseOffset
    ensures x as int + PulseOffset >= 0x1_0000 ==> r as int == x as int + PulseOffset - 0x1_0000
  {
    ((x as int + PulseOffset) % 0x1_0000) as uint16
  }

  /** Under both presets every channel output lies in [988, 2011]. */
  lemma PresetPulseRange(v: Variant, bh: bv8, bl: bv8)
    requires IsPreset(v)
    ensures 988 <= ScaleChannel(ChannelValue(v, bh, bl)) <= 2011
  {
    PresetValueBound(v, bh, bl);
  }

  /** Under both presets, if the table holds decoded values then so does the
      table after any event. */
  lemma PresetTableStaysInRange(v: Variant, s: DecoderState, usec: uint32, available: seq<bv8>)
    requires Wf(s) && IsPreset(v) && AllBelow(s.rcValue, 1024)
    ensures AllBelow(HandleEvent(v, s, usec, available).rcValue, 1024)
  {
    var t := HandleEvent(v, s, usec, available);
    if t.pos == BufferSize {
      DecodePairsKeepsBound(v, t.rxBuf, BufferSize, s.rcValue);
    }
  }

  /** A DSM1024 frame with fade count 42 whose first pair carries channel 0
      at 512, delivered after a frame gap, gives fade count 42 and a channel 0
      output of 1500. */
  lemma ExampleFrame1024(s: DecoderState, usec: uint32, ws: seq<nat>)
    requires Wf(s) && Lag(usec, s.timeLast) > FrameGapMicros
    requires |ws| == PairsPerFrame && ws[0] == 512
    requires forall i :: 0 <= i < |ws| ==> ws[i] < 1024
    ensures var t := HandleEvent(Dsm1024, s, usec, EncodeFrame(Dsm1024, 42, ws));
      t.gotNewFrame && t.fadeCount == 42 && t.rcValue[0] == 512 && ScaleChannel(t.rcValue[0]) == 1500
  {
    var frame := EncodeFrame(Dsm1024, 42, ws);
    WholeFrameAfterGap(Dsm1024, s, usec, frame);
    FrameRoundTrip(Dsm1024, 42, ws, s.rcValue);
  }

  /** The decoder of a Spektrum DSM receiver, for one protocol variant. */
  class SpektrumDSM {
    const variant: Variant
    var lastInterruptMicros: uint32
    /** The function-local static of handleSerialEvent: time of the previous event. */
    var spekTimeLast: uint32
    var rxBufPos: nat
    const rxBuf: array<bv8>
    const rcValue: array<uint16>
    var fadeCount: bv8
    var gotNewFrame: bool

    ghost predicate Valid()
      reads this, rcValue
    {
      rxBuf.Length == BufferSize && rcValue.Length == ChannelSlots && rxBufPos <= BufferSize &&
      rxBuf as object != rcValue &&
      (IsPreset(variant) ==> AllBelow(rcValue[..], 1024))
    }

    ghost function State(): (s: DecoderState)
      reads this, rxBuf, rcValue
    {
      DecoderState(lastInterruptMicros, spekTimeLast, rxBufPos, rxBuf[..], fadeCount, rcValue[..], gotNewFrame)
    }

    /** Construction with the four tuning numbers: no new frame and a last-event
        time of 0. The cursor, the buffer, the channel table and the fade count,
        which the C++ constructor leaves unset, and the previous-event time,
        a zero-initialised static there, all start at 0 here. */
    constructor (v: Variant)
      ensures Valid() && variant == v && fresh(rxBuf) && fresh(rcValue)
      ensures State() == Initial()
    {
      variant := v;
      lastInterruptMicros := 0;
      spekTimeLast := 0;
      rxBufPos := 0;
      rxBuf := new bv8[BufferSize](_ => 0);
      rcValue := new uint16[ChannelSlots](_ => 0);
      fadeCount := 0;
      gotNewFrame := false;
    }

    /** One serial event: resynchronise on a frame gap, read what the buffer
        has room for, and decode the frame once the buffer is full. Returns
        how many of the available bytes were read. */
    method HandleSerialEvent(usec: uint32, available: seq<bv8>) returns (consumed: nat)
      requires Valid()
      modifies this, rxBuf, rcValue
      ensures Valid()
      ensures State() == HandleEvent(variant, old(State()), usec, available)
      ensures consumed == Consumed(old(State()), usec, |available|)
    {
      ghost var s := State();
      Resync(usec);
      consumed := ReadAvailable(available);
      assert consumed == Consumed(s, usec, |available|);
      assert rxBuf[..] == Fill(s.rxBuf, StartPos(s, usec), available[..consumed]);
      if rxBufPos == BufferSize {
        DecodeBuffer();
      }
      assert State() == HandleEvent(variant, s, usec, available);
      if IsPreset(variant) {
        PresetTableStaysInRange(variant, s, usec, available);
      }
    }

    /** The timing step of an event: records usec as the time of the last and
        of the previous event, and rewinds the cursor after a frame gap. */
    method Resync(usec: uint32)
      modifies this`lastInterruptMicros, this`spekTimeLast, this`rxBufPos
      ensures lastInterruptMicros == usec && spekTimeLast == usec
      ensures rxBufPos == StartPos(old(State()), usec)
    {
      lastInterruptMicros := usec;
      var interval := Lag(usec, spekTimeLast);
      spekTimeLast := usec;
      if interval > FrameGapMicros {
        rxBufPos := 0;
      }
    }

    /** The copy loop of an event: appends available bytes at the cursor until
        the input runs out or the buffer is full. */
    method ReadAvailable(available: seq<bv8>) returns (consumed: nat)
      requires rxBuf.Length == BufferSize && rxBufPos <= BufferSize && rxBuf as object != rcValue
      modifies this`rxBufPos, rxBuf
      ensures rcValue[..] == old(rcValue[..])
      ensures consumed == Min(|available|, BufferSize - old(rxBufPos))
      ensures rxBufPos == old(rxBufPos) + consumed
      ensures rxBuf[..] == Fill(old(rxBuf[..]), old(rxBufPos), available[..consumed])
    {
      consumed := 0;
      while consumed < |available| && rxBufPos < BufferSize
        invariant old(rxBufPos) + consumed == rxBufPos <= BufferSize
        invariant consumed <= |available|
        invariant rxBuf[..] == Fill(old(rxBuf[..]), old(rxBufPos), available[..consumed])
      {
        rxBuf[rxBufPos] := available[consumed];
        rxBufPos := rxBufPos + 1;
        consumed := consumed + 1;
      }
    }

    /** The decode step of an event on a full buffer: takes the fade count
        from byte 0, applies every channel pair to the table and raises the
        new-frame flag. */
    method DecodeBuffer()
      requires rxBuf.Length == BufferSize && rcValue.Length == ChannelSlots && rxBuf as object != rcValue
      modifies this`fadeCount, this`gotNewFrame, rcValue
      ensures fadeCount == rxBuf[0] && gotNewFrame
      ensures rcValue[..] == DecodeFrame(variant, rxBuf[..], old(rcValue[..]))
    {
      fadeCount := rxBuf[0];
      var b := 2;
      while b < BufferSize
        invariant 2 <= b <= BufferSize && b % 2 == 0
        invariant rcValue[..] == DecodePairs(variant, rxBuf[..], b, old(rcValue[..]))
        invariant fadeCount == rxBuf[0]
      {
        var bh := rxBuf[b];
        var bl := rxBuf[b + 1];
        var ch := ChannelIndex(variant, bh);
        if ch < variant.rcChans as int {
          rcValue[ch] := ChannelValue(variant, bh, bl);
        }
        b := b + 2;
      }
      gotNewFrame := true;
    }

    /** Returns whether a frame has completed since the last call, and clears it. */
    method GotNewFrame() returns (r: bool)
      requires Valid()
      modifies this`gotNewFrame
      ensures Valid()
      ensures (r, State()) == ReadFlag(old(State()))
    {
      r := gotNewFrame;
      if gotNewFrame {
        gotNewFrame := false;
      }
    }

    /** Writes value + 988 of the first count channels into values. */
    method GetChannelValues(values: array<uint16>, count: uint8)
      requires Valid() && values != rcValue
      requires count as int <= values.Length && count as int <= ChannelSlots
      modifies values
      ensures forall k :: 0 <= k < count as int ==> values[k] == ScaleChannel(rcValue[k])
      ensures IsPreset(variant) ==> forall k :: 0 <= k < count as int ==> 988 <= values[k] <= 2011
      ensures values[count..] == old(values[count..])
    {
      var k: uint8 := 0;
      while k < count
        invariant k <= count
        invariant forall j :: 0 <= j < k as int ==> values[j] == ScaleChannel(rcValue[j])
        invariant values[count..] == old(values[count..])
      {
        values[k] := ScaleChannel(rcValue[k]);
        k := k + 1;
      }
      if IsPreset(variant) {
        forall j | 0 <= j < count as int
          ensures 988 <= values[j] <= 2011
        {
          assert rcValue[..][j] < 1024;
        }
      }
    }

    /** Fade count of the most recently completed frame. */
    function GetFadeCount(): (r: bv8)
      reads this, rxBuf, rcValue
      ensures r == State().fadeCount
    {
      fadeCount
    }

    /** Whether more than maxMicros have passed since the last event, measured
        across timer wrap-around. */
    function TimedOut(usec: uint32, maxMicros: uint32): (r: bool)
      reads this
      ensures usec >= lastInterruptMicros ==> (r <==> usec - lastInterruptMicros > maxMicros)
      ensures usec < lastInterruptMicros ==>
        (r <==> usec as int + 0x1_0000_0000 - lastInterruptMicros as int > maxMicros as int)
    {
      Lag(usec, lastInterruptMicros) > maxMicros
    }
  }

  /** No false timeout across wrap-around: d microseconds after the last
      event the decoder has timed out exactly when d exceeds the limit. */
  lemma TimedOutAfter(dsm: SpektrumDSM, d: uint32, maxMicros: uint32)
    ensures dsm.TimedOut(Advance(dsm.lastInterruptMicros, d), maxMicros) <==> d > maxMicros
  {
    LagAfterAdvance(dsm.lastInterruptMicros, d);
  }
}
