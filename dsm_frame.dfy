/** Wire format of one Spektrum DSM frame and the decoding of its channel pairs.

    A frame is BufferSize bytes: byte 0 is the fade count, byte 1 is reserved,
    and every following pair of bytes (high, low) carries one channel. The high
    byte holds the channel index in a nibble above a variant-specific shift and
    the top bits of the value below it; the low byte holds the rest of the value. */
module DsmFrame {
  import opened ByteCasts

  newtype uint8 = x: int | 0 <= x < 0x100
  newtype uint16 = x: int | 0 <= x < 0x1_0000

  /** Length of one frame in bytes (BUFFER_SIZE); even, so that every pair is whole. */
  const BufferSize: nat := 16
  /** Size of the channel table: one slot for every 4-bit channel index. */
  const ChannelSlots: nat := 16

  /** The four tuning numbers the decoder is constructed with. */
  datatype Variant = Variant(rcChans: uint8, chanShift: uint8, chanMask: bv8, valShift: uint8)

  /** The 10-bit, 7-channel preset (SpektrumDSM1024). */
  const Dsm1024 := Variant(7, 2, 0x03, 0)
  /** The 11-bit, 8-channel preset (SpektrumDSM2048). */
  const Dsm2048 := Variant(8, 3, 0x07, 1)

  /** The two variants the library ships. In both, the mask covers exactly the
      high-byte bits below the channel nibble, and the value shift trims the
      8 + chanShift wire bits to 10, for a table of at most 8 channels. */
  predicate IsPreset(v: Variant)
    ensures IsPreset(v) ==> v.chanMask as int + 1 == Pow2(v.chanShift as int)
    ensures IsPreset(v) ==> 8 + v.chanShift as int - v.valShift as int == 10
    ensures IsPreset(v) ==> v.rcChans as int <= 8
  {
    v == Dsm1024 || v == Dsm2048
  }

  /** `x >> n` on a non-negative C int: n halvings. */
  function ShiftRight(x: nat, n: nat): (r: nat)
    ensures r <= x
    ensures n > 0 ==> r <= x / 2
  {
    if n == 0 then x else ShiftRight(x / 2, n - 1)
  }

  function Pow2(n: nat): (r: nat)
    ensures r >= 1
  {
    if n == 0 then 1 else 2 * Pow2(n - 1)
  }

  /** Shifting right by n is flooring division by 2^n. */
  lemma {:induction false} ShiftRightIsDivision(x: nat, n: nat)
    ensures ShiftRight(x, n) == x / Pow2(n)
  {
    if n > 0 {
      ShiftRightIsDivision(x / 2, n - 1);
      var p := Pow2(n - 1);
      HalveRecombine(x, p);
      DivisionUnique(x, 2 * p, x / 2 / p, 2 * ((x / 2) % p) + x % 2);
    }
  }

  /** Dividing x by 2p in two steps: quotient and remainder of x / 2 by p,
      recombined with the bit that the halving dropped. */
  lemma HalveRecombine(x: nat, p: nat)
    requires p >= 1
    ensures x == (x / 2 / p) * (2 * p) + (2 * ((x / 2) % p) + x % 2)
    ensures 2 * ((x / 2) % p) + x % 2 < 2 * p
  {
    var q := x / 2 / p;
    assert x / 2 == q * p + (x / 2) % p;
    DoubleProduct(q, p);
  }

  lemma DoubleProduct(q: int, p: int)
    ensures q * (2 * p) == 2 * (q * p)
  {
  }

  lemma DivisionUnique(x: nat, d: nat, q: nat, m: nat)
    requires d > 0 && x == q * d + m && m < d
    ensures x / d == q
  {
    var q', m' := x / d, x % d;
    assert q * d + m == q' * d + m';
    assert (q - q') * d == q * d - q' * d;
    if q > q' {
      MulAtLeast(q - q', d);
    } else if q < q' {
      MulAtLeast(q' - q, d);
    }
  }

  lemma MulAtLeast(a: int, d: nat)
    requires a >= 1
    ensures a * d >= d
  {
    assert a * d == (a - 1) * d + d;
    assert (a - 1) * d >= 0;
  }

  /** Channel index of a pair: the low nibble of the high byte after the
      variant's shift. The high byte is promoted to int, so shifting by more
      than 8 leaves nothing. */
  function ChannelIndex(v: Variant, bh: bv8): (r: nat)
    ensures r < ChannelSlots
  {
    var shifted: bv8 := if v.chanShift > 8 then 0 else bh >> (v.chanShift as int);
    (0x0F & shifted) as int
  }

  /** Channel value of a pair: the masked high byte as the top byte of a 16-bit
      word, the low byte below it, shifted right by the variant's value shift. */
  function ChannelValue(v: Variant, bh: bv8, bl: bv8): (r: uint16)
    ensures r as int <= (bh & v.chanMask) as int * 256 + bl as int
    ensures v.valShift == 0 ==> r as int == (bh & v.chanMask) as int * 256 + bl as int
  {
    var composed: nat := (bh & v.chanMask) as int * 256 + bl as int;
    ShiftRight(composed, v.valShift as int) as uint16
  }

  /** The same value stated as arithmetic: (masked high * 256 + low) / 2^valShift. */
  lemma ChannelValueArithmetic(v: Variant, bh: bv8, bl: bv8)
    ensures ChannelValue(v, bh, bl) as int
         == ((bh & v.chanMask) as int * 256 + bl as int) / Pow2(v.valShift as int)
  {
    ShiftRightIsDivision((bh & v.chanMask) as int * 256 + bl as int, v.valShift as int);
  }

  /** Under both presets every decoded value lies in [0, 1023]. */
  lemma PresetValueBound(v: Variant, bh: bv8, bl: bv8)
    requires IsPreset(v)
    ensures ChannelValue(v, bh, bl) <= 1023
  {
    if v == Dsm1024 {
      assert (bh & 0x03) as int <= 3;
    } else {
      assert (bh & 0x07) as int <= 7;
    }
  }

  /** One pair applied to the channel table: stored at its index when that
      index is below rcChans, dropped otherwise. */
  function ApplyPair(v: Variant, table: seq<uint16>, bh: bv8, bl: bv8): (r: seq<uint16>)
    requires |table| == ChannelSlots
    ensures |r| == ChannelSlots
  {
    var ch := ChannelIndex(v, bh);
    if ch < v.rcChans as int then table[ch := ChannelValue(v, bh, bl)] else table
  }

  predicate PairBound(frame: seq<bv8>, b: nat) {
    2 <= b <= |frame| && b % 2 == 0
  }

  /** The table after the pairs at offsets 2, 4, ..., b - 2 of frame have been
      applied in order to table. */
  function DecodePairs(v: Variant, frame: seq<bv8>, b: nat, table: seq<uint16>): (r: seq<uint16>)
    requires PairBound(frame, b) && |table| == ChannelSlots
    ensures |r| == ChannelSlots
    decreases b
  {
    if b == 2 then table
    else ApplyPair(v, DecodePairs(v, frame, b - 2, table), frame[b - 2], frame[b - 1])
  }

  /** The channel table after a whole frame has been decoded over table. */
  function DecodeFrame(v: Variant, frame: seq<bv8>, table: seq<uint16>): (r: seq<uint16>)
    requires |frame| == BufferSize && |table| == ChannelSlots
    ensures |r| == ChannelSlots
  {
    DecodePairs(v, frame, BufferSize, table)
  }

  /** The pair at offset j writes channel slot k. */
  predicate Addresses(v: Variant, frame: seq<bv8>, j: nat, k: nat)
    requires j < |frame|
  {
    ChannelIndex(v, frame[j]) == k && k < v.rcChans as int
  }

  /** A slot that no in-range pair addresses keeps its previous value. */
  lemma {:induction false} DecodePairsUntouched(v: Variant, frame: seq<bv8>, b: nat, table: seq<uint16>, k: nat)
    requires PairBound(frame, b) && |table| == ChannelSlots && k < ChannelSlots
    requires forall j :: 2 <= j < b && j % 2 == 0 ==> !Addresses(v, frame, j, k)
    ensures DecodePairs(v, frame, b, table)[k] == table[k]
  {
    if b > 2 {
      DecodePairsUntouched(v, frame, b - 2, table, k);
      assert !Addresses(v, frame, b - 2, k);
    }
  }

  /** The last in-range pair that addresses a slot decides its value. */
  lemma {:induction false} DecodePairsLastWins(v: Variant, frame: seq<bv8>, b: nat, table: seq<uint16>, j: nat)
    requires PairBound(frame, b) && |table| == ChannelSlots
    requires 2 <= j < b && j % 2 == 0
    requires ChannelIndex(v, frame[j]) < v.rcChans as int
    requires forall i :: j < i < b && i % 2 == 0 ==> !Addresses(v, frame, i, ChannelIndex(v, frame[j]))
    ensures DecodePairs(v, frame, b, table)[ChannelIndex(v, frame[j])] == ChannelValue(v, frame[j], frame[j + 1])
  {
    if j < b - 2 {
      DecodePairsLastWins(v, frame, b - 2, table, j);
      assert !Addresses(v, frame, b - 2, ChannelIndex(v, frame[j]));
    }
  }

  /** Slots at or above rcChans are never written by a frame. */
  lemma DecodeFrameIgnoresOutOfRange(v: Variant, frame: seq<bv8>, table: seq<uint16>, k: nat)
    requires |frame| == BufferSize && |table| == ChannelSlots
    requires v.rcChans as int <= k < ChannelSlots
    ensures DecodeFrame(v, frame, table)[k] == table[k]
  {
    DecodePairsUntouched(v, frame, BufferSize, table, k);
  }

  predicate AllBelow(table: seq<uint16>, bound: nat) {
    forall k :: 0 <= k < |table| ==> table[k] as int < bound
  }

  /** Under both presets decoding keeps every slot in [0, 1023]. */
  lemma {:induction false} DecodePairsKeepsBound(v: Variant, frame: seq<bv8>, b: nat, table: seq<uint16>)
    requires IsPreset(v) && PairBound(frame, b) && |table| == ChannelSlots
    requires AllBelow(table, 1024)
    ensures AllBelow(DecodePairs(v, frame, b, table), 1024)
  {
    if b > 2 {
      DecodePairsKeepsBound(v, frame, b - 2, table);
      PresetValueBound(v, frame[b - 2], frame[b - 1]);
    }
  }

  /** Largest wire value (exclusive) a preset carries per channel. */
  function WireRange(v: Variant): nat {
    if v == Dsm1024 then 1024 else 2048
  }

  /** Encoder for the presets: channel ch with wire value w as (high, low). */
  function EncodePair(v: Variant, ch: nat, w: nat): (bv8, bv8)
    requires IsPreset(v) && ch < ChannelSlots && w < WireRange(v)
  {
    var bh := ((ch as bv8) << (v.chanShift as int)) | ((w / 256) as bv8);
    (bh, (w % 256) as bv8)
  }

  /** Decoding an encoded pair gives back its channel and its wire value
      shifted right by the value shift. */
  lemma PairRoundTrip(v: Variant, ch: nat, w: nat)
    requires IsPreset(v) && ch < ChannelSlots && w < WireRange(v)
    ensures ChannelIndex(v, EncodePair(v, ch, w).0) == ch
    ensures ChannelValue(v, EncodePair(v, ch, w).0, EncodePair(v, ch, w).1) as int == ShiftRight(w, v.valShift as int)
  {
    ByteOf(w % 256);
    ByteOf(w / 256);
    ByteOf(ch);
    PackedHigh(ch as bv8, (w / 256) as bv8, v);
  }

  /** Index nibble and masked value bits come apart again under a preset. */
  lemma PackedHigh(c: bv8, hi: bv8, v: Variant)
    requires IsPreset(v) && c < 16 && hi as int < WireRange(v) / 256
    ensures 0x0F & (((c << (v.chanShift as int)) | hi) >> (v.chanShift as int)) == c
    ensures ((c << (v.chanShift as int)) | hi) & v.chanMask == hi
  {
  }

  const PairsPerFrame: nat := (BufferSize - 2) / 2

  /** A frame carrying fade in byte 0, 0 in byte 1 and channel i with wire
      value ws[i] in pair i. */
  function EncodeFrame(v: Variant, fade: bv8, ws: seq<nat>): (frame: seq<bv8>)
    requires IsPreset(v) && |ws| == PairsPerFrame
    requires forall i :: 0 <= i < |ws| ==> ws[i] < WireRange(v)
    ensures |frame| == BufferSize
  {
    seq(BufferSize, n requires 0 <= n < BufferSize => FrameByte(v, fade, ws, n))
  }

  function FrameByte(v: Variant, fade: bv8, ws: seq<nat>, n: nat): bv8
    requires IsPreset(v) && |ws| == PairsPerFrame && n < BufferSize
    requires forall i :: 0 <= i < |ws| ==> ws[i] < WireRange(v)
  {
    if n == 0 then fade
    else if n == 1 then 0
    else if n % 2 == 0 then EncodePair(v, (n - 2) / 2, ws[(n - 2) / 2]).0
    else EncodePair(v, (n - 2) / 2, ws[(n - 2) / 2]).1
  }

  /** Frame round trip: every channel carried by an encoded frame is decoded to
      its wire value shifted by the value shift; the slots no pair carries keep
      their previous value. */
  lemma FrameRoundTrip(v: Variant, fade: bv8, ws: seq<nat>, table: seq<uint16>)
    requires IsPreset(v) && |ws| == PairsPerFrame && |table| == ChannelSlots
    requires forall i :: 0 <= i < |ws| ==> ws[i] < WireRange(v)
    ensures EncodeFrame(v, fade, ws)[0] == fade
    ensures forall i :: 0 <= i < PairsPerFrame ==>
      DecodeFrame(v, EncodeFrame(v, fade, ws), table)[i] as int == ShiftRight(ws[i], v.valShift as int)
    ensures forall k :: PairsPerFrame <= k < ChannelSlots ==>
      DecodeFrame(v, EncodeFrame(v, fade, ws), table)[k] == table[k]
  {
    forall i | 0 <= i < PairsPerFrame
      ensures DecodeFrame(v, EncodeFrame(v, fade, ws), table)[i] as int == ShiftRight(ws[i], v.valShift as int)
    {
      EncodedChannelDecoded(v, fade, ws, table, i);
    }
    forall k | PairsPerFrame <= k < ChannelSlots
      ensures DecodeFrame(v, EncodeFrame(v, fade, ws), table)[k] == table[k]
    {
      EncodedIndices(v, fade, ws);
      DecodePairsUntouched(v, EncodeFrame(v, fade, ws), BufferSize, table, k);
    }
  }

  lemma EncodedChannelDecoded(v: Variant, fade: bv8, ws: seq<nat>, table: seq<uint16>, i: nat)
    requires IsPreset(v) && |ws| == PairsPerFrame && |table| == ChannelSlots && i < PairsPerFrame
    requires forall i :: 0 <= i < |ws| ==> ws[i] < WireRange(v)
    ensures DecodeFrame(v, EncodeFrame(v, fade, ws), table)[i] as int == ShiftRight(ws[i], v.valShift as int)
  {
    EncodedIndices(v, fade, ws);
    EncodedPairAt(v, fade, ws, i);
    DecodePairsLastWins(v, EncodeFrame(v, fade, ws), BufferSize, table, 2 + 2 * i);
  }

  /** Pair i of an encoded frame carries channel index i. */
  lemma EncodedIndices(v: Variant, fade: bv8, ws: seq<nat>)
    requires IsPreset(v) && |ws| == PairsPerFrame
    requires forall i :: 0 <= i < |ws| ==> ws[i] < WireRange(v)
    ensures forall j :: 2 <= j < BufferSize && j % 2 == 0 ==>
      ChannelIndex(v, EncodeFrame(v, fade, ws)[j]) == (j - 2) / 2
  {
    forall j | 2 <= j < BufferSize && j % 2 == 0
      ensures ChannelIndex(v, EncodeFrame(v, fade, ws)[j]) == (j - 2) / 2
    {
      EncodedPairAt(v, fade, ws, (j - 2) / 2);
    }
  }

  /** Pair i of an encoded frame decodes to channel i and wire value ws[i]. */
  lemma EncodedPairAt(v: Variant, fade: bv8, ws: seq<nat>, i: nat)
    requires IsPreset(v) && |ws| == PairsPerFrame && i < PairsPerFrame
    requires forall i :: 0 <= i < |ws| ==> ws[i] < WireRange(v)
    ensures var frame := EncodeFrame(v, fade, ws);
      ChannelIndex(v, frame[2 + 2 * i]) == i &&
      ChannelValue(v, frame[2 + 2 * i], frame[3 + 2 * i]) as int == ShiftRight(ws[i], v.valShift as int)
  {
    EncodeFrameAt(v, fade, ws, i);
    PairRoundTrip(v, i, ws[i]);
  }

  lemma EncodeFrameAt(v: Variant, fade: bv8, ws: seq<nat>, i: nat)
    requires IsPreset(v) && |ws| == PairsPerFrame && i < PairsPerFrame
    requires forall i :: 0 <= i < |ws| ==> ws[i] < WireRange(v)
    ensures EncodeFrame(v, fade, ws)[2 + 2 * i] == EncodePair(v, i, ws[i]).0
    ensures EncodeFrame(v, fade, ws)[3 + 2 * i] == EncodePair(v, i, ws[i]).1
  {
    assert (2 + 2 * i - 2) / 2 == i && (3 + 2 * i - 2) / 2 == i;
    assert EncodeFrame(v, fade, ws)[2 + 2 * i] == FrameByte(v, fade, ws, 2 + 2 * i);
    assert EncodeFrame(v, fade, ws)[3 + 2 * i] == FrameByte(v, fade, ws, 3 + 2 * i);
  }
}
