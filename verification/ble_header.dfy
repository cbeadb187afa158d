/** The eight-byte header the adapter puts in front of every frame, and the
    splitting of one BLE notification into the frames it carries.

    On the wire a header is: header id, command flags, then the receive id,
    the transmit id and the payload size, each as a little-endian 16-bit
    number. The splitter decodes a leading header, cuts off `cmdSize + 8`
    bytes while enough bytes remain, and drops any shorter tail. It never asks
    whether the header id is the expected one. */
module BleHeader {
  import opened KotlinInt
  import opened Constants

  /** `BLEHeader`: every field is an `Int`. */
  datatype Header = Header(hdID: int32, cmdFlags: int32, rxID: int32, txID: int32, cmdSize: int32, tickCount: int32)

  /** A freshly constructed `BLEHeader()`. */
  function NewHeader(): (h: Header)
    ensures IsValid(h)
    ensures h.cmdFlags == 0 && h.cmdSize == 0 && h.tickCount == 0
    ensures h.rxID == BleHeaderRx && h.txID == BleHeaderTx
  {
    Header(BleHeaderId, 0, BleHeaderRx, BleHeaderTx, 0, 0)
  }

  /** `isValid()`: only the header id is looked at. */
  predicate IsValid(h: Header)
  {
    h.hdID == BleHeaderId
  }

  /** A header the encoder can carry unchanged: one-byte id and flags, 16-bit
      numbers, and the tick count the decoder derives from the two ids. */
  predicate InRange(h: Header)
  {
    && 0 <= h.hdID < 0x100 && 0 <= h.cmdFlags < 0x100
    && 0 <= h.rxID < 0x1_0000 && 0 <= h.txID < 0x1_0000 && 0 <= h.cmdSize < 0x1_0000
    && h.tickCount == TickCount(h.rxID, h.txID)
  }

  /** The tick count as the decoder forms it: `rxID` in the high half and
      `txID` in the low half of an `Int`, so it is negative once `rxID`
      reaches 0x8000. */
  function TickCount(rx: int, tx: int): int32
  {
    Wrap32(rx * 0x1_0000 + tx)
  }

  /** The unsigned little-endian value of a byte pair. */
  function Le16(lo: int8, hi: int8): (v: int)
    ensures 0 <= v < 0x1_0000
  {
    MulMonotone(0x100, Unsigned(hi), 0xFF);
    Unsigned(lo) + 0x100 * Unsigned(hi)
  }

  /** `toByteArray()` */
  function ToByteArray(h: Header): (r: seq<int8>)
    ensures |r| == 8
    ensures Unsigned(r[0]) == h.hdID % 0x100 && Unsigned(r[1]) == h.cmdFlags % 0x100
    ensures Le16(r[2], r[3]) == h.rxID % 0x1_0000
    ensures Le16(r[4], r[5]) == h.txID % 0x1_0000
    ensures Le16(r[6], r[7]) == h.cmdSize % 0x1_0000
  {
    EncodeByte(h.hdID);
    EncodeByte(h.cmdFlags);
    EncodeShort(h.rxID);
    EncodeShort(h.txID);
    EncodeShort(h.cmdSize);
    [LowByte(h.hdID), LowByte(h.cmdFlags),
     LowByte(h.rxID), HighByte(h.rxID),
     LowByte(h.txID), HighByte(h.txID),
     LowByte(h.cmdSize), HighByte(h.cmdSize)]
  }

  /** The low byte of `x` as a signed byte. `LowByteMask` shows it is what
      `(x and 0xFF).toByte()` yields; the remainder form keeps constant frames
      cheap to evaluate. */
  function LowByte(x: int32): int8
  {
    Wrap8(x % 0x100)
  }

  /** The second byte of `x` as a signed byte; `HighByteMask` shows it is what
      `((x and 0xFF00) shr 8).toByte()` yields. */
  function HighByte(x: int32): int8
  {
    Wrap8((x / 0x100) % 0x100)
  }

  /** `(x and 0xFF).toByte()` is `LowByte(x)`. */
  lemma LowByteMask(x: int32)
    ensures Wrap8(And32(x, 0xFF)) == LowByte(x)
  {
    And32LowByte(x);
  }

  /** `((x and 0xFF00) shr 8).toByte()` is `HighByte(x)`. */
  lemma HighByteMask(x: int32)
    ensures Wrap8(Shr32(And32(x, 0xFF00), 8)) == HighByte(x)
  {
    And32SecondByte(x);
  }

  /** `(x and 0xFF).toByte()` carries the low byte of `x`. */
  lemma EncodeByte(x: int32)
    ensures Unsigned(LowByte(x)) == x % 0x100
  {
    UnsignedWrap8(x % 0x100);
  }

  /** The two bytes written for a 16-bit field carry its low 16 bits, low byte first. */
  lemma EncodeShort(x: int32)
    ensures Le16(LowByte(x), HighByte(x)) == x % 0x1_0000
  {
    EncodeByte(x);
    UnsignedWrap8((x / 0x100) % 0x100);
    SplitDivMod(x, 0x100, 0x100);
  }

  /** What `fromByteArray` leaves behind: a decoded header, or the
      `ArrayIndexOutOfBoundsException` raised by the first missing byte. */
  datatype Decode = Decoded(header: Header) | OutOfBounds(index: int, length: nat)

  /** The order in which `fromByteArray` reads the bytes: each 16-bit field
      evaluates its high byte first. */
  const ReadOrder: seq<nat> := [0, 1, 3, 2, 5, 4, 7, 6]

  /** The position in `ReadOrder` of the first byte an array of `length`
      bytes lacks: every byte read before it is present. */
  function FirstMissingAt(length: nat): (k: nat)
    requires length < 8
    ensures k < |ReadOrder| && ReadOrder[k] >= length
    ensures forall m :: 0 <= m < k ==> ReadOrder[m] < length
  {
    if length <= 1 then length else if length <= 3 then 2 else if length <= 5 then 4 else 6
  }

  /** A byte as `b and 0xFF` widens it: its unsigned value (`Field8Mask`).
      The decoder's masks are written as the values they yield, which keeps
      constant frames cheap to evaluate. */
  function Field8(b: int8): int32
  {
    Unsigned(b)
  }

  /** `((hi and 0xFF) shl 8) + (lo and 0xFF)`, each mask written as the
      unsigned byte it yields (`Field16Mask`). */
  function Field16(hi: int8, lo: int8): int32
  {
    Wrap32(Shl32(Unsigned(hi), 8) + Unsigned(lo))
  }

  /** `((rx and 0xFFFF) shl 16) + (tx and 0xFFFF)`, each mask written as the
      remainder it yields (`TickOfMask`). */
  function TickOf(rx: int32, tx: int32): int32
  {
    TickJoin(rx % 0x1_0000, tx % 0x1_0000)
  }

  /** `(r shl 16) + t` in `Int` arithmetic. */
  function TickJoin(r: int32, t: int32): int32
  {
    Wrap32(Shl32(r, 16) + t)
  }

  /** `b and 0xFF` is `Field8(b)`. */
  lemma Field8Mask(b: int8)
    ensures ByteAnd(b, 0xFF) == Field8(b)
  {
    ByteAndLow(b);
  }

  /** `((hi and 0xFF) shl 8) + (lo and 0xFF)` is `Field16(hi, lo)`. */
  lemma Field16Mask(hi: int8, lo: int8)
    ensures Wrap32(Shl32(ByteAnd(hi, 0xFF), 8) + ByteAnd(lo, 0xFF)) == Field16(hi, lo)
  {
    ByteAndLow(hi);
    ByteAndLow(lo);
  }

  /** `((rx and 0xFFFF) shl 16) + (tx and 0xFFFF)` is `TickOf(rx, tx)`. */
  lemma TickOfMask(rx: int32, tx: int32)
    ensures TickJoin(And32(rx, 0xFFFF), And32(tx, 0xFFFF)) == TickOf(rx, tx)
  {
    And32Low16(rx);
    And32Low16(tx);
  }

  /** `fromByteArray(bArray)`: the fields are overwritten from the first eight
      bytes; fewer than eight bytes throw. */
  function FromByteArray(b: seq<int8>): (r: Decode)
    ensures r.OutOfBounds? <==> |b| < 8
    ensures r.OutOfBounds? ==> r.length == |b| && r.index == ReadOrder[FirstMissingAt(|b|)]
    ensures r.Decoded? ==>
              && r.header.hdID == Unsigned(b[0]) && r.header.cmdFlags == Unsigned(b[1])
              && r.header.rxID == Le16(b[2], b[3])
              && r.header.txID == Le16(b[4], b[5])
              && r.header.cmdSize == Le16(b[6], b[7])
              && r.header.tickCount == TickCount(r.header.rxID, r.header.txID)
  {
    if |b| < 8 then
      OutOfBounds(ReadOrder[FirstMissingAt(|b|)], |b|)
    else
      var rx := Field16(b[3], b[2]);
      var tx := Field16(b[5], b[4]);
      DecodeFields(b[0], b[1], b[3], b[2], b[5], b[4], b[7], b[6]);
      Decoded(Header(Field8(b[0]), Field8(b[1]), rx, tx, Field16(b[7], b[6]), TickOf(rx, tx)))
  }

  /** The masked and shifted bytes are the unsigned little-endian fields. */
  lemma DecodeFields(b0: int8, b1: int8, b3: int8, b2: int8, b5: int8, b4: int8, b7: int8, b6: int8)
    ensures Field8(b0) == Unsigned(b0) && Field8(b1) == Unsigned(b1)
    ensures Field16(b3, b2) == Le16(b2, b3)
    ensures Field16(b5, b4) == Le16(b4, b5)
    ensures Field16(b7, b6) == Le16(b6, b7)
    ensures TickOf(Field16(b3, b2), Field16(b5, b4)) == TickCount(Field16(b3, b2), Field16(b5, b4))
  {
    DecodeShort(b3, b2);
    DecodeShort(b5, b4);
    DecodeShort(b7, b6);
    DecodeTick(Field16(b3, b2), Field16(b5, b4));
  }

  lemma DecodeShort(hi: int8, lo: int8)
    ensures Field16(hi, lo) == Le16(lo, hi)
    ensures 0 <= Field16(hi, lo) < 0x1_0000
  {
    ShortValue(Unsigned(hi), Unsigned(lo));
  }

  /** `(h shl 8) + l` for two byte values, without overflow. */
  lemma ShortValue(h: int32, l: int32)
    requires 0 <= h < 0x100 && 0 <= l < 0x100
    ensures Wrap32(Shl32(h, 8) + l) == l + 0x100 * h
    ensures 0 <= l + 0x100 * h < 0x1_0000
  {
    ShlByte(h);
    MulMonotone(0x100, h, 0xFF);
    Wrap32Identity(h * 0x100 + l);
  }

  /** `((rx and 0xFFFF) shl 16) + (tx and 0xFFFF)` for 16-bit fields. */
  lemma DecodeTick(rx: int32, tx: int32)
    requires 0 <= rx < 0x1_0000 && 0 <= tx < 0x1_0000
    ensures TickOf(rx, tx) == TickCount(rx, tx)
  {
    DivModUnique(rx, 0x1_0000, 0, rx);
    DivModUnique(tx, 0x1_0000, 0, tx);
    TickArithmetic(rx, tx);
  }

  /** `(rx shl 16) + tx` is the tick count, overflow included. */
  lemma TickArithmetic(rx: int32, tx: int32)
    ensures TickJoin(rx, tx) == TickCount(rx, tx)
  {
    assert Shl32(rx, 16) == Wrap32(rx * 0x1_0000) by {
      Pow2Values();
    }
    Wrap32Add(rx * 0x1_0000, tx);
  }

  /** Wrapping an intermediate sum does not change the wrapped total. */
  lemma Wrap32Add(a: int, b: int)
    ensures Wrap32(Wrap32(a) + b) == Wrap32(a + b)
  {
    var q := (a + 0x8000_0000) / 0x1_0000_0000;
    assert Wrap32(a) + b + 0x8000_0000 == (a + b + 0x8000_0000) + 0x1_0000_0000 * -q;
    ModAddMultiple(a + b + 0x8000_0000, 0x1_0000_0000, -q);
  }

  /** The tick count equals `rxID * 65536 + txID` while `rxID` is below 0x8000,
      and is that value less 2^32 (a negative `Int`) above it. */
  lemma TickCountValue(rx: int, tx: int)
    requires 0 <= rx < 0x1_0000 && 0 <= tx < 0x1_0000
    ensures rx < 0x8000 ==> TickCount(rx, tx) == rx * 0x1_0000 + tx
    ensures rx >= 0x8000 ==> TickCount(rx, tx) == rx * 0x1_0000 + tx - 0x1_0000_0000
  {
    var v := rx * 0x1_0000 + tx;
    if rx < 0x8000 {
      MulMonotone(0x1_0000, rx, 0x7FFF);
      Wrap32Identity(v);
    } else {
      MulMonotone(0x1_0000, 0x8000, rx);
      MulMonotone(0x1_0000, rx, 0xFFFF);
      DivModUnique(v + 0x8000_0000, 0x1_0000_0000, 1, v - 0x8000_0000);
    }
  }

  /** Decoding what was encoded gives back each field's low byte or low 16
      bits, with the tick count derived from the two ids. */
  lemma DecodeEncode(h: Header)
    ensures FromByteArray(ToByteArray(h)) == Decoded(Header(
              h.hdID % 0x100, h.cmdFlags % 0x100, h.rxID % 0x1_0000, h.txID % 0x1_0000, h.cmdSize % 0x1_0000,
              TickCount(h.rxID % 0x1_0000, h.txID % 0x1_0000)))
  {
  }

  /** On the wire, a header with a one-byte id is valid exactly when the
      first byte it encodes to is 0xF1; no other field matters. */
  lemma ValidityOnTheWire(h: Header)
    requires 0 <= h.hdID < 0x100
    ensures IsValid(h) <==> Unsigned(ToByteArray(h)[0]) == BleHeaderId
    ensures forall f :: 0 <= f < 0x100 ==> (IsValid(h.(cmdFlags := f)) <==> IsValid(h))
  {
    DivModUnique(h.hdID, 0x100, 0, h.hdID);
  }

  /** A decoded header is valid exactly when the first byte it came from is
      0xF1; no other byte matters. */
  lemma DecodedValidity(b: seq<int8>)
    requires |b| >= 8
    ensures FromByteArray(b).Decoded?
    ensures IsValid(FromByteArray(b).header) <==> Unsigned(b[0]) == BleHeaderId
  {
  }

  /** A header whose fields are in range survives encoding and decoding unchanged. */
  lemma RoundTrip(h: Header)
    requires InRange(h)
    ensures FromByteArray(ToByteArray(h)) == Decoded(h)
  {
    DecodeEncode(h);
    DivModUnique(h.hdID, 0x100, 0, h.hdID);
    DivModUnique(h.cmdFlags, 0x100, 0, h.cmdFlags);
    DivModUnique(h.rxID, 0x1_0000, 0, h.rxID);
    DivModUnique(h.txID, 0x1_0000, 0, h.txID);
    DivModUnique(h.cmdSize, 0x1_0000, 0, h.cmdSize);
  }

  /** Re-encoding a decoded header reproduces the eight bytes it came from. */
  lemma EncodeDecode(b: seq<int8>)
    requires |b| >= 8
    ensures FromByteArray(b).Decoded?
    ensures ToByteArray(FromByteArray(b).header) == b[..8]
  {
    var h := FromByteArray(b).header;
    SameBytes(ToByteArray(h), b, h);
  }

  /** `fromByteArray` looks at the first eight bytes and at nothing after them. */
  lemma DecodePrefix(b: seq<int8>)
    requires |b| >= 8
    ensures FromByteArray(b) == FromByteArray(b[..8])
  {
    var p := b[..8];
    assert p[0] == b[0] && p[1] == b[1] && p[2] == b[2] && p[3] == b[3];
    assert p[4] == b[4] && p[5] == b[5] && p[6] == b[6] && p[7] == b[7];
  }

  /** Eight bytes that encode the fields decoded from `b` are `b`'s first eight. */
  lemma SameBytes(r: seq<int8>, b: seq<int8>, h: Header)
    requires |r| == 8 && |b| >= 8
    requires h.hdID == Unsigned(b[0]) && h.cmdFlags == Unsigned(b[1])
    requires h.rxID == Le16(b[2], b[3])
    requires h.txID == Le16(b[4], b[5])
    requires h.cmdSize == Le16(b[6], b[7])
    requires Unsigned(r[0]) == h.hdID % 0x100 && Unsigned(r[1]) == h.cmdFlags % 0x100
    requires Le16(r[2], r[3]) == h.rxID % 0x1_0000
    requires Le16(r[4], r[5]) == h.txID % 0x1_0000
    requires Le16(r[6], r[7]) == h.cmdSize % 0x1_0000
    ensures r == b[..8]
  {
    DivModUnique(h.hdID, 0x100, 0, h.hdID);
    DivModUnique(h.cmdFlags, 0x100, 0, h.cmdFlags);
    UnsignedInjective(r[0], b[0]);
    UnsignedInjective(r[1], b[1]);
    SameField(r[2], r[3], b[2], b[3]);
    SameField(r[4], r[5], b[4], b[5]);
    SameField(r[6], r[7], b[6], b[7]);
  }

  /** Two byte pairs that spell the same 16-bit field are the same bytes. */
  lemma SameField(lo: int8, hi: int8, lo': int8, hi': int8)
    requires Le16(lo, hi) % 0x1_0000 == Le16(lo', hi')
      || Le16(lo, hi) == Le16(lo', hi') % 0x1_0000
    ensures lo == lo' && hi == hi'
  {
    var v, v' := Le16(lo, hi), Le16(lo', hi');
    DivModUnique(v, 0x1_0000, 0, v);
    DivModUnique(v', 0x1_0000, 0, v');
    Le16Digits(lo, hi);
    Le16Digits(lo', hi');
    UnsignedInjective(lo, lo');
    UnsignedInjective(hi, hi');
  }

  /** The two bytes can be read back from the little-endian value. */
  lemma Le16Digits(lo: int8, hi: int8)
    ensures Le16(lo, hi) / 0x100 == Unsigned(hi) && Le16(lo, hi) % 0x100 == Unsigned(lo)
  {
    DivModUnique(Le16(lo, hi), 0x100, Unsigned(hi), Unsigned(lo));
  }

  // ---------------------------------------------------------------------------
  // Splitting a notification (`onCharacteristicChanged`)

  /** The payload size a header at the front of `c` declares. */
  function DeclaredSize(c: seq<int8>): (n: int)
    requires |c| >= 8
    ensures 0 <= n < 0x1_0000
  {
    Le16(c[6], c[7])
  }

  /** A frame as the splitter queues it: a header followed by exactly the
      payload the header declares. */
  predicate WellFormed(c: seq<int8>)
  {
    |c| >= 8 && |c| == DeclaredSize(c) + 8
  }

  /** Frames laid end to end. */
  function Flatten(frames: seq<seq<int8>>): (r: seq<int8>)
  {
    if frames == [] then [] else frames[0] + Flatten(frames[1..])
  }

  /** What one notification leaves behind: the frames queued in order, the
      bytes never queued, and whether `fromByteArray` threw on them. */
  datatype Split = Split(frames: seq<seq<int8>>, tail: seq<int8>, thrown: bool)

  /** The loop of `onCharacteristicChanged`, reading the header through
      `FromByteArray`'s contract: it throws exactly when one to seven bytes
      remain, and otherwise its `cmdSize` is the declared size. `isValid()` is
      never consulted; a longer tail whose declared size does not fit is
      dropped. Every round cuts at least eight bytes, so the loop ends. */
  function SplitFrames(value: seq<int8>): (r: Split)
    ensures |r.tail| <= |value|
    decreases |value|
  {
    if |value| == 0 then
      Split([], [], false)
    else if |value| < 8 then
      Split([], value, true)
    else if DeclaredSize(value) + 8 <= |value| then
      var rest := SplitFrames(value[DeclaredSize(value) + 8..]);
      Split([value[..DeclaredSize(value) + 8]] + rest.frames, rest.tail, rest.thrown)
    else
      Split([], value, false)
  }

  /** What a split of `value` is promised to satisfy: the queued frames and
      the unqueued tail make up `value`, in order; every queued frame is as
      long as its header says; the callback throws exactly when one to seven
      bytes are left over; and a longer leftover is a header whose declared
      payload does not fit. */
  predicate Accounts(value: seq<int8>, r: Split)
  {
    && Flatten(r.frames) + r.tail == value
    && (forall i :: 0 <= i < |r.frames| ==> WellFormed(r.frames[i]))
    && (r.thrown <==> 0 < |r.tail| < 8)
    && (!r.thrown && r.tail != [] ==> |r.tail| >= 8 && DeclaredSize(r.tail) + 8 > |r.tail|)
  }

  /** Every notification is split as `Accounts` describes. */
  lemma {:induction false} SplitShape(value: seq<int8>)
    ensures Accounts(value, SplitFrames(value))
    decreases |value|
  {
    if |value| >= 8 && DeclaredSize(value) + 8 <= |value| {
      var n := DeclaredSize(value) + 8;
      SplitShape(value[n..]);
      ShapeStep(value, n, SplitFrames(value), SplitFrames(value[n..]));
    }
  }

  /** `Accounts` fixes the split: the loop's result is the only one that
      satisfies it. */
  lemma {:induction false} AccountsUnique(value: seq<int8>, sp: Split)
    requires Accounts(value, sp)
    ensures sp == SplitFrames(value)
    decreases |value|
  {
    if sp.frames != [] {
      var f, fs := sp.frames[0], sp.frames[1..];
      var after := Flatten(fs) + sp.tail;
      assert sp.frames == [f] + fs;
      FlattenCons(f, fs);
      assert value == f + after;
      assert WellFormed(f);
      assert Accounts(after, Split(fs, sp.tail, sp.thrown));
      AccountsUnique(after, Split(fs, sp.tail, sp.thrown));
      SplitFront(value, f, after);
    }
  }

  lemma ShapeStep(value: seq<int8>, n: nat, r: Split, rest: Split)
    requires |value| >= 8 && n == DeclaredSize(value) + 8 <= |value|
    requires r == Split([value[..n]] + rest.frames, rest.tail, rest.thrown)
    requires Accounts(value[n..], rest)
    ensures Accounts(value, r)
  {
    SplitCons(value, n, rest.frames, rest.tail);
    assert WellFormed(value[..n]);
    assert forall i :: 1 <= i < |r.frames| ==> r.frames[i] == rest.frames[i - 1];
  }

  /** One frame cut from the front keeps the bytes in place. */
  lemma SplitCons(value: seq<int8>, n: nat, frames: seq<seq<int8>>, tail: seq<int8>)
    requires n <= |value| && Flatten(frames) + tail == value[n..]
    ensures Flatten([value[..n]] + frames) + tail == value
  {
    FlattenCons(value[..n], frames);
    assert value[..n] + value[n..] == value;
  }

  /** Flattening a frame in front of others. */
  lemma FlattenCons(c: seq<int8>, frames: seq<seq<int8>>)
    ensures Flatten([c] + frames) == c + Flatten(frames)
  {
    assert ([c] + frames)[1..] == frames;
  }

  /** Bytes after a full header do not change the size it declares. */
  lemma DeclaredPrefix(a: seq<int8>, b: seq<int8>)
    requires |a| >= 8
    ensures DeclaredSize(a + b) == DeclaredSize(a)
  {
    assert (a + b)[6] == a[6] && (a + b)[7] == a[7];
  }

  /** A well-formed frame at the front is queued as it stands. */
  lemma SplitFront(value: seq<int8>, c: seq<int8>, after: seq<int8>)
    requires WellFormed(c) && value == c + after
    ensures SplitFrames(value) == Split([c] + SplitFrames(after).frames, SplitFrames(after).tail, SplitFrames(after).thrown)
  {
    DeclaredPrefix(c, after);
    assert value[..|c|] == c;
    assert value[|c|..] == after;
  }

  /** Well-formed frames in front of any bytes come out first, unchanged and
      in order, and the rest is split as if on its own. */
  lemma {:induction false} SplitConcat(frames: seq<seq<int8>>, rest: seq<int8>)
    requires forall i :: 0 <= i < |frames| ==> WellFormed(frames[i])
    ensures SplitFrames(Flatten(frames) + rest)
            == Split(frames + SplitFrames(rest).frames, SplitFrames(rest).tail, SplitFrames(rest).thrown)
    decreases |frames|
  {
    if frames == [] {
      assert Flatten(frames) + rest == rest;
    } else {
      var c, more := frames[0], frames[1..];
      var after := Flatten(more) + rest;
      assert frames == [c] + more;
      assert Flatten(frames) + rest == c + after by {
        FlattenCons(c, more);
      }
      assert WellFormed(c);
      SplitFront(Flatten(frames) + rest, c, after);
      SplitConcat(more, rest);
      Assemble(frames, c, more, SplitFrames(Flatten(frames) + rest), SplitFrames(after), SplitFrames(rest));
    }
  }

  lemma Assemble(frames: seq<seq<int8>>, c: seq<int8>, more: seq<seq<int8>>, x: Split, y: Split, t: Split)
    requires frames == [c] + more
    requires x == Split([c] + y.frames, y.tail, y.thrown)
    requires y == Split(more + t.frames, t.tail, t.thrown)
    ensures x == Split(frames + t.frames, t.tail, t.thrown)
  {
    assert [c] + (more + t.frames) == frames + t.frames;
  }

  /** `n` back-to-back well-formed frames are queued as exactly those frames. */
  lemma SplitWellFormed(frames: seq<seq<int8>>)
    requires forall i :: 0 <= i < |frames| ==> WellFormed(frames[i])
    ensures SplitFrames(Flatten(frames)) == Split(frames, [], false)
  {
    SplitConcat(frames, []);
    assert Flatten(frames) + [] == Flatten(frames);
  }

  /** `onCharacteristicChanged`: splits the notification onto the read queue.
      `left` is the characteristic's value when the callback ends. */
  method OnCharacteristicChanged(readQueue: seq<seq<int8>>, notification: seq<int8>)
    returns (queue: seq<seq<int8>>, left: seq<int8>, thrown: bool)
    ensures queue == readQueue + SplitFrames(notification).frames
    ensures thrown == SplitFrames(notification).thrown
    ensures left == if thrown then SplitFrames(notification).tail else []
  {
    queue := readQueue;
    var value := notification;
    while |value| > 0
      invariant Continues(readQueue, notification, queue, SplitFrames(value))
      decreases |value|
    {
      var d := ReadHeader(value);
      if d.OutOfBounds? {
        return queue, value, true;
      }
      var size := d.header.cmdSize;
      if size + 8 <= |value| {
        SplitTakes(value, readQueue, notification, queue);
        queue := queue + [value[..size + 8]];
        value := value[size + 8..];
      } else {
        // `value = byteArrayOf()`: the tail is dropped and the loop ends.
        return queue, [], false;
      }
    }
    left := value;
    thrown := false;
  }

  /** The loop's view of `bleHeader.fromByteArray(value)`. */
  method ReadHeader(value: seq<int8>) returns (d: Decode)
    ensures d.OutOfBounds? <==> |value| < 8
    ensures d.Decoded? ==> d.header.cmdSize == DeclaredSize(value)
  {
    d := FromByteArray(value);
  }

  /** What is queued so far, followed by what splitting the remaining bytes
      would queue, is what splitting the whole notification queues. */
  predicate Continues(readQueue: seq<seq<int8>>, notification: seq<int8>, queue: seq<seq<int8>>, r: Split)
  {
    && queue + r.frames == readQueue + SplitFrames(notification).frames
    && r.tail == SplitFrames(notification).tail
    && r.thrown == SplitFrames(notification).thrown
  }

  lemma SplitTakes(value: seq<int8>, readQueue: seq<seq<int8>>, notification: seq<int8>, queue: seq<seq<int8>>)
    requires |value| >= 8 && DeclaredSize(value) + 8 <= |value|
    requires Continues(readQueue, notification, queue, SplitFrames(value))
    ensures Continues(readQueue, notification, queue + [value[..DeclaredSize(value) + 8]],
                      SplitFrames(value[DeclaredSize(value) + 8..]))
  {
    var c := value[..DeclaredSize(value) + 8];
    var rest := SplitFrames(value[DeclaredSize(value) + 8..]);
    assert queue + ([c] + rest.frames) == (queue + [c]) + rest.frames;
  }
}
