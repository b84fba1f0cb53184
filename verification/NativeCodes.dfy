/** Native event codes of src/papi_libpfm3_events.c: a 32-bit word with a flag, an
    event field and a unit mask field.  As in module Words a machine word is the set
    of the positions of its one-bits; event and mask numbers are numbers. */
module NativeCodes {
  import opened Sets
  import opened Words

  // ------------------------------------------------------------ bits of a number

  function Pow2(n: nat): (p: nat)
    ensures p > 0
  {
    if n == 0 then 1 else 2 * Pow2(n - 1)
  }

  /** Bit b of n is one. */
  predicate HasBit(n: nat, b: nat) {
    if b == 0 then n % 2 == 1 else HasBit(n / 2, b - 1)
  }

  function Bits(n: nat): Word32 {
    set b: nat | b < 32 && HasBit(n, b)
  }

  /** The number whose bits are those of w from position `at` on. */
  function ValueFrom(w: Word32, at: nat): (n: nat)
    requires at <= 32
    decreases 32 - at
  {
    if at == 32 then 0 else (if at in w then 1 else 0) + 2 * ValueFrom(w, at + 1)
  }

  function Value(w: Word32): nat {
    ValueFrom(w, 0)
  }

  lemma {:induction false} BitsOfValueFrom(w: Word32, at: nat, b: nat)
    requires at <= 32
    ensures HasBit(ValueFrom(w, at), b) <==> at + b in w
    decreases 32 - at
  {
    if at == 32 {
      NoBits(b);
    } else if b > 0 {
      BitsOfValueFrom(w, at + 1, b - 1);
    }
  }

  lemma {:induction false} NoBits(b: nat)
    ensures !HasBit(0, b)
  {
    if b > 0 {
      NoBits(b - 1);
    }
  }

  lemma BitsOfValue(w: Word32)
    ensures Bits(Value(w)) == w
  {
    forall b: nat ensures HasBit(Value(w), b) <==> b in w {
      BitsOfValueFrom(w, 0, b);
    }
  }

  /** A number is determined by its bits. */
  lemma {:induction false} SameBits(m: nat, n: nat)
    requires forall b: nat :: HasBit(m, b) <==> HasBit(n, b)
    ensures m == n
    decreases m + n
  {
    assert HasBit(m, 0) <==> HasBit(n, 0);
    if m > 0 || n > 0 {
      forall b: nat ensures HasBit(m / 2, b) <==> HasBit(n / 2, b) {
        assert HasBit(m, b + 1) <==> HasBit(n, b + 1);
      }
      SameBits(m / 2, n / 2);
    }
  }

  lemma ValueIs(w: Word32, n: nat)
    requires forall b: nat :: HasBit(n, b) <==> b in w
    ensures Value(w) == n
  {
    forall b: nat ensures HasBit(Value(w), b) <==> HasBit(n, b) {
      BitsOfValueFrom(w, 0, b);
    }
    SameBits(Value(w), n);
  }

  lemma {:induction false} LowBits(n: nat, k: nat, b: nat)
    requires n < Pow2(k) && HasBit(n, b)
    ensures b < k
  {
    if k == 0 {
      NoBits(b);
    } else if b > 0 {
      LowBits(n / 2, k - 1, b - 1);
    }
  }

  lemma {:induction false} HighBit(n: nat, k: nat) returns (b: nat)
    requires n >= Pow2(k)
    ensures HasBit(n, b) && b >= k
    decreases n
  {
    if n % 2 == 1 && k == 0 {
      b := 0;
    } else {
      b := HighBit(n / 2, if k == 0 then 0 else k - 1);
      b := b + 1;
    }
  }

  lemma {:induction false} Pow2Monotone(a: nat, b: nat)
    requires a <= b
    ensures Pow2(a) <= Pow2(b)
  {
    if a < b {
      Pow2Monotone(a, b - 1);
    }
  }

  /** Numbers below 2^k, k at most 32, and words below k correspond. */
  lemma BitsWithin(n: nat, k: nat)
    requires k <= 32 && n < Pow2(k)
    ensures Value(Bits(n)) == n && forall b :: b in Bits(n) ==> b < k
  {
    forall b: nat | HasBit(n, b) ensures b < k {
      LowBits(n, k, b);
    }
    forall b: nat ensures HasBit(Value(Bits(n)), b) <==> HasBit(n, b) {
      BitsOfValueFrom(Bits(n), 0, b);
    }
    SameBits(Value(Bits(n)), n);
  }

  lemma ValueWithin(w: Word32, k: nat)
    requires forall b :: b in w ==> b < k
    ensures Value(w) < Pow2(k)
  {
    if Value(w) >= Pow2(k) {
      var b := HighBit(Value(w), k);
      BitsOfValueFrom(w, 0, b);
    }
  }

  lemma {:induction false} BitsOfPow2(k: nat, b: nat)
    ensures HasBit(Pow2(k), b) <==> b == k
  {
    if b > 0 && k > 0 {
      BitsOfPow2(k - 1, b - 1);
    } else if k == 0 && b > 0 {
      NoBits(b - 1);
    }
  }

  lemma PowerIsBit(k: nat)
    requires k < 32
    ensures Bits(Pow2(k)) == {k} && Value({k}) == Pow2(k)
  {
    forall b: nat ensures HasBit(Pow2(k), b) <==> b == k {
      BitsOfPow2(k, b);
    }
    ValueIs({k}, Pow2(k));
  }

  // ------------------------------------------------------------ the field layouts

  datatype Layout = Layout(eventAndMask: nat, umaskAndMask: nat, umaskShift: nat)

  const DEFAULT := Layout(0x000003ff, 0x03fffc00, 10)
  const PENTIUM4 := Layout(0x000000ff, 0x0fffff00, 8)
  const ITANIUM2 := Layout(0x00000fff, 0x0ffff000, 12)

  const PAPI_NATIVE_EVENT_SHIFT: nat := 0
  const PAPI_NATIVE_UMASK_MAX: nat := 16
  /** 0x40000000; PAPI_NATIVE_AND_MASK is its complement. */
  const PAPI_NATIVE_MASK: Word32 := {30}

  function Span(low: nat, width: nat): (s: set<nat>)
    ensures forall b :: b in s <==> low <= b < low + width
  {
    if width == 0 then {} else Span(low, width - 1) + {low + width - 1}
  }

  /** The event field is the low umaskShift bits, the mask field the next `width`. */
  ghost predicate Fields(l: Layout, width: nat) {
    && l.umaskShift + width <= 30
    && Bits(l.eventAndMask) == Span(0, l.umaskShift)
    && Bits(l.umaskAndMask) == Span(l.umaskShift, width)
  }

  /** n * 2^k */
  function Scaled(n: nat, k: nat): nat {
    if k == 0 then n else 2 * Scaled(n, k - 1)
  }

  lemma {:induction false} OnesAbove(low: nat, width: nat, b: nat)
    ensures HasBit(Scaled(Pow2(width) - 1, low), b) <==> low <= b < low + width
    decreases low + width
  {
    if low > 0 {
      if b > 0 {
        OnesAbove(low - 1, width, b - 1);
      }
    } else if width == 0 {
      NoBits(b);
    } else if b > 0 {
      OnesAbove(0, width - 1, b - 1);
    }
  }

  lemma {:induction false} ScaledIsProduct(n: nat, k: nat)
    ensures Scaled(n, k) == n * Pow2(k)
  {
    if k > 0 {
      ScaledIsProduct(n, k - 1);
    }
  }

  lemma SpanBits(n: nat, low: nat, width: nat)
    requires low + width <= 32 && n == (Pow2(width) - 1) * Pow2(low)
    ensures Bits(n) == Span(low, width)
  {
    ScaledIsProduct(Pow2(width) - 1, low);
    forall b: nat ensures HasBit(n, b) <==> low <= b < low + width {
      OnesAbove(low, width, b);
    }
  }

  lemma Powers()
    ensures Pow2(8) == 0x100 && Pow2(10) == 0x400 && Pow2(12) == 0x1000
    ensures Pow2(16) == 0x10000 && Pow2(20) == 0x100000
  {
  }

  /** The constants of the three layouts describe adjacent fields below the flag. */
  lemma LayoutsHaveFields()
    ensures Fields(DEFAULT, 16) && Fields(PENTIUM4, 20) && Fields(ITANIUM2, 16)
  {
    Powers();
    SpanBits(0x3ff, 0, 10);
    SpanBits(0x03fffc00, 10, 16);
    SpanBits(0xff, 0, 8);
    SpanBits(0x0fffff00, 8, 20);
    SpanBits(0xfff, 0, 12);
    SpanBits(0x0ffff000, 12, 16);
  }

  // -------------------------------------------------------------- encode and decode

  predicate ShlBit32(w: Word32, n: nat, b: nat) {
    b >= n && b - n in w
  }

  predicate ShrBit32(w: Word32, n: nat, b: nat) {
    b + n in w
  }

  function Shl(w: Word32, n: nat): Word32 {
    set b: nat | b < 32 && ShlBit32(w, n, b)
  }

  function Shr(w: Word32, n: nat): Word32 {
    set b: nat | b < 32 && ShrBit32(w, n, b)
  }

  /** The code with these words in its fields. */
  function Compose(l: Layout, event: Word32, mask: Word32): Word32 {
    Shl(event, PAPI_NATIVE_EVENT_SHIFT) + Shl(mask, l.umaskShift) + PAPI_NATIVE_MASK
  }

  function EncodeRaw(l: Layout, event: nat, mask: nat): Word32 {
    Compose(l, Bits(event), Bits(mask))
  }

  function EventField(l: Layout, code: Word32): Word32 {
    Shr((code - PAPI_NATIVE_MASK) * Bits(l.eventAndMask), PAPI_NATIVE_EVENT_SHIFT)
  }

  function MaskField(l: Layout, code: Word32): Word32 {
    Shr((code - PAPI_NATIVE_MASK) * Bits(l.umaskAndMask), l.umaskShift)
  }

  datatype Decoded = Decoded(event: nat, umask: nat) | PAPI_ENOEVNT

  function Decode(l: Layout, numNativeEvents: nat, code: Word32): Decoded {
    var major := Value(EventField(l, code));
    if major >= numNativeEvents then PAPI_ENOEVNT
    else Decoded(major, Value(MaskField(l, code)))
  }

  /** The fields stay within their widths, whatever the code. */
  lemma FieldsWithin(l: Layout, width: nat, code: Word32)
    requires Fields(l, width)
    ensures forall b :: b in EventField(l, code) ==> b < l.umaskShift
    ensures forall b :: b in MaskField(l, code) ==> b < width
  {
    forall b | b in MaskField(l, code) ensures b < width {
      assert ShrBit32((code - PAPI_NATIVE_MASK) * Bits(l.umaskAndMask), l.umaskShift, b);
    }
    forall b | b in EventField(l, code) ensures b < l.umaskShift {
      assert ShrBit32((code - PAPI_NATIVE_MASK) * Bits(l.eventAndMask), 0, b);
    }
  }

  lemma EventFieldOf(l: Layout, width: nat, event: Word32, mask: Word32)
    requires Fields(l, width) && forall b :: b in event ==> b < l.umaskShift
    ensures EventField(l, Compose(l, event, mask)) == event
  {
    var code := Compose(l, event, mask);
    var field := (code - PAPI_NATIVE_MASK) * Span(0, l.umaskShift);
    forall b: nat ensures b in Shr(field, 0) <==> b in event {
      assert b in Shr(field, 0) <==> b < 32 && ShrBit32(field, 0, b);
      assert b in Shl(event, 0) <==> b < 32 && ShlBit32(event, 0, b);
      assert b in Shl(mask, l.umaskShift) ==> ShlBit32(mask, l.umaskShift, b);
    }
  }

  lemma MaskFieldOf(l: Layout, width: nat, event: Word32, mask: Word32)
    requires Fields(l, width) && forall b :: b in event ==> b < l.umaskShift
    ensures MaskField(l, Compose(l, event, mask)) == mask * Below(width)
  {
    var code := Compose(l, event, mask);
    var field := (code - PAPI_NATIVE_MASK) * Span(l.umaskShift, width);
    forall b: nat ensures b in Shr(field, l.umaskShift) <==> b in mask && b < width {
      assert b in Shr(field, l.umaskShift) <==> b < 32 && ShrBit32(field, l.umaskShift, b);
      var c := b + l.umaskShift;
      assert c in Shl(event, 0) ==> ShlBit32(event, 0, c);
      assert c in Shl(mask, l.umaskShift) <==> c < 32 && ShlBit32(mask, l.umaskShift, c);
    }
  }

  /** A code decodes to the event and the part of the mask that its field can hold. */
  lemma DecodesToLowMask(l: Layout, width: nat, event: nat, mask: Word32, numNativeEvents: nat)
    requires Fields(l, width) && event < Pow2(l.umaskShift) && event < numNativeEvents
    ensures Decode(l, numNativeEvents, Compose(l, Bits(event), mask)) == Decoded(event, Value(mask * Below(width)))
  {
    BitsWithin(event, l.umaskShift);
    EventFieldOf(l, width, Bits(event), mask);
    MaskFieldOf(l, width, Bits(event), mask);
  }

  /** Decoding answers the encoded pair exactly if the event exists and both numbers
      fit their fields. */
  lemma RoundTrip(l: Layout, width: nat, event: nat, mask: nat, numNativeEvents: nat)
    requires Fields(l, width)
    ensures Decode(l, numNativeEvents, EncodeRaw(l, event, mask)) == Decoded(event, mask)
      <==> event < numNativeEvents && event < Pow2(l.umaskShift) && mask < Pow2(width)
  {
    var code := EncodeRaw(l, event, mask);
    FieldsWithin(l, width, code);
    ValueWithin(EventField(l, code), l.umaskShift);
    ValueWithin(MaskField(l, code), width);
    if event < numNativeEvents && event < Pow2(l.umaskShift) && mask < Pow2(width) {
      DecodesToLowMask(l, width, event, Bits(mask), numNativeEvents);
      BitsWithin(mask, width);
      assert Bits(mask) * Below(width) == Bits(mask);
    }
  }

  /** The bits of a number made of a low part below 2^k and a high part. */
  lemma {:induction false} PartsBits(low: nat, high: nat, k: nat, b: nat)
    requires low < Pow2(k)
    ensures HasBit(low + Scaled(high, k), b) <==> if b < k then HasBit(low, b) else HasBit(high, b - k)
  {
    if k > 0 {
      var n := low + Scaled(high, k);
      assert n / 2 == low / 2 + Scaled(high, k - 1) && n % 2 == low % 2;
      if b > 0 {
        PartsBits(low / 2, high, k - 1, b - 1);
      }
    }
  }

  /** As a number, a code is the flag, the mask times 2^umaskShift and the event. */
  lemma CodeIsSum(l: Layout, event: nat, mask: nat)
    requires l.umaskShift <= 30 && event < Pow2(l.umaskShift) && mask < Pow2(30 - l.umaskShift)
    ensures Value(EncodeRaw(l, event, mask)) == 0x40000000 + Scaled(mask, l.umaskShift) + event
  {
    var w, s := EncodeRaw(l, event, mask), l.umaskShift;
    var n := event + Scaled(mask + Scaled(1, 30 - s), s);
    forall b: nat ensures HasBit(n, b) <==> b in w {
      SumBit(s, event, mask, b);
      CodeBit(l, event, mask, b);
    }
    ValueIs(w, n);
    FlagIsPower(mask, s);
  }

  /** Event below position s, mask from there on, flag at 30. */
  ghost predicate FieldBit(s: nat, event: nat, mask: nat, b: nat) {
    if b < s then HasBit(event, b) else if b < 30 then HasBit(mask, b - s) else b == 30
  }

  lemma SumBit(s: nat, event: nat, mask: nat, b: nat)
    requires s <= 30 && event < Pow2(s) && mask < Pow2(30 - s)
    ensures HasBit(event + Scaled(mask + Scaled(1, 30 - s), s), b) <==> FieldBit(s, event, mask, b)
  {
    PartsBits(event, mask + Scaled(1, 30 - s), s, b);
    if b >= s {
      HighPartBit(s, mask, b);
    }
  }

  lemma HighPartBit(s: nat, mask: nat, b: nat)
    requires s <= 30 && s <= b && mask < Pow2(30 - s)
    ensures HasBit(mask + Scaled(1, 30 - s), b - s) <==> if b < 30 then HasBit(mask, b - s) else b == 30
  {
    PartsBits(mask, 1, 30 - s, b - s);
    if b >= 30 {
      BitsOfPow2(0, b - 30);
    }
  }

  lemma CodeBit(l: Layout, event: nat, mask: nat, b: nat)
    requires l.umaskShift <= 30 && event < Pow2(l.umaskShift) && mask < Pow2(30 - l.umaskShift)
    ensures b in EncodeRaw(l, event, mask) <==> FieldBit(l.umaskShift, event, mask, b)
  {
    var s := l.umaskShift;
    ShlMember(event, PAPI_NATIVE_EVENT_SHIFT, s, b);
    ShlMember(mask, s, 30 - s, b);
  }

  lemma ShlMember(n: nat, at: nat, k: nat, b: nat)
    requires n < Pow2(k) && at + k <= 32
    ensures b in Shl(Bits(n), at) <==> at <= b < at + k && HasBit(n, b - at)
  {
    assert b in Shl(Bits(n), at) <==> b < 32 && ShlBit32(Bits(n), at, b);
    if b >= at && HasBit(n, b - at) {
      LowBits(n, k, b - at);
    }
  }

  lemma FlagIsPower(mask: nat, s: nat)
    requires s <= 30
    ensures Scaled(mask + Scaled(1, 30 - s), s) == 0x40000000 + Scaled(mask, s)
  {
    ScaledAdds(mask, Scaled(1, 30 - s), s);
    ScaledTwice(1, 30 - s, s);
    ThirtiethPower();
  }

  lemma ThirtiethPower()
    ensures Scaled(1, 30) == 0x40000000
  {
    ScaledTwice(1, 20, 10);
    ScaledIsProduct(1, 20);
    ScaledIsProduct(0x100000, 10);
    Powers();
  }

  lemma {:induction false} ScaledAdds(a: nat, b: nat, k: nat)
    ensures Scaled(a + b, k) == Scaled(a, k) + Scaled(b, k)
  {
    if k > 0 {
      ScaledAdds(a, b, k - 1);
    }
  }

  lemma {:induction false} ScaledTwice(n: nat, j: nat, k: nat)
    ensures Scaled(Scaled(n, j), k) == Scaled(n, j + k)
  {
    if k > 0 {
      ScaledTwice(n, j, k - 1);
    }
  }

  // ---------------------------------------------------- masks as arrays of indices

  /** The indices of the one-bits in ascending order, each once. */
  ghost predicate Prepared(umask: Word32, values: seq<nat>) {
    && (forall i, j :: 0 <= i < j < |values| ==> values[i] < values[j])
    && (forall v :: v in values <==> v in umask)
  }

  function MaskOf(values: seq<nat>): Word32
    requires forall v :: v in values ==> v < 32
  {
    set v | v in values
  }

  /** What the loop of encode_native_event builds. */
  function Encoded(l: Layout, event: nat, values: seq<nat>): Word32
    requires forall v :: v in values ==> v < 32
  {
    Compose(l, Bits(event), MaskOf(values))
  }

  /** The indices found so far and the bits still to look at. */
  ghost predicate Split(all: set<nat>, found: seq<nat>, rest: set<nat>) {
    && (forall i, j :: 0 <= i < j < |found| ==> found[i] < found[j])
    && (forall v, b :: v in found && b in rest ==> v < b)
    && (forall v :: v in all <==> v in found || v in rest)
    && |found| + |rest| == |all|
  }

  lemma SplitStep(all: set<nat>, found: seq<nat>, rest: set<nat>, b: nat)
    requires Split(all, found, rest) && b in rest && forall c :: c in rest ==> b <= c
    ensures Split(all, found + [b], rest - {b}) && |found| < |all| && |rest - {b}| < |rest|
  {
    assert rest == (rest - {b}) + {b};
    forall i | 0 <= i < |found| ensures found[i] < b {
      assert found[i] in found;
    }
  }

  method PrepareUmask(foo: Word32, values: array<nat>) returns (j: nat)
    requires |foo| <= values.Length
    modifies values
    ensures j == |foo| && Prepared(foo, values[..j])
    ensures values[j..] == old(values[j..])
  {
    var tmp: Word32 := foo;
    j := 0;
    var i := Ffs(tmp);
    while i != 0
      invariant i == Ffs(tmp) && j <= values.Length
      invariant Split(foo, values[..j], tmp)
      invariant values[j..] == old(values[j..])
      decreases |tmp|
    {
      SplitStep(foo, values[..j], tmp, i - 1);
      XorClears(tmp, i - 1);
      tmp := Xor(tmp, Bit(i - 1));
      Append(values, j, i - 1);
      j := j + 1;
      i := Ffs(tmp);
    }
  }

  method Append(values: array<nat>, j: nat, v: nat)
    requires j < values.Length
    modifies values
    ensures values[..j + 1] == old(values[..j]) + [v] && values[j + 1..] == old(values[j + 1..])
  {
    values[j] := v;
  }

  method EncodeNativeEvent(l: Layout, event: nat, numMask: nat, maskValues: array<nat>) returns (code: Word32)
    requires numMask <= maskValues.Length && forall i :: 0 <= i < numMask ==> maskValues[i] < 32
    ensures code == Encoded(l, event, maskValues[..numMask])
  {
    var tmp: Word32 := Shl(Bits(event), PAPI_NATIVE_EVENT_SHIFT);
    for i := 0 to numMask
      invariant tmp == Shl(Bits(event), PAPI_NATIVE_EVENT_SHIFT) + Shl(MaskOf(maskValues[..i]), l.umaskShift)
    {
      assert maskValues[..i + 1] == maskValues[..i] + [maskValues[i]];
      assert MaskOf(maskValues[..i + 1]) == MaskOf(maskValues[..i]) + {maskValues[i]};
      assert Shl(MaskOf(maskValues[..i + 1]), l.umaskShift)
          == Shl(MaskOf(maskValues[..i]), l.umaskShift) + Shl({maskValues[i]}, l.umaskShift);
      tmp := tmp + Shl({maskValues[i]}, l.umaskShift);
    }
    code := tmp + PAPI_NATIVE_MASK;
  }

  /** Both ways of encoding agree. */
  lemma EncodePrepared(l: Layout, event: nat, umask: nat, values: seq<nat>)
    requires Prepared(Bits(umask), values)
    ensures Encoded(l, event, values) == EncodeRaw(l, event, umask)
  {
    assert MaskOf(values) == Bits(umask);
  }

  lemma Clipped(w: Word32, width: nat)
    ensures w * Below(width) == w <==> forall b :: b in w ==> b < width
  {
    if w * Below(width) == w {
      forall b | b in w ensures b < width {
        assert b in w * Below(width);
      }
    }
  }

  /** A list of mask indices comes back from the code exactly if all of them are
      below the width of the field. */
  lemma EncodedRoundTrip(l: Layout, width: nat, event: nat, values: seq<nat>, numNativeEvents: nat)
    requires Fields(l, width) && event < Pow2(l.umaskShift) && event < numNativeEvents
    requires forall v :: v in values ==> v < 32
    ensures Decode(l, numNativeEvents, Encoded(l, event, values)) == Decoded(event, Value(MaskOf(values)))
      <==> forall v :: v in values ==> v < width
  {
    var mask := MaskOf(values);
    DecodesToLowMask(l, width, event, mask, numNativeEvents);
    BitsOfValue(mask);
    BitsOfValue(mask * Below(width));
    Clipped(mask, width);
    assert forall v :: v in mask <==> v in values;
  }

  /** What the event library knows of a name: an event with mask indices, an event whose
      masks it rejects, or nothing. */
  datatype Named = Full(event: nat, masks: seq<nat>) | Base(event: nat) | Unknown

  /** The code for a name and the answer that comes with it. */
  datatype NameAnswer = Named(code: Word32) | BaseOnly(code: Word32) | Refused

  /** _papi_libpfm_ntv_name_to_code.  The guard lets an index equal to the greatest
      number of masks pass. */
  function NameToCode(l: Layout, n: Named): NameAnswer {
    match n
    case Full(event, masks) =>
      if |masks| > PAPI_NATIVE_UMASK_MAX || exists m :: m in masks && m > PAPI_NATIVE_UMASK_MAX then Refused
      else Named(Encoded(l, event, masks))
    case Base(event) => BaseOnly(Encoded(l, event, []))
    case Unknown => Refused
  }

  /** The code of a name that is not refused means what the name does exactly if no
      index is 16 or the field is wider than 16. */
  lemma NameRoundTrip(l: Layout, width: nat, event: nat, masks: seq<nat>, numNativeEvents: nat)
    requires Fields(l, width) && width >= PAPI_NATIVE_UMASK_MAX
    requires event < Pow2(l.umaskShift) && event < numNativeEvents
    requires |masks| <= PAPI_NATIVE_UMASK_MAX && forall m :: m in masks ==> m <= PAPI_NATIVE_UMASK_MAX
    ensures NameToCode(l, Full(event, masks)) == Named(Encoded(l, event, masks))
    ensures Decode(l, numNativeEvents, Encoded(l, event, masks)) == Decoded(event, Value(MaskOf(masks)))
      <==> PAPI_NATIVE_UMASK_MAX !in masks || width > PAPI_NATIVE_UMASK_MAX
  {
    EncodedRoundTrip(l, width, event, masks, numNativeEvents);
    WithinExactly(masks, width);
  }

  /** Otherwise the name is refused, and so is one the library does not know; of an event
      whose masks the library rejects the code has no mask. */
  lemma NameRefused(l: Layout, event: nat, masks: seq<nat>)
    ensures NameToCode(l, Full(event, masks)).Refused? <==> |masks| > 16 || exists m :: m in masks && m > 16
    ensures NameToCode(l, Unknown).Refused?
    ensures NameToCode(l, Base(event)) == BaseOnly(EncodeRaw(l, event, 0))
  {
    EncodePrepared(l, event, 0, []) by {
      forall b: nat ensures !HasBit(0, b) { NoBits(b); }
    }
  }

  lemma WithinExactly(masks: seq<nat>, width: nat)
    requires width >= PAPI_NATIVE_UMASK_MAX && forall m :: m in masks ==> m <= PAPI_NATIVE_UMASK_MAX
    ensures (forall m :: m in masks ==> m < width) <==> PAPI_NATIVE_UMASK_MAX !in masks || width > PAPI_NATIVE_UMASK_MAX
  {
  }

  /** Of the three layouts only that of the Pentium 4 has room for index 16. */
  lemma IndexSixteenIsDropped(event: nat, numNativeEvents: nat)
    requires event < 256 && event < numNativeEvents
    ensures NameToCode(DEFAULT, Full(event, [16])).Named?
    ensures Decode(DEFAULT, numNativeEvents, NameToCode(DEFAULT, Full(event, [16])).code) == Decoded(event, 0)
    ensures NameToCode(ITANIUM2, Full(event, [16])).Named?
    ensures Decode(ITANIUM2, numNativeEvents, NameToCode(ITANIUM2, Full(event, [16])).code) == Decoded(event, 0)
    ensures NameToCode(PENTIUM4, Full(event, [16])).Named?
    ensures Decode(PENTIUM4, numNativeEvents, NameToCode(PENTIUM4, Full(event, [16])).code) == Decoded(event, 0x10000)
  {
    LayoutsHaveFields();
    Powers();
    SixteenIn(DEFAULT, 16, event, numNativeEvents);
    SixteenIn(ITANIUM2, 16, event, numNativeEvents);
    SixteenIn(PENTIUM4, 20, event, numNativeEvents);
  }

  lemma SixteenIn(l: Layout, width: nat, event: nat, numNativeEvents: nat)
    requires Fields(l, width) && event < Pow2(l.umaskShift) && event < numNativeEvents
    ensures var n := NameToCode(l, Full(event, [16]));
      n.Named? && Decode(l, numNativeEvents, n.code) == Decoded(event, if width > 16 then Pow2(16) else 0)
  {
    var mask := MaskOf([16]);
    assert mask == {16};
    DecodesToLowMask(l, width, event, mask, numNativeEvents);
    ClippedBit(width);
  }

  lemma ClippedBit(width: nat)
    ensures Value({16} * Below(width)) == if width > 16 then Pow2(16) else 0
  {
    if width > 16 {
      assert {16} * Below(width) == {16};
      PowerIsBit(16);
    } else {
      assert {16} * Below(width) == {};
      ValueWithin({}, 0);
    }
  }

  // -------------------------------------------------------------------- enumeration

  datatype Modifier = ENUM_FIRST | ENUM_EVENTS | NTV_ENUM_UMASK_COMBOS | NTV_ENUM_UMASKS | OTHER
  datatype Answer = Ok(code: Word32) | ENOEVNT | EINVAL
  /** The number of unit masks of an event, or a failure of the library asked. */
  datatype Masks = Masks(num: nat) | Failed

  /** The native events of a processor. */
  datatype Pmu = Pmu(l: Layout, numNativeEvents: nat, masks: nat -> Masks)

  function Capped(n: nat): nat {
    if n > PAPI_NATIVE_UMASK_MAX then PAPI_NATIVE_UMASK_MAX else n
  }

  /** What follows a code that decodes to d. */
  function Next(p: Pmu, d: Decoded, modifier: Modifier): Answer {
    match d
    case PAPI_ENOEVNT => ENOEVNT
    case Decoded(event, umask) =>
      match p.masks(event)
      case Failed => ENOEVNT
      case Masks(num) =>
        match modifier
        case ENUM_EVENTS =>
          if event < p.numNativeEvents - 1 then Ok(EncodeRaw(p.l, event + 1, 0)) else ENOEVNT
        case NTV_ENUM_UMASK_COMBOS =>
          if umask + 1 < Pow2(Capped(num)) then Ok(EncodeRaw(p.l, event, umask + 1)) else ENOEVNT
        case NTV_ENUM_UMASKS =>
          var thisbit := Ffs(Bits(umask));
          if thisbit in Below(Capped(num)) then Ok(EncodeRaw(p.l, event, Pow2(thisbit))) else ENOEVNT
        case _ => EINVAL
  }

  /** _papi_libpfm_ntv_enum_events; *EventCode changes only with Ok. */
  function EnumEvents(p: Pmu, code: Word32, modifier: Modifier): Answer {
    if modifier == ENUM_FIRST then Ok(PAPI_NATIVE_MASK)
    else Next(p, Decode(p.l, p.numNativeEvents, code), modifier)
  }

  /** Calls of EnumEvents with this modifier. */
  function Caller(p: Pmu, modifier: Modifier): Word32 -> Answer {
    (code: Word32) => EnumEvents(p, code, modifier)
  }

  /** The answer to the last of n calls, each with the code of the one before. */
  function Walk(call: Word32 -> Answer, from: Word32, n: nat): Answer {
    if n == 0 then Ok(from)
    else
      match Walk(call, from, n - 1)
      case Ok(code) => call(code)
      case no => no
  }

  /** The library answers for the first n events. */
  ghost predicate Known(p: Pmu, n: nat) {
    forall e: nat :: e < n ==> p.masks(e).Masks?
  }

  lemma FlagValue()
    ensures Value(PAPI_NATIVE_MASK) == 0x40000000
  {
    ThirtiethPower();
    ScaledIsProduct(1, 30);
    PowerIsBit(30);
  }

  lemma FirstIsRaw(l: Layout)
    ensures EncodeRaw(l, 0, 0) == PAPI_NATIVE_MASK
  {
    forall b: nat ensures !HasBit(0, b) { NoBits(b); }
  }

  /** The n-th answer of a walk is trail(n) if every call takes one to the next. */
  ghost predicate Follows(call: Word32 -> Answer, trail: nat -> Answer, n: nat) {
    trail(n + 1) == if trail(n).Ok? then call(trail(n).code) else trail(n)
  }

  lemma {:induction false} WalkFollows(call: Word32 -> Answer, from: Word32, trail: nat -> Answer, n: nat)
    requires trail(0) == Ok(from) && forall k: nat :: Follows(call, trail, k)
    ensures Walk(call, from, n) == trail(n)
  {
    if n > 0 {
      WalkFollows(call, from, trail, n - 1);
      assert Follows(call, trail, n - 1);
    }
  }

  ghost function EventAt(p: Pmu, n: nat): Answer {
    if n < p.numNativeEvents && Known(p, n) then Ok(EncodeRaw(p.l, n, 0)) else ENOEVNT
  }

  /** Enumerating from a code that encodes event and mask. */
  lemma EnumFromRaw(p: Pmu, width: nat, event: nat, mask: nat, modifier: Modifier)
    requires Fields(p.l, width) && event < p.numNativeEvents && event < Pow2(p.l.umaskShift) && mask < Pow2(width)
    requires modifier != ENUM_FIRST
    ensures EnumEvents(p, EncodeRaw(p.l, event, mask), modifier) == Next(p, Decoded(event, mask), modifier)
  {
    RoundTrip(p.l, width, event, mask, p.numNativeEvents);
  }

  lemma EventFollows(p: Pmu, call: Word32 -> Answer, k: nat)
    requires k < p.numNativeEvents && Known(p, k) ==> call(EncodeRaw(p.l, k, 0)) == Next(p, Decoded(k, 0), ENUM_EVENTS)
    ensures Follows(call, (n: nat) => EventAt(p, n), k)
  {
    assert Known(p, k + 1) <==> Known(p, k) && p.masks(k).Masks?;
  }

  /** Stepping through the events meets every event once, in order, and stops after the
      last one or the first one the library does not know, provided that one of them
      comes before the field is used up. */
  lemma EventsWalk(p: Pmu, width: nat, n: nat)
    requires Fields(p.l, width) && p.numNativeEvents >= 1
    requires p.numNativeEvents <= Pow2(p.l.umaskShift) || !Known(p, Pow2(p.l.umaskShift))
    ensures Walk(Caller(p, ENUM_EVENTS), PAPI_NATIVE_MASK, n)
         == if n < p.numNativeEvents && Known(p, n) then Ok(EncodeRaw(p.l, n, 0)) else ENOEVNT
  {
    FirstIsRaw(p.l);
    var trail := (k: nat) => EventAt(p, k);
    forall k: nat ensures Follows(Caller(p, ENUM_EVENTS), trail, k) {
      if k < p.numNativeEvents && Known(p, k) {
        EnumFromRaw(p, width, k, 0, ENUM_EVENTS);
      }
      EventFollows(p, Caller(p, ENUM_EVENTS), k);
    }
    WalkFollows(Caller(p, ENUM_EVENTS), PAPI_NATIVE_MASK, trail, n);
  }

  function RoundCode(l: Layout, n: nat): Word32 {
    var event := n % Pow2(l.umaskShift);
    EncodeRaw(l, event, RoundMask(n, event))
  }

  function RoundMask(n: nat, event: nat): nat {
    if n > 0 && event == 0 then 1 else 0
  }

  lemma NextRound(p: Pmu, n: nat)
    requires Known(p, Pow2(p.l.umaskShift)) && p.l.umaskShift < 32 && p.numNativeEvents > Pow2(p.l.umaskShift)
    ensures var event := n % Pow2(p.l.umaskShift);
            Next(p, Decoded(event, RoundMask(n, event)), ENUM_EVENTS) == Ok(RoundCode(p.l, n + 1))
  {
    var size := Pow2(p.l.umaskShift);
    NextModulo(n + 1, size);
    CarryIntoMask(p.l);
  }

  /** With more events than the field can number, the code after the last one is
      event 0 with unit mask bit 0, and the walk goes round for ever. */
  lemma EventsWalkGoesRound(p: Pmu, width: nat, n: nat)
    requires Fields(p.l, width) && width > 0 && Known(p, Pow2(p.l.umaskShift))
    requires p.numNativeEvents > Pow2(p.l.umaskShift)
    ensures Walk(Caller(p, ENUM_EVENTS), PAPI_NATIVE_MASK, n) == Ok(RoundCode(p.l, n))
  {
    FirstIsRaw(p.l);
    Pow2Monotone(1, width);
    var trail := (k: nat) => Ok(RoundCode(p.l, k));
    forall k: nat ensures Follows(Caller(p, ENUM_EVENTS), trail, k) {
      var event := k % Pow2(p.l.umaskShift);
      EnumFromRaw(p, width, event, RoundMask(k, event), ENUM_EVENTS);
      NextRound(p, k);
    }
    WalkFollows(Caller(p, ENUM_EVENTS), PAPI_NATIVE_MASK, trail, n);
  }

  lemma NextModulo(n: nat, size: nat)
    requires n > 0 && size > 0
    ensures n % size == if (n - 1) % size + 1 == size then 0 else (n - 1) % size + 1
  {
    var q, r := (n - 1) / size, (n - 1) % size;
    assert n == q * size + (r + 1);
    if r + 1 == size {
      assert n == (q + 1) * size;
      ModuloUnique(n, size, q + 1, 0);
    } else {
      ModuloUnique(n, size, q, r + 1);
    }
  }

  lemma ModuloUnique(n: nat, size: nat, q: nat, r: nat)
    requires r < size && n == q * size + r
    ensures n % size == r
  {
    var d := n / size - q;
    assert d * size == r - n % size;
  }

  lemma CarryIntoMask(l: Layout)
    requires l.umaskShift < 32
    ensures EncodeRaw(l, Pow2(l.umaskShift), 0) == EncodeRaw(l, 0, 1)
  {
    PowerIsBit(l.umaskShift);
    PowerIsBit(0);
    forall b: nat ensures !HasBit(0, b) { NoBits(b); }
  }

  /** From the code ENUM_FIRST answers with, whatever it is given, as a number 0x40000000:
      the walk over all events. */
  lemma EnumerationFromFirst(p: Pmu, width: nat, any: Word32, n: nat)
    requires Fields(p.l, width) && p.numNativeEvents >= 1
    requires p.numNativeEvents <= Pow2(p.l.umaskShift) || !Known(p, Pow2(p.l.umaskShift))
    ensures EnumEvents(p, any, ENUM_FIRST).Ok?
    ensures var first := EnumEvents(p, any, ENUM_FIRST).code;
      && Value(first) == 0x40000000
      && Walk(Caller(p, ENUM_EVENTS), first, n)
         == if n < p.numNativeEvents && Known(p, n) then Ok(EncodeRaw(p.l, n, 0)) else ENOEVNT
  {
    EventsWalk(p, width, n);
    FlagValue();
  }

  /** An unknown event or an event beyond the last is PAPI_ENOEVNT for every modifier but
      ENUM_FIRST, and a known event with any other modifier is PAPI_EINVAL. */
  lemma EnumerationRefuses(p: Pmu, code: Word32, modifier: Modifier)
    requires modifier != ENUM_FIRST
    ensures var d := Decode(p.l, p.numNativeEvents, code);
      && (d.PAPI_ENOEVNT? || p.masks(d.event).Failed? ==> EnumEvents(p, code, modifier) == ENOEVNT)
      && (modifier == OTHER && d.Decoded? && p.masks(d.event).Masks? ==> EnumEvents(p, code, modifier) == EINVAL)
  {
  }

  /** Stepping through the events comes to an end exactly if they fit the field or the
      library does not know one whose number does. */
  lemma EventsWalkEnds(p: Pmu, width: nat)
    requires Fields(p.l, width) && width > 0
    ensures (exists n :: Walk(Caller(p, ENUM_EVENTS), PAPI_NATIVE_MASK, n) == ENOEVNT)
       <==> p.numNativeEvents <= Pow2(p.l.umaskShift) || !Known(p, Pow2(p.l.umaskShift))
  {
    var end, size := p.numNativeEvents, Pow2(p.l.umaskShift);
    if end == 0 {
      assert Walk(Caller(p, ENUM_EVENTS), PAPI_NATIVE_MASK, 0) == Ok(PAPI_NATIVE_MASK);
      assert Walk(Caller(p, ENUM_EVENTS), PAPI_NATIVE_MASK, 1) == ENOEVNT;
    } else if end <= size {
      EventsWalk(p, width, end);
    } else if !Known(p, size) {
      EventsWalk(p, width, size);
    } else {
      forall n: nat ensures Walk(Caller(p, ENUM_EVENTS), PAPI_NATIVE_MASK, n) != ENOEVNT {
        EventsWalkGoesRound(p, width, n);
      }
    }
  }

  /** The event exists and its number fits the field; every mask it can have does. */
  ghost predicate Encodable(p: Pmu, width: nat, event: nat) {
    && Fields(p.l, width) && width >= PAPI_NATIVE_UMASK_MAX
    && event < p.numNativeEvents && event < Pow2(p.l.umaskShift) && p.masks(event).Masks?
  }

  function ComboAt(p: Pmu, event: nat, n: nat): Answer
    requires p.masks(event).Masks?
  {
    if n < Pow2(Capped(p.masks(event).num)) then Ok(EncodeRaw(p.l, event, n)) else ENOEVNT
  }

  lemma NextCombo(p: Pmu, event: nat, k: nat)
    requires p.masks(event).Masks?
    ensures Next(p, Decoded(event, k), NTV_ENUM_UMASK_COMBOS) == ComboAt(p, event, k + 1)
  {
  }

  lemma ComboFollows(p: Pmu, call: Word32 -> Answer, event: nat, k: nat)
    requires p.masks(event).Masks?
    requires k < Pow2(Capped(p.masks(event).num)) ==> call(EncodeRaw(p.l, event, k)) == ComboAt(p, event, k + 1)
    ensures Follows(call, (n: nat) => ComboAt(p, event, n), k)
  {
  }

  /** Stepping through the combinations of an event meets every mask below 2^num
      once, then stops. */
  lemma CombosWalk(p: Pmu, width: nat, event: nat, n: nat)
    requires Encodable(p, width, event)
    ensures Walk(Caller(p, NTV_ENUM_UMASK_COMBOS), EncodeRaw(p.l, event, 0), n)
         == if n < Pow2(if p.masks(event).num > 16 then 16 else p.masks(event).num)
            then Ok(EncodeRaw(p.l, event, n)) else ENOEVNT
  {
    Pow2Monotone(Capped(p.masks(event).num), width);
    var trail := (k: nat) => ComboAt(p, event, k);
    forall k: nat ensures Follows(Caller(p, NTV_ENUM_UMASK_COMBOS), trail, k) {
      if k < Pow2(Capped(p.masks(event).num)) {
        EnumFromRaw(p, width, event, k, NTV_ENUM_UMASK_COMBOS);
        NextCombo(p, event, k);
      }
      ComboFollows(p, Caller(p, NTV_ENUM_UMASK_COMBOS), event, k);
    }
    assert trail(0) == Ok(EncodeRaw(p.l, event, 0));
    WalkFollows(Caller(p, NTV_ENUM_UMASK_COMBOS), EncodeRaw(p.l, event, 0), trail, n);
  }

  function SingleBit(n: nat): nat {
    if n == 0 then 0 else Pow2(n - 1)
  }

  function UmaskAt(p: Pmu, event: nat, n: nat): Answer
    requires p.masks(event).Masks?
  {
    if n <= Capped(p.masks(event).num) then Ok(EncodeRaw(p.l, event, SingleBit(n))) else ENOEVNT
  }

  lemma NextUmask(p: Pmu, event: nat, umask: nat, k: nat)
    requires p.masks(event).Masks? && Ffs(Bits(umask)) == k <= Capped(p.masks(event).num)
    ensures Next(p, Decoded(event, umask), NTV_ENUM_UMASKS) == UmaskAt(p, event, k + 1)
  {
    assert SingleBit(k + 1) == Pow2(Ffs(Bits(umask)));
  }

  lemma UmaskFollows(p: Pmu, call: Word32 -> Answer, event: nat, k: nat)
    requires p.masks(event).Masks?
    requires k <= Capped(p.masks(event).num) ==> call(EncodeRaw(p.l, event, SingleBit(k))) == UmaskAt(p, event, k + 1)
    ensures Follows(call, (n: nat) => UmaskAt(p, event, n), k)
  {
  }

  /** Stepping through the unit masks meets every mask with a single bit once, in
      order, then stops. */
  lemma UmasksWalk(p: Pmu, width: nat, event: nat, n: nat)
    requires Encodable(p, width, event)
    ensures Walk(Caller(p, NTV_ENUM_UMASKS), EncodeRaw(p.l, event, 0), n)
         == if n <= (if p.masks(event).num > 16 then 16 else p.masks(event).num)
            then Ok(EncodeRaw(p.l, event, if n == 0 then 0 else Pow2(n - 1))) else ENOEVNT
  {
    var trail := (k: nat) => UmaskAt(p, event, k);
    forall k: nat ensures Follows(Caller(p, NTV_ENUM_UMASKS), trail, k) {
      if k <= Capped(p.masks(event).num) {
        SingleBitFits(k, width);
        EnumFromRaw(p, width, event, SingleBit(k), NTV_ENUM_UMASKS);
        NextUmask(p, event, SingleBit(k), k);
      }
      UmaskFollows(p, Caller(p, NTV_ENUM_UMASKS), event, k);
    }
    assert trail(0) == Ok(EncodeRaw(p.l, event, 0));
    WalkFollows(Caller(p, NTV_ENUM_UMASKS), EncodeRaw(p.l, event, 0), trail, n);
  }

  lemma SingleBitFits(n: nat, width: nat)
    requires n <= width <= 30
    ensures SingleBit(n) < Pow2(width) && Ffs(Bits(SingleBit(n))) == n
  {
    if n == 0 {
      forall b: nat ensures !HasBit(0, b) { NoBits(b); }
    } else {
      PowerIsBit(n - 1);
      Pow2Monotone(n, width);
    }
  }
}
