/** Machine words by their one-bits, and the ffsll of src/extras.c. */
module Words {

  /** A word is the set of the positions of its one-bits. */
  type Word = s: set<nat> | forall b :: b in s ==> b < 64 witness {}

  type Word32 = s: set<nat> | forall b :: b in s ==> b < 32 witness {}

  function Xor(a: Word, b: Word): Word {
    (a - b) + (b - a)
  }

  lemma XorClears(w: Word, b: nat)
    requires b in w
    ensures Xor(w, Bit(b)) == w - {b}
  {
  }

  /** 1 << pos */
  function Bit(pos: nat): Word
    requires pos < 64
  {
    {pos}
  }

  /** The bits of w << 32. */
  predicate ShlBit(w: Word, b: nat) {
    b >= 32 && b - 32 in w
  }

  /** The bits of the arithmetic shift w >> 32. */
  predicate ShrBit(w: Word, b: nat) {
    if b < 32 then b + 32 in w else 63 in w
  }

  /** The bits of (int) w. */
  predicate LowBit(w: Word, b: nat) {
    b < 32 && b in w
  }

  function Shl32(w: Word): Word {
    set b: nat | b < 64 && ShlBit(w, b)
  }

  function Shr32(w: Word): Word {
    set b: nat | b < 64 && ShrBit(w, b)
  }

  function Low32(w: Word): Word {
    set b: nat | b < 64 && LowBit(w, b)
  }

  /** One more than the lowest one-bit at or above `at`, 0 if there is none. */
  function FirstFrom(w: Word, at: nat): (r: nat)
    requires at <= 64
    ensures r == 0 <==> forall b :: b in w ==> b < at
    ensures r > 0 ==> at <= r - 1 && r - 1 in w && forall b :: b in w && b >= at ==> r - 1 <= b
    decreases 64 - at
  {
    if at == 64 then 0
    else if at in w then at + 1
    else FirstFrom(w, at + 1)
  }

  /** The C library's ffs, and what ffsll is meant to return. */
  function Ffs(w: Word): (r: nat)
    ensures r == 0 <==> w == {}
    ensures r > 0 ==> r - 1 in w && forall b :: b in w ==> r - 1 <= b
  {
    FirstFrom(w, 0)
  }

  lemma FfsUnique(w: Word, b: nat)
    requires b in w && forall c :: c in w ==> b <= c
    ensures Ffs(w) == b + 1
  {
  }

  lemma ShiftedBit(w: Word, b: nat)
    ensures b in Shl32(Shr32(w)) <==> b in w && b >= 32
  {
    assert b in Shl32(Shr32(w)) <==> b < 64 && ShlBit(Shr32(w), b);
    if b >= 32 {
      assert b - 32 in Shr32(w) <==> b - 32 < 64 && ShrBit(w, b - 32);
    }
  }

  /** Shifting right and left again and taking the difference leaves the low half. */
  lemma LowHalf(w: Word)
    ensures Xor(Shl32(Shr32(w)), w) == Low32(w)
  {
    forall b: nat
      ensures b in Xor(Shl32(Shr32(w)), w) <==> b in Low32(w)
    {
      ShiftedBit(w, b);
      assert b in Low32(w) <==> b < 64 && LowBit(w, b);
    }
  }

  /** The low half after the shift is the high half before. */
  lemma HighHalf(w: Word, b: nat)
    ensures b in Low32(Shr32(w)) <==> b < 32 && b + 32 in w
  {
    assert b in Low32(Shr32(w)) <==> b < 64 && LowBit(Shr32(w), b);
    assert b in Shr32(w) <==> b < 64 && ShrBit(w, b);
  }

  /** What ffs finds in the high half, when the low half is empty. */
  lemma FfsHigh(w: Word)
    requires Low32(w) == {}
    ensures var t := Ffs(Low32(Shr32(w))); Ffs(w) == if t == 0 then 0 else t + 32
  {
    var h := Low32(Shr32(w));
    forall b | b in w
      ensures b >= 32 && b - 32 in h
    {
      assert b in Low32(w) <==> b < 64 && LowBit(w, b);
      HighHalf(w, b - 32);
    }
    if Ffs(h) == 0 {
      assert w == {};
    } else {
      HighHalf(w, Ffs(h) - 1);
      FfsUnique(w, Ffs(h) + 31);
    }
  }

  lemma FfsLow(w: Word)
    requires Low32(w) != {}
    ensures Ffs(w) == Ffs(Low32(w))
  {
    var t := Ffs(Low32(w));
    forall c | c in w
      ensures t - 1 <= c
    {
      assert c in Low32(w) <==> c < 64 && LowBit(w, c);
      assert c >= 32 || c in Low32(w);
    }
    assert t - 1 in Low32(w) <==> t - 1 < 64 && LowBit(w, t - 1);
    FfsUnique(w, t - 1);
  }

  /** w is what is left of lli after i halves without a one-bit. */
  ghost predicate Scanned(lli: Word, w: Word, i: nat) {
    && (i == 0 ==> w == lli)
    && (i == 1 ==> w == Shr32(lli) && Low32(lli) == {})
    && (i == 2 ==> Ffs(lli) == 0)
  }

  lemma ScanStep(lli: Word, w: Word, i: nat)
    requires Scanned(lli, w, i) && i < 2
    ensures Ffs(Low32(w)) != 0 ==> Ffs(lli) == Ffs(Low32(w)) + i * 32
    ensures Ffs(Low32(w)) == 0 ==> Scanned(lli, Shr32(w), i + 1)
  {
    if i == 1 {
      FfsHigh(lli);
    } else if Ffs(Low32(w)) != 0 {
      FfsLow(lli);
    }
  }

  /** The first set bit of a long long, found by halves. */
  method Ffsll(lli: Word) returns (r: nat)
    ensures r == Ffs(lli)
  {
    var w := lli;
    var i := 0;
    while i < 2
      invariant 0 <= i <= 2 && Scanned(lli, w, i)
    {
      var tmpint := Low32(Xor(Shl32(Shr32(w)), w));
      LowHalf(w);
      LowTwice(w);
      ScanStep(lli, w, i);
      var t := Ffs(tmpint);
      if t != 0 {
        return t + i * 32;
      }
      w := Shr32(w);
      i := i + 1;
    }
    r := 0;
  }

  lemma LowTwice(w: Word)
    ensures Low32(Low32(w)) == Low32(w)
  {
    forall b: nat ensures b in Low32(Low32(w)) <==> b in Low32(w) {
      assert b in Low32(Low32(w)) <==> b < 64 && LowBit(Low32(w), b);
      assert b in Low32(w) <==> b < 64 && LowBit(w, b);
    }
  }
}
