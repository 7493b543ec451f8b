/** `hash_string` of intl/hash-string.h, in words of any width from 32 bits up. */
module CatalogHash {
  import opened Bits

  type Byte = bv8

  /** A C string: its bytes without the terminating NUL. */
  type CString = seq<Byte>

  const TWO_TO_32: nat := 0x1_0000_0000
  const TWO_TO_28: nat := 0x1000_0000

  // ----- the function

  const TOP_NIBBLE: nat := 0xF000_0000

  lemma Powers()
    ensures Pow2(28) == TWO_TO_28 && Pow2(32) == TWO_TO_32
  {
    assert Pow2(8) == 256;
    assert Pow2(16) == 65536;
    assert Pow2(24) == 0x100_0000;
  }

  lemma Low32(a: nat)
    ensures Low(a, 32) == a % TWO_TO_32 && High(a, 32) == a / TWO_TO_32
  {
    Powers();
    LowAndHigh(a, 32);
  }

  lemma High28(a: nat)
    ensures High(a, 28) == a / TWO_TO_28
  {
    Powers();
    LowAndHigh(a, 28);
  }

  /** The highest four of 32 bits are folded into lower ones and cleared. */
  function FoldTop(h: nat): nat {
    var g := And(h, TOP_NIBBLE);
    if g != 0 then Xor(Xor(h, g / 0x100_0000), g) else h
  }

  /** A word of `w` bits moved up for the next character. */
  function Shifted(w: nat, hval: nat, c: nat): nat {
    Low(Low(hval * 16, w) + c, w)
  }

  function HashIn(w: nat, s: CString): nat {
    if s == [] then 0 else FoldTop(Shifted(w, HashIn(w, s[..|s| - 1]), s[|s| - 1] as nat))
  }

  /** The value every platform uses: a catalogue stores and compares 32 bits of it. */
  function Hash(s: CString): nat {
    HashIn(32, s)
  }

  lemma {:induction false} LowOfSmall(a: nat, k: nat)
    requires a < Pow2(k)
    ensures Low(a, k) == a && High(a, k) == 0
  {
    if k > 0 {
      LowOfSmall(a / 2, k - 1);
    }
  }

  lemma {:induction false} HighOfSmall(a: nat, k: nat)
    requires High(a, k) == 0
    ensures a < Pow2(k)
  {
    LowAndHigh(a, k);
  }

  lemma XorTwiceSplit(a: nat, b: nat, c: nat, k: nat)
    ensures Low(Xor(Xor(a, b), c), k) == Xor(Xor(Low(a, k), Low(b, k)), Low(c, k))
    ensures High(Xor(Xor(a, b), c), k) == Xor(Xor(High(a, k), High(b, k)), High(c, k))
  {
    XorSplit(a, b, k);
    XorSplit(Xor(a, b), c, k);
  }

  /** The mask looks at the low 32 bits only. */
  lemma MaskLow(h: nat, k: nat, mask: nat)
    requires mask < Pow2(k)
    ensures And(h, mask) == And(Low(h, k), mask) < Pow2(k)
  {
    AndSplit(h, mask, k);
    LowOfSmall(mask, k);
    AndZero(High(h, k));
    HighOfSmall(And(h, mask), k);
    LowOfSmall(And(h, mask), k);
  }

  lemma FoldLow(h: nat)
    ensures Low(FoldTop(h), 32) == FoldTop(Low(h, 32))
  {
    Powers();
    MaskLow(h, 32, TOP_NIBBLE);
    var g := And(h, TOP_NIBBLE);
    XorTwiceSplit(h, g / 0x100_0000, g, 32);
    LowOfSmall(g / 0x100_0000, 32);
    LowOfSmall(g, 32);
  }

  lemma ModPlus(a: nat, k: int)
    requires a + k * TWO_TO_32 >= 0
    ensures (a + k * TWO_TO_32) % TWO_TO_32 == a % TWO_TO_32
  {
    assert a + k * TWO_TO_32 == (a / TWO_TO_32 + k) * TWO_TO_32 + a % TWO_TO_32;
  }

  lemma ModShifted(a: nat, b: nat, c: nat)
    requires a % TWO_TO_32 == b % TWO_TO_32
    ensures a * 16 % TWO_TO_32 == b * 16 % TWO_TO_32
    ensures (a + c) % TWO_TO_32 == (b + c) % TWO_TO_32
  {
    var k := b / TWO_TO_32 - a / TWO_TO_32;
    assert b == a + k * TWO_TO_32;
    ModPlus(a * 16, 16 * k);
    ModPlus(a + c, k);
  }

  lemma LowMod(a: nat, v: nat)
    requires v == 32
    ensures Low(a, v) == a % TWO_TO_32
  {
    Low32(a);
  }

  /** Words with the same low 32 bits have the same low 32 bits after a shift or an addition. */
  lemma LowShifted(a: nat, b: nat, c: nat, v: nat)
    requires v == 32 && Low(a, v) == Low(b, v)
    ensures Low(a * 16, v) == Low(b * 16, v)
    ensures Low(a + c, v) == Low(b + c, v)
  {
    LowMod(a, v);
    LowMod(b, v);
    ModShifted(a, b, c);
    LowMod(a * 16, v);
    LowMod(b * 16, v);
    LowMod(a + c, v);
    LowMod(b + c, v);
  }

  /** Cut to words of `w` and of 32 bits, and added to, numbers that agree in 32 bits still do. */
  lemma CutAndAdd(x: nat, y: nat, w: nat, v: nat, c: nat)
    requires w >= v == 32 && Low(x, v) == Low(y, v)
    ensures Low(Low(Low(x, w) + c, w), v) == Low(Low(y, v) + c, v)
  {
    LowTwice(x, w, v);
    LowTwice(y, v, v);
    AddAndCut(Low(x, w), Low(y, v), w, v, c);
  }

  lemma AddAndCut(a: nat, b: nat, w: nat, v: nat, c: nat)
    requires w >= v == 32 && Low(a, v) == Low(b, v)
    ensures Low(Low(a + c, w), v) == Low(b + c, v)
  {
    LowShifted(a, b, c, v);
    LowTwice(a + c, w, v);
  }

  lemma ShiftLow(w: nat, v: nat, hval: nat, small: nat, c: nat)
    requires w >= v == 32 && Low(hval, v) == Low(small, v)
    ensures Low(Shifted(w, hval, c), v) == Shifted(v, small, c)
  {
    LowShifted(hval, small, 0, v);
    CutAndAdd(hval * 16, small * 16, w, v, c);
  }

  /** The fold leaves nothing above bit 27. */
  lemma FoldSmall(h: nat)
    requires h < TWO_TO_32
    ensures FoldTop(h) < TWO_TO_28
  {
    Powers();
    TopOfMask(h);
    var g := And(h, TOP_NIBBLE);
    MaskLow(h, 32, TOP_NIBBLE);
    XorTwiceSplit(h, g / 0x100_0000, g, 28);
    LowOfSmall(g / 0x100_0000, 28);
    XorZero(High(h, 28));
    XorSelf(High(h, 28));
    if g == 0 {
      HighOfZero(28);
      HighOfSmall(h, 28);
    } else {
      HighOfSmall(FoldTop(h), 28);
    }
  }

  lemma {:induction false} HighOfZero(k: nat)
    ensures High(0, k) == 0
  {
    if k > 0 {
      HighOfZero(k - 1);
    }
  }

  lemma TopOfMask(h: nat)
    requires h < TWO_TO_32
    ensures High(And(h, TOP_NIBBLE), 28) == High(h, 28)
  {
    AndSplit(h, TOP_NIBBLE, 28);
    High28(h);
    High28(TOP_NIBBLE);
    NibbleMask(High(h, 28));
  }

  /** All word widths agree in 32 bits, and the value has 28. */
  lemma {:induction false} HashPortable(w: nat, s: CString)
    requires w >= 32
    ensures Low(HashIn(w, s), 32) == Hash(s) < TWO_TO_28
  {
    if s == [] {
      LowOfSmall(0, 32);
    } else {
      var hval, c := HashIn(w, s[..|s| - 1]), s[|s| - 1] as nat;
      HashPortable(w, s[..|s| - 1]);
      LowTwice(hval, 32, 32);
      ShiftLow(w, 32, hval, Low(hval, 32), c);
      Low32(Low(Low(hval, 32) * 16, 32) + c);
      FoldLow(Shifted(w, hval, c));
      FoldSmall(Shifted(32, Low(hval, 32), c));
    }
  }

  /** The four highest of 32 bits go to the bits from the fifth on. */
  lemma FoldedTop(h: nat)
    requires h < TWO_TO_32
    ensures FoldTop(h) == Xor(h % TWO_TO_28, 16 * (h / TWO_TO_28))
  {
    var l, n, g := h % TWO_TO_28, h / TWO_TO_28, And(h, TOP_NIBBLE);
    Powers();
    LowAndHigh(h, 28);
    High28(h);
    assert Low(h, 28) == l;
    MaskIs(h);
    if g != 0 {
      var x := Xor(Xor(h, g / 0x100_0000), g);
      XorTwiceSplit(h, g / 0x100_0000, g, 28);
      LowOfSmall(16 * n, 28);
      XorZero(n);
      XorSelf(n);
      XorZero(Xor(l, 16 * n));
      LowAndHigh(x, 28);
    } else {
      XorZero(l);
    }
  }

  /** The mask leaves the four highest bits where they are. */
  lemma MaskIs(h: nat)
    requires h < TWO_TO_32
    ensures And(h, TOP_NIBBLE) == h / TWO_TO_28 * TWO_TO_28
    ensures Low(And(h, TOP_NIBBLE), 28) == 0 && High(And(h, TOP_NIBBLE), 28) == h / TWO_TO_28
  {
    var g := And(h, TOP_NIBBLE);
    Powers();
    TopOfMask(h);
    High28(h);
    AndSplit(h, TOP_NIBBLE, 28);
    LowAndHigh(TOP_NIBBLE, 28);
    High28(TOP_NIBBLE);
    AndZero(Low(h, 28));
    LowAndHigh(g, 28);
  }

  lemma ShiftedIs(h: nat, c: nat)
    ensures Shifted(32, h, c) == (16 * h + c) % TWO_TO_32
  {
    var a := h * 16;
    Low32(a);
    Low32(Low(a, 32) + c);
    assert a == a % TWO_TO_32 + a / TWO_TO_32 * TWO_TO_32;
    ModPlus(a % TWO_TO_32 + c, a / TWO_TO_32);
  }

  lemma HashUnfolds(s: CString, t: CString, c: Byte)
    requires t == s + [c]
    ensures Hash(t) == FoldTop(Shifted(32, Hash(s), c as nat))
  {
    assert t[..|t| - 1] == s;
  }

  lemma FoldedNext(h: nat, n: nat, t: nat)
    requires t == (16 * h + n) % TWO_TO_32
    ensures FoldTop(Shifted(32, h, n)) == Xor(t % TWO_TO_28, 16 * (t / TWO_TO_28))
  {
    ShiftedIs(h, n);
    FoldedTop(t);
  }

  /** One more character: the value moved up by four bits, the character added, and what goes beyond 28 bits folded into
      the bits from the fifth on. */
  lemma HashNext(s: CString, c: Byte, h: nat, n: nat, t: nat)
    requires h == Hash(s) && n == c as nat && t == (16 * h + n) % TWO_TO_32
    ensures Hash(s + [c]) == Xor(t % TWO_TO_28, 16 * (t / TWO_TO_28))
  {
    FoldedNext(h, n, t);
    HashUnfolds(s, s + [c], c);
  }

  /** `hash_string`, with an unsigned long of `w` bits, and the conversion of its value to 32 bits. */
  method HashString(w: nat, str: CString) returns (hashVal: nat)
    requires w >= 32
    ensures hashVal == Hash(str) < TWO_TO_28
  {
    var hval := 0;
    var i := 0;
    while i < |str|
      invariant 0 <= i <= |str|
      invariant 0 <= hval == HashIn(w, str[..i])
    {
      assert str[..i + 1][..i] == str[..i];
      hval := Low(hval * 16, w);
      hval := Low(hval + str[i] as nat, w);
      i := i + 1;
      var g := And(hval, TOP_NIBBLE);
      if g != 0 {
        hval := Xor(hval, g / 0x100_0000);
        hval := Xor(hval, g);
      }
    }
    assert str[..i] == str;
    HashPortable(w, str);
    hashVal := Low(hval, 32);
  }
}
