/**
  CRC-32 as RFC 1952 section 8 defines it, one bit at a time, and what it can and cannot miss:
  every change confined to four consecutive bytes changes the checksum.
 */
module Crc32 {
  import opened Bytes

  const POLYNOMIAL: bv32 := 0xEDB88320

  function BitStep(r: bv32): bv32 {
    if r & 1 == 1 then (r >> 1) ^ POLYNOMIAL else r >> 1
  }

  function EightSteps(r: bv32): bv32 {
    BitStep(BitStep(BitStep(BitStep(BitStep(BitStep(BitStep(BitStep(r))))))))
  }

  function Xor(a: bv32, b: bv32): bv32 {
    a ^ b
  }

  function Widen(b: byte): bv32 {
    b as bv32
  }

  function ByteStep(r: bv32, b: byte): bv32 {
    EightSteps(Xor(r, Widen(b)))
  }

  function Update(r: bv32, data: bytes): bv32
    decreases |data|
  {
    if data == [] then r else Update(ByteStep(r, data[0]), data[1..])
  }

  /** `crc32fast::hash`. */
  function Hash(data: bytes): bv32 {
    Xor(0xFFFF_FFFF, Update(0xFFFF_FFFF, data))
  }

  /** `u32::to_le_bytes` and back, for checksums. */
  function ToBytes(c: bv32): (s: bytes)
    ensures |s| == 4
  {
    [(c & 0xFF) as byte, ((c >> 8) & 0xFF) as byte, ((c >> 16) & 0xFF) as byte, ((c >> 24) & 0xFF) as byte]
  }

  function FromBytes(s: bytes): bv32
    requires |s| == 4
  {
    (s[0] as bv32) | ((s[1] as bv32) << 8) | ((s[2] as bv32) << 16) | ((s[3] as bv32) << 24)
  }

  lemma ToFromBytes(c: bv32)
    ensures FromBytes(ToBytes(c)) == c
  {
  }

  lemma FromToBytes(s: bytes)
    requires |s| == 4
    ensures ToBytes(FromBytes(s)) == s
  {
    var t := ToBytes(FromBytes(s));
    assert t[0] == s[0] && t[1] == s[1] && t[2] == s[2] && t[3] == s[3];
  }

  lemma BitStepInjective(a: bv32, b: bv32)
    requires BitStep(a) == BitStep(b)
    ensures a == b
  {
  }

  lemma EightStepsInjective(a: bv32, b: bv32)
    requires EightSteps(a) == EightSteps(b)
    ensures a == b
  {
    hide BitStep;
    var a1, b1 := BitStep(a), BitStep(b);
    var a2, b2 := BitStep(a1), BitStep(b1);
    var a3, b3 := BitStep(a2), BitStep(b2);
    var a4, b4 := BitStep(a3), BitStep(b3);
    var a5, b5 := BitStep(a4), BitStep(b4);
    var a6, b6 := BitStep(a5), BitStep(b5);
    var a7, b7 := BitStep(a6), BitStep(b6);
    BitStepInjective(a7, b7);
    BitStepInjective(a6, b6);
    BitStepInjective(a5, b5);
    BitStepInjective(a4, b4);
    BitStepInjective(a3, b3);
    BitStepInjective(a2, b2);
    BitStepInjective(a1, b1);
    BitStepInjective(a, b);
  }

  lemma XorCancels(r: bv32, a: bv32, b: bv32)
    requires Xor(r, a) == Xor(r, b)
    ensures a == b
  {
  }

  lemma XorCommutes(a: bv32, b: bv32)
    ensures Xor(a, b) == Xor(b, a)
  {
  }

  lemma ByteStepInjective(a: bv32, b: bv32, x: byte)
    requires ByteStep(a, x) == ByteStep(b, x)
    ensures a == b
  {
    hide EightSteps, Xor, Widen;
    EightStepsInjective(Xor(a, Widen(x)), Xor(b, Widen(x)));
    XorCommutes(a, Widen(x));
    XorCommutes(b, Widen(x));
    XorCancels(Widen(x), a, b);
  }

  /** The register update is injective in the state... */
  lemma {:induction false} UpdateInjective(a: bv32, b: bv32, data: bytes)
    requires Update(a, data) == Update(b, data)
    ensures a == b
    decreases |data|
  {
    hide ByteStep;
    if data != [] {
      UpdateInjective(ByteStep(a, data[0]), ByteStep(b, data[0]), data[1..]);
      ByteStepInjective(a, b, data[0]);
    }
  }

  lemma {:induction false} UpdateConcat(r: bv32, x: bytes, y: bytes)
    ensures Update(r, x + y) == Update(Update(r, x), y)
    decreases |x|
  {
    hide ByteStep;
    if x == [] {
      assert x + y == y;
    } else {
      UpdateConcat(ByteStep(r, x[0]), x[1..], y);
      assert (x + y)[1..] == x[1..] + y;
    }
  }

  function Double(z: bv32): bv32 {
    z << 1
  }

  function TimesByte(z: bv32): bv32 {
    z << 8
  }

  predicate TopClear(z: bv32) {
    z & 0x8000_0000 == 0
  }

  predicate Low(r: bv32) {
    r & 1 == 1
  }

  function Down(r: bv32): bv32 {
    r >> 1
  }

  lemma BitStepParts(r: bv32)
    ensures BitStep(r) == if Low(r) then Xor(Down(r), POLYNOMIAL) else Down(r)
  {
  }

  lemma DoubleKeepsLow(y: bv32, z: bv32)
    ensures Low(Xor(y, Double(z))) == Low(y)
  {
  }

  lemma DownUndoesDouble(y: bv32, z: bv32)
    requires TopClear(z)
    ensures Down(Xor(y, Double(z))) == Xor(Down(y), z)
  {
  }

  lemma XorSwaps(a: bv32, b: bv32)
    ensures Xor(Xor(a, b), POLYNOMIAL) == Xor(Xor(a, POLYNOMIAL), b)
  {
  }

  /** Bits above the low one come out of a step unchanged, one place lower. */
  lemma XorStep(y: bv32, z: bv32)
    requires TopClear(z)
    ensures BitStep(Xor(y, Double(z))) == Xor(BitStep(y), z)
  {
    hide *;
    var r := Xor(y, Double(z));
    BitStepParts(r);
    BitStepParts(y);
    DoubleKeepsLow(y, z);
    DownUndoesDouble(y, z);
    XorSwaps(Down(y), z);
  }

  lemma ShiftChain(z0: bv32) returns (z1: bv32, z2: bv32, z3: bv32, z4: bv32, z5: bv32, z6: bv32, z7: bv32)
    requires z0 & 0xFF00_0000 == 0
    ensures z1 == Double(z0) && z2 == Double(z1) && z3 == Double(z2) && z4 == Double(z3)
    ensures z5 == Double(z4) && z6 == Double(z5) && z7 == Double(z6) && TimesByte(z0) == Double(z7)
    ensures TopClear(z0) && TopClear(z1) && TopClear(z2) && TopClear(z3)
    ensures TopClear(z4) && TopClear(z5) && TopClear(z6) && TopClear(z7)
  {
    z1 := Double(z0);
    z2 := Double(z1);
    z3 := Double(z2);
    z4 := Double(z3);
    z5 := Double(z4);
    z6 := Double(z5);
    z7 := Double(z6);
  }

  /** Bits above the low eight come out of a byte step unchanged, eight places lower. */
  lemma EightStepsShift(y: bv32, z: bv32)
    requires z & 0xFF00_0000 == 0
    ensures EightSteps(Xor(y, TimesByte(z))) == Xor(EightSteps(y), z)
  {
    hide BitStep, Xor, Double, TimesByte, TopClear;
    var z1, z2, z3, z4, z5, z6, z7 := ShiftChain(z);
    var y1 := BitStep(y);
    var y2 := BitStep(y1);
    var y3 := BitStep(y2);
    var y4 := BitStep(y3);
    var y5 := BitStep(y4);
    var y6 := BitStep(y5);
    XorStep(y, z7);
    XorStep(y1, z6);
    XorStep(y2, z5);
    XorStep(y3, z4);
    XorStep(y4, z3);
    XorStep(y5, z2);
    XorStep(y6, z1);
    XorStep(BitStep(y6), z);
  }

  /** The register word that stands for a byte and the word above it. */
  function Push(b: byte, rest: bv32): bv32 {
    (b as bv32) | (rest << 8)
  }

  lemma PushSplits(r: bv32, b: byte, rest: bv32)
    ensures Xor(r, Push(b, rest)) == Xor(Xor(r, Widen(b)), TimesByte(rest))
  {
    var low := b as bv32;
    assert low | (rest << 8) == low ^ (rest << 8);
    assert r ^ (low ^ (rest << 8)) == (r ^ low) ^ (rest << 8);
  }

  /** Feeding the low byte of a word shifts the rest of the word down into the register. */
  lemma ByteStepPush(r: bv32, b: byte, rest: bv32)
    requires rest & 0xFF00_0000 == 0
    ensures EightSteps(Xor(r, Push(b, rest))) == Xor(ByteStep(r, b), rest)
  {
    hide EightSteps, Xor, Widen, Push, TimesByte;
    PushSplits(r, b, rest);
    EightStepsShift(Xor(r, Widen(b)), rest);
  }

  function Word(x: bytes): bv32
    requires |x| == 4
  {
    Push(x[0], Push(x[1], Push(x[2], Push(x[3], 0))))
  }

  lemma PushInjective(b: byte, rest: bv32, b': byte, rest': bv32)
    requires rest & 0xFF00_0000 == 0 && rest' & 0xFF00_0000 == 0
    requires Push(b, rest) == Push(b', rest')
    ensures b == b' && rest == rest'
  {
  }

  lemma WordInjective(x: bytes, y: bytes)
    requires |x| == |y| == 4 && Word(x) == Word(y)
    ensures x == y
  {
    PushRoom(x[1], x[2], x[3]);
    PushRoom(y[1], y[2], y[3]);
    hide Push;
    var x3, y3 := Push(x[3], 0), Push(y[3], 0);
    var x2, y2 := Push(x[2], x3), Push(y[2], y3);
    PushInjective(x[0], Push(x[1], x2), y[0], Push(y[1], y2));
    PushInjective(x[1], x2, y[1], y2);
    PushInjective(x[2], x3, y[2], y3);
    PushInjective(x[3], 0, y[3], 0);
  }

  lemma PushRoom(b1: byte, b2: byte, b3: byte)
    ensures Push(b3, 0) & 0xFF00_0000 == 0
    ensures Push(b2, Push(b3, 0)) & 0xFF00_0000 == 0
    ensures Push(b1, Push(b2, Push(b3, 0))) & 0xFF00_0000 == 0
  {
  }

  lemma XorZero(r: bv32)
    ensures Xor(r, 0) == r
  {
  }

  /** Four bytes fed one at a time act as one 32-bit word xored into the register. */
  lemma FourBytesAsWord(r: bv32, x: bytes)
    requires |x| == 4
    ensures Update(r, x) == EightSteps(EightSteps(EightSteps(EightSteps(Xor(r, Word(x))))))
  {
    PushRoom(x[1], x[2], x[3]);
    hide EightSteps, Xor, Push, ByteStep;
    var r1 := ByteStep(r, x[0]);
    var r2 := ByteStep(r1, x[1]);
    var r3 := ByteStep(r2, x[2]);
    ByteStepPush(r, x[0], Push(x[1], Push(x[2], Push(x[3], 0))));
    ByteStepPush(r1, x[1], Push(x[2], Push(x[3], 0)));
    ByteStepPush(r2, x[2], Push(x[3], 0));
    ByteStepPush(r3, x[3], 0);
    XorZero(ByteStep(r3, x[3]));
    UpdateFour(r, x);
  }

  lemma UpdateFour(r: bv32, x: bytes)
    requires |x| == 4
    ensures Update(r, x) == ByteStep(ByteStep(ByteStep(ByteStep(r, x[0]), x[1]), x[2]), x[3])
  {
    hide ByteStep;
    var x1 := x[1..];
    var x2 := x1[1..];
    var x3 := x2[1..];
    assert x1[0] == x[1] && x2[0] == x[2] && x3[0] == x[3] && x3[1..] == [];
    var r1 := ByteStep(r, x[0]);
    var r2 := ByteStep(r1, x[1]);
    var r3 := ByteStep(r2, x[2]);
    assert Update(r, x) == Update(r1, x1);
    assert Update(r1, x1) == Update(r2, x2);
    assert Update(r2, x2) == Update(r3, x3);
    assert Update(r3, x3) == Update(ByteStep(r3, x[3]), []);
  }

  /** ...and in the input: two different blocks of at most four bytes never lead to the same register. */
  lemma BlockInjective(r: bv32, x: bytes, y: bytes)
    requires |x| == |y| <= 4
    requires Update(r, x) == Update(r, y)
    ensures x == y
  {
    hide EightSteps, ByteStep, Word, Xor;
    var pad := Zeros(4 - |x|);
    UpdateConcat(r, x, pad);
    UpdateConcat(r, y, pad);
    var x4, y4 := x + pad, y + pad;
    FourBytesAsWord(r, x4);
    FourBytesAsWord(r, y4);
    var u, v := Xor(r, Word(x4)), Xor(r, Word(y4));
    EightStepsInjective(EightSteps(EightSteps(EightSteps(u))), EightSteps(EightSteps(EightSteps(v))));
    EightStepsInjective(EightSteps(EightSteps(u)), EightSteps(EightSteps(v)));
    EightStepsInjective(EightSteps(u), EightSteps(v));
    EightStepsInjective(u, v);
    XorCancels(r, Word(x4), Word(y4));
    WordInjective(x4, y4);
    assert x == x4[..|x|] && y == y4[..|x|];
  }

  /** Two byte strings of one length that differ somewhere, but only inside `[at, at + width)`. */
  ghost predicate DifferWithin(x: bytes, y: bytes, at: nat, width: nat) {
    && |x| == |y|
    && at + width <= |x|
    && x != y
    && x[..at] == y[..at]
    && x[at + width..] == y[at + width..]
  }

  lemma BurstDetected(x: bytes, y: bytes, at: nat, width: nat)
    requires DifferWithin(x, y, at, width) && width <= 4
    ensures Hash(x) != Hash(y)
  {
    hide ByteStep, Xor;
    var head, tail := x[..at], x[at + width..];
    var old4, new4 := x[at..at + width], y[at..at + width];
    assert x == head + (old4 + tail) && y == head + (new4 + tail);
    var r0: bv32 := 0xFFFF_FFFF;
    UpdateConcat(r0, head, old4 + tail);
    UpdateConcat(r0, head, new4 + tail);
    var r := Update(r0, head);
    UpdateConcat(r, old4, tail);
    UpdateConcat(r, new4, tail);
    if Hash(x) == Hash(y) {
      XorCancels(0xFFFF_FFFF, Update(r0, x), Update(r0, y));
      UpdateInjective(Update(r, old4), Update(r, new4), tail);
      BlockInjective(r, old4, new4);
      assert false;
    }
  }

  // Which checksum this is, said without its bit steps.

  lemma EmptyHash()
    ensures Hash([]) == 0
  {
  }

  lemma BytesAsWord(c: bv32)
    ensures Word(ToBytes(c)) == c
  {
  }

  lemma Complement(r: bv32)
    ensures Xor(r, Xor(0xFFFF_FFFF, r)) == 0xFFFF_FFFF
  {
  }

  /** Data followed by its own checksum always leaves the register at the residue of CRC-32. */
  lemma Residue(data: bytes)
    ensures Update(0xFFFF_FFFF, data + ToBytes(Hash(data))) == 0xDEBB_20E3
  {
    var r := Update(0xFFFF_FFFF, data);
    var c := Xor(0xFFFF_FFFF, r);
    ResidueWord();
    hide EightSteps, Xor, Word, ToBytes, ByteStep;
    UpdateConcat(0xFFFF_FFFF, data, ToBytes(c));
    FourBytesAsWord(r, ToBytes(c));
    BytesAsWord(c);
    Complement(r);
  }

  lemma ResidueWord()
    ensures EightSteps(EightSteps(EightSteps(EightSteps(0xFFFF_FFFF)))) == 0xDEBB_20E3
  {
    assert EightSteps(0xFFFF_FFFF) == 0x2DFD_1072;
    assert EightSteps(0x2DFD_1072) == 0xBE26_ED00;
    assert EightSteps(0xBE26_ED00) == 0x00BE_26ED;
    assert EightSteps(0x00BE_26ED) == 0xDEBB_20E3;
  }

  /** The check value of CRC-32: the checksum of the nine digits "123456789". */
  lemma CheckValue()
    ensures Hash([0x31, 0x32, 0x33, 0x34, 0x35, 0x36, 0x37, 0x38, 0x39]) == 0xCBF4_3926
  {
    var d: bytes := [0x31, 0x32, 0x33, 0x34, 0x35, 0x36, 0x37, 0x38, 0x39];
    assert ByteStep(0xFFFF_FFFF, 0x31) == 0x7C23_1048;
    assert ByteStep(0x7C23_1048, 0x32) == 0xB0AC_BB32;
    assert ByteStep(0xB0AC_BB32, 0x33) == 0x77B7_9C2D;
    assert ByteStep(0x77B7_9C2D, 0x34) == 0x641C_1F5C;
    assert ByteStep(0x641C_1F5C, 0x35) == 0x340A_C5E3;
    assert ByteStep(0x340A_C5E3, 0x36) == 0xF68D_2C9E;
    assert ByteStep(0xF68D_2C9E, 0x37) == 0xAFFC_9660;
    assert ByteStep(0xAFFC_9660, 0x38) == 0x651F_2550;
    assert ByteStep(0x651F_2550, 0x39) == 0x340B_C6D9;
    hide ByteStep;
    assert d == d[..4] + d[4..8] + d[8..];
    UpdateConcat(0xFFFF_FFFF, d[..4] + d[4..8], d[8..]);
    UpdateConcat(0xFFFF_FFFF, d[..4], d[4..8]);
    UpdateFour(0xFFFF_FFFF, d[..4]);
    UpdateFour(0x641C_1F5C, d[4..8]);
    assert Update(0x651F_2550, d[8..]) == Update(ByteStep(0x651F_2550, 0x39), []);
  }

  function LowBits(x: bv32): bv32 {
    x & 0xFF
  }

  function Above(x: bv32): bv32 {
    x >> 8
  }

  /** Entry `n` of the table in section 8 of RFC 1952: the eight steps from a register that holds just `n`. */
  function TableEntry(n: bv32): bv32 {
    EightSteps(n)
  }

  /** So a byte step is that section's table step. */
  lemma TableStep(r: bv32, b: byte)
    ensures ByteStep(r, b) == Xor(TableEntry(LowBits(Xor(r, Widen(b)))), Above(r))
  {
    hide EightSteps, TimesByte, LowBits, Above, Xor, Widen;
    var x := Xor(r, Widen(b));
    SplitLow(x);
    HighOnly(r, b);
    AboveFits(r);
    EightStepsShift(LowBits(x), Above(r));
  }

  lemma SplitLow(x: bv32)
    ensures x == Xor(LowBits(x), TimesByte(Above(x)))
  {
  }

  lemma HighOnly(r: bv32, b: byte)
    ensures Above(Xor(r, Widen(b))) == Above(r)
  {
  }

  lemma AboveFits(r: bv32)
    ensures Above(r) & 0xFF00_0000 == 0
  {
  }
}
