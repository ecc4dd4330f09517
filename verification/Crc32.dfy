/** CRC-32 as used by the JFFS2 image tool (hostapps/mkfs.jffs2/crc32.h and crc32.c): the
    polynomial of section 8 of RFC 1952, reflected, without that section's complements. */
module Crc32 {
  const POLYNOMIAL: bv32 := 0xedb88320

  /** The 256 feedback terms, sixteen to a row. */
  const TABLE: seq<seq<bv32>> := [
    [0x00000000, 0x77073096, 0xee0e612c, 0x990951ba, 0x076dc419, 0x706af48f, 0xe963a535, 0x9e6495a3,
     0x0edb8832, 0x79dcb8a4, 0xe0d5e91e, 0x97d2d988, 0x09b64c2b, 0x7eb17cbd, 0xe7b82d07, 0x90bf1d91],
    [0x1db71064, 0x6ab020f2, 0xf3b97148, 0x84be41de, 0x1adad47d, 0x6ddde4eb, 0xf4d4b551, 0x83d385c7,
     0x136c9856, 0x646ba8c0, 0xfd62f97a, 0x8a65c9ec, 0x14015c4f, 0x63066cd9, 0xfa0f3d63, 0x8d080df5],
    [0x3b6e20c8, 0x4c69105e, 0xd56041e4, 0xa2677172, 0x3c03e4d1, 0x4b04d447, 0xd20d85fd, 0xa50ab56b,
     0x35b5a8fa, 0x42b2986c, 0xdbbbc9d6, 0xacbcf940, 0x32d86ce3, 0x45df5c75, 0xdcd60dcf, 0xabd13d59],
    [0x26d930ac, 0x51de003a, 0xc8d75180, 0xbfd06116, 0x21b4f4b5, 0x56b3c423, 0xcfba9599, 0xb8bda50f,
     0x2802b89e, 0x5f058808, 0xc60cd9b2, 0xb10be924, 0x2f6f7c87, 0x58684c11, 0xc1611dab, 0xb6662d3d],
    [0x76dc4190, 0x01db7106, 0x98d220bc, 0xefd5102a, 0x71b18589, 0x06b6b51f, 0x9fbfe4a5, 0xe8b8d433,
     0x7807c9a2, 0x0f00f934, 0x9609a88e, 0xe10e9818, 0x7f6a0dbb, 0x086d3d2d, 0x91646c97, 0xe6635c01],
    [0x6b6b51f4, 0x1c6c6162, 0x856530d8, 0xf262004e, 0x6c0695ed, 0x1b01a57b, 0x8208f4c1, 0xf50fc457,
     0x65b0d9c6, 0x12b7e950, 0x8bbeb8ea, 0xfcb9887c, 0x62dd1ddf, 0x15da2d49, 0x8cd37cf3, 0xfbd44c65],
    [0x4db26158, 0x3ab551ce, 0xa3bc0074, 0xd4bb30e2, 0x4adfa541, 0x3dd895d7, 0xa4d1c46d, 0xd3d6f4fb,
     0x4369e96a, 0x346ed9fc, 0xad678846, 0xda60b8d0, 0x44042d73, 0x33031de5, 0xaa0a4c5f, 0xdd0d7cc9],
    [0x5005713c, 0x270241aa, 0xbe0b1010, 0xc90c2086, 0x5768b525, 0x206f85b3, 0xb966d409, 0xce61e49f,
     0x5edef90e, 0x29d9c998, 0xb0d09822, 0xc7d7a8b4, 0x59b33d17, 0x2eb40d81, 0xb7bd5c3b, 0xc0ba6cad],
    [0xedb88320, 0x9abfb3b6, 0x03b6e20c, 0x74b1d29a, 0xead54739, 0x9dd277af, 0x04db2615, 0x73dc1683,
     0xe3630b12, 0x94643b84, 0x0d6d6a3e, 0x7a6a5aa8, 0xe40ecf0b, 0x9309ff9d, 0x0a00ae27, 0x7d079eb1],
    [0xf00f9344, 0x8708a3d2, 0x1e01f268, 0x6906c2fe, 0xf762575d, 0x806567cb, 0x196c3671, 0x6e6b06e7,
     0xfed41b76, 0x89d32be0, 0x10da7a5a, 0x67dd4acc, 0xf9b9df6f, 0x8ebeeff9, 0x17b7be43, 0x60b08ed5],
    [0xd6d6a3e8, 0xa1d1937e, 0x38d8c2c4, 0x4fdff252, 0xd1bb67f1, 0xa6bc5767, 0x3fb506dd, 0x48b2364b,
     0xd80d2bda, 0xaf0a1b4c, 0x36034af6, 0x41047a60, 0xdf60efc3, 0xa867df55, 0x316e8eef, 0x4669be79],
    [0xcb61b38c, 0xbc66831a, 0x256fd2a0, 0x5268e236, 0xcc0c7795, 0xbb0b4703, 0x220216b9, 0x5505262f,
     0xc5ba3bbe, 0xb2bd0b28, 0x2bb45a92, 0x5cb36a04, 0xc2d7ffa7, 0xb5d0cf31, 0x2cd99e8b, 0x5bdeae1d],
    [0x9b64c2b0, 0xec63f226, 0x756aa39c, 0x026d930a, 0x9c0906a9, 0xeb0e363f, 0x72076785, 0x05005713,
     0x95bf4a82, 0xe2b87a14, 0x7bb12bae, 0x0cb61b38, 0x92d28e9b, 0xe5d5be0d, 0x7cdcefb7, 0x0bdbdf21],
    [0x86d3d2d4, 0xf1d4e242, 0x68ddb3f8, 0x1fda836e, 0x81be16cd, 0xf6b9265b, 0x6fb077e1, 0x18b74777,
     0x88085ae6, 0xff0f6a70, 0x66063bca, 0x11010b5c, 0x8f659eff, 0xf862ae69, 0x616bffd3, 0x166ccf45],
    [0xa00ae278, 0xd70dd2ee, 0x4e048354, 0x3903b3c2, 0xa7672661, 0xd06016f7, 0x4969474d, 0x3e6e77db,
     0xaed16a4a, 0xd9d65adc, 0x40df0b66, 0x37d83bf0, 0xa9bcae53, 0xdebb9ec5, 0x47b2cf7f, 0x30b5ffe9],
    [0xbdbdf21c, 0xcabac28a, 0x53b39330, 0x24b4a3a6, 0xbad03605, 0xcdd70693, 0x54de5729, 0x23d967bf,
     0xb3667a2e, 0xc4614ab8, 0x5d681b02, 0x2a6f2b94, 0xb40bbe37, 0xc30c8ea1, 0x5a05df1b, 0x2d02ef8d]
  ]

  /** The feedback term of a byte value. */
  function Feedback(index: bv32): bv32
    requires index <= 0xff
  {
    NibbleInt(index >> 4);
    NibbleInt(index & 15);
    TableShape();
    TABLE[(index >> 4) as int][(index & 15) as int]
  }

  lemma TableShape()
    ensures |TABLE| == 16 && forall r | 0 <= r < 16 :: |TABLE[r]| == 16
  {
  }

  lemma NibbleInt(n: bv32)
    requires n < 16
    ensures 0 <= n as int < 16
  {
  }

  // The operators of the loop under names, so that most proofs can leave the bits alone.

  function Xor(a: bv32, b: bv32): bv32 {
    a ^ b
  }

  function LowByte(w: bv32): (r: bv32)
    ensures r <= 0xff
  {
    w & 0xff
  }

  function HighBytes(w: bv32): bv32 {
    w & 0xffff_ff00
  }

  function DropByte(w: bv32): bv32 {
    w >> 8
  }

  function Wide(s: bv8): bv32 {
    s as bv32
  }

  function ByteStep(val: bv32, s: bv8): bv32 {
    Xor(Feedback(LowByte(Xor(val, Wide(s)))), DropByte(val))
  }

  /** The checksum of a buffer, byte by byte. */
  function Crc(val: bv32, s: seq<bv8>): bv32
    decreases |s|
  {
    if s == [] then val else Crc(ByteStep(val, s[0]), s[1..])
  }

  /** The loop counts `len` down before every test, so a negative length leaves val alone. */
  method Compute(val0: bv32, ss: array<bv8>, len0: int) returns (val: bv32)
    requires len0 <= ss.Length
    ensures val == Crc(val0, ss[..if len0 < 0 then 0 else len0])
  {
    val := val0;
    var len, s := len0 - 1, 0;
    while len >= 0
      invariant 0 <= s && (if len0 < 0 then len < 0 && val == val0 else -1 <= len && s + len + 1 == len0)
      invariant len0 >= 0 ==> Crc(val0, ss[..len0]) == Crc(val, ss[s..len0])
    {
      assert ss[s..len0][0] == ss[s] && ss[s..len0][1..] == ss[s + 1..len0];
      val := ByteStep(val, ss[s]);
      s := s + 1;
      len := len - 1;
    }
  }

  // ---- the shift register ----

  /** One shift of the register. */
  function Shift(c: bv32): bv32 {
    if c & 1 == 1 then (c >> 1) ^ POLYNOMIAL else c >> 1
  }

  function ShiftTimes(c: bv32, n: nat): bv32
    decreases n
  {
    if n == 0 then c else ShiftTimes(Shift(c), n - 1)
  }

  function Bit(b: bool): bv32 {
    if b then 1 else 0
  }

  /** The register takes in the message one bit at a time. */
  function Serial(c: bv32, bits: seq<bool>): bv32
    decreases |bits|
  {
    if bits == [] then c else Serial(Shift(Xor(c, Bit(bits[0]))), bits[1..])
  }

  /** The bits of a byte, lowest first. */
  function BitsOf(b: bv8): seq<bool> {
    [b & 1 != 0, b & 2 != 0, b & 4 != 0, b & 8 != 0, b & 16 != 0, b & 32 != 0, b & 64 != 0, b & 128 != 0]
  }

  function AllBits(s: seq<bv8>): (r: seq<bool>)
    ensures |r| == 8 * |s|
  {
    if s == [] then [] else BitsOf(s[0]) + AllBits(s[1..])
  }

  // ---- facts about words ----

  lemma XorZero(a: bv32)
    ensures Xor(a, 0) == a
  {
  }

  lemma XorCommutes(a: bv32, b: bv32)
    ensures Xor(a, b) == Xor(b, a)
  {
  }

  lemma XorAssociates(a: bv32, b: bv32, x: bv32)
    ensures Xor(a, Xor(b, x)) == Xor(Xor(a, b), x)
  {
  }

  lemma XorIsZero(a: bv32, b: bv32)
    ensures Xor(a, b) == 0 <==> a == b
  {
    hide Xor;
    XorSelf(b);
    if Xor(a, b) == 0 {
      XorAssociates(a, b, b);
      XorZero(a);
      XorZero(b);
      XorCommutes(0, b);
      assert a == Xor(a, 0) == Xor(Xor(a, b), b) == Xor(0, b);
    }
  }

  lemma XorSelf(a: bv32)
    ensures Xor(a, a) == 0
  {
  }

  lemma XorCancels(a: bv32, b: bv32, x: bv32)
    ensures Xor(a, x) == Xor(b, x) <==> a == b
  {
  }

  lemma XorLaws(a: bv32, b: bv32, x: bv32)
    ensures Xor(a, 0) == a && Xor(a, b) == Xor(b, a)
    ensures Xor(a, Xor(b, x)) == Xor(Xor(a, b), x)
    ensures Xor(a, b) == 0 <==> a == b
    ensures Xor(a, x) == Xor(b, x) <==> a == b
  {
    hide Xor;
    XorZero(a);
    XorCommutes(a, b);
    XorAssociates(a, b, x);
    XorIsZero(a, b);
    XorCancels(a, b, x);
  }

  lemma LowBit(a: bv32, b: bv32)
    ensures (a ^ b) & 1 == (a & 1) ^ (b & 1)
    ensures a & 1 == 0 || a & 1 == 1
  {
  }

  lemma Half(a: bv32, b: bv32)
    ensures (a ^ b) >> 1 == (a >> 1) ^ (b >> 1)
  {
  }

  lemma XorRegroup(x: bv32, y: bv32, p: bv32)
    ensures (x ^ p) ^ (y ^ p) == x ^ y
    ensures (x ^ p) ^ y == (x ^ y) ^ p
    ensures x ^ (y ^ p) == (x ^ y) ^ p
  {
  }

  lemma ShiftLinearBits(a: bv32, b: bv32)
    ensures Shift(a ^ b) == Shift(a) ^ Shift(b)
  {
    LowBit(a, b);
    LowBit(b, a);
    Half(a, b);
    XorRegroup(a >> 1, b >> 1, POLYNOMIAL);
  }

  /** A shift distributes over exclusive or. */
  lemma ShiftLinear(a: bv32, b: bv32)
    ensures Shift(Xor(a, b)) == Xor(Shift(a), Shift(b))
  {
    hide Shift;
    ShiftLinearBits(a, b);
  }

  /** The polynomial has its highest bit set, so no shift loses information. */
  lemma ShiftZero(a: bv32)
    ensures Shift(a) == 0 <==> a == 0
  {
  }

  lemma {:induction false} ShiftTimesLinear(a: bv32, b: bv32, n: nat)
    ensures ShiftTimes(Xor(a, b), n) == Xor(ShiftTimes(a, n), ShiftTimes(b, n))
    decreases n
  {
    hide Xor, Shift;
    if n > 0 {
      ShiftLinear(a, b);
      ShiftTimesLinear(Shift(a), Shift(b), n - 1);
    }
  }

  lemma {:induction false} ShiftTimesZero(a: bv32, n: nat)
    ensures ShiftTimes(a, n) == 0 <==> a == 0
    decreases n
  {
    hide Shift;
    if n > 0 {
      ShiftZero(a);
      ShiftTimesZero(Shift(a), n - 1);
    }
  }

  /** Any number of shifts is a bijection on the register. */
  lemma ShiftTimesInjective(a: bv32, b: bv32, n: nat)
    ensures ShiftTimes(a, n) == ShiftTimes(b, n) <==> a == b
  {
    hide Xor, Shift, ShiftTimes;
    ShiftTimesLinear(a, b, n);
    ShiftTimesZero(Xor(a, b), n);
    XorLaws(a, b, 0);
    XorLaws(ShiftTimes(a, n), ShiftTimes(b, n), 0);
  }

  // ---- up to 32 message bits as one word ----

  /** All bits from position n upwards. */
  function High(n: nat): bv32
    requires n <= 32
  {
    0xffff_ffff << n
  }

  lemma HighNext(n: nat)
    requires n < 32
    ensures High(n + 1) == High(n) << 1 && High(n) & 0x8000_0000 != 0
  {
    match n
    case 0 => case 1 => case 2 => case 3 => case 4 => case 5 => case 6 => case 7 =>
    case 8 => case 9 => case 10 => case 11 => case 12 => case 13 => case 14 => case 15 =>
    case 16 => case 17 => case 18 => case 19 => case 20 => case 21 => case 22 => case 23 =>
    case 24 => case 25 => case 26 => case 27 => case 28 => case 29 => case 30 => case _ =>
  }

  function Up(p: bv32): bv32 {
    p << 1
  }

  predicate Odd(p: bv32) {
    p & 1 == 1
  }

  /** The highest bit is clear. */
  predicate TopFree(p: bv32) {
    p & 0x8000_0000 == 0
  }

  /** The bits as a number, the first one lowest. */
  function Pack(bits: seq<bool>): bv32 {
    if bits == [] then 0 else Xor(Up(Pack(bits[1..])), Bit(bits[0]))
  }

  lemma PackStep(p: bv32, h: bv32, b: bool)
    requires p & h == 0
    ensures Xor(Up(p), Bit(b)) & (h << 1) == 0
  {
    PackStepBits(p, h, Bit(b));
  }

  lemma PackStepBits(p: bv32, h: bv32, b: bv32)
    requires p & h == 0 && (b == 0 || b == 1)
    ensures ((p << 1) ^ b) & (h << 1) == 0
  {
  }

  lemma {:induction false} PackFits(bits: seq<bool>)
    requires |bits| <= 32
    ensures Pack(bits) & High(|bits|) == 0
  {
    hide Xor, Up, Bit, High;
    if bits != [] {
      PackFits(bits[1..]);
      HighNext(|bits| - 1);
      PackStep(Pack(bits[1..]), High(|bits| - 1), bits[0]);
    } else {
      assert Pack(bits) == 0;
    }
  }

  /** Fewer than 32 packed bits leave the highest bit free. */
  lemma PackRoom(bits: seq<bool>)
    requires |bits| < 32
    ensures TopFree(Pack(bits))
  {
    PackFits(bits);
    HighNext(|bits|);
    TopClear(Pack(bits), High(|bits|));
  }

  lemma TopClear(p: bv32, h: bv32)
    requires p & h == 0 && h & 0x8000_0000 != 0
    ensures TopFree(p)
  {
  }

  lemma ShiftUp(p: bv32)
    requires TopFree(p)
    ensures Shift(Up(p)) == p
  {
  }

  /** The first bit can be read off a packed word. */
  lemma UnpackFirst(p: bv32, b: bool)
    ensures Odd(Xor(Up(p), Bit(b))) <==> b
  {
  }

  lemma {:induction false} PackInjective(v: seq<bool>, w: seq<bool>)
    requires |v| == |w| <= 32 && Pack(v) == Pack(w)
    ensures v == w
  {
    hide Xor, Up, Odd, TopFree, Bit, Shift;
    if v != [] {
      PackRoom(v[1..]);
      PackRoom(w[1..]);
      UnpackFirst(Pack(v[1..]), v[0]);
      UnpackFirst(Pack(w[1..]), w[0]);
      XorCancels(Up(Pack(v[1..])), Up(Pack(w[1..])), Bit(v[0]));
      ShiftUp(Pack(v[1..]));
      ShiftUp(Pack(w[1..]));
      PackInjective(v[1..], w[1..]);
      assert v == [v[0]] + v[1..] && w == [w[0]] + w[1..];
    }
  }

  /** Feeding up to 32 bits is feeding their packed word at once. */
  lemma {:induction false} SerialPacked(c: bv32, bits: seq<bool>)
    requires |bits| <= 32
    ensures Serial(c, bits) == ShiftTimes(Xor(c, Pack(bits)), |bits|)
    decreases |bits|
  {
    hide Xor, Up, Bit, Shift, TopFree;
    if bits == [] {
      XorLaws(c, 0, 0);
    } else {
      var b, p := Bit(bits[0]), Pack(bits[1..]);
      PackRoom(bits[1..]);
      ShiftUp(p);
      XorLaws(Up(p), b, 0);
      XorLaws(c, b, Up(p));
      ShiftLinear(Xor(c, b), Up(p));
      SerialPacked(Shift(Xor(c, b)), bits[1..]);
    }
  }

  // ---- runs of the register ----

  lemma {:induction false} SerialConcat(c: bv32, v: seq<bool>, w: seq<bool>)
    ensures Serial(c, v + w) == Serial(Serial(c, v), w)
    decreases |v|
  {
    hide Xor, Bit, Shift;
    if v == [] {
      assert v + w == w;
    } else {
      assert (v + w)[1..] == v[1..] + w;
      SerialConcat(Shift(Xor(c, Bit(v[0]))), v[1..], w);
    }
  }

  /** The same further input never makes two different registers equal. */
  lemma {:induction false} SerialInjective(c: bv32, d: bv32, bits: seq<bool>)
    ensures Serial(c, bits) == Serial(d, bits) <==> c == d
    decreases |bits|
  {
    hide Xor, Bit, Shift;
    if bits != [] {
      var c1, d1 := Xor(c, Bit(bits[0])), Xor(d, Bit(bits[0]));
      SerialInjective(Shift(c1), Shift(d1), bits[1..]);
      ShiftTimesInjective(c1, d1, 1);
      XorLaws(c, d, Bit(bits[0]));
      assert ShiftTimes(c1, 1) == Shift(c1) && ShiftTimes(d1, 1) == Shift(d1);
    }
  }

  /** Two messages that differ only inside a window of 32 consecutive bits, wherever that
      window lies, leave different registers. */
  lemma BurstDetected(c: bv32, before: seq<bool>, v: seq<bool>, w: seq<bool>, after: seq<bool>)
    requires |v| == |w| <= 32 && v != w
    ensures Serial(c, before + v + after) != Serial(c, before + w + after)
  {
    hide Xor, Serial, ShiftTimes, Pack;
    var r := Serial(c, before);
    SerialConcat(c, before + v, after);
    SerialConcat(c, before + w, after);
    SerialConcat(c, before, v);
    SerialConcat(c, before, w);
    SerialPacked(r, v);
    SerialPacked(r, w);
    ShiftTimesInjective(Xor(r, Pack(v)), Xor(r, Pack(w)), |v|);
    XorLaws(r, Pack(v), 0);
    XorLaws(r, Pack(w), 0);
    XorLaws(Pack(v), Pack(w), r);
    if Pack(v) == Pack(w) {
      PackInjective(v, w);
    }
    SerialInjective(Serial(r, v), Serial(r, w), after);
  }

  // ---- the byte loop against the shift register ----

  /** The part of a feedback term that one set bit of the index contributes. */
  function Term(n: bv32, bit: bv32, v: bv32): bv32 {
    if n & bit != 0 then v else 0
  }

  /** A row of the table is its first entry combined with the first row. */
  predicate Spans(row: seq<bv32>, base: seq<bv32>) {
    && |row| == 16 == |base|
    && row[0] == Xor(row[0], base[0])
    && row[1] == Xor(row[0], base[1]) && row[2] == Xor(row[0], base[2]) && row[3] == Xor(row[0], base[3])
    && row[4] == Xor(row[0], base[4]) && row[5] == Xor(row[0], base[5]) && row[6] == Xor(row[0], base[6])
    && row[7] == Xor(row[0], base[7]) && row[8] == Xor(row[0], base[8]) && row[9] == Xor(row[0], base[9])
    && row[10] == Xor(row[0], base[10]) && row[11] == Xor(row[0], base[11]) && row[12] == Xor(row[0], base[12])
    && row[13] == Xor(row[0], base[13]) && row[14] == Xor(row[0], base[14]) && row[15] == Xor(row[0], base[15])
  }

  lemma SpansEach(row: seq<bv32>, base: seq<bv32>, c: nat)
    requires Spans(row, base) && c < 16
    ensures row[c] == Xor(row[0], base[c])
  {
    hide Xor;
    match c
    case 0 => case 1 => case 2 => case 3 => case 4 => case 5 => case 6 => case 7 =>
    case 8 => case 9 => case 10 => case 11 => case 12 => case 13 => case 14 => case _ =>
  }

  lemma RowsSpanLow()
    ensures |TABLE| == 16
    ensures Spans(TABLE[0], TABLE[0]) && Spans(TABLE[1], TABLE[0])
    ensures Spans(TABLE[2], TABLE[0]) && Spans(TABLE[3], TABLE[0])
  {
  }

  lemma RowsSpanMid()
    ensures |TABLE| == 16
    ensures Spans(TABLE[4], TABLE[0]) && Spans(TABLE[5], TABLE[0])
    ensures Spans(TABLE[6], TABLE[0]) && Spans(TABLE[7], TABLE[0])
  {
  }

  lemma RowsSpanUpper()
    ensures |TABLE| == 16
    ensures Spans(TABLE[8], TABLE[0]) && Spans(TABLE[9], TABLE[0])
    ensures Spans(TABLE[10], TABLE[0]) && Spans(TABLE[11], TABLE[0])
  {
  }

  lemma RowsSpanTop()
    ensures |TABLE| == 16
    ensures Spans(TABLE[12], TABLE[0]) && Spans(TABLE[13], TABLE[0])
    ensures Spans(TABLE[14], TABLE[0]) && Spans(TABLE[15], TABLE[0])
  {
  }

  lemma RowSpans(r: nat)
    requires r < 16
    ensures |TABLE| == 16 && Spans(TABLE[r], TABLE[0])
  {
    hide Spans;
    RowsSpanLow();
    RowsSpanMid();
    RowsSpanUpper();
    RowsSpanTop();
    match r
    case 0 => case 1 => case 2 => case 3 => case 4 => case 5 => case 6 => case 7 =>
    case 8 => case 9 => case 10 => case 11 => case 12 => case 13 => case 14 => case _ =>
  }

  function Four(a: bv32, b: bv32, c: bv32, d: bv32): bv32 {
    Xor(Xor(a, b), Xor(c, d))
  }

  lemma ShiftTimesFour(a: bv32, b: bv32, c: bv32, d: bv32, n: nat)
    ensures ShiftTimes(Four(a, b, c, d), n)
            == Four(ShiftTimes(a, n), ShiftTimes(b, n), ShiftTimes(c, n), ShiftTimes(d, n))
  {
    hide Xor, ShiftTimes;
    ShiftTimesLinear(Xor(a, b), Xor(c, d), n);
    ShiftTimesLinear(a, b, n);
    ShiftTimesLinear(c, d, n);
  }

  /** The entries whose index is a power of two are eight shifts of it. */
  lemma Generators()
    ensures |TABLE| == 16 && |TABLE[0]| == |TABLE[1]| == |TABLE[2]| == |TABLE[4]| == |TABLE[8]| == 16
    ensures TABLE[0][1] == ShiftTimes(1, 8) && TABLE[0][2] == ShiftTimes(2, 8)
    ensures TABLE[0][4] == ShiftTimes(4, 8) && TABLE[0][8] == ShiftTimes(8, 8)
    ensures TABLE[1][0] == ShiftTimes(16, 8) && TABLE[2][0] == ShiftTimes(32, 8)
    ensures TABLE[4][0] == ShiftTimes(64, 8) && TABLE[8][0] == ShiftTimes(128, 8)
  {
  }

  lemma NibbleCases(n: bv32)
    requires n < 16
    ensures n < 4 ==> n == 0 || n == 1 || n == 2 || n == 3
    ensures 4 <= n < 8 ==> n == 4 || n == 5 || n == 6 || n == 7
    ensures 8 <= n < 12 ==> n == 8 || n == 9 || n == 10 || n == 11
    ensures 12 <= n ==> n == 12 || n == 13 || n == 14 || n == 15
  {
  }

  lemma FirstRow(n: bv32)
    requires n < 16
    ensures |TABLE| == 16 && |TABLE[0]| == 16 && 0 <= n as int < 16
    ensures TABLE[0][n as int]
            == Four(Term(n, 1, TABLE[0][1]), Term(n, 2, TABLE[0][2]), Term(n, 4, TABLE[0][4]), Term(n, 8, TABLE[0][8]))
  {
    NibbleCases(n);
    if n < 4 {
    } else if n < 8 {
    } else if n < 12 {
    }
  }

  lemma FirstColumn(n: bv32)
    requires n < 16
    ensures |TABLE| == 16 && 0 <= n as int < 16 && forall r | 0 <= r < 16 :: |TABLE[r]| == 16
    ensures TABLE[n as int][0]
            == Four(Term(n, 1, TABLE[1][0]), Term(n, 2, TABLE[2][0]), Term(n, 4, TABLE[4][0]), Term(n, 8, TABLE[8][0]))
  {
    NibbleCases(n);
    if n < 4 {
    } else if n < 8 {
    } else if n < 12 {
    }
  }

  /** The highest and the lowest half of a byte, and the byte as the sum of its bits. */
  lemma ByteBits(b: bv32)
    requires b <= 0xff
    ensures b >> 4 < 16 && b & 15 < 16
    ensures b == Xor(Four(b & 1, b & 2, b & 4, b & 8), Four(b & 16, b & 32, b & 64, b & 128))
  {
    ByteBitsWord(b);
  }

  lemma ByteBitsWord(b: bv32)
    requires b <= 0xff
    ensures b >> 4 < 16 && b & 15 < 16
    ensures b == (((b & 1) ^ (b & 2)) ^ ((b & 4) ^ (b & 8))) ^ (((b & 16) ^ (b & 32)) ^ ((b & 64) ^ (b & 128)))
  {
  }

  lemma NibbleTerms(b: bv32, v: bv32)
    ensures Term(b & 15, 1, v) == Term(b, 1, v) && Term(b & 15, 2, v) == Term(b, 2, v)
    ensures Term(b & 15, 4, v) == Term(b, 4, v) && Term(b & 15, 8, v) == Term(b, 8, v)
    ensures Term(b >> 4, 1, v) == Term(b, 16, v) && Term(b >> 4, 2, v) == Term(b, 32, v)
    ensures Term(b >> 4, 4, v) == Term(b, 64, v) && Term(b >> 4, 8, v) == Term(b, 128, v)
  {
  }

  lemma ShiftTerm(b: bv32, bit: bv32)
    requires b & bit == 0 || b & bit == bit
    ensures bit != 0 ==> ShiftTimes(b & bit, 8) == Term(b, bit, ShiftTimes(bit, 8))
  {
    hide Shift, ShiftTimes;
    ShiftTimesZero(0, 8);
  }

  function LowTerms(b: bv32): bv32 {
    Four(Term(b, 1, ShiftTimes(1, 8)), Term(b, 2, ShiftTimes(2, 8)),
         Term(b, 4, ShiftTimes(4, 8)), Term(b, 8, ShiftTimes(8, 8)))
  }

  function HighTerms(b: bv32): bv32 {
    Four(Term(b, 16, ShiftTimes(16, 8)), Term(b, 32, ShiftTimes(32, 8)),
         Term(b, 64, ShiftTimes(64, 8)), Term(b, 128, ShiftTimes(128, 8)))
  }

  lemma ShiftsOfLow(b: bv32)
    ensures ShiftTimes(Four(b & 1, b & 2, b & 4, b & 8), 8) == LowTerms(b)
  {
    hide Xor, ShiftTimes, Term, Four;
    ShiftTimesFour(b & 1, b & 2, b & 4, b & 8, 8);
    ShiftTerm(b, 1);
    ShiftTerm(b, 2);
    ShiftTerm(b, 4);
    ShiftTerm(b, 8);
  }

  lemma ShiftsOfHigh(b: bv32)
    ensures ShiftTimes(Four(b & 16, b & 32, b & 64, b & 128), 8) == HighTerms(b)
  {
    hide Xor, ShiftTimes, Term, Four;
    ShiftTimesFour(b & 16, b & 32, b & 64, b & 128, 8);
    ShiftTerm(b, 16);
    ShiftTerm(b, 32);
    ShiftTerm(b, 64);
    ShiftTerm(b, 128);
  }

  lemma ShiftsOfByte(b: bv32)
    requires b <= 0xff
    ensures ShiftTimes(b, 8) == Xor(HighTerms(b), LowTerms(b))
  {
    hide Xor, ShiftTimes, Term, Four, LowTerms, HighTerms;
    ByteBits(b);
    var l, h := Four(b & 1, b & 2, b & 4, b & 8), Four(b & 16, b & 32, b & 64, b & 128);
    ShiftTimesLinear(l, h, 8);
    XorCommutes(ShiftTimes(l, 8), ShiftTimes(h, 8));
    ShiftsOfLow(b);
    ShiftsOfHigh(b);
  }

  lemma FirstRowTerms(b: bv32)
    requires b <= 0xff
    ensures |TABLE| == 16 && |TABLE[0]| == 16 && 0 <= (b & 15) as int < 16
    ensures TABLE[0][(b & 15) as int] == LowTerms(b)
  {
    hide Xor, ShiftTimes, Term, Four;
    ByteBits(b);
    FirstRow(b & 15);
    Generators();
    NibbleTerms(b, ShiftTimes(1, 8));
    NibbleTerms(b, ShiftTimes(2, 8));
    NibbleTerms(b, ShiftTimes(4, 8));
    NibbleTerms(b, ShiftTimes(8, 8));
  }

  lemma FirstColumnTerms(b: bv32)
    requires b <= 0xff
    ensures |TABLE| == 16 && 0 <= (b >> 4) as int < 16 && |TABLE[(b >> 4) as int]| == 16
    ensures TABLE[(b >> 4) as int][0] == HighTerms(b)
  {
    hide Xor, ShiftTimes, Term, Four;
    ByteBits(b);
    FirstColumn(b >> 4);
    Generators();
    NibbleTerms(b, ShiftTimes(16, 8));
    NibbleTerms(b, ShiftTimes(32, 8));
    NibbleTerms(b, ShiftTimes(64, 8));
    NibbleTerms(b, ShiftTimes(128, 8));
  }

  /** Every table entry is eight shifts of its index. */
  lemma FeedbackIsShifts(b: bv32)
    requires b <= 0xff
    ensures Feedback(b) == ShiftTimes(b, 8)
  {
    hide Xor, ShiftTimes, Spans, LowTerms, HighTerms;
    FirstRowTerms(b);
    FirstColumnTerms(b);
    RowSpans((b >> 4) as int);
    SpansEach(TABLE[(b >> 4) as int], TABLE[0], (b & 15) as int);
    ShiftsOfByte(b);
  }

  // ---- the checksum ----

  lemma SplitBytes(w: bv32)
    ensures Xor(LowByte(w), HighBytes(w)) == w
  {
  }

  lemma DropHighBytes(val: bv32, s: bv8)
    ensures DropByte(HighBytes(Xor(val, Wide(s)))) == DropByte(val)
  {
  }

  function DownTimes(x: bv32, n: nat): bv32
    decreases n
  {
    if n == 0 then x else DownTimes(x >> 1, n - 1)
  }

  /** The lowest n bits are clear. */
  predicate EvenTimes(x: bv32, n: nat)
    decreases n
  {
    n == 0 || (!Odd(x) && EvenTimes(x >> 1, n - 1))
  }

  lemma {:induction false} ShiftsOfEven(x: bv32, n: nat)
    requires EvenTimes(x, n)
    ensures ShiftTimes(x, n) == DownTimes(x, n)
    decreases n
  {
    if n > 0 {
      assert Shift(x) == x >> 1;
      ShiftsOfEven(x >> 1, n - 1);
    }
  }

  lemma ShiftsOfHighBytes(w: bv32)
    ensures ShiftTimes(HighBytes(w), 8) == DropByte(HighBytes(w))
  {
    hide Shift, ShiftTimes, HighBytes, DropByte, EvenTimes, DownTimes;
    HighBytesEven(w);
    ShiftsOfEven(HighBytes(w), 8);
  }

  lemma HighBytesEven(w: bv32)
    ensures EvenTimes(HighBytes(w), 8) && DownTimes(HighBytes(w), 8) == DropByte(HighBytes(w))
  {
  }

  lemma {:induction false} PackByte(s: bv8)
    ensures |BitsOf(s)| == 8 && Pack(BitsOf(s)) == Wide(s)
  {
    hide Xor, Up, Bit, Wide;
    var b := BitsOf(s);
    PackOne(b, 7);
    PackOne(b, 6);
    PackOne(b, 5);
    PackOne(b, 4);
    PackOne(b, 3);
    PackOne(b, 2);
    PackOne(b, 1);
    PackOne(b, 0);
    assert b[8..] == [] && b[0..] == b;
    Nested(s);
  }

  /** A byte is put together again from its bits, highest first. */
  lemma Nested(s: bv8)
    ensures var p7 := Xor(Up(0), Bit(s & 128 != 0));
            var p6 := Xor(Up(p7), Bit(s & 64 != 0));
            var p5 := Xor(Up(p6), Bit(s & 32 != 0));
            var p4 := Xor(Up(p5), Bit(s & 16 != 0));
            var p3 := Xor(Up(p4), Bit(s & 8 != 0));
            var p2 := Xor(Up(p3), Bit(s & 4 != 0));
            var p1 := Xor(Up(p2), Bit(s & 2 != 0));
            Xor(Up(p1), Bit(s & 1 != 0)) == Wide(s)
  {
  }

  lemma PackOne(b: seq<bool>, k: nat)
    requires k < |b|
    ensures Pack(b[k..]) == Xor(Up(Pack(b[k + 1..])), Bit(b[k]))
  {
    assert b[k..][1..] == b[k + 1..];
  }

  /** One byte step is eight steps of the shift register. */
  lemma ByteStepIsSerial(val: bv32, s: bv8)
    ensures ByteStep(val, s) == Serial(val, BitsOf(s))
  {
    hide Xor, ShiftTimes, Feedback, Serial, Pack, BitsOf, LowByte, HighBytes, Wide, DropByte;
    var w := Xor(val, Wide(s));
    FeedbackIsShifts(LowByte(w));
    SplitBytes(w);
    ShiftTimesLinear(LowByte(w), HighBytes(w), 8);
    ShiftsOfHighBytes(w);
    DropHighBytes(val, s);
    PackByte(s);
    SerialPacked(val, BitsOf(s));
  }

  /** The byte loop is the bit-serial register, for every buffer and initial value. */
  lemma {:induction false} CrcIsSerial(val: bv32, s: seq<bv8>)
    ensures Crc(val, s) == Serial(val, AllBits(s))
    decreases |s|
  {
    hide ByteStep, BitsOf, Shift, Xor;
    if s != [] {
      ByteStepIsSerial(val, s[0]);
      SerialConcat(val, BitsOf(s[0]), AllBits(s[1..]));
      CrcIsSerial(ByteStep(val, s[0]), s[1..]);
    }
  }

  lemma {:induction false} CrcConcat(val: bv32, s: seq<bv8>, t: seq<bv8>)
    ensures Crc(val, s + t) == Crc(Crc(val, s), t)
    decreases |s|
  {
    hide ByteStep;
    if s == [] {
      assert s + t == t;
    } else {
      assert (s + t)[1..] == s[1..] + t;
      CrcConcat(ByteStep(val, s[0]), s[1..], t);
    }
  }

  /** Exclusive or of two messages of the same length. */
  function XorBytes(s: seq<bv8>, t: seq<bv8>): (r: seq<bv8>)
    requires |s| == |t|
    ensures |r| == |s|
  {
    if s == [] then [] else [s[0] ^ t[0]] + XorBytes(s[1..], t[1..])
  }

  /** A byte step is linear in register and byte together. */
  lemma ByteStepLinear(v: bv32, w: bv32, s: bv8, t: bv8)
    ensures ByteStep(Xor(v, w), s ^ t) == Xor(ByteStep(v, s), ByteStep(w, t))
  {
    hide ByteStep, Xor, ShiftTimes, Serial, Pack, BitsOf, Wide;
    var st := s ^ t;
    ByteStepIsSerial(Xor(v, w), st);
    ByteStepIsSerial(v, s);
    ByteStepIsSerial(w, t);
    PackByte(st);
    PackByte(s);
    PackByte(t);
    SerialPacked(Xor(v, w), BitsOf(st));
    SerialPacked(v, BitsOf(s));
    SerialPacked(w, BitsOf(t));
    WideXor(s, t);
    XorPairs(v, w, Wide(s), Wide(t));
    ShiftTimesLinear(Xor(v, Wide(s)), Xor(w, Wide(t)), 8);
  }

  lemma WideXor(s: bv8, t: bv8)
    ensures Wide(s ^ t) == Xor(Wide(s), Wide(t))
  {
  }

  lemma XorPairs(a: bv32, b: bv32, c: bv32, d: bv32)
    ensures Xor(Xor(a, b), Xor(c, d)) == Xor(Xor(a, c), Xor(b, d))
  {
    hide Xor;
    XorAssociates(Xor(a, b), c, d);
    XorAssociates(a, b, c);
    XorCommutes(b, c);
    XorAssociates(a, c, b);
    XorAssociates(Xor(a, c), b, d);
  }

  /** The checksum is linear over messages of equal length and initial values. */
  lemma {:induction false} CrcLinear(v: bv32, w: bv32, s: seq<bv8>, t: seq<bv8>)
    requires |s| == |t|
    ensures Crc(Xor(v, w), XorBytes(s, t)) == Xor(Crc(v, s), Crc(w, t))
    decreases |s|
  {
    hide ByteStep, Xor;
    if s != [] {
      ByteStepLinear(v, w, s[0], t[0]);
      CrcLinear(ByteStep(v, s[0]), ByteStep(w, t[0]), s[1..], t[1..]);
      assert XorBytes(s, t)[1..] == XorBytes(s[1..], t[1..]);
    }
  }

  lemma {:induction false} AllBitsConcat(s: seq<bv8>, t: seq<bv8>)
    ensures AllBits(s + t) == AllBits(s) + AllBits(t)
    decreases |s|
  {
    hide BitsOf;
    if s == [] {
      assert s + t == t;
    } else {
      assert (s + t)[1..] == s[1..] + t;
      AllBitsConcat(s[1..], t);
    }
  }

  lemma {:induction false} AllBitsInjective(s: seq<bv8>, t: seq<bv8>)
    requires |s| == |t| && AllBits(s) == AllBits(t)
    ensures s == t
    decreases |s|
  {
    if s != [] {
      assert AllBits(s)[..8] == BitsOf(s[0]) && AllBits(t)[..8] == BitsOf(t[0]);
      assert AllBits(s)[8..] == AllBits(s[1..]) && AllBits(t)[8..] == AllBits(t[1..]);
      SameBits(s[0], t[0]);
      AllBitsInjective(s[1..], t[1..]);
      assert s == [s[0]] + s[1..] && t == [t[0]] + t[1..];
    }
  }

  lemma SameBits(a: bv8, b: bv8)
    requires BitsOf(a) == BitsOf(b)
    ensures a == b
  {
    var x, y := BitsOf(a), BitsOf(b);
    assert x[0] == y[0] && x[1] == y[1] && x[2] == y[2] && x[3] == y[3];
    assert x[4] == y[4] && x[5] == y[5] && x[6] == y[6] && x[7] == y[7];
    SameBitValues(a, b);
  }

  lemma SameBitValues(a: bv8, b: bv8)
    requires a & 1 != 0 <==> b & 1 != 0
    requires a & 2 != 0 <==> b & 2 != 0
    requires a & 4 != 0 <==> b & 4 != 0
    requires a & 8 != 0 <==> b & 8 != 0
    requires a & 16 != 0 <==> b & 16 != 0
    requires a & 32 != 0 <==> b & 32 != 0
    requires a & 64 != 0 <==> b & 64 != 0
    requires a & 128 != 0 <==> b & 128 != 0
    ensures a == b
  {
  }

  /** Two buffers of equal length that differ, but only inside four consecutive bytes, never
      have the same checksum. */
  lemma FourByteBurstDetected(val: bv32, s: seq<bv8>, t: seq<bv8>, at: nat)
    requires |s| == |t| && s != t && at <= |s|
    requires forall k | 0 <= k < |s| && !(at <= k < at + 4) :: s[k] == t[k]
    ensures Crc(val, s) != Crc(val, t)
  {
    var end := if at + 4 <= |s| then at + 4 else |s|;
    var v, w := s[at..end], t[at..end];
    assert s[..at] == t[..at] && s[end..] == t[end..];
    assert s == s[..at] + v + s[end..] && t == s[..at] + w + s[end..];
    assert v != w;
    CrcIsSerial(val, s);
    CrcIsSerial(val, t);
    AllBitsConcat(s[..at] + v, s[end..]);
    AllBitsConcat(s[..at] + w, s[end..]);
    AllBitsConcat(s[..at], v);
    AllBitsConcat(s[..at], w);
    if AllBits(v) == AllBits(w) {
      AllBitsInjective(v, w);
    }
    BurstDetected(val, AllBits(s[..at]), AllBits(v), AllBits(w), AllBits(s[end..]));
  }
}
