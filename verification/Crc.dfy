/** CRC-32 of network frames: the byte-at-a-time table form against division of polynomials. */
module Crc {
  import Memory

  type word = bv32

  const POLY: word := 0xEDB88320  // x^32 mod G(x); the highest coefficient is the lowest bit
  const ONES: word := 0xFFFFFFFF
  const RESIDUE: word := 0xDEBB20E3

  // ----- bit by bit

  /** Multiplication by x modulo G(x). */
  function Step(r: word): word {
    (r >> 1) ^ if r & 1 == 1 then POLY else 0
  }

  function Steps(r: word, n: nat): word {
    if n == 0 then r else Step(Steps(r, n - 1))
  }

  function Xor(a: word, b: word): word { a ^ b }

  function Bit(b: bool): word { if b then 1 else 0 }

  /** The shift register after a string of bits. */
  function Reg(r: word, bits: seq<bool>): word
    decreases bits
  {
    if bits == [] then r else Reg(Step(Xor(r, Bit(bits[0]))), bits[1..])
  }

  /** The string of bits as a polynomial, first bit highest, modulo G(x). */
  function Rem(bits: seq<bool>): word {
    if bits == [] then 0 else
    Xor(Step(Rem(bits[..|bits| - 1])), if bits[|bits| - 1] then 0x80000000 else 0)
  }

  lemma StepLinear(a: word, b: word)
    ensures Step(Xor(a, b)) == Xor(Step(a), Step(b))
  {
    hide Step;
    StepXor(a, b);
  }

  lemma StepXor(a: word, b: word)
    ensures Step(a ^ b) == Step(a) ^ Step(b)
  {
    hide Xor;
    ShiftXor(a, b);
    LowXor(a, b);
    var m, n := if a & 1 == 1 then POLY else 0, if b & 1 == 1 then POLY else 0;
    XorFour(a >> 1, m, b >> 1, n);
    assert if (a ^ b) & 1 == 1 then POLY == m ^ n else 0 == m ^ n;
  }

  lemma ShiftXor(a: word, b: word)
    ensures (a ^ b) >> 1 == (a >> 1) ^ (b >> 1)
  {
  }

  lemma LowXor(a: word, b: word)
    ensures (a ^ b) & 1 == 1 <==> (a & 1 == 1) != (b & 1 == 1)
  {
  }

  lemma XorFour(a: word, m: word, b: word, n: word)
    ensures (a ^ m) ^ (b ^ n) == (a ^ b) ^ (m ^ n)
  {
  }

  lemma StepInjective(a: word, b: word)
    requires Step(a) == Step(b)
    ensures a == b
  {
  }

  lemma StepsNone(r: word)
    ensures Steps(r, 0) == r
  {
  }

  lemma StepsNext(r: word, n: nat)
    requires n > 0
    ensures Steps(r, n) == Step(Steps(r, n - 1))
  {
  }

  lemma {:induction false} StepsLinear(a: word, b: word, n: nat)
    ensures Steps(Xor(a, b), n) == Xor(Steps(a, n), Steps(b, n))
  {
    hide Step, Steps, Xor;
    if n == 0 {
      StepsNone(Xor(a, b));
      StepsNone(a);
      StepsNone(b);
    } else {
      StepsLinear(a, b, n - 1);
      StepsNext(Xor(a, b), n);
      StepsNext(a, n);
      StepsNext(b, n);
      StepLinear(Steps(a, n - 1), Steps(b, n - 1));
    }
  }

  lemma {:induction false} StepsInjective(a: word, b: word, n: nat)
    requires Steps(a, n) == Steps(b, n)
    ensures a == b
  {
    if n > 0 {
      StepInjective(Steps(a, n - 1), Steps(b, n - 1));
      StepsInjective(a, b, n - 1);
    }
  }

  lemma {:induction false} StepsAdd(r: word, n: nat, m: nat)
    ensures Steps(Steps(r, n), m) == Steps(r, n + m)
  {
    if m > 0 { StepsAdd(r, n, m - 1); }
  }

  // ----- the table

  /** Sixteen entries of the table. */
  function Row(k: bv8): (row: seq<word>)
    ensures |row| == 16
  {
    match k
    case 0 => [0x00000000, 0x77073096, 0xEE0E612C, 0x990951BA,
              0x076DC419, 0x706AF48F, 0xE963A535, 0x9E6495A3,
              0x0EDB8832, 0x79DCB8A4, 0xE0D5E91E, 0x97D2D988,
              0x09B64C2B, 0x7EB17CBD, 0xE7B82D07, 0x90BF1D91]
    case 1 => [0x1DB71064, 0x6AB020F2, 0xF3B97148, 0x84BE41DE,
              0x1ADAD47D, 0x6DDDE4EB, 0xF4D4B551, 0x83D385C7,
              0x136C9856, 0x646BA8C0, 0xFD62F97A, 0x8A65C9EC,
              0x14015C4F, 0x63066CD9, 0xFA0F3D63, 0x8D080DF5]
    case 2 => [0x3B6E20C8, 0x4C69105E, 0xD56041E4, 0xA2677172,
              0x3C03E4D1, 0x4B04D447, 0xD20D85FD, 0xA50AB56B,
              0x35B5A8FA, 0x42B2986C, 0xDBBBC9D6, 0xACBCF940,
              0x32D86CE3, 0x45DF5C75, 0xDCD60DCF, 0xABD13D59]
    case 3 => [0x26D930AC, 0x51DE003A, 0xC8D75180, 0xBFD06116,
              0x21B4F4B5, 0x56B3C423, 0xCFBA9599, 0xB8BDA50F,
              0x2802B89E, 0x5F058808, 0xC60CD9B2, 0xB10BE924,
              0x2F6F7C87, 0x58684C11, 0xC1611DAB, 0xB6662D3D]
    case 4 => [0x76DC4190, 0x01DB7106, 0x98D220BC, 0xEFD5102A,
              0x71B18589, 0x06B6B51F, 0x9FBFE4A5, 0xE8B8D433,
              0x7807C9A2, 0x0F00F934, 0x9609A88E, 0xE10E9818,
              0x7F6A0DBB, 0x086D3D2D, 0x91646C97, 0xE6635C01]
    case 5 => [0x6B6B51F4, 0x1C6C6162, 0x856530D8, 0xF262004E,
              0x6C0695ED, 0x1B01A57B, 0x8208F4C1, 0xF50FC457,
              0x65B0D9C6, 0x12B7E950, 0x8BBEB8EA, 0xFCB9887C,
              0x62DD1DDF, 0x15DA2D49, 0x8CD37CF3, 0xFBD44C65]
    case 6 => [0x4DB26158, 0x3AB551CE, 0xA3BC0074, 0xD4BB30E2,
              0x4ADFA541, 0x3DD895D7, 0xA4D1C46D, 0xD3D6F4FB,
              0x4369E96A, 0x346ED9FC, 0xAD678846, 0xDA60B8D0,
              0x44042D73, 0x33031DE5, 0xAA0A4C5F, 0xDD0D7CC9]
    case 7 => [0x5005713C, 0x270241AA, 0xBE0B1010, 0xC90C2086,
              0x5768B525, 0x206F85B3, 0xB966D409, 0xCE61E49F,
              0x5EDEF90E, 0x29D9C998, 0xB0D09822, 0xC7D7A8B4,
              0x59B33D17, 0x2EB40D81, 0xB7BD5C3B, 0xC0BA6CAD]
    case 8 => [0xEDB88320, 0x9ABFB3B6, 0x03B6E20C, 0x74B1D29A,
              0xEAD54739, 0x9DD277AF, 0x04DB2615, 0x73DC1683,
              0xE3630B12, 0x94643B84, 0x0D6D6A3E, 0x7A6A5AA8,
              0xE40ECF0B, 0x9309FF9D, 0x0A00AE27, 0x7D079EB1]
    case 9 => [0xF00F9344, 0x8708A3D2, 0x1E01F268, 0x6906C2FE,
              0xF762575D, 0x806567CB, 0x196C3671, 0x6E6B06E7,
              0xFED41B76, 0x89D32BE0, 0x10DA7A5A, 0x67DD4ACC,
              0xF9B9DF6F, 0x8EBEEFF9, 0x17B7BE43, 0x60B08ED5]
    case 10 => [0xD6D6A3E8, 0xA1D1937E, 0x38D8C2C4, 0x4FDFF252,
              0xD1BB67F1, 0xA6BC5767, 0x3FB506DD, 0x48B2364B,
              0xD80D2BDA, 0xAF0A1B4C, 0x36034AF6, 0x41047A60,
              0xDF60EFC3, 0xA867DF55, 0x316E8EEF, 0x4669BE79]
    case 11 => [0xCB61B38C, 0xBC66831A, 0x256FD2A0, 0x5268E236,
              0xCC0C7795, 0xBB0B4703, 0x220216B9, 0x5505262F,
              0xC5BA3BBE, 0xB2BD0B28, 0x2BB45A92, 0x5CB36A04,
              0xC2D7FFA7, 0xB5D0CF31, 0x2CD99E8B, 0x5BDEAE1D]
    case 12 => [0x9B64C2B0, 0xEC63F226, 0x756AA39C, 0x026D930A,
              0x9C0906A9, 0xEB0E363F, 0x72076785, 0x05005713,
              0x95BF4A82, 0xE2B87A14, 0x7BB12BAE, 0x0CB61B38,
              0x92D28E9B, 0xE5D5BE0D, 0x7CDCEFB7, 0x0BDBDF21]
    case 13 => [0x86D3D2D4, 0xF1D4E242, 0x68DDB3F8, 0x1FDA836E,
              0x81BE16CD, 0xF6B9265B, 0x6FB077E1, 0x18B74777,
              0x88085AE6, 0xFF0F6A70, 0x66063BCA, 0x11010B5C,
              0x8F659EFF, 0xF862AE69, 0x616BFFD3, 0x166CCF45]
    case 14 => [0xA00AE278, 0xD70DD2EE, 0x4E048354, 0x3903B3C2,
              0xA7672661, 0xD06016F7, 0x4969474D, 0x3E6E77DB,
              0xAED16A4A, 0xD9D65ADC, 0x40DF0B66, 0x37D83BF0,
              0xA9BCAE53, 0xDEBB9EC5, 0x47B2CF7F, 0x30B5FFE9]
    case _ => [0xBDBDF21C, 0xCABAC28A, 0x53B39330, 0x24B4A3A6,
              0xBAD03605, 0xCDD70693, 0x54DE5729, 0x23D967BF,
              0xB3667A2E, 0xC4614AB8, 0x5D681B02, 0x2A6F2B94,
              0xB40BBE37, 0xC30C8EA1, 0x5A05DF1B, 0x2D02EF8D]
  }

  function Poly8(i: bv8): word {
    Row(i >> 4)[(i & 15) as int]
  }

  function Index(r: word, b: bv8): bv8 { (r & 0xFF) as bv8 ^ b }

  function Shr8(r: word): word { r >> 8 }

  /** The register after one byte, as the kernel computes it. */
  function Update(r: word, b: bv8): word {
    Xor(Poly8(Index(r, b)), Shr8(r))
  }

  function Bytes(r: word, data: seq<bv8>): word
    decreases data
  {
    if data == [] then r else Bytes(Update(r, data[0]), data[1..])
  }

  lemma {:induction false} BytesAppend(r: word, x: seq<bv8>, y: seq<bv8>)
    ensures Bytes(r, x + y) == Bytes(Bytes(r, x), y)
    decreases x
  {
    if x == [] {
      assert x + y == y;
    } else {
      assert (x + y)[1..] == x[1..] + y;
      BytesAppend(Update(r, x[0]), x[1..], y);
    }
  }

  lemma {:induction false} RegAppend(r: word, x: seq<bool>, y: seq<bool>)
    ensures Reg(r, x + y) == Reg(Reg(r, x), y)
    decreases x
  {
    if x == [] {
      assert x + y == y;
    } else {
      assert (x + y)[1..] == x[1..] + y;
      RegAppend(Step(Xor(r, Bit(x[0]))), x[1..], y);
    }
  }

  function Odd(b: bv8): bool { b & 1 != 0 }

  function Rest(b: bv8): bv8 { b >> 1 }

  /** The lowest n bits of a byte. */
  function LowBits(b: bv8, n: nat): (s: seq<bool>)
    ensures |s| == n
  {
    if n == 0 then [] else [Odd(b)] + LowBits(Rest(b), n - 1)
  }

  /** The bits of a byte in the order they are sent. */
  function BitsOf(b: bv8): (s: seq<bool>)
    ensures |s| == 8
  {
    LowBits(b, 8)
  }

  function AllBits(data: seq<bv8>): (s: seq<bool>)
    ensures |s| == 8 * |data|
  {
    if data == [] then [] else BitsOf(data[0]) + AllBits(data[1..])
  }

  // ----- a byte at a time

  function Half(w: word): word { w >> 1 }

  lemma StepEven(w: word)
    ensures w & 1 == 0 ==> Step(w) == Half(w)
  {
  }

  lemma HalfFour(w: word)
    ensures Half(Half(Half(Half(w)))) == w >> 4
    ensures w & 0xF == 0 ==> w & 1 == 0 && Half(w) & 1 == 0 && Half(Half(w)) & 1 == 0 && Half(Half(Half(w))) & 1 == 0
  {
  }

  lemma FourHigh(w: word)
    requires w & 0xF == 0
    ensures Step(Step(Step(Step(w)))) == w >> 4
  {
    HalfFour(w);
    hide Step, Half;
    StepEven(w);
    StepEven(Half(w));
    StepEven(Half(Half(w)));
    StepEven(Half(Half(Half(w))));
  }

  lemma Nibbles(w: word)
    ensures w & 0xFF == 0 ==> w & 0xF == 0 && (w >> 4) & 0xF == 0
    ensures (w >> 4) >> 4 == w >> 8
  {
  }

  predicate LowZero(w: word) { w & 0xFF == 0 }

  /** Eight multiplications by x of what has no low byte are a shift. */
  lemma StepsHigh(w: word)
    requires LowZero(w)
    ensures Steps(w, 8) == Shr8(w)
  {
    hide Step, Steps;
    Nibbles(w);
    FourHigh(w);
    FourHigh(w >> 4);
    StepsFour(w);
  }

  lemma StepsFour(w: word)
    ensures Steps(w, 4) == Step(Step(Step(Step(w))))
    ensures Steps(w, 8) == Step(Step(Step(Step(Step(Step(Step(Step(w))))))))
  {
    hide Step, Steps;
    StepsNone(w);
    StepsNext(w, 1);
    StepsNext(w, 2);
    StepsNext(w, 3);
    StepsNext(w, 4);
    StepsNext(w, 5);
    StepsNext(w, 6);
    StepsNext(w, 7);
    StepsNext(w, 8);
  }

  function Byte(i: bv8): word {
    Step(Step(Step(Step(Step(Step(Step(Step(i as word))))))))
  }

  /** What row k of the table should be. */
  function RowOf(k: bv8): seq<word> {
    var h := k << 4;
    [Byte(h), Byte(h | 1), Byte(h | 2), Byte(h | 3), Byte(h | 4), Byte(h | 5), Byte(h | 6), Byte(h | 7),
     Byte(h | 8), Byte(h | 9), Byte(h | 10), Byte(h | 11), Byte(h | 12), Byte(h | 13), Byte(h | 14), Byte(h | 15)]
  }

  lemma Row0() ensures Row(0) == RowOf(0) {}
  lemma Row1() ensures Row(1) == RowOf(1) {}
  lemma Row2() ensures Row(2) == RowOf(2) {}
  lemma Row3() ensures Row(3) == RowOf(3) {}
  lemma Row4() ensures Row(4) == RowOf(4) {}
  lemma Row5() ensures Row(5) == RowOf(5) {}
  lemma Row6() ensures Row(6) == RowOf(6) {}
  lemma Row7() ensures Row(7) == RowOf(7) {}
  lemma Row8() ensures Row(8) == RowOf(8) {}
  lemma Row9() ensures Row(9) == RowOf(9) {}
  lemma Row10() ensures Row(10) == RowOf(10) {}
  lemma Row11() ensures Row(11) == RowOf(11) {}
  lemma Row12() ensures Row(12) == RowOf(12) {}
  lemma Row13() ensures Row(13) == RowOf(13) {}
  lemma Row14() ensures Row(14) == RowOf(14) {}
  lemma Row15() ensures Row(15) == RowOf(15) {}

  lemma RowOk(k: bv8)
    requires k < 16
    ensures Row(k) == RowOf(k)
  {
    hide Row, RowOf;
    match k
    case 0 => Row0();
    case 1 => Row1();
    case 2 => Row2();
    case 3 => Row3();
    case 4 => Row4();
    case 5 => Row5();
    case 6 => Row6();
    case 7 => Row7();
    case 8 => Row8();
    case 9 => Row9();
    case 10 => Row10();
    case 11 => Row11();
    case 12 => Row12();
    case 13 => Row13();
    case 14 => Row14();
    case _ => Row15();
  }

  lemma RowEntry(k: bv8, j: bv8)
    requires j < 16
    ensures RowOf(k)[j as int] == Byte((k << 4) | j)
  {
    hide Byte;
    if j == 0 {} else if j == 1 {} else if j == 2 {} else if j == 3 {} else if j == 4 {}
    else if j == 5 {} else if j == 6 {} else if j == 7 {} else if j == 8 {} else if j == 9 {}
    else if j == 10 {} else if j == 11 {} else if j == 12 {} else if j == 13 {} else if j == 14 {}
    else { assert j == 15; }
  }

  lemma ByteParts(i: bv8)
    ensures i >> 4 < 16 && i & 15 < 16 && ((i >> 4) << 4) | (i & 15) == i
  {
  }

  /** The entries of the table are the bytes, multiplied by x^8. */
  lemma TableOk(i: bv8)
    ensures Poly8(i) == Steps(i as word, 8)
  {
    hide Byte, Steps, Row, RowOf;
    ByteParts(i);
    RowOk(i >> 4);
    RowEntry(i >> 4, i & 15);
    ByteSteps(i);
  }

  lemma ByteSteps(i: bv8)
    ensures Byte(i) == Steps(i as word, 8)
  {
    hide Step, Steps;
    StepsFour(i as word);
  }

  function High(r: word): word { r & 0xFFFFFF00 }

  lemma ByteShift(r: word, b: bv8)
    ensures Xor(Index(r, b) as word, High(r)) == Xor(r, b as word) && LowZero(High(r)) && Shr8(High(r)) == Shr8(r)
  {
  }

  /** A step through the table takes in a whole byte. */
  lemma UpdateSteps(r: word, b: bv8)
    ensures Update(r, b) == Steps(Xor(r, b as word), 8)
  {
    hide Steps, Xor, Poly8, Index, High, LowZero, Shr8;
    ByteShift(r, b);
    StepsHigh(High(r));
    TableOk(Index(r, b));
    StepsLinear(Index(r, b) as word, High(r), 8);
  }

  // ----- the number that a string of bits stands for, first bit lowest

  function Twice(w: word): word { w << 1 }

  function Value(bits: seq<bool>): word {
    if bits == [] then 0 else Xor(Bit(bits[0]), Twice(Value(bits[1..])))
  }

  function HalfTimes(w: word, n: nat): word {
    if n == 0 then w else Half(HalfTimes(w, n - 1))
  }

  lemma {:induction false} HalfTimesAdd(w: word, n: nat, m: nat)
    ensures HalfTimes(HalfTimes(w, n), m) == HalfTimes(w, n + m)
  {
    if m > 0 { HalfTimesAdd(w, n, m - 1); }
  }

  lemma HalfTimesFour(w: word)
    ensures HalfTimes(w, 4) == w >> 4 && HalfTimes(w, 3) == w >> 3
  {
    assert HalfTimes(w, 1) == w >> 1;
    assert HalfTimes(w, 2) == w >> 2;
    assert HalfTimes(w, 3) == w >> 3;
  }

  lemma HalfTimesEight(w: word)
    ensures HalfTimes(w, 8) == w >> 8
  {
    hide HalfTimes;
    HalfTimesFour(w);
    HalfTimesFour(w >> 4);
    HalfTimesAdd(w, 4, 4);
  }

  lemma HalfTimesSixteen(w: word)
    ensures HalfTimes(w, 16) == w >> 16
  {
    hide HalfTimes;
    HalfTimesEight(w);
    HalfTimesEight(w >> 8);
    HalfTimesAdd(w, 8, 8);
  }

  lemma HalfTimesTop(w: word)
    ensures HalfTimes(w, 31) == w >> 31
  {
    hide HalfTimes;
    HalfTimesSixteen(w);
    HalfTimesAdd(w, 16, 15);
    var v := w >> 16;
    HalfTimesEight(v);
    HalfTimesAdd(v, 8, 7);
    var u := v >> 8;
    HalfTimesFour(u);
    HalfTimesAdd(u, 4, 3);
    HalfTimesFour(u >> 4);
  }

  lemma {:induction false} ZeroOn(w: word, n: nat, m: nat)
    requires HalfTimes(w, n) == 0
    ensures HalfTimes(w, n + m) == 0
  {
    if m > 0 { ZeroOn(w, n, m - 1); }
  }

  lemma TopClear(w: word, n: nat)
    requires HalfTimes(w, n) == 0 && n < 32
    ensures Half(Twice(w)) == w && Step(Twice(w)) == w
  {
    ZeroOn(w, n, 31 - n);
    HalfTimesTop(w);
    ShiftBack(w);
  }

  lemma ShiftBack(w: word)
    requires w >> 31 == 0
    ensures Half(Twice(w)) == w && Step(Twice(w)) == w
  {
    LowClear(w);
    TwiceHalved(w);
  }

  lemma TwiceHalved(w: word)
    requires w >> 31 == 0
    ensures (w << 1) >> 1 == w
  {
  }

  lemma LowClear(w: word)
    ensures (w << 1) & 1 == 0
  {
  }

  /** The number fits as many bits as there are. */
  lemma {:induction false} ValueFits(bits: seq<bool>)
    requires |bits| <= 32
    ensures HalfTimes(Value(bits), |bits|) == 0
  {
    if bits != [] {
      var v := Value(bits[1..]);
      ValueFits(bits[1..]);
      TopClear(v, |bits| - 1);
      LowBit(bits[0], v);
      HalfTimesAdd(Value(bits), 1, |bits| - 1);
      assert HalfTimes(Value(bits), 1) == Half(HalfTimes(Value(bits), 0));
    }
  }

  function Lowest(w: word): word { w & 1 }

  lemma LowBit(c: bool, v: word)
    requires Half(Twice(v)) == v
    ensures Half(Xor(Bit(c), Twice(v))) == v && Lowest(Xor(Bit(c), Twice(v))) == Bit(c)
  {
  }

  /** Different strings of up to 32 bits are different numbers. */
  lemma {:induction false} ValueInjective(x: seq<bool>, y: seq<bool>)
    requires |x| == |y| <= 32 && Value(x) == Value(y)
    ensures x == y
  {
    hide Value, Xor, Bit, Half, HalfTimes, Lowest, Step;
    if x != [] {
      ValueParts(x);
      ValueParts(y);
      BitInjective(x[0], y[0]);
      ValueInjective(x[1..], y[1..]);
      assert x == [x[0]] + x[1..] && y == [y[0]] + y[1..];
    }
  }

  lemma ValueParts(x: seq<bool>)
    requires 0 < |x| <= 32
    ensures Lowest(Value(x)) == Bit(x[0]) && Half(Value(x)) == Value(x[1..])
  {
    hide Xor, Bit, Half, HalfTimes, Lowest, Step, Twice;
    ValueFits(x[1..]);
    TopClear(Value(x[1..]), |x| - 1);
    LowBit(x[0], Value(x[1..]));
  }

  lemma BitInjective(c: bool, d: bool)
    ensures Bit(c) == Bit(d) ==> c == d
  {
  }

  /** Up to 32 bits can be put into the register at once. */
  lemma {:induction false} RegSteps(r: word, bits: seq<bool>)
    requires |bits| <= 32
    ensures Reg(r, bits) == Steps(Xor(r, Value(bits)), |bits|)
    decreases bits
  {
    if bits == [] {
      XorZero(r);
    } else {
      var c, v, n := Bit(bits[0]), Value(bits[1..]), |bits|;
      ValueFits(bits[1..]);
      TopClear(v, n - 1);
      RegSteps(Step(Xor(r, c)), bits[1..]);
      assert Value(bits) == Xor(c, Twice(v));
      hide Step, Steps, Xor, Bit, Value, HalfTimes, Half, Twice;
      StepLinear(Xor(r, c), Twice(v));
      XorAssoc(r, c, Twice(v));
      StepsFirst(Xor(r, Value(bits)), n);
    }
  }

  lemma StepsFirst(r: word, n: nat)
    requires n > 0
    ensures Steps(Step(r), n - 1) == Steps(r, n)
  {
    hide Step;
    StepsAdd(r, 1, n - 1);
    StepsNone(r);
    StepsNext(r, 1);
  }

  lemma XorZero(r: word)
    ensures Xor(r, 0) == r && Xor(0, r) == r
  {
  }

  lemma XorAssoc(a: word, b: word, c: word)
    ensures Xor(Xor(a, b), c) == Xor(a, Xor(b, c))
  {
  }

  // ----- bytes are bits

  lemma ValueFirst(b: bv8, n: nat)
    ensures Value(LowBits(b, n + 1)) == Xor(Bit(Odd(b)), Twice(Value(LowBits(Rest(b), n))))
  {
    hide Xor, Bit, Twice, Odd, Rest;
    assert LowBits(b, n + 1)[1..] == LowBits(Rest(b), n);
  }

  function Put(b: bv8, v: word): word { Xor(Bit(Odd(b)), Twice(v)) }

  /** The bits of a byte put together again. */
  function Joined(b: bv8): word {
    var c := Rest(b);
    var d := Rest(c);
    var e := Rest(d);
    var f := Rest(e);
    var g := Rest(f);
    var h := Rest(g);
    var i := Rest(h);
    Put(b, Put(c, Put(d, Put(e, Put(f, Put(g, Put(h, Put(i, 0))))))))
  }

  lemma JoinedIs(b: bv8)
    ensures Joined(b) == b as word
  {
  }

  lemma ValueJoined(b: bv8)
    ensures Value(BitsOf(b)) == Joined(b)
  {
    var c := Rest(b);
    var d := Rest(c);
    var e := Rest(d);
    var f := Rest(e);
    var g := Rest(f);
    var h := Rest(g);
    var i := Rest(h);
    assert Value(LowBits(Rest(i), 0)) == 0;
    hide Value, LowBits, Rest, Xor, Bit, Twice, Odd;
    ValueFirst(i, 0);
    ValueFirst(h, 1);
    ValueFirst(g, 2);
    ValueFirst(f, 3);
    ValueFirst(e, 4);
    ValueFirst(d, 5);
    ValueFirst(c, 6);
    ValueFirst(b, 7);
  }

  lemma ValueOfByte(b: bv8)
    ensures Value(BitsOf(b)) == b as word
  {
    hide Value, BitsOf, Joined;
    ValueJoined(b);
    JoinedIs(b);
  }

  lemma {:induction false} BytesAreBits(r: word, data: seq<bv8>)
    ensures Bytes(r, data) == Reg(r, AllBits(data))
    decreases data
  {
    hide Steps, Update, Step, Xor, Value, BitsOf;
    if data != [] {
      UpdateSteps(r, data[0]);
      ValueOfByte(data[0]);
      RegSteps(r, BitsOf(data[0]));
      BytesAreBits(Update(r, data[0]), data[1..]);
      RegAppend(r, BitsOf(data[0]), AllBits(data[1..]));
    }
  }

  // ----- the remainder of the polynomial, as clause 3.2.9 of IEEE Std 802.3 defines it

  /** The first 32 bits complemented. */
  function Complemented(bits: seq<bool>): (r: seq<bool>)
    ensures |r| == |bits|
  {
    seq(|bits|, k requires 0 <= k < |bits| => if k < 32 then !bits[k] else bits[k])
  }

  function Falses(n: nat): (s: seq<bool>)
    ensures |s| == n
  {
    seq(n, _ => false)
  }

  /** Multiplying by x^n is appending n zeros. */
  lemma {:induction false} RemTimes(bits: seq<bool>, n: nat)
    ensures Rem(bits + Falses(n)) == Steps(Rem(bits), n)
  {
    hide Step, Xor;
    if n == 0 {
      assert bits + Falses(0) == bits;
    } else {
      var s := bits + Falses(n);
      assert s[..|s| - 1] == bits + Falses(n - 1) && !s[|s| - 1];
      RemTimes(bits, n - 1);
      XorZero(Step(Steps(Rem(bits), n - 1)));
    }
  }

  function Four(w: word): word { Step(Step(Step(Step(w)))) }

  lemma Fours()
    ensures Four(0x80000000) == 0x08000000 && Four(0x08000000) == 0x00800000 && Four(0x00800000) == 0x00080000
    ensures Four(0x00080000) == 0x00008000 && Four(0x00008000) == 0x00000800 && Four(0x00000800) == 0x00000080
    ensures Four(0x00000080) == 0x00000008 && Four(0x00000008) == POLY
  {
  }

  lemma StepsBy(w: word, n: nat)
    ensures Steps(w, n + 4) == Four(Steps(w, n))
  {
    hide Step;
    StepsNext(w, n + 1);
    StepsNext(w, n + 2);
    StepsNext(w, n + 3);
    StepsNext(w, n + 4);
  }

  lemma StepsThirtyTwo(w: word)
    ensures Steps(w, 32) == Four(Four(Four(Four(Four(Four(Four(Four(w))))))))
  {
    hide Step, Four, Steps;
    StepsNone(w);
    StepsBy(w, 0);
    StepsBy(w, 4);
    StepsBy(w, 8);
    StepsBy(w, 12);
    StepsBy(w, 16);
    StepsBy(w, 20);
    StepsBy(w, 24);
    StepsBy(w, 28);
  }

  /** x^32 is the rest of G(x). */
  lemma TopTimes()
    ensures Steps(0x80000000, 32) == POLY
  {
    hide Step, Four, Steps;
    Fours();
    StepsThirtyTwo(0x80000000);
  }

  lemma {:induction false} StepsZero(n: nat)
    ensures Steps(0, n) == 0
  {
    if n > 0 { StepsZero(n - 1); }
  }

  lemma StepBit(b: bool)
    ensures Step(Bit(b)) == if b then POLY else 0
  {
  }

  lemma RegRemNone()
    ensures Reg(0, []) == 0 && Rem([]) == 0
  {
  }

  lemma RegOne(r: word, b: bool)
    ensures Reg(r, [b]) == Step(Xor(r, Bit(b)))
  {
  }

  lemma RemMore(s: seq<bool>, b: bool)
    ensures Rem(s + [b]) == Xor(Step(Rem(s)), if b then 0x80000000 else 0)
  {
    assert (s + [b])[..|s|] == s;
  }

  /** The register, from 0 on, holds the polynomial times x^32, modulo G(x). */
  lemma {:induction false} RegIsRem(bits: seq<bool>)
    ensures Reg(0, bits) == Steps(Rem(bits), 32)
  {
    hide Step, Steps, Xor, Reg, Rem, Bit;
    if bits == [] {
      StepsZero(32);
      RegRemNone();
    } else {
      var s, b := bits[..|bits| - 1], bits[|bits| - 1];
      var top: word := if b then 0x80000000 else 0;
      assert bits == s + [b];
      RegOne(Reg(0, s), b);
      RemMore(s, b);
      RegIsRem(s);
      RegAppend(0, s, [b]);
      TopTimes();
      StepsZero(32);
      StepLinear(Reg(0, s), Bit(b));
      StepBit(b);
      StepsLinear(Step(Rem(s)), top, 32);
      StepsFirst(Rem(s), 33);
      StepsNext(Rem(s), 33);
    }
  }

  lemma {:induction false} ValueNot(x: seq<bool>, y: seq<bool>)
    requires |x| == |y| && forall k :: 0 <= k < |x| ==> y[k] == !x[k]
    ensures Value(y) == Xor(Value(x), Mask(|x|))
  {
    if x == [] {
      XorZero(0);
    } else {
      ValueNot(x[1..], y[1..]);
      NotBit(x[0], Value(x[1..]), Mask(|x| - 1));
    }
  }

  function Mask(n: nat): word {
    if n == 0 then 0 else Xor(1, Twice(Mask(n - 1)))
  }

  lemma NotBit(c: bool, v: word, m: word)
    ensures Xor(Bit(!c), Twice(Xor(v, m))) == Xor(Xor(Bit(c), Twice(v)), Xor(1, Twice(m)))
  {
    hide Xor, Twice;
    assert Bit(!c) == Xor(Bit(c), 1) by { BitFlip(c); }
    TwiceXor(v, m);
    XorPairs(Bit(c), 1, Twice(v), Twice(m));
  }

  lemma BitFlip(c: bool)
    ensures Bit(!c) == Xor(Bit(c), 1)
  {
  }

  lemma TwiceXor(v: word, m: word)
    ensures Twice(Xor(v, m)) == Xor(Twice(v), Twice(m))
  {
  }

  lemma MaskFull()
    ensures Mask(32) == ONES
  {
    assert Mask(4) == 0xF;
    assert Mask(8) == 0xFF;
    assert Mask(12) == 0xFFF;
    assert Mask(16) == 0xFFFF;
    assert Mask(20) == 0xFFFFF;
    assert Mask(24) == 0xFFFFFF;
    assert Mask(28) == 0xFFFFFFF;
  }

  /** Starting from ones complements the first 32 bits. */
  lemma RegComplemented(bits: seq<bool>)
    requires |bits| >= 32
    ensures Reg(ONES, bits) == Reg(0, Complemented(bits))
  {
    hide Reg, Steps, Value, Xor, Mask, Step;
    var x, y, rest := bits[..32], Complemented(bits)[..32], bits[32..];
    ComplementedParts(bits);
    RegAppend(ONES, x, rest);
    RegAppend(0, y, rest);
    RegSteps(ONES, x);
    RegSteps(0, y);
    ValueNot(x, y);
    MaskFull();
    XorZero(Value(y));
    XorSwap(Value(x), ONES);
  }

  lemma ComplementedParts(bits: seq<bool>)
    requires |bits| >= 32
    ensures var x, y, rest := bits[..32], Complemented(bits)[..32], bits[32..];
            bits == x + rest && Complemented(bits) == y + rest && forall k :: 0 <= k < |x| ==> y[k] == !x[k]
  {
  }

  lemma XorSwap(a: word, b: word)
    ensures Xor(a, b) == Xor(b, a)
  {
  }

  /** What crc32_byte computes. */
  function Fcs(data: seq<bv8>): word { Not(Bytes(ONES, data)) }

  function Not(w: word): word { !w }

  /** The frame check sequence is the complement of the remainder of the polynomial of the frame,
      with its first 32 bits complemented, times x^32, divided by G(x). */
  lemma FcsIsRemainder(data: seq<bv8>)
    requires |data| >= 4
    ensures Not(Fcs(data)) == Rem(Complemented(AllBits(data)) + Falses(32))
  {
    hide Bytes, Not, Reg, Rem, Steps, AllBits;
    var bits := AllBits(data);
    NotNot(Bytes(ONES, data));
    BytesAreBits(ONES, data);
    RegComplemented(bits);
    RegIsRem(Complemented(bits));
    RemTimes(Complemented(bits), 32);
  }

  lemma NotNot(r: word)
    ensures Not(Not(r)) == r
  {
  }

  // ----- the residue

  function Byte0(w: word): bv8 { (w & 0xFF) as bv8 }

  /** A word in memory, low byte first. */
  function Le(w: word): (s: seq<bv8>)
    ensures |s| == 4
  {
    [Byte0(w), Byte0(w >> 8), Byte0(w >> 16), Byte0(w >> 24)]
  }

  /** Parts of a word: its bytes where they are, and shifted down. */
  function At8(b: bv8): word { (b as word) << 8 }
  function At16(b: bv8): word { (b as word) << 16 }
  function At24(b: bv8): word { (b as word) << 24 }

  lemma BytesShift(b: bv8)
    ensures LowZero(At8(b)) && LowZero(At16(b)) && LowZero(At24(b))
    ensures Shr8(At24(b)) == At16(b) && Shr8(At16(b)) == At8(b) && Shr8(At8(b)) == b as word
  {
  }

  lemma LeJoin(w: word)
    ensures Xor(Xor(Xor(Byte0(w) as word, At8(Byte0(w >> 8))), At16(Byte0(w >> 16))), At24(Byte0(w >> 24))) == w
  {
  }

  /** The next bytes, shifted up, can be put in with the first. */
  lemma StepsAhead(r: word, h: word)
    requires LowZero(h)
    ensures Xor(Steps(r, 8), Shr8(h)) == Steps(Xor(r, h), 8)
  {
    hide Steps, Xor;
    StepsHigh(h);
    StepsLinear(r, h, 8);
  }

  lemma BytesOfFour(r: word, a: bv8, b: bv8, c: bv8, d: bv8)
    ensures Bytes(r, [a, b, c, d]) == Update(Update(Update(Update(r, a), b), c), d)
  {
    hide Update, Bytes;
    assert [a, b, c, d][1..] == [b, c, d] && [b, c, d][1..] == [c, d] && [c, d][1..] == [d] && [d][1..] == [];
    BytesFirst(r, [a, b, c, d]);
    BytesFirst(Update(r, a), [b, c, d]);
    BytesFirst(Update(Update(r, a), b), [c, d]);
    BytesFirst(Update(Update(Update(r, a), b), c), [d]);
  }

  lemma BytesFirst(r: word, s: seq<bv8>)
    requires s != []
    ensures Bytes(r, s) == Bytes(Update(r, s[0]), s[1..])
    ensures Bytes(Update(r, s[0]), []) == Update(r, s[0])
  {
    hide Update;
  }

  lemma UpdateFour(r: word, a: bv8, b: bv8, c: bv8, d: bv8)
    ensures Update(Update(Update(Update(r, a), b), c), d)
            == Steps(Xor(Xor(Xor(Xor(r, a as word), At8(b)), At16(c)), At24(d)), 32)
  {
    hide Update, Steps, Xor, LowZero, Shr8, At8, At16, At24;
    var r1 := Xor(r, a as word);
    UpdateSteps(r, a);
    BytesShift(b);
    BytesShift(c);
    BytesShift(d);
    var r2 := Xor(r1, At8(b));
    StepsAhead(r1, At8(b));
    UpdateSteps(Steps(r1, 8), b);
    StepsAdd(r2, 8, 8);
    var r3 := Xor(r2, At16(c));
    StepsAhead(r2, At16(c));
    StepsAhead(Steps(r2, 8), At8(c));
    UpdateSteps(Steps(r2, 16), c);
    StepsAdd(r3, 8, 8);
    StepsAdd(r3, 16, 8);
    var r4 := Xor(r3, At24(d));
    StepsAhead(r3, At24(d));
    StepsAhead(Steps(r3, 8), At16(d));
    StepsAdd(r3, 16, 8);
    StepsAhead(Steps(r3, 16), At8(d));
    UpdateSteps(Steps(r3, 24), d);
    StepsAdd(r4, 8, 8);
    StepsAdd(r4, 16, 8);
    StepsAdd(r4, 24, 8);
  }

  /** Four bytes of a word, low byte first, can be taken in at once. */
  lemma WordSteps(r: word, w: word)
    ensures Bytes(r, Le(w)) == Steps(Xor(r, w), 32)
  {
    hide Update, Steps, Xor, Bytes, Byte0, At8, At16, At24;
    var a, b, c, d := Byte0(w), Byte0(w >> 8), Byte0(w >> 16), Byte0(w >> 24);
    BytesOfFour(r, a, b, c, d);
    UpdateFour(r, a, b, c, d);
    LeJoin(w);
    XorAssoc(r, a as word, At8(b));
    XorAssoc(r, Xor(a as word, At8(b)), At16(c));
    XorAssoc(r, Xor(Xor(a as word, At8(b)), At16(c)), At24(d));
  }

  lemma OnesTimes()
    ensures Steps(ONES, 32) == RESIDUE
  {
    hide Step, Four, Steps;
    StepsThirtyTwo(ONES);
    OnesFours();
  }

  lemma OnesFours()
    ensures Four(0xFFFFFFFF) == 0xB2420DE3 && Four(0xB2420DE3) == 0x2DFD1072
    ensures Four(0x2DFD1072) == 0x39B1F1CF && Four(0x39B1F1CF) == 0xBE26ED00
    ensures Four(0xBE26ED00) == 0x0BE26ED0 && Four(0x0BE26ED0) == 0x00BE26ED
    ensures Four(0x00BE26ED) == 0x86D830BA && Four(0x86D830BA) == 0xDEBB20E3
  {
  }

  /** A frame followed by four bytes leaves the residue in the register if and only if they are
      its frame check sequence, low byte first. */
  lemma ResidueIff(data: seq<bv8>, w: word)
    ensures Bytes(ONES, data + Le(w)) == RESIDUE <==> w == Fcs(data)
  {
    hide Bytes, Steps, Xor, Le, Not;
    var r := Bytes(ONES, data);
    BytesAppend(ONES, data, Le(w));
    WordSteps(r, w);
    OnesTimes();
    XorOnes(r, w);
    if Steps(Xor(r, w), 32) == Steps(ONES, 32) {
      StepsInjective(Xor(r, w), ONES, 32);
    }
  }

  lemma XorOnes(r: word, w: word)
    ensures Xor(r, w) == ONES <==> w == Not(r)
  {
    hide Xor, Not;
    XorNot(r);
    if Xor(r, w) == ONES {
      XorSwap(r, w);
      XorSwap(r, Not(r));
      XorInjective(w, Not(r), r);
    }
  }

  lemma XorNot(r: word)
    ensures Xor(r, Not(r)) == ONES
  {
  }

  // ----- errors

  lemma {:induction false} RegInjective(r: word, r': word, bits: seq<bool>)
    requires Reg(r, bits) == Reg(r', bits)
    ensures r == r'
    decreases bits
  {
    if bits != [] {
      var c := Bit(bits[0]);
      RegInjective(Step(Xor(r, c)), Step(Xor(r', c)), bits[1..]);
      hide Step, Reg, Xor, Bit;
      StepInjective(Xor(r, c), Xor(r', c));
      XorInjective(r, r', c);
    }
  }

  lemma XorInjective(a: word, b: word, c: word)
    requires Xor(a, c) == Xor(b, c)
    ensures a == b
  {
  }

  /** Bit strings that differ only within 32 consecutive bits leave the register different. */
  lemma BurstDetected(r: word, before: seq<bool>, x: seq<bool>, y: seq<bool>, after: seq<bool>)
    requires |x| == |y| <= 32 && x != y
    ensures Reg(r, before + x + after) != Reg(r, before + y + after)
  {
    hide Reg, Steps, Value, Xor;
    var s := Reg(r, before);
    RegAppend(r, before + x, after);
    RegAppend(r, before + y, after);
    RegAppend(r, before, x);
    RegAppend(r, before, y);
    RegSteps(s, x);
    RegSteps(s, y);
    if Reg(r, before + x + after) == Reg(r, before + y + after) {
      RegInjective(Reg(s, x), Reg(s, y), after);
      StepsInjective(Xor(s, Value(x)), Xor(s, Value(y)), |x|);
      XorSwap(s, Value(x));
      XorSwap(s, Value(y));
      XorInjective(Value(x), Value(y), s);
      ValueInjective(x, y);
    }
  }

  lemma {:induction false} AllBitsInjective(a: seq<bv8>, b: seq<bv8>)
    requires AllBits(a) == AllBits(b)
    ensures a == b
  {
    hide BitsOf, Value;
    if a != [] {
      var s, s' := AllBits(a), AllBits(b);
      assert |a| == |b|;
      assert s == BitsOf(a[0]) + AllBits(a[1..]) && s' == BitsOf(b[0]) + AllBits(b[1..]);
      assert BitsOf(a[0]) == s[..8] == BitsOf(b[0]);
      assert AllBits(a[1..]) == s[8..] == AllBits(b[1..]);
      ValueOfByte(a[0]);
      ValueOfByte(b[0]);
      ByteOfWord(a[0], b[0]);
      AllBitsInjective(a[1..], b[1..]);
    }
  }

  lemma ByteOfWord(a: bv8, b: bv8)
    ensures a as word == b as word ==> a == b
  {
  }

  lemma NotInjective(a: word, b: word)
    ensures Not(a) == Not(b) ==> a == b
  {
  }

  /** Two messages of the same length that differ, but only within 32 consecutive bits, have
      different check sequences. */
  lemma BurstFcs(m: seq<bv8>, m': seq<bv8>, at: nat)
    requires |m| == |m'| && m != m'
    requires forall k :: 0 <= k < 8 * |m| && !(at <= k < at + 32) ==> AllBits(m)[k] == AllBits(m')[k]
    ensures Fcs(m) != Fcs(m')
  {
    hide AllBits, Bytes, Reg, Not;
    var s, s' := AllBits(m), AllBits(m');
    var lo := if at < |s| then at else |s|;
    var hi := if lo + 32 < |s| then lo + 32 else |s|;
    if s == s' { AllBitsInjective(m, m'); }
    var x, y := s[lo..hi], s'[lo..hi];
    assert s == s[..lo] + x + s[hi..];
    assert s' == s[..lo] + y + s[hi..] by {
      assert s'[..lo] == s[..lo] && s'[hi..] == s[hi..];
      assert s' == s'[..lo] + y + s'[hi..];
    }
    BurstDetected(ONES, s[..lo], x, y, s[hi..]);
    BytesAreBits(ONES, m);
    BytesAreBits(ONES, m');
    NotInjective(Bytes(ONES, m), Bytes(ONES, m'));
  }

  // ----- the kernel's code

  /** A word from its bytes in memory. */
  function FromLe(b: seq<bv8>): word
    requires |b| == 4
  {
    Xor(Xor(Xor(b[0] as word, At8(b[1])), At16(b[2])), At24(b[3]))
  }

  function Xor8(a: bv8, b: bv8): bv8 { a ^ b }

  lemma ShiftsXor(x: bv8, y: bv8)
    ensures Xor8(x, y) as word == Xor(x as word, y as word) && At8(Xor8(x, y)) == Xor(At8(x), At8(y))
    ensures At16(Xor8(x, y)) == Xor(At16(x), At16(y)) && At24(Xor8(x, y)) == Xor(At24(x), At24(y))
  {
  }

  lemma XorPairs(a: word, m: word, b: word, n: word)
    ensures Xor(Xor(a, m), Xor(b, n)) == Xor(Xor(a, b), Xor(m, n))
  {
    hide Xor;
    XorAssoc(a, m, Xor(b, n));
    XorAssoc(m, b, n);
    XorSwap(m, b);
    XorAssoc(b, m, n);
    XorAssoc(a, b, Xor(m, n));
  }

  lemma FromLeXor(a: word, b: word)
    ensures Xor(Xor(Xor(Xor8(Byte0(a), Byte0(b)) as word, At8(Xor8(Byte0(a >> 8), Byte0(b >> 8)))),
                    At16(Xor8(Byte0(a >> 16), Byte0(b >> 16)))), At24(Xor8(Byte0(a >> 24), Byte0(b >> 24))))
            == Xor(a, b)
  {
    hide Xor, Byte0, At8, At16, At24, Xor8;
    LeJoin(a);
    LeJoin(b);
    ShiftsXor(Byte0(a), Byte0(b));
    ShiftsXor(Byte0(a >> 8), Byte0(b >> 8));
    ShiftsXor(Byte0(a >> 16), Byte0(b >> 16));
    ShiftsXor(Byte0(a >> 24), Byte0(b >> 24));
    var a1, b1 := Xor(Byte0(a) as word, At8(Byte0(a >> 8))), Xor(Byte0(b) as word, At8(Byte0(b >> 8)));
    XorPairs(Byte0(a) as word, At8(Byte0(a >> 8)), Byte0(b) as word, At8(Byte0(b >> 8)));
    XorPairs(a1, At16(Byte0(a >> 16)), b1, At16(Byte0(b >> 16)));
    XorPairs(Xor(a1, At16(Byte0(a >> 16))), At24(Byte0(a >> 24)), Xor(b1, At16(Byte0(b >> 16))), At24(Byte0(b >> 24)));
  }

  /** Byte by byte, as the compiler has no such operation on longs. */
  method Xor32(a: word, b: word) returns (r: word)
    ensures r == Xor(a, b)
  {
    hide Xor, Byte0, At8, At16, At24, Xor8, FromLe;
    var pa, pb := Le(a), Le(b);
    var pr: seq<bv8> := [0, 0, 0, 0];
    for i := 0 to 4
      invariant |pr| == 4 && forall k :: 0 <= k < i ==> pr[k] == Xor8(pa[k], pb[k])
    {
      pr := pr[i := Xor8(pa[i], pb[i])];
    }
    FromLeXored(a, b, pr);
    r := FromLe(pr);
  }

  lemma FromLeXored(a: word, b: word, r: seq<bv8>)
    requires |r| == 4 && forall k :: 0 <= k < 4 ==> r[k] == Xor8(Le(a)[k], Le(b)[k])
    ensures FromLe(r) == Xor(a, b)
  {
    hide Xor, Byte0, At8, At16, At24, Xor8;
    FromLeXor(a, b);
    assert r[0] == Xor8(Le(a)[0], Le(b)[0]) && r[1] == Xor8(Le(a)[1], Le(b)[1]);
    assert r[2] == Xor8(Le(a)[2], Le(b)[2]) && r[3] == Xor8(Le(a)[3], Le(b)[3]);
  }

  method Crc32Byte(p: array<bv8>, bytelength: nat) returns (r: word)
    requires bytelength <= p.Length
    ensures r == Fcs(p[..bytelength])
  {
    hide Xor, Bytes, Poly8, Index, Shr8;
    var crc := ONES;
    var left, k := bytelength, 0;
    BytesNone();
    while left != 0
      invariant k + left == bytelength && crc == Bytes(ONES, p[..k])
    {
      left := left - 1;
      BytesNext(p[..k + 1]);
      assert p[..k + 1][..k] == p[..k];
      crc := Xor32(Poly8(Index(crc, p[k])), Shr8(crc));
      k := k + 1;
    }
    return Not(crc);
  }

  lemma BytesNone()
    ensures Bytes(ONES, []) == ONES
  {
  }

  lemma BytesNext(s: seq<bv8>)
    requires s != []
    ensures Bytes(ONES, s) == Update(Bytes(ONES, s[..|s| - 1]), s[|s| - 1])
  {
    hide Update;
    var x, b := s[..|s| - 1], s[|s| - 1];
    assert s == x + [b];
    BytesAppend(ONES, x, [b]);
    BytesFirst(Bytes(ONES, x), [b]);
  }

  const ETH_HDR_LEN: nat := 14

  function Swapped(x: bv16): bv16 { ((x & 0xFF) << 8) | (x >> 8) }

  /** A 16-bit number in memory, low byte first. */
  function Le16(x: bv16): seq<bv8> { [(x & 0xFF) as bv8, (x >> 8) as bv8] }

  /** What goes out for a packet: addresses, type high byte first, data, check sequence. */
  function Frame(dst: seq<bv8>, src: seq<bv8>, kind: bv16, data: seq<bv8>): seq<bv8> {
    var body := dst + src + [(kind >> 8) as bv8, (kind & 0xFF) as bv8] + data;
    body + Le(Fcs(body))
  }

  lemma LeBack(w: word)
    ensures FromLe(Le(w)) == w
  {
    hide Xor, Byte0, At8, At16, At24;
    LeJoin(w);
  }

  lemma KindBytes(kind: bv16)
    ensures (kind >> 8) as bv8 as int * 256 + (kind & 0xFF) as bv8 as int == kind as int
  {
  }

  lemma FrameParts(dst: seq<bv8>, src: seq<bv8>, h: bv8, l: bv8, data: seq<bv8>, c: seq<bv8>)
    requires |dst| == |src| == 6 && |c| == 4
    ensures var b := dst + src + [h, l] + data; var f := b + c;
            && |b| == 14 + |data| && f[..6] == dst && f[6..12] == src && f[12] == h && f[13] == l
            && f[14..|b|] == data && f[|b|..] == c && f[..|b|] == b
  {
  }

  /** Where a receiver finds what was sent: destination, source, type with its high byte first, data,
      and a check sequence of four bytes, low byte first, over everything before it. */
  lemma FrameFields(dst: seq<bv8>, src: seq<bv8>, kind: bv16, data: seq<bv8>)
    requires |dst| == |src| == 6
    ensures var f := Frame(dst, src, kind, data);
            var n := |f| - 4;
            && n == 14 + |data| && f[..6] == dst && f[6..12] == src
            && f[12] as int * 256 + f[13] as int == kind as int && f[14..n] == data
            && FromLe(f[n..]) == Fcs(f[..n])
  {
    hide Fcs, Le, FromLe;
    var h, l := (kind >> 8) as bv8, (kind & 0xFF) as bv8;
    KindBytes(kind);
    var fcs := Fcs(dst + src + [h, l] + data);
    LeBack(fcs);
    FrameParts(dst, src, h, l, data, Le(fcs));
  }

  lemma SwappedBytes(x: bv16)
    ensures Le16(Swapped(x)) == [(x >> 8) as bv8, (x & 0xFF) as bv8]
  {
  }

  /** Moves the data up within its own buffer and puts the header before it. */
  method EthHeader(dst_mac: array<bv8>, local_mac: array<bv8>, kind: bv16, data: array<bv8>, len: nat)
    requires dst_mac.Length == local_mac.Length == 6 && dst_mac != data && local_mac != data
    requires ETH_HDR_LEN + len <= data.Length
    modifies data
    ensures data[..ETH_HDR_LEN + len] == dst_mac[..] + local_mac[..] + Le16(Swapped(kind)) + old(data[..len])
  {
    hide Swapped;
    ghost var was := data[..];
    Memory.Memcpy(data, ETH_HDR_LEN, data, 0, len);
    Memory.Memcpy(data, 0, dst_mac, 0, 6);
    Memory.Memcpy(data, 6, local_mac, 0, 6);
    var t := Le16(Swapped(kind));
    data[12] := t[0];
    data[13] := t[1];
    HeaderPlaced(was, data[..], dst_mac[..], local_mac[..], t, len);
  }

  lemma HeaderPlaced(was: seq<bv8>, now: seq<bv8>, dst: seq<bv8>, src: seq<bv8>, t: seq<bv8>, len: nat)
    requires |dst| == |src| == 6 && |t| == 2 && ETH_HDR_LEN + len <= |was| == |now|
    requires forall k :: 0 <= k < 6 ==> now[k] == dst[k]
    requires forall k :: 6 <= k < 12 ==> now[k] == src[k - 6]
    requires now[12] == t[0] && now[13] == t[1]
    requires forall k :: ETH_HDR_LEN <= k < ETH_HDR_LEN + len ==> now[k] == was[k - ETH_HDR_LEN]
    ensures now[..ETH_HDR_LEN + len] == dst + src + t + was[..len]
  {
  }

  /** eth_send up to handing the frame over. */
  method EthFrame(dst_mac: array<bv8>, local_mac: array<bv8>, kind: bv16, data: array<bv8>, len: nat)
    requires dst_mac.Length == local_mac.Length == 6 && dst_mac != data && local_mac != data
    requires ETH_HDR_LEN + len + 4 <= data.Length
    modifies data
    ensures data[..ETH_HDR_LEN + len + 4] == Frame(dst_mac[..], local_mac[..], kind, old(data[..len]))
  {
    hide Swapped, Fcs, Le;
    EthHeader(dst_mac, local_mac, kind, data, len);
    ghost var body := data[..ETH_HDR_LEN + len];
    SwappedBytes(kind);
    var eth_crc := Crc32Byte(data, ETH_HDR_LEN + len);
    var fcs := Le(eth_crc);
    var bytes := new bv8[4](i requires 0 <= i < 4 => fcs[i]);
    assert bytes[0..0 + 4] == fcs;
    Memory.Memcpy(data, ETH_HDR_LEN + len, bytes, 0, 4);
    assert data[..ETH_HDR_LEN + len + 4] == body + fcs;
  }

  /** A receiver that runs the same check over the whole frame gets the residue. */
  lemma FrameChecks(dst: seq<bv8>, src: seq<bv8>, kind: bv16, data: seq<bv8>)
    ensures Bytes(ONES, Frame(dst, src, kind, data)) == RESIDUE
  {
    var body := dst + src + [(kind >> 8) as bv8, (kind & 0xFF) as bv8] + data;
    ResidueIff(body, Fcs(body));
  }
}
