/**
  rdcrc32.c and rdcrc32.h: the table-driven update against the bit-at-a-time register of the
  reflected polynomial 0xEDB88320, and what the checksum detects.
 */
module Crc32 {
  import opened Basics

  type Word = bv32

  const POLY: Word := 0xedb88320

  // ---------- The table ----------

  function Row(i: Octet, a: Word, b: Word, c: Word, d: Word): Word {
    if i & 3 == 0 then a else if i & 3 == 1 then b else if i & 3 == 2 then c else d
  }

  /** crc_table[i], four entries a line as in the source. */
  function CrcTable(i: Octet): Word {
    if i < 0x04 then Row(i, 0x00000000, 0x77073096, 0xee0e612c, 0x990951ba)
    else if i < 0x08 then Row(i, 0x076dc419, 0x706af48f, 0xe963a535, 0x9e6495a3)
    else if i < 0x0c then Row(i, 0x0edb8832, 0x79dcb8a4, 0xe0d5e91e, 0x97d2d988)
    else if i < 0x10 then Row(i, 0x09b64c2b, 0x7eb17cbd, 0xe7b82d07, 0x90bf1d91)
    else if i < 0x14 then Row(i, 0x1db71064, 0x6ab020f2, 0xf3b97148, 0x84be41de)
    else if i < 0x18 then Row(i, 0x1adad47d, 0x6ddde4eb, 0xf4d4b551, 0x83d385c7)
    else if i < 0x1c then Row(i, 0x136c9856, 0x646ba8c0, 0xfd62f97a, 0x8a65c9ec)
    else if i < 0x20 then Row(i, 0x14015c4f, 0x63066cd9, 0xfa0f3d63, 0x8d080df5)
    else if i < 0x24 then Row(i, 0x3b6e20c8, 0x4c69105e, 0xd56041e4, 0xa2677172)
    else if i < 0x28 then Row(i, 0x3c03e4d1, 0x4b04d447, 0xd20d85fd, 0xa50ab56b)
    else if i < 0x2c then Row(i, 0x35b5a8fa, 0x42b2986c, 0xdbbbc9d6, 0xacbcf940)
    else if i < 0x30 then Row(i, 0x32d86ce3, 0x45df5c75, 0xdcd60dcf, 0xabd13d59)
    else if i < 0x34 then Row(i, 0x26d930ac, 0x51de003a, 0xc8d75180, 0xbfd06116)
    else if i < 0x38 then Row(i, 0x21b4f4b5, 0x56b3c423, 0xcfba9599, 0xb8bda50f)
    else if i < 0x3c then Row(i, 0x2802b89e, 0x5f058808, 0xc60cd9b2, 0xb10be924)
    else if i < 0x40 then Row(i, 0x2f6f7c87, 0x58684c11, 0xc1611dab, 0xb6662d3d)
    else if i < 0x44 then Row(i, 0x76dc4190, 0x01db7106, 0x98d220bc, 0xefd5102a)
    else if i < 0x48 then Row(i, 0x71b18589, 0x06b6b51f, 0x9fbfe4a5, 0xe8b8d433)
    else if i < 0x4c then Row(i, 0x7807c9a2, 0x0f00f934, 0x9609a88e, 0xe10e9818)
    else if i < 0x50 then Row(i, 0x7f6a0dbb, 0x086d3d2d, 0x91646c97, 0xe6635c01)
    else if i < 0x54 then Row(i, 0x6b6b51f4, 0x1c6c6162, 0x856530d8, 0xf262004e)
    else if i < 0x58 then Row(i, 0x6c0695ed, 0x1b01a57b, 0x8208f4c1, 0xf50fc457)
    else if i < 0x5c then Row(i, 0x65b0d9c6, 0x12b7e950, 0x8bbeb8ea, 0xfcb9887c)
    else if i < 0x60 then Row(i, 0x62dd1ddf, 0x15da2d49, 0x8cd37cf3, 0xfbd44c65)
    else if i < 0x64 then Row(i, 0x4db26158, 0x3ab551ce, 0xa3bc0074, 0xd4bb30e2)
    else if i < 0x68 then Row(i, 0x4adfa541, 0x3dd895d7, 0xa4d1c46d, 0xd3d6f4fb)
    else if i < 0x6c then Row(i, 0x4369e96a, 0x346ed9fc, 0xad678846, 0xda60b8d0)
    else if i < 0x70 then Row(i, 0x44042d73, 0x33031de5, 0xaa0a4c5f, 0xdd0d7cc9)
    else if i < 0x74 then Row(i, 0x5005713c, 0x270241aa, 0xbe0b1010, 0xc90c2086)
    else if i < 0x78 then Row(i, 0x5768b525, 0x206f85b3, 0xb966d409, 0xce61e49f)
    else if i < 0x7c then Row(i, 0x5edef90e, 0x29d9c998, 0xb0d09822, 0xc7d7a8b4)
    else if i < 0x80 then Row(i, 0x59b33d17, 0x2eb40d81, 0xb7bd5c3b, 0xc0ba6cad)
    else if i < 0x84 then Row(i, 0xedb88320, 0x9abfb3b6, 0x03b6e20c, 0x74b1d29a)
    else if i < 0x88 then Row(i, 0xead54739, 0x9dd277af, 0x04db2615, 0x73dc1683)
    else if i < 0x8c then Row(i, 0xe3630b12, 0x94643b84, 0x0d6d6a3e, 0x7a6a5aa8)
    else if i < 0x90 then Row(i, 0xe40ecf0b, 0x9309ff9d, 0x0a00ae27, 0x7d079eb1)
    else if i < 0x94 then Row(i, 0xf00f9344, 0x8708a3d2, 0x1e01f268, 0x6906c2fe)
    else if i < 0x98 then Row(i, 0xf762575d, 0x806567cb, 0x196c3671, 0x6e6b06e7)
    else if i < 0x9c then Row(i, 0xfed41b76, 0x89d32be0, 0x10da7a5a, 0x67dd4acc)
    else if i < 0xa0 then Row(i, 0xf9b9df6f, 0x8ebeeff9, 0x17b7be43, 0x60b08ed5)
    else if i < 0xa4 then Row(i, 0xd6d6a3e8, 0xa1d1937e, 0x38d8c2c4, 0x4fdff252)
    else if i < 0xa8 then Row(i, 0xd1bb67f1, 0xa6bc5767, 0x3fb506dd, 0x48b2364b)
    else if i < 0xac then Row(i, 0xd80d2bda, 0xaf0a1b4c, 0x36034af6, 0x41047a60)
    else if i < 0xb0 then Row(i, 0xdf60efc3, 0xa867df55, 0x316e8eef, 0x4669be79)
    else if i < 0xb4 then Row(i, 0xcb61b38c, 0xbc66831a, 0x256fd2a0, 0x5268e236)
    else if i < 0xb8 then Row(i, 0xcc0c7795, 0xbb0b4703, 0x220216b9, 0x5505262f)
    else if i < 0xbc then Row(i, 0xc5ba3bbe, 0xb2bd0b28, 0x2bb45a92, 0x5cb36a04)
    else if i < 0xc0 then Row(i, 0xc2d7ffa7, 0xb5d0cf31, 0x2cd99e8b, 0x5bdeae1d)
    else if i < 0xc4 then Row(i, 0x9b64c2b0, 0xec63f226, 0x756aa39c, 0x026d930a)
    else if i < 0xc8 then Row(i, 0x9c0906a9, 0xeb0e363f, 0x72076785, 0x05005713)
    else if i < 0xcc then Row(i, 0x95bf4a82, 0xe2b87a14, 0x7bb12bae, 0x0cb61b38)
    else if i < 0xd0 then Row(i, 0x92d28e9b, 0xe5d5be0d, 0x7cdcefb7, 0x0bdbdf21)
    else if i < 0xd4 then Row(i, 0x86d3d2d4, 0xf1d4e242, 0x68ddb3f8, 0x1fda836e)
    else if i < 0xd8 then Row(i, 0x81be16cd, 0xf6b9265b, 0x6fb077e1, 0x18b74777)
    else if i < 0xdc then Row(i, 0x88085ae6, 0xff0f6a70, 0x66063bca, 0x11010b5c)
    else if i < 0xe0 then Row(i, 0x8f659eff, 0xf862ae69, 0x616bffd3, 0x166ccf45)
    else if i < 0xe4 then Row(i, 0xa00ae278, 0xd70dd2ee, 0x4e048354, 0x3903b3c2)
    else if i < 0xe8 then Row(i, 0xa7672661, 0xd06016f7, 0x4969474d, 0x3e6e77db)
    else if i < 0xec then Row(i, 0xaed16a4a, 0xd9d65adc, 0x40df0b66, 0x37d83bf0)
    else if i < 0xf0 then Row(i, 0xa9bcae53, 0xdebb9ec5, 0x47b2cf7f, 0x30b5ffe9)
    else if i < 0xf4 then Row(i, 0xbdbdf21c, 0xcabac28a, 0x53b39330, 0x24b4a3a6)
    else if i < 0xf8 then Row(i, 0xbad03605, 0xcdd70693, 0x54de5729, 0x23d967bf)
    else if i < 0xfc then Row(i, 0xb3667a2e, 0xc4614ab8, 0x5d681b02, 0x2a6f2b94)
    else Row(i, 0xb40bbe37, 0xc30c8ea1, 0x5a05df1b, 0x2d02ef8d)
  }

  // ---------- The register, bit by bit ----------

  function Xor(a: Word, b: Word): Word {
    a ^ b
  }

  function Half(x: Word): Word {
    x >> 1
  }

  predicate Odd(x: Word) {
    x & 1 == 1
  }

  function In(bit: bool): Word {
    if bit then 1 else 0
  }

  /** One step of the reflected register: shift out a bit, subtract the polynomial if it was set. */
  function Shift(x: Word): Word {
    if Odd(x) then Xor(Half(x), POLY) else Half(x)
  }

  function Shifts(x: Word, n: nat): Word
    decreases n
  {
    if n == 0 then x else Shifts(Shift(x), n - 1)
  }

  /** The defining division: each message bit enters at the low end. */
  function BitRun(crc: Word, bits: seq<bool>): Word
    decreases |bits|
  {
    if bits == [] then crc else BitRun(Shift(Xor(crc, In(bits[0]))), bits[1..])
  }

  /** The n low bits of w, least significant first. */
  function LowBits(w: Word, n: nat): seq<bool>
    decreases n
  {
    if n == 0 then [] else [Odd(w)] + LowBits(Half(w), n - 1)
  }

  /** The bits of a message, least significant bit of each byte first. */
  function Bits(data: seq<Octet>): seq<bool> {
    if data == [] then [] else LowBits(data[0] as Word, 8) + Bits(data[1..])
  }

  // ---------- rd_crc32_update ----------

  function Step(crc: Word, b: Octet): Word {
    Xor(CrcTable((Xor(crc, b as Word) & 0xff) as Octet), crc >> 8)
  }

  function Update(crc: Word, data: seq<Octet>): Word
    decreases |data|
  {
    if data == [] then crc else Update(Step(crc, data[0]), data[1..])
  }

  lemma UpdateSteps(crc: Word, data: seq<Octet>)
    ensures data != [] ==> Update(crc, data) == Update(Step(crc, data[0]), data[1..])
    ensures data == [] ==> Update(crc, data) == crc
  {
    hide Step;
  }

  /** rd_crc32_update. */
  method UpdateLoop(crc0: Word, data: seq<Octet>) returns (crc: Word)
    ensures crc == Update(crc0, data)
    ensures crc == BitRun(crc0, Bits(data))
  {
    hide *;
    crc := crc0;
    var k := 0;
    while k < |data|
      invariant k <= |data|
      invariant Update(crc, data[k..]) == Update(crc0, data)
    {
      UpdateSteps(crc, data[k..]);
      StepForm(crc, data[k]);
      assert data[k..][0] == data[k] && data[k..][1..] == data[k + 1..];
      var index := LowByte(Xor(crc, data[k] as Word));
      crc := Xor(CrcTable(index), crc >> 8);
      k := k + 1;
    }
    UpdateSteps(crc, data[k..]);
    TableDrivenIsDivision(crc0, data);
  }

  function LowByte(x: Word): Octet {
    (x & 0xff) as Octet
  }

  lemma StepForm(crc: Word, b: Octet)
    ensures Step(crc, b) == Xor(CrcTable(LowByte(Xor(crc, b as Word))), crc >> 8)
  {
    hide CrcTable, Xor;
  }

  /** rd_crc32. */
  function Crc(data: seq<Octet>): Word {
    Xor(Update(0xffff_ffff, data), 0xffff_ffff)
  }

  // ---------- One lookup is eight steps ----------

  function Shift8(x: Word): Word {
    Shift(Shift(Shift(Shift(Shift(Shift(Shift(Shift(x))))))))
  }

  /** Every entry of the table is what eight register steps make of its index. */
  lemma TableIsShift8(i: Octet)
    ensures CrcTable(i) == Shift8(i as Word)
  {
  }

  lemma Shift8IsShifts(x: Word)
    ensures Shift8(x) == Shifts(x, 8)
  {
    hide Shift;
    var y := Shift(Shift(Shift(Shift(x))));
    assert Shifts(x, 8) == Shifts(Shift(Shift(x)), 6);
    assert Shifts(Shift(Shift(x)), 6) == Shifts(y, 4) == Shifts(Shift(Shift(y)), 2);
  }

  lemma HalfMixes(x: Word, h: Word)
    ensures Half(Xor(x, h)) == Xor(Half(Xor(x, In(Odd(h)))), Half(h))
    ensures Odd(Xor(x, h)) == Odd(Xor(x, In(Odd(h))))
    ensures !Odd(h) ==> Xor(x, In(Odd(h))) == x
  {
  }

  lemma XorSwaps(a: Word, b: Word, c: Word)
    ensures Xor(Xor(a, b), c) == Xor(Xor(a, c), b)
  {
    hide Xor;
    XorAssoc(a, b, c);
    XorAssoc(a, c, b);
    XorAssoc(b, c, 0);
  }

  lemma ShiftMixes(x: Word, h: Word)
    ensures Shift(Xor(x, h)) == Xor(Shift(Xor(x, In(Odd(h)))), Half(h))
    ensures !Odd(h) ==> Shift(Xor(x, h)) == Xor(Shift(x), Half(h))
  {
    hide Xor, Half, Odd, In;
    HalfMixes(x, h);
    XorSwaps(Half(Xor(x, In(Odd(h)))), Half(h), POLY);
  }

  lemma XorFacts(x: Word, h: Word)
    ensures Xor(Xor(x, h), h) == x && Xor(x, 0) == x
    ensures Xor(x, h) == Xor(h, x)
  {
  }

  function Down(h: Word, n: nat): Word
    decreases n
  {
    if n == 0 then h else Down(Half(h), n - 1)
  }

  predicate LowZero(h: Word, n: nat)
    decreases n
  {
    n == 0 || (!Odd(h) && LowZero(Half(h), n - 1))
  }

  lemma {:induction false} ShiftsMix(x: Word, h: Word, n: nat)
    requires LowZero(h, n)
    ensures Shifts(Xor(x, h), n) == Xor(Shifts(x, n), Down(h, n))
    decreases n
  {
    hide Shift, Xor, Half, Odd;
    if n > 0 {
      ShiftMixes(x, h);
      ShiftsMix(Shift(x), Half(h), n - 1);
    }
  }

  lemma HalfEight(h: Word)
    ensures Half(Half(Half(Half(Half(Half(Half(Half(h)))))))) == h >> 8
  {
  }

  lemma Down8(h: Word)
    ensures Down(h, 8) == h >> 8
  {
    HalfEight(h);
    hide Half;
    var h4 := Half(Half(Half(Half(h))));
    assert Down(h, 8) == Down(Half(Half(h)), 6) == Down(h4, 4) == Down(Half(Half(h4)), 2);
  }

  lemma EvenEight(h: Word)
    requires h & 0xff == 0
    ensures !Odd(h) && !Odd(Half(h)) && !Odd(Half(Half(h))) && !Odd(Half(Half(Half(h))))
    ensures var h4 := Half(Half(Half(Half(h))));
      !Odd(h4) && !Odd(Half(h4)) && !Odd(Half(Half(h4))) && !Odd(Half(Half(Half(h4))))
  {
  }

  lemma LowZero8(h: Word)
    requires h & 0xff == 0
    ensures LowZero(h, 8)
  {
    EvenEight(h);
    hide Odd, Half;
    var h4 := Half(Half(Half(Half(h))));
    assert LowZero(Half(Half(h4)), 2) && LowZero(h4, 4) && LowZero(Half(Half(h)), 6);
  }

  lemma SplitWord(x: Word)
    ensures Xor(x & 0xff, x & 0xffff_ff00) == x && (x & 0xffff_ff00) & 0xff == 0 && (x & 0xffff_ff00) >> 8 == x >> 8
    ensures LowByte(x) as Word == x & 0xff
  {
  }

  lemma Shift8Splits(x: Word)
    ensures Shift8(x) == Xor(Shift8(x & 0xff), x >> 8)
  {
    hide *;
    var low, high := x & 0xff, x & 0xffff_ff00;
    SplitWord(x);
    Shift8IsShifts(x);
    Shift8IsShifts(low);
    LowZero8(high);
    ShiftsMix(low, high, 8);
    Down8(high);
  }

  lemma ByteHasNoHighPart(crc: Word, b: Octet)
    ensures Xor(crc, b as Word) >> 8 == crc >> 8
    ensures (b as Word) >> 8 == 0
  {
  }

  /** One table lookup does the work of eight register steps on the state with the byte mixed in. */
  lemma StepIsShift8(crc: Word, b: Octet)
    ensures Step(crc, b) == Shift8(Xor(crc, b as Word))
  {
    hide *;
    var x := Xor(crc, b as Word);
    StepForm(crc, b);
    ByteHasNoHighPart(crc, b);
    SplitWord(x);
    TableIsShift8(LowByte(x));
    Shift8Splits(x);
  }

  lemma FeedBit(c: Word, h: Word, n: nat, rest: seq<bool>)
    ensures n > 0 ==>
      BitRun(c, LowBits(h, n) + rest) == BitRun(Shift(Xor(c, In(Odd(h)))), LowBits(Half(h), n - 1) + rest)
    ensures n == 0 ==> LowBits(h, n) + rest == rest
  {
    hide Shift, Xor, Half, Odd, In;
    if n > 0 {
      var bits := LowBits(h, n) + rest;
      assert bits[0] == Odd(h) && bits[1..] == LowBits(Half(h), n - 1) + rest;
    }
  }

  lemma CountDown(c: Word, h: Word, n: nat)
    ensures n > 0 ==> Shifts(c, n) == Shifts(Shift(c), n - 1) && Down(h, n) == Down(Half(h), n - 1)
    ensures Shifts(c, 0) == c && Down(h, 0) == h
  {
    hide Shift, Half;
  }

  /** Feeding n bits of h is n register steps on the state with h mixed in, up to what is left of h. */
  lemma {:induction false} FeedBits(c: Word, h: Word, n: nat, rest: seq<bool>)
    ensures BitRun(c, LowBits(h, n) + rest) == BitRun(Xor(Shifts(Xor(c, h), n), Down(h, n)), rest)
    decreases n
  {
    hide *;
    FeedBit(c, h, n, rest);
    CountDown(Xor(c, h), h, n);
    if n == 0 {
      XorFacts(c, h);
    } else {
      ShiftMixes(c, h);
      FeedBits(Shift(Xor(c, In(Odd(h)))), Half(h), n - 1, rest);
    }
  }

  lemma FeedByte(c: Word, b: Octet, rest: seq<bool>)
    ensures BitRun(c, LowBits(b as Word, 8) + rest) == BitRun(Shift8(Xor(c, b as Word)), rest)
  {
    hide *;
    var h := b as Word;
    ByteHasNoHighPart(c, b);
    FeedBits(c, h, 8, rest);
    Down8(h);
    Shift8IsShifts(Xor(c, h));
    XorFacts(Shift8(Xor(c, h)), 0);
  }

  lemma BitsStep(data: seq<Octet>)
    ensures data != [] ==> Bits(data) == LowBits(data[0] as Word, 8) + Bits(data[1..])
    ensures data == [] ==> Bits(data) == []
  {
    hide LowBits;
  }

  lemma NoBits(crc: Word)
    ensures BitRun(crc, []) == crc
  {
  }

  /** For every start value and message the table-driven update is the bit-by-bit division. */
  lemma {:induction false} TableDrivenIsDivision(crc: Word, data: seq<Octet>)
    ensures Update(crc, data) == BitRun(crc, Bits(data))
    decreases |data|
  {
    hide *;
    UpdateSteps(crc, data);
    BitsStep(data);
    if data == [] {
      NoBits(crc);
    } else {
      StepIsShift8(crc, data[0]);
      FeedByte(crc, data[0], Bits(data[1..]));
      TableDrivenIsDivision(Step(crc, data[0]), data[1..]);
    }
  }

  /** Updating by a concatenation is updating by its parts in turn. */
  lemma {:induction false} UpdateConcat(crc: Word, a: seq<Octet>, b: seq<Octet>)
    ensures Update(crc, a + b) == Update(Update(crc, a), b)
    decreases |a|
  {
    if a == [] {
      assert a + b == b;
    } else {
      assert (a + b)[0] == a[0] && (a + b)[1..] == a[1..] + b;
      hide Step;
      UpdateConcat(Step(crc, a[0]), a[1..], b);
    }
  }

  // ---------- The unreflected definition: polynomial 0x04C11DB7, reflected in and out ----------

  function MsbShift(x: Word): Word {
    if x & 0x8000_0000 != 0 then Xor(x << 1, 0x04c1_1db7) else x << 1
  }

  function MsbIn(bit: bool): Word {
    if bit then 0x8000_0000 else 0
  }

  /** The register of the catalogue definition: each message bit enters at the high end. */
  function MsbRun(reg: Word, bits: seq<bool>): Word
    decreases |bits|
  {
    if bits == [] then reg else MsbRun(MsbShift(Xor(reg, MsbIn(bits[0]))), bits[1..])
  }

  /** All 32 bits in reverse order. */
  function Reflect(x: Word): Word {
    var a := ((x >> 1) & 0x5555_5555) | ((x & 0x5555_5555) << 1);
    var b := ((a >> 2) & 0x3333_3333) | ((a & 0x3333_3333) << 2);
    var c := ((b >> 4) & 0x0f0f_0f0f) | ((b & 0x0f0f_0f0f) << 4);
    var d := ((c >> 8) & 0x00ff_00ff) | ((c & 0x00ff_00ff) << 8);
    (d >> 16) | (d << 16)
  }

  lemma ReflectBasics(x: Word, bit: bool)
    ensures Reflect(x << 1) == Half(Reflect(x))
    ensures Odd(Reflect(x)) <==> x & 0x8000_0000 != 0
    ensures Reflect(MsbIn(bit)) == In(bit) && Reflect(0x04c1_1db7) == POLY && Reflect(0xffff_ffff) == 0xffff_ffff
  {
  }

  lemma ReflectLinear(x: Word, y: Word)
    ensures Reflect(Xor(x, y)) == Xor(Reflect(x), Reflect(y))
  {
  }

  lemma ReflectShift(x: Word)
    ensures Shift(Reflect(x)) == Reflect(MsbShift(x))
  {
    hide Reflect, Xor, Half, Odd;
    ReflectBasics(x, false);
    ReflectLinear(x << 1, 0x04c1_1db7);
  }

  lemma {:induction false} BitRunIsReflected(crc: Word, bits: seq<bool>)
    ensures BitRun(Reflect(crc), bits) == Reflect(MsbRun(crc, bits))
    decreases |bits|
  {
    hide Reflect, Shift, MsbShift, Xor, In, MsbIn;
    if bits != [] {
      ReflectBasics(crc, bits[0]);
      ReflectLinear(crc, MsbIn(bits[0]));
      ReflectShift(Xor(crc, MsbIn(bits[0])));
      BitRunIsReflected(MsbShift(Xor(crc, MsbIn(bits[0]))), bits[1..]);
    }
  }

  /** rd_crc32 is the CRC its header announces: polynomial 0x04C11DB7, bytes and result reflected, xor in and out. */
  lemma CrcMatchesItsParameters(data: seq<Octet>)
    ensures Crc(data) == Xor(Reflect(MsbRun(0xffff_ffff, Bits(data))), 0xffff_ffff)
  {
    ReflectBasics(0, false);
    TableDrivenIsDivision(0xffff_ffff, data);
    BitRunIsReflected(0xffff_ffff, Bits(data));
    hide Reflect, Update, BitRun, MsbRun, Xor, Bits;
  }

  lemma CheckEntries()
    ensures CrcTable(0xce) == 0x7cdc_efb7
    ensures CrcTable(0x7a) == 0xb0d0_9822
    ensures CrcTable(0x01) == 0x7707_3096
    ensures CrcTable(0x19) == 0x646b_a8c0
    ensures CrcTable(0x69) == 0x346e_d9fc
    ensures CrcTable(0xd5) == 0xf6b9_265b
    ensures CrcTable(0xa9) == 0xaf0a_1b4c
    ensures CrcTable(0x58) == 0x65b0_d9c6
    ensures CrcTable(0x69) == 0x346e_d9fc
  {
  }

  lemma CheckSteps()
    ensures Step(0xffff_ffff, 0x31) == 0x7c23_1048
    ensures Step(0x7c23_1048, 0x32) == 0xb0ac_bb32
    ensures Step(0xb0ac_bb32, 0x33) == 0x77b7_9c2d
    ensures Step(0x77b7_9c2d, 0x34) == 0x641c_1f5c
    ensures Step(0x641c_1f5c, 0x35) == 0x340a_c5e3
    ensures Step(0x340a_c5e3, 0x36) == 0xf68d_2c9e
    ensures Step(0xf68d_2c9e, 0x37) == 0xaffc_9660
    ensures Step(0xaffc_9660, 0x38) == 0x651f_2550
    ensures Step(0x651f_2550, 0x39) == 0x340b_c6d9
  {
    CheckEntries();
    hide CrcTable;
  }

  /** The catalogue's check value: the checksum of the digits 1 to 9. */
  lemma CheckValue()
    ensures Crc([0x31, 0x32, 0x33, 0x34, 0x35, 0x36, 0x37, 0x38, 0x39]) == 0xcbf4_3926
  {
    CheckSteps();
    hide Update, Step;
    var m: seq<Octet> := [0x31, 0x32, 0x33, 0x34, 0x35, 0x36, 0x37, 0x38, 0x39];
    assert m[0..] == m && m[9..] == [];
    UpdateFrom(0xffff_ffff, m, 0);
    UpdateFrom(0x7c23_1048, m, 1);
    UpdateFrom(0xb0ac_bb32, m, 2);
    UpdateFrom(0x77b7_9c2d, m, 3);
    UpdateFrom(0x641c_1f5c, m, 4);
    UpdateFrom(0x340a_c5e3, m, 5);
    UpdateFrom(0xf68d_2c9e, m, 6);
    UpdateFrom(0xaffc_9660, m, 7);
    UpdateFrom(0x651f_2550, m, 8);
    UpdateSteps(0x340b_c6d9, []);
  }

  lemma UpdateFrom(crc: Word, data: seq<Octet>, k: nat)
    requires k < |data|
    ensures Update(crc, data[k..]) == Update(Step(crc, data[k]), data[k + 1..])
  {
    UpdateSteps(crc, data[k..]);
    assert data[k..][0] == data[k] && data[k..][1..] == data[k + 1..];
  }

  // ---------- What the checksum detects ----------

  /** Undoes one register step: the polynomial's top bit tells whether it was subtracted. */
  function Unshift(y: Word): Word {
    if y & 0x8000_0000 != 0 then ((y ^ POLY) << 1) | 1 else y << 1
  }

  lemma UnshiftShift(x: Word)
    ensures Unshift(Shift(x)) == x
  {
  }

  lemma Shift8Injective(x: Word, y: Word)
    requires Shift8(x) == Shift8(y)
    ensures x == y
  {
    UnshiftsShift8(x);
    UnshiftsShift8(y);
    hide Unshift, Shift8;
  }

  lemma UnshiftsShift8(x: Word)
    ensures Unshift(Unshift(Unshift(Unshift(Unshift(Unshift(Unshift(Unshift(Shift8(x))))))))) == x
  {
    var x1 := Shift(x); var x2 := Shift(x1); var x3 := Shift(x2); var x4 := Shift(x3);
    var x5 := Shift(x4); var x6 := Shift(x5); var x7 := Shift(x6);
    UnshiftShift(x); UnshiftShift(x1); UnshiftShift(x2); UnshiftShift(x3);
    UnshiftShift(x4); UnshiftShift(x5); UnshiftShift(x6); UnshiftShift(x7);
    hide Shift, Unshift;
  }

  /** The update is injective in the state: different states stay different under the same bytes. */
  lemma {:induction false} UpdateInjective(x: Word, y: Word, data: seq<Octet>)
    requires Update(x, data) == Update(y, data)
    ensures x == y
    decreases |data|
  {
    hide *;
    UpdateSteps(x, data);
    UpdateSteps(y, data);
    if data != [] {
      var b := data[0];
      StepIsShift8(x, b);
      StepIsShift8(y, b);
      UpdateInjective(Step(x, b), Step(y, b), data[1..]);
      Shift8Injective(Xor(x, b as Word), Xor(y, b as Word));
      XorFacts(x, b as Word);
      XorFacts(y, b as Word);
    }
  }

  // Four bytes are one word.

  function Prepend(a: Octet, w: Word): Word {
    (a as Word) | (w << 8)
  }

  function FromBytes(a: Octet, b: Octet, c: Octet, d: Octet): Word {
    Prepend(a, Prepend(b, Prepend(c, d as Word)))
  }

  /** The word's bytes, least significant first. */
  function ToBytes(w: Word): seq<Octet> {
    [LowByte(w), LowByte(Rest(w)), LowByte(Rest(Rest(w))), LowByte(Rest(Rest(Rest(w))))]
  }

  function Rest(w: Word): Word {
    w >> 8
  }

  function Shift32(x: Word): Word {
    Shift8(Shift8(Shift8(Shift8(x))))
  }

  /** A byte mixed in after eight steps is the byte mixed in one place higher before them. */
  lemma LaterByte(x: Word, w: Word)
    requires w & 0xff == 0
    ensures Shift8(Xor(x, w)) == Xor(Shift8(x), w >> 8)
  {
    hide *;
    LowZero8(w);
    ShiftsMix(x, w, 8);
    Shift8IsShifts(x);
    Shift8IsShifts(Xor(x, w));
    Down8(w);
  }

  lemma RestIsHighPart(w: Word)
    ensures (w & 0xffff_ff00) >> 8 == Rest(w)
    ensures Rest(Rest(Rest(Rest(w)))) == 0
  {
  }

  /** Mixing the low byte of w and stepping leaves the rest of w to be mixed in. */
  lemma WordStep(x: Word, w: Word)
    ensures Shift8(Xor(x, w)) == Xor(Step(x, LowByte(w)), Rest(w))
  {
    hide *;
    var low, high := w & 0xff, w & 0xffff_ff00;
    SplitWord(w);
    RestIsHighPart(w);
    XorAssoc(x, low, high);
    LaterByte(Xor(x, low), high);
    StepIsShift8(x, LowByte(w));
  }

  lemma XorAssoc(a: Word, b: Word, c: Word)
    ensures Xor(Xor(a, b), c) == Xor(a, Xor(b, c))
    ensures Xor(a, b) == Xor(b, a)
  {
  }

  /** Four bytes update the state as 32 register steps on state xor word: a bijection of the word. */
  lemma WordUpdate(x: Word, w: Word)
    ensures Update(x, ToBytes(w)) == Shift32(Xor(x, w))
  {
    hide Shift8, Step, Xor, Update, LowByte, Rest;
    var w1 := Rest(w); var w2 := Rest(w1); var w3 := Rest(w2);
    var x1 := Step(x, LowByte(w)); var x2 := Step(x1, LowByte(w1));
    var x3 := Step(x2, LowByte(w2)); var x4 := Step(x3, LowByte(w3));
    RestIsHighPart(w);
    WordStep(x, w);
    WordStep(x1, w1);
    WordStep(x2, w2);
    WordStep(x3, w3);
    XorFacts(x4, 0);
    FourSteps(x, LowByte(w), LowByte(w1), LowByte(w2), LowByte(w3));
  }

  lemma FourSteps(x: Word, b0: Octet, b1: Octet, b2: Octet, b3: Octet)
    ensures Update(x, [b0, b1, b2, b3]) == Step(Step(Step(Step(x, b0), b1), b2), b3)
  {
    hide Step, Update;
    assert [b0, b1, b2, b3][1..] == [b1, b2, b3] && [b1, b2, b3][1..] == [b2, b3] && [b2, b3][1..] == [b3] &&
      [b3][1..] == [];
    UpdateSteps(x, [b0, b1, b2, b3]);
    UpdateSteps(Step(x, b0), [b1, b2, b3]);
    UpdateSteps(Step(Step(x, b0), b1), [b2, b3]);
    UpdateSteps(Step(Step(Step(x, b0), b1), b2), [b3]);
    UpdateSteps(Step(Step(Step(Step(x, b0), b1), b2), b3), []);
  }

  lemma PrependLow(a: Octet, w: Word)
    ensures LowByte(Prepend(a, w)) == a
  {
    assert Prepend(a, w) & 0xff == a as Word;
  }

  lemma PrependRest(a: Octet, w: Word)
    requires w >> 24 == 0
    ensures Rest(Prepend(a, w)) == w
  {
  }

  lemma PrependSmall(a: Octet, w: Word)
    ensures w >> 16 == 0 ==> Prepend(a, w) >> 24 == 0 && w >> 24 == 0
    ensures w >> 8 == 0 ==> Prepend(a, w) >> 16 == 0 && w >> 16 == 0
  {
  }

  lemma ByteIsSmall(d: Octet)
    ensures (d as Word) >> 8 == 0 && LowByte(d as Word) == d
  {
  }

  lemma WordOfBytes(a: Octet, b: Octet, c: Octet, d: Octet)
    ensures ToBytes(FromBytes(a, b, c, d)) == [a, b, c, d]
  {
    hide Prepend, LowByte, Rest;
    ByteIsSmall(d);
    var w1 := Prepend(c, d as Word); var w2 := Prepend(b, w1);
    PrependSmall(c, d as Word);
    PrependSmall(b, w1);
    PrependLow(c, d as Word);
    PrependLow(b, w1);
    PrependLow(a, w2);
    PrependRest(c, d as Word);
    PrependRest(b, w1);
    PrependRest(a, w2);
  }

  lemma Shift32Injective(x: Word, y: Word)
    requires Shift32(x) == Shift32(y)
    ensures x == y
  {
    hide Shift8;
    Shift8Injective(Shift8(Shift8(Shift8(x))), Shift8(Shift8(Shift8(y))));
    Shift8Injective(Shift8(Shift8(x)), Shift8(Shift8(y)));
    Shift8Injective(Shift8(x), Shift8(y));
    Shift8Injective(x, y);
  }

  function Unshift8(y: Word): Word {
    Unshift(Unshift(Unshift(Unshift(Unshift(Unshift(Unshift(Unshift(y))))))))
  }

  lemma HalvesBack(y: Word)
    ensures y & 0x8000_0000 == 0 ==> Half(y << 1) == y && !Odd(y << 1)
  {
  }

  lemma HalvesBackOdd(z: Word)
    ensures z & 0x8000_0000 == 0 ==> Half((z << 1) | 1) == z
    ensures Odd((z << 1) | 1)
  {
  }

  lemma PolyTopBit(y: Word)
    ensures y & 0x8000_0000 != 0 ==> (y ^ POLY) & 0x8000_0000 == 0
    ensures Xor(y ^ POLY, POLY) == y
  {
  }

  lemma ShiftUnshift(y: Word)
    ensures Shift(Unshift(y)) == y
  {
    HalvesBack(y);
    HalvesBackOdd(y ^ POLY);
    PolyTopBit(y);
    hide Half, Odd, Xor;
  }

  lemma Shift8Onto(y: Word)
    ensures Shift8(Unshift8(y)) == y
  {
    var y1 := Unshift(y); var y2 := Unshift(y1); var y3 := Unshift(y2); var y4 := Unshift(y3);
    var y5 := Unshift(y4); var y6 := Unshift(y5); var y7 := Unshift(y6);
    ShiftUnshift(y); ShiftUnshift(y1); ShiftUnshift(y2); ShiftUnshift(y3);
    ShiftUnshift(y4); ShiftUnshift(y5); ShiftUnshift(y6); ShiftUnshift(y7);
    hide Shift, Unshift;
  }

  function Unshift32(y: Word): Word {
    Unshift8(Unshift8(Unshift8(Unshift8(y))))
  }

  lemma Shift32Onto(y: Word)
    ensures Shift32(Unshift32(y)) == y
  {
    hide Shift8, Unshift8;
    Shift8Onto(y);
    Shift8Onto(Unshift8(y));
    Shift8Onto(Unshift8(Unshift8(y)));
    Shift8Onto(Unshift8(Unshift8(Unshift8(y))));
  }

  /** The four-byte update is a bijection: from every state each state is reached by exactly one word. */
  lemma WordUpdateBijective(x: Word, y: Word)
    ensures Update(x, ToBytes(Xor(x, Unshift32(y)))) == y
    ensures forall w :: Update(x, ToBytes(w)) == y ==> w == Xor(x, Unshift32(y))
  {
    hide *;
    var u := Unshift32(y);
    WordUpdate(x, Xor(x, u));
    XorBack(x, u);
    Shift32Onto(y);
    forall w | Update(x, ToBytes(w)) == y ensures w == Xor(x, u) {
      WordUpdate(x, w);
      Shift32Injective(Xor(x, w), u);
      XorBack(x, w);
    }
  }

  lemma XorBack(x: Word, w: Word)
    ensures Xor(x, Xor(x, w)) == w
  {
  }

  /** From one state, different blocks of four bytes lead to different states. */
  lemma FourBytesInjective(x: Word, u: seq<Octet>, v: seq<Octet>)
    requires |u| == |v| == 4 && Update(x, u) == Update(x, v)
    ensures u == v
  {
    hide *;
    var w := FromBytes(u[0], u[1], u[2], u[3]);
    var z := FromBytes(v[0], v[1], v[2], v[3]);
    WordOfBytes(u[0], u[1], u[2], u[3]);
    WordOfBytes(v[0], v[1], v[2], v[3]);
    assert u == [u[0], u[1], u[2], u[3]] && v == [v[0], v[1], v[2], v[3]];
    WordUpdate(x, w);
    WordUpdate(x, z);
    Shift32Injective(Xor(x, w), Xor(x, z));
    XorFacts(w, x);
    XorFacts(z, x);
  }

  lemma ShortInjective(x: Word, u: seq<Octet>, v: seq<Octet>)
    requires |u| == |v| <= 4 && Update(x, u) == Update(x, v)
    ensures u == v
  {
    hide *;
    var pad: seq<Octet> := seq(4 - |u|, _ => 0);
    UpdateConcat(x, u, pad);
    UpdateConcat(x, v, pad);
    FourBytesInjective(x, u + pad, v + pad);
    assert (u + pad)[..|u|] == u && (v + pad)[..|u|] == v;
  }

  /** Messages of equal length that differ only within four consecutive bytes have different checksums. */
  lemma BurstsAreDetected(before: seq<Octet>, u: seq<Octet>, v: seq<Octet>, after: seq<Octet>)
    requires |u| == |v| <= 4 && u != v
    ensures Crc(before + u + after) != Crc(before + v + after)
  {
    if Crc(before + u + after) == Crc(before + v + after) {
      XorFacts(Update(0xffff_ffff, before + u + after), 0xffff_ffff);
      XorFacts(Update(0xffff_ffff, before + v + after), 0xffff_ffff);
      hide *;
      var x := Update(0xffff_ffff, before);
      UpdateConcat(0xffff_ffff, before + u, after);
      UpdateConcat(0xffff_ffff, before + v, after);
      UpdateConcat(0xffff_ffff, before, u);
      UpdateConcat(0xffff_ffff, before, v);
      UpdateInjective(Update(x, u), Update(x, v), after);
      ShortInjective(x, u, v);
      assert false;
    }
  }

  lemma ResidueConstant()
    ensures Xor(Shift32(0xffff_ffff), 0xffff_ffff) == 0x2144_df1c
  {
    assert Shift8(0xffff_ffff) == 0x2dfd1072;
    assert Shift8(0x2dfd1072) == 0xbe26ed00;
    assert Shift8(0xbe26ed00) == 0xbe26ed;
    assert Shift8(0xbe26ed) == 0xdebb20e3;
  }

  /** A message followed by its own checksum, low byte first, always has the checksum 0x2144DF1C. */
  lemma ResidueIsConstant(data: seq<Octet>)
    ensures Crc(data + ToBytes(Crc(data))) == 0x2144_df1c
  {
    var x, m := Update(0xffff_ffff, data), data + ToBytes(Crc(data));
    assert Crc(data) == Xor(x, 0xffff_ffff) && Crc(m) == Xor(Update(0xffff_ffff, m), 0xffff_ffff);
    hide *;
    UpdateConcat(0xffff_ffff, data, ToBytes(Crc(data)));
    WordUpdate(x, Crc(data));
    XorAssoc(x, x, 0xffff_ffff);
    SelfXor(x);
    XorFacts(0xffff_ffff, 0);
    XorAssoc(0, 0xffff_ffff, 0);
    ResidueConstant();
  }

  lemma SelfXor(x: Word)
    ensures Xor(x, x) == 0
  {
  }

  // ---------- rd_crc32_reflect ----------

  function Push(w: Word, bit: bool): Word {
    (w << 1) | In(bit)
  }

  /** The word whose bits, least significant first, are the given ones. */
  function FromBits(bits: seq<bool>): Word {
    if bits == [] then 0 else Push(FromBits(bits[1..]), bits[0])
  }

  function Reversed(bits: seq<bool>): seq<bool> {
    if bits == [] then [] else Reversed(bits[1..]) + [bits[0]]
  }

  lemma {:induction false} ReversedSnoc(bits: seq<bool>, b: bool)
    ensures Reversed(bits + [b]) == [b] + Reversed(bits)
  {
    if bits == [] {
      assert [] + [b] == [b];
    } else {
      assert (bits + [b])[0] == bits[0] && (bits + [b])[1..] == bits[1..] + [b];
      ReversedSnoc(bits[1..], b);
    }
  }

  lemma {:induction false} LowBitsSnoc(w: Word, n: nat)
    ensures LowBits(w, n + 1) == LowBits(w, n) + [Odd(Down(w, n))]
    ensures Down(w, n + 1) == Half(Down(w, n))
    decreases n
  {
    hide Odd, Half;
    if n > 0 {
      LowBitsSnoc(Half(w), n - 1);
    }
  }

  lemma FromBitsCons(b: bool, bits: seq<bool>)
    ensures FromBits([b] + bits) == Push(FromBits(bits), b) && FromBits([]) == 0
  {
    hide Push;
    assert ([b] + bits)[1..] == bits;
  }

  lemma ReflectStep(w: Word, n: nat)
    ensures FromBits(Reversed(LowBits(w, n + 1))) == Push(FromBits(Reversed(LowBits(w, n))), Odd(Down(w, n)))
    ensures Down(w, n + 1) == Half(Down(w, n))
    ensures Down(w, 0) == w && FromBits(Reversed(LowBits(w, 0))) == 0
  {
    LowBitsSnoc(w, n);
    ReversedSnoc(LowBits(w, n), Odd(Down(w, n)));
    FromBitsCons(Odd(Down(w, n)), Reversed(LowBits(w, n)));
    hide Odd, Half, Push;
  }

  /** rd_crc32_reflect: the low len bits in reverse order; a length of 0 acts as 1. */
  method ReflectLoop(word: Word, len: nat) returns (ret: Word)
    ensures ret == FromBits(Reversed(LowBits(word, if len == 0 then 1 else len)))
  {
    hide *;
    var data := word;
    ret := Push(0, Odd(data));
    var i := 1;
    ReflectStep(word, 0);
    while i < len
      invariant 1 <= i && (i <= len || (i == 1 && len == 0))
      invariant data == Down(word, i - 1)
      invariant ret == FromBits(Reversed(LowBits(word, i)))
    {
      ReflectStep(word, i - 1);
      ReflectStep(word, i);
      data := Half(data);
      ret := Push(ret, Odd(data));
      i := i + 1;
    }
  }

  /** Four iterations at once: the low four bits in reverse order. */
  function Push4(ret: Word, x: Word): Word {
    (ret << 4) | ((x & 1) << 3) | ((x & 2) << 1) | ((x & 4) >> 1) | ((x & 8) >> 3)
  }

  function Half4(x: Word): Word {
    x >> 4
  }

  function Push16(ret: Word, x: Word): Word {
    Push4(Push4(Push4(Push4(ret, x), Half4(x)), Half4(Half4(x))), Half4(Half4(Half4(x))))
  }

  lemma Push4Form(ret: Word, x: Word)
    ensures Push4(ret, x) ==
      Push(Push(Push(Push(ret, Odd(x)), Odd(Half(x))), Odd(Half(Half(x)))), Odd(Half(Half(Half(x)))))
    ensures Half4(x) == Half(Half(Half(Half(x))))
  {
  }

  lemma FourReflected(w: Word, n: nat)
    ensures FromBits(Reversed(LowBits(w, n + 4))) == Push4(FromBits(Reversed(LowBits(w, n))), Down(w, n))
    ensures Down(w, n + 4) == Half4(Down(w, n))
  {
    hide *;
    ReflectStep(w, n);
    ReflectStep(w, n + 1);
    ReflectStep(w, n + 2);
    ReflectStep(w, n + 3);
    Push4Form(FromBits(Reversed(LowBits(w, n))), Down(w, n));
  }

  lemma SixteenReflected(w: Word, n: nat)
    ensures FromBits(Reversed(LowBits(w, n + 16))) == Push16(FromBits(Reversed(LowBits(w, n))), Down(w, n))
    ensures Down(w, n + 16) == Half4(Half4(Half4(Half4(Down(w, n)))))
  {
    hide Push4, Half4, FromBits, Reversed, LowBits, Down;
    FourReflected(w, n);
    FourReflected(w, n + 4);
    FourReflected(w, n + 8);
    FourReflected(w, n + 12);
  }

  lemma ReflectTwice(x: Word)
    ensures Reflect(Reflect(x)) == x
  {
  }

  lemma PushedOut(x: Word)
    ensures Push16(Push16(0, x), x >> 16) == Reflect(x)
  {
  }

  lemma SixteenHalves(x: Word)
    ensures Half4(Half4(Half4(Half4(x)))) == x >> 16
  {
  }

  /** On a full word the loop is the reflection of the announced parameters, and undoes itself. */
  lemma FullReflection(x: Word)
    ensures FromBits(Reversed(LowBits(x, 32))) == Reflect(x)
    ensures Reflect(Reflect(x)) == x
  {
    hide *;
    PushedOut(x);
    SixteenHalves(x);
    ReflectTwice(x);
    ReflectStep(x, 0);
    SixteenReflected(x, 0);
    SixteenReflected(x, 16);
  }

  // ---------- Error bursts at any bit ----------

  lemma PushParts(w: Word, bit: bool)
    ensures Odd(Push(w, bit)) == bit && Half(Push(w, bit)) == Xor(w, w & 0x8000_0000)
  {
  }

  lemma TopBitParts(w: Word)
    ensures var h := w & 0x8000_0000; h & 0xff == 0 && (h >> 8) & 0xff == 0
    ensures var h := ((w & 0x8000_0000) >> 8) >> 8; h & 0xff == 0 && (h >> 8) & 0x7f == 0
  {
  }

  lemma EvenSeven(h: Word)
    requires h & 0x7f == 0
    ensures !Odd(h) && !Odd(Half(h)) && !Odd(Half(Half(h))) && !Odd(Half(Half(Half(h))))
    ensures var h4 := Half(Half(Half(Half(h)))); !Odd(h4) && !Odd(Half(h4)) && !Odd(Half(Half(h4)))
  {
  }

  lemma LowZero7(h: Word)
    requires h & 0x7f == 0
    ensures LowZero(h, 7)
  {
    EvenSeven(h);
    hide Odd, Half;
    var h4 := Half(Half(Half(Half(h))));
    assert LowZero(Half(Half(h4)), 1) && LowZero(h4, 3) && LowZero(Half(Half(h)), 5);
  }

  lemma {:induction false} LowZeroJoins(h: Word, a: nat, b: nat)
    requires LowZero(h, a) && LowZero(Down(h, a), b)
    ensures LowZero(h, a + b)
    decreases a
  {
    hide Odd, Half;
    if a > 0 {
      LowZeroJoins(Half(h), a - 1, b);
    }
  }

  lemma TopBitIsHigh(w: Word)
    ensures LowZero(w & 0x8000_0000, 31)
  {
    TopBitParts(w);
    hide *;
    var h := w & 0x8000_0000;
    LowZero8(h);
    LowZero8(h >> 8);
    LowZero8((h >> 8) >> 8);
    LowZero7(((h >> 8) >> 8) >> 8);
    Down8(h);
    Down8(h >> 8);
    Down8((h >> 8) >> 8);
    LowZeroJoins((h >> 8) >> 8, 8, 7);
    LowZeroJoins(h >> 8, 8, 15);
    LowZeroJoins(h, 8, 23);
  }

  lemma XorHalves(w: Word, h: Word)
    ensures Half(Xor(w, h)) == Xor(Half(w), Half(h))
    ensures !Odd(h) ==> Odd(Xor(w, h)) == Odd(w)
  {
  }

  lemma {:induction false} SameLowBits(w: Word, h: Word, m: nat, n: nat)
    requires LowZero(h, m) && n <= m
    ensures LowBits(Xor(w, h), n) == LowBits(w, n)
    decreases n
  {
    hide Odd, Half, Xor;
    if n > 0 {
      XorHalves(w, h);
      SameLowBits(Half(w), Half(h), m - 1, n - 1);
    }
  }

  /** Up to 32 bits make a word that has them as its low bits. */
  lemma {:induction false} WordHasItsBits(bits: seq<bool>)
    requires |bits| <= 32
    ensures LowBits(FromBits(bits), |bits|) == bits
    decreases |bits|
  {
    hide Odd, Half, Push, Xor;
    if bits != [] {
      var w := FromBits(bits[1..]);
      PushParts(w, bits[0]);
      TopBitIsHigh(w);
      SameLowBits(w, w & 0x8000_0000, 31, |bits| - 1);
      WordHasItsBits(bits[1..]);
      assert bits == [bits[0]] + bits[1..];
    }
  }

  lemma {:induction false} ShiftsInjective(x: Word, y: Word, n: nat)
    requires Shifts(x, n) == Shifts(y, n)
    ensures x == y
    decreases n
  {
    hide Shift, Unshift;
    if n > 0 {
      ShiftsInjective(Shift(x), Shift(y), n - 1);
      UnshiftShift(x);
      UnshiftShift(y);
    }
  }

  lemma {:induction false} DownIsZero(n: nat)
    ensures Down(0, n) == 0
    decreases n
  {
    hide Half;
    if n > 0 {
      HalfOfZero();
      DownIsZero(n - 1);
    }
  }

  lemma HalfOfZero()
    ensures Half(0) == 0
  {
  }

  lemma FourBytesDown(w: Word)
    ensures (((w >> 8) >> 8) >> 8) >> 8 == 0
  {
  }

  lemma {:induction false} DownSplits(h: Word, a: nat, b: nat)
    ensures Down(h, a + b) == Down(Down(h, a), b)
    decreases a
  {
    hide Half;
    if a > 0 {
      DownSplits(Half(h), a - 1, b);
    }
  }

  lemma Down32(w: Word)
    ensures Down(w, 32) == 0
  {
    hide *;
    FourBytesDown(w);
    DownSplits(w, 8, 24);
    DownSplits(w >> 8, 8, 16);
    DownSplits((w >> 8) >> 8, 8, 8);
    Down8(w);
    Down8(w >> 8);
    Down8((w >> 8) >> 8);
    Down8(((w >> 8) >> 8) >> 8);
  }

  /** 32 bits act as 32 register steps on state xor word. */
  lemma WordOfBitsRun(x: Word, bits: seq<bool>)
    requires |bits| == 32
    ensures BitRun(x, bits) == Shifts(Xor(x, FromBits(bits)), 32)
  {
    hide *;
    var w := FromBits(bits);
    WordHasItsBits(bits);
    FeedBits(x, w, 32, []);
    assert bits + [] == bits;
    Down32(w);
    XorFacts(Shifts(Xor(x, w), 32), 0);
    NoBits(Shifts(Xor(x, w), 32));
  }

  lemma {:induction false} BitRunConcat(x: Word, a: seq<bool>, b: seq<bool>)
    ensures BitRun(x, a + b) == BitRun(BitRun(x, a), b)
    decreases |a|
  {
    hide Shift, Xor, In;
    if a == [] {
      assert a + b == b;
    } else {
      assert (a + b)[0] == a[0] && (a + b)[1..] == a[1..] + b;
      BitRunConcat(Shift(Xor(x, In(a[0]))), a[1..], b);
    }
  }

  lemma {:induction false} BitRunInjective(x: Word, y: Word, bits: seq<bool>)
    requires BitRun(x, bits) == BitRun(y, bits)
    ensures x == y
    decreases |bits|
  {
    hide Shift, Unshift, Xor, In;
    if bits != [] {
      var b := In(bits[0]);
      BitRunInjective(Shift(Xor(x, b)), Shift(Xor(y, b)), bits[1..]);
      UnshiftShift(Xor(x, b));
      UnshiftShift(Xor(y, b));
      XorFacts(x, b);
      XorFacts(y, b);
    }
  }

  lemma ShortBitsInjective(x: Word, u: seq<bool>, v: seq<bool>)
    requires |u| == |v| <= 32 && BitRun(x, u) == BitRun(x, v)
    ensures u == v
  {
    hide *;
    var pad: seq<bool> := seq(32 - |u|, _ => false);
    BitRunConcat(x, u, pad);
    BitRunConcat(x, v, pad);
    WordOfBitsRun(x, u + pad);
    WordOfBitsRun(x, v + pad);
    ShiftsInjective(Xor(x, FromBits(u + pad)), Xor(x, FromBits(v + pad)), 32);
    XorBack(x, FromBits(u + pad));
    XorBack(x, FromBits(v + pad));
    WordHasItsBits(u + pad);
    WordHasItsBits(v + pad);
    assert (u + pad)[..|u|] == u && (v + pad)[..|u|] == v;
  }

  lemma CrcIsBitRun(data: seq<Octet>)
    ensures Xor(Crc(data), 0xffff_ffff) == BitRun(0xffff_ffff, Bits(data))
  {
    TableDrivenIsDivision(0xffff_ffff, data);
    XorFacts(Update(0xffff_ffff, data), 0xffff_ffff);
    hide Update, BitRun, Xor, Bits;
  }

  /** Messages whose bits differ only within 32 consecutive ones, wherever these start, have different checksums. */
  lemma BitBurstsAreDetected(a: seq<Octet>, b: seq<Octet>, before: seq<bool>, u: seq<bool>, v: seq<bool>,
      after: seq<bool>)
    requires Bits(a) == before + u + after && Bits(b) == before + v + after
    requires |u| == |v| <= 32 && u != v
    ensures Crc(a) != Crc(b)
  {
    hide *;
    if Crc(a) == Crc(b) {
      CrcIsBitRun(a);
      CrcIsBitRun(b);
      var x := BitRun(0xffff_ffff, before);
      BitRunConcat(0xffff_ffff, before + u, after);
      BitRunConcat(0xffff_ffff, before + v, after);
      BitRunConcat(0xffff_ffff, before, u);
      BitRunConcat(0xffff_ffff, before, v);
      BitRunInjective(BitRun(x, u), BitRun(x, v), after);
      ShortBitsInjective(x, u, v);
      assert false;
    }
  }
}
