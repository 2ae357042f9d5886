/** The table-driven CRC-32 against the bit-by-bit one (section 8 of RFC 1952): a reflected
    polynomial, complemented before and after. */
module Crc32 {

  const POLYNOMIAL: bv32 := 0xEDB88320

  // ---------- the bit-by-bit definition ----------

  function Xor(x: bv32, y: bv32): bv32 {
    x ^ y
  }

  function Half(x: bv32): bv32 {
    x >> 1
  }

  predicate Odd(x: bv32) {
    x & 1 == 1
  }

  function BitStep(x: bv32): bv32 {
    if Odd(x) then Xor(Half(x), POLYNOMIAL) else Half(x)
  }

  function ByteStep(x: bv32): bv32 {
    BitStep(BitStep(BitStep(BitStep(BitStep(BitStep(BitStep(BitStep(x))))))))
  }

  function Word(b: bv8): bv32 {
    b as bv32
  }

  /** The register after more bytes. */
  function Updated(c: bv32, data: seq<bv8>): bv32 {
    if data == [] then c else ByteStep(Xor(Updated(c, data[..|data| - 1]), Word(data[|data| - 1])))
  }

  function Checksum(data: seq<bv8>): bv32 {
    Xor(Updated(0xFFFF_FFFF, data), 0xFFFF_FFFF)
  }

  /** Two checksums to compare with: those of no byte, and of the letter a. */
  lemma CheckValues()
    ensures Checksum([]) == 0 && Checksum([0x61]) == 0xE8B7_BE43
  {
    assert [0x61 as bv8][..0] == [];
    assert Updated(0xFFFF_FFFF, [0x61]) == ByteStep(Xor(0xFFFF_FFFF, 0x61));
  }

  // ---------- exclusive or ----------

  lemma XorRegroups(x: bv32, y: bv32, z: bv32)
    ensures Xor(Xor(x, y), z) == Xor(x, Xor(y, z))
  {
  }

  lemma XorSwaps(x: bv32, y: bv32)
    ensures Xor(x, y) == Xor(y, x)
  {
  }

  lemma XorSelf(x: bv32)
    ensures Xor(x, x) == 0 && Xor(x, 0) == x
  {
  }

  lemma XorLaws(x: bv32, y: bv32, z: bv32)
    ensures Xor(Xor(x, y), z) == Xor(Xor(x, z), y) && Xor(Xor(x, y), z) == Xor(x, Xor(y, z))
    ensures Xor(Xor(x, z), Xor(y, z)) == Xor(x, y)
  {
    hide Xor;
    XorRegroups(x, y, z);
    XorSwaps(y, z);
    XorRegroups(x, z, y);
    XorRegroups(x, z, Xor(y, z));
    XorRegroups(z, z, y);
    XorSelf(z);
    XorSwaps(y, 0);
    XorSelf(y);
  }

  lemma XorCancels(x: bv32, y: bv32)
    ensures Xor(x, y) == 0 <==> x == y
  {
    hide Xor;
    XorSelf(y);
    if Xor(x, y) == 0 {
      XorInjective(x, y, y);
    }
  }

  lemma XorInjective(x: bv32, y: bv32, z: bv32)
    requires Xor(x, z) == Xor(y, z)
    ensures x == y
  {
    hide Xor;
    XorRegroups(x, z, z);
    XorRegroups(y, z, z);
    XorSelf(z);
    XorSelf(x);
    XorSelf(y);
  }

  lemma XorHalf(x: bv32, y: bv32)
    ensures Half(Xor(x, y)) == Xor(Half(x), Half(y))
  {
  }

  lemma XorOdd(x: bv32, y: bv32)
    ensures Odd(Xor(x, y)) <==> Odd(x) != Odd(y)
  {
  }

  // ---------- the step is linear and loses nothing ----------

  lemma BitStepLinear(x: bv32, y: bv32)
    ensures BitStep(Xor(x, y)) == Xor(BitStep(x), BitStep(y))
  {
    hide Xor, Half, Odd;
    XorHalf(x, y);
    XorOdd(x, y);
    XorLaws(Half(x), Half(y), POLYNOMIAL);
  }

  lemma ByteStepLinear(x: bv32, y: bv32)
    ensures ByteStep(Xor(x, y)) == Xor(ByteStep(x), ByteStep(y))
  {
    hide BitStep, Xor;
    var x1, y1 := BitStep(x), BitStep(y);
    var x2, y2 := BitStep(x1), BitStep(y1);
    var x3, y3 := BitStep(x2), BitStep(y2);
    var x4, y4 := BitStep(x3), BitStep(y3);
    var x5, y5 := BitStep(x4), BitStep(y4);
    var x6, y6 := BitStep(x5), BitStep(y5);
    var x7, y7 := BitStep(x6), BitStep(y6);
    BitStepLinear(x, y);
    BitStepLinear(x1, y1);
    BitStepLinear(x2, y2);
    BitStepLinear(x3, y3);
    BitStepLinear(x4, y4);
    BitStepLinear(x5, y5);
    BitStepLinear(x6, y6);
    BitStepLinear(x7, y7);
  }

  /** The step can be undone: only zero goes to zero. */
  lemma BitStepZero(x: bv32)
    requires BitStep(x) == 0
    ensures x == 0
  {
  }

  lemma ByteStepZero(x: bv32)
    requires ByteStep(x) == 0
    ensures x == 0
  {
    hide BitStep;
    var x1 := BitStep(x);
    var x2 := BitStep(x1);
    var x3 := BitStep(x2);
    var x4 := BitStep(x3);
    var x5 := BitStep(x4);
    var x6 := BitStep(x5);
    var x7 := BitStep(x6);
    BitStepZero(x7);
    BitStepZero(x6);
    BitStepZero(x5);
    BitStepZero(x4);
    BitStepZero(x3);
    BitStepZero(x2);
    BitStepZero(x1);
    BitStepZero(x);
  }

  lemma ByteStepInjective(x: bv32, y: bv32)
    requires ByteStep(x) == ByteStep(y)
    ensures x == y
  {
    hide ByteStep, Xor;
    ByteStepLinear(x, y);
    XorCancels(ByteStep(x), ByteStep(y));
    ByteStepZero(Xor(x, y));
    XorCancels(x, y);
  }

  // ---------- one step of the table ----------

  lemma EvenHalves(x: bv32)
    requires x & 0xFF == 0
    ensures !Odd(x) && !Odd(Half(x)) && !Odd(Half(Half(x))) && !Odd(Half(Half(Half(x))))
    ensures !Odd(Half(Half(Half(Half(x))))) && !Odd(Half(Half(Half(Half(Half(x))))))
    ensures !Odd(Half(Half(Half(Half(Half(Half(x))))))) && !Odd(Half(Half(Half(Half(Half(Half(Half(x))))))))
    ensures Half(Half(Half(Half(Half(Half(Half(Half(x)))))))) == x >> 8
  {
  }

  /** A word whose low byte is zero is only shifted. */
  lemma ShiftedOut(x: bv32)
    requires x & 0xFF == 0
    ensures ByteStep(x) == x >> 8
  {
    EvenHalves(x);
    hide Odd, Half, Xor;
  }

  /** The lookup table of the program, 16 entries to a row. */
  function CRC32_LUT(b: bv8): bv32 {
    match b & 0xF0
    case 0x00 => (
      match b & 0x0F
      case 0x0 => 0x00000000 case 0x1 => 0x77073096 case 0x2 => 0xee0e612c case 0x3 => 0x990951ba
      case 0x4 => 0x076dc419 case 0x5 => 0x706af48f case 0x6 => 0xe963a535 case 0x7 => 0x9e6495a3
      case 0x8 => 0x0edb8832 case 0x9 => 0x79dcb8a4 case 0xA => 0xe0d5e91e case 0xB => 0x97d2d988
      case 0xC => 0x09b64c2b case 0xD => 0x7eb17cbd case 0xE => 0xe7b82d07 case _ => 0x90bf1d91)
    case 0x10 => (
      match b & 0x0F
      case 0x0 => 0x1db71064 case 0x1 => 0x6ab020f2 case 0x2 => 0xf3b97148 case 0x3 => 0x84be41de
      case 0x4 => 0x1adad47d case 0x5 => 0x6ddde4eb case 0x6 => 0xf4d4b551 case 0x7 => 0x83d385c7
      case 0x8 => 0x136c9856 case 0x9 => 0x646ba8c0 case 0xA => 0xfd62f97a case 0xB => 0x8a65c9ec
      case 0xC => 0x14015c4f case 0xD => 0x63066cd9 case 0xE => 0xfa0f3d63 case _ => 0x8d080df5)
    case 0x20 => (
      match b & 0x0F
      case 0x0 => 0x3b6e20c8 case 0x1 => 0x4c69105e case 0x2 => 0xd56041e4 case 0x3 => 0xa2677172
      case 0x4 => 0x3c03e4d1 case 0x5 => 0x4b04d447 case 0x6 => 0xd20d85fd case 0x7 => 0xa50ab56b
      case 0x8 => 0x35b5a8fa case 0x9 => 0x42b2986c case 0xA => 0xdbbbc9d6 case 0xB => 0xacbcf940
      case 0xC => 0x32d86ce3 case 0xD => 0x45df5c75 case 0xE => 0xdcd60dcf case _ => 0xabd13d59)
    case 0x30 => (
      match b & 0x0F
      case 0x0 => 0x26d930ac case 0x1 => 0x51de003a case 0x2 => 0xc8d75180 case 0x3 => 0xbfd06116
      case 0x4 => 0x21b4f4b5 case 0x5 => 0x56b3c423 case 0x6 => 0xcfba9599 case 0x7 => 0xb8bda50f
      case 0x8 => 0x2802b89e case 0x9 => 0x5f058808 case 0xA => 0xc60cd9b2 case 0xB => 0xb10be924
      case 0xC => 0x2f6f7c87 case 0xD => 0x58684c11 case 0xE => 0xc1611dab case _ => 0xb6662d3d)
    case 0x40 => (
      match b & 0x0F
      case 0x0 => 0x76dc4190 case 0x1 => 0x01db7106 case 0x2 => 0x98d220bc case 0x3 => 0xefd5102a
      case 0x4 => 0x71b18589 case 0x5 => 0x06b6b51f case 0x6 => 0x9fbfe4a5 case 0x7 => 0xe8b8d433
      case 0x8 => 0x7807c9a2 case 0x9 => 0x0f00f934 case 0xA => 0x9609a88e case 0xB => 0xe10e9818
      case 0xC => 0x7f6a0dbb case 0xD => 0x086d3d2d case 0xE => 0x91646c97 case _ => 0xe6635c01)
    case 0x50 => (
      match b & 0x0F
      case 0x0 => 0x6b6b51f4 case 0x1 => 0x1c6c6162 case 0x2 => 0x856530d8 case 0x3 => 0xf262004e
      case 0x4 => 0x6c0695ed case 0x5 => 0x1b01a57b case 0x6 => 0x8208f4c1 case 0x7 => 0xf50fc457
      case 0x8 => 0x65b0d9c6 case 0x9 => 0x12b7e950 case 0xA => 0x8bbeb8ea case 0xB => 0xfcb9887c
      case 0xC => 0x62dd1ddf case 0xD => 0x15da2d49 case 0xE => 0x8cd37cf3 case _ => 0xfbd44c65)
    case 0x60 => (
      match b & 0x0F
      case 0x0 => 0x4db26158 case 0x1 => 0x3ab551ce case 0x2 => 0xa3bc0074 case 0x3 => 0xd4bb30e2
      case 0x4 => 0x4adfa541 case 0x5 => 0x3dd895d7 case 0x6 => 0xa4d1c46d case 0x7 => 0xd3d6f4fb
      case 0x8 => 0x4369e96a case 0x9 => 0x346ed9fc case 0xA => 0xad678846 case 0xB => 0xda60b8d0
      case 0xC => 0x44042d73 case 0xD => 0x33031de5 case 0xE => 0xaa0a4c5f case _ => 0xdd0d7cc9)
    case 0x70 => (
      match b & 0x0F
      case 0x0 => 0x5005713c case 0x1 => 0x270241aa case 0x2 => 0xbe0b1010 case 0x3 => 0xc90c2086
      case 0x4 => 0x5768b525 case 0x5 => 0x206f85b3 case 0x6 => 0xb966d409 case 0x7 => 0xce61e49f
      case 0x8 => 0x5edef90e case 0x9 => 0x29d9c998 case 0xA => 0xb0d09822 case 0xB => 0xc7d7a8b4
      case 0xC => 0x59b33d17 case 0xD => 0x2eb40d81 case 0xE => 0xb7bd5c3b case _ => 0xc0ba6cad)
    case 0x80 => (
      match b & 0x0F
      case 0x0 => 0xedb88320 case 0x1 => 0x9abfb3b6 case 0x2 => 0x03b6e20c case 0x3 => 0x74b1d29a
      case 0x4 => 0xead54739 case 0x5 => 0x9dd277af case 0x6 => 0x04db2615 case 0x7 => 0x73dc1683
      case 0x8 => 0xe3630b12 case 0x9 => 0x94643b84 case 0xA => 0x0d6d6a3e case 0xB => 0x7a6a5aa8
      case 0xC => 0xe40ecf0b case 0xD => 0x9309ff9d case 0xE => 0x0a00ae27 case _ => 0x7d079eb1)
    case 0x90 => (
      match b & 0x0F
      case 0x0 => 0xf00f9344 case 0x1 => 0x8708a3d2 case 0x2 => 0x1e01f268 case 0x3 => 0x6906c2fe
      case 0x4 => 0xf762575d case 0x5 => 0x806567cb case 0x6 => 0x196c3671 case 0x7 => 0x6e6b06e7
      case 0x8 => 0xfed41b76 case 0x9 => 0x89d32be0 case 0xA => 0x10da7a5a case 0xB => 0x67dd4acc
      case 0xC => 0xf9b9df6f case 0xD => 0x8ebeeff9 case 0xE => 0x17b7be43 case _ => 0x60b08ed5)
    case 0xA0 => (
      match b & 0x0F
      case 0x0 => 0xd6d6a3e8 case 0x1 => 0xa1d1937e case 0x2 => 0x38d8c2c4 case 0x3 => 0x4fdff252
      case 0x4 => 0xd1bb67f1 case 0x5 => 0xa6bc5767 case 0x6 => 0x3fb506dd case 0x7 => 0x48b2364b
      case 0x8 => 0xd80d2bda case 0x9 => 0xaf0a1b4c case 0xA => 0x36034af6 case 0xB => 0x41047a60
      case 0xC => 0xdf60efc3 case 0xD => 0xa867df55 case 0xE => 0x316e8eef case _ => 0x4669be79)
    case 0xB0 => (
      match b & 0x0F
      case 0x0 => 0xcb61b38c case 0x1 => 0xbc66831a case 0x2 => 0x256fd2a0 case 0x3 => 0x5268e236
      case 0x4 => 0xcc0c7795 case 0x5 => 0xbb0b4703 case 0x6 => 0x220216b9 case 0x7 => 0x5505262f
      case 0x8 => 0xc5ba3bbe case 0x9 => 0xb2bd0b28 case 0xA => 0x2bb45a92 case 0xB => 0x5cb36a04
      case 0xC => 0xc2d7ffa7 case 0xD => 0xb5d0cf31 case 0xE => 0x2cd99e8b case _ => 0x5bdeae1d)
    case 0xC0 => (
      match b & 0x0F
      case 0x0 => 0x9b64c2b0 case 0x1 => 0xec63f226 case 0x2 => 0x756aa39c case 0x3 => 0x026d930a
      case 0x4 => 0x9c0906a9 case 0x5 => 0xeb0e363f case 0x6 => 0x72076785 case 0x7 => 0x05005713
      case 0x8 => 0x95bf4a82 case 0x9 => 0xe2b87a14 case 0xA => 0x7bb12bae case 0xB => 0x0cb61b38
      case 0xC => 0x92d28e9b case 0xD => 0xe5d5be0d case 0xE => 0x7cdcefb7 case _ => 0x0bdbdf21)
    case 0xD0 => (
      match b & 0x0F
      case 0x0 => 0x86d3d2d4 case 0x1 => 0xf1d4e242 case 0x2 => 0x68ddb3f8 case 0x3 => 0x1fda836e
      case 0x4 => 0x81be16cd case 0x5 => 0xf6b9265b case 0x6 => 0x6fb077e1 case 0x7 => 0x18b74777
      case 0x8 => 0x88085ae6 case 0x9 => 0xff0f6a70 case 0xA => 0x66063bca case 0xB => 0x11010b5c
      case 0xC => 0x8f659eff case 0xD => 0xf862ae69 case 0xE => 0x616bffd3 case _ => 0x166ccf45)
    case 0xE0 => (
      match b & 0x0F
      case 0x0 => 0xa00ae278 case 0x1 => 0xd70dd2ee case 0x2 => 0x4e048354 case 0x3 => 0x3903b3c2
      case 0x4 => 0xa7672661 case 0x5 => 0xd06016f7 case 0x6 => 0x4969474d case 0x7 => 0x3e6e77db
      case 0x8 => 0xaed16a4a case 0x9 => 0xd9d65adc case 0xA => 0x40df0b66 case 0xB => 0x37d83bf0
      case 0xC => 0xa9bcae53 case 0xD => 0xdebb9ec5 case 0xE => 0x47b2cf7f case _ => 0x30b5ffe9)
    case _ => (
      match b & 0x0F
      case 0x0 => 0xbdbdf21c case 0x1 => 0xcabac28a case 0x2 => 0x53b39330 case 0x3 => 0x24b4a3a6
      case 0x4 => 0xbad03605 case 0x5 => 0xcdd70693 case 0x6 => 0x54de5729 case 0x7 => 0x23d967bf
      case 0x8 => 0xb3667a2e case 0x9 => 0xc4614ab8 case 0xA => 0x5d681b02 case 0xB => 0x2a6f2b94
      case 0xC => 0xb40bbe37 case 0xD => 0xc30c8ea1 case 0xE => 0x5a05df1b case _ => 0x2d02ef8d)
  }

  // Every entry of the table is eight bit steps from its index: one lemma for each row.

  lemma TableRow0(b: bv8)
    requires b & 0xF0 == 0x00
    ensures CRC32_LUT(b) == ByteStep(Word(b))
  {
    match b
    case 0x00 => case 0x01 => case 0x02 => case 0x03 => case 0x04 => case 0x05 => case 0x06 => case 0x07 => case 0x08 => case 0x09 => case 0x0A => case 0x0B => case 0x0C => case 0x0D => case 0x0E => case 0x0F =>
    case _ =>
  }

  lemma TableRow1(b: bv8)
    requires b & 0xF0 == 0x10
    ensures CRC32_LUT(b) == ByteStep(Word(b))
  {
    match b
    case 0x10 => case 0x11 => case 0x12 => case 0x13 => case 0x14 => case 0x15 => case 0x16 => case 0x17 => case 0x18 => case 0x19 => case 0x1A => case 0x1B => case 0x1C => case 0x1D => case 0x1E => case 0x1F =>
    case _ =>
  }

  lemma TableRow2(b: bv8)
    requires b & 0xF0 == 0x20
    ensures CRC32_LUT(b) == ByteStep(Word(b))
  {
    match b
    case 0x20 => case 0x21 => case 0x22 => case 0x23 => case 0x24 => case 0x25 => case 0x26 => case 0x27 => case 0x28 => case 0x29 => case 0x2A => case 0x2B => case 0x2C => case 0x2D => case 0x2E => case 0x2F =>
    case _ =>
  }

  lemma TableRow3(b: bv8)
    requires b & 0xF0 == 0x30
    ensures CRC32_LUT(b) == ByteStep(Word(b))
  {
    match b
    case 0x30 => case 0x31 => case 0x32 => case 0x33 => case 0x34 => case 0x35 => case 0x36 => case 0x37 => case 0x38 => case 0x39 => case 0x3A => case 0x3B => case 0x3C => case 0x3D => case 0x3E => case 0x3F =>
    case _ =>
  }

  lemma TableRow4(b: bv8)
    requires b & 0xF0 == 0x40
    ensures CRC32_LUT(b) == ByteStep(Word(b))
  {
    match b
    case 0x40 => case 0x41 => case 0x42 => case 0x43 => case 0x44 => case 0x45 => case 0x46 => case 0x47 => case 0x48 => case 0x49 => case 0x4A => case 0x4B => case 0x4C => case 0x4D => case 0x4E => case 0x4F =>
    case _ =>
  }

  lemma TableRow5(b: bv8)
    requires b & 0xF0 == 0x50
    ensures CRC32_LUT(b) == ByteStep(Word(b))
  {
    match b
    case 0x50 => case 0x51 => case 0x52 => case 0x53 => case 0x54 => case 0x55 => case 0x56 => case 0x57 => case 0x58 => case 0x59 => case 0x5A => case 0x5B => case 0x5C => case 0x5D => case 0x5E => case 0x5F =>
    case _ =>
  }

  lemma TableRow6(b: bv8)
    requires b & 0xF0 == 0x60
    ensures CRC32_LUT(b) == ByteStep(Word(b))
  {
    match b
    case 0x60 => case 0x61 => case 0x62 => case 0x63 => case 0x64 => case 0x65 => case 0x66 => case 0x67 => case 0x68 => case 0x69 => case 0x6A => case 0x6B => case 0x6C => case 0x6D => case 0x6E => case 0x6F =>
    case _ =>
  }

  lemma TableRow7(b: bv8)
    requires b & 0xF0 == 0x70
    ensures CRC32_LUT(b) == ByteStep(Word(b))
  {
    match b
    case 0x70 => case 0x71 => case 0x72 => case 0x73 => case 0x74 => case 0x75 => case 0x76 => case 0x77 => case 0x78 => case 0x79 => case 0x7A => case 0x7B => case 0x7C => case 0x7D => case 0x7E => case 0x7F =>
    case _ =>
  }

  lemma TableRow8(b: bv8)
    requires b & 0xF0 == 0x80
    ensures CRC32_LUT(b) == ByteStep(Word(b))
  {
    match b
    case 0x80 => case 0x81 => case 0x82 => case 0x83 => case 0x84 => case 0x85 => case 0x86 => case 0x87 => case 0x88 => case 0x89 => case 0x8A => case 0x8B => case 0x8C => case 0x8D => case 0x8E => case 0x8F =>
    case _ =>
  }

  lemma TableRow9(b: bv8)
    requires b & 0xF0 == 0x90
    ensures CRC32_LUT(b) == ByteStep(Word(b))
  {
    match b
    case 0x90 => case 0x91 => case 0x92 => case 0x93 => case 0x94 => case 0x95 => case 0x96 => case 0x97 => case 0x98 => case 0x99 => case 0x9A => case 0x9B => case 0x9C => case 0x9D => case 0x9E => case 0x9F =>
    case _ =>
  }

  lemma TableRowA(b: bv8)
    requires b & 0xF0 == 0xA0
    ensures CRC32_LUT(b) == ByteStep(Word(b))
  {
    match b
    case 0xA0 => case 0xA1 => case 0xA2 => case 0xA3 => case 0xA4 => case 0xA5 => case 0xA6 => case 0xA7 => case 0xA8 => case 0xA9 => case 0xAA => case 0xAB => case 0xAC => case 0xAD => case 0xAE => case 0xAF =>
    case _ =>
  }

  lemma TableRowB(b: bv8)
    requires b & 0xF0 == 0xB0
    ensures CRC32_LUT(b) == ByteStep(Word(b))
  {
    match b
    case 0xB0 => case 0xB1 => case 0xB2 => case 0xB3 => case 0xB4 => case 0xB5 => case 0xB6 => case 0xB7 => case 0xB8 => case 0xB9 => case 0xBA => case 0xBB => case 0xBC => case 0xBD => case 0xBE => case 0xBF =>
    case _ =>
  }

  lemma TableRowC(b: bv8)
    requires b & 0xF0 == 0xC0
    ensures CRC32_LUT(b) == ByteStep(Word(b))
  {
    match b
    case 0xC0 => case 0xC1 => case 0xC2 => case 0xC3 => case 0xC4 => case 0xC5 => case 0xC6 => case 0xC7 => case 0xC8 => case 0xC9 => case 0xCA => case 0xCB => case 0xCC => case 0xCD => case 0xCE => case 0xCF =>
    case _ =>
  }

  lemma TableRowD(b: bv8)
    requires b & 0xF0 == 0xD0
    ensures CRC32_LUT(b) == ByteStep(Word(b))
  {
    match b
    case 0xD0 => case 0xD1 => case 0xD2 => case 0xD3 => case 0xD4 => case 0xD5 => case 0xD6 => case 0xD7 => case 0xD8 => case 0xD9 => case 0xDA => case 0xDB => case 0xDC => case 0xDD => case 0xDE => case 0xDF =>
    case _ =>
  }

  lemma TableRowE(b: bv8)
    requires b & 0xF0 == 0xE0
    ensures CRC32_LUT(b) == ByteStep(Word(b))
  {
    match b
    case 0xE0 => case 0xE1 => case 0xE2 => case 0xE3 => case 0xE4 => case 0xE5 => case 0xE6 => case 0xE7 => case 0xE8 => case 0xE9 => case 0xEA => case 0xEB => case 0xEC => case 0xED => case 0xEE => case 0xEF =>
    case _ =>
  }

  lemma TableRowF(b: bv8)
    requires b & 0xF0 == 0xF0
    ensures CRC32_LUT(b) == ByteStep(Word(b))
  {
    match b
    case 0xF0 => case 0xF1 => case 0xF2 => case 0xF3 => case 0xF4 => case 0xF5 => case 0xF6 => case 0xF7 => case 0xF8 => case 0xF9 => case 0xFA => case 0xFB => case 0xFC => case 0xFD => case 0xFE => case 0xFF =>
    case _ =>
  }

  /** Every entry of the table is eight bit steps from its index. */
  lemma TableIsBytes(b: bv8)
    ensures CRC32_LUT(b) == ByteStep(Word(b))
  {
    hide CRC32_LUT, ByteStep;
    match b & 0xF0
    case 0x00 => TableRow0(b);
    case 0x10 => TableRow1(b);
    case 0x20 => TableRow2(b);
    case 0x30 => TableRow3(b);
    case 0x40 => TableRow4(b);
    case 0x50 => TableRow5(b);
    case 0x60 => TableRow6(b);
    case 0x70 => TableRow7(b);
    case 0x80 => TableRow8(b);
    case 0x90 => TableRow9(b);
    case 0xA0 => TableRowA(b);
    case 0xB0 => TableRowB(b);
    case 0xC0 => TableRowC(b);
    case 0xD0 => TableRowD(b);
    case 0xE0 => TableRowE(b);
    case 0xF0 => TableRowF(b);
  }

  function Low(x: bv32): bv8 {
    (x & 0xFF) as bv8
  }

  lemma LowByte(x: bv32)
    ensures x == Xor(x & 0xFFFF_FF00, Word(Low(x))) && (x & 0xFFFF_FF00) & 0xFF == 0 && (x & 0xFFFF_FF00) >> 8 == x >> 8
  {
  }

  /** One step with the table is eight bit steps. */
  lemma TableStep(x: bv32)
    ensures Xor(x >> 8, CRC32_LUT(Low(x))) == ByteStep(x)
  {
    hide ByteStep, CRC32_LUT, Low, Xor, Word;
    LowByte(x);
    ByteStepLinear(x & 0xFFFF_FF00, Word(Low(x)));
    ShiftedOut(x & 0xFFFF_FF00);
    TableIsBytes(Low(x));
  }

  // ---------- the code ----------

  /** Crypto::CRC32. */
  method CRC32(data: seq<bv8>) returns (crc32: bv32)
    ensures crc32 == Checksum(data)
  {
    hide ByteStep, CRC32_LUT, Xor, Low, Word;
    crc32 := 0xFFFF_FFFF;
    for i := 0 to |data|
      invariant crc32 == Updated(0xFFFF_FFFF, data[..i])
    {
      assert data[..i + 1][..i] == data[..i];
      crc32 := Xor(crc32, Word(data[i]));
      TableStep(crc32);
      crc32 := Xor(crc32 >> 8, CRC32_LUT(Low(crc32)));
    }
    assert data[..|data|] == data;
    crc32 := Xor(crc32, 0xFFFF_FFFF);
  }

  class CRC32Engine {
    var crc32: bv32

    constructor ()
      ensures crc32 == 0xFFFF_FFFF
    {
      crc32 := 0xFFFF_FFFF;
    }

    method Update(data: seq<bv8>)
      modifies this
      ensures crc32 == Updated(old(crc32), data)
    {
      hide ByteStep, CRC32_LUT, Xor, Low, Word;
      for i := 0 to |data|
        invariant crc32 == Updated(old(crc32), data[..i])
      {
        assert data[..i + 1][..i] == data[..i];
        crc32 := Xor(crc32, Word(data[i]));
        TableStep(crc32);
        crc32 := Xor(crc32 >> 8, CRC32_LUT(Low(crc32)));
      }
      assert data[..|data|] == data;
    }

    method Finalize() returns (checksum: bv32)
      ensures checksum == Xor(crc32, 0xFFFF_FFFF)
    {
      checksum := crc32 ^ 0xFFFF_FFFF;
    }
  }

  // ---------- what the checksum promises ----------

  /** Updating piece by piece is one update with the whole. */
  lemma {:induction false} UpdatedInPieces(c: bv32, s: seq<bv8>, t: seq<bv8>)
    ensures Updated(Updated(c, s), t) == Updated(c, s + t)
    decreases |t|
  {
    hide ByteStep, Xor, Word;
    if t == [] {
      assert s + t == s;
    } else {
      UpdatedInPieces(c, s, t[..|t| - 1]);
      assert (s + t)[..|s + t| - 1] == s + t[..|t| - 1];
    }
  }

  /** The same bytes keep different registers different. */
  lemma {:induction false} UpdatedInjective(c: bv32, d: bv32, t: seq<bv8>)
    requires Updated(c, t) == Updated(d, t)
    ensures c == d
    decreases |t|
  {
    hide ByteStep, Xor, Word;
    if t != [] {
      var b := Word(t[|t| - 1]);
      var x, y := Updated(c, t[..|t| - 1]), Updated(d, t[..|t| - 1]);
      ByteStepInjective(Xor(x, b), Xor(y, b));
      XorInjective(x, y, b);
      UpdatedInjective(c, d, t[..|t| - 1]);
    }
  }

  function ByteSteps(x: bv32, n: nat): bv32
    decreases n
  {
    if n == 0 then x else ByteStep(ByteSteps(x, n - 1))
  }

  lemma {:induction false} ByteStepsInjective(x: bv32, y: bv32, n: nat)
    requires ByteSteps(x, n) == ByteSteps(y, n)
    ensures x == y
    decreases n
  {
    hide ByteStep;
    if n > 0 {
      ByteStepInjective(ByteSteps(x, n - 1), ByteSteps(y, n - 1));
      ByteStepsInjective(x, y, n - 1);
    }
  }

  lemma {:induction false} ByteStepsLinear(x: bv32, y: bv32, n: nat)
    ensures ByteSteps(Xor(x, y), n) == Xor(ByteSteps(x, n), ByteSteps(y, n))
    decreases n
  {
    hide ByteStep, Xor;
    if n > 0 {
      ByteStepsLinear(x, y, n - 1);
      ByteStepLinear(ByteSteps(x, n - 1), ByteSteps(y, n - 1));
    }
  }

  function Down8(x: bv32): bv32 {
    x >> 8
  }

  function Up8(x: bv32): bv32 {
    x << 8
  }

  /** A byte at position k of a word. */
  function Raised(b: bv8, k: nat): bv32
    requires k < 4
  {
    if k == 0 then Word(b) else Up8(Raised(b, k - 1))
  }

  /** None of the masked bits is set. */
  predicate Clear(x: bv32, mask: bv32) {
    x & mask == 0
  }

  /** The word uses its low k bytes only. */
  predicate Fits(x: bv32, k: nat) {
    if k == 0 then x == 0 else if k == 1 then Clear(x, 0xFFFF_FF00) else if k == 2 then Clear(x, 0xFFFF_0000)
    else if k == 3 then Clear(x, 0xFF00_0000) else true
  }

  lemma WordFits(b: bv8)
    ensures Fits(Word(b), 1)
  {
  }

  lemma ByteUp8(x: bv32)
    requires Clear(x, 0xFFFF_FF00)
    ensures Clear(Up8(x), 0xFFFF_0000)
  {
  }

  lemma TwoBytesUp8(x: bv32)
    requires Clear(x, 0xFFFF_0000)
    ensures Clear(Up8(x), 0xFF00_0000)
  {
  }

  lemma LowByteUp8(x: bv32)
    ensures Clear(Up8(x), 0xFF)
  {
  }

  lemma Up8Masks(x: bv32)
    ensures x == 0 ==> Clear(Up8(x), 0xFFFF_FF00)
    ensures Clear(x, 0xFFFF_FF00) ==> Clear(Up8(x), 0xFFFF_0000)
    ensures Clear(x, 0xFFFF_0000) ==> Clear(Up8(x), 0xFF00_0000)
    ensures Clear(Up8(x), 0xFF)
  {
    assert Clear(Up8(0), 0xFFFF_FF00);
    LowByteUp8(x);
    hide Clear, Up8;
    if Clear(x, 0xFFFF_FF00) {
      ByteUp8(x);
    }
    if Clear(x, 0xFFFF_0000) {
      TwoBytesUp8(x);
    }
  }

  lemma Up8Down(x: bv32)
    requires Clear(x, 0xFF00_0000)
    ensures Down8(Up8(x)) == x
  {
  }

  lemma TwoBytesMask(x: bv32)
    requires Clear(x, 0xFFFF_FF00)
    ensures Clear(x, 0xFFFF_0000)
  {
  }

  lemma OneByteMask(x: bv32)
    requires Clear(x, 0xFFFF_0000)
    ensures Clear(x, 0xFF00_0000)
  {
  }

  lemma Masks(x: bv32)
    ensures x == 0 ==> Clear(x, 0xFFFF_FF00)
    ensures Clear(x, 0xFFFF_FF00) ==> Clear(x, 0xFFFF_0000)
    ensures Clear(x, 0xFFFF_0000) ==> Clear(x, 0xFF00_0000)
  {
    assert Clear(0, 0xFFFF_FF00);
    hide Clear;
    if Clear(x, 0xFFFF_FF00) {
      TwoBytesMask(x);
    }
    if Clear(x, 0xFFFF_0000) {
      OneByteMask(x);
    }
  }

  lemma Up8Fits(x: bv32, k: nat)
    requires k < 4 && Fits(x, k)
    ensures Fits(Up8(x), k + 1) && Clear(Up8(x), 0xFF) && Down8(Up8(x)) == x
  {
    hide Clear, Up8, Down8;
    Up8Masks(x);
    Masks(x);
    Up8Down(x);
  }

  lemma XorClear(x: bv32, y: bv32, mask: bv32)
    requires Clear(x, mask) && Clear(y, mask)
    ensures Clear(Xor(x, y), mask)
  {
  }

  lemma XorFits(x: bv32, y: bv32, k: nat)
    requires 0 < k && Fits(x, k) && Fits(y, k)
    ensures Fits(Xor(x, y), k)
  {
    hide Clear, Xor;
    if k == 1 {
      XorClear(x, y, 0xFFFF_FF00);
    } else if k == 2 {
      XorClear(x, y, 0xFFFF_0000);
    } else if k == 3 {
      XorClear(x, y, 0xFF00_0000);
    }
  }

  lemma FitsMore(x: bv32, k: nat)
    requires Fits(x, k)
    ensures Fits(x, k + 1)
  {
    hide Clear;
    Masks(x);
  }

  lemma RaisedFits(b: bv8, k: nat)
    requires k < 4
    ensures Fits(Raised(b, k), k + 1)
  {
    hide Up8, Down8, Clear, Word, Fits;
    if k == 0 {
      WordFits(b);
    } else {
      RaisedFits(b, k - 1);
      Up8Fits(Raised(b, k - 1), k);
    }
  }

  lemma ShiftedDown(x: bv32)
    requires Clear(x, 0xFF)
    ensures ByteStep(x) == Down8(x)
  {
    ShiftedOut(x);
  }

  lemma {:induction false} InnerStep(x: bv32, n: nat)
    ensures ByteSteps(x, n + 1) == ByteSteps(ByteStep(x), n)
    decreases n
  {
    hide ByteStep;
    if n > 0 {
      InnerStep(x, n - 1);
    }
  }

  /** After k bytes a byte at position k has come down to position 0. */
  lemma {:induction false} RaisedComesDown(b: bv8, k: nat)
    requires k < 4
    ensures ByteSteps(Raised(b, k), k) == Word(b)
    decreases k
  {
    hide ByteStep, Word, Up8, Down8, Clear, Fits;
    if k > 0 {
      RaisedFits(b, k - 1);
      Up8Fits(Raised(b, k - 1), k);
      ShiftedDown(Raised(b, k));
      InnerStep(Raised(b, k), k - 1);
      RaisedComesDown(b, k - 1);
    }
  }

  /** Up to four bytes as one word, the first byte lowest. */
  function Packed(s: seq<bv8>): bv32
    requires |s| <= 4
    decreases |s|
  {
    if s == [] then 0 else Xor(Packed(s[..|s| - 1]), Raised(s[|s| - 1], |s| - 1))
  }

  /** Up to four bytes go into the register as one word. */
  lemma {:induction false} UpdatedByWord(c: bv32, s: seq<bv8>)
    requires |s| <= 4
    ensures Updated(c, s) == ByteSteps(Xor(c, Packed(s)), |s|)
    decreases |s|
  {
    hide ByteStep, Xor, Word, Raised;
    if s == [] {
      XorSelf(c);
    } else {
      var n, b := |s| - 1, s[|s| - 1];
      UpdatedByWord(c, s[..n]);
      RaisedComesDown(b, n);
      var p := Packed(s[..n]);
      ByteStepsLinear(Xor(c, p), Raised(b, n), n);
      XorRegroups(c, p, Raised(b, n));
    }
  }

  lemma {:induction false} PackedFits(s: seq<bv8>)
    requires |s| <= 4
    ensures Fits(Packed(s), |s|)
    decreases |s|
  {
    hide Xor, Raised, Fits;
    if s == [] {
      NothingFits();
    } else {
      var n := |s| - 1;
      PackedFits(s[..n]);
      FitsMore(Packed(s[..n]), n);
      RaisedFits(s[n], n);
      XorFits(Packed(s[..n]), Raised(s[n], n), n + 1);
    }
  }

  lemma NothingFits()
    ensures Fits(0, 0)
  {
  }

  lemma TopByte0(a: bv32, b: bv32)
    requires Xor(0, a) == Xor(0, b)
    ensures a == b
  {
  }

  lemma TopByte1(x: bv32, y: bv32, a: bv32, b: bv32)
    requires Clear(x, 0xFFFF_FF00) && Clear(y, 0xFFFF_FF00) && Clear(a, 0xFFFF_FF00) && Clear(b, 0xFFFF_FF00)
    requires Xor(x, Up8(a)) == Xor(y, Up8(b))
    ensures a == b
  {
  }

  lemma TopByte2(x: bv32, y: bv32, a: bv32, b: bv32)
    requires Clear(x, 0xFFFF_0000) && Clear(y, 0xFFFF_0000) && Clear(a, 0xFFFF_FF00) && Clear(b, 0xFFFF_FF00)
    requires Xor(x, Up8(Up8(a))) == Xor(y, Up8(Up8(b)))
    ensures a == b
  {
  }

  lemma TopByte3(x: bv32, y: bv32, a: bv32, b: bv32)
    requires Clear(x, 0xFF00_0000) && Clear(y, 0xFF00_0000) && Clear(a, 0xFFFF_FF00) && Clear(b, 0xFFFF_FF00)
    requires Xor(x, Up8(Up8(Up8(a)))) == Xor(y, Up8(Up8(Up8(b))))
    ensures a == b
  {
  }

  /** The top byte of a word can be told from the bytes below it. */
  lemma TopByteIs(x: bv32, y: bv32, a: bv8, b: bv8, k: nat)
    requires k < 4 && Fits(x, k) && Fits(y, k) && Xor(x, Raised(a, k)) == Xor(y, Raised(b, k))
    ensures Word(a) == Word(b)
  {
    hide Word, Xor, Up8, Clear;
    WordFits(a);
    WordFits(b);
    assert k > 1 ==> Raised(a, k - 1) == Up8(Raised(a, k - 2)) && Raised(b, k - 1) == Up8(Raised(b, k - 2));
    assert k > 2 ==> Raised(a, 1) == Up8(Word(a)) && Raised(b, 1) == Up8(Word(b));
    if k == 0 {
      TopByte0(Word(a), Word(b));
    } else if k == 1 {
      TopByte1(x, y, Word(a), Word(b));
    } else if k == 2 {
      TopByte2(x, y, Word(a), Word(b));
    } else {
      TopByte3(x, y, Word(a), Word(b));
    }
  }

  lemma WordInjective(a: bv8, b: bv8)
    requires Word(a) == Word(b)
    ensures a == b
  {
  }

  /** Different bytes make different words. */
  lemma {:induction false} PackedInjective(s: seq<bv8>, t: seq<bv8>)
    requires |s| == |t| <= 4 && Packed(s) == Packed(t)
    ensures s == t
    decreases |s|
  {
    hide Xor, Raised, Word, Fits;
    if s != [] {
      var n := |s| - 1;
      PackedFits(s[..n]);
      PackedFits(t[..n]);
      TopByteIs(Packed(s[..n]), Packed(t[..n]), s[n], t[n], n);
      WordInjective(s[n], t[n]);
      XorInjective(Packed(s[..n]), Packed(t[..n]), Raised(s[n], n));
      PackedInjective(s[..n], t[..n]);
      assert s == s[..n] + [s[n]] && t == t[..n] + [t[n]];
    }
  }

  /** Two messages that differ only in up to four consecutive bytes have different checksums. */
  lemma BurstsAreDetected(p: seq<bv8>, s: seq<bv8>, t: seq<bv8>, q: seq<bv8>)
    requires |s| == |t| <= 4 && s != t
    ensures Checksum(p + s + q) != Checksum(p + t + q)
  {
    hide ByteStep, Xor, Word, Packed;
    if Checksum(p + s + q) == Checksum(p + t + q) {
      var c := Updated(0xFFFF_FFFF, p);
      XorInjective(Updated(0xFFFF_FFFF, p + s + q), Updated(0xFFFF_FFFF, p + t + q), 0xFFFF_FFFF);
      UpdatedInPieces(0xFFFF_FFFF, p + s, q);
      UpdatedInPieces(0xFFFF_FFFF, p + t, q);
      UpdatedInjective(Updated(0xFFFF_FFFF, p + s), Updated(0xFFFF_FFFF, p + t), q);
      UpdatedInPieces(0xFFFF_FFFF, p, s);
      UpdatedInPieces(0xFFFF_FFFF, p, t);
      UpdatedByWord(c, s);
      UpdatedByWord(c, t);
      ByteStepsInjective(Xor(c, Packed(s)), Xor(c, Packed(t)), |s|);
      XorSwaps(c, Packed(s));
      XorSwaps(c, Packed(t));
      XorInjective(Packed(s), Packed(t), c);
      PackedInjective(s, t);
    }
  }

  /** Two messages of equal length that differ in exactly one byte have different checksums. */
  lemma OneByteIsDetected(m: seq<bv8>, i: nat, b: bv8)
    requires i < |m| && m[i] != b
    ensures Checksum(m) != Checksum(m[i := b])
  {
    assert m == m[..i] + [m[i]] + m[i + 1..];
    assert m[i := b] == m[..i] + [b] + m[i + 1..];
    assert [m[i]][0] != [b][0];
    BurstsAreDetected(m[..i], [m[i]], [b], m[i + 1..]);
  }
}
