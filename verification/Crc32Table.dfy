/** The precomputed CRC-32 table (common/crc.c:13-57), sixteen entries a row, and the proof
    that every entry is eight steps of the reflected division by 0x04C11DB7. */
module Crc32Table {

  function Row0(i: bv8): bv32 {
    if i == 0x00 then 0x00000000 else if i == 0x01 then 0x77073096 else if i == 0x02 then 0xee0e612c else
    if i == 0x03 then 0x990951ba else if i == 0x04 then 0x076dc419 else if i == 0x05 then 0x706af48f else
    if i == 0x06 then 0xe963a535 else if i == 0x07 then 0x9e6495a3 else if i == 0x08 then 0x0edb8832 else
    if i == 0x09 then 0x79dcb8a4 else if i == 0x0a then 0xe0d5e91e else if i == 0x0b then 0x97d2d988 else
    if i == 0x0c then 0x09b64c2b else if i == 0x0d then 0x7eb17cbd else if i == 0x0e then 0xe7b82d07 else
    0x90bf1d91
  }

  function Row1(i: bv8): bv32 {
    if i == 0x10 then 0x1db71064 else if i == 0x11 then 0x6ab020f2 else if i == 0x12 then 0xf3b97148 else
    if i == 0x13 then 0x84be41de else if i == 0x14 then 0x1adad47d else if i == 0x15 then 0x6ddde4eb else
    if i == 0x16 then 0xf4d4b551 else if i == 0x17 then 0x83d385c7 else if i == 0x18 then 0x136c9856 else
    if i == 0x19 then 0x646ba8c0 else if i == 0x1a then 0xfd62f97a else if i == 0x1b then 0x8a65c9ec else
    if i == 0x1c then 0x14015c4f else if i == 0x1d then 0x63066cd9 else if i == 0x1e then 0xfa0f3d63 else
    0x8d080df5
  }

  function Row2(i: bv8): bv32 {
    if i == 0x20 then 0x3b6e20c8 else if i == 0x21 then 0x4c69105e else if i == 0x22 then 0xd56041e4 else
    if i == 0x23 then 0xa2677172 else if i == 0x24 then 0x3c03e4d1 else if i == 0x25 then 0x4b04d447 else
    if i == 0x26 then 0xd20d85fd else if i == 0x27 then 0xa50ab56b else if i == 0x28 then 0x35b5a8fa else
    if i == 0x29 then 0x42b2986c else if i == 0x2a then 0xdbbbc9d6 else if i == 0x2b then 0xacbcf940 else
    if i == 0x2c then 0x32d86ce3 else if i == 0x2d then 0x45df5c75 else if i == 0x2e then 0xdcd60dcf else
    0xabd13d59
  }

  function Row3(i: bv8): bv32 {
    if i == 0x30 then 0x26d930ac else if i == 0x31 then 0x51de003a else if i == 0x32 then 0xc8d75180 else
    if i == 0x33 then 0xbfd06116 else if i == 0x34 then 0x21b4f4b5 else if i == 0x35 then 0x56b3c423 else
    if i == 0x36 then 0xcfba9599 else if i == 0x37 then 0xb8bda50f else if i == 0x38 then 0x2802b89e else
    if i == 0x39 then 0x5f058808 else if i == 0x3a then 0xc60cd9b2 else if i == 0x3b then 0xb10be924 else
    if i == 0x3c then 0x2f6f7c87 else if i == 0x3d then 0x58684c11 else if i == 0x3e then 0xc1611dab else
    0xb6662d3d
  }

  function Row4(i: bv8): bv32 {
    if i == 0x40 then 0x76dc4190 else if i == 0x41 then 0x01db7106 else if i == 0x42 then 0x98d220bc else
    if i == 0x43 then 0xefd5102a else if i == 0x44 then 0x71b18589 else if i == 0x45 then 0x06b6b51f else
    if i == 0x46 then 0x9fbfe4a5 else if i == 0x47 then 0xe8b8d433 else if i == 0x48 then 0x7807c9a2 else
    if i == 0x49 then 0x0f00f934 else if i == 0x4a then 0x9609a88e else if i == 0x4b then 0xe10e9818 else
    if i == 0x4c then 0x7f6a0dbb else if i == 0x4d then 0x086d3d2d else if i == 0x4e then 0x91646c97 else
    0xe6635c01
  }

  function Row5(i: bv8): bv32 {
    if i == 0x50 then 0x6b6b51f4 else if i == 0x51 then 0x1c6c6162 else if i == 0x52 then 0x856530d8 else
    if i == 0x53 then 0xf262004e else if i == 0x54 then 0x6c0695ed else if i == 0x55 then 0x1b01a57b else
    if i == 0x56 then 0x8208f4c1 else if i == 0x57 then 0xf50fc457 else if i == 0x58 then 0x65b0d9c6 else
    if i == 0x59 then 0x12b7e950 else if i == 0x5a then 0x8bbeb8ea else if i == 0x5b then 0xfcb9887c else
    if i == 0x5c then 0x62dd1ddf else if i == 0x5d then 0x15da2d49 else if i == 0x5e then 0x8cd37cf3 else
    0xfbd44c65
  }

  function Row6(i: bv8): bv32 {
    if i == 0x60 then 0x4db26158 else if i == 0x61 then 0x3ab551ce else if i == 0x62 then 0xa3bc0074 else
    if i == 0x63 then 0xd4bb30e2 else if i == 0x64 then 0x4adfa541 else if i == 0x65 then 0x3dd895d7 else
    if i == 0x66 then 0xa4d1c46d else if i == 0x67 then 0xd3d6f4fb else if i == 0x68 then 0x4369e96a else
    if i == 0x69 then 0x346ed9fc else if i == 0x6a then 0xad678846 else if i == 0x6b then 0xda60b8d0 else
    if i == 0x6c then 0x44042d73 else if i == 0x6d then 0x33031de5 else if i == 0x6e then 0xaa0a4c5f else
    0xdd0d7cc9
  }

  function Row7(i: bv8): bv32 {
    if i == 0x70 then 0x5005713c else if i == 0x71 then 0x270241aa else if i == 0x72 then 0xbe0b1010 else
    if i == 0x73 then 0xc90c2086 else if i == 0x74 then 0x5768b525 else if i == 0x75 then 0x206f85b3 else
    if i == 0x76 then 0xb966d409 else if i == 0x77 then 0xce61e49f else if i == 0x78 then 0x5edef90e else
    if i == 0x79 then 0x29d9c998 else if i == 0x7a then 0xb0d09822 else if i == 0x7b then 0xc7d7a8b4 else
    if i == 0x7c then 0x59b33d17 else if i == 0x7d then 0x2eb40d81 else if i == 0x7e then 0xb7bd5c3b else
    0xc0ba6cad
  }

  function Row8(i: bv8): bv32 {
    if i == 0x80 then 0xedb88320 else if i == 0x81 then 0x9abfb3b6 else if i == 0x82 then 0x03b6e20c else
    if i == 0x83 then 0x74b1d29a else if i == 0x84 then 0xead54739 else if i == 0x85 then 0x9dd277af else
    if i == 0x86 then 0x04db2615 else if i == 0x87 then 0x73dc1683 else if i == 0x88 then 0xe3630b12 else
    if i == 0x89 then 0x94643b84 else if i == 0x8a then 0x0d6d6a3e else if i == 0x8b then 0x7a6a5aa8 else
    if i == 0x8c then 0xe40ecf0b else if i == 0x8d then 0x9309ff9d else if i == 0x8e then 0x0a00ae27 else
    0x7d079eb1
  }

  function Row9(i: bv8): bv32 {
    if i == 0x90 then 0xf00f9344 else if i == 0x91 then 0x8708a3d2 else if i == 0x92 then 0x1e01f268 else
    if i == 0x93 then 0x6906c2fe else if i == 0x94 then 0xf762575d else if i == 0x95 then 0x806567cb else
    if i == 0x96 then 0x196c3671 else if i == 0x97 then 0x6e6b06e7 else if i == 0x98 then 0xfed41b76 else
    if i == 0x99 then 0x89d32be0 else if i == 0x9a then 0x10da7a5a else if i == 0x9b then 0x67dd4acc else
    if i == 0x9c then 0xf9b9df6f else if i == 0x9d then 0x8ebeeff9 else if i == 0x9e then 0x17b7be43 else
    0x60b08ed5
  }

  function RowA(i: bv8): bv32 {
    if i == 0xa0 then 0xd6d6a3e8 else if i == 0xa1 then 0xa1d1937e else if i == 0xa2 then 0x38d8c2c4 else
    if i == 0xa3 then 0x4fdff252 else if i == 0xa4 then 0xd1bb67f1 else if i == 0xa5 then 0xa6bc5767 else
    if i == 0xa6 then 0x3fb506dd else if i == 0xa7 then 0x48b2364b else if i == 0xa8 then 0xd80d2bda else
    if i == 0xa9 then 0xaf0a1b4c else if i == 0xaa then 0x36034af6 else if i == 0xab then 0x41047a60 else
    if i == 0xac then 0xdf60efc3 else if i == 0xad then 0xa867df55 else if i == 0xae then 0x316e8eef else
    0x4669be79
  }

  function RowB(i: bv8): bv32 {
    if i == 0xb0 then 0xcb61b38c else if i == 0xb1 then 0xbc66831a else if i == 0xb2 then 0x256fd2a0 else
    if i == 0xb3 then 0x5268e236 else if i == 0xb4 then 0xcc0c7795 else if i == 0xb5 then 0xbb0b4703 else
    if i == 0xb6 then 0x220216b9 else if i == 0xb7 then 0x5505262f else if i == 0xb8 then 0xc5ba3bbe else
    if i == 0xb9 then 0xb2bd0b28 else if i == 0xba then 0x2bb45a92 else if i == 0xbb then 0x5cb36a04 else
    if i == 0xbc then 0xc2d7ffa7 else if i == 0xbd then 0xb5d0cf31 else if i == 0xbe then 0x2cd99e8b else
    0x5bdeae1d
  }

  function RowC(i: bv8): bv32 {
    if i == 0xc0 then 0x9b64c2b0 else if i == 0xc1 then 0xec63f226 else if i == 0xc2 then 0x756aa39c else
    if i == 0xc3 then 0x026d930a else if i == 0xc4 then 0x9c0906a9 else if i == 0xc5 then 0xeb0e363f else
    if i == 0xc6 then 0x72076785 else if i == 0xc7 then 0x05005713 else if i == 0xc8 then 0x95bf4a82 else
    if i == 0xc9 then 0xe2b87a14 else if i == 0xca then 0x7bb12bae else if i == 0xcb then 0x0cb61b38 else
    if i == 0xcc then 0x92d28e9b else if i == 0xcd then 0xe5d5be0d else if i == 0xce then 0x7cdcefb7 else
    0x0bdbdf21
  }

  function RowD(i: bv8): bv32 {
    if i == 0xd0 then 0x86d3d2d4 else if i == 0xd1 then 0xf1d4e242 else if i == 0xd2 then 0x68ddb3f8 else
    if i == 0xd3 then 0x1fda836e else if i == 0xd4 then 0x81be16cd else if i == 0xd5 then 0xf6b9265b else
    if i == 0xd6 then 0x6fb077e1 else if i == 0xd7 then 0x18b74777 else if i == 0xd8 then 0x88085ae6 else
    if i == 0xd9 then 0xff0f6a70 else if i == 0xda then 0x66063bca else if i == 0xdb then 0x11010b5c else
    if i == 0xdc then 0x8f659eff else if i == 0xdd then 0xf862ae69 else if i == 0xde then 0x616bffd3 else
    0x166ccf45
  }

  function RowE(i: bv8): bv32 {
    if i == 0xe0 then 0xa00ae278 else if i == 0xe1 then 0xd70dd2ee else if i == 0xe2 then 0x4e048354 else
    if i == 0xe3 then 0x3903b3c2 else if i == 0xe4 then 0xa7672661 else if i == 0xe5 then 0xd06016f7 else
    if i == 0xe6 then 0x4969474d else if i == 0xe7 then 0x3e6e77db else if i == 0xe8 then 0xaed16a4a else
    if i == 0xe9 then 0xd9d65adc else if i == 0xea then 0x40df0b66 else if i == 0xeb then 0x37d83bf0 else
    if i == 0xec then 0xa9bcae53 else if i == 0xed then 0xdebb9ec5 else if i == 0xee then 0x47b2cf7f else
    0x30b5ffe9
  }

  function RowF(i: bv8): bv32 {
    if i == 0xf0 then 0xbdbdf21c else if i == 0xf1 then 0xcabac28a else if i == 0xf2 then 0x53b39330 else
    if i == 0xf3 then 0x24b4a3a6 else if i == 0xf4 then 0xbad03605 else if i == 0xf5 then 0xcdd70693 else
    if i == 0xf6 then 0x54de5729 else if i == 0xf7 then 0x23d967bf else if i == 0xf8 then 0xb3667a2e else
    if i == 0xf9 then 0xc4614ab8 else if i == 0xfa then 0x5d681b02 else if i == 0xfb then 0x2a6f2b94 else
    if i == 0xfc then 0xb40bbe37 else if i == 0xfd then 0xc30c8ea1 else if i == 0xfe then 0x5a05df1b else
    0x2d02ef8d
  }

  function Table(i: bv8): bv32 {
    if i < 0x10 then Row0(i) else
    if i < 0x20 then Row1(i) else
    if i < 0x30 then Row2(i) else
    if i < 0x40 then Row3(i) else
    if i < 0x50 then Row4(i) else
    if i < 0x60 then Row5(i) else
    if i < 0x70 then Row6(i) else
    if i < 0x80 then Row7(i) else
    if i < 0x90 then Row8(i) else
    if i < 0xa0 then Row9(i) else
    if i < 0xb0 then RowA(i) else
    if i < 0xc0 then RowB(i) else
    if i < 0xd0 then RowC(i) else
    if i < 0xe0 then RowD(i) else
    if i < 0xf0 then RowE(i) else
    RowF(i)
  }

  /** One step of the division, least significant bit first: 0xEDB88320 is 0x04C11DB7 reversed. */
  function Bit(x: bv32): bv32 {
    if x & 1 == 1 then (x >> 1) ^ 0xEDB88320 else x >> 1
  }

  function Steps(x: bv32, n: nat): bv32
    decreases n
  {
    if n == 0 then x else Steps(Bit(x), n - 1)
  }

  lemma Row0IsDivision(i: bv8)
    requires 0x00 <= i <= 0x0f
    ensures Row0(i) == Steps(i as bv32, 8)
  {
    if i == 0x00 {} else if i == 0x01 {} else if i == 0x02 {} else if i == 0x03 {} else if i == 0x04 {} else
    if i == 0x05 {} else if i == 0x06 {} else if i == 0x07 {} else if i == 0x08 {} else if i == 0x09 {} else
    if i == 0x0a {} else if i == 0x0b {} else if i == 0x0c {} else if i == 0x0d {} else if i == 0x0e {} else {}
  }

  lemma Row1IsDivision(i: bv8)
    requires 0x10 <= i <= 0x1f
    ensures Row1(i) == Steps(i as bv32, 8)
  {
    if i == 0x10 {} else if i == 0x11 {} else if i == 0x12 {} else if i == 0x13 {} else if i == 0x14 {} else
    if i == 0x15 {} else if i == 0x16 {} else if i == 0x17 {} else if i == 0x18 {} else if i == 0x19 {} else
    if i == 0x1a {} else if i == 0x1b {} else if i == 0x1c {} else if i == 0x1d {} else if i == 0x1e {} else {}
  }

  lemma Row2IsDivision(i: bv8)
    requires 0x20 <= i <= 0x2f
    ensures Row2(i) == Steps(i as bv32, 8)
  {
    if i == 0x20 {} else if i == 0x21 {} else if i == 0x22 {} else if i == 0x23 {} else if i == 0x24 {} else
    if i == 0x25 {} else if i == 0x26 {} else if i == 0x27 {} else if i == 0x28 {} else if i == 0x29 {} else
    if i == 0x2a {} else if i == 0x2b {} else if i == 0x2c {} else if i == 0x2d {} else if i == 0x2e {} else {}
  }

  lemma Row3IsDivision(i: bv8)
    requires 0x30 <= i <= 0x3f
    ensures Row3(i) == Steps(i as bv32, 8)
  {
    if i == 0x30 {} else if i == 0x31 {} else if i == 0x32 {} else if i == 0x33 {} else if i == 0x34 {} else
    if i == 0x35 {} else if i == 0x36 {} else if i == 0x37 {} else if i == 0x38 {} else if i == 0x39 {} else
    if i == 0x3a {} else if i == 0x3b {} else if i == 0x3c {} else if i == 0x3d {} else if i == 0x3e {} else {}
  }

  lemma Row4IsDivision(i: bv8)
    requires 0x40 <= i <= 0x4f
    ensures Row4(i) == Steps(i as bv32, 8)
  {
    if i == 0x40 {} else if i == 0x41 {} else if i == 0x42 {} else if i == 0x43 {} else if i == 0x44 {} else
    if i == 0x45 {} else if i == 0x46 {} else if i == 0x47 {} else if i == 0x48 {} else if i == 0x49 {} else
    if i == 0x4a {} else if i == 0x4b {} else if i == 0x4c {} else if i == 0x4d {} else if i == 0x4e {} else {}
  }

  lemma Row5IsDivision(i: bv8)
    requires 0x50 <= i <= 0x5f
    ensures Row5(i) == Steps(i as bv32, 8)
  {
    if i == 0x50 {} else if i == 0x51 {} else if i == 0x52 {} else if i == 0x53 {} else if i == 0x54 {} else
    if i == 0x55 {} else if i == 0x56 {} else if i == 0x57 {} else if i == 0x58 {} else if i == 0x59 {} else
    if i == 0x5a {} else if i == 0x5b {} else if i == 0x5c {} else if i == 0x5d {} else if i == 0x5e {} else {}
  }

  lemma Row6IsDivision(i: bv8)
    requires 0x60 <= i <= 0x6f
    ensures Row6(i) == Steps(i as bv32, 8)
  {
    if i == 0x60 {} else if i == 0x61 {} else if i == 0x62 {} else if i == 0x63 {} else if i == 0x64 {} else
    if i == 0x65 {} else if i == 0x66 {} else if i == 0x67 {} else if i == 0x68 {} else if i == 0x69 {} else
    if i == 0x6a {} else if i == 0x6b {} else if i == 0x6c {} else if i == 0x6d {} else if i == 0x6e {} else {}
  }

  lemma Row7IsDivision(i: bv8)
    requires 0x70 <= i <= 0x7f
    ensures Row7(i) == Steps(i as bv32, 8)
  {
    if i == 0x70 {} else if i == 0x71 {} else if i == 0x72 {} else if i == 0x73 {} else if i == 0x74 {} else
    if i == 0x75 {} else if i == 0x76 {} else if i == 0x77 {} else if i == 0x78 {} else if i == 0x79 {} else
    if i == 0x7a {} else if i == 0x7b {} else if i == 0x7c {} else if i == 0x7d {} else if i == 0x7e {} else {}
  }

  lemma Row8IsDivision(i: bv8)
    requires 0x80 <= i <= 0x8f
    ensures Row8(i) == Steps(i as bv32, 8)
  {
    if i == 0x80 {} else if i == 0x81 {} else if i == 0x82 {} else if i == 0x83 {} else if i == 0x84 {} else
    if i == 0x85 {} else if i == 0x86 {} else if i == 0x87 {} else if i == 0x88 {} else if i == 0x89 {} else
    if i == 0x8a {} else if i == 0x8b {} else if i == 0x8c {} else if i == 0x8d {} else if i == 0x8e {} else {}
  }

  lemma Row9IsDivision(i: bv8)
    requires 0x90 <= i <= 0x9f
    ensures Row9(i) == Steps(i as bv32, 8)
  {
    if i == 0x90 {} else if i == 0x91 {} else if i == 0x92 {} else if i == 0x93 {} else if i == 0x94 {} else
    if i == 0x95 {} else if i == 0x96 {} else if i == 0x97 {} else if i == 0x98 {} else if i == 0x99 {} else
    if i == 0x9a {} else if i == 0x9b {} else if i == 0x9c {} else if i == 0x9d {} else if i == 0x9e {} else {}
  }

  lemma RowAIsDivision(i: bv8)
    requires 0xa0 <= i <= 0xaf
    ensures RowA(i) == Steps(i as bv32, 8)
  {
    if i == 0xa0 {} else if i == 0xa1 {} else if i == 0xa2 {} else if i == 0xa3 {} else if i == 0xa4 {} else
    if i == 0xa5 {} else if i == 0xa6 {} else if i == 0xa7 {} else if i == 0xa8 {} else if i == 0xa9 {} else
    if i == 0xaa {} else if i == 0xab {} else if i == 0xac {} else if i == 0xad {} else if i == 0xae {} else {}
  }

  lemma RowBIsDivision(i: bv8)
    requires 0xb0 <= i <= 0xbf
    ensures RowB(i) == Steps(i as bv32, 8)
  {
    if i == 0xb0 {} else if i == 0xb1 {} else if i == 0xb2 {} else if i == 0xb3 {} else if i == 0xb4 {} else
    if i == 0xb5 {} else if i == 0xb6 {} else if i == 0xb7 {} else if i == 0xb8 {} else if i == 0xb9 {} else
    if i == 0xba {} else if i == 0xbb {} else if i == 0xbc {} else if i == 0xbd {} else if i == 0xbe {} else {}
  }

  lemma RowCIsDivision(i: bv8)
    requires 0xc0 <= i <= 0xcf
    ensures RowC(i) == Steps(i as bv32, 8)
  {
    if i == 0xc0 {} else if i == 0xc1 {} else if i == 0xc2 {} else if i == 0xc3 {} else if i == 0xc4 {} else
    if i == 0xc5 {} else if i == 0xc6 {} else if i == 0xc7 {} else if i == 0xc8 {} else if i == 0xc9 {} else
    if i == 0xca {} else if i == 0xcb {} else if i == 0xcc {} else if i == 0xcd {} else if i == 0xce {} else {}
  }

  lemma RowDIsDivision(i: bv8)
    requires 0xd0 <= i <= 0xdf
    ensures RowD(i) == Steps(i as bv32, 8)
  {
    if i == 0xd0 {} else if i == 0xd1 {} else if i == 0xd2 {} else if i == 0xd3 {} else if i == 0xd4 {} else
    if i == 0xd5 {} else if i == 0xd6 {} else if i == 0xd7 {} else if i == 0xd8 {} else if i == 0xd9 {} else
    if i == 0xda {} else if i == 0xdb {} else if i == 0xdc {} else if i == 0xdd {} else if i == 0xde {} else {}
  }

  lemma RowEIsDivision(i: bv8)
    requires 0xe0 <= i <= 0xef
    ensures RowE(i) == Steps(i as bv32, 8)
  {
    if i == 0xe0 {} else if i == 0xe1 {} else if i == 0xe2 {} else if i == 0xe3 {} else if i == 0xe4 {} else
    if i == 0xe5 {} else if i == 0xe6 {} else if i == 0xe7 {} else if i == 0xe8 {} else if i == 0xe9 {} else
    if i == 0xea {} else if i == 0xeb {} else if i == 0xec {} else if i == 0xed {} else if i == 0xee {} else {}
  }

  lemma RowFIsDivision(i: bv8)
    requires 0xf0 <= i <= 0xff
    ensures RowF(i) == Steps(i as bv32, 8)
  {
    if i == 0xf0 {} else if i == 0xf1 {} else if i == 0xf2 {} else if i == 0xf3 {} else if i == 0xf4 {} else
    if i == 0xf5 {} else if i == 0xf6 {} else if i == 0xf7 {} else if i == 0xf8 {} else if i == 0xf9 {} else
    if i == 0xfa {} else if i == 0xfb {} else if i == 0xfc {} else if i == 0xfd {} else if i == 0xfe {} else {}
  }

  lemma TableIsDivision(i: bv8)
    ensures Table(i) == Steps(i as bv32, 8)
  {
    hide Steps, Bit, Row0, Row1, Row2, Row3, Row4, Row5, Row6, Row7, Row8, Row9, RowA, RowB, RowC, RowD, RowE, RowF;
    if i < 0x10 { Row0IsDivision(i); } else if i < 0x20 { Row1IsDivision(i); } else
    if i < 0x30 { Row2IsDivision(i); } else if i < 0x40 { Row3IsDivision(i); } else
    if i < 0x50 { Row4IsDivision(i); } else if i < 0x60 { Row5IsDivision(i); } else
    if i < 0x70 { Row6IsDivision(i); } else if i < 0x80 { Row7IsDivision(i); } else
    if i < 0x90 { Row8IsDivision(i); } else if i < 0xa0 { Row9IsDivision(i); } else
    if i < 0xb0 { RowAIsDivision(i); } else if i < 0xc0 { RowBIsDivision(i); } else
    if i < 0xd0 { RowCIsDivision(i); } else if i < 0xe0 { RowDIsDivision(i); } else
    if i < 0xf0 { RowEIsDivision(i); } else { RowFIsDivision(i); }
  }
}
