/** CRC-32C as SCTP uses it (section 2 of RFC 3309): a table-driven loop against the bitwise definition. */
module Crc32c {
  type octets = seq<bv8>

  /** The reflected generator polynomial. */
  const POLYNOMIAL: bv32 := 0x82F63B78

  /** One message bit: shift right and subtract the polynomial when a one falls out. */
  function Bit(x: bv32): bv32 {
    if x & 1 == 1 then (x >> 1) ^ POLYNOMIAL else x >> 1
  }

  /** Eight message bits. */
  function Byte(x: bv32): bv32 {
    Bit(Bit(Bit(Bit(Bit(Bit(Bit(Bit(x))))))))
  }

  // ---------- the table of 256 entries, sixteen to a row ----------

  function Row0(c: nat): bv32 {
    match c
    case 0 => 0x00000000 case 1 => 0xF26B8303
    case 2 => 0xE13B70F7 case 3 => 0x1350F3F4
    case 4 => 0xC79A971F case 5 => 0x35F1141C
    case 6 => 0x26A1E7E8 case 7 => 0xD4CA64EB
    case 8 => 0x8AD958CF case 9 => 0x78B2DBCC
    case 10 => 0x6BE22838 case 11 => 0x9989AB3B
    case 12 => 0x4D43CFD0 case 13 => 0xBF284CD3
    case 14 => 0xAC78BF27 case _ => 0x5E133C24
  }

  function Row1(c: nat): bv32 {
    match c
    case 0 => 0x105EC76F case 1 => 0xE235446C
    case 2 => 0xF165B798 case 3 => 0x030E349B
    case 4 => 0xD7C45070 case 5 => 0x25AFD373
    case 6 => 0x36FF2087 case 7 => 0xC494A384
    case 8 => 0x9A879FA0 case 9 => 0x68EC1CA3
    case 10 => 0x7BBCEF57 case 11 => 0x89D76C54
    case 12 => 0x5D1D08BF case 13 => 0xAF768BBC
    case 14 => 0xBC267848 case _ => 0x4E4DFB4B
  }

  function Row2(c: nat): bv32 {
    match c
    case 0 => 0x20BD8EDE case 1 => 0xD2D60DDD
    case 2 => 0xC186FE29 case 3 => 0x33ED7D2A
    case 4 => 0xE72719C1 case 5 => 0x154C9AC2
    case 6 => 0x061C6936 case 7 => 0xF477EA35
    case 8 => 0xAA64D611 case 9 => 0x580F5512
    case 10 => 0x4B5FA6E6 case 11 => 0xB93425E5
    case 12 => 0x6DFE410E case 13 => 0x9F95C20D
    case 14 => 0x8CC531F9 case _ => 0x7EAEB2FA
  }

  function Row3(c: nat): bv32 {
    match c
    case 0 => 0x30E349B1 case 1 => 0xC288CAB2
    case 2 => 0xD1D83946 case 3 => 0x23B3BA45
    case 4 => 0xF779DEAE case 5 => 0x05125DAD
    case 6 => 0x1642AE59 case 7 => 0xE4292D5A
    case 8 => 0xBA3A117E case 9 => 0x4851927D
    case 10 => 0x5B016189 case 11 => 0xA96AE28A
    case 12 => 0x7DA08661 case 13 => 0x8FCB0562
    case 14 => 0x9C9BF696 case _ => 0x6EF07595
  }

  function Row4(c: nat): bv32 {
    match c
    case 0 => 0x417B1DBC case 1 => 0xB3109EBF
    case 2 => 0xA0406D4B case 3 => 0x522BEE48
    case 4 => 0x86E18AA3 case 5 => 0x748A09A0
    case 6 => 0x67DAFA54 case 7 => 0x95B17957
    case 8 => 0xCBA24573 case 9 => 0x39C9C670
    case 10 => 0x2A993584 case 11 => 0xD8F2B687
    case 12 => 0x0C38D26C case 13 => 0xFE53516F
    case 14 => 0xED03A29B case _ => 0x1F682198
  }

  function Row5(c: nat): bv32 {
    match c
    case 0 => 0x5125DAD3 case 1 => 0xA34E59D0
    case 2 => 0xB01EAA24 case 3 => 0x42752927
    case 4 => 0x96BF4DCC case 5 => 0x64D4CECF
    case 6 => 0x77843D3B case 7 => 0x85EFBE38
    case 8 => 0xDBFC821C case 9 => 0x2997011F
    case 10 => 0x3AC7F2EB case 11 => 0xC8AC71E8
    case 12 => 0x1C661503 case 13 => 0xEE0D9600
    case 14 => 0xFD5D65F4 case _ => 0x0F36E6F7
  }

  function Row6(c: nat): bv32 {
    match c
    case 0 => 0x61C69362 case 1 => 0x93AD1061
    case 2 => 0x80FDE395 case 3 => 0x72966096
    case 4 => 0xA65C047D case 5 => 0x5437877E
    case 6 => 0x4767748A case 7 => 0xB50CF789
    case 8 => 0xEB1FCBAD case 9 => 0x197448AE
    case 10 => 0x0A24BB5A case 11 => 0xF84F3859
    case 12 => 0x2C855CB2 case 13 => 0xDEEEDFB1
    case 14 => 0xCDBE2C45 case _ => 0x3FD5AF46
  }

  function Row7(c: nat): bv32 {
    match c
    case 0 => 0x7198540D case 1 => 0x83F3D70E
    case 2 => 0x90A324FA case 3 => 0x62C8A7F9
    case 4 => 0xB602C312 case 5 => 0x44694011
    case 6 => 0x5739B3E5 case 7 => 0xA55230E6
    case 8 => 0xFB410CC2 case 9 => 0x092A8FC1
    case 10 => 0x1A7A7C35 case 11 => 0xE811FF36
    case 12 => 0x3CDB9BDD case 13 => 0xCEB018DE
    case 14 => 0xDDE0EB2A case _ => 0x2F8B6829
  }

  function Row8(c: nat): bv32 {
    match c
    case 0 => 0x82F63B78 case 1 => 0x709DB87B
    case 2 => 0x63CD4B8F case 3 => 0x91A6C88C
    case 4 => 0x456CAC67 case 5 => 0xB7072F64
    case 6 => 0xA457DC90 case 7 => 0x563C5F93
    case 8 => 0x082F63B7 case 9 => 0xFA44E0B4
    case 10 => 0xE9141340 case 11 => 0x1B7F9043
    case 12 => 0xCFB5F4A8 case 13 => 0x3DDE77AB
    case 14 => 0x2E8E845F case _ => 0xDCE5075C
  }

  function Row9(c: nat): bv32 {
    match c
    case 0 => 0x92A8FC17 case 1 => 0x60C37F14
    case 2 => 0x73938CE0 case 3 => 0x81F80FE3
    case 4 => 0x55326B08 case 5 => 0xA759E80B
    case 6 => 0xB4091BFF case 7 => 0x466298FC
    case 8 => 0x1871A4D8 case 9 => 0xEA1A27DB
    case 10 => 0xF94AD42F case 11 => 0x0B21572C
    case 12 => 0xDFEB33C7 case 13 => 0x2D80B0C4
    case 14 => 0x3ED04330 case _ => 0xCCBBC033
  }

  function RowA(c: nat): bv32 {
    match c
    case 0 => 0xA24BB5A6 case 1 => 0x502036A5
    case 2 => 0x4370C551 case 3 => 0xB11B4652
    case 4 => 0x65D122B9 case 5 => 0x97BAA1BA
    case 6 => 0x84EA524E case 7 => 0x7681D14D
    case 8 => 0x2892ED69 case 9 => 0xDAF96E6A
    case 10 => 0xC9A99D9E case 11 => 0x3BC21E9D
    case 12 => 0xEF087A76 case 13 => 0x1D63F975
    case 14 => 0x0E330A81 case _ => 0xFC588982
  }

  function RowB(c: nat): bv32 {
    match c
    case 0 => 0xB21572C9 case 1 => 0x407EF1CA
    case 2 => 0x532E023E case 3 => 0xA145813D
    case 4 => 0x758FE5D6 case 5 => 0x87E466D5
    case 6 => 0x94B49521 case 7 => 0x66DF1622
    case 8 => 0x38CC2A06 case 9 => 0xCAA7A905
    case 10 => 0xD9F75AF1 case 11 => 0x2B9CD9F2
    case 12 => 0xFF56BD19 case 13 => 0x0D3D3E1A
    case 14 => 0x1E6DCDEE case _ => 0xEC064EED
  }

  function RowC(c: nat): bv32 {
    match c
    case 0 => 0xC38D26C4 case 1 => 0x31E6A5C7
    case 2 => 0x22B65633 case 3 => 0xD0DDD530
    case 4 => 0x0417B1DB case 5 => 0xF67C32D8
    case 6 => 0xE52CC12C case 7 => 0x1747422F
    case 8 => 0x49547E0B case 9 => 0xBB3FFD08
    case 10 => 0xA86F0EFC case 11 => 0x5A048DFF
    case 12 => 0x8ECEE914 case 13 => 0x7CA56A17
    case 14 => 0x6FF599E3 case _ => 0x9D9E1AE0
  }

  function RowD(c: nat): bv32 {
    match c
    case 0 => 0xD3D3E1AB case 1 => 0x21B862A8
    case 2 => 0x32E8915C case 3 => 0xC083125F
    case 4 => 0x144976B4 case 5 => 0xE622F5B7
    case 6 => 0xF5720643 case 7 => 0x07198540
    case 8 => 0x590AB964 case 9 => 0xAB613A67
    case 10 => 0xB831C993 case 11 => 0x4A5A4A90
    case 12 => 0x9E902E7B case 13 => 0x6CFBAD78
    case 14 => 0x7FAB5E8C case _ => 0x8DC0DD8F
  }

  function RowE(c: nat): bv32 {
    match c
    case 0 => 0xE330A81A case 1 => 0x115B2B19
    case 2 => 0x020BD8ED case 3 => 0xF0605BEE
    case 4 => 0x24AA3F05 case 5 => 0xD6C1BC06
    case 6 => 0xC5914FF2 case 7 => 0x37FACCF1
    case 8 => 0x69E9F0D5 case 9 => 0x9B8273D6
    case 10 => 0x88D28022 case 11 => 0x7AB90321
    case 12 => 0xAE7367CA case 13 => 0x5C18E4C9
    case 14 => 0x4F48173D case _ => 0xBD23943E
  }

  function RowF(c: nat): bv32 {
    match c
    case 0 => 0xF36E6F75 case 1 => 0x0105EC76
    case 2 => 0x12551F82 case 3 => 0xE03E9C81
    case 4 => 0x34F4F86A case 5 => 0xC69F7B69
    case 6 => 0xD5CF889D case 7 => 0x27A40B9E
    case 8 => 0x79B737BA case 9 => 0x8BDCB4B9
    case 10 => 0x988C474D case 11 => 0x6AE7C44E
    case 12 => 0xBE2DA0A5 case 13 => 0x4C4623A6
    case 14 => 0x5F16D052 case _ => 0xAD7D5351
  }

  function Entry(r: nat, c: nat): bv32 {
    match r
    case 0 => Row0(c)
    case 1 => Row1(c)
    case 2 => Row2(c)
    case 3 => Row3(c)
    case 4 => Row4(c)
    case 5 => Row5(c)
    case 6 => Row6(c)
    case 7 => Row7(c)
    case 8 => Row8(c)
    case 9 => Row9(c)
    case 10 => RowA(c)
    case 11 => RowB(c)
    case 12 => RowC(c)
    case 13 => RowD(c)
    case 14 => RowE(c)
    case _ => RowF(c)
  }

  function Nibble(x: bv32): (n: nat)
    ensures n < 16
  {
    if x == 0 then 0 else if x == 1 then 1 else if x == 2 then 2 else if x == 3 then 3 else if x == 4 then 4 else
    if x == 5 then 5 else if x == 6 then 6 else if x == 7 then 7 else if x == 8 then 8 else if x == 9 then 9 else
    if x == 10 then 10 else if x == 11 then 11 else if x == 12 then 12 else if x == 13 then 13 else
    if x == 14 then 14 else 15
  }

  /** crc32c_table[i]. */
  function Table(i: bv32): bv32
    requires i < 256
  {
    Entry(Nibble(i >> 4), Nibble(i & 0xf))
  }

  // ---------- linearity and injectivity of the bitwise step ----------

  /** Exclusive or under a name, so that proofs about states need not look at bits. */
  function Xor(a: bv32, b: bv32): bv32 {
    a ^ b
  }

  lemma BitLinearEven(x: bv32, y: bv32)
    requires x & 1 == 0 && y & 1 == 0
    ensures Bit(x ^ y) == Bit(x) ^ Bit(y)
  {
  }

  lemma BitLinearMixed(x: bv32, y: bv32)
    requires x & 1 == 1 && y & 1 == 0
    ensures Bit(x ^ y) == Bit(x) ^ Bit(y) && Bit(y ^ x) == Bit(x) ^ Bit(y) && Bit(x) ^ Bit(y) == Bit(y) ^ Bit(x)
  {
  }

  lemma BitLinearOdd(x: bv32, y: bv32)
    requires x & 1 == 1 && y & 1 == 1
    ensures Bit(x ^ y) == Bit(x) ^ Bit(y)
  {
  }

  lemma LastBit(x: bv32)
    ensures x & 1 == 0 || x & 1 == 1
  {
  }

  lemma BitLinear(x: bv32, y: bv32)
    ensures Bit(Xor(x, y)) == Xor(Bit(x), Bit(y))
  {
    hide Bit;
    LastBit(x);
    LastBit(y);
    if x & 1 == 1 {
      if y & 1 == 1 { BitLinearOdd(x, y); } else { BitLinearMixed(x, y); }
    } else {
      if y & 1 == 1 { BitLinearMixed(y, x); } else { BitLinearEven(x, y); }
    }
  }

  lemma ByteLinear(x: bv32, y: bv32)
    ensures Byte(Xor(x, y)) == Xor(Byte(x), Byte(y))
  {
    hide Bit, Xor;
    var x1, y1 := Bit(x), Bit(y);
    var x2, y2 := Bit(x1), Bit(y1);
    var x3, y3 := Bit(x2), Bit(y2);
    var x4, y4 := Bit(x3), Bit(y3);
    var x5, y5 := Bit(x4), Bit(y4);
    var x6, y6 := Bit(x5), Bit(y5);
    var x7, y7 := Bit(x6), Bit(y6);
    BitLinear(x, y);
    BitLinear(x1, y1);
    BitLinear(x2, y2);
    BitLinear(x3, y3);
    BitLinear(x4, y4);
    BitLinear(x5, y5);
    BitLinear(x6, y6);
    BitLinear(x7, y7);
  }

  /** The bit that falls out reappears as the top bit of the polynomial, so no step loses information. */
  lemma BitInjective(x: bv32, y: bv32)
    requires Bit(x) == Bit(y)
    ensures x == y
  {
  }

  lemma ByteInjective(x: bv32, y: bv32)
    requires Byte(x) == Byte(y)
    ensures x == y
  {
    hide Bit;
    var x1, y1 := Bit(x), Bit(y);
    var x2, y2 := Bit(x1), Bit(y1);
    var x3, y3 := Bit(x2), Bit(y2);
    var x4, y4 := Bit(x3), Bit(y3);
    var x5, y5 := Bit(x4), Bit(y4);
    var x6, y6 := Bit(x5), Bit(y5);
    var x7, y7 := Bit(x6), Bit(y6);
    BitInjective(x7, y7);
    BitInjective(x6, y6);
    BitInjective(x5, y5);
    BitInjective(x4, y4);
    BitInjective(x3, y3);
    BitInjective(x2, y2);
    BitInjective(x1, y1);
    BitInjective(x, y);
  }

  /** A state whose low byte is zero is merely shifted. */
  lemma ByteShifts(x: bv32)
    requires x & 0xff == 0
    ensures Byte(x) == x >> 8
  {
  }

  // ---------- the table is bitwise ----------

  lemma FirstRow(l: bv32)
    requires l < 16
    ensures Row0(Nibble(l)) == Byte(l)
  {
    hide Byte, Row0;
    FirstRowEntries();
    MiddleRowEntries();
    LaterRowEntries();
  }

  lemma FirstRowEntries()
    ensures Row0(0) == Byte(0) && Row0(1) == Byte(1) && Row0(2) == Byte(2) && Row0(3) == Byte(3)
    ensures Row0(4) == Byte(4) && Row0(5) == Byte(5) && Row0(6) == Byte(6) && Row0(7) == Byte(7)
  {
  }

  lemma MiddleRowEntries()
    ensures Row0(8) == Byte(8) && Row0(9) == Byte(9) && Row0(10) == Byte(10) && Row0(11) == Byte(11)
  {
  }

  lemma LaterRowEntries()
    ensures Row0(12) == Byte(12) && Row0(13) == Byte(13) && Row0(14) == Byte(14) && Row0(15) == Byte(15)
  {
  }

  lemma FirstColumn(h: bv32)
    requires h < 16
    ensures Entry(Nibble(h), 0) == Byte(h << 4)
  {
  }

  lemma Rows0To3(c: nat)
    requires c < 16
    ensures Row0(c) == Xor(Row0(0), Row0(c))
    ensures Row1(c) == Xor(Row1(0), Row0(c))
    ensures Row2(c) == Xor(Row2(0), Row0(c))
    ensures Row3(c) == Xor(Row3(0), Row0(c))
  {
  }

  lemma EntryIsSum0To3(r: nat, c: nat)
    requires 0 <= r < 4 && c < 16
    ensures Entry(r, c) == Xor(Entry(r, 0), Row0(c))
  {
    hide Xor, Row0, Row1, Row2, Row3, Row4, Row5, Row6, Row7, Row8, Row9, RowA, RowB, RowC, RowD, RowE, RowF;
    match r
    case 0 => Rows0To3(c);
    case 1 => Rows0To3(c);
    case 2 => Rows0To3(c);
    case _ => Rows0To3(c);
  }

  lemma Rows4To7(c: nat)
    requires c < 16
    ensures Row4(c) == Xor(Row4(0), Row0(c))
    ensures Row5(c) == Xor(Row5(0), Row0(c))
    ensures Row6(c) == Xor(Row6(0), Row0(c))
    ensures Row7(c) == Xor(Row7(0), Row0(c))
  {
  }

  lemma EntryIsSum4To7(r: nat, c: nat)
    requires 4 <= r < 8 && c < 16
    ensures Entry(r, c) == Xor(Entry(r, 0), Row0(c))
  {
    hide Xor, Row0, Row1, Row2, Row3, Row4, Row5, Row6, Row7, Row8, Row9, RowA, RowB, RowC, RowD, RowE, RowF;
    match r
    case 4 => Rows4To7(c);
    case 5 => Rows4To7(c);
    case 6 => Rows4To7(c);
    case _ => Rows4To7(c);
  }

  lemma Rows8And9(c: nat)
    requires c < 16
    ensures Row8(c) == Xor(Row8(0), Row0(c))
    ensures Row9(c) == Xor(Row9(0), Row0(c))
  {
  }

  lemma RowsAAndB(c: nat)
    requires c < 16
    ensures RowA(c) == Xor(RowA(0), Row0(c))
    ensures RowB(c) == Xor(RowB(0), Row0(c))
  {
  }

  lemma EntryIsSum8ToB(r: nat, c: nat)
    requires 8 <= r < 12 && c < 16
    ensures Entry(r, c) == Xor(Entry(r, 0), Row0(c))
  {
    hide Xor, Row0, Row1, Row2, Row3, Row4, Row5, Row6, Row7, Row8, Row9, RowA, RowB, RowC, RowD, RowE, RowF;
    match r
    case 8 => Rows8And9(c);
    case 9 => Rows8And9(c);
    case 10 => RowsAAndB(c);
    case _ => RowsAAndB(c);
  }

  lemma RowsCToF(c: nat)
    requires c < 16
    ensures RowC(c) == Xor(RowC(0), Row0(c))
    ensures RowD(c) == Xor(RowD(0), Row0(c))
    ensures RowE(c) == Xor(RowE(0), Row0(c))
    ensures RowF(c) == Xor(RowF(0), Row0(c))
  {
  }

  lemma EntryIsSumCToF(r: nat, c: nat)
    requires 12 <= r < 16 && c < 16
    ensures Entry(r, c) == Xor(Entry(r, 0), Row0(c))
  {
    hide Xor, Row0, Row1, Row2, Row3, Row4, Row5, Row6, Row7, Row8, Row9, RowA, RowB, RowC, RowD, RowE, RowF;
    match r
    case 12 => RowsCToF(c);
    case 13 => RowsCToF(c);
    case 14 => RowsCToF(c);
    case _ => RowsCToF(c);
  }

  /** A row is its first entry plus the first row. */
  lemma EntryIsSum(r: nat, c: nat)
    requires r < 16 && c < 16
    ensures Entry(r, c) == Xor(Entry(r, 0), Row0(c))
  {
    hide *;
    if r < 4 {
      EntryIsSum0To3(r, c);
    } else if r < 8 {
      EntryIsSum4To7(r, c);
    } else if r < 12 {
      EntryIsSum8ToB(r, c);
    } else {
      EntryIsSumCToF(r, c);
    }
  }

  lemma Nibbles(i: bv32)
    requires i < 256
    ensures i == Xor((i >> 4) << 4, i & 0xf) && (i & 0xf) < 16 && i >> 4 < 16
  {
  }

  lemma SumIsBitwise(high: bv32, shifted: bv32, low: bv32)
    requires high < 16 && low < 16 && shifted == high << 4
    ensures Entry(Nibble(high), Nibble(low)) == Byte(Xor(shifted, low))
  {
    FirstColumn(high);
    FirstRow(low);
    hide *;
    EntryIsSum(Nibble(high), Nibble(low));
    ByteLinear(shifted, low);
  }

  /** All 256 table entries are the bitwise remainders of their indices. */
  lemma TableIsBitwise(i: bv32)
    requires i < 256
    ensures Table(i) == Byte(i)
  {
    hide Byte, Entry, Nibble, Xor;
    Nibbles(i);
    SumIsBitwise(i >> 4, (i >> 4) << 4, i & 0xf);
  }

  lemma HighLow(x: bv32)
    ensures x == Xor(x & 0xffffff00, x & 0xff) && (x & 0xffffff00) & 0xff == 0
    ensures (x & 0xffffff00) >> 8 == x >> 8 && x & 0xff < 256
  {
  }

  lemma StepOf(high: bv32, shifted: bv32, low: bv32)
    requires high & 0xff == 0 && high >> 8 == shifted && low < 256
    ensures Xor(shifted, Table(low)) == Byte(Xor(high, low))
  {
    hide Byte, Table, Xor;
    ByteLinear(high, low);
    ByteShifts(high);
    TableIsBitwise(low);
  }

  /** One table step is eight bit steps. */
  lemma TableStep(x: bv32)
    ensures x & 0xff < 256 && Xor(x >> 8, Table(x & 0xff)) == Byte(x)
  {
    hide Byte, Table, Xor;
    HighLow(x);
    StepOf(x & 0xffffff00, x >> 8, x & 0xff);
  }

  // ---------- the running checksum ----------

  /** The message bit d enters at the bottom, lowest bit of each byte first. */
  function FeedBit(crc: bv32, d: bv32): bv32 {
    Bit(crc ^ (d & 1))
  }

  /** The eight bits of one message byte, fed one at a time. */
  function FeedByte(crc: bv32, b: bv32): bv32 {
    FeedBit(FeedBit(FeedBit(FeedBit(FeedBit(FeedBit(FeedBit(FeedBit(
      crc, b), b >> 1), b >> 2), b >> 3), b >> 4), b >> 5), b >> 6), b >> 7)
  }

  /** A message byte as a state. */
  function Wide(b: bv8): bv32 {
    b as bv32
  }

  /** The bit-at-a-time remainder of a buffer, from any starting state. */
  function Remainder(crc: bv32, buf: octets): bv32
    decreases |buf|
  {
    if |buf| == 0 then crc else Remainder(FeedByte(crc, Wide(buf[0])), buf[1..])
  }

  /** Mixing a whole byte into the state and feeding it bit by bit are the same. */
  lemma PullBit(crc: bv32, b: bv32, rest: bv32)
    requires rest == b >> 1
    ensures Bit(Xor(crc, b)) == Xor(FeedBit(crc, b), rest)
  {
    LastBit(crc ^ b);
    if (crc ^ b) & 1 == 1 { PullOne(crc, b); } else { PullZero(crc, b); }
  }

  lemma PullOne(crc: bv32, b: bv32)
    requires (crc ^ b) & 1 == 1
    ensures Bit(crc ^ b) == FeedBit(crc, b) ^ (b >> 1)
  {
  }

  lemma PullZero(crc: bv32, b: bv32)
    requires (crc ^ b) & 1 == 0
    ensures Bit(crc ^ b) == FeedBit(crc, b) ^ (b >> 1)
  {
  }

  lemma Shifts(b: bv32)
    requires b < 256
    ensures b >> 1 >> 1 == b >> 2 && b >> 2 >> 1 == b >> 3 && b >> 3 >> 1 == b >> 4 && b >> 4 >> 1 == b >> 5
    ensures b >> 5 >> 1 == b >> 6 && b >> 6 >> 1 == b >> 7 && b >> 7 >> 1 == 0
  {
  }

  lemma XorZero(a: bv32)
    ensures Xor(a, 0) == a
  {
  }

  lemma FeedByteIsByte(crc: bv32, b: bv32)
    requires b < 256
    ensures FeedByte(crc, b) == Byte(Xor(crc, b))
  {
    hide Bit, FeedBit, Xor;
    var c1 := FeedBit(crc, b);
    var c2 := FeedBit(c1, b >> 1);
    var c3 := FeedBit(c2, b >> 2);
    var c4 := FeedBit(c3, b >> 3);
    var c5 := FeedBit(c4, b >> 4);
    var c6 := FeedBit(c5, b >> 5);
    var c7 := FeedBit(c6, b >> 6);
    var c8 := FeedBit(c7, b >> 7);
    Shifts(b);
    PullBit(crc, b, b >> 1);
    PullBit(c1, b >> 1, b >> 2);
    PullBit(c2, b >> 2, b >> 3);
    PullBit(c3, b >> 3, b >> 4);
    PullBit(c4, b >> 4, b >> 5);
    PullBit(c5, b >> 5, b >> 6);
    PullBit(c6, b >> 6, b >> 7);
    PullBit(c7, b >> 7, 0);
    XorZero(c8);
  }

  lemma WidenByte(b: bv8)
    ensures Wide(b) < 256
  {
  }

  /** The body of the loop of add. */
  function TableByte(crc: bv32, b: bv32): bv32
    requires b < 256
  {
    IndexBound(Xor(crc, b));
    Xor(crc >> 8, Table(Xor(crc, b) & 0xff))
  }

  lemma IndexBound(x: bv32)
    ensures x & 0xff < 256
  {
  }

  lemma StepAt(shifted: bv32, low: bv32, x: bv32)
    requires shifted == x >> 8 && low == x & 0xff && low < 256
    ensures Xor(shifted, Table(low)) == Byte(x)
  {
    hide Byte, Table, Xor;
    TableStep(x);
  }

  lemma TableByteParts(crc: bv32, b: bv32, x: bv32, shifted: bv32, low: bv32)
    requires b < 256 && x == Xor(crc, b) && shifted == crc >> 8 && low == x & 0xff && low < 256
    ensures TableByte(crc, b) == Xor(shifted, Table(low))
  {
    hide Table, Xor;
  }

  lemma TableByteIsFeed(crc: bv32, b: bv32)
    requires b < 256
    ensures TableByte(crc, b) == FeedByte(crc, b)
  {
    var x := Xor(crc, b);
    IndexBound(x);
    ShiftPast(crc, b);
    TableByteParts(crc, b, x, crc >> 8, x & 0xff);
    hide *;
    StepAt(crc >> 8, x & 0xff, x);
    FeedByteIsByte(crc, b);
  }

  /** add: the table-driven loop computes the bit-at-a-time remainder. */
  method Add(start: bv32, buf: octets) returns (crc: bv32)
    ensures crc == Remainder(start, buf)
  {
    hide TableByte, FeedByte, Wide;
    crc := start;
    var i := 0;
    while i < |buf|
      invariant 0 <= i <= |buf|
      invariant Remainder(start, buf) == Remainder(crc, buf[i..])
    {
      assert buf[i..][1..] == buf[i + 1..];
      WidenByte(buf[i]);
      TableByteIsFeed(crc, Wide(buf[i]));
      crc := TableByte(crc, Wide(buf[i]));
      i := i + 1;
    }
  }

  lemma ShiftPast(crc: bv32, b: bv32)
    requires b < 256
    ensures (crc ^ b) >> 8 == crc >> 8
  {
  }

  /** The remainder of a concatenation continues from the remainder of its first part. */
  lemma {:induction false} RemainderConcat(crc: bv32, a: octets, b: octets)
    ensures Remainder(crc, a + b) == Remainder(Remainder(crc, a), b)
    decreases |a|
  {
    hide FeedByte, Wide;
    if |a| == 0 {
      assert a + b == b;
    } else {
      assert (a + b)[1..] == a[1..] + b;
      RemainderConcat(FeedByte(crc, Wide(a[0])), a[1..], b);
    }
  }

  /** done: complement and byte swap. */
  function Done(crc: bv32): bv32 {
    var tmp := !crc;
    var b0 := tmp & 0xff;
    var b1 := (tmp >> 8) & 0xff;
    var b2 := (tmp >> 16) & 0xff;
    var b3 := (tmp >> 24) & 0xff;
    (b0 << 24) | (b1 << 16) | (b2 << 8) | b3
  }

  lemma DoneInjective(x: bv32, y: bv32)
    requires Done(x) == Done(y)
    ensures x == y
  {
  }

  /** cksum. */
  function Checksum(buf: octets): bv32 {
    Done(Remainder(0xffffffff, buf))
  }

  method Cksum(buf: octets) returns (c: bv32)
    ensures c == Checksum(buf)
  {
    var crc := Add(0xffffffff, buf);
    c := Done(crc);
  }

  // ---------- every error within four consecutive bytes is detected ----------

  lemma {:induction false} RemainderInjective(x: bv32, y: bv32, buf: octets)
    requires Remainder(x, buf) == Remainder(y, buf)
    ensures x == y
    decreases |buf|
  {
    hide FeedByte, Byte, Xor, Wide;
    if |buf| > 0 {
      var b := Wide(buf[0]);
      WidenByte(buf[0]);
      RemainderInjective(FeedByte(x, b), FeedByte(y, b), buf[1..]);
      FeedByteIsByte(x, b);
      FeedByteIsByte(y, b);
      ByteInjective(Xor(x, b), Xor(y, b));
      CancelXor(x, y, b);
    }
  }

  lemma CancelXor(x: bv32, y: bv32, b: bv32)
    requires Xor(x, b) == Xor(y, b)
    ensures x == y
  {
  }

  /** Undoing one byte step on the difference of two states. */
  lemma Unstep(s: bv32, t: bv32, b: bv32, c: bv32, v: bv32)
    requires b < 256 && c < 256 && v < 0x1000000
    requires Xor(FeedByte(s, b), FeedByte(t, c)) == v
    ensures Xor(s, t) == Xor(Up(v), Xor(b, c))
  {
    hide FeedByte, Byte, Xor, Up;
    FeedByteIsByte(s, b);
    FeedByteIsByte(t, c);
    ByteLinear(Xor(s, b), Xor(t, c));
    UpIsInverse(v);
    ByteInjective(Xor(Xor(s, b), Xor(t, c)), Up(v));
    Reassociate(s, t, b, c);
  }

  function Up(v: bv32): bv32 {
    v << 8
  }

  lemma UpIsInverse(v: bv32)
    requires v < 0x1000000
    ensures Byte(Up(v)) == v
  {
    hide Byte;
    UpFits(v);
    Shifted(Up(v), v);
  }

  lemma UpFits(v: bv32)
    requires v < 0x1000000
    ensures Up(v) & 0xff == 0 && Up(v) >> 8 == v
  {
  }

  lemma Shifted(x: bv32, v: bv32)
    requires x & 0xff == 0 && x >> 8 == v
    ensures Byte(x) == v
  {
    hide Byte;
    ByteShifts(x);
  }

  lemma Reassociate(s: bv32, t: bv32, b: bv32, c: bv32)
    ensures Xor(s, t) == Xor(Xor(Xor(s, b), Xor(t, c)), Xor(b, c))
  {
    hide Xor;
    Interchange(s, b, t, c);
    XorTwice(Xor(s, t), Xor(b, c));
  }

  lemma Interchange(s: bv32, b: bv32, t: bv32, c: bv32)
    ensures Xor(Xor(s, b), Xor(t, c)) == Xor(Xor(s, t), Xor(b, c))
  {
    hide Xor;
    Associative(s, b, Xor(t, c));
    Associative(b, t, c);
    Associative(t, b, c);
    Commutative(b, t);
    Associative(s, t, Xor(b, c));
  }

  lemma Associative(a: bv32, b: bv32, c: bv32)
    ensures Xor(Xor(a, b), c) == Xor(a, Xor(b, c))
  {
  }

  lemma Commutative(a: bv32, b: bv32)
    ensures Xor(a, b) == Xor(b, a)
  {
  }

  lemma XorTwice(x: bv32, z: bv32)
    ensures Xor(Xor(x, z), z) == x
  {
  }

  /** The difference of two equal states, undone four times, is zero only if every byte difference is. */
  lemma ZeroDifference(d0: bv32, d1: bv32, d2: bv32, d3: bv32)
    requires d0 < 256 && d1 < 256 && d2 < 256 && d3 < 256
    ensures Xor(Up(0), d3) == d3 && d3 < 0x1000000 && Xor(Up(d3), d2) < 0x1000000
    ensures Xor(Up(Xor(Up(d3), d2)), d1) < 0x1000000
    ensures Xor(Up(Xor(Up(Xor(Up(d3), d2)), d1)), d0) == 0 ==> d0 == 0 && d1 == 0 && d2 == 0 && d3 == 0
  {
  }

  lemma SelfXor(x: bv32, y: bv32)
    ensures Xor(x, x) == 0 && (Xor(x, y) == 0 ==> x == y) && (x < 256 && y < 256 ==> Xor(x, y) < 256)
  {
  }

  lemma NarrowEqual(a: bv8, b: bv8)
    requires Wide(a) == Wide(b)
    ensures a == b
  {
  }

  /** From one state, four message bytes reach a state no other four bytes reach. */
  lemma FourBytesInjective(s: bv32, a0: bv32, a1: bv32, a2: bv32, a3: bv32, b0: bv32, b1: bv32, b2: bv32, b3: bv32)
    requires a0 < 256 && a1 < 256 && a2 < 256 && a3 < 256 && b0 < 256 && b1 < 256 && b2 < 256 && b3 < 256
    requires FeedByte(FeedByte(FeedByte(FeedByte(s, a0), a1), a2), a3) ==
             FeedByte(FeedByte(FeedByte(FeedByte(s, b0), b1), b2), b3)
    ensures a0 == b0 && a1 == b1 && a2 == b2 && a3 == b3
  {
    hide FeedByte, Xor, Up;
    var s1, t1 := FeedByte(s, a0), FeedByte(s, b0);
    var s2, t2 := FeedByte(s1, a1), FeedByte(t1, b1);
    var s3, t3 := FeedByte(s2, a2), FeedByte(t2, b2);
    var d0, d1, d2, d3 := Xor(a0, b0), Xor(a1, b1), Xor(a2, b2), Xor(a3, b3);
    SelfXor(FeedByte(s3, a3), s);
    SelfXor(s, s);
    SelfXor(a0, b0);
    SelfXor(a1, b1);
    SelfXor(a2, b2);
    SelfXor(a3, b3);
    ZeroDifference(d0, d1, d2, d3);
    Unstep(s3, t3, a3, b3, 0);
    Unstep(s2, t2, a2, b2, d3);
    Unstep(s1, t1, a1, b1, Xor(Up(d3), d2));
    Unstep(s, s, a0, b0, Xor(Up(Xor(Up(d3), d2)), d1));
  }

  lemma RemainderFour(s: bv32, w: octets)
    requires |w| == 4
    ensures Remainder(s, w) == FeedByte(FeedByte(FeedByte(FeedByte(s, Wide(w[0])), Wide(w[1])), Wide(w[2])), Wide(w[3]))
  {
    hide FeedByte, Wide;
    var s1 := FeedByte(s, Wide(w[0]));
    var s2 := FeedByte(s1, Wide(w[1]));
    var s3 := FeedByte(s2, Wide(w[2]));
    assert Remainder(s, w) == Remainder(s1, w[1..]);
    assert w[1..][1..] == w[2..] && Remainder(s1, w[1..]) == Remainder(s2, w[2..]);
    assert w[2..][1..] == w[3..] && Remainder(s2, w[2..]) == Remainder(s3, w[3..]);
    assert w[3..][1..] == [] && Remainder(s3, w[3..]) == FeedByte(s3, Wide(w[3]));
  }

  lemma WindowInjective(s: bv32, w: octets, v: octets)
    requires |w| == |v| == 4 && Remainder(s, w) == Remainder(s, v)
    ensures w == v
  {
    hide FeedByte, Remainder, Wide;
    RemainderFour(s, w);
    RemainderFour(s, v);
    WidenByte(w[0]); WidenByte(w[1]); WidenByte(w[2]); WidenByte(w[3]);
    WidenByte(v[0]); WidenByte(v[1]); WidenByte(v[2]); WidenByte(v[3]);
    FourBytesInjective(s, Wide(w[0]), Wide(w[1]), Wide(w[2]), Wide(w[3]),
                       Wide(v[0]), Wide(v[1]), Wide(v[2]), Wide(v[3]));
    NarrowEqual(w[0], v[0]);
    NarrowEqual(w[1], v[1]);
    NarrowEqual(w[2], v[2]);
    NarrowEqual(w[3], v[3]);
  }

  ghost predicate DifferOnlyWithin(a: octets, b: octets, at: nat) {
    |a| == |b| && forall k :: 0 <= k < |a| && !(at <= k < at + 4) ==> a[k] == b[k]
  }

  /** A shorter window at the end of the buffers is filled up with zero bytes, which changes nothing. */
  lemma ShortWindowInjective(s: bv32, w: octets, v: octets)
    requires |w| == |v| <= 4 && Remainder(s, w) == Remainder(s, v)
    ensures w == v
  {
    var fill: octets := seq(4 - |w|, _ => 0);
    RemainderConcat(s, w, fill);
    RemainderConcat(s, v, fill);
    WindowInjective(s, w + fill, v + fill);
    assert w == (w + fill)[..|w|] && v == (v + fill)[..|w|];
  }

  /** Different buffers that differ only inside four consecutive bytes have different checksums. */
  lemma BurstDetected(a: octets, b: octets, at: nat)
    requires DifferOnlyWithin(a, b, at) && a != b
    ensures Checksum(a) != Checksum(b)
  {
    if Checksum(a) == Checksum(b) {
      DoneInjective(Remainder(0xffffffff, a), Remainder(0xffffffff, b));
      var lo := if at < |a| then at else |a|;
      var hi := if at + 4 < |a| then at + 4 else |a|;
      WindowOf(a, b, lo, hi);
      assert false;
    }
  }

  lemma WindowOf(a: octets, b: octets, lo: nat, hi: nat)
    requires lo <= hi <= |a| && |a| == |b| && hi - lo <= 4 && a[..lo] == b[..lo] && a[hi..] == b[hi..]
    requires Remainder(0xffffffff, a) == Remainder(0xffffffff, b)
    ensures a == b
  {
    hide Remainder;
    var p, w, v, q := a[..lo], a[lo..hi], b[lo..hi], a[hi..];
    assert a == p + (w + q) && b == p + (v + q);
    RemainderConcat(0xffffffff, p, w + q);
    RemainderConcat(0xffffffff, p, v + q);
    var s := Remainder(0xffffffff, p);
    RemainderConcat(s, w, q);
    RemainderConcat(s, v, q);
    RemainderInjective(Remainder(s, w), Remainder(s, v), q);
    ShortWindowInjective(s, w, v);
  }

  // ---------- every burst of at most 32 bits is detected ----------

  /** The lowest and the highest n bits of a state, for up to eight bits. */
  function Low(n: nat): bv32 {
    match n
    case 0 => 0 case 1 => 1 case 2 => 3 case 3 => 7 case 4 => 15
    case 5 => 31 case 6 => 63 case 7 => 127 case _ => 255
  }

  function High(n: nat): bv32 {
    match n
    case 0 => 0 case 1 => 0x8000_0000 case 2 => 0xC000_0000 case 3 => 0xE000_0000 case 4 => 0xF000_0000
    case 5 => 0xF800_0000 case 6 => 0xFC00_0000 case 7 => 0xFE00_0000 case _ => 0xFF00_0000
  }

  predicate LowClear(x: bv32, n: nat) { x & Low(n) == 0 }

  predicate HighClear(x: bv32, n: nat) { x & High(n) == 0 }

  predicate Within(x: bv32, n: nat) { x <= Low(n) }

  /** n steps of the bitwise CRC. */
  function Bits(n: nat, x: bv32): bv32 {
    if n == 0 then x else Bits(n - 1, Bit(x))
  }

  lemma {:induction false} BitsAdd(m: nat, n: nat, x: bv32)
    ensures Bits(m + n, x) == Bits(n, Bits(m, x))
    decreases m
  {
    hide Bit;
    if m > 0 {
      BitsAdd(m - 1, n, Bit(x));
    }
  }

  lemma ByteIsBits(x: bv32)
    ensures Byte(x) == Bits(8, x)
  {
    hide Bit;
    BitsAdd(4, 4, x);
    FourBits(x);
    FourBits(Bits(4, x));
  }

  lemma FourBits(x: bv32)
    ensures Bits(4, x) == Bit(Bit(Bit(Bit(x))))
  {
    hide Bit;
    BitsAdd(2, 2, x);
    TwoBits(x);
    TwoBits(Bit(Bit(x)));
  }

  lemma TwoBits(x: bv32)
    ensures Bits(2, x) == Bit(Bit(x))
  {
    hide Bit;
    assert Bits(2, x) == Bits(1, Bit(x));
    assert Bits(1, Bit(x)) == Bits(0, Bit(Bit(x)));
  }

  function Twice(x: bv32): bv32 { x << 1 }

  function Half(x: bv32): bv32 { x >> 1 }

  /** A step that leaves the top bit clear was a plain shift. */
  lemma PlainShift(x: bv32)
    ensures HighClear(Bit(x), 1) ==> x == Twice(Bit(x))
    ensures LowClear(x, 1) ==> Bit(x) == Half(x)
  {
  }

  lemma MasksUp(w: bv32, n: nat, m: nat)
    requires 1 <= n <= 8 && m <= 7 && LowClear(w, n - 1) && HighClear(w, m + 1)
    ensures LowClear(Twice(w), n) && HighClear(Twice(w), m) && HighClear(w, 1)
  {
    LowUp(w, n);
    HighUp(w, m);
  }

  lemma LowUp(w: bv32, n: nat)
    requires 1 <= n <= 8 && LowClear(w, n - 1)
    ensures LowClear(Twice(w), n)
  {
  }

  lemma HighUp(w: bv32, m: nat)
    requires m <= 7 && HighClear(w, m + 1)
    ensures HighClear(Twice(w), m) && HighClear(w, 1)
  {
  }

  /** If n steps leave the n highest bits clear, the n lowest bits were clear before them. */
  lemma {:induction false} UndoBits(x: bv32, n: nat, m: nat)
    requires n + m <= 8 && HighClear(Bits(n, x), n + m)
    ensures LowClear(x, n) && HighClear(x, m)
    decreases n
  {
    hide Bit, LowClear, HighClear, Twice;
    if n == 0 {
      NoBits(x);
    } else {
      var w := Bit(x);
      UndoBits(w, n - 1, m + 1);
      MasksUp(w, n, m);
      PlainShift(x);
    }
  }

  lemma NoBits(x: bv32)
    ensures LowClear(x, 0)
  {
  }

  /** Bits above j clear low ones only move down in j steps. */
  lemma {:induction false} MoveDown(x: bv32, j: nat, k: nat)
    requires j + k <= 8 && LowClear(x, j) && Within(x, j + k)
    ensures Within(Bits(j, x), k) && (Bits(j, x) == 0 ==> x == 0)
    decreases j
  {
    hide Bit, LowClear, Within, Half;
    if j > 0 {
      PlainShift(x);
      HalfMasks(x, j, k);
      MoveDown(Half(x), j - 1, k);
    }
  }

  lemma HalfMasks(x: bv32, j: nat, k: nat)
    requires 1 <= j && j + k <= 8 && LowClear(x, j) && Within(x, j + k)
    ensures LowClear(x, 1) && LowClear(Half(x), j - 1) && Within(Half(x), j - 1 + k) && (Half(x) == 0 ==> x == 0)
  {
    HalfLow(x, j);
    HalfBound(x, j + k);
  }

  lemma HalfLow(x: bv32, j: nat)
    requires 1 <= j <= 8 && LowClear(x, j)
    ensures LowClear(x, 1) && LowClear(Half(x), j - 1) && (Half(x) == 0 ==> x == 0)
  {
  }

  lemma HalfBound(x: bv32, n: nat)
    requires 1 <= n <= 8 && Within(x, n)
    ensures Within(Half(x), n - 1)
  {
  }

  lemma WithinAndClear(x: bv32, n: nat)
    requires n <= 8 && Within(x, n) && LowClear(x, n)
    ensures x == 0
  {
  }

  /** A first byte whose s lowest bits are clear never leads to a difference whose 8 - s highest bits are clear. */
  lemma FirstByteShows(d: bv32, s: nat)
    requires s <= 8 && d < 256 && LowClear(d, s) && HighClear(Byte(d), 8 - s)
    ensures d == 0
  {
    ByteIsBits(d);
    BitsAdd(s, 8 - s, d);
    ByteBound(d);
    hide Bit, LowClear, HighClear, Within, Byte;
    MoveDown(d, s, 8 - s);
    UndoBits(Bits(s, d), 8 - s, 0);
    WithinAndClear(Bits(s, d), 8 - s);
  }

  lemma ByteBound(d: bv32)
    requires d < 256
    ensures Within(d, 8)
  {
  }

  /** The top byte of the difference that four more bytes must undo is the last one's difference. */
  lemma TopByte(d1: bv32, d2: bv32, d3: bv32, d4: bv32, s: nat)
    requires d1 < 256 && d2 < 256 && d3 < 256 && Within(d4, s) && s <= 8
    ensures d4 < 256 && HighClear(Xor(Up(Xor(Up(Xor(Up(d4), d3)), d2)), d1), 8 - s)
  {
  }

  lemma ZeroByte()
    ensures Byte(0) == 0
  {
  }

  /** The difference after one byte from a common state depends on the difference of the bytes alone. */
  lemma FirstDifference(s: bv32, b: bv32, c: bv32)
    requires b < 256 && c < 256
    ensures Xor(FeedByte(s, b), FeedByte(s, c)) == Byte(Xor(b, c))
  {
    hide FeedByte, Byte, Xor;
    FeedByteIsByte(s, b);
    FeedByteIsByte(s, c);
    ByteLinear(Xor(s, b), Xor(s, c));
    Interchange(s, b, s, c);
    SelfXor(s, s);
    Commutative(0, Xor(b, c));
    XorZero(Xor(b, c));
  }

  /** Five bytes whose differences span at most 32 bits, counted from the lowest bit of each byte. */
  lemma FiveBytesInjective(st: bv32, a0: bv32, a1: bv32, a2: bv32, a3: bv32, a4: bv32,
                           b0: bv32, b1: bv32, b2: bv32, b3: bv32, b4: bv32, s: nat)
    requires a0 < 256 && a1 < 256 && a2 < 256 && a3 < 256 && a4 < 256
    requires b0 < 256 && b1 < 256 && b2 < 256 && b3 < 256 && b4 < 256
    requires s <= 8 && LowClear(Xor(a0, b0), s) && Within(Xor(a4, b4), s)
    requires FeedByte(FeedByte(FeedByte(FeedByte(FeedByte(st, a0), a1), a2), a3), a4) ==
             FeedByte(FeedByte(FeedByte(FeedByte(FeedByte(st, b0), b1), b2), b3), b4)
    ensures a0 == b0 && a1 == b1 && a2 == b2 && a3 == b3 && a4 == b4
  {
    hide FeedByte, Xor, Up, LowClear, HighClear, Within, Byte;
    var s1, t1 := FeedByte(st, a0), FeedByte(st, b0);
    var s2, t2 := FeedByte(s1, a1), FeedByte(t1, b1);
    var s3, t3 := FeedByte(s2, a2), FeedByte(t2, b2);
    var s4, t4 := FeedByte(s3, a3), FeedByte(t3, b3);
    var d0, d1, d2, d3, d4 := Xor(a0, b0), Xor(a1, b1), Xor(a2, b2), Xor(a3, b3), Xor(a4, b4);
    SelfXor(FeedByte(s4, a4), st);
    SelfXor(a0, b0);
    SelfXor(a1, b1);
    SelfXor(a2, b2);
    SelfXor(a3, b3);
    SelfXor(a4, b4);
    ZeroDifference(d1, d2, d3, d4);
    var e3 := Xor(Up(d4), d3);
    var e2 := Xor(Up(e3), d2);
    Unstep(s4, t4, a4, b4, 0);
    Unstep(s3, t3, a3, b3, d4);
    Unstep(s2, t2, a2, b2, e3);
    Unstep(s1, t1, a1, b1, e2);
    FirstDifference(st, a0, b0);
    TopByte(d1, d2, d3, d4, s);
    FirstByteShows(d0, s);
    ZeroByte();
  }

  lemma RemainderFive(s: bv32, w: octets)
    requires |w| == 5
    ensures var s2 := FeedByte(FeedByte(s, Wide(w[0])), Wide(w[1]));
            Remainder(s, w) == FeedByte(FeedByte(FeedByte(s2, Wide(w[2])), Wide(w[3])), Wide(w[4]))
  {
    hide FeedByte, Wide;
    assert w == w[..4] + w[4..];
    RemainderConcat(s, w[..4], w[4..]);
    RemainderFour(s, w[..4]);
    assert w[4..][1..] == [];
    var s4 := Remainder(s, w[..4]);
    assert Remainder(s4, w[4..]) == FeedByte(s4, Wide(w[4]));
  }

  lemma FiveWindowInjective(st: bv32, w: octets, v: octets, s: nat)
    requires |w| == |v| == 5 && Remainder(st, w) == Remainder(st, v)
    requires s <= 8 && LowClear(Xor(Wide(w[0]), Wide(v[0])), s) && Within(Xor(Wide(w[4]), Wide(v[4])), s)
    ensures w == v
  {
    hide FeedByte, Remainder, Wide, LowClear, Within, Xor;
    RemainderFive(st, w);
    RemainderFive(st, v);
    WidenByte(w[0]); WidenByte(w[1]); WidenByte(w[2]); WidenByte(w[3]); WidenByte(w[4]);
    WidenByte(v[0]); WidenByte(v[1]); WidenByte(v[2]); WidenByte(v[3]); WidenByte(v[4]);
    FiveBytesInjective(st, Wide(w[0]), Wide(w[1]), Wide(w[2]), Wide(w[3]), Wide(w[4]),
                       Wide(v[0]), Wide(v[1]), Wide(v[2]), Wide(v[3]), Wide(v[4]), s);
    NarrowEqual(w[0], v[0]);
    NarrowEqual(w[1], v[1]);
    NarrowEqual(w[2], v[2]);
    NarrowEqual(w[3], v[3]);
    NarrowEqual(w[4], v[4]);
  }

  /**
   The buffers differ only in 32 consecutive bits, the lowest bit of each byte coming first: from bit s of byte `at`
   to the bit before bit s of the fifth byte.
   */
  ghost predicate DifferWithinBits(a: octets, b: octets, at: nat, s: nat)
    requires s < 8
  {
    && |a| == |b|
    && (forall k :: 0 <= k < |a| && !(at <= k <= at + 4) ==> a[k] == b[k])
    && (at < |a| ==> LowClear(Xor(Wide(a[at]), Wide(b[at])), s))
    && (at + 4 < |a| ==> Within(Xor(Wide(a[at + 4]), Wide(b[at + 4])), s))
  }

  /** Different buffers that differ only inside 32 consecutive bits have different checksums. */
  lemma BitBurstDetected(a: octets, b: octets, at: nat, s: nat)
    requires s < 8 && DifferWithinBits(a, b, at, s) && a != b
    ensures Checksum(a) != Checksum(b)
  {
    hide Xor, Wide, LowClear, Within;
    if |a| <= at + 4 {
      BurstDetected(a, b, at);
    } else if Checksum(a) == Checksum(b) {
      DoneInjective(Remainder(0xffffffff, a), Remainder(0xffffffff, b));
      FiveWindowOf(a, b, at, s);
      assert false;
    }
  }

  lemma WindowParts(a: octets, b: octets, at: nat)
    requires |a| == |b| && at + 5 <= |a| && forall k :: 0 <= k < |a| && !(at <= k <= at + 4) ==> a[k] == b[k]
    ensures a == a[..at] + (a[at..at + 5] + a[at + 5..]) && b == a[..at] + (b[at..at + 5] + a[at + 5..])
  {
    assert a[..at] == b[..at] && a[at + 5..] == b[at + 5..];
  }

  lemma FiveWindowOf(a: octets, b: octets, at: nat, s: nat)
    requires s < 8 && DifferWithinBits(a, b, at, s) && at + 4 < |a|
    requires Remainder(0xffffffff, a) == Remainder(0xffffffff, b)
    ensures a == b
  {
    hide Remainder, Xor, Wide, LowClear, Within;
    var p, w, v, q := a[..at], a[at..at + 5], b[at..at + 5], a[at + 5..];
    WindowParts(a, b, at);
    RemainderConcat(0xffffffff, p, w + q);
    RemainderConcat(0xffffffff, p, v + q);
    var st := Remainder(0xffffffff, p);
    RemainderConcat(st, w, q);
    RemainderConcat(st, v, q);
    RemainderInjective(Remainder(st, w), Remainder(st, v), q);
    FiveWindowInjective(st, w, v, s);
  }
}
