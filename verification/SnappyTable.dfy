/** The decoder's lookup table, as the source lists it, and what its entries mean. */
module SnappyTable {
  import opened Bytes
  import opened SnappyFormat

  const PART0: seq<u16> := [
    0x0001, 0x0804, 0x1001, 0x2001, 0x0002, 0x0805, 0x1002, 0x2002,
    0x0003, 0x0806, 0x1003, 0x2003, 0x0004, 0x0807, 0x1004, 0x2004
  ]

  const PART1: seq<u16> := [
    0x0005, 0x0808, 0x1005, 0x2005, 0x0006, 0x0809, 0x1006, 0x2006,
    0x0007, 0x080a, 0x1007, 0x2007, 0x0008, 0x080b, 0x1008, 0x2008
  ]

  const PART2: seq<u16> := [
    0x0009, 0x0904, 0x1009, 0x2009, 0x000a, 0x0905, 0x100a, 0x200a,
    0x000b, 0x0906, 0x100b, 0x200b, 0x000c, 0x0907, 0x100c, 0x200c
  ]

  const PART3: seq<u16> := [
    0x000d, 0x0908, 0x100d, 0x200d, 0x000e, 0x0909, 0x100e, 0x200e,
    0x000f, 0x090a, 0x100f, 0x200f, 0x0010, 0x090b, 0x1010, 0x2010
  ]

  const PART4: seq<u16> := [
    0x0011, 0x0a04, 0x1011, 0x2011, 0x0012, 0x0a05, 0x1012, 0x2012,
    0x0013, 0x0a06, 0x1013, 0x2013, 0x0014, 0x0a07, 0x1014, 0x2014
  ]

  const PART5: seq<u16> := [
    0x0015, 0x0a08, 0x1015, 0x2015, 0x0016, 0x0a09, 0x1016, 0x2016,
    0x0017, 0x0a0a, 0x1017, 0x2017, 0x0018, 0x0a0b, 0x1018, 0x2018
  ]

  const PART6: seq<u16> := [
    0x0019, 0x0b04, 0x1019, 0x2019, 0x001a, 0x0b05, 0x101a, 0x201a,
    0x001b, 0x0b06, 0x101b, 0x201b, 0x001c, 0x0b07, 0x101c, 0x201c
  ]

  const PART7: seq<u16> := [
    0x001d, 0x0b08, 0x101d, 0x201d, 0x001e, 0x0b09, 0x101e, 0x201e,
    0x001f, 0x0b0a, 0x101f, 0x201f, 0x0020, 0x0b0b, 0x1020, 0x2020
  ]

  const PART8: seq<u16> := [
    0x0021, 0x0c04, 0x1021, 0x2021, 0x0022, 0x0c05, 0x1022, 0x2022,
    0x0023, 0x0c06, 0x1023, 0x2023, 0x0024, 0x0c07, 0x1024, 0x2024
  ]

  const PART9: seq<u16> := [
    0x0025, 0x0c08, 0x1025, 0x2025, 0x0026, 0x0c09, 0x1026, 0x2026,
    0x0027, 0x0c0a, 0x1027, 0x2027, 0x0028, 0x0c0b, 0x1028, 0x2028
  ]

  const PART10: seq<u16> := [
    0x0029, 0x0d04, 0x1029, 0x2029, 0x002a, 0x0d05, 0x102a, 0x202a,
    0x002b, 0x0d06, 0x102b, 0x202b, 0x002c, 0x0d07, 0x102c, 0x202c
  ]

  const PART11: seq<u16> := [
    0x002d, 0x0d08, 0x102d, 0x202d, 0x002e, 0x0d09, 0x102e, 0x202e,
    0x002f, 0x0d0a, 0x102f, 0x202f, 0x0030, 0x0d0b, 0x1030, 0x2030
  ]

  const PART12: seq<u16> := [
    0x0031, 0x0e04, 0x1031, 0x2031, 0x0032, 0x0e05, 0x1032, 0x2032,
    0x0033, 0x0e06, 0x1033, 0x2033, 0x0034, 0x0e07, 0x1034, 0x2034
  ]

  const PART13: seq<u16> := [
    0x0035, 0x0e08, 0x1035, 0x2035, 0x0036, 0x0e09, 0x1036, 0x2036,
    0x0037, 0x0e0a, 0x1037, 0x2037, 0x0038, 0x0e0b, 0x1038, 0x2038
  ]

  const PART14: seq<u16> := [
    0x0039, 0x0f04, 0x1039, 0x2039, 0x003a, 0x0f05, 0x103a, 0x203a,
    0x003b, 0x0f06, 0x103b, 0x203b, 0x003c, 0x0f07, 0x103c, 0x203c
  ]

  const PART15: seq<u16> := [
    0x0801, 0x0f08, 0x103d, 0x203d, 0x1001, 0x0f09, 0x103e, 0x203e,
    0x1801, 0x0f0a, 0x103f, 0x203f, 0x2001, 0x0f0b, 0x1040, 0x2040
  ]

  /** An entry: length in bits 0 to 7, offset above its low byte in bits 8 to 10, extra bytes from bit 11 on. */
  function Entry(tag: byte): (e: u16) {
    (if tag % 4 == 0 then LiteralLength(tag, 0) else CopyLength(tag))
    + (if tag % 4 == 1 then 256 * (tag / 32) else 0) + 2048 * ExtraBytes(tag)
  }

  lemma Part0(i: nat)
    requires i < 16
    ensures PART0[i] == Entry(i)
  {
  }

  lemma Part1(i: nat)
    requires i < 16
    ensures PART1[i] == Entry(16 + i)
  {
  }

  lemma Part2(i: nat)
    requires i < 16
    ensures PART2[i] == Entry(32 + i)
  {
  }

  lemma Part3(i: nat)
    requires i < 16
    ensures PART3[i] == Entry(48 + i)
  {
  }

  lemma Part4(i: nat)
    requires i < 16
    ensures PART4[i] == Entry(64 + i)
  {
  }

  lemma Part5(i: nat)
    requires i < 16
    ensures PART5[i] == Entry(80 + i)
  {
  }

  lemma Part6(i: nat)
    requires i < 16
    ensures PART6[i] == Entry(96 + i)
  {
  }

  lemma Part7(i: nat)
    requires i < 16
    ensures PART7[i] == Entry(112 + i)
  {
  }

  lemma Part8(i: nat)
    requires i < 16
    ensures PART8[i] == Entry(128 + i)
  {
  }

  lemma Part9(i: nat)
    requires i < 16
    ensures PART9[i] == Entry(144 + i)
  {
  }

  lemma Part10(i: nat)
    requires i < 16
    ensures PART10[i] == Entry(160 + i)
  {
  }

  lemma Part11(i: nat)
    requires i < 16
    ensures PART11[i] == Entry(176 + i)
  {
  }

  lemma Part12(i: nat)
    requires i < 16
    ensures PART12[i] == Entry(192 + i)
  {
  }

  lemma Part13(i: nat)
    requires i < 16
    ensures PART13[i] == Entry(208 + i)
  {
  }

  lemma Part14(i: nat)
    requires i < 16
    ensures PART14[i] == Entry(224 + i)
  {
  }

  lemma Part15(i: nat)
    requires i < 16
    ensures PART15[i] == Entry(240 + i)
  {
  }

  /** `char_table[tag]`. */
  function CharTable(tag: byte): (e: u16) {
    if tag < 16 then PART0[tag]
    else if tag < 32 then PART1[tag - 16]
    else if tag < 48 then PART2[tag - 32]
    else if tag < 64 then PART3[tag - 48]
    else if tag < 80 then PART4[tag - 64]
    else if tag < 96 then PART5[tag - 80]
    else if tag < 112 then PART6[tag - 96]
    else if tag < 128 then PART7[tag - 112]
    else if tag < 144 then PART8[tag - 128]
    else if tag < 160 then PART9[tag - 144]
    else if tag < 176 then PART10[tag - 160]
    else if tag < 192 then PART11[tag - 176]
    else if tag < 208 then PART12[tag - 192]
    else if tag < 224 then PART13[tag - 208]
    else if tag < 240 then PART14[tag - 224]
    else PART15[tag - 240]
  }

  /** Every entry of the table is the one its tag calls for. */
  lemma CharTableIsEntry(tag: byte)
    ensures CharTable(tag) == Entry(tag)
  {
    if tag < 16 { Part0(tag); }
    else if tag < 32 { Part1(tag - 16); }
    else if tag < 48 { Part2(tag - 32); }
    else if tag < 64 { Part3(tag - 48); }
    else if tag < 80 { Part4(tag - 64); }
    else if tag < 96 { Part5(tag - 80); }
    else if tag < 112 { Part6(tag - 96); }
    else if tag < 128 { Part7(tag - 112); }
    else if tag < 144 { Part8(tag - 128); }
    else if tag < 160 { Part9(tag - 144); }
    else if tag < 176 { Part10(tag - 160); }
    else if tag < 192 { Part11(tag - 176); }
    else if tag < 208 { Part12(tag - 192); }
    else if tag < 224 { Part13(tag - 208); }
    else if tag < 240 { Part14(tag - 224); }
    else { Part15(tag - 240); }
  }

  lemma PackedFields(length: nat, offset: nat, extra: nat)
    requires length < 256 && offset < 8
    ensures var e := length + 256 * offset + 2048 * extra;
            e % 256 == length && e / 256 % 8 == offset && e / 2048 == extra
  {
  }

  /** The fields the decoder takes out of an entry. */
  lemma EntryFields(tag: byte)
    ensures Entry(tag) / 2048 == ExtraBytes(tag)
    ensures tag % 4 != 0 ==> Entry(tag) % 256 == CopyLength(tag)
    ensures tag % 4 != 0 ==> Entry(tag) / 256 % 8 == if tag % 4 == 1 then tag / 32 else 0
  {
    PackedFields(if tag % 4 == 0 then LiteralLength(tag, 0) else CopyLength(tag),
                 if tag % 4 == 1 then tag / 32 else 0, ExtraBytes(tag));
  }
}
