/** Writing the length preamble, and the two readers the codec has for it. */
module SnappyVarint {
  import opened Bytes
  import opened SnappyFormat
  import opened SnappyAccepted

  /** The bytes `varint_encode32` stores for `v`. */
  function Encode32(v: u32): (e: seq<byte>)
    ensures 1 <= |e| <= 5
  {
    if v < 0x80 then [v]
    else if v < 0x4000 then [v % 128 + 128, v / 0x80]
    else if v < 0x20_0000 then [v % 128 + 128, v / 0x80 % 128 + 128, v / 0x4000]
    else if v < 0x1000_0000 then
      [v % 128 + 128, v / 0x80 % 128 + 128, v / 0x4000 % 128 + 128, v / 0x20_0000]
    else
      [v % 128 + 128, v / 0x80 % 128 + 128, v / 0x4000 % 128 + 128, v / 0x20_0000 % 128 + 128,
       v / 0x1000_0000]
  }

  /** Seven-bit groups of `v`, the reference the unrolled encoder is compared with. */
  function Groups(v: nat): (e: seq<byte>)
    ensures |e| >= 1
  {
    if v < 128 then [v] else [v % 128 + 128] + Groups(v / 128)
  }

  lemma EncodeIsGroups(v: u32)
    ensures Encode32(v) == Groups(v)
  {
    assert v / 0x80 / 0x80 == v / 0x4000;
    assert v / 0x80 / 0x80 / 0x80 == v / 0x20_0000;
    assert v / 0x80 / 0x80 / 0x80 / 0x80 == v / 0x1000_0000;
    if v >= 0x80 {
      assert Groups(v) == [v % 128 + 128] + Groups(v / 0x80);
      if v >= 0x4000 {
        assert Groups(v / 0x80) == [v / 0x80 % 128 + 128] + Groups(v / 0x4000);
        if v >= 0x20_0000 {
          assert Groups(v / 0x4000) == [v / 0x4000 % 128 + 128] + Groups(v / 0x20_0000);
          if v >= 0x1000_0000 {
            assert Groups(v / 0x20_0000) == [v / 0x20_0000 % 128 + 128] + Groups(v / 0x1000_0000);
          }
        }
      }
    }
  }

  lemma {:induction false} ReadGroupsOfGroups(v: nat, k: nat, rest: seq<byte>)
    requires |Groups(v)| <= k
    ensures ReadGroups(Groups(v) + rest, k) == Some(Varint(v, |Groups(v)|))
    decreases k
  {
    var s := Groups(v) + rest;
    if v >= 128 {
      assert s[1..] == Groups(v / 128) + rest;
      ReadGroupsOfGroups(v / 128, k - 1, rest);
    }
  }

  /** Either reader gets `v` back from its encoding, whatever follows, and stops at its end. */
  lemma VarintRoundTrip(v: u32, rest: seq<byte>)
    ensures ReadGroups(Encode32(v) + rest, 5) == Some(Varint(v, |Encode32(v)|))
    ensures ReadVarint(Encode32(v) + rest) == Some(Varint(v, |Encode32(v)|))
    ensures ParsedVarint(Encode32(v) + rest) == Some(Varint(v, |Encode32(v)|))
  {
    EncodeIsGroups(v);
    ReadGroupsOfGroups(v, 5, rest);
  }

  /** What the length query accepts, the decompressor reads the same way. */
  lemma ParsedIsRead(c: seq<byte>)
    requires ParsedVarint(c).Some?
    ensures ReadVarint(c) == ParsedVarint(c)
  {
  }

  /** The recursive reader opened up to its five bytes. */
  function FiveBytes(c: seq<byte>): (r: Option<Varint>) {
    if |c| < 1 then None
    else if c[0] < 128 then Some(Varint(c[0], 1))
    else if |c| < 2 then None
    else if c[1] < 128 then Some(Varint(c[0] - 128 + 0x80 * c[1] as int, 2))
    else if |c| < 3 then None
    else if c[2] < 128 then Some(Varint(c[0] - 128 + 0x80 * (c[1] - 128) + 0x4000 * c[2] as int, 3))
    else if |c| < 4 then None
    else if c[3] < 128 then
      Some(Varint(c[0] - 128 + 0x80 * (c[1] - 128) + 0x4000 * (c[2] - 128) + 0x20_0000 * c[3] as int, 4))
    else if |c| < 5 then None
    else if c[4] < 128 then
      Some(Varint(c[0] - 128 + 0x80 * (c[1] - 128) + 0x4000 * (c[2] - 128)
                  + 0x20_0000 * (c[3] - 128) + 0x1000_0000 * c[4] as int, 5))
    else None
  }

  lemma UnfoldGroups(c: seq<byte>)
    ensures ReadGroups(c, 5) == FiveBytes(c)
  {
    if |c| >= 1 && c[0] >= 128 {
      var c1 := c[1..];
      if |c1| >= 1 && c1[0] >= 128 {
        var c2 := c1[1..];
        assert c2 == c[2..];
        if |c2| >= 1 && c2[0] >= 128 {
          var c3 := c2[1..];
          assert c3 == c[3..];
          assert ReadGroups(c3, 2) == if |c3| >= 1 && c3[0] < 128 then Some(Varint(c3[0], 1))
                                      else if |c3| >= 2 && c3[1] < 128 then
                                        Some(Varint(c3[0] - 128 + 128 * c3[1] as int, 2))
                                      else None;
        }
      }
    }
  }

  /** The unrolled reader behind `snappy_uncompressed_length`. */
  method ParseWithLimit(c: seq<byte>) returns (r: Option<Varint>)
    ensures r == ParsedVarint(c)
  {
    r := ParseUnrolled(c);
    UnfoldGroups(c);
  }

  method ParseUnrolled(c: seq<byte>) returns (r: Option<Varint>)
    ensures r == if FiveBytes(c).Some? && FiveBytes(c).value.value < U32_RANGE then FiveBytes(c) else None
  {
    var ptr, result, b: int := 0, 0, 0;
    if ptr >= |c| { return None; }
    b, ptr := c[ptr], ptr + 1;
    LowSeven(b);
    result := b % 128;
    if b < 128 { return Some(Varint(result, ptr)); }
    if ptr >= |c| { return None; }
    b, ptr := c[ptr], ptr + 1;
    LowSeven(b);
    result := result + b % 128 * 0x80;
    if b < 128 { return Some(Varint(result, ptr)); }
    if ptr >= |c| { return None; }
    b, ptr := c[ptr], ptr + 1;
    LowSeven(b);
    result := result + b % 128 * 0x4000;
    if b < 128 { return Some(Varint(result, ptr)); }
    if ptr >= |c| { return None; }
    b, ptr := c[ptr], ptr + 1;
    LowSeven(b);
    result := result + b % 128 * 0x20_0000;
    if b < 128 { return Some(Varint(result, ptr)); }
    if ptr >= |c| { return None; }
    b, ptr := c[ptr], ptr + 1;
    LowSeven(b);
    result := result + b % 128 * 0x1000_0000 % U32_RANGE;
    FifthGroup(b);
    if b < 16 { return Some(Varint(result, ptr)); }
    return None;
  }

  lemma LowSeven(b: byte)
    ensures b % 128 == if b < 128 then b else b - 128
  {
  }

  lemma FifthGroup(b: byte)
    ensures b < 16 ==> b % 128 * 0x1000_0000 % U32_RANGE == b * 0x1000_0000
  {
  }

  /**
   The two readers disagree exactly on a fifth byte between 16 and 127: the
   decompressor drops its high bits where the length query refuses it.
   */
  lemma ReadersAgree(c: seq<byte>)
    ensures ReadVarint(c) == ParsedVarint(c)
            <==> !(|c| >= 5 && (forall i :: 0 <= i < 4 ==> c[i] >= 128) && 16 <= c[4] < 128)
  {
    UnfoldGroups(c);
  }

  lemma ReadersDisagreeExample(c: seq<byte>)
    requires c == [0x80, 0x80, 0x80, 0x80, 0x10]
    ensures ReadVarint(c) == Some(Varint(0, 5)) && ParsedVarint(c) == None
  {
    UnfoldGroups(c);
    assert FiveBytes(c) == Some(Varint(U32_RANGE, 5));
  }
}
