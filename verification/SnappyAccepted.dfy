/**
 The streams the decompressor takes, which are more than the format allows: it
 adds one to a literal's length, and shifts the fifth group of the preamble, in
 32-bit arithmetic.
 */
module SnappyAccepted {
  import opened Bytes
  import opened Copying
  import opened SnappyFormat

  /** Length of a literal element as the decompressor reads it. */
  function ReadLength(tag: byte, trailer: nat): (n: nat) {
    if tag / 4 < 60 then tag / 4 + 1 else (trailer + 1) % U32_RANGE
  }

  /** The output of the element stream `c` behind `out`, with the decompressor's literal lengths. */
  function ReadTags(c: seq<byte>, out: seq<byte>): (r: Option<seq<byte>>)
    decreases |c|, 0
  {
    if c == [] then Some(out)
    else
      var k := ExtraBytes(c[0]);
      if |c| < 1 + k then None
      else
        var trailer := LoadLE(c, 1, k);
        if c[0] % 4 == 0 then
          ReadLiteral(ReadLength(c[0], trailer), c[1 + k..], out)
        else
          var offset := CopyOffset(c[0], trailer);
          if 1 <= offset <= |out| then
            ReadTags(c[1 + k..], CopyFrom(out, offset, CopyLength(c[0])))
          else
            None
  }

  function ReadLiteral(n: nat, c: seq<byte>, out: seq<byte>): (r: Option<seq<byte>>)
    decreases |c|, 1
  {
    if |c| < n then None else ReadTags(c[n..], out + c[..n])
  }

  lemma {:induction false} ReadExtends(c: seq<byte>, out: seq<byte>)
    ensures ReadTags(c, out).Some? ==> out <= ReadTags(c, out).value
    decreases |c|
  {
    if c != [] && |c| >= 1 + ExtraBytes(c[0]) {
      var k := ExtraBytes(c[0]);
      var trailer := LoadLE(c, 1, k);
      if c[0] % 4 == 0 {
        var n, body := ReadLength(c[0], trailer), c[1 + k..];
        if n <= |body| {
          ReadExtends(body[n..], out + body[..n]);
        }
      } else {
        var offset := CopyOffset(c[0], trailer);
        if 1 <= offset <= |out| {
          CopyFromRepeats(out, offset, CopyLength(c[0]));
          ReadExtends(c[1 + k..], CopyFrom(out, offset, CopyLength(c[0])));
        }
      }
    }
  }

  function Truncate(r: Option<Varint>): (r': Option<Varint>) {
    match r
    case None => None
    case Some(v) => Some(Varint(v.value % U32_RANGE, v.size))
  }

  /** The preamble as the decompressor reads it: five groups, truncated to 32 bits. */
  function ReadVarint(c: seq<byte>): (r: Option<Varint>)
    ensures r.Some? ==> 1 <= r.value.size <= 5 && r.value.size <= |c|
  {
    Truncate(ReadGroups(c, 5))
  }

  /** What the decompressor makes of a whole stream. */
  function ReadStream(c: seq<byte>): (r: Option<seq<byte>>) {
    match ReadVarint(c)
    case None => None
    case Some(v) =>
      match ReadTags(c[v.size..], [])
      case None => None
      case Some(out) => if |out| == v.value then Some(out) else None
  }

  /** Wherever an element can begin there are at least five bytes left, or none: the last one is long. */
  predicate LongTail(c: seq<byte>, out: seq<byte>)
    decreases |c|
  {
    c == [] ||
    (|c| >= 5 &&
     var k := ExtraBytes(c[0]);
     var trailer, body := LoadLE(c, 1, k), c[1 + k..];
     if c[0] % 4 == 0 then
       var n := ReadLength(c[0], trailer);
       n <= |body| ==> LongTail(body[n..], out + body[..n])
     else
       var offset := CopyOffset(c[0], trailer);
       1 <= offset <= |out| ==> LongTail(body, CopyFrom(out, offset, CopyLength(c[0]))))
  }

  // ---------------------------------------------------------------- what is taken beyond the format

  /** The walk over the elements meets a literal of 2^32 bytes. */
  predicate Huge(c: seq<byte>, out: seq<byte>)
    decreases |c|
  {
    if c == [] || |c| < 1 + ExtraBytes(c[0]) then false
    else
      var k := ExtraBytes(c[0]);
      var trailer := LoadLE(c, 1, k);
      var body := c[1 + k..];
      if c[0] % 4 == 0 then
        var n := LiteralLength(c[0], trailer);
        n == U32_RANGE || (n <= |body| && Huge(body[n..], out + body[..n]))
      else
        var offset := CopyOffset(c[0], trailer);
        1 <= offset <= |out| && Huge(body, CopyFrom(out, offset, CopyLength(c[0])))
  }

  lemma LengthsAgree(tag: byte, trailer: nat)
    requires trailer < U32_RANGE
    ensures LiteralLength(tag, trailer) <= U32_RANGE
    ensures ReadLength(tag, trailer) == LiteralLength(tag, trailer) <==> LiteralLength(tag, trailer) != U32_RANGE
  {
  }

  lemma TrailerBound(c: seq<byte>)
    requires c != [] && |c| >= 1 + ExtraBytes(c[0])
    ensures LoadLE(c, 1, ExtraBytes(c[0])) < U32_RANGE
  {
    var k := ExtraBytes(c[0]);
    LoadInjective(c, 1, c, 1, k);
    assert Pow256(1) == 256 && Pow256(2) == 256 * Pow256(1) && Pow256(3) == 256 * Pow256(2);
    assert Pow256(4) == 256 * Pow256(3);
  }

  /** Without such a literal the elements mean what the format says. */
  lemma {:induction false} TagsAgree(c: seq<byte>, out: seq<byte>)
    requires !Huge(c, out)
    ensures ReadTags(c, out) == DecodeTags(c, out)
    decreases |c|
  {
    if c != [] && |c| >= 1 + ExtraBytes(c[0]) {
      var k := ExtraBytes(c[0]);
      var trailer, body := LoadLE(c, 1, k), c[1 + k..];
      if c[0] % 4 == 0 {
        TrailerBound(c);
        LengthsAgree(c[0], trailer);
        var n := LiteralLength(c[0], trailer);
        if n <= |body| {
          TagsAgree(body[n..], out + body[..n]);
        }
      } else if 1 <= CopyOffset(c[0], trailer) <= |out| {
        TagsAgree(body, CopyFrom(out, CopyOffset(c[0], trailer), CopyLength(c[0])));
      }
    }
  }

  /** With one, what the format makes of them is too long for any preamble. */
  lemma {:induction false} HugeIsLong(c: seq<byte>, out: seq<byte>)
    requires Huge(c, out) && DecodeTags(c, out).Some?
    ensures |DecodeTags(c, out).value| >= U32_RANGE
    decreases |c|
  {
    var k := ExtraBytes(c[0]);
    var trailer, body := LoadLE(c, 1, k), c[1 + k..];
    if c[0] % 4 == 0 {
      var n := LiteralLength(c[0], trailer);
      if n == U32_RANGE {
        DecodeExtends(body[n..], out + body[..n]);
      } else {
        HugeIsLong(body[n..], out + body[..n]);
      }
    } else {
      HugeIsLong(body, CopyFrom(out, CopyOffset(c[0], trailer), CopyLength(c[0])));
    }
  }

  /** A preamble that does not fit 32 bits, or a literal of 2^32 bytes among the elements. */
  predicate Oversized(c: seq<byte>) {
    match ReadGroups(c, 5)
    case None => false
    case Some(v) => v.value >= U32_RANGE || Huge(c[v.size..], [])
  }

  /** The output of the elements when it has the announced length. */
  function Exactly(out: Option<seq<byte>>, n: nat): (r: Option<seq<byte>>) {
    if out.Some? && |out.value| == n then out else None
  }

  lemma ElementsAgree(tags: seq<byte>, n: u32)
    ensures !Huge(tags, []) ==> Exactly(ReadTags(tags, []), n) == Exactly(DecodeTags(tags, []), n)
    ensures Huge(tags, []) ==> Exactly(DecodeTags(tags, []), n) == None
  {
    if !Huge(tags, []) {
      TagsAgree(tags, []);
    } else if DecodeTags(tags, []).Some? {
      HugeIsLong(tags, []);
    }
  }

  lemma PartsOfRead(c: seq<byte>, v: Varint)
    requires ReadGroups(c, 5) == Some(v) && v.value < U32_RANGE
    ensures ReadStream(c) == Exactly(ReadTags(c[v.size..], []), v.value)
  {
    SmallStays(v);
    StreamBehind(c, v);
  }

  lemma SmallStays(v: Varint)
    requires v.value < U32_RANGE
    ensures Truncate(Some(v)) == Some(v)
  {
  }

  lemma StreamBehind(c: seq<byte>, v: Varint)
    requires ReadVarint(c) == Some(v)
    ensures ReadStream(c) == Exactly(ReadTags(c[v.size..], []), v.value)
  {
  }

  lemma PartsOfDecoded(c: seq<byte>, v: Varint)
    requires ReadGroups(c, 5) == Some(v)
    ensures Decode(c) == if v.value < U32_RANGE then Exactly(DecodeTags(c[v.size..], []), v.value) else None
  {
  }

  lemma PreambleMissing(c: seq<byte>)
    requires ReadGroups(c, 5) == None
    ensures ReadStream(c) == Decode(c) == None
  {
  }

  lemma OversizedIsNone(c: seq<byte>)
    requires Oversized(c)
    ensures Decode(c) == None
  {
    var v := ReadGroups(c, 5).value;
    PartsOfDecoded(c, v);
    if v.value < U32_RANGE {
      ElementsAgree(c[v.size..], v.value);
    }
  }

  lemma OthersAgree(c: seq<byte>)
    requires !Oversized(c)
    ensures ReadStream(c) == Decode(c)
  {
    match ReadGroups(c, 5)
    case None => PreambleMissing(c);
    case Some(v) =>
      PartsOfRead(c, v);
      PartsOfDecoded(c, v);
      ElementsAgree(c[v.size..], v.value);
  }

  /** The decompressor and the format agree on a stream exactly when it is not oversized or refused anyway. */
  lemma StreamsAgree(c: seq<byte>)
    ensures ReadStream(c) == Decode(c) <==> !(Oversized(c) && ReadStream(c).Some?)
  {
    if Oversized(c) {
      OversizedIsNone(c);
    } else {
      OthersAgree(c);
    }
  }

  /** Whatever the format allows, the decompressor takes for the same output. */
  lemma DecodeIsRead(c: seq<byte>)
    requires Decode(c).Some?
    ensures ReadStream(c) == Decode(c)
  {
    if Oversized(c) {
      OversizedIsNone(c);
    } else {
      OthersAgree(c);
    }
  }

  /** A literal of 2^32 bytes of which none is there, taken for an empty output. */
  lemma HugeLiteralExample(c: seq<byte>)
    requires c == [0x00, 0xfc, 0xff, 0xff, 0xff, 0xff]
    ensures ReadStream(c) == Some([]) && Decode(c) == None
  {
    var tags := c[1..];
    assert tags == [0xfc, 0xff, 0xff, 0xff, 0xff] && tags[5..] == [] && [] + tags[5..][..0] == [];
    AllOnes(tags);
    assert ReadTags(tags, []) == ReadLiteral(0, tags[5..], []);
    assert DecodeTags(tags, []) == DecodeLiteral(U32_RANGE, tags[5..], []);
  }

  lemma AllOnes(tags: seq<byte>)
    requires tags == [0xfc, 0xff, 0xff, 0xff, 0xff]
    ensures LoadLE(tags, 1, 4) == 0xffff_ffff
  {
    assert LoadLE(tags, 4, 1) == 0xff + 256 * LoadLE(tags, 5, 0);
    assert LoadLE(tags, 3, 2) == 0xff + 256 * LoadLE(tags, 4, 1);
    assert LoadLE(tags, 2, 3) == 0xff + 256 * LoadLE(tags, 3, 2);
    assert LoadLE(tags, 1, 4) == 0xff + 256 * LoadLE(tags, 2, 3);
  }
}
