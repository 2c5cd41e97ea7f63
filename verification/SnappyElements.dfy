/** The elements of a Snappy stream byte by byte: what every form of tag means, emitted by the compressor or not. */
module SnappyElements {
  import opened Bytes
  import opened Copying
  import opened SnappyFormat
  import opened SnappyAccepted

  // ---------------------------------------------------------------- copies

  /** A copy of `len` bytes from `offset` back, then the rest; refused when there is nothing that far back. */
  ghost function Copied(offset: nat, len: nat, rest: seq<byte>, out: seq<byte>): (r: Option<seq<byte>>) {
    if 1 <= offset <= |out| then DecodeTags(rest, CopyFrom(out, offset, len)) else None
  }

  ghost function CopiedAs(offset: nat, len: nat, rest: seq<byte>, out: seq<byte>): (r: Option<seq<byte>>) {
    if 1 <= offset <= |out| then ReadTags(rest, CopyFrom(out, offset, len)) else None
  }

  lemma CopyForm(head: seq<byte>, offset: nat, len: nat, rest: seq<byte>, out: seq<byte>)
    requires head != [] && head[0] % 4 != 0 && |head| == 1 + ExtraBytes(head[0])
    requires CopyOffset(head[0], LoadLE(head, 1, |head| - 1)) == offset && CopyLength(head[0]) == len
    ensures DecodeTags(head + rest, out) == Copied(offset, len, rest, out)
    ensures ReadTags(head + rest, out) == CopiedAs(offset, len, rest, out)
  {
    var c, k := head + rest, |head| - 1;
    assert c[1..1 + k] == head[1..1 + k] && c[1 + k..] == rest;
    LoadLocal(c, 1, head, 1, k);
  }

  lemma LoadOne(s: seq<byte>, i: nat)
    requires i + 1 <= |s|
    ensures LoadLE(s, i, 1) == s[i]
  {
    assert LoadLE(s, i, 1) == s[i] + 256 * LoadLE(s, i + 1, 0);
  }

  lemma LoadTwo(s: seq<byte>, i: nat)
    requires i + 2 <= |s|
    ensures LoadLE(s, i, 2) == s[i] as int + 256 * s[i + 1] as int
  {
    LoadOne(s, i + 1);
  }

  lemma LoadThree(s: seq<byte>, i: nat)
    requires i + 3 <= |s|
    ensures LoadLE(s, i, 3) == s[i] as int + 256 * s[i + 1] as int + 0x1_0000 * s[i + 2] as int
  {
    LoadTwo(s, i + 1);
  }

  lemma LoadFour(s: seq<byte>, i: nat)
    requires i + 4 <= |s|
    ensures LoadLE(s, i, 4) == s[i] as int + 256 * s[i + 1] as int + 0x1_0000 * s[i + 2] as int
                             + 0x100_0000 * s[i + 3] as int
  {
    LoadThree(s, i + 1);
  }

  /** Four to eleven bytes, an offset of eleven bits. */
  lemma CopyWithOneByte(len: nat, offset: nat, rest: seq<byte>, out: seq<byte>)
    requires 4 <= len <= 11 && offset < 0x800
    ensures var e: seq<byte> := [1 + 4 * (len - 4) + 32 * (offset / 256), offset % 256];
            && DecodeTags(e + rest, out) == Copied(offset, len, rest, out)
            && ReadTags(e + rest, out) == CopiedAs(offset, len, rest, out)
  {
    var e: seq<byte> := [1 + 4 * (len - 4) + 32 * (offset / 256), offset % 256];
    OneByteTag(len - 4, offset / 256);
    LoadOne(e, 1);
    CopyForm(e, offset, len, rest, out);
  }

  lemma OneByteTag(l: nat, o: nat)
    requires l < 8 && o < 8
    ensures var tag := 1 + 4 * l + 32 * o; tag < 256 && tag % 4 == 1 && tag / 4 % 8 == l && tag / 32 == o
  {
  }

  /** One to sixty-four bytes, an offset of sixteen bits. */
  lemma CopyWithTwoBytes(len: nat, offset: nat, rest: seq<byte>, out: seq<byte>)
    requires 1 <= len <= 64 && offset < 0x1_0000
    ensures var e: seq<byte> := [2 + 4 * (len - 1), offset % 256, offset / 256];
            && DecodeTags(e + rest, out) == Copied(offset, len, rest, out)
            && ReadTags(e + rest, out) == CopiedAs(offset, len, rest, out)
  {
    var e: seq<byte> := [2 + 4 * (len - 1), offset % 256, offset / 256];
    LoadTwo(e, 1);
    CopyForm(e, offset, len, rest, out);
  }

  /** One to sixty-four bytes, an offset of thirty-two bits, which the compressor never writes. */
  lemma CopyWithFourBytes(len: nat, offset: nat, rest: seq<byte>, out: seq<byte>)
    requires 1 <= len <= 64 && offset < 0x1_0000_0000
    ensures var e: seq<byte> := [3 + 4 * (len - 1), offset % 256, offset / 256 % 256, offset / 0x1_0000 % 256,
                                 offset / 0x100_0000];
            && DecodeTags(e + rest, out) == Copied(offset, len, rest, out)
            && ReadTags(e + rest, out) == CopiedAs(offset, len, rest, out)
  {
    var e: seq<byte> := [3 + 4 * (len - 1), offset % 256, offset / 256 % 256, offset / 0x1_0000 % 256,
                         offset / 0x100_0000];
    FourDigits(offset);
    LoadFour(e, 1);
    CopyForm(e, offset, len, rest, out);
  }

  lemma FourDigits(v: nat)
    ensures v == v % 256 + 256 * (v / 256 % 256) + 0x1_0000 * (v / 0x1_0000 % 256) + 0x100_0000 * (v / 0x100_0000)
  {
    var a, b := v / 256, v / 0x1_0000;
    assert v == 256 * a + v % 256 && a / 256 == b && a == 256 * b + a % 256;
    assert b / 256 == v / 0x100_0000 && b == 256 * (b / 256) + b % 256;
  }

  // ---------------------------------------------------------------- literals

  lemma HeadStays(head: seq<byte>, x: seq<byte>, rest: seq<byte>)
    requires head != [] && |head| == 1 + ExtraBytes(head[0])
    ensures var c, k := head + (x + rest), |head| - 1;
            c[0] == head[0] && LoadLE(c, 1, k) == LoadLE(head, 1, k) && c[1 + k..] == x + rest
  {
    var c, k := head + (x + rest), |head| - 1;
    assert c[1..1 + k] == head[1..1 + k];
    LoadLocal(c, 1, head, 1, k);
  }

  lemma BodySplits(x: seq<byte>, rest: seq<byte>)
    ensures (x + rest)[|x|..] == rest && (x + rest)[..|x|] == x
  {
  }

  /** The bytes `x` added to the output, then the rest. */
  lemma LiteralForm(head: seq<byte>, x: seq<byte>, rest: seq<byte>, out: seq<byte>)
    requires head != [] && head[0] % 4 == 0 && |head| == 1 + ExtraBytes(head[0])
    requires LiteralLength(head[0], LoadLE(head, 1, |head| - 1)) == |x|
    ensures DecodeTags(head + (x + rest), out) == DecodeTags(rest, out + x)
  {
    HeadStays(head, x, rest);
    BodySplits(x, rest);
    assert DecodeTags(head + (x + rest), out) == DecodeLiteral(|x|, x + rest, out);
  }

  lemma LiteralFormRead(head: seq<byte>, x: seq<byte>, rest: seq<byte>, out: seq<byte>)
    requires head != [] && head[0] % 4 == 0 && |head| == 1 + ExtraBytes(head[0]) && |x| < U32_RANGE
    requires LiteralLength(head[0], LoadLE(head, 1, |head| - 1)) == |x|
    ensures ReadTags(head + (x + rest), out) == ReadTags(rest, out + x)
  {
    HeadStays(head, x, rest);
    BodySplits(x, rest);
    assert ReadTags(head + (x + rest), out) == ReadLiteral(|x|, x + rest, out);
  }

  /** Up to sixty bytes: the length is in the tag. */
  lemma ShortLiteral(x: seq<byte>, rest: seq<byte>, out: seq<byte>)
    requires 1 <= |x| <= 60
    ensures DecodeTags([4 * (|x| - 1)] + (x + rest), out) == DecodeTags(rest, out + x)
    ensures ReadTags([4 * (|x| - 1)] + (x + rest), out) == ReadTags(rest, out + x)
  {
    var head: seq<byte> := [4 * (|x| - 1)];
    LiteralForm(head, x, rest, out);
    LiteralFormRead(head, x, rest, out);
  }

  /** The length less one in `k` bytes behind the tag, however many of them are needed. */
  lemma LongLiteral(k: nat, x: seq<byte>, rest: seq<byte>, out: seq<byte>)
    requires 1 <= k <= 4 && 1 <= |x| <= Pow256(k) && |x| < U32_RANGE
    ensures var n := |x| - 1;
            var bytes: seq<byte> := [n % 256, n / 256 % 256, n / 0x1_0000 % 256, n / 0x100_0000 % 256];
            && DecodeTags([4 * (59 + k)] + bytes[..k] + (x + rest), out) == DecodeTags(rest, out + x)
            && ReadTags([4 * (59 + k)] + bytes[..k] + (x + rest), out) == ReadTags(rest, out + x)
  {
    var n := |x| - 1;
    var bytes: seq<byte> := [n % 256, n / 256 % 256, n / 0x1_0000 % 256, n / 0x100_0000 % 256];
    var head: seq<byte> := [4 * (59 + k)] + bytes[..k];
    LengthBytes(head, bytes, k, n);
    LiteralForm(head, x, rest, out);
    LiteralFormRead(head, x, rest, out);
  }

  lemma LengthBytes(head: seq<byte>, bytes: seq<byte>, k: nat, n: nat)
    requires 1 <= k <= 4 && n < Pow256(k) && n < U32_RANGE
    requires bytes == [n % 256, n / 256 % 256, n / 0x1_0000 % 256, n / 0x100_0000 % 256]
    requires head == [4 * (59 + k)] + bytes[..k]
    ensures LoadLE(head, 1, k) == n
  {
    Powers();
    LoadLocal(head, 1, bytes, 0, k);
    LowDigits(bytes, k, n);
  }

  lemma LowDigits(bytes: seq<byte>, k: nat, n: nat)
    requires 1 <= k <= 4 && n < U32_RANGE
    requires k == 1 ==> n < 256
    requires k == 2 ==> n < 0x1_0000
    requires k == 3 ==> n < 0x100_0000
    requires |bytes| == 4 && bytes[0] == n % 256 && bytes[1] == n / 256 % 256
    requires bytes[2] == n / 0x1_0000 % 256 && bytes[3] == n / 0x100_0000 % 256
    ensures LoadLE(bytes, 0, k) == n
  {
    FourDigits(n);
    match k
    case 1 => LoadOne(bytes, 0);
    case 2 => LoadTwo(bytes, 0);
    case 3 => LoadThree(bytes, 0);
    case 4 => LoadFour(bytes, 0);
  }

  lemma Powers()
    ensures Pow256(1) == 256 && Pow256(2) == 0x1_0000 && Pow256(3) == 0x100_0000
  {
    assert Pow256(1) == 256 * Pow256(0) && Pow256(2) == 256 * Pow256(1) && Pow256(3) == 256 * Pow256(2);
  }

  // ---------------------------------------------------------------- an example

  lemma FourCopied(abcd: seq<byte>)
    requires |abcd| == 4
    ensures CopyFrom(abcd, 4, 4) == abcd + abcd
  {
    CopyFromUnique(abcd, 4, 4, abcd + abcd);
  }

  lemma CopyLast(e: seq<byte>, abcd: seq<byte>)
    requires e == [15, 4, 0, 0, 0] && |abcd| == 4
    ensures DecodeTags(e, abcd) == ReadTags(e, abcd) == Some(abcd + abcd)
  {
    CopyWithFourBytes(4, 4, [], abcd);
    FourCopied(abcd);
    assert e + [] == e;
  }

  lemma LiteralFirst(tags: seq<byte>, abcd: seq<byte>, e: seq<byte>)
    requires tags == [12] + (abcd + e) && |abcd| == 4
    ensures DecodeTags(tags, []) == DecodeTags(e, abcd) && ReadTags(tags, []) == ReadTags(e, abcd)
  {
    ShortLiteral(abcd, e, []);
    assert [] + abcd == abcd;
  }

  lemma ShortStream(c: seq<byte>, r: seq<byte>)
    requires c != [] && c[0] < 128 && c[0] == |r| && DecodeTags(c[1..], []) == ReadTags(c[1..], []) == Some(r)
    ensures Decode(c) == ReadStream(c) == Some(r)
  {
    PartsOfRead(c, Varint(c[0], 1));
    PartsOfDecoded(c, Varint(c[0], 1));
  }

  lemma StreamParts(c: seq<byte>, abcd: seq<byte>)
    requires abcd == [97, 98, 99, 100] && c == [8, 12, 97, 98, 99, 100, 15, 4, 0, 0, 0]
    ensures c[1..] == [12] + (abcd + c[6..]) && c[6..] == [15, 4, 0, 0, 0]
  {
  }

  /** A stream with a copy of the form the compressor never writes: `abcd` twice. */
  lemma FourByteOffsetExample(c: seq<byte>, abcd: seq<byte>)
    requires abcd == [97, 98, 99, 100] && c == [8, 12, 97, 98, 99, 100, 15, 4, 0, 0, 0]
    ensures Decode(c) == ReadStream(c) == Some(abcd + abcd)
  {
    StreamParts(c, abcd);
    LiteralFirst(c[1..], abcd, c[6..]);
    CopyLast(c[6..], abcd);
    ShortStream(c, abcd + abcd);
  }
}
