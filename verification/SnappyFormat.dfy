/**
 The compressed stream as the format describes it: a varint with the
 uncompressed length, then tagged elements that are either literals or copies
 of earlier output.
 */
module SnappyFormat {
  import opened Bytes
  import opened Copying

  const U32_RANGE := 0x1_0000_0000

  /** How many bytes follow the tag byte before the element's data. */
  function ExtraBytes(tag: byte): (k: nat)
    ensures k <= 4
  {
    match tag % 4
    case 0 => if tag / 4 < 60 then 0 else tag / 4 - 59
    case 1 => 1
    case 2 => 2
    case _ => 4
  }

  /** Length of a literal element: in the tag, or one more than the bytes behind it say. */
  function LiteralLength(tag: byte, trailer: nat): (n: nat) {
    if tag / 4 < 60 then tag / 4 + 1 else trailer + 1
  }

  function CopyLength(tag: byte): (n: nat) {
    if tag % 4 == 1 then 4 + tag / 4 % 8 else tag / 4 + 1
  }

  function CopyOffset(tag: byte, trailer: nat): (offset: nat) {
    if tag % 4 == 1 then 256 * (tag / 32) + trailer else trailer
  }

  /**
   The output of the element stream `c` when `out` has been produced already;
   `None` when an element is cut short or copies from before the output.
   */
  function DecodeTags(c: seq<byte>, out: seq<byte>): (r: Option<seq<byte>>)
    decreases |c|, 0
  {
    if c == [] then Some(out)
    else
      var k := ExtraBytes(c[0]);
      if |c| < 1 + k then None
      else
        var trailer := LoadLE(c, 1, k);
        if c[0] % 4 == 0 then
          DecodeLiteral(LiteralLength(c[0], trailer), c[1 + k..], out)
        else
          var offset := CopyOffset(c[0], trailer);
          if 1 <= offset <= |out| then
            DecodeTags(c[1 + k..], CopyFrom(out, offset, CopyLength(c[0])))
          else
            None
  }

  /** `n` literal bytes, then the rest of the stream. */
  function DecodeLiteral(n: nat, c: seq<byte>, out: seq<byte>): (r: Option<seq<byte>>)
    decreases |c|, 1
  {
    if |c| < n then None else DecodeTags(c[n..], out + c[..n])
  }

  /** Decoding only ever extends the output. */
  lemma {:induction false} DecodeExtends(c: seq<byte>, out: seq<byte>)
    ensures DecodeTags(c, out).Some? ==> out <= DecodeTags(c, out).value
    decreases |c|
  {
    if c != [] && |c| >= 1 + ExtraBytes(c[0]) {
      var k := ExtraBytes(c[0]);
      var trailer := LoadLE(c, 1, k);
      if c[0] % 4 == 0 {
        var n, body := LiteralLength(c[0], trailer), c[1 + k..];
        if n <= |body| {
          DecodeExtends(body[n..], out + body[..n]);
        }
      } else {
        var offset := CopyOffset(c[0], trailer);
        if 1 <= offset <= |out| {
          CopyFromRepeats(out, offset, CopyLength(c[0]));
          DecodeExtends(c[1 + k..], CopyFrom(out, offset, CopyLength(c[0])));
        }
      }
    }
  }

  /** A stream that decodes completely can be followed by another one. */
  lemma {:induction false} DecodeAppend(a: seq<byte>, b: seq<byte>, out: seq<byte>, mid: seq<byte>)
    requires DecodeTags(a, out) == Some(mid)
    ensures DecodeTags(a + b, out) == DecodeTags(b, mid)
    decreases |a|
  {
    if a == [] {
      assert a + b == b;
    } else {
      var k := ExtraBytes(a[0]);
      var trailer := LoadLE(a, 1, k);
      assert (a + b)[1..1 + k] == a[1..1 + k];
      LoadLocal(a, 1, a + b, 1, k);
      assert (a + b)[1 + k..] == a[1 + k..] + b;
      if a[0] % 4 == 0 {
        var n, body := LiteralLength(a[0], trailer), a[1 + k..];
        assert (body + b)[..n] == body[..n] && (body + b)[n..] == body[n..] + b;
        DecodeAppend(body[n..], b, out + body[..n], mid);
      } else {
        DecodeAppend(a[1 + k..], b, CopyFrom(out, CopyOffset(a[0], trailer), CopyLength(a[0])), mid);
      }
    }
  }

  /** One literal element and nothing else. */
  lemma DecodeOneLiteral(c: seq<byte>, k: nat, out: seq<byte>)
    requires c != [] && c[0] % 4 == 0 && k == ExtraBytes(c[0]) && |c| >= 1 + k
    requires LiteralLength(c[0], LoadLE(c, 1, k)) == |c| - (1 + k)
    ensures DecodeTags(c, out) == Some(out + c[1 + k..])
  {
    var body := c[1 + k..];
    assert body[|body|..] == [] && body[..|body|] == body;
    assert DecodeLiteral(|body|, body, out) == Some(out + body);
  }

  /** One copy element and nothing else. */
  lemma DecodeOneCopy(c: seq<byte>, offset: nat, len: nat, out: seq<byte>)
    requires c != [] && c[0] % 4 != 0 && |c| == 1 + ExtraBytes(c[0])
    requires CopyOffset(c[0], LoadLE(c, 1, |c| - 1)) == offset && CopyLength(c[0]) == len
    requires 1 <= offset <= |out|
    ensures DecodeTags(c, out) == Some(CopyFrom(out, offset, len))
  {
    assert c[1 + ExtraBytes(c[0])..] == [];
  }

  /** Two complete streams, one after the other. */
  lemma DecodeThen(a: seq<byte>, b: seq<byte>, out: seq<byte>, mid: seq<byte>, end: seq<byte>)
    requires DecodeTags(a, out) == Some(mid) && DecodeTags(b, mid) == Some(end)
    ensures DecodeTags(a + b, out) == Some(end)
  {
    DecodeAppend(a, b, out, mid);
  }

  // ---------------------------------------------------------------- preamble

  /** A varint at the head of a stream: its value and its length in bytes. */
  datatype Varint = Varint(value: nat, size: nat)

  /** At most `k` groups of seven bits, least significant first, up to the first byte below 128. */
  function ReadGroups(c: seq<byte>, k: nat): (r: Option<Varint>)
    ensures r.Some? ==> 1 <= r.value.size <= k && r.value.size <= |c|
    decreases k
  {
    if k == 0 || c == [] then None
    else if c[0] < 128 then Some(Varint(c[0], 1))
    else
      match ReadGroups(c[1..], k - 1)
      case None => None
      case Some(v) => Some(Varint(c[0] - 128 + 128 * v.value, v.size + 1))
  }

  /** The length preamble: five groups whose value fits 32 bits, as `varint_parse32_with_limit` accepts it. */
  function ParsedVarint(c: seq<byte>): (r: Option<Varint>)
    ensures r.Some? ==> 1 <= r.value.size <= 5 && r.value.size <= |c| && r.value.value < U32_RANGE
  {
    match ReadGroups(c, 5)
    case Some(v) => if v.value < U32_RANGE then Some(v) else None
    case None => None
  }

  /** What a whole stream decompresses to: the preamble must announce exactly the output's length. */
  function Decode(c: seq<byte>): (r: Option<seq<byte>>) {
    match ParsedVarint(c)
    case None => None
    case Some(v) =>
      match DecodeTags(c[v.size..], [])
      case None => None
      case Some(out) => if |out| == v.value then Some(out) else None
  }
}
