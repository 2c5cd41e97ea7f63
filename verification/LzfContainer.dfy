/** The block container of the `lzf` tool: `compress_fd` and `uncompress_fd` over byte streams. */
module LzfContainer {
  import opened Bytes
  import opened Copying
  import LzfFormat
  import LzfCompress
  import LzfDecompress

  const MAX_BLOCKSIZE := 0xffff
  const MAX_HDR_SIZE := 7
  const BUFFER_SIZE := MAX_BLOCKSIZE + MAX_HDR_SIZE + 16
  const Z: byte := 90
  const V: byte := 86

  function Word(high: byte, low: byte): (w: u16) {
    256 * high + low
  }

  // -------------------------------------------------------------------
  // The format
  // -------------------------------------------------------------------

  datatype Result = Result(ok: bool, output: seq<byte>)

  /** Whether a compressed block stands for its announced size; announcing nothing is always accepted. */
  ghost predicate Expands(data: seq<byte>, us: nat) {
    us == 0 || (data != [] && StandsFor(data, us))
  }

  /** What a compressed block should do: decode to exactly as many bytes as it announces. */
  ghost predicate StandsFor(data: seq<byte>, us: nat) {
    LzfFormat.Decode(data, []).Some? && |LzfFormat.Decode(data, []).value| == us
  }

  ghost function Expanded(data: seq<byte>, us: nat): (r: seq<byte>)
    requires Expands(data, us)
    ensures |r| == us
  {
    if us == 0 then [] else LzfFormat.Decode(data, []).value
  }

  /** What the blocks of the stream `s` add to `out`; output made before an error stays written. */
  ghost function Blocks(s: seq<byte>, out: seq<byte>): (r: Result)
    decreases |s|
  {
    if s == [] || s[0] == 0 then Result(true, out)
    else if |s| < 5 || s[0] != Z || s[1] != V then Result(false, out)
    else if s[2] == 0 then
      var us := Word(s[3], s[4]);
      if |s| < 5 + us then Result(false, out) else Blocks(s[5 + us..], out + s[5..5 + us])
    else if s[2] == 1 && |s| >= 7 then
      var cs, us := Word(s[3], s[4]), Word(s[5], s[6]);
      if |s| < 7 + cs || !Expands(s[7..7 + cs], us) then Result(false, out)
      else Blocks(s[7 + cs..], out + Expanded(s[7..7 + cs], us))
    else Result(false, out)
  }

  /** A block as the writer makes it. */
  datatype Block = Stored(data: seq<byte>) | Compressed(packed: seq<byte>, data: seq<byte>) {
    ghost predicate Valid() {
      && |data| <= MAX_BLOCKSIZE
      && (Compressed? ==> 0 < |packed| <= MAX_BLOCKSIZE && LzfFormat.Decode(packed, []) == Some(data))
    }

    function Encoding(): (b: seq<byte>)
      requires |data| <= MAX_BLOCKSIZE && (Compressed? ==> |packed| <= MAX_BLOCKSIZE)
    {
      match this
      case Stored(_) => [Z, V, 0, |data| / 256, |data| % 256] + data
      case Compressed(_, _) =>
        [Z, V, 1, |packed| / 256, |packed| % 256, |data| / 256, |data| % 256] + packed
    }
  }

  lemma StoredStep(s: seq<byte>, data: seq<byte>, t: seq<byte>, out: seq<byte>)
    requires |s| >= 5 && s[0] == Z && s[1] == V && s[2] == 0 && Word(s[3], s[4]) == |data|
    requires |s| >= 5 + |data| && s[5..5 + |data|] == data && s[5 + |data|..] == t
    ensures Blocks(s, out) == Blocks(t, out + data)
  {
  }

  lemma CompressedStep(s: seq<byte>, packed: seq<byte>, data: seq<byte>, t: seq<byte>, out: seq<byte>)
    requires |s| >= 7 && s[0] == Z && s[1] == V && s[2] == 1
    requires Word(s[3], s[4]) == |packed| && Word(s[5], s[6]) == |data|
    requires |s| >= 7 + |packed| && s[7..7 + |packed|] == packed && s[7 + |packed|..] == t
    requires Expands(packed, |data|) && Expanded(packed, |data|) == data
    ensures Blocks(s, out) == Blocks(t, out + data)
  {
  }

  lemma BlockStep(b: Block, t: seq<byte>, out: seq<byte>)
    requires b.Valid()
    ensures Blocks(b.Encoding() + t, out) == Blocks(t, out + b.data)
  {
    var s := b.Encoding() + t;
    match b
    case Stored(data) =>
      assert s[5..5 + |data|] == data && s[5 + |data|..] == t;
      StoredStep(s, data, t, out);
    case Compressed(packed, data) =>
      assert s[7..7 + |packed|] == packed && s[7 + |packed|..] == t;
      assert Word(s[3], s[4]) == |packed| && Word(s[5], s[6]) == |data|;
      CompressedStep(s, packed, data, t, out);
  }

  ghost predicate AllValid(bs: seq<Block>) {
    forall i :: 0 <= i < |bs| ==> bs[i].Valid()
  }

  /** The stream the blocks make up, and the data they stand for. */
  ghost function Stream(bs: seq<Block>): (s: seq<byte>)
    requires AllValid(bs)
  {
    if bs == [] then [] else bs[0].Encoding() + Stream(bs[1..])
  }

  ghost function Data(bs: seq<Block>): (s: seq<byte>) {
    if bs == [] then [] else bs[0].data + Data(bs[1..])
  }

  lemma {:induction false} OneMore(bs: seq<Block>, b: Block)
    requires AllValid(bs) && b.Valid()
    ensures Stream(bs + [b]) == Stream(bs) + b.Encoding() && Data(bs + [b]) == Data(bs) + b.data
  {
    if bs == [] {
      assert bs + [b] == [b];
    } else {
      assert (bs + [b])[1..] == bs[1..] + [b];
      OneMore(bs[1..], b);
    }
  }

  /** Reading inverts writing, whatever blocks were written. */
  lemma {:induction false} BlocksOfStream(bs: seq<Block>, out: seq<byte>)
    requires AllValid(bs)
    ensures Blocks(Stream(bs), out) == Result(true, out + Data(bs))
  {
    if bs == [] {
      assert out + [] == out;
    } else {
      BlockStep(bs[0], Stream(bs[1..]), out);
      BlocksOfStream(bs[1..], out + bs[0].data);
      assert out + bs[0].data + Data(bs[1..]) == out + Data(bs);
    }
  }

  // -------------------------------------------------------------------
  // Writing
  // -------------------------------------------------------------------

  /** One block, compressed if that makes it four bytes shorter and stored otherwise. */
  method PutBlock(buf1: array<byte>, us: nat, buf2: array<byte>) returns (b: Block)
    requires buf1.Length == buf2.Length == BUFFER_SIZE && buf1 != buf2 && 1 <= us <= MAX_BLOCKSIZE
    modifies buf2
    ensures b.Valid() && b.data == buf1[..us] && |b.Encoding()| <= us + if us > 4 then 5 else 7
  {
    var cs: nat := LzfCompress.Compress(buf1[..us], buf2, if us > 4 then us - 4 else us, buf1[us]);
    if cs > 0 {
      b := Compressed(buf2[..cs], buf1[..us]);
    } else {
      b := Stored(buf1[..us]);
    }
  }

  function Min(a: nat, b: nat): (m: nat) {
    if a < b then a else b
  }

  /** The blocks written so far stand for the part of the stream read so far. */
  ghost predicate Written(blocks: seq<Block>, to: seq<byte>, from: seq<byte>, pos: nat) {
    pos <= |from| && AllValid(blocks) && to == Stream(blocks) && Data(blocks) == from[..pos]
  }

  lemma WriteBlock(blocks: seq<Block>, b: Block, to: seq<byte>, from: seq<byte>, pos: nat, us: nat)
    requires Written(blocks, to, from, pos) && pos + us <= |from|
    requires b.Valid() && b.data == from[pos..pos + us]
    ensures Written(blocks + [b], to + b.Encoding(), from, pos + us)
  {
    OneMore(blocks, b);
    assert from[..pos] + from[pos..pos + us] == from[..pos + us];
  }

  lemma AllWritten(blocks: seq<Block>, to: seq<byte>, from: seq<byte>)
    requires Written(blocks, to, from, |from|)
    ensures Blocks(to, []) == Result(true, from)
  {
    BlocksOfStream(blocks, []);
    assert from[..|from|] == from && [] + from == from;
  }

  /** `compress_fd`: the reader recovers exactly what was written, for every stream and block size. */
  method CompressStream(from: seq<byte>, blocksize: nat) returns (to: seq<byte>)
    requires 1 <= blocksize <= MAX_BLOCKSIZE
    ensures Blocks(to, []) == Result(true, from)
  {
    var buf1, buf2 := new byte[BUFFER_SIZE], new byte[BUFFER_SIZE];
    var pos: nat := 0;
    to := [];
    ghost var blocks: seq<Block> := [];
    while pos < |from|
      invariant Written(blocks, to, from, pos)
    {
      var us := Min(blocksize, |from| - pos);
      Store(buf1, 0, from, pos, us);
      var b := PutBlock(buf1, us, buf2);
      assert buf1[..us] == buf1[0..0 + us];
      WriteBlock(blocks, b, to, from, pos, us);
      blocks, to, pos := blocks + [b], to + b.Encoding(), pos + us;
    }
    AllWritten(blocks, to, from);
  }

  // -------------------------------------------------------------------
  // Reading
  // -------------------------------------------------------------------

  /** Fill the header behind the `over` bytes left from the block before. */
  method ReadHeader(header: array<byte>, over: nat, rest0: seq<byte>) returns (rc: nat, rest: seq<byte>)
    requires header.Length == MAX_HDR_SIZE && over <= MAX_HDR_SIZE
    modifies header
    ensures rc == Min(MAX_HDR_SIZE, over + |rest0|)
    ensures header[..rc] + rest == old(header[..over]) + rest0
  {
    var n := Min(MAX_HDR_SIZE - over, |rest0|);
    Store(header, over, rest0, 0, n);
    rc, rest := over + n, rest0[n..];
    assert header[..rc] == header[..over] + header[over..rc];
    assert rest0 == rest0[..n] + rest0[n..];
    assert header[..rc] + rest == header[..over] + (rest0[..n] + rest0[n..]);
  }

  lemma SurplusSplits(head: seq<byte>, rest: seq<byte>, p: nat, bytes: nat)
    requires p + bytes <= |head|
    ensures (head + rest)[p..p + bytes] == head[p..][..bytes]
    ensures (head + rest)[p + bytes..] == head[p + bytes..] + rest
  {
  }

  lemma ShortfallSplits(head: seq<byte>, rest: seq<byte>, p: nat, bytes: nat)
    requires p <= |head| <= p + bytes <= |head| + |rest|
    ensures (head + rest)[p..p + bytes] == head[p..] + rest[..p + bytes - |head|]
    ensures (head + rest)[p + bytes..] == rest[p + bytes - |head|..]
  {
  }

  /** Collect a block's bytes: those the header read already took, then the rest; surplus goes back in front. */
  method ReadBody(header: array<byte>, p: nat, rc: nat, bytes: nat, rest0: seq<byte>, buf1: array<byte>)
    returns (ok: bool, over: nat, rest: seq<byte>)
    requires header.Length == MAX_HDR_SIZE && buf1.Length == BUFFER_SIZE && header != buf1
    requires p <= rc <= MAX_HDR_SIZE && bytes <= MAX_BLOCKSIZE
    modifies header, buf1
    ensures over <= MAX_HDR_SIZE
    ensures var s := old(header[..rc]) + rest0;
            && ok == (|s| >= p + bytes)
            && (ok ==> buf1[..bytes] == s[p..p + bytes] && header[..over] + rest == s[p + bytes..])
  {
    ghost var head := header[..rc];
    ghost var s := head + rest0;
    var l := rc - p;
    ok, over, rest := true, 0, rest0;
    Store(buf1, 0, header[..], p, l);
    if l > bytes {
      over := l - bytes;
      Store(header, 0, header[..], p + bytes, over);
      assert header[0..0 + over] == head[p + bytes..];
      assert buf1[0..0 + l] == head[p..];
      SurplusSplits(head, rest0, p, bytes);
      assert buf1[..bytes] == buf1[0..0 + l][..bytes];
      return;
    }
    var rd := bytes - l;
    if |rest0| < rd {
      return false, 0, [];
    }
    Store(buf1, l, rest0, 0, rd);
    rest := rest0[rd..];
    assert buf1[..l] == head[p..] && buf1[l..l + rd] == rest0[..rd];
    assert buf1[..bytes] == buf1[..l] + buf1[l..l + rd];
    ShortfallSplits(head, rest0, p, bytes);
    assert header[..over] + rest == rest;
  }

  /** The decoder returns the announced size exactly for the blocks the format accepts. */
  lemma ExpandsIff(buf: seq<byte>, cs: nat, us: nat)
    requires LzfDecompress.ReadLength(cs) <= |buf|
    ensures var r := LzfFormat.DecodeWithin(buf[..LzfDecompress.ReadLength(cs)], [], us);
            && (Expands(buf[..cs], us) <==> (if r.Done? then |r.out| else 0) == us)
            && (Expands(buf[..cs], us) && us > 0 ==> r.Done? && r.out == Expanded(buf[..cs], us))
  {
    if cs == 0 {
      assert buf[..1] == [buf[0]];
      LzfDecompress.EmptyInputFails(buf[0], us);
    } else {
      LzfFormat.WithinIsDecode(buf[..cs], [], us);
      if LzfFormat.DecodeWithin(buf[..cs], [], us).Done? {
        LzfDecompress.OutputGrows(buf[..cs], [], us);
      }
    }
  }

  method Expand(buf1: array<byte>, cs: nat, buf2: array<byte>, us: nat) returns (ok: bool)
    requires buf1 != buf2 && buf1.Length == buf2.Length == BUFFER_SIZE
    requires cs <= MAX_BLOCKSIZE && us <= MAX_BLOCKSIZE
    modifies buf2
    ensures ok == Expands(buf1[..cs], us)
    ensures ok ==> buf2[..us] == Expanded(buf1[..cs], us)
  {
    ExpandsIff(buf1[..], cs, us);
    assert buf1[..][..cs] == buf1[..cs];
    var n, err := LzfDecompress.Decompress(buf1[..], cs, buf2, us);
    ok := n == us;
  }

  lemma Malformed(s: seq<byte>, out: seq<byte>)
    requires s != [] && s[0] != 0
    requires || |s| < 5 || s[0] != Z || s[1] != V || s[2] > 1
             || (s[2] == 0 && |s| < 5 + Word(s[3], s[4]))
             || (s[2] == 1 && |s| < 7)
             || (s[2] == 1 && |s| < 7 + Word(s[3], s[4]))
             || (s[2] == 1 && !Expands(s[7..7 + Word(s[3], s[4])], Word(s[5], s[6])))
    ensures Blocks(s, out) == Result(false, out)
  {
  }

  /** One block at the front of a stream, read into the output or refused. */
  ghost predicate Turn(s: seq<byte>, to: seq<byte>, ok: bool, s': seq<byte>, to': seq<byte>) {
    if ok then |s'| < |s| && Blocks(s', to') == Blocks(s, to) else Blocks(s, to) == Result(false, to)
  }

  method StoredTurn(header: array<byte>, rc: nat, rest0: seq<byte>, buf1: array<byte>, to0: seq<byte>)
    returns (ok: bool, over: nat, rest: seq<byte>, to: seq<byte>)
    requires header.Length == MAX_HDR_SIZE && buf1.Length == BUFFER_SIZE && header != buf1
    requires 5 <= rc <= MAX_HDR_SIZE && header[0] == Z && header[1] == V && header[2] == 0
    modifies header, buf1
    ensures over <= MAX_HDR_SIZE
    ensures Turn(old(header[..rc]) + rest0, to0, ok, header[..over] + rest, to) && (!ok ==> to == to0)
  {
    ghost var s := header[..rc] + rest0;
    var us := Word(header[3], header[4]);
    to := to0;
    ok, over, rest := ReadBody(header, 5, rc, us, rest0, buf1);
    if ok {
      StoredStep(s, buf1[..us], header[..over] + rest, to0);
      to := to + buf1[..us];
    } else {
      Malformed(s, to0);
    }
  }

  method CompressedTurn(header: array<byte>, rc: nat, rest0: seq<byte>, buf1: array<byte>, buf2: array<byte>,
                        to0: seq<byte>)
    returns (ok: bool, over: nat, rest: seq<byte>, to: seq<byte>)
    requires header.Length == MAX_HDR_SIZE && buf1.Length == buf2.Length == BUFFER_SIZE
    requires header != buf1 && header != buf2 && buf1 != buf2
    requires 5 <= rc <= MAX_HDR_SIZE && (rc < MAX_HDR_SIZE ==> rest0 == [])
    requires header[0] == Z && header[1] == V && header[2] == 1
    modifies header, buf1, buf2
    ensures over <= MAX_HDR_SIZE
    ensures Turn(old(header[..rc]) + rest0, to0, ok, header[..over] + rest, to) && (!ok ==> to == to0)
  {
    ghost var s := header[..rc] + rest0;
    to, ok, over, rest := to0, false, 0, [];
    if rc < 7 {
      Malformed(s, to0);
      return;
    }
    var cs, us := Word(header[3], header[4]), Word(header[5], header[6]);
    ok, over, rest := ReadBody(header, 7, rc, cs, rest0, buf1);
    if !ok {
      Malformed(s, to0);
      return;
    }
    ok := Expand(buf1, cs, buf2, us);
    if !ok {
      Malformed(s, to0);
      return;
    }
    CompressedStep(s, buf1[..cs], buf2[..us], header[..over] + rest, to0);
    to := to + buf2[..us];
  }

  /** `uncompress_fd`: on every stream it ends as the format says and has written what the format says. */
  method UncompressStream(from: seq<byte>) returns (ok: bool, to: seq<byte>)
    ensures Result(ok, to) == Blocks(from, [])
  {
    var header := new byte[MAX_HDR_SIZE];
    var buf1, buf2 := new byte[BUFFER_SIZE], new byte[BUFFER_SIZE];
    var over: nat, rest := 0, from;
    to := [];
    assert header[..over] + rest == from;
    while true
      invariant over <= MAX_HDR_SIZE
      invariant Blocks(header[..over] + rest, to) == Blocks(from, [])
      decreases |header[..over] + rest|
    {
      ghost var s := header[..over] + rest;
      var rc;
      rc, rest := ReadHeader(header, over, rest);
      if rc == 0 || header[0] == 0 {
        return true, to;
      }
      if rc < 5 || header[0] != Z || header[1] != V || header[2] > 1 {
        Malformed(s, to);
        return false, to;
      }
      if header[2] == 0 {
        ok, over, rest, to := StoredTurn(header, rc, rest, buf1, to);
      } else {
        ok, over, rest, to := CompressedTurn(header, rc, rest, buf1, buf2, to);
      }
      if !ok {
        return;
      }
    }
  }

  /** The container's round trip, for every stream and every block size. */
  method RoundTrip(from: seq<byte>, blocksize: nat) returns (ok: bool, back: seq<byte>)
    requires 1 <= blocksize <= MAX_BLOCKSIZE
    ensures ok && back == from
  {
    var packed := CompressStream(from, blocksize);
    ok, back := UncompressStream(packed);
  }

  // -------------------------------------------------------------------
  // Blocks that announce nothing
  // -------------------------------------------------------------------

  /** Decoding anything at all produces something. */
  lemma DecodesToSomething(data: seq<byte>)
    requires data != [] && LzfFormat.Decode(data, []).Some?
    ensures |LzfFormat.Decode(data, []).value| > 0
  {
    var n := |LzfFormat.Decode(data, []).value|;
    LzfFormat.WithinIsDecode(data, [], n);
    LzfDecompress.OutputGrows(data, [], n);
  }

  /** Where reading ends well: at the end of the stream, or at a zero byte, whatever follows it. */
  lemma StreamEnds(s: seq<byte>, out: seq<byte>)
    ensures Blocks([], out) == Result(true, out) && Blocks([0] + s, out) == Result(true, out)
  {
  }

  /** Where it fails: no header of five bytes that begins with `ZV`, or a type other than 0 and 1. */
  lemma StreamRefused(s: seq<byte>, out: seq<byte>)
    requires s != [] && s[0] != 0
    requires |s| < 5 || s[0] != 0x5a || s[1] != 0x56 || s[2] > 1
    ensures Blocks(s, out) == Result(false, out)
  {
  }

  /** A block cut short fails, with what was written before it left in place. */
  lemma BlockCutShort(b: Block, n: nat, out: seq<byte>)
    requires b.Valid() && 0 < n < |b.Encoding()|
    ensures Blocks(b.Encoding()[..n], out) == Result(false, out)
  {
    var s := b.Encoding()[..n];
    assert s[0] == Z;
    if n >= 7 && b.Compressed? {
      assert Word(s[3], s[4]) == |b.packed|;
    } else if n >= 5 && b.Stored? {
      assert Word(s[3], s[4]) == |b.data|;
    }
  }

  /** The reader's test is the right one exactly for blocks that announce something or hold nothing. */
  lemma AcceptanceIsRight(data: seq<byte>, us: nat)
    ensures (Expands(data, us) <==> StandsFor(data, us)) <==> us > 0 || data == []
  {
    if data != [] && LzfFormat.Decode(data, []).Some? {
      DecodesToSomething(data);
    }
  }

  /** Every block that announces nothing is passed over, whatever it holds. */
  lemma NothingAnnounced(s: seq<byte>, data: seq<byte>, t: seq<byte>, out: seq<byte>)
    requires |s| >= 7 && s[0] == Z && s[1] == V && s[2] == 1
    requires Word(s[3], s[4]) == |data| && Word(s[5], s[6]) == 0
    requires |s| >= 7 + |data| && s[7..7 + |data|] == data && s[7 + |data|..] == t
    ensures Blocks(s, out) == Blocks(t, out)
  {
    CompressedStep(s, data, [], t, out);
    assert out + [] == out;
  }

  lemma NoReference()
    ensures LzfFormat.Decode([255], []) == None
  {
  }

  /** A block of one byte that is no LZF stream, accepted as a block of nothing. */
  lemma MalformedBlockAccepted(s: seq<byte>, out: seq<byte>)
    requires s == [90, 86, 1, 0, 1, 0, 0, 255]
    ensures LzfFormat.Decode(s[7..8], []) == None && Blocks(s, out) == Result(true, out)
  {
    assert s[7..8] == [255] && s[8..] == [];
    NothingAnnounced(s, [255], [], out);
    NoReference();
  }
}
