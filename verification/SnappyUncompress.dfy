/** Decompressing a whole stream, and what compressing and decompressing give together. */
module SnappyUncompress {
  import opened Bytes
  import opened SnappyFormat
  import opened SnappyAccepted
  import opened SnappySource
  import opened SnappyWriter
  import opened SnappyDecompress
  import C = SnappyCompress
  import F = SnappyFragment

  /** The weight of the seven-bit group number `i`. */
  function Weight(i: nat): (w: nat)
    requires i <= 4
  {
    match i
    case 0 => 1
    case 1 => 0x80
    case 2 => 0x4000
    case 3 => 0x20_0000
    case _ => 0x1000_0000
  }

  /** What the groups still to come make of a length whose first `i` groups add up to `low`. */
  ghost function WithLow(i: nat, low: nat, r: Option<Varint>): (v: Option<Varint>)
    requires i <= 5
  {
    match r
    case None => None
    case Some(v) => if i <= 4 then Some(Varint(low + Weight(i) * v.value, i + v.size)) else None
  }

  /** `low` is the value of the first `i` groups of a preamble that is read as `whole`, and `rest` follows them. */
  ghost predicate GroupsRead(whole: Option<Varint>, i: nat, low: nat, rest: seq<byte>) {
    i <= 5 && (i <= 4 ==> low < Weight(i)) && whole == WithLow(i, low, ReadGroups(rest, 5 - i))
  }

  lemma NoneRead(all: seq<byte>)
    ensures GroupsRead(ReadGroups(all, 5), 0, 0, all)
  {
  }

  /** The value with the group of byte `c` added, the shifted group cut to 32 bits. */
  function AddGroup(i: nat, low: nat, c: byte): (v: nat)
    requires i <= 4
  {
    low + c % 128 * Weight(i) % U32_RANGE
  }

  lemma MoreGroups(whole: Option<Varint>, i: nat, low: nat, rest: seq<byte>)
    requires GroupsRead(whole, i, low, rest) && i <= 4 && rest != [] && rest[0] >= 128
    ensures GroupsRead(whole, i + 1, AddGroup(i, low, rest[0]), rest[1..])
  {
    TruncatedGroup(i, low, rest[0] - 128);
    GroupMovesDown(i, low, rest);
  }

  lemma GroupMovesDown(i: nat, low: nat, rest: seq<byte>)
    requires i <= 4 && rest != [] && rest[0] >= 128
    ensures WithLow(i, low, ReadGroups(rest, 5 - i))
         == WithLow(i + 1, low + Weight(i) * (rest[0] - 128), ReadGroups(rest[1..], 5 - (i + 1)))
  {
    var r := ReadGroups(rest[1..], 4 - i);
    if i < 4 && r.Some? {
      Distribute(i, rest[0] - 128, r.value.value);
    }
  }

  lemma LastGroup(whole: Option<Varint>, i: nat, low: nat, rest: seq<byte>)
    requires GroupsRead(whole, i, low, rest) && i <= 4 && rest != [] && rest[0] < 128
    ensures whole.Some? && Truncate(whole) == Some(Varint(AddGroup(i, low, rest[0]), i + 1))
  {
    TruncatedGroup(i, low, rest[0]);
  }

  lemma NoGroup(whole: Option<Varint>, i: nat, low: nat, rest: seq<byte>)
    requires GroupsRead(whole, i, low, rest) && (i == 5 || rest == [])
    ensures whole == None
  {
  }

  lemma Distribute(i: nat, a: nat, v: nat)
    requires i < 4
    ensures Weight(i) * (a + 128 * v) == Weight(i) * a + Weight(i + 1) * v
  {
  }

  lemma TruncatedGroup(i: nat, low: nat, b: nat)
    requires i <= 4 && low < Weight(i) && b < 128
    ensures low + b * Weight(i) % U32_RANGE == (low + Weight(i) * b) % U32_RANGE
    ensures i < 4 ==> low + b * Weight(i) % U32_RANGE == low + Weight(i) * b < Weight(i + 1)
  {
  }

  /** The reader of the length preamble inside the decompressor. */
  method ReadUncompressedLength(reader: Source) returns (r: Option<u32>)
    requires reader.Valid()
    modifies reader
    ensures reader.Valid() && (old(reader.Lone()) ==> reader.Lone())
    ensures match ReadVarint(old(reader.rest))
            case None => r == None
            case Some(v) => r == Some(v.value) && reader.rest == old(reader.rest)[v.size..]
  {
    ghost var all, whole := reader.rest, ReadGroups(reader.rest, 5);
    var i: nat, result: nat := 0, 0;
    NoneRead(all);
    while true
      invariant reader.Valid() && i <= |all| && reader.rest == all[i..] && (old(reader.Lone()) ==> reader.Lone())
      invariant GroupsRead(whole, i, result, reader.rest)
      decreases 5 - i
    {
      if i >= 5 || |reader.Peek()| == 0 {
        NoGroup(whole, i, result, reader.rest);
        return None;
      }
      var c := reader.Peek()[0];
      assert c == reader.rest[0];
      if c < 128 {
        LastGroup(whole, i, result, reader.rest);
      } else {
        MoreGroups(whole, i, result, reader.rest);
      }
      reader.Skip(1);
      result := AddGroup(i, result, c);
      if c < 128 {
        assert reader.rest == all[i + 1..];
        return Some(result);
      }
      i := i + 1;
    }
  }

  /** The preamble as the two readers see it: nothing to decode, or a length and the elements behind it. */
  ghost function Announced(c: seq<byte>): (n: nat) {
    if ReadVarint(c).Some? then ReadVarint(c).value.value else 0
  }

  lemma TailKept(was: seq<byte>, now: seq<byte>, n: nat)
    requires n <= |was| == |now| && now[n..] == was[n..]
    ensures forall i :: n <= i < |now| ==> now[i] == was[i]
  {
    forall i | n <= i < |now| ensures now[i] == was[i] {
      assert now[i] == now[n..][i - n] && was[i] == was[n..][i - n];
    }
  }

  /** The elements behind the preamble, decoded into the first `length` bytes of `out`. */
  method UncompressTags(reader: Source, out: array<byte>, length: u32) returns (ok: bool)
    requires reader.Valid() && length <= out.Length
    requires Orderly(reader.iov) || (reader.Lone() && reader.rest != [] && LongTail(reader.rest, []))
    modifies reader, out
    ensures ok <==> Accepts(old(reader.rest), [], length)
    ensures ok ==> ReadTags(old(reader.rest), []) == Some(out[..length])
    ensures forall i :: length <= i < out.Length ==> out[i] == old(out[i])
  {
    var d := new Decompressor(reader);
    var writer := new Writer(out);
    writer.SetExpectedLength(length);
    d.DecompressAllTags(writer);
    d.reader.Skip(d.peeked);
    ok := d.eof && writer.op == writer.opLimit;
    TailKept(old(out[..]), out[..], length);
  }

  lemma DecodeParts(c: seq<byte>)
    ensures ReadVarint(c).None? ==> ReadStream(c) == None
    ensures ReadVarint(c).Some? ==>
              var v := ReadVarint(c).value;
              && (ReadStream(c).Some? <==> Accepts(c[v.size..], [], v.value))
              && (ReadStream(c).Some? ==> ReadStream(c) == ReadTags(c[v.size..], []))
  {
  }

  /** A stream in one fragment, with an empty one behind it and a last element of at least five bytes. */
  ghost predicate Gapped(iov: seq<seq<byte>>) {
    && |iov| >= 2 && iov[1] == []
    && match ReadVarint(iov[0])
       case None => true
       case Some(v) => iov[0][v.size..] != [] && LongTail(iov[0][v.size..], [])
  }

  lemma GappedIsSeen(iov: seq<seq<byte>>)
    requires |iov| >= 2 && iov[1] == []
    ensures Seen(iov, 0, 0) == iov[0]
  {
    assert iov[0][0..] == iov[0];
  }

  /**
   `internal_uncompress` of the fragments `iov`: it succeeds exactly when what is seen of them decodes and
   announces no more than `maxLen`, and stores only inside the announced length. An empty fragment in front, or
   behind a stream whose last element is long, hides the others.
   */
  method InternalUncompress(iov: seq<seq<byte>>, out: array<byte>, maxLen: u32) returns (ok: bool)
    requires |iov| >= 1 && (Orderly(iov) || iov[0] == [] || Gapped(iov))
    requires Announced(Seen(iov, 0, 0)) <= maxLen ==> Announced(Seen(iov, 0, 0)) <= out.Length
    modifies out
    ensures ok <==> ReadStream(Seen(iov, 0, 0)).Some? && Announced(Seen(iov, 0, 0)) <= maxLen
    ensures ok ==> Announced(Seen(iov, 0, 0)) <= out.Length
    ensures ok ==> ReadStream(Seen(iov, 0, 0)) == Some(out[..Announced(Seen(iov, 0, 0))])
    ensures forall i :: Announced(Seen(iov, 0, 0)) <= i < out.Length ==> out[i] == old(out[i])
  {
    ghost var all := Seen(iov, 0, 0);
    DecodeParts(all);
    if Gapped(iov) {
      GappedIsSeen(iov);
    }
    var reader := new Source(iov);
    var length := ReadUncompressedLength(reader);
    if length == None || length.value > maxLen {
      return false;
    }
    ok := UncompressTags(reader, out, length.value);
  }

  /** `snappy_uncompress`, flat or scattered: every orderly cut of the same bytes gives the same result. */
  method Uncompress(iov: seq<seq<byte>>, out: array<byte>) returns (ok: bool)
    requires |iov| >= 1 && (Orderly(iov) || iov[0] == [] || Gapped(iov)) && Announced(Seen(iov, 0, 0)) <= out.Length
    modifies out
    ensures ok <==> ReadStream(Seen(iov, 0, 0)).Some?
    ensures ok ==> ReadStream(Seen(iov, 0, 0)) == Some(out[..Announced(Seen(iov, 0, 0))])
    ensures Orderly(iov) ==> Seen(iov, 0, 0) == Flatten(iov)
    ensures Orderly(iov) && !Oversized(Flatten(iov)) ==> (ok <==> Decode(Flatten(iov)).Some?)
    ensures forall i :: Announced(Seen(iov, 0, 0)) <= i < out.Length ==> out[i] == old(out[i])
  {
    if Orderly(iov) {
      OrderlyIsSeen(iov);
      StreamsAgree(Flatten(iov));
    }
    ok := InternalUncompress(iov, out, 0xffff_ffff);
  }

  /** A stream that decompresses is refused when an empty fragment is put in front of it. */
  method EmptyFragmentInFront(c: seq<byte>, out: array<byte>, out': array<byte>) returns (whole: bool, cut: bool)
    requires out != out' && Announced(c) <= out.Length && ReadStream(c).Some?
    modifies out, out'
    ensures whole && !cut && Flatten([[], c]) == Flatten([c]) == c
  {
    assert [c][1..] == [] && [[], c][1..] == [c] && c + [] == c && [] + c == c;
    whole := Uncompress([c], out);
    cut := Uncompress([[], c], out');
  }

  /** Behind a stream with a long last element an empty fragment hides whatever follows. */
  method EmptyFragmentBehind(c: seq<byte>, b: seq<byte>, out: array<byte>) returns (ok: bool)
    requires Gapped([c, [], b]) && ReadStream(c).Some? && Announced(c) <= out.Length
    modifies out
    ensures ok && ReadStream(c) == Some(out[..Announced(c)])
  {
    GappedIsSeen([c, [], b]);
    ok := Uncompress([c, [], b], out);
  }

  /** A way to cut byte strings into fragments the source accepts. */
  ghost predicate CutsIntoFragments(cut: seq<byte> -> seq<seq<byte>>) {
    forall c :: ValidIov(cut(c)) && Flatten(cut(c)) == c
  }

  lemma AnnouncesLength(c: seq<byte>, data: seq<byte>)
    requires Decode(c) == Some(data)
    ensures ReadStream(c) == Some(data) && Announced(c) == |data|
  {
    DecodeIsRead(c);
  }

  /** Fragments of a stream of the format give its output back. */
  method Restore(iov: seq<seq<byte>>, total: nat, ghost data: seq<byte>) returns (ok: bool, output: seq<byte>)
    requires ValidIov(iov) && Decode(Flatten(iov)) == Some(data) && |data| == total
    ensures ok && output == data
  {
    OrderlyIsSeen(iov);
    AnnouncesLength(Flatten(iov), data);
    var out := new byte[total];
    ok := Uncompress(iov, out);
    output := out[..];
  }

  /**
   The round trip: whatever the input, the fragments it comes in, the hash
   functions and the fragments the compressed stream is handed back in.
   */
  method RoundTrip(input: seq<seq<byte>>, hash: (u32, nat) -> nat, cut: seq<byte> -> seq<seq<byte>>)
      returns (ok: bool, output: seq<byte>)
    requires ValidIov(input) && |Flatten(input)| < 0x8000_0000 && C.ValidHash(hash) && CutsIntoFragments(cut)
    ensures ok && output == Flatten(input)
  {
    var total := |Flatten(input)|;
    OrderlyIsSeen(input);
    var reader := new Source(input);
    var compressed := new byte[C.MaxCompressedLength(total)];
    var table, scratch := new u16[C.MAX_HASH_TABLE_SIZE], new byte[F.BLOCK_SIZE];
    var written := C.Compress(reader, total, compressed, table, scratch, hash);
    ok, output := Restore(cut(compressed[..written]), total, Flatten(input));
  }
}
