/** The compressor: length preamble, then one block of elements after the other. */
module SnappyCompress {
  import opened Bytes
  import opened Copying
  import opened SnappyFormat
  import opened SnappyVarint
  import opened SnappyFragment
  import opened SnappySource

  const MIN_HASH_TABLE_SIZE := 0x100
  const MAX_HASH_TABLE_SIZE := 0x4000

  function MaxCompressedLength(n: nat): (m: nat) {
    32 + n + n / 6
  }

  /** The sizes a hash table can have: the powers of two from 256 to 16384. */
  predicate IsTableSize(size: nat) {
    exists k :: 8 <= k <= 14 && size == PowerOfTwo(k)
  }

  /** A family of hash functions, one for every table size. */
  ghost predicate ValidHash(hash: (u32, nat) -> nat) {
    forall w, size :: IsTableSize(size) ==> hash(w, size) < size
  }

  /** The multiplication of the source's hash, in 32 bits. */
  function Scramble(bytes: u32): (v: u32) {
    bytes * 0x1e35_a7bd % U32_RANGE
  }

  /** The source's hash: the product shifted right. */
  function HashBytes(bytes: u32, shift: nat): (h: int) {
    Scramble(bytes) / PowerOfTwo(shift)
  }

  /** Shifted by 32 less the logarithm of the table size, the source's hash stays inside the table. */
  lemma HashBytesInTable(bytes: u32, k: nat)
    requires k <= 32
    ensures 0 <= HashBytes(bytes, 32 - k) < PowerOfTwo(k)
  {
    PowersMultiply(32 - k, k);
    PowerThirtyTwo();
    QuotientBelow(Scramble(bytes), PowerOfTwo(32 - k), PowerOfTwo(k));
  }

  lemma PowerThirtyTwo()
    ensures PowerOfTwo(32) == U32_RANGE
  {
    PowersMultiply(8, 8);
    PowersMultiply(16, 16);
  }

  lemma QuotientBelow(v: nat, p: nat, q: nat)
    requires p >= 1 && v < p * q
    ensures 0 <= v / p < q
  {
    if v / p >= q {
      MulMonotone(p, q, v / p);
      assert false;
    }
  }

  lemma {:induction false} PowersMultiply(a: nat, b: nat)
    ensures PowerOfTwo(a) * PowerOfTwo(b) == PowerOfTwo(a + b)
    decreases a
  {
    if a > 0 {
      PowersMultiply(a - 1, b);
      assert 2 * PowerOfTwo(a - 1) * PowerOfTwo(b) == 2 * (PowerOfTwo(a - 1) * PowerOfTwo(b));
    }
  }

  /** The smallest table, up to the largest there is, with a slot for every input byte, cleared. */
  method GetHashTable(table: array<u16>, inputSize: nat) returns (size: nat)
    requires table.Length == MAX_HASH_TABLE_SIZE
    modifies table
    ensures IsTableSize(size) && size <= table.Length
    ensures size >= inputSize || size == MAX_HASH_TABLE_SIZE
    ensures size == MIN_HASH_TABLE_SIZE || size / 2 < inputSize
    ensures forall h :: 0 <= h < size ==> table[h] == 0
  {
    assert PowerOfTwo(8) == 0x100 && PowerOfTwo(14) == 0x4000;
    size := 256;
    ghost var k := 8;
    while size < MAX_HASH_TABLE_SIZE && size < inputSize
      invariant 8 <= k <= 14 && size == PowerOfTwo(k) <= 0x4000
      invariant size == MIN_HASH_TABLE_SIZE || size / 2 < inputSize
      decreases 0x4000 - size
    {
      assert k < 14;
      size, k := 2 * size, k + 1;
      PowerGrows(k, 14);
    }
    forall h | 0 <= h < size { table[h] := 0; }
  }

  lemma {:induction false} PowerGrows(a: nat, b: nat)
    requires a <= b
    ensures PowerOfTwo(a) <= PowerOfTwo(b)
    decreases b
  {
    if a < b {
      PowerGrows(a, b - 1);
    }
  }

  /** Collects the next `n` bytes of the source in the scratch buffer, fragment by fragment. */
  method Gather(reader: Source, scratch: array<byte>, n: nat)
    requires reader.Valid() && 0 < n <= scratch.Length && n <= |reader.rest|
    modifies reader, scratch
    ensures reader.Valid() && reader.rest == old(reader.rest)[n..]
    ensures scratch[..n] == old(reader.rest)[..n]
  {
    ghost var all := reader.rest;
    var bytesRead := 0;
    while bytesRead < n
      invariant reader.Valid() && bytesRead <= n && reader.rest == all[bytesRead..]
      invariant scratch[..bytesRead] == all[..bytesRead]
      decreases n - bytesRead
    {
      var fragment := reader.Peek();
      var m := if |fragment| < n - bytesRead then |fragment| else n - bytesRead;
      Store(scratch, bytesRead, fragment, 0, m);
      ghost var part := scratch[bytesRead..bytesRead + m];
      assert part == all[bytesRead..][..m];
      assert scratch[..bytesRead + m] == scratch[..bytesRead] + part;
      reader.Skip(m);
      bytesRead := bytesRead + m;
      assert all[..bytesRead] == all[..bytesRead - m] + part;
    }
  }

  /** `n` bytes of a block added to blocks of 32768 bytes cost at most one byte in six, and three more. */
  lemma BlockAllowance(n: nat)
    requires n <= BLOCK_SIZE
    ensures 6 * FragmentBound(n) <= 7 * n + 18
    ensures n == BLOCK_SIZE ==> 6 * FragmentBound(n) <= 7 * n
  {
  }

  /** The next `n` bytes: straight from the source when one fragment holds them, gathered otherwise. */
  method NextBlock(reader: Source, scratch: array<byte>, n: nat) returns (block: seq<byte>)
    requires reader.Valid() && 0 < n <= scratch.Length && n <= |reader.rest|
    modifies reader, scratch
    ensures reader.Valid() && reader.rest == old(reader.rest)[n..]
    ensures block == old(reader.rest)[..n]
  {
    var fragment := reader.Peek();
    if |fragment| >= n {
      block := fragment[..n];
      reader.Skip(n);
    } else {
      Gather(reader, scratch, n);
      block := scratch[..n];
    }
  }

  /** One block: its bytes from the source, a cleared table, its elements behind what is written. */
  method CompressBlock(reader: Source, ghost input: seq<byte>, ghost done: nat, out: array<byte>, ghost first: nat,
                       at: nat, table: array<u16>, scratch: array<byte>, hash: (u32, nat) -> nat, n: nat)
      returns (end: nat)
    requires 0 < n <= BLOCK_SIZE && done + n <= |input| && ValidHash(hash)
    requires reader.Valid() && reader.rest == input[done..]
    requires first <= at && at + FragmentBound(n) <= out.Length
    requires DecodeTags(out[first..at], []) == Some(input[..done])
    requires table.Length == MAX_HASH_TABLE_SIZE && scratch.Length == BLOCK_SIZE && out != scratch
    modifies reader, out, table, scratch
    ensures reader.Valid() && reader.rest == input[done + n..]
    ensures at <= end <= at + FragmentBound(n) && OnlyWithin(old(out[..]), out[..], at, n)
    ensures DecodeTags(out[first..end], []) == Some(input[..done + n])
  {
    ghost var head := out[first..at];
    var block := NextBlock(reader, scratch, n);
    var tableSize := GetHashTable(table, n);
    end := CompressFragment(block, input[..done], out, at, table, tableSize, w => hash(w, tableSize));
    ExtendStream(head, out[at..end], input, done, n);
    SameInFront(old(out[..]), out[..], first, at, end);
  }

  /** What `w` bytes written for `done` bytes may come to; only the last block can be a short one. */
  ghost predicate Fits(w: int, done: nat, remaining: nat) {
    0 <= 6 * w <= 7 * done + if remaining > 0 then 0 else 18
  }

  /** Room for a block of `n` more bytes behind `w` bytes written for `done` bytes in whole blocks. */
  lemma BlockFits(w: nat, first: nat, done: nat, n: nat, total: nat)
    requires 6 * w <= 7 * done && first <= 5 && n <= BLOCK_SIZE && done + n <= total
    ensures first + w + FragmentBound(n) <= MaxCompressedLength(total)
    ensures 6 * (w + FragmentBound(n)) <= 7 * (done + n) + if n == BLOCK_SIZE then 0 else 18
  {
    BlockAllowance(n);
  }

  lemma NextBlockFits(w: nat, first: nat, done: nat, n: nat, remaining: nat)
    requires Fits(w, done, remaining) && first <= 5 && 0 < remaining
    requires n == if remaining < BLOCK_SIZE then remaining else BLOCK_SIZE
    ensures first + w + FragmentBound(n) <= MaxCompressedLength(done + remaining)
  {
    BlockFits(w, first, done, n, done + remaining);
  }

  lemma FitsAfterBlock(w: nat, w': nat, done: nat, n: nat, remaining: nat)
    requires Fits(w, done, remaining) && 0 < remaining && w <= w' <= w + FragmentBound(n)
    requires n == if remaining < BLOCK_SIZE then remaining else BLOCK_SIZE
    ensures Fits(w', done + n, remaining - n)
  {
    BlockFits(w, 0, done, n, done + remaining);
  }

  /** Nothing before `first` or from `room` on has changed. */
  ghost predicate Inside(o: seq<byte>, o': seq<byte>, first: nat, room: nat) {
    |o| == |o'| && forall i :: 0 <= i < |o| && (i < first || room <= i) ==> o'[i] == o[i]
  }

  lemma InsideBoth(o: seq<byte>, o': seq<byte>, o'': seq<byte>, first: nat, room: nat, at: nat, n: nat)
    requires Inside(o, o', first, room) && OnlyWithin(o', o'', at, n) && first <= at && at + FragmentBound(n) <= room
    ensures Inside(o, o'', first, room)
  {
  }

  /**
   `snappy_compress`: for every input shorter than 2^31 bytes, however it is cut
   into fragments and whatever the hash functions, the output decodes to the
   input, and no store goes past the maximum compressed length.
   */
  method Compress(reader: Source, total: nat, out: array<byte>, table: array<u16>, scratch: array<byte>,
                  hash: (u32, nat) -> nat)
      returns (written: nat)
    requires reader.Valid() && total == |reader.rest| < 0x8000_0000 && ValidHash(hash)
    requires out.Length >= MaxCompressedLength(total)
    requires table.Length == MAX_HASH_TABLE_SIZE && scratch.Length == BLOCK_SIZE && out != scratch
    modifies reader, out, table, scratch
    ensures written <= MaxCompressedLength(total) && written <= 32 + total + total / 6
    ensures Decode(out[..written]) == Some(old(reader.rest))
    ensures forall i :: MaxCompressedLength(total) <= i < out.Length ==> out[i] == old(out[i])
  {
    ghost var input := reader.rest;
    var ulength := Encode32(total);
    Store(out, 0, ulength, 0, |ulength|);
    assert forall i :: 0 <= i < |ulength| ==> out[i] == out[0..0 + |ulength|][i] == ulength[i];
    written := CompressBlocks(reader, total, out, |ulength|, table, scratch, hash);
    assert forall i :: 0 <= i < |ulength| ==> out[i] == ulength[i];
    assert out[..written][..|ulength|] == ulength;
    assert out[..written][|ulength|..] == out[|ulength|..written];
    StreamDecodes(out[..written], total, input);
  }

  /** Of the input, `done` bytes are in the stream from `first` to `written`, and nothing else has changed. */
  ghost predicate SoFar(was: seq<byte>, now: seq<byte>, input: seq<byte>, done: nat, first: nat, written: nat) {
    && first <= written <= MaxCompressedLength(|input|) <= |now| && done <= |input|
    && Fits(written - first, done, |input| - done) && Inside(was, now, first, MaxCompressedLength(|input|))
    && DecodeTags(now[first..written], []) == Some(input[..done])
  }

  lemma NothingYet(was: seq<byte>, input: seq<byte>, first: nat)
    requires first <= MaxCompressedLength(|input|) <= |was|
    ensures SoFar(was, was, input, 0, first, first)
  {
    assert was[first..first] == [] && input[..0] == [];
  }

  /** The next block, a whole one or what is left. */
  method CompressNext(reader: Source, remaining: nat, ghost was: seq<byte>, ghost input: seq<byte>, ghost done: nat,
                      out: array<byte>, ghost first: nat, at: nat, table: array<u16>, scratch: array<byte>,
                      hash: (u32, nat) -> nat)
      returns (n: nat, end: nat)
    requires 0 < remaining && done + remaining == |input| && first <= 5 && ValidHash(hash)
    requires reader.Valid() && reader.rest == input[done..] && SoFar(was, out[..], input, done, first, at)
    requires table.Length == MAX_HASH_TABLE_SIZE && scratch.Length == BLOCK_SIZE && out != scratch
    modifies reader, out, table, scratch
    ensures 0 < n <= remaining && reader.Valid() && reader.rest == input[done + n..]
    ensures SoFar(was, out[..], input, done + n, first, end)
  {
    n := if remaining < BLOCK_SIZE then remaining else BLOCK_SIZE;
    NextBlockFits(at - first, first, done, n, remaining);
    assert out[..][first..at] == out[first..at];
    end := CompressBlock(reader, input, done, out, first, at, table, scratch, hash, n);
    InsideBoth(was, old(out[..]), out[..], first, MaxCompressedLength(|input|), at, n);
    FitsAfterBlock(at - first, end - first, done, n, remaining);
    assert out[..][first..end] == out[first..end];
  }

  /** The loop over the blocks; `first` is where the preamble ends. */
  method CompressBlocks(reader: Source, total: nat, out: array<byte>, first: nat, table: array<u16>,
                        scratch: array<byte>, hash: (u32, nat) -> nat)
      returns (written: nat)
    requires reader.Valid() && total == |reader.rest| && ValidHash(hash)
    requires first <= 5 && out.Length >= MaxCompressedLength(total)
    requires table.Length == MAX_HASH_TABLE_SIZE && scratch.Length == BLOCK_SIZE && out != scratch
    modifies reader, out, table, scratch
    ensures first <= written <= MaxCompressedLength(total)
    ensures DecodeTags(out[first..written], []) == Some(old(reader.rest))
    ensures Inside(old(out[..]), out[..], first, MaxCompressedLength(total))
  {
    ghost var input, done: nat := reader.rest, 0;
    var remaining := total;
    written := first;
    NothingYet(out[..], input, first);
    while remaining > 0
      invariant 0 <= remaining && done + remaining == total && reader.Valid() && reader.rest == input[done..]
      invariant SoFar(old(out[..]), out[..], input, done, first, written)
    {
      var n;
      n, written := CompressNext(reader, remaining, old(out[..]), input, done, out, first, written, table, scratch,
                                 hash);
      remaining, done := remaining - n, done + n;
    }
    assert input[..done] == input && out[..][first..written] == out[first..written];
  }

  /** The preamble in front of elements that decode to the input. */
  lemma StreamDecodes(stream: seq<byte>, total: u32, input: seq<byte>)
    requires |input| == total && Encode32(total) <= stream
    requires DecodeTags(stream[|Encode32(total)|..], []) == Some(input)
    ensures Decode(stream) == Some(input)
  {
    var e := Encode32(total);
    assert stream == e + stream[|e|..];
    VarintRoundTrip(total, stream[|e|..]);
  }

  /** The elements of one more block behind the stream so far. */
  lemma ExtendStream(head: seq<byte>, more: seq<byte>, input: seq<byte>, done: nat, n: nat)
    requires done + n <= |input|
    requires DecodeTags(head, []) == Some(input[..done])
    requires DecodeTags(more, input[..done]) == Some(input[..done] + input[done..][..n])
    ensures DecodeTags(head + more, []) == Some(input[..done + n])
  {
    assert input[..done] + input[done..][..n] == input[..done + n];
    DecodeThen(head, more, [], input[..done], input[..done + n]);
  }
}
