/** The decompressor: it reads fragments, stitches tags that cross their ends, and drives the writer. */
module SnappyDecompress {
  import opened Bytes
  import opened Sequences
  import opened Copying
  import opened SnappyFormat
  import opened SnappyAccepted
  import opened SnappyTable
  import opened SnappySource
  import opened SnappyWriter

  const SCRATCH_SIZE := 5

  /** What the table says about a tag: bytes behind it, copy length, and the high bits of the offset. */
  method TagFields(tag: byte) returns (extra: nat, length: nat, offsetBits: nat)
    ensures extra == ExtraBytes(tag)
    ensures tag % 4 != 0 ==> length == CopyLength(tag) && 1 <= length <= 64
    ensures tag % 4 != 0 ==> offsetBits == if tag % 4 == 1 then 256 * (tag / 32) else 0
  {
    CharTableIsEntry(tag);
    EntryFields(tag);
    var entry := CharTable(tag);
    extra, length, offsetBits := entry / 2048, entry % 256, 256 * (entry / 256 % 8);
  }

  /** The `k` bytes at `ip`, loaded as part of a four-byte word and masked out of it. */
  method MaskedLoad(buf: seq<byte>, ip: nat, k: nat) returns (v: u32)
    requires ip + 4 <= |buf| && k <= 4
    ensures v == LoadLE(buf, ip, k) && v < Pow256(k)
  {
    LoadMasked(buf, ip, k, 4);
    LoadInjective(buf, ip, buf, ip, k);
    PowersOf256(k);
    v := LoadLE(buf, ip, 4) % Pow256(k);
  }

  lemma PowersOf256(k: nat)
    requires k <= 4
    ensures Pow256(k) <= 0x1_0000_0000 && (k <= 2 ==> Pow256(k) <= 0x1_0000) && (k <= 1 ==> Pow256(k) <= 0x100)
  {
    assert Pow256(1) == 0x100 && Pow256(2) == 0x1_0000 && Pow256(3) == 0x100_0000 && Pow256(4) == 0x1_0000_0000;
  }

  lemma OffsetFits(tag: byte, trailer: nat)
    requires tag % 4 != 0 && trailer < Pow256(ExtraBytes(tag))
    ensures CopyOffset(tag, trailer) < U32_RANGE
  {
    PowersOf256(ExtraBytes(tag));
  }

  /** Tag and trailer of a copy element; the four-byte load may reach behind them but not out of `buf`. */
  method ParseCopyTag(buf: seq<byte>, at: nat) returns (offset: u32, length: nat, extra: nat)
    requires at + SCRATCH_SIZE <= |buf| && buf[at] % 4 != 0
    ensures extra == ExtraBytes(buf[at]) && IsCopy(buf[at..at + 1 + extra], offset, length)
  {
    var offsetBits;
    extra, length, offsetBits := TagFields(buf[at]);
    var trailer := MaskedLoad(buf, at + 1, extra);
    OffsetFits(buf[at], trailer);
    offset := offsetBits + trailer;
    HeadIsCopy(buf, at, extra, offset, length);
  }

  /** Tag of a literal element and the length bytes it may have. */
  method ParseLiteralTag(buf: seq<byte>, at: nat) returns (length: nat, extra: nat)
    requires at + SCRATCH_SIZE <= |buf| && buf[at] % 4 == 0
    ensures extra == ExtraBytes(buf[at]) && IsLiteralHead(buf[at..at + 1 + extra], length)
  {
    length, extra := buf[at] / 4 + 1, 0;
    if length >= 61 {
      extra := length - 60;
      var trailer := MaskedLoad(buf, at + 1, extra);
      length := (trailer + 1) % U32_RANGE;
    }
    HeadIsLiteral(buf, at, extra, length);
  }

  /** The stream `c` behind the output `out` decodes to exactly `limit` bytes in all. */
  ghost predicate Accepts(c: seq<byte>, out: seq<byte>, limit: nat) {
    ReadTags(c, out).Some? && |ReadTags(c, out).value| == limit
  }

  /** Output that has outgrown the limit never comes back to it. */
  lemma TooLong(c: seq<byte>, out: seq<byte>, limit: nat)
    requires |out| > limit
    ensures !Accepts(c, out, limit)
  {
    ReadExtends(c, out);
  }

  lemma PrefixAndRest(p: seq<byte>, s: seq<byte>)
    requires p <= s
    ensures p[0..|p|] + s[|p|..] == s
  {
  }

  /** `ip` and `ipLimit` are positions in `buf`, which is a fragment of the source or the scratch buffer. */
  class Decompressor {
    const reader: Source
    const scratch: array<byte>
    var buf: seq<byte>
    var ip: nat
    var ipLimit: nat
    var peeked: nat
    var eof: bool
    ghost var pending: seq<byte>  // the input not decoded yet

    constructor (source: Source)
      requires source.Valid()
      ensures reader == source && fresh(scratch) && Valid()
      ensures pending == source.rest && !eof && ip == ipLimit && peeked == 0
    {
      reader, buf, ip, ipLimit, peeked, eof := source, [], 0, 0, 0, false;
      pending := source.rest;
      scratch := new byte[SCRATCH_SIZE];
      new;
      assert reader.rest[0..] == reader.rest;
    }

    ghost predicate InBounds()
      reads this, reader
    {
      && reader.Valid() && scratch.Length == SCRATCH_SIZE
      && ip <= ipLimit <= |buf| && peeked <= |reader.Peek()|
    }

    /** Pending are the buffered bytes, then what the source holds behind the peeked ones. */
    ghost predicate Valid()
      reads this, reader
    {
      InBounds() && pending == buf[ip..ipLimit] + reader.rest[peeked..]
    }

    /** The fragments are orderly, or all that is seen is buffered, or will be with the next fragment. */
    ghost predicate Steady()
      reads this, reader
    {
      || Orderly(reader.iov)
      || (reader.Lone() && if peeked == 0 then ip == ipLimit && reader.Peek() != [] else peeked == |reader.rest|)
    }

    /** Nothing is left, or too much to go through the scratch buffer, unless the fragments are orderly. */
    ghost predicate Roomy()
      reads this, reader
    {
      Orderly(reader.iov) || pending == [] || |pending| >= SCRATCH_SIZE
    }

    /** A whole tag with its extra bytes is buffered, and a four-byte load behind the tag stays in memory. */
    ghost predicate TagReady()
      requires Valid()
      reads this, reader
    {
      ip < ipLimit && ip + SCRATCH_SIZE <= |buf| && 1 + ExtraBytes(buf[ip]) <= ipLimit - ip
    }

    /** Makes the next fragment of the source the buffer. */
    method Fetch() returns (n: nat)
      requires Valid() && ip == ipLimit && Steady()
      modifies this, reader
      ensures Valid() && pending == old(pending) && eof == old(eof)
      ensures n == ipLimit - ip && (n == 0 ==> pending == []) && (n > 0 ==> Steady())
    {
      ghost var all := reader.rest[peeked..];
      assert pending == all by { assert buf[ip..ipLimit] == []; }
      reader.Skip(peeked);
      var fragment := reader.Peek();
      PrefixAndRest(fragment, all);
      n := |fragment|;
      buf, ip, ipLimit, peeked := fragment, 0, n, n;
    }

    /** Copies the buffered bytes to the front of the scratch buffer and gives up the fragment. */
    method SaveToScratch() returns (nbuf: nat)
      requires Valid() && ipLimit - ip < SCRATCH_SIZE && Orderly(reader.iov)
      modifies this`peeked, reader, scratch
      ensures InBounds() && peeked == 0 && nbuf == ipLimit - ip
      ensures pending == scratch[..nbuf] + reader.rest
    {
      nbuf := ipLimit - ip;
      Store(scratch, 0, buf, ip, nbuf);
      assert scratch[..nbuf] == scratch[0..0 + nbuf];
      reader.Skip(peeked);
      peeked := 0;
    }

    /** Points the buffer at the first `n` bytes of the scratch buffer. */
    method UseScratch(n: nat)
      requires InBounds() && peeked == 0 && n <= SCRATCH_SIZE && pending == scratch[..n] + reader.rest
      modifies this`buf, this`ip, this`ipLimit
      ensures Valid() && |buf| == SCRATCH_SIZE && ip == 0 && ipLimit == n && (n > 0 ==> buf[0] == pending[0])
    {
      buf, ip, ipLimit := scratch[..], 0, n;
      assert reader.rest[0..] == reader.rest;
      assert scratch[..][0..n] == scratch[..n];
    }

    /** Adds bytes of the source to the scratch buffer until a tag of `needed` bytes is complete. */
    method FillScratch(have: nat, needed: nat) returns (ok: bool)
      requires InBounds() && peeked == 0 && have <= needed <= SCRATCH_SIZE
      requires pending == scratch[..have] + reader.rest
      modifies reader, scratch
      ensures InBounds()
      ensures ok ==> pending == scratch[..needed] + reader.rest
      ensures !ok ==> |pending| < needed
    {
      var nbuf := have;
      while nbuf < needed
        invariant nbuf <= needed && InBounds()
        invariant pending == scratch[..nbuf] + reader.rest
        decreases needed - nbuf
      {
        if |reader.Peek()| == 0 {
          return false;
        }
        nbuf := AddToScratch(nbuf, needed);
      }
      return true;
    }

    method AddToScratch(have: nat, needed: nat) returns (nbuf: nat)
      requires InBounds() && peeked == 0 && have < needed <= SCRATCH_SIZE && reader.Peek() != []
      requires pending == scratch[..have] + reader.rest
      modifies reader, scratch
      ensures InBounds() && have < nbuf <= needed
      ensures pending == scratch[..nbuf] + reader.rest
    {
      ghost var rest := reader.rest;
      var src := reader.Peek();
      var toAdd := if needed - have < |src| then needed - have else |src|;
      Store(scratch, have, src, 0, toAdd);
      reader.Skip(toAdd);
      nbuf := have + toAdd;
      Stitched(old(scratch[..]), scratch[..], have, nbuf, src, rest);
    }

    /** `refill_tag`: the next tag complete and readable, or the end of the input, or a tag cut short. */
    method RefillTag() returns (ok: bool)
      requires Valid() && !eof && Steady() && Roomy()
      modifies this, reader, scratch
      ensures InBounds() && pending == old(pending)
      ensures ok ==> Valid() && !eof && TagReady() && Steady()
      ensures !ok && eof ==> pending == []
      ensures !ok && !eof ==> pending != [] && |pending| < 1 + ExtraBytes(pending[0])
    {
      if ip == ipLimit {
        var n := Fetch();
        if n == 0 {
          eof := true;
          return false;
        }
      }
      ok := CompleteTag();
    }

    /** Sees to it that the tag at `ip` is buffered whole, moving it into the scratch buffer when too little is. */
    method CompleteTag() returns (ok: bool)
      requires Valid() && !eof && ip < ipLimit && Steady() && (Orderly(reader.iov) || ipLimit - ip >= SCRATCH_SIZE)
      modifies this, reader, scratch
      ensures InBounds() && pending == old(pending) && !eof
      ensures ok ==> Valid() && TagReady() && Steady()
      ensures !ok ==> pending != [] && |pending| < 1 + ExtraBytes(pending[0])
    {
      assert pending[0] == buf[ip];
      var extra, _, _ := TagFields(buf[ip]);
      var needed := extra + 1;
      ok := true;
      if ipLimit - ip < needed {
        var nbuf := SaveToScratch();
        ok := FillScratch(nbuf, needed);
        if ok {
          UseScratch(needed);
        }
      } else if ipLimit - ip < SCRATCH_SIZE {
        var nbuf := SaveToScratch();
        UseScratch(nbuf);
      }
    }

    /** Refills when fewer than five bytes are buffered. */
    method MaybeRefill() returns (ok: bool)
      requires Valid() && !eof && Steady() && Roomy()
      modifies this, reader, scratch
      ensures InBounds() && pending == old(pending)
      ensures ok ==> Valid() && !eof && TagReady() && Steady()
      ensures !ok && eof ==> pending == []
      ensures !ok && !eof ==> pending != [] && |pending| < 1 + ExtraBytes(pending[0])
    {
      if ipLimit - ip < SCRATCH_SIZE {
        ok := RefillTag();
      } else {
        ok := true;
      }
    }

    /** Moves `n` buffered bytes to the writer; `x` are these bytes. */
    method AppendBuffered(w: Writer, n: nat) returns (ok: bool, ghost x: seq<byte>)
      requires Valid() && w.Valid() && n <= ipLimit - ip && Steady()
      modifies this`ip, this`pending, w`op, w`written, w.buf
      ensures Valid() && Steady() && w.Valid() && w.buf[w.opLimit..] == old(w.buf[w.opLimit..])
      ensures ok <==> |old(w.written)| + n <= w.opLimit
      ensures ok ==> ip == old(ip) + n && |x| == n && old(pending) == x + pending && w.written == old(w.written) + x
    {
      ok := w.Append(buf, ip, n);
      x := [];
      if ok {
        x := Take(n);
      }
    }

    /** Moves all buffered bytes to the writer and makes the next fragment the buffer. */
    method AppendAndFetch(w: Writer) returns (ok: bool, ghost x: seq<byte>)
      requires Valid() && w.Valid() && Steady()
      modifies this, reader, w`op, w`written, w.buf
      ensures Valid() && eof == old(eof) && w.Valid() && w.buf[w.opLimit..] == old(w.buf[w.opLimit..])
      ensures ok <==> |old(w.written)| + old(ipLimit - ip) <= w.opLimit
      ensures ok ==> |x| == old(ipLimit - ip) && old(pending) == x + pending && w.written == old(w.written) + x
      ensures ok && ip == ipLimit ==> pending == []
      ensures ok && ip < ipLimit ==> Steady()
    {
      ok, x := AppendBuffered(w, ipLimit - ip);
      if ok {
        var _ := Fetch();
      }
    }

    /** The next `length` bytes of the input, from as many fragments as it takes, to the writer; `x` are these bytes. */
    method AppendLiteral(w: Writer, length: nat) returns (ok: bool, ghost x: seq<byte>)
      requires Valid() && !eof && w.Valid() && Steady()
      modifies this, reader, w`op, w`written, w.buf
      ensures Valid() && !eof && w.Valid() && w.buf[w.opLimit..] == old(w.buf[w.opLimit..]) && (ok ==> Steady())
      ensures ok <==> length <= |old(pending)| && |old(w.written)| + length <= w.opLimit
      ensures ok ==> |x| == length && old(pending) == x + pending && w.written == old(w.written) + x
    {
      var left: nat := length;
      x := [];
      while ipLimit - ip < left
        invariant Valid() && !eof && w.Valid() && w.buf[w.opLimit..] == old(w.buf[w.opLimit..])
        invariant |x| + left == length && Steady()
        invariant old(pending) == x + pending && w.written == old(w.written) + x
        decreases |pending| - (ipLimit - ip)
      {
        var avail := ipLimit - ip;
        ghost var y;
        ok, y := AppendAndFetch(w);
        if !ok {
          return;
        }
        Associates(x, y, pending);
        Associates(old(w.written), x, y);
        left, x := left - avail, x + y;
        if ip == ipLimit {
          return false, x;
        }
      }
      ghost var y;
      ok, y := AppendBuffered(w, left);
      Associates(x, y, pending);
      Associates(old(w.written), x, y);
      x := x + y;
    }

    /** Consumes `n` buffered bytes. */
    method Take(n: nat) returns (ghost head: seq<byte>)
      requires Valid() && n <= ipLimit - ip && Steady()
      modifies this`ip, this`pending
      ensures Valid() && ip == old(ip) + n && Steady()
      ensures head == old(buf[ip..ip + n]) && old(pending) == head + pending
    {
      ghost var rest := reader.rest[peeked..];
      SplitWindow(buf, ip, ipLimit, n, rest);
      head := buf[ip..ip + n];
      ip, pending := ip + n, buf[ip + n..ipLimit] + rest;
    }

    /** Reads the tag and the trailer of a copy element; `head` are their bytes. */
    method ReadCopy() returns (offset: u32, length: nat, ghost head: seq<byte>)
      requires Valid() && TagReady() && buf[ip] % 4 != 0 && Steady()
      modifies this`ip, this`pending
      ensures Valid() && Steady() && old(pending) == head + pending && IsCopy(head, offset, length)
    {
      var extra;
      offset, length, extra := ParseCopyTag(buf, ip);
      head := Take(1 + extra);
    }

    /** A copy element. */
    method DecodeCopy(w: Writer) returns (ok: bool)
      requires Valid() && TagReady() && buf[ip] % 4 != 0 && w.Valid() && Steady()
      modifies this`ip, this`pending, w`op, w`written, w.buf
      ensures Valid() && Steady() && w.Valid() && w.buf[w.opLimit..] == old(w.buf[w.opLimit..])
      ensures ok && LongTail(old(pending), old(w.written)) ==> LongTail(pending, w.written)
      ensures ok ==> ReadTags(pending, w.written) == ReadTags(old(pending), old(w.written))
      ensures ok ==> |pending| < |old(pending)|
      ensures !ok ==> !Accepts(old(pending), old(w.written), w.opLimit)
    {
      var offset, length;
      ghost var head;
      offset, length, head := ReadCopy();
      CopyStep(head, pending, w.written, offset, length, w.opLimit);
      ok := w.AppendFromSelf(offset, length);
    }

    /** Reads the tag of a literal element and the length bytes behind it; `head` are their bytes. */
    method ReadLiteral() returns (length: nat, ghost head: seq<byte>)
      requires Valid() && TagReady() && buf[ip] % 4 == 0 && Steady()
      modifies this`ip, this`pending
      ensures Valid() && Steady() && old(pending) == head + pending && IsLiteralHead(head, length)
    {
      var extra;
      length, extra := ParseLiteralTag(buf, ip);
      head := Take(1 + extra);
    }

    /** A short literal by sixteen bytes at once, when both sides have them. */
    method TryFastLiteral(w: Writer) returns (ok: bool, ghost head: seq<byte>, ghost x: seq<byte>)
      requires Valid() && TagReady() && buf[ip] % 4 == 0 && w.Valid() && Steady()
      modifies this`ip, this`pending, w`op, w`written, w.buf
      ensures Valid() && Steady() && w.Valid() && w.buf[w.opLimit..] == old(w.buf[w.opLimit..])
      ensures ok ==> IsLiteralHead(head, |x|) && old(pending) == head + (x + pending) && w.written == old(w.written) + x
      ensures !ok ==> ip == old(ip) && pending == old(pending) && w.written == old(w.written)
    {
      var short := buf[ip] / 4 + 1;
      ok := w.TryFastAppend(buf, ip + 1, ipLimit - (ip + 1), short);
      head, x := [], [];
      if ok {
        HeadIsLiteral(buf, ip, 0, short);
        head := Take(1);
        x := Take(short);
      }
    }

    /** A literal element: sixteen bytes at once where they fit, otherwise piece by piece. */
    method DecodeLiteralElement(w: Writer) returns (ok: bool)
      requires Valid() && !eof && TagReady() && buf[ip] % 4 == 0 && w.Valid() && Steady()
      modifies this, reader, w`op, w`written, w.buf
      ensures Valid() && !eof && w.Valid() && w.buf[w.opLimit..] == old(w.buf[w.opLimit..]) && (ok ==> Steady())
      ensures ok && LongTail(old(pending), old(w.written)) ==> LongTail(pending, w.written)
      ensures ok ==> ReadTags(pending, w.written) == ReadTags(old(pending), old(w.written))
      ensures ok ==> |pending| < |old(pending)|
      ensures !ok ==> !Accepts(old(pending), old(w.written), w.opLimit)
    {
      ghost var out, head, x := w.written, [], [];
      ok, head, x := TryFastLiteral(w);
      if ok {
        LiteralStep(head, x, pending, out);
      } else {
        ok := DecodeSlowLiteral(w);
      }
    }

    method DecodeSlowLiteral(w: Writer) returns (ok: bool)
      requires Valid() && !eof && TagReady() && buf[ip] % 4 == 0 && w.Valid() && Steady()
      modifies this, reader, w`op, w`written, w.buf
      ensures Valid() && !eof && w.Valid() && w.buf[w.opLimit..] == old(w.buf[w.opLimit..]) && (ok ==> Steady())
      ensures ok && LongTail(old(pending), old(w.written)) ==> LongTail(pending, w.written)
      ensures ok ==> ReadTags(pending, w.written) == ReadTags(old(pending), old(w.written))
      ensures ok ==> |pending| < |old(pending)|
      ensures !ok ==> !Accepts(old(pending), old(w.written), w.opLimit)
    {
      ghost var out, head, x := w.written, [], [];
      var length: nat;
      length, head := ReadLiteral();
      ghost var body := pending;
      ok, x := AppendLiteral(w, length);
      if ok {
        LiteralStep(head, x, pending, out);
      } else {
        LiteralFails(head, body, out, length, w.opLimit);
      }
    }

    method DecodeElement(w: Writer) returns (ok: bool)
      requires Valid() && !eof && TagReady() && w.Valid() && Steady()
      modifies this, reader, w`op, w`written, w.buf
      ensures Valid() && !eof && w.Valid() && w.buf[w.opLimit..] == old(w.buf[w.opLimit..]) && (ok ==> Steady())
      ensures ok && LongTail(old(pending), old(w.written)) ==> LongTail(pending, w.written)
      ensures ok ==> ReadTags(pending, w.written) == ReadTags(old(pending), old(w.written))
      ensures ok ==> |pending| < |old(pending)|
      ensures !ok ==> !Accepts(old(pending), old(w.written), w.opLimit)
    {
      if buf[ip] % 4 == 0 {
        ok := DecodeLiteralElement(w);
      } else {
        ok := DecodeCopy(w);
      }
    }

    /** `decompress_all_tags`: at the end of the input exactly when the stream decodes, with its output written. */
    method DecompressAllTags(w: Writer)
      requires Valid() && !eof && w.Valid() && w.buf != scratch && Steady()
      requires Orderly(reader.iov) || LongTail(pending, w.written)
      modifies this, reader, scratch, w`op, w`written, w.buf
      ensures InBounds() && w.Valid() && w.buf[w.opLimit..] == old(w.buf[w.opLimit..])
      ensures eof && w.op == w.opLimit <==> Accepts(old(pending), old(w.written), w.opLimit)
      ensures eof && w.op == w.opLimit ==> ReadTags(old(pending), old(w.written)) == Some(w.written)
    {
      ghost var goal := ReadTags(pending, w.written);
      var ok := MaybeRefill();
      if !ok {
        return;
      }
      while true
        invariant Valid() && !eof && w.Valid() && w.buf[w.opLimit..] == old(w.buf[w.opLimit..])
        invariant ReadTags(pending, w.written) == goal && Steady()
        invariant Orderly(reader.iov) || LongTail(pending, w.written)
        decreases |pending|
      {
        ok := MaybeRefill();
        if !ok {
          return;
        }
        ok := DecodeElement(w);
        if !ok {
          return;
        }
        ok := MaybeRefill();
        if !ok {
          return;
        }
      }
    }
  }

  /** The bytes `head` announce a literal of `length` bytes. */
  ghost predicate IsLiteralHead(head: seq<byte>, length: nat) {
    && head != [] && head[0] % 4 == 0 && |head| == 1 + ExtraBytes(head[0])
    && length == ReadLength(head[0], LoadLE(head, 1, |head| - 1))
  }

  lemma HeadIsLiteral(buf: seq<byte>, at: nat, extra: nat, length: nat)
    requires at + 1 + extra <= |buf| && buf[at] % 4 == 0 && extra == ExtraBytes(buf[at])
    requires length == ReadLength(buf[at], LoadLE(buf, at + 1, extra))
    ensures IsLiteralHead(buf[at..at + 1 + extra], length)
  {
    var head := buf[at..at + 1 + extra];
    assert head[1..1 + extra] == buf[at + 1..at + 1 + extra];
    LoadLocal(head, 1, buf, at + 1, extra);
  }

  lemma UnfoldLiteral(head: seq<byte>, rest: seq<byte>, out: seq<byte>, length: nat)
    requires IsLiteralHead(head, length)
    ensures ReadTags(head + rest, out) == ReadLiteral(length, rest, out)
    ensures LongTail(head + rest, out) && length <= |rest| ==> LongTail(rest[length..], out + rest[..length])
  {
    var k, c := |head| - 1, head + rest;
    assert c[1..1 + k] == head[1..1 + k];
    LoadLocal(c, 1, head, 1, k);
    assert c[1 + k..] == rest;
  }

  /** What one literal element at the head of the stream does. */
  lemma LiteralStep(head: seq<byte>, x: seq<byte>, rest: seq<byte>, out: seq<byte>)
    requires IsLiteralHead(head, |x|)
    ensures ReadTags(head + (x + rest), out) == ReadTags(rest, out + x)
    ensures LongTail(head + (x + rest), out) ==> LongTail(rest, out + x)
  {
    UnfoldLiteral(head, x + rest, out, |x|);
    assert (x + rest)[|x|..] == rest && (x + rest)[..|x|] == x;
  }

  lemma LiteralFails(head: seq<byte>, rest: seq<byte>, out: seq<byte>, length: nat, limit: nat)
    requires IsLiteralHead(head, length) && (|rest| < length || |out| + length > limit)
    ensures !Accepts(head + rest, out, limit)
  {
    UnfoldLiteral(head, rest, out, length);
    if length <= |rest| {
      TooLong(rest[length..], out + rest[..length], limit);
    }
  }

  /** The bytes `head` are one copy element with this offset and length. */
  ghost predicate IsCopy(head: seq<byte>, offset: nat, length: nat) {
    && head != [] && head[0] % 4 != 0 && |head| == 1 + ExtraBytes(head[0])
    && offset == CopyOffset(head[0], LoadLE(head, 1, |head| - 1)) && length == CopyLength(head[0]) && 1 <= length <= 64
  }

  lemma HeadIsCopy(buf: seq<byte>, at: nat, extra: nat, offset: nat, length: nat)
    requires at + 1 + extra <= |buf| && buf[at] % 4 != 0 && extra == ExtraBytes(buf[at])
    requires offset == CopyOffset(buf[at], LoadLE(buf, at + 1, extra))
    requires length == CopyLength(buf[at]) && 1 <= length <= 64
    ensures IsCopy(buf[at..at + 1 + extra], offset, length)
  {
    var head := buf[at..at + 1 + extra];
    assert head[1..1 + extra] == buf[at + 1..at + 1 + extra];
    LoadLocal(head, 1, buf, at + 1, extra);
  }

  /** What one copy element at the head of the stream does, and when it cannot be accepted. */
  lemma CopyStep(head: seq<byte>, rest: seq<byte>, out: seq<byte>, offset: nat, length: nat, limit: nat)
    requires IsCopy(head, offset, length)
    ensures 1 <= offset <= |out| ==> ReadTags(head + rest, out) == ReadTags(rest, CopyFrom(out, offset, length))
    ensures 1 <= offset <= |out| && LongTail(head + rest, out) ==> LongTail(rest, CopyFrom(out, offset, length))
    ensures !(1 <= offset <= |out|) || |out| + length > limit ==> !Accepts(head + rest, out, limit)
  {
    var k, c := |head| - 1, head + rest;
    assert c[1..1 + k] == head[1..1 + k];
    LoadLocal(c, 1, head, 1, k);
    assert c[1 + k..] == rest;
    if 1 <= offset <= |out| && |out| + length > limit {
      TooLong(rest, CopyFrom(out, offset, length), limit);
    }
  }

  /** Bytes from the front of the source, stored behind those in the scratch buffer. */
  lemma Stitched(was: seq<byte>, now: seq<byte>, have: nat, nbuf: nat, src: seq<byte>, rest: seq<byte>)
    requires have <= nbuf <= |now| == |was| && nbuf - have <= |src| && src <= rest && now[..have] == was[..have]
    requires now[have..nbuf] == src[0..nbuf - have]
    ensures was[..have] + rest == now[..nbuf] + rest[nbuf - have..]
  {
    assert rest == src[0..nbuf - have] + rest[nbuf - have..];
    assert now[..nbuf] == now[..have] + now[have..nbuf];
  }

  lemma SplitWindow(buf: seq<byte>, ip: nat, limit: nat, n: nat, rest: seq<byte>)
    requires ip + n <= limit <= |buf|
    ensures buf[ip..limit] + rest == buf[ip..ip + n] + (buf[ip + n..limit] + rest)
  {
  }
}
