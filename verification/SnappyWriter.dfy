/** The output side of the decompressor: a buffer, a write position and the announced end. */
module SnappyWriter {
  import opened Bytes
  import opened Copying
  import opened SnappyFormat
  import opened SnappyCopy

  /** A pointer difference below 2^32 as the `int` it is stored in. */
  function AsInt(space: nat): (i: int)
    requires space < U32_RANGE
  {
    if space < 0x8000_0000 then space else space - U32_RANGE
  }

  class Writer {
    const buf: array<byte>
    var op: nat
    var opLimit: nat
    ghost var written: seq<byte>  // the output produced so far

    constructor (uncompressed: array<byte>)
      ensures buf == uncompressed && written == [] && op == 0 && opLimit == 0 && Valid()
    {
      buf, op, opLimit, written := uncompressed, 0, 0, [];
    }

    ghost predicate Valid()
      reads this, buf
    {
      op <= opLimit <= buf.Length && opLimit < U32_RANGE && written == buf[..op]
    }

    /** The announced length; the caller provides a buffer of at least that size. */
    method SetExpectedLength(len: u32)
      requires Valid() && op + len <= buf.Length && op + len < U32_RANGE
      modifies this`opLimit
      ensures Valid() && opLimit == op + len
    {
      opLimit := op + len;
    }

    /** Copies from earlier output by whichever of the three paths has the room. */
    method AppendFromSelf(offset: u32, len: u32) returns (ok: bool)
      requires Valid() && 1 <= len <= 64
      modifies this`op, this`written, buf
      ensures Valid() && buf[opLimit..] == old(buf[opLimit..])
      ensures ok <==> 1 <= offset <= old(op) && old(op) + len <= opLimit
      ensures written == if ok then CopyFrom(old(written), offset, len) else old(written)
    {
      var space := opLimit - op;
      if op <= (if offset == 0 then U32_RANGE - 1 else offset - 1) {
        return false;
      }
      if len <= 16 && offset >= 8 && AsInt(space) >= 16 {
        Copy16(buf, offset, op, len);
        KeepTail(old(buf[..]), buf[..], op + 16, opLimit);
      } else if space >= len + MAX_INCREMENT_COPY_OVERFLOW {
        IncrementalCopyFastPath(buf, offset, op, len);
        KeepTail(old(buf[..]), buf[..], op + len + MAX_INCREMENT_COPY_OVERFLOW, opLimit);
      } else {
        if space < len {
          return false;
        }
        IncrementalCopy(buf, offset, op, len);
        KeepTail(old(buf[..]), buf[..], op + len, opLimit);
      }
      op := op + len;
      written := buf[..op];
      return true;
    }

    /** Copies `len` input bytes, all of them or none. */
    method Append(src: seq<byte>, ip: nat, len: nat) returns (ok: bool)
      requires Valid() && ip + len <= |src|
      modifies this`op, this`written, buf
      ensures Valid() && buf[opLimit..] == old(buf[opLimit..])
      ensures ok <==> old(op) + len <= opLimit
      ensures written == old(written) + if ok then src[ip..ip + len] else []
    {
      if opLimit - op < len {
        return false;
      }
      Store(buf, op, src, ip, len);
      KeepTail(old(buf[..]), buf[..], op + len, opLimit);
      assert buf[..op + len] == buf[..op] + buf[op..op + len];
      op := op + len;
      written := buf[..op];
      return true;
    }

    /** Sixteen bytes at once when both sides have them; only `len` of them count. */
    method TryFastAppend(src: seq<byte>, ip: nat, available: nat, len: nat) returns (ok: bool)
      requires Valid() && ip + available <= |src|
      modifies this`op, this`written, buf
      ensures Valid() && buf[opLimit..] == old(buf[opLimit..])
      ensures ok ==> len <= 16 && len <= available && old(op) + len <= opLimit
      ensures ok <==> len <= 16 && available >= 16 && AsInt(opLimit - old(op)) >= 16
      ensures written == old(written) + if ok then src[ip..ip + len] else []
    {
      if len <= 16 && available >= 16 && AsInt(opLimit - op) >= 16 {
        Store(buf, op, src, ip, 16);
        KeepTail(old(buf[..]), buf[..], op + 16, opLimit);
        assert buf[op..op + len] == buf[op..op + 16][..len];
        assert src[ip..ip + len] == src[ip..ip + 16][..len];
        assert buf[..op + len] == buf[..op] + buf[op..op + len];
        op := op + len;
        written := buf[..op];
        return true;
      }
      return false;
    }
  }

  lemma KeepTail(before: seq<byte>, after: seq<byte>, from: nat, to: nat)
    requires |before| == |after| && from <= to <= |after| && after[from..] == before[from..]
    ensures after[to..] == before[to..]
  {
    assert after[to..] == after[from..][to - from..];
    assert before[to..] == before[from..][to - from..];
  }
}
