/** Writing elements: literals with their length bytes, and copies cut into pieces of at most 64 bytes. */
module SnappyEmit {
  import opened Bytes
  import opened Sequences
  import opened Copying
  import opened SnappyFormat

  // ----------------------------------------------------------------- literals

  /** How many bytes the number `n` takes. */
  function ByteCount(n: u32): (k: nat)
    ensures k <= 4
  {
    if n == 0 then 0 else if n < 0x100 then 1 else if n < 0x1_0000 then 2 else if n < 0x100_0000 then 3 else 4
  }

  /** The low `k` bytes of `n`, least significant first. */
  function LowBytes(n: nat, k: nat): (b: seq<byte>)
    ensures |b| == k
    decreases k
  {
    if k == 0 then [] else [n % 256] + LowBytes(n / 256, k - 1)
  }

  /** Tag and length bytes of a literal of `n + 1` bytes. */
  function LiteralHeader(n: u32): (e: seq<byte>)
    ensures |e| == if n < 60 then 1 else 1 + ByteCount(n)
  {
    if n < 60 then [4 * n] else [4 * (59 + ByteCount(n))] + LowBytes(n, ByteCount(n))
  }

  /** A literal element. */
  function LiteralElement(lit: seq<byte>): (e: seq<byte>)
    requires 1 <= |lit| < U32_RANGE
  {
    LiteralHeader(|lit| - 1) + lit
  }

  lemma {:induction false} LoadLowBytes(n: nat, k: nat)
    requires n < Pow256(k)
    ensures LoadLE(LowBytes(n, k), 0, k) == n
    decreases k
  {
    if k > 0 {
      var b, t := LowBytes(n, k), LowBytes(n / 256, k - 1);
      LoadLowBytes(n / 256, k - 1);
      assert b[1..1 + (k - 1)] == t == t[0..0 + (k - 1)];
      LoadLocal(b, 1, t, 0, k - 1);
    }
  }

  lemma ByteCountSuffices(n: u32)
    ensures n < Pow256(ByteCount(n))
  {
    assert Pow256(1) == 0x100 && Pow256(2) == 0x1_0000 && Pow256(3) == 0x100_0000 && Pow256(4) == 0x1_0000_0000;
  }

  lemma ShortLiteralTag(n: nat)
    requires n < 60
    ensures (4 * n) % 4 == 0 && ExtraBytes(4 * n) == 0 && (4 * n) / 4 == n
  {
  }

  lemma LongLiteralTag(k: nat)
    requires 1 <= k <= 4
    ensures (4 * (59 + k)) % 4 == 0 && ExtraBytes(4 * (59 + k)) == k && (4 * (59 + k)) / 4 >= 60
  {
  }

  /** The header announces the length the decoder reads from it. */
  lemma HeaderAnnounces(n: u32, e: seq<byte>)
    requires n + 1 < U32_RANGE && LiteralHeader(n) <= e
    ensures e[0] % 4 == 0 && ExtraBytes(e[0]) == |LiteralHeader(n)| - 1
    ensures LiteralLength(e[0], LoadLE(e, 1, ExtraBytes(e[0]))) == n + 1
  {
    assert e[0] == LiteralHeader(n)[0];
    if n < 60 {
      ShortLiteralTag(n);
    } else {
      assert e[1..1 + ByteCount(n)] == LiteralHeader(n)[1..];
      LongHeaderAnnounces(n, ByteCount(n), e);
    }
  }

  lemma LongHeaderAnnounces(n: u32, k: nat, e: seq<byte>)
    requires 60 <= n && n + 1 < U32_RANGE && k == ByteCount(n)
    requires |e| >= 1 + k && e[0] == 4 * (59 + k) && e[1..1 + k] == LowBytes(n, k)
    ensures e[0] % 4 == 0 && ExtraBytes(e[0]) == k && LiteralLength(e[0], LoadLE(e, 1, k)) == n + 1
  {
    LongLiteralTag(k);
    assert LoadLE(e, 1, k) == n by {
      ByteCountSuffices(n);
      TrailerIsLength(n, k, e);
    }
  }

  lemma TrailerIsLength(n: u32, k: nat, e: seq<byte>)
    requires n < Pow256(k) && |e| >= 1 + k && e[1..1 + k] == LowBytes(n, k)
    ensures LoadLE(e, 1, k) == n
  {
    var b := LowBytes(n, k);
    assert e[1..1 + k] == b[0..0 + k];
    LoadLocal(e, 1, b, 0, k);
    LoadLowBytes(n, k);
  }

  /** Decoding a literal element appends exactly its bytes. */
  lemma LiteralDecodes(lit: seq<byte>, out: seq<byte>)
    requires 1 <= |lit| < U32_RANGE
    ensures DecodeTags(LiteralElement(lit), out) == Some(out + lit)
  {
    var h, e := LiteralHeader(|lit| - 1), LiteralElement(lit);
    HeaderAnnounces(|lit| - 1, e);
    assert e[|h|..] == lit;
    DecodeOneLiteral(e, |h| - 1, out);
  }

  /** Where the stores of a literal end: sixteen bytes behind the tag on the fast path. */
  function LiteralStoreEnd(op: nat, len: nat, fast: bool): (end: nat)
    requires 1 <= len < U32_RANGE
  {
    if fast && len <= 16 then op + 17 else op + |LiteralHeader(len - 1)| + len
  }

  method EmitLiteral(out: array<byte>, start: nat, input: seq<byte>, literal: nat, len: nat, allowFastPath: bool)
      returns (end: nat)
    requires 1 <= len < U32_RANGE && literal + len <= |input|
    requires allowFastPath ==> literal + 16 <= |input|
    requires LiteralStoreEnd(start, len, allowFastPath) <= out.Length
    modifies out
    ensures end == start + |LiteralHeader(len - 1)| + len <= LiteralStoreEnd(start, len, allowFastPath)
    ensures out[start..end] == LiteralElement(input[literal..literal + len])
    ensures forall i :: 0 <= i < start ==> out[i] == old(out[i])
    ensures forall i :: LiteralStoreEnd(start, len, allowFastPath) <= i < out.Length ==> out[i] == old(out[i])
  {
    var op := StoreHeader(out, start, len - 1);
    ghost var mid := out[..];
    end := op + len;
    var width := if allowFastPath && len <= 16 then 16 else len;
    Store(out, op, input, literal, width);
    assert out[op..end] == out[op..op + width][..len];
    assert input[literal..literal + len] == input[literal..literal + width][..len];
    assert forall i :: start <= i < op ==> out[i] == mid[i];
    assert out[start..op] == mid[start..op];
    assert out[start..end] == out[start..op] + out[op..end];
  }

  /** The tag byte; a longer length reserves it, stores the length bytes, then fills it in. */
  lemma FirstByte(o: seq<byte>, start: nat, op: nat, b: byte)
    requires start < op <= |o|
    ensures o[start := b][start..op] == [b] + o[start + 1..op]
  {
  }

  method StoreHeader(out: array<byte>, start: nat, n: u32) returns (op: nat)
    requires start + |LiteralHeader(n)| <= out.Length
    modifies out
    ensures op == start + |LiteralHeader(n)|
    ensures out[start..op] == LiteralHeader(n)
    ensures forall i :: 0 <= i < out.Length && !(start <= i < op) ==> out[i] == old(out[i])
  {
    op := start + 1;
    if n < 60 {
      out[start] := 4 * n;
    } else {
      op := StoreLength(out, op, n);
      FirstByte(out[..], start, op, 4 * (59 + (op - (start + 1))));
      out[start] := 4 * (59 + (op - (start + 1)));
    }
  }

  method StoreLength(out: array<byte>, start: nat, length: u32) returns (op: nat)
    requires start + ByteCount(length) <= out.Length
    modifies out
    ensures op == start + ByteCount(length)
    ensures out[start..op] == LowBytes(length, ByteCount(length))
    ensures forall i :: 0 <= i < out.Length && !(start <= i < op) ==> out[i] == old(out[i])
  {
    ghost var all := LowBytes(length, ByteCount(length));
    var n: u32 := length;
    op := start;
    while n > 0
      invariant start <= op && op - start + ByteCount(n) == ByteCount(length)
      invariant out[start..op] + LowBytes(n, ByteCount(n)) == all
      invariant forall i :: 0 <= i < out.Length && !(start <= i < op) ==> out[i] == old(out[i])
    {
      ghost var done := out[start..op];
      FewerBytes(n);
      out[op] := n % 256;
      assert out[start..op + 1] == done + [n % 256];
      Associates(done, [n % 256], LowBytes(n / 256, ByteCount(n / 256)));
      op, n := op + 1, n / 256;
    }
  }

  lemma FewerBytes(n: u32)
    requires n > 0
    ensures ByteCount(n) == 1 + ByteCount(n / 256)
  {
  }

  // ------------------------------------------------------------------- copies

  /** A copy element of at most 64 bytes, with the one- or the two-byte offset. */
  function CopyElement(offset: nat, len: nat): (e: seq<byte>)
    requires 4 <= len <= 64 && offset < 0x1_0000
    ensures 2 <= |e| <= 3
  {
    if len < 12 && offset < 2048 then [1 + 4 * (len - 4) + 32 * (offset / 256), offset % 256]
    else [2 + 4 * (len - 1), offset % 256, offset / 256]
  }

  lemma CopyElementDecodes(offset: nat, len: nat, out: seq<byte>)
    requires 4 <= len <= 64 && 1 <= offset < 0x1_0000 && offset <= |out|
    ensures DecodeTags(CopyElement(offset, len), out) == Some(CopyFrom(out, offset, len))
  {
    CopyElementAnnounces(offset, len);
    DecodeOneCopy(CopyElement(offset, len), offset, len, out);
  }

  lemma CopyElementAnnounces(offset: nat, len: nat)
    requires 4 <= len <= 64 && offset < 0x1_0000
    ensures var e := CopyElement(offset, len);
            && e[0] % 4 != 0 && |e| == 1 + ExtraBytes(e[0])
            && CopyOffset(e[0], LoadLE(e, 1, |e| - 1)) == offset && CopyLength(e[0]) == len
  {
    var e := CopyElement(offset, len);
    if len < 12 && offset < 2048 {
      ShortTag(len - 4, offset / 256);
      assert LoadLE(e, 1, 1) == e[1] + 256 * LoadLE(e, 2, 0);
    } else {
      assert LoadLE(e, 1, 2) == e[1] + 256 * LoadLE(e, 2, 1);
      assert LoadLE(e, 2, 1) == e[2] + 256 * LoadLE(e, 3, 0);
    }
  }

  lemma ShortTag(l: nat, o: nat)
    requires l < 8 && o < 8
    ensures var tag := 1 + 4 * l + 32 * o; tag % 4 == 1 && tag / 4 % 8 == l && tag / 32 == o
  {
  }

  /** The length of the first piece of a copy: 64 while four bytes stay for the rest, 60 to make that so. */
  function FirstPiece(len: nat): (n: nat)
    requires 4 <= len
    ensures 4 <= n <= 64 && n <= len && (n < len ==> len - n >= 4)
  {
    if len >= 68 then 64 else if len > 64 then 60 else len
  }

  /** The elements for a copy of any length from four up. */
  function CopyElements(offset: nat, len: nat): (e: seq<byte>)
    requires (4 <= len || len == 0) && offset < 0x1_0000
    decreases len
  {
    if len == 0 then []
    else CopyElement(offset, FirstPiece(len)) + CopyElements(offset, len - FirstPiece(len))
  }

  lemma CopyTwice(e: seq<byte>, e': seq<byte>, out: seq<byte>, mid: seq<byte>, offset: nat, a: nat, len: nat)
    requires 1 <= offset <= |out| && a <= len && mid == CopyFrom(out, offset, a)
    requires DecodeTags(e, out) == Some(mid) && DecodeTags(e', mid) == Some(CopyFrom(mid, offset, len - a))
    ensures DecodeTags(e + e', out) == Some(CopyFrom(out, offset, len))
  {
    DecodeAppend(e, e', out, mid);
    CopyFromSplit(out, offset, a, len - a);
  }

  lemma CopyElementsUnfold(offset: nat, len: nat)
    requires 4 <= len && offset < 0x1_0000
    ensures CopyElements(offset, len)
            == CopyElement(offset, FirstPiece(len)) + CopyElements(offset, len - FirstPiece(len))
  {
  }

  /** One piece in front of pieces that decode. */
  lemma PieceDecodes(offset: nat, len: nat, first: nat, more: seq<byte>, out: seq<byte>, mid: seq<byte>)
    requires 4 <= first <= 64 && first <= len && 1 <= offset < 0x1_0000 && offset <= |out|
    requires mid == CopyFrom(out, offset, first) && DecodeTags(more, mid) == Some(CopyFrom(mid, offset, len - first))
    ensures DecodeTags(CopyElement(offset, first) + more, out) == Some(CopyFrom(out, offset, len))
  {
    CopyElementDecodes(offset, first, out);
    CopyTwice(CopyElement(offset, first), more, out, mid, offset, first, len);
  }

  ghost predicate PiecesDecode(offset: nat, len: nat, out: seq<byte>)
    requires (4 <= len || len == 0) && 1 <= offset < 0x1_0000 && offset <= |out|
  {
    DecodeTags(CopyElements(offset, len), out) == Some(CopyFrom(out, offset, len))
  }

  lemma OneMorePiece(offset: nat, len: nat, first: nat, out: seq<byte>, mid: seq<byte>)
    requires 4 <= len && first == FirstPiece(len) && 1 <= offset < 0x1_0000 && offset <= |out|
    requires mid == CopyFrom(out, offset, first) && PiecesDecode(offset, len - first, mid)
    ensures PiecesDecode(offset, len, out)
  {
    CopyElementsUnfold(offset, len);
    PieceDecodes(offset, len, first, CopyElements(offset, len - first), out, mid);
  }

  lemma {:induction false} AllPieces(offset: nat, len: nat, out: seq<byte>)
    requires (4 <= len || len == 0) && 1 <= offset < 0x1_0000 && offset <= |out|
    ensures PiecesDecode(offset, len, out)
    decreases len
  {
    if len > 0 {
      var first := FirstPiece(len);
      AllPieces(offset, len - first, CopyFrom(out, offset, first));
      OneMorePiece(offset, len, first, out, CopyFrom(out, offset, first));
    }
  }

  /** Together the pieces decode to the whole copy. */
  lemma CopyElementsDecode(offset: nat, len: nat, out: seq<byte>)
    requires (4 <= len || len == 0) && 1 <= offset < 0x1_0000 && offset <= |out|
    ensures DecodeTags(CopyElements(offset, len), out) == Some(CopyFrom(out, offset, len))
  {
    AllPieces(offset, len, out);
  }

  /** Copies never cost more than three bytes for every four they produce. */
  lemma {:induction false} CopyElementsSize(offset: nat, len: nat)
    requires (4 <= len || len == 0) && offset < 0x1_0000
    ensures 4 * |CopyElements(offset, len)| <= 3 * len
    decreases len
  {
    if len > 0 {
      CopyElementsSize(offset, len - FirstPiece(len));
    }
  }

  method EmitCopyLessThan64(out: array<byte>, start: nat, offset: nat, len: nat) returns (op: nat)
    requires 4 <= len <= 64 && offset < 0x1_0000
    requires start + |CopyElement(offset, len)| <= out.Length
    modifies out
    ensures op == start + |CopyElement(offset, len)|
    ensures out[start..op] == CopyElement(offset, len)
    ensures forall i :: 0 <= i < out.Length && !(start <= i < op) ==> out[i] == old(out[i])
  {
    op := start;
    if len < 12 && offset < 2048 {
      out[op] := 1 + 4 * (len - 4) + 32 * (offset / 256);
      op := op + 1;
      out[op] := offset % 256;
      op := op + 1;
    } else {
      out[op] := 2 + 4 * (len - 1);
      op := op + 1;
      out[op], out[op + 1] := offset % 256, offset / 256;
      op := op + 2;
    }
  }

  lemma PieceBehind(before: seq<byte>, after: seq<byte>, start: nat, at: nat, op: nat, rest: seq<byte>)
    requires |before| == |after| && start <= at <= op <= |after|
    requires forall i :: 0 <= i < at ==> after[i] == before[i]
    ensures before[start..at] + (after[at..op] + rest) == after[start..op] + rest
  {
  }

  /** Emits the first piece of what is left of a copy, behind the pieces emitted already. */
  method EmitPiece(out: array<byte>, start: nat, at: nat, offset: nat, len: nat, ghost all: seq<byte>) returns (op: nat)
    requires 4 <= len && offset < 0x1_0000 && start <= at
    requires at + |CopyElements(offset, len)| <= out.Length
    requires out[start..at] + CopyElements(offset, len) == all
    modifies out
    ensures start <= op && op + |CopyElements(offset, len - FirstPiece(len))| == at + |CopyElements(offset, len)|
    ensures out[start..op] + CopyElements(offset, len - FirstPiece(len)) == all
    ensures forall i :: 0 <= i < out.Length && !(at <= i < op) ==> out[i] == old(out[i])
  {
    op := EmitCopyLessThan64(out, at, offset, FirstPiece(len));
    PieceBehind(old(out[..]), out[..], start, at, op, CopyElements(offset, len - FirstPiece(len)));
  }

  method EmitCopy(out: array<byte>, start: nat, offset: nat, length: nat) returns (op: nat)
    requires 4 <= length && offset < 0x1_0000
    requires start + |CopyElements(offset, length)| <= out.Length
    modifies out
    ensures op == start + |CopyElements(offset, length)|
    ensures out[start..op] == CopyElements(offset, length)
    ensures forall i :: 0 <= i < out.Length && !(start <= i < op) ==> out[i] == old(out[i])
  {
    ghost var all := CopyElements(offset, length);
    var len := length;
    op := start;
    assert out[start..op] + all == all;
    while len >= 68
      invariant 4 <= len && start <= op && op + |CopyElements(offset, len)| == start + |all|
      invariant out[start..op] + CopyElements(offset, len) == all
      invariant forall i :: 0 <= i < out.Length && !(start <= i < op) ==> out[i] == old(out[i])
    {
      op := EmitPiece(out, start, op, offset, len, all);
      len := len - 64;
    }
    if len > 64 {
      op := EmitPiece(out, start, op, offset, len, all);
      len := len - 60;
    }
    op := EmitPiece(out, start, op, offset, len, all);
    assert CopyElements(offset, 0) == [];
  }
}
