/** Compressing one block: hash-driven search for four-byte matches, literals in between, copies. */
module SnappyFragment {
  import opened Bytes
  import opened Copying
  import opened SnappyFormat
  import opened SnappyMatch
  import opened SnappyEmit

  const BLOCK_SIZE := 0x8000
  const INPUT_MARGIN_BYTES := 15

  /** What the elements of a block of `n` bytes take at most, overshoot of the stores included. */
  function FragmentBound(n: nat): (b: nat) {
    n + n / 65 + 3
  }

  /** The elements `c`, decoded behind `pre`, give the first `n` bytes of the block. */
  ghost predicate Encodes(c: seq<byte>, pre: seq<byte>, input: seq<byte>, n: nat) {
    n <= |input| && DecodeTags(c, pre) == Some(pre + input[..n])
  }

  /** Table entries are positions before `n`. */
  ghost predicate EntriesBelow(table: seq<u16>, size: nat, n: nat) {
    size <= |table| && forall h :: 0 <= h < size ==> table[h] < n
  }

  ghost predicate HashesInto(hash: u32 -> nat, size: nat) {
    forall w :: hash(w) < size
  }

  /** The hash of the four bytes at `i`. */
  method HashAt(input: seq<byte>, i: nat, hash: u32 -> nat, ghost size: nat) returns (h: nat)
    requires i + 4 <= |input| && HashesInto(hash, size)
    ensures h < size
  {
    LoadInjective(input, i, input, i, 4);
    h := hash(LoadLE(input, i, 4));
  }

  /** The 32-bit comparison that finds a match. */
  method SameFour(input: seq<byte>, a: nat, b: nat) returns (same: bool)
    requires a <= b && b + 4 <= |input|
    ensures same ==> forall i :: b <= i < b + 4 ==> input[i] == input[i - (b - a)]
    ensures !same ==> exists i :: b <= i < b + 4 && input[i] != input[i - (b - a)]
  {
    same := SameWord(input, a, input, b, 4);
  }

  /** The four bytes `offset` places into the eight loaded at `p`, by shifting them out. */
  method HashAtOffset(input: seq<byte>, p: nat, offset: nat, hash: u32 -> nat, ghost size: nat) returns (h: nat)
    requires p + 8 <= |input| && offset <= 4 && HashesInto(hash, size)
    ensures h < size
  {
    var w := GetU32AtOffset(input, p, offset);
    h := hash(w);
  }

  /** `get_u32_at_offset` of an eight-byte load is the four-byte load further on. */
  method GetU32AtOffset(input: seq<byte>, p: nat, offset: nat) returns (w: u32)
    requires p + 8 <= |input| && offset <= 4
    ensures w == LoadLE(input, p + offset, 4)
  {
    LoadShifted(input, p, 8, offset);
    LoadMasked(input, p + offset, 4, 8 - offset);
    assert Pow256(4) == 0x1_0000_0000;
    w := LoadLE(input, p, 8) / Pow256(offset) % 0x1_0000_0000;
  }

  lemma {:induction false} LoadShifted(s: seq<byte>, i: nat, n: nat, k: nat)
    requires k <= n && i + n <= |s|
    ensures LoadLE(s, i, n) / Pow256(k) == LoadLE(s, i + k, n - k)
    decreases k
  {
    if k > 0 {
      LoadShifted(s, i + 1, n - 1, k - 1);
      var hi, p := LoadLE(s, i + 1, n - 1), Pow256(k - 1);
      DivScale(s[i], hi, p);
    }
  }

  lemma DivScale(lo: byte, hi: nat, p: nat)
    requires p >= 1
    ensures (lo + 256 * hi) / (256 * p) == hi / p
  {
    var q, r := hi / p, hi % p;
    assert hi == p * q + r;
    assert lo + 256 * hi == (256 * p) * q + (lo + 256 * r);
    ModUnique(256 * p, q, lo + 256 * r);
  }

  /** Adding an element to an encoded prefix. */
  lemma Continue(c: seq<byte>, e: seq<byte>, pre: seq<byte>, input: seq<byte>, from: nat, to: nat)
    requires Encodes(c, pre, input, from) && to <= |input|
    requires DecodeTags(e, pre + input[..from]) == Some(pre + input[..to])
    ensures Encodes(c + e, pre, input, to)
  {
    DecodeThen(c, e, pre, pre + input[..from], pre + input[..to]);
  }

  lemma ContinueLiteral(c: seq<byte>, pre: seq<byte>, input: seq<byte>, from: nat, to: nat)
    requires Encodes(c, pre, input, from) && from < to <= |input| < U32_RANGE
    ensures Encodes(c + LiteralElement(input[from..to]), pre, input, to)
  {
    LiteralExtends(pre, input, from, to);
    Continue(c, LiteralElement(input[from..to]), pre, input, from, to);
  }

  lemma PrefixGrows(pre: seq<byte>, input: seq<byte>, from: nat, to: nat)
    requires from <= to <= |input|
    ensures (pre + input[..from]) + input[from..to] == pre + input[..to]
  {
  }

  lemma LiteralExtends(pre: seq<byte>, input: seq<byte>, from: nat, to: nat)
    requires from < to <= |input| < U32_RANGE
    ensures DecodeTags(LiteralElement(input[from..to]), pre + input[..from]) == Some(pre + input[..to])
  {
    LiteralDecodes(input[from..to], pre + input[..from]);
    PrefixGrows(pre, input, from, to);
  }

  /** Bytes that repeat at the distance of the candidate are what the copy produces. */
  lemma ContinueCopy(c: seq<byte>, pre: seq<byte>, input: seq<byte>, from: nat, offset: nat, to: nat)
    requires Encodes(c, pre, input, from) && from + 4 <= to <= |input|
    requires 1 <= offset <= from && offset < 0x1_0000
    requires forall i :: from <= i < to ==> input[i] == input[i - offset]
    ensures Encodes(c + CopyElements(offset, to - from), pre, input, to)
  {
    CopyExtends(pre, input, from, offset, to);
    Continue(c, CopyElements(offset, to - from), pre, input, from, to);
  }

  lemma CopyExtends(pre: seq<byte>, input: seq<byte>, from: nat, offset: nat, to: nat)
    requires from + 4 <= to <= |input| && 1 <= offset <= from && offset < 0x1_0000
    requires forall i :: from <= i < to ==> input[i] == input[i - offset]
    ensures DecodeTags(CopyElements(offset, to - from), pre + input[..from]) == Some(pre + input[..to])
  {
    MatchIsCopy(pre, input, from, offset, to);
    CopyDecodesTo(offset, to - from, pre + input[..from], pre + input[..to]);
  }

  lemma CopyDecodesTo(offset: nat, len: nat, out: seq<byte>, end: seq<byte>)
    requires 4 <= len && 1 <= offset < 0x1_0000 && offset <= |out| && CopyFrom(out, offset, len) == end
    ensures DecodeTags(CopyElements(offset, len), out) == Some(end)
  {
    CopyElementsDecode(offset, len, out);
  }

  /**
   Step 1: look for a position whose four bytes occur at the position the table
   remembers for their hash. The stride grows with the bytes scanned in vain.
   */
  method FindCandidate(input: seq<byte>, startIp: nat, firstHash: nat, ipLimit: nat, table: array<u16>,
                       ghost size: nat, hash: u32 -> nat)
      returns (found: bool, ip: nat, candidate: nat, nextHash: nat)
    requires |input| <= BLOCK_SIZE && ipLimit + INPUT_MARGIN_BYTES == |input|
    requires 1 <= startIp <= |input| && firstHash < size && HashesInto(hash, size)
    requires EntriesBelow(table[..], size, startIp)
    modifies table
    ensures found ==> startIp <= ip < ipLimit && candidate < ip && nextHash < size
    ensures found ==> forall i :: ip <= i < ip + 4 ==> input[i] == input[i - (ip - candidate)]
    ensures found ==> EntriesBelow(table[..], size, ip + 1)
  {
    var skip, nextIp := 32, startIp;
    nextHash := firstHash;
    while true
      invariant skip >= 32 && startIp <= nextIp <= |input| && nextHash < size
      invariant EntriesBelow(table[..], size, nextIp)
      decreases |input| - nextIp
    {
      ip := nextIp;
      var hval := nextHash;
      var bytesBetweenHashLookups := skip / 32;
      skip := skip + 1;
      nextIp := ip + bytesBetweenHashLookups;
      if nextIp > ipLimit {
        found, candidate := false, 0;
        return;
      }
      nextHash := HashAt(input, nextIp, hash, size);
      candidate := table[hval];
      table[hval] := ip;
      var same := SameFour(input, candidate, ip);
      if same {
        found := true;
        return;
      }
    }
  }

  /** The literal in front of a copy leaves a little of the allowance for the copy to pay back. */
  lemma LiteralAllowance(o: nat, e: nat, len: nat)
    requires 65 * o <= 66 * e && 1 <= len && e + len <= BLOCK_SIZE
    ensures 65 * (o + |LiteralHeader(len - 1)| + len) <= 66 * (e + len) + 69
    ensures |LiteralHeader(len - 1)| <= 3
  {
  }

  /** Every store of a literal stays within the bound of the block. */
  lemma LiteralFits(o: nat, e: nat, len: nat, n: nat, fast: bool)
    requires 65 * o <= 66 * e && 1 <= len && e + len <= n <= BLOCK_SIZE
    requires fast ==> e + 16 <= n
    ensures LiteralStoreEnd(o, len, fast) <= FragmentBound(n)
  {
  }

  lemma CopyAllowance(o: nat, e: nat, offset: nat, len: nat, n: nat)
    requires 65 * o <= 66 * e + 69 && 4 <= len && e + len <= n && offset < 0x1_0000
    ensures 65 * (o + |CopyElements(offset, len)|) <= 66 * (e + len)
    ensures o + |CopyElements(offset, len)| <= FragmentBound(n)
  {
    CopyElementsSize(offset, len);
  }

  /** Everything outside the room reserved for a block of `n` bytes is as in `before`. */
  ghost predicate OnlyWithin(before: seq<byte>, after: seq<byte>, start: nat, n: nat) {
    && |before| == |after|
    && (forall i :: 0 <= i < start && i < |after| ==> after[i] == before[i])
    && (forall i :: start + FragmentBound(n) <= i < |after| ==> after[i] == before[i])
  }

  /**
   Step 3: one copy after the other while the position behind the last copy has
   a match. `more` is false when the input is nearly exhausted.
   */
  method CopyRun(input: seq<byte>, ghost pre: seq<byte>, out: array<byte>, start: nat, firstOp: nat, firstIp: nat,
                 firstCandidate: nat, ipLimit: nat, table: array<u16>, ghost size: nat, hash: u32 -> nat)
      returns (more: bool, op: nat, ip: nat, nextHash: nat)
    requires |input| <= BLOCK_SIZE && ipLimit + INPUT_MARGIN_BYTES == |input| && HashesInto(hash, size)
    requires firstCandidate < firstIp < ipLimit && EntriesBelow(table[..], size, firstIp + 1)
    requires forall i :: firstIp <= i < firstIp + 4 ==> input[i] == input[i - (firstIp - firstCandidate)]
    requires start <= firstOp <= out.Length && start + FragmentBound(|input|) <= out.Length
    requires Encodes(out[start..firstOp], pre, input, firstIp) && 65 * (firstOp - start) <= 66 * firstIp + 69
    modifies out, table
    ensures OnlyWithin(old(out[..]), out[..], start, |input|)
    ensures firstIp < ip <= |input| && start <= op <= out.Length && 65 * (op - start) <= 66 * ip
    ensures Encodes(out[start..op], pre, input, ip)
    ensures more ==> ip < ipLimit && nextHash < size && EntriesBelow(table[..], size, ip + 1)
  {
    var candidate: nat := firstCandidate;
    op, ip, nextHash := firstOp, firstIp, 0;
    while true
      invariant candidate < ip < ipLimit && firstIp <= ip && EntriesBelow(table[..], size, ip + 1)
      invariant forall i :: ip <= i < ip + 4 ==> input[i] == input[i - (ip - candidate)]
      invariant start <= op <= out.Length && 65 * (op - start) <= 66 * ip + 69
      invariant OnlyWithin(old(out[..]), out[..], start, |input|)
      invariant Encodes(out[start..op], pre, input, ip)
      decreases |input| - ip
    {
      op, ip := OneCopy(input, pre, out, start, op, ip, candidate);
      if ip >= ipLimit {
        more := false;
        return;
      }
      var prevHash := HashAtOffset(input, ip - 1, 0, hash, size);
      table[prevHash] := ip - 1;
      var curHash := HashAtOffset(input, ip - 1, 1, hash, size);
      candidate := table[curHash];
      table[curHash] := ip;
      var same := SameFour(input, candidate, ip);
      if !same {
        nextHash := HashAtOffset(input, ip - 1, 2, hash, size);
        more := true;
        return;
      }
    }
  }

  /** Extends the four-byte match as far as it goes and emits it. */
  method OneCopy(input: seq<byte>, ghost pre: seq<byte>, out: array<byte>, start: nat, at: nat, base: nat,
                 candidate: nat)
      returns (op: nat, ip: nat)
    requires |input| <= BLOCK_SIZE && candidate < base && base + 4 <= |input|
    requires forall i :: base <= i < base + 4 ==> input[i] == input[i - (base - candidate)]
    requires start <= at <= out.Length && start + FragmentBound(|input|) <= out.Length
    requires Encodes(out[start..at], pre, input, base) && 65 * (at - start) <= 66 * base + 69
    modifies out
    ensures OnlyWithin(old(out[..]), out[..], start, |input|)
    ensures base + 4 <= ip <= |input| && at <= op <= out.Length && 65 * (op - start) <= 66 * ip
    ensures Encodes(out[start..op], pre, input, ip)
  {
    ghost var done := out[start..at];
    var tail := FindMatchLength(input, candidate + 4, input, base + 4, |input|);
    ip := base + 4 + tail;
    op := AppendCopy(out, start, at, base, base - candidate, ip, |input|);
    ContinueCopy(done, pre, input, base, base - candidate, ip);
  }

  method AppendCopy(out: array<byte>, ghost start: nat, at: nat, base: nat, offset: nat, ip: nat, ghost n: nat)
      returns (op: nat)
    requires base + 4 <= ip <= n <= BLOCK_SIZE && offset < 0x1_0000
    requires start <= at <= out.Length && start + FragmentBound(n) <= out.Length
    requires 65 * (at - start) <= 66 * base + 69
    modifies out
    ensures at <= op <= out.Length && 65 * (op - start) <= 66 * ip
    ensures out[start..op] == old(out[start..at]) + CopyElements(offset, ip - base)
    ensures OnlyWithin(old(out[..]), out[..], start, n)
  {
    CopyAllowance(at - start, base, offset, ip - base, n);
    op := EmitCopy(out, at, offset, ip - base);
    assert out[start..op] == old(out[start..at]) + out[at..op];
  }

  /** Emits the bytes from `from` to `to` as a literal. */
  method OneLiteral(input: seq<byte>, ghost pre: seq<byte>, out: array<byte>, start: nat, at: nat, from: nat, to: nat,
                    fast: bool)
      returns (op: nat)
    requires |input| <= BLOCK_SIZE && from < to <= |input| && (fast ==> from + 16 <= |input|)
    requires start <= at <= out.Length && start + FragmentBound(|input|) <= out.Length
    requires Encodes(out[start..at], pre, input, from) && 65 * (at - start) <= 66 * from
    modifies out
    ensures OnlyWithin(old(out[..]), out[..], start, |input|)
    ensures at <= op <= start + FragmentBound(|input|) && 65 * (op - start) <= 66 * to + 69
    ensures Encodes(out[start..op], pre, input, to)
  {
    ghost var done := out[start..at];
    op := AppendLiteral(input, out, start, at, from, to, fast);
    ContinueLiteral(done, pre, input, from, to);
  }

  lemma SameInFront(before: seq<byte>, after: seq<byte>, start: nat, at: nat, op: nat)
    requires |before| == |after| && start <= at <= op <= |after|
    requires forall i :: 0 <= i < at ==> after[i] == before[i]
    ensures after[start..op] == before[start..at] + after[at..op]
  {
  }

  method AppendLiteral(input: seq<byte>, out: array<byte>, ghost start: nat, at: nat, from: nat, to: nat, fast: bool)
      returns (op: nat)
    requires |input| <= BLOCK_SIZE && from < to <= |input| && (fast ==> from + 16 <= |input|)
    requires start <= at <= out.Length && start + FragmentBound(|input|) <= out.Length
    requires 65 * (at - start) <= 66 * from
    modifies out
    ensures at <= op <= start + FragmentBound(|input|) && 65 * (op - start) <= 66 * to + 69
    ensures out[start..op] == old(out[start..at]) + LiteralElement(input[from..to])
    ensures OnlyWithin(old(out[..]), out[..], start, |input|)
  {
    LiteralAllowance(at - start, from, to - from);
    LiteralFits(at - start, from, to - from, |input|, fast);
    op := EmitLiteral(out, at, input, from, to - from, fast);
    SameInFront(old(out[..]), out[..], start, at, op);
  }

  /** `compress_fragment`: what is written decodes to the block, within its bound. */
  method CompressFragment(input: seq<byte>, ghost pre: seq<byte>, out: array<byte>, start: nat, table: array<u16>,
                          tableSize: nat, hash: u32 -> nat)
      returns (op: nat)
    requires |input| <= BLOCK_SIZE && start + FragmentBound(|input|) <= out.Length
    requires 0 < tableSize <= table.Length && (forall h :: 0 <= h < tableSize ==> table[h] == 0)
    requires HashesInto(hash, tableSize)
    modifies out, table
    ensures OnlyWithin(old(out[..]), out[..], start, |input|)
    ensures start <= op <= start + FragmentBound(|input|)
    ensures DecodeTags(out[start..op], pre) == Some(pre + input)
  {
    op := start;
    var nextEmit := 0;
    assert out[start..op] == [] && pre + input[..0] == pre;
    if |input| >= INPUT_MARGIN_BYTES {
      op, nextEmit := MainLoop(input, pre, out, start, table, tableSize, hash);
    }
    if nextEmit < |input| {
      op := OneLiteral(input, pre, out, start, op, nextEmit, |input|, false);
    }
    assert input[..|input|] == input;
  }

  /** The loop of literal and copies, until too little input is left to search in. */
  method MainLoop(input: seq<byte>, ghost pre: seq<byte>, out: array<byte>, start: nat, table: array<u16>,
                  ghost tableSize: nat, hash: u32 -> nat)
      returns (op: nat, nextEmit: nat)
    requires INPUT_MARGIN_BYTES <= |input| <= BLOCK_SIZE && start + FragmentBound(|input|) <= out.Length
    requires EntriesBelow(table[..], tableSize, 1) && HashesInto(hash, tableSize)
    modifies out, table
    ensures OnlyWithin(old(out[..]), out[..], start, |input|)
    ensures nextEmit <= |input| && start <= op <= out.Length && 65 * (op - start) <= 66 * nextEmit
    ensures Encodes(out[start..op], pre, input, nextEmit)
  {
    var ipLimit: nat, ip: nat := |input| - INPUT_MARGIN_BYTES, 1;
    var nextHash: nat := HashAt(input, ip, hash, tableSize);
    op, nextEmit := start, 0;
    assert out[start..op] == [] && pre + input[..0] == pre;
    while true
      invariant nextEmit < ip <= |input| && nextHash < tableSize && EntriesBelow(table[..], tableSize, ip)
      invariant start <= op <= out.Length && 65 * (op - start) <= 66 * nextEmit
      invariant OnlyWithin(old(out[..]), out[..], start, |input|)
      invariant Encodes(out[start..op], pre, input, nextEmit)
      decreases |input| - ip
    {
      var found: bool, candidate: nat;
      found, ip, candidate, nextHash := FindCandidate(input, ip, nextHash, ipLimit, table, tableSize, hash);
      if !found {
        return;
      }
      op := OneLiteral(input, pre, out, start, op, nextEmit, ip, true);
      var more: bool;
      more, op, nextEmit, nextHash :=
        CopyRun(input, pre, out, start, op, ip, candidate, ipLimit, table, tableSize, hash);
      if !more {
        return;
      }
      ip := nextEmit + 1;
    }
  }
}
