/** `lzf_compress`: whatever the hash table holds, the output decodes to the input. */
module LzfCompress {
  import opened Bytes
  import opened Copying
  import opened LzfFormat
  import LzfDecompress

  const HSIZE := 0x2000
  const MAX_LIT := 32
  const MAX_OFF := 0x2000
  const MAX_REF := 264

  // -------------------------------------------------------------------
  // The hash
  // -------------------------------------------------------------------

  function First(p0: byte, p1: byte): (h: u32) {
    256 * p0 + p1
  }

  function Next(h: u32, p2: byte): (h': u32) {
    256 * (h % 0x100_0000) + p2
  }

  function Index(h: u32): (i: nat)
    ensures i < HSIZE
  {
    (h / 0x800 - h * 5) % HSIZE
  }

  /** The slot of three bytes. */
  function Slot(p0: byte, p1: byte, p2: byte): (i: nat)
    ensures i < HSIZE
  {
    Index(0x1_0000 * p0 + 256 * p1 + p2)
  }

  /** The slot of the three bytes at position `p`. */
  function SlotAt(input: seq<byte>, p: nat): (i: nat)
    requires p + 2 < |input|
    ensures i < HSIZE
  {
    Slot(input[p], input[p + 1], input[p + 2])
  }

  /** The rolling value ends in the two bytes at `ip`; what it still holds of earlier bytes lies above them. */
  ghost predicate Rolled(h: u32, input: seq<byte>, ip: nat) {
    ip + 1 < |input| ==> h % 0x1_0000 == 256 * input[ip] as int + input[ip + 1] as int
  }

  /** Shifting out whole multiples of 2^24 does not change the slot. */
  lemma IndexReadsThreeBytes(q: nat, low: nat)
    requires low < 0x100_0000 && 0x100_0000 * q + low < 0x1_0000_0000
    ensures Index(0x100_0000 * q + low) == Index(low)
  {
    var h := 0x100_0000 * q + low;
    assert h / 0x800 == 0x2000 * q + low / 0x800;
    var d := low / 0x800 - low * 5;
    assert h / 0x800 - h * 5 == 0x2000 * (q - 5 * 0x800 * q) + d;
    ModAdds(q - 5 * 0x800 * q, d);
  }

  lemma ModAdds(k: int, d: int)
    ensures (HSIZE * k + d) % HSIZE == d % HSIZE
  {
  }

  /** The hash of a position depends on its three bytes alone, however the value was rolled there. */
  lemma NextIsSlot(h: u32, input: seq<byte>, ip: nat)
    requires Rolled(h, input, ip) && ip + 2 < |input|
    ensures Index(Next(h, input[ip + 2])) == SlotAt(input, ip)
    ensures Rolled(Next(h, input[ip + 2]), input, ip + 1)
  {
    var p0: nat, p1: nat, p2: nat := input[ip], input[ip + 1], input[ip + 2];
    var q := NextSplits(h, p0, p1, p2);
    IndexReadsThreeBytes(q, 0x1_0000 * p0 + 256 * p1 + p2);
    RollsOn(q, p0, 256 * p1 + p2);
  }

  lemma NextSplits(h: u32, p0: nat, p1: nat, p2: byte) returns (q: nat)
    requires p0 < 256 && p1 < 256 && h % 0x1_0000 == 256 * p0 + p1
    ensures Next(h, p2) == 0x100_0000 * q + (0x1_0000 * p0 + 256 * p1 + p2)
  {
    var top := h % 0x100_0000;
    q := top / 0x1_0000;
    TopKeepsLow(h);
  }

  lemma TopKeepsLow(h: u32)
    ensures h % 0x100_0000 % 0x1_0000 == h % 0x1_0000
  {
  }

  lemma RollsOn(q: nat, p0: nat, low: nat)
    requires low < 0x1_0000
    ensures (0x100_0000 * q + 0x1_0000 * p0 + low) % 0x1_0000 == low
  {
  }

  // -------------------------------------------------------------------
  // The match search
  // -------------------------------------------------------------------

  /** The first `len` bytes at `ref` and at `ip` are the same. */
  ghost predicate Agree(input: seq<byte>, ref: nat, ip: nat, len: nat) {
    ref <= ip && ip + len <= |input| && forall i :: ip <= i < ip + len ==> input[i] == input[i - (ip - ref)]
  }

  lemma AgreeMore(input: seq<byte>, ref: nat, ip: nat, len: nat)
    requires Agree(input, ref, ip, len) && ip + len < |input| && input[ref + len] == input[ip + len]
    ensures Agree(input, ref, ip, len + 1)
  {
  }

  /** The longest match the search may report. */
  function Longest(room: nat): (n: nat)
    requires room >= 3
  {
    var maxlen := if room - 2 > MAX_REF then MAX_REF else room - 2;
    if maxlen > 16 then if maxlen < 19 then 19 else maxlen else if maxlen < 3 then 3 else maxlen
  }

  /** The sixteen unrolled steps: stop at the first difference. */
  method SixteenSteps(input: seq<byte>, ref: nat, ip: nat) returns (len: nat, differ: bool)
    requires ref < ip && ip + 19 <= |input| && Agree(input, ref, ip, 3)
    ensures 3 <= len <= 18 && Agree(input, ref, ip, len)
    ensures if differ then input[ref + len] != input[ip + len] else len == 18 && Agree(input, ref, ip, 19)
  {
    len := 2;
    for k := 0 to 16
      invariant len == 2 + k && Agree(input, ref, ip, len + 1)
    {
      len := len + 1;
      if input[ref + len] != input[ip + len] {
        return len, true;
      }
      AgreeMore(input, ref, ip, len);
    }
    return len, false;
  }

  /** The match length: every reported byte agrees, and the search ends at a difference or at its bound. */
  method MatchLength(input: seq<byte>, ref: nat, ip: nat) returns (len: nat)
    requires ref < ip && ip + 3 <= |input| && Agree(input, ref, ip, 3)
    ensures 3 <= len <= Longest(|input| - ip) && Agree(input, ref, ip, len)
    ensures len == Longest(|input| - ip) || input[ref + len] != input[ip + len]
  {
    len := 2;
    var maxlen := |input| - ip - len;
    maxlen := if maxlen > MAX_REF then MAX_REF else maxlen;
    if maxlen > 16 {
      var differ;
      len, differ := SixteenSteps(input, ref, ip);
      if differ {
        return;
      }
    }
    len := len + 1;
    while len < maxlen && input[ref + len] == input[ip + len]
      invariant (if maxlen > 16 then 19 else 3) <= len <= Longest(|input| - ip) && Agree(input, ref, ip, len)
    {
      AgreeMore(input, ref, ip, len);
      len := len + 1;
    }
  }

  // -------------------------------------------------------------------
  // The open literal run
  // -------------------------------------------------------------------

  function Stream(c: seq<byte>): (s: seq<byte>) {
    c
  }

  /** The stream `c` decodes to `r`, stated so that the decoder is unfolded only where `Stream` is mentioned. */
  ghost predicate Decodes(c: seq<byte>, r: seq<byte>) {
    forall s {:trigger Stream(s)} :: Stream(s) == c ==> Decode(s, []) == Some(r)
  }

  lemma DecodesMeans(c: seq<byte>, r: seq<byte>)
    ensures Decodes(c, r) <==> Decode(c, []) == Some(r)
  {
    assert Stream(c) == c;
  }

  /**
   The state between elements: before the header slot of the open run stands the encoding of everything
   up to the run, and behind the slot the run's `lit` bytes.
   */
  ghost predicate Open(o: seq<byte>, input: seq<byte>, ip: nat, op: nat, lit: nat) {
    && lit <= ip <= |input| && lit < op && op - lit - 1 <= |o|
    && Decodes(o[..op - lit - 1], input[..ip - lit])
    && (lit > 0 ==> op <= |o| && o[op - lit..op] == input[ip - lit..ip])
  }

  /** Closed elements cost at most 33 bytes for every 32 they stand for. */
  ghost predicate Compact(ip: nat, op: nat, lit: nat) {
    32 * (op - lit - 1) <= 33 * (ip - lit)
  }

  /** Patching the header slot turns the open run into an element. */
  lemma CloseRun(o: seq<byte>, input: seq<byte>, ip: nat, op: nat, lit: nat)
    requires Open(o, input, ip, op, lit) && 1 <= lit <= MAX_LIT
    ensures Decode(o[op - lit - 1 := lit - 1][..op], []) == Some(input[..ip])
  {
    var h, run := op - lit - 1, input[ip - lit..ip];
    var o' := o[h := lit - 1];
    DecodesMeans(o[..h], input[..ip - lit]);
    assert o'[..op] == o[..h] + LiteralRun(run);
    LiteralRunDecodes(run, input[..ip - lit]);
    DecodeAppend(o[..h], LiteralRun(run), [], input[..ip - lit]);
    assert input[..ip - lit] + run == input[..ip];
  }

  /** The bytes a match stands for are those its back reference copies. */
  lemma MatchIsReference(input: seq<byte>, ip: nat, ref: nat, n: nat)
    requires ref < ip && Agree(input, ref, ip, n)
    ensures CopyFrom(input[..ip], ip - ref, n) == input[..ip + n]
  {
    var before, after := input[..ip], input[..ip + n];
    assert before == after[..ip];
    CopyFromUnique(before, ip - ref, n, after);
  }

  /** A back reference behind complete elements. */
  lemma AppendReference(o: seq<byte>, input: seq<byte>, ip: nat, ref: nat, n: nat)
    requires ref < ip && ip - ref - 1 < MAX_OFF && 3 <= n <= MAX_REF
    requires Agree(input, ref, ip, n) && Decode(o, []) == Some(input[..ip])
    ensures Decode(o + BackReference(ip - ref - 1, n), []) == Some(input[..ip + n])
  {
    var off := ip - ref - 1;
    MatchIsReference(input, ip, ref, n);
    BackReferenceDecodes(off, n, input[..ip]);
    DecodeAppend(o, BackReference(off, n), [], input[..ip]);
  }

  /** How far the output can be ahead of the input. */
  lemma Lead(ip: nat, op: nat, lit: nat, total: nat)
    requires lit <= ip <= total && lit < op && Compact(ip, op, lit)
    ensures op <= ip + total / 32 + 1
  {
  }

  /** Only the first `outLen` bytes have changed. */
  ghost predicate Beyond(o: seq<byte>, o': seq<byte>, outLen: nat) {
    |o| == |o'| && forall i :: outLen <= i < |o| ==> o'[i] == o[i]
  }

  lemma BeyondBoth(o: seq<byte>, o': seq<byte>, o'': seq<byte>, n: nat, n': nat, outLen: nat)
    requires Beyond(o, o', n) && Beyond(o', o'', n') && n <= outLen && n' <= outLen
    ensures Beyond(o, o'', outLen)
  {
  }

  lemma SliceGrows(s: seq<byte>, i: nat, j: nat)
    requires i <= j < |s|
    ensures s[i..j + 1] == s[i..j] + [s[j]]
  {
  }

  /** A byte joins the open run. */
  lemma RunGrows(o: seq<byte>, o': seq<byte>, input: seq<byte>, ip: nat, op: nat, lit: nat)
    requires Open(o, input, ip, op, lit) && ip < |input| && op < |o| && o' == o[op := input[ip]]
    ensures Open(o', input, ip + 1, op + 1, lit + 1)
  {
    var h := op - lit - 1;
    assert o'[..h] == o[..h];
    assert o'[op - lit..op + 1] == o[op - lit..op] + [input[ip]];
    SliceGrows(input, ip - lit, ip);
    assert lit == 0 ==> o[op - lit..op] == input[ip - lit..ip];
  }

  /** An empty run opens behind complete elements. */
  lemma RunOpens(o: seq<byte>, input: seq<byte>, ip: nat, op: nat)
    requires op <= |o| && ip <= |input| && Decode(o[..op], []) == Some(input[..ip])
    ensures Open(o, input, ip, op + 1, 0)
  {
    DecodesMeans(o[..op], input[..ip]);
    assert op + 1 - 0 - 1 == op && ip - 0 == ip;
  }

  /** A full run is closed and the next one opened. */
  lemma FullRun(o: seq<byte>, input: seq<byte>, ip: nat, op: nat)
    requires Open(o, input, ip, op, MAX_LIT)
    ensures Open(o[op - MAX_LIT - 1 := MAX_LIT - 1], input, ip, op + 1, 0)
  {
    CloseRun(o, input, ip, op, MAX_LIT);
    RunOpens(o[op - MAX_LIT - 1 := MAX_LIT - 1], input, ip, op);
  }

  /** One more literal byte, and a new run when this one is full. */
  method PutLiteral(input: seq<byte>, out: array<byte>, ip: nat, op0: nat, lit0: nat) returns (op: nat, lit: nat)
    requires Open(out[..], input, ip, op0, lit0) && lit0 < MAX_LIT && ip < |input| && op0 < out.Length
    requires Compact(ip, op0, lit0)
    modifies out
    ensures Open(out[..], input, ip + 1, op, lit) && lit < MAX_LIT && Compact(ip + 1, op, lit)
    ensures op == if lit0 + 1 == MAX_LIT then op0 + 2 else op0 + 1
    ensures lit == if lit0 + 1 == MAX_LIT then 0 else lit0 + 1
    ensures Beyond(old(out[..]), out[..], op0 + 1)
  {
    RunGrows(out[..], out[..][op0 := input[ip]], input, ip, op0, lit0);
    op, lit := op0 + 1, lit0 + 1;
    out[op0] := input[ip];
    if lit == MAX_LIT {
      FullRun(out[..], input, ip + 1, op);
      out[op - lit - 1] := lit - 1;
      lit, op := 0, op + 1;
    }
  }

  /** The byte stored in the header slot: the run's length less one, wrapped when there is no run. */
  function RunHeader(lit: nat): (b: byte)
    requires lit <= MAX_LIT
  {
    if lit == 0 then 255 else lit - 1
  }

  lemma RunStops(o: seq<byte>, o': seq<byte>, input: seq<byte>, ip: nat, op: nat, lit: nat)
    requires Open(o, input, ip, op, lit) && lit <= MAX_LIT && op - lit - 1 < |o|
    requires o' == o[op - lit - 1 := RunHeader(lit)]
    ensures var end := if lit == 0 then op - 1 else op;
            end <= |o'| && Decode(o'[..end], []) == Some(input[..ip])
  {
    if lit > 0 {
      CloseRun(o, input, ip, op, lit);
    } else {
      DecodesMeans(o[..op - 1], input[..ip]);
      assert o'[..op - 1] == o[..op - 1] && ip - 0 == ip;
    }
  }

  /** The run is closed; an empty one is undone. */
  method StopRun(ghost input: seq<byte>, out: array<byte>, ghost ip: nat, op0: nat, lit: nat) returns (op: nat)
    requires Open(out[..], input, ip, op0, lit) && lit <= MAX_LIT && op0 - lit - 1 < out.Length
    modifies out
    ensures op == if lit == 0 then op0 - 1 else op0
    ensures op <= out.Length && Decode(out[..op], []) == Some(input[..ip])
    ensures Beyond(old(out[..]), out[..], op0 - lit)
  {
    RunStops(out[..], out[..][op0 - lit - 1 := RunHeader(lit)], input, ip, op0, lit);
    out[op0 - lit - 1] := RunHeader(lit);
    assert out[..] == old(out[..])[op0 - lit - 1 := RunHeader(lit)];
    op := op0 - if lit == 0 then 1 else 0;
    assert out[..][..op] == out[..op];
  }

  /** The two or three bytes of a back reference. */
  method PutReference(out: array<byte>, op0: nat, off: nat, n: nat) returns (op: nat)
    requires off < MAX_OFF && 3 <= n <= MAX_REF && op0 + 3 <= out.Length
    modifies out
    ensures op == op0 + |BackReference(off, n)| && out[..op] == old(out[..op0]) + BackReference(off, n)
    ensures Beyond(old(out[..]), out[..], op)
  {
    op := op0;
    var len := n - 2;
    if len < 7 {
      out[op] := off / 256 + 32 * len;
      op := op + 1;
    } else {
      out[op] := off / 256 + 32 * 7;
      op := op + 1;
      out[op] := len - 7;
      op := op + 1;
    }
    out[op] := off % 256;
    op := op + 1;
    assert out[..op0] == old(out[..op0]) && out[op0..op] == BackReference(off, n);
  }

  /** A match of `n` bytes costs at most as much as it stands for. */
  lemma MatchIsCompact(ip: nat, op: nat, lit: nat, off: nat, n: nat)
    requires lit <= ip && lit < op && Compact(ip, op, lit) && off < MAX_OFF && 3 <= n <= MAX_REF
    ensures var end := if lit == 0 then op - 1 else op;
            Compact(ip + n, end + |BackReference(off, n)| + 1, 0)
  {
  }

  /** Behind the back reference a new run is open. */
  lemma ReferenceOpens(closed: seq<byte>, o: seq<byte>, op: nat, input: seq<byte>, ip: nat, ref: nat, n: nat)
    requires ref < ip && ip - ref - 1 < MAX_OFF && 3 <= n <= MAX_REF
    requires Agree(input, ref, ip, n) && Decode(closed, []) == Some(input[..ip])
    requires op <= |o| && o[..op] == closed + BackReference(ip - ref - 1, n)
    ensures Open(o, input, ip + n, op + 1, 0)
  {
    AppendReference(closed, input, ip, ref, n);
    RunOpens(o, input, ip + n, op);
  }

  /** Close the run, put the back reference and open the next run. */
  method PutMatch(input: seq<byte>, out: array<byte>, ip: nat, op0: nat, lit: nat, ref: nat, n: nat)
    returns (op: nat)
    requires Open(out[..], input, ip, op0, lit) && lit < MAX_LIT && Compact(ip, op0, lit)
    requires ref < ip && ip - ref - 1 < MAX_OFF && 3 <= n <= MAX_REF && Agree(input, ref, ip, n)
    requires op0 - (if lit == 0 then 1 else 0) + 3 <= out.Length
    modifies out
    ensures Open(out[..], input, ip + n, op, 0) && Compact(ip + n, op, 0)
    ensures op <= op0 - (if lit == 0 then 1 else 0) + 4
    ensures Beyond(old(out[..]), out[..], op - 1)
  {
    MatchIsCompact(ip, op0, lit, ip - ref - 1, n);
    op := StopRun(input, out, ip, op0, lit);
    ghost var closed := out[..op];
    op := PutReference(out, op, ip - ref - 1, n);
    assert out[..][..op] == out[..op];
    ReferenceOpens(closed, out[..], op, input, ip, ref, n);
    op := op + 1;
  }

  // -------------------------------------------------------------------
  // The compressor
  // -------------------------------------------------------------------

  /** The difference of two positions as the source's 64-bit unsigned value. */
  function Distance(ip: u32, ref: u32): (off: nat) {
    (ip - ref - 1) % 0x1_0000_0000_0000_0000
  }

  lemma ShortDistance(ip: u32, ref: u32)
    requires Distance(ip, ref) < MAX_OFF
    ensures ref < ip && Distance(ip, ref) == ip - ref - 1
  {
  }

  lemma LongDistance(ip: u32, ref: u32)
    requires ref < ip && ip - ref - 1 < MAX_OFF
    ensures Distance(ip, ref) < MAX_OFF
  {
  }

  /** A remembered position is never trusted: it must lie before `ip`, in reach, and agree in three bytes. */
  method Acceptable(input: seq<byte>, ip: u32, ref: u32) returns (found: bool)
    requires ip + 2 < |input|
    ensures found <==> 0 < ref < ip && ip - ref - 1 < MAX_OFF && Agree(input, ref, ip, 3)
  {
    found := false;
    if Distance(ip, ref) < MAX_OFF && ref > 0 {
      ShortDistance(ip, ref);
      if input[ref + 2] == input[ip + 2] && input[ref] == input[ip] && input[ref + 1] == input[ip + 1] {
        found := true;
      }
    } else if 0 < ref < ip && ip - ref - 1 < MAX_OFF {
      LongDistance(ip, ref);
    }
  }

  /** Look the position up in the slot of its three bytes, enter it there, and check what the slot held. */
  method Candidate(input: seq<byte>, htab: array<u32>, hval0: u32, ip: u32) returns (hval: u32, ref: u32, found: bool)
    requires htab.Length == HSIZE && ip + 2 < |input| && Rolled(hval0, input, ip)
    modifies htab
    ensures Rolled(hval, input, ip + 1) && ref == old(htab[SlotAt(input, ip)])
    ensures htab[..] == old(htab[..])[SlotAt(input, ip) := ip]
    ensures found <==> 0 < ref < ip && ip - ref - 1 < MAX_OFF && Agree(input, ref, ip, 3)
  {
    NextIsSlot(hval0, input, ip);
    hval := Next(hval0, input[ip + 2]);
    var hslot := Index(hval);
    ref := htab[hslot];
    htab[hslot] := ip;
    found := Acceptable(input, ip, ref);
  }

  lemma FirstRolls(input: seq<byte>, ip: nat)
    requires ip + 1 < |input|
    ensures Rolled(First(input[ip], input[ip + 1]), input, ip)
  {
  }

  /**
   The last two positions of a match are entered where a later position with the same three bytes will
   look them up, and the value rolls on behind the match as if it had been rolled through it.
   */
  method Rehash(input: seq<byte>, htab: array<u32>, ip: u32) returns (hval: u32)
    requires htab.Length == HSIZE && 2 <= ip && ip + 2 < |input|
    modifies htab
    ensures Rolled(hval, input, ip)
    ensures htab[..] == old(htab[..])[SlotAt(input, ip - 2) := ip - 2][SlotAt(input, ip - 1) := ip - 1]
  {
    FirstRolls(input, ip - 2);
    hval := First(input[ip - 2], input[ip - 1]);
    NextIsSlot(hval, input, ip - 2);
    hval := Next(hval, input[ip]);
    htab[Index(hval)] := ip - 2;
    NextIsSlot(hval, input, ip - 1);
    hval := Next(hval, input[ip + 1]);
    htab[Index(hval)] := ip - 1;
  }

  /** What every step of the main loop keeps. */
  ghost predicate Running(o: seq<byte>, input: seq<byte>, ip: nat, op: nat, lit: nat, outLen: nat) {
    && outLen <= |o| && op <= outLen + (if lit == 0 then 1 else 0)
    && lit < MAX_LIT && Open(o, input, ip, op, lit) && Compact(ip, op, lit)
  }

  /** The output is never long enough to be refused when it may grow by one byte in 32 and four more. */
  ghost predicate Ample(total: nat, outLen: nat) {
    outLen >= total + total / 32 + 4
  }

  /** One more literal byte; everything stored since `start` lies within `outLen`. */
  method PutNext(input: seq<byte>, out: array<byte>, ip: nat, op0: nat, lit0: nat, outLen: nat, ghost start: seq<byte>)
    returns (op: nat, lit: nat)
    requires Open(out[..], input, ip, op0, lit0) && lit0 < MAX_LIT && Compact(ip, op0, lit0) && ip < |input|
    requires op0 < outLen <= out.Length && Beyond(start, out[..], outLen)
    modifies out
    ensures Open(out[..], input, ip + 1, op, lit) && lit < MAX_LIT && Compact(ip + 1, op, lit)
    ensures if lit0 + 1 == MAX_LIT then op == op0 + 2 && lit == 0 else op == op0 + 1 && lit == lit0 + 1
    ensures Beyond(start, out[..], outLen)
  {
    ghost var before := out[..];
    op, lit := PutLiteral(input, out, ip, op0, lit0);
    BeyondBoth(start, before, out[..], outLen, outLen, outLen);
  }

  /** A match found: its length, with its reference put, or 0 when the output has no room for it. */
  method TakeMatch(input: seq<byte>, out: array<byte>, ip: nat, op0: nat, lit: nat, ref: nat, outLen: nat,
                   ghost start: seq<byte>)
    returns (len: nat, op: nat)
    requires Running(out[..], input, ip, op0, lit, outLen) && Beyond(start, out[..], outLen)
    requires ref < ip && ip - ref - 1 < MAX_OFF && Agree(input, ref, ip, 3)
    modifies out
    ensures len == 0 ==> !Ample(|input|, outLen)
    ensures len > 0 ==> len >= 3 && Running(out[..], input, ip + len, op, 0, outLen)
    ensures Beyond(start, out[..], outLen)
  {
    if op0 + 4 >= outLen {
      if op0 - (if lit == 0 then 1 else 0) + 4 >= outLen {
        Lead(ip, op0, lit, |input|);
        return 0, op0;
      }
    }
    ghost var before := out[..];
    len := MatchLength(input, ref, ip);
    op := PutMatch(input, out, ip, op0, lit, ref, len);
    BeyondBoth(start, before, out[..], outLen, op - 1, outLen);
  }

  /** Room for `left` more literals, which close a run for every 32. */
  ghost predicate Room(op: nat, lit: nat, left: nat, outLen: nat) {
    op + left + (lit + left) / MAX_LIT <= outLen
  }

  method PutInRoom(input: seq<byte>, out: array<byte>, ip: nat, op0: nat, lit0: nat, outLen: nat,
                   ghost start: seq<byte>)
    returns (op: nat, lit: nat)
    requires Running(out[..], input, ip, op0, lit0, outLen) && ip < |input| && Beyond(start, out[..], outLen)
    requires Room(op0, lit0, |input| - ip, outLen)
    modifies out
    ensures Running(out[..], input, ip + 1, op, lit, outLen) && Beyond(start, out[..], outLen)
    ensures Room(op, lit, |input| - (ip + 1), outLen)
  {
    op, lit := PutNext(input, out, ip, op0, lit0, outLen, start);
  }

  /** The last bytes, of which there are at most two. */
  method LastLiterals(input: seq<byte>, ip0: nat, out: array<byte>, op0: nat, lit0: nat, outLen: nat)
    returns (op: nat, lit: nat)
    requires Running(out[..], input, ip0, op0, lit0, outLen) && |input| - 2 <= ip0 && op0 + 3 <= outLen
    modifies out
    ensures Running(out[..], input, |input|, op, lit, outLen) && op <= outLen
    ensures Beyond(old(out[..]), out[..], outLen)
  {
    op, lit := op0, lit0;
    for ip := ip0 to |input|
      invariant Running(out[..], input, ip, op, lit, outLen) && Beyond(old(out[..]), out[..], outLen)
      invariant Room(op, lit, |input| - ip, outLen)
    {
      op, lit := PutInRoom(input, out, ip, op, lit, outLen, old(out[..]));
    }
  }

  /** The size of the whole output. */
  lemma FinalSize(total: nat, op: nat, lit: nat)
    requires lit <= total && lit < op && Compact(total, op, lit)
    ensures (if lit == 0 then op - 1 else op) <= total + (total + 31) / 32
  {
  }

  lemma NothingDecodesToNothing(o: seq<byte>, input: seq<byte>)
    requires o == [] && Decode(o, []) == Some(input)
    ensures input == []
  {
  }

  /** The last check, the last bytes and the end of the run. */
  method Finish(input: seq<byte>, ip: nat, out: array<byte>, op0: nat, lit0: nat, outLen: nat) returns (n: nat)
    requires Running(out[..], input, ip, op0, lit0, outLen) && |input| - 2 <= ip
    modifies out
    ensures n == 0 ==> |input| == 0 || !Ample(|input|, outLen)
    ensures n > 0 ==> n <= outLen && n <= |input| + (|input| + 31) / 32 && Decode(out[..n], []) == Some(input)
    ensures Beyond(old(out[..]), out[..], outLen)
  {
    if op0 + 3 > outLen {
      Lead(ip, op0, lit0, |input|);
      return 0;
    }
    var op, lit := LastLiterals(input, ip, out, op0, lit0, outLen);
    ghost var before := out[..];
    FinalSize(|input|, op, lit);
    n := StopRun(input, out, |input|, op, lit);
    BeyondBoth(old(out[..]), before, out[..], outLen, op - lit, outLen);
    assert input[..|input|] == input;
    if n == 0 {
      NothingDecodesToNothing(out[..n], input);
    }
  }

  /** One more literal byte, unless the output is `full`. */
  method TryLiteral(input: seq<byte>, out: array<byte>, ip: nat, op0: nat, lit0: nat, outLen: nat,
                    ghost start: seq<byte>)
    returns (op: nat, lit: nat, full: bool)
    requires Running(out[..], input, ip, op0, lit0, outLen) && ip < |input| && Beyond(start, out[..], outLen)
    modifies out
    ensures full ==> !Ample(|input|, outLen)
    ensures !full ==> Running(out[..], input, ip + 1, op, lit, outLen)
    ensures Beyond(start, out[..], outLen)
  {
    op, lit, full := op0, lit0, op0 >= outLen;
    if full {
      Lead(ip, op, lit, |input|);
    } else {
      op, lit := PutNext(input, out, ip, op, lit, outLen, start);
    }
  }

  /** A match: its back reference, and the hash behind it. */
  method FollowMatch(input: seq<byte>, out: array<byte>, htab: array<u32>, hval0: u32, ip0: nat, op0: nat, lit: nat,
                     ref: nat, outLen: nat, ghost start: seq<byte>)
    returns (hval: u32, ip: nat, op: nat, full: bool)
    requires |input| < 0x1_0000_0000 && htab.Length == HSIZE && ref < ip0 && ip0 - ref - 1 < MAX_OFF
    requires Agree(input, ref, ip0, 3)
    requires Running(out[..], input, ip0, op0, lit, outLen) && Beyond(start, out[..], outLen)
    modifies out, htab
    ensures full ==> !Ample(|input|, outLen)
    ensures !full ==> ip0 < ip && Running(out[..], input, ip, op, 0, outLen)
    ensures !full && ip + 2 < |input| ==> Rolled(hval, input, ip)
    ensures Beyond(start, out[..], outLen)
  {
    var len;
    len, op := TakeMatch(input, out, ip0, op0, lit, ref, outLen, start);
    hval, ip, full := hval0, ip0 + len, len == 0;
    if !full && ip + 2 < |input| {
      hval := Rehash(input, htab, ip);
    }
  }

  /** One turn of the main loop: a back reference or one more literal, unless the output is `full`. */
  method Turn(input: seq<byte>, out: array<byte>, htab: array<u32>, hval0: u32, ip0: nat, op0: nat, lit0: nat,
              outLen: nat, ghost start: seq<byte>)
    returns (hval: u32, ip: nat, op: nat, lit: nat, full: bool)
    requires |input| < 0x1_0000_0000 && ip0 + 2 < |input| && htab.Length == HSIZE && Rolled(hval0, input, ip0)
    requires Running(out[..], input, ip0, op0, lit0, outLen) && Beyond(start, out[..], outLen)
    modifies out, htab
    ensures full ==> !Ample(|input|, outLen)
    ensures !full ==> ip0 < ip && Running(out[..], input, ip, op, lit, outLen)
    ensures !full && ip + 2 < |input| ==> Rolled(hval, input, ip)
    ensures Beyond(start, out[..], outLen)
  {
    var ref, found;
    hval, ref, found := Candidate(input, htab, hval0, ip0);
    if found {
      hval, ip, op, full := FollowMatch(input, out, htab, hval, ip0, op0, lit0, ref, outLen, start);
      lit := 0;
    } else {
      op, lit, full := TryLiteral(input, out, ip0, op0, lit0, outLen, start);
      ip := ip0 + 1;
    }
  }

  /**
   The compressor. On success its output decodes to the input and is no longer than the input and one
   byte for every 32 begun; with room for that and three more bytes it never refuses; every byte stored
   lies within the first `outLen`. `stale` is the byte behind a one-byte input, which the first hash reads.
   */
  method Compress(input: seq<byte>, out: array<byte>, outLen: nat, stale: byte) returns (n: nat)
    requires |input| < 0x1_0000_0000 && outLen <= out.Length
    modifies out
    ensures n > 0 ==> n <= outLen && n <= |input| + (|input| + 31) / 32 && Decode(out[..n], []) == Some(input)
    ensures n == 0 ==> |input| == 0 || outLen < |input| + |input| / 32 + 4
    ensures Beyond(old(out[..]), out[..], outLen)
  {
    if |input| == 0 || outLen == 0 {
      return 0;
    }
    var htab := new u32[HSIZE];
    var ip: nat, op: nat, lit: nat := 0, 1, 0;
    var hval := First(input[0], if |input| > 1 then input[1] else stale);
    if |input| > 1 {
      FirstRolls(input, 0);
    }
    RunOpens(out[..], input, 0, 0);
    while ip < |input| - 2
      invariant fresh(htab) && htab.Length == HSIZE && (ip + 2 < |input| ==> Rolled(hval, input, ip))
      invariant Running(out[..], input, ip, op, lit, outLen)
      invariant Beyond(old(out[..]), out[..], outLen)
    {
      var full;
      hval, ip, op, lit, full := Turn(input, out, htab, hval, ip, op, lit, outLen, old(out[..]));
      if full {
        return 0;
      }
    }
    ghost var before := out[..];
    n := Finish(input, ip, out, op, lit, outLen);
    BeyondBoth(old(out[..]), before, out[..], outLen, outLen, outLen);
  }

  /** Whatever was compressed comes back, into any buffer that can hold it. */
  method RoundTrip(input: seq<byte>, packed: array<byte>, packedLen: nat, stale: byte, back: array<byte>, backLen: nat)
    returns (n: nat, m: nat)
    requires |input| < 0x1_0000_0000 && packedLen <= packed.Length && |input| <= backLen <= back.Length
    requires packed != back
    modifies packed, back
    ensures n > 0 ==> m == |input| && back[..m] == input
    ensures |input| > 0 && packedLen >= |input| + |input| / 32 + 4 ==> n > 0
  {
    n := Compress(input, packed, packedLen, stale);
    m := 0;
    if n > 0 {
      WithinIsDecode(packed[..n], [], backLen);
      assert packed[..n][..n] == packed[..n];
      var err;
      m, err := LzfDecompress.Decompress(packed[..n], n, back, backLen);
    }
  }
}
