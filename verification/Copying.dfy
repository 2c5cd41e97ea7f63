/** Copies from earlier output, the element both compressed formats share. */
module Copying {
  import opened Bytes

  /** `out` extended by `len` bytes, each equal to the byte `offset` places before it. */
  function CopyFrom(out: seq<byte>, offset: nat, len: nat): (r: seq<byte>)
    requires 1 <= offset <= |out|
    ensures |r| == |out| + len
    decreases len
  {
    if len == 0 then out
    else CopyFrom(out + [out[|out| - offset]], offset, len - 1)
  }

  /** The copy keeps what was there and repeats with period `offset`. */
  lemma {:induction false} CopyFromRepeats(out: seq<byte>, offset: nat, len: nat)
    requires 1 <= offset <= |out|
    ensures out <= CopyFrom(out, offset, len)
    ensures forall i :: |out| <= i < |out| + len ==>
              CopyFrom(out, offset, len)[i] == CopyFrom(out, offset, len)[i - offset]
    decreases len
  {
    if len > 0 {
      var next := out + [out[|out| - offset]];
      CopyFromRepeats(next, offset, len - 1);
      var r := CopyFrom(next, offset, len - 1);
      assert r[|out|] == next[|out|] == next[|out| - offset] == r[|out| - offset];
    }
  }

  /** The repetition pins the result down: any sequence with it is the copy. */
  lemma {:induction false} CopyFromUnique(out: seq<byte>, offset: nat, len: nat, r: seq<byte>)
    requires 1 <= offset <= |out|
    requires |r| == |out| + len && out <= r
    requires forall i :: |out| <= i < |r| ==> r[i] == r[i - offset]
    ensures r == CopyFrom(out, offset, len)
    decreases len
  {
    if len > 0 {
      var next := out + [out[|out| - offset]];
      assert r[|out|] == r[|out| - offset] == out[|out| - offset];
      assert next <= r;
      CopyFromUnique(next, offset, len - 1, r);
    } else {
      assert r == out;
    }
  }

  /** Two copies at one offset, back to back, are one longer copy. */
  lemma {:induction false} CopyFromSplit(out: seq<byte>, offset: nat, a: nat, b: nat)
    requires 1 <= offset <= |out|
    ensures CopyFrom(CopyFrom(out, offset, a), offset, b) == CopyFrom(out, offset, a + b)
    decreases a
  {
    if a > 0 {
      CopyFromSplit(out + [out[|out| - offset]], offset, a - 1, b);
    }
  }

  /** From `from` on, up to `to`, every byte repeats the one `offset` places before it. */
  ghost predicate Repeats(s: seq<byte>, offset: nat, from: nat, to: nat)
    requires offset <= from
  {
    to <= |s| && forall i :: from <= i < to ==> s[i] == s[i - offset]
  }

  /** A buffer whose bytes repeat holds the copy the format asks for. */
  lemma RepeatsIsCopy(before: seq<byte>, after: seq<byte>, offset: nat, op: nat, len: nat)
    requires 1 <= offset <= op && op + len <= |before| == |after|
    requires before[..op] == after[..op] && Repeats(after, offset, op, op + len)
    ensures after[..op + len] == CopyFrom(before[..op], offset, len)
  {
    CopyFromUnique(before[..op], offset, len, after[..op + len]);
  }

  /** The bytewise loop: source and destination may overlap, and then the bytes repeat. */
  method IncrementalCopy(a: array<byte>, offset: nat, start: nat, length: nat)
    requires 1 <= offset <= start && length >= 1 && start + length <= a.Length
    modifies a
    ensures a[..start + length] == CopyFrom(old(a[..start]), offset, length)
    ensures a[start + length..] == old(a[start + length..])
  {
    var src, op, len := start - offset, start, length;
    while len > 0
      invariant 0 <= len <= length && op == start + (length - len) && src == op - offset
      invariant forall i :: 0 <= i < a.Length && !(start <= i < op) ==> a[i] == old(a[i])
      invariant Repeats(a[..], offset, start, op)
    {
      a[op] := a[src];
      op, src, len := op + 1, src + 1, len - 1;
    }
    RepeatsIsCopy(old(a[..]), a[..], offset, start, length);
    assert old(a[..])[..start] == old(a[..start]) && a[..][..start + length] == a[..start + length];
  }

  /** Input that repeats what stands `offset` places before it is what a copy reproduces. */
  lemma MatchIsCopy(pre: seq<byte>, input: seq<byte>, from: nat, offset: nat, to: nat)
    requires from <= to <= |input| && 1 <= offset <= from
    requires forall i :: from <= i < to ==> input[i] == input[i - offset]
    ensures CopyFrom(pre + input[..from], offset, to - from) == pre + input[..to]
  {
    var before, after := pre + input[..from], pre + input[..to];
    forall i | |before| <= i < |after| ensures after[i] == after[i - offset] {
      var j := i - |pre|;
      assert after[i] == input[j] == input[j - offset] == after[i - offset];
    }
    CopyFromUnique(before, offset, to - from, after);
  }

  /** `memcpy` of `len` input bytes into the output. */
  method Store(out: array<byte>, op: nat, input: seq<byte>, from: nat, len: nat)
    requires op + len <= out.Length && from + len <= |input|
    modifies out
    ensures out[op..op + len] == input[from..from + len]
    ensures out[..op] == old(out[..op]) && out[op + len..] == old(out[op + len..])
    ensures forall i :: 0 <= i < out.Length && !(op <= i < op + len) ==> out[i] == old(out[i])
  {
    forall i | op <= i < op + len { out[i] := input[from + (i - op)]; }
  }
}
