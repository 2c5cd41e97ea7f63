/** The two faster ways of the Snappy decoder to copy inside its output: pattern doubling, and sixteen bytes at once. */
module SnappyCopy {
  import opened Bytes
  import opened Copying

  const MAX_INCREMENT_COPY_OVERFLOW := 10

  /** One eight-byte load followed by one eight-byte store. */
  method Move8(a: array<byte>, src: nat, op: nat)
    requires src + 8 <= a.Length && op + 8 <= a.Length
    modifies a
    ensures forall i :: 0 <= i < a.Length && !(op <= i < op + 8) ==> a[i] == old(a[i])
    ensures forall i :: op <= i < op + 8 ==> a[i] == old(a[src + (i - op)])
  {
    var word := a[src..src + 8];
    forall i | op <= i < op + 8 {
      a[i] := word[i - op];
    }
  }

  /** Inside a repeating stretch, going back several periods at once changes nothing. */
  lemma {:induction false} BackPeriods(s: seq<byte>, offset: nat, from: nat, to: nat, i: nat, m: nat)
    requires 1 <= offset <= from && Repeats(s, offset, from, to)
    requires i < to && from - offset <= i - m * offset
    ensures s[i] == s[i - m * offset]
    decreases m
  {
    if m > 0 {
      assert i - m * offset == (i - offset) - (m - 1) * offset;
      assert (m - 1) * offset >= 0;
      BackPeriods(s, offset, from, to, i - offset, m - 1);
    }
  }

  /** Storing what stands a whole number of periods back prolongs the repetition. */
  lemma ProlongRepeats(before: seq<byte>, after: seq<byte>, offset: nat, from: nat, op: nat, m: nat, w: nat)
    requires 1 <= offset <= from <= op && op + w <= |before| == |after| && m >= 1
    requires Repeats(before, offset, from, op)
    requires w <= m * offset && from - offset <= op - m * offset
    requires forall i :: 0 <= i < op ==> after[i] == before[i]
    requires forall i :: op <= i < op + w ==> after[i] == before[i - m * offset]
    ensures Repeats(after, offset, from, op + w)
  {
    forall i | op <= i < op + w ensures after[i] == after[i - offset] {
      assert (m - 1) * offset == m * offset - offset;
      if i - offset < op {
        BackPeriods(before, offset, from, op, i - offset, m - 1);
      }
    }
  }

  /**
   Pattern doubling. While the two pointers are less than eight bytes apart the
   destination moves on without the source; it stores at most ten bytes past
   the end of the copy.
   */
  method IncrementalCopyFastPath(a: array<byte>, offset: nat, start: nat, length: nat)
    requires 1 <= offset <= start && length >= 1
    requires start + length + MAX_INCREMENT_COPY_OVERFLOW <= a.Length
    modifies a
    ensures a[..start + length] == CopyFrom(old(a[..start]), offset, length)
    ensures a[start + length + MAX_INCREMENT_COPY_OVERFLOW..] == old(a[start + length + MAX_INCREMENT_COPY_OVERFLOW..])
  {
    var op, m := WidenPattern(a, offset, start);
    var src, len := start - offset, length - (op - start);
    while len > 0
      invariant start <= op && len == length - (op - start) && start - offset <= src
      invariant op - src == m * offset >= 8
      invariant forall i :: 0 <= i < a.Length && !(start <= i < start + length + 10) ==> a[i] == old(a[i])
      invariant Repeats(a[..], offset, start, op)
    {
      ghost var before := a[..];
      Move8(a, src, op);
      ProlongRepeats(before, a[..], offset, start, op, m, 8);
      op, src, len := op + 8, src + 8, len - 8;
    }
    RepeatsIsCopy(old(a[..]), a[..], offset, start, length);
    assert old(a[..])[..start] == old(a[..start]) && a[..][..start + length] == a[..start + length];
  }

  /** The first loop: the destination runs ahead until it is `m` whole periods, at least eight bytes, on. */
  method WidenPattern(a: array<byte>, offset: nat, start: nat) returns (op: nat, ghost m: nat)
    requires 1 <= offset <= start && start + 11 <= a.Length
    modifies a
    ensures start <= op <= start + 9 && m >= 1
    ensures op - (start - offset) == m * offset >= 8
    ensures forall i :: 0 <= i < a.Length && !(start <= i < start + 11) ==> a[i] == old(a[i])
    ensures Repeats(a[..], offset, start, op)
  {
    var src := start - offset;
    op, m := start, 1;
    while op - src < 8
      invariant start <= op <= start + 9
      invariant (m == 1 || m == 2 || m == 4 || m == 8) && op - src == m * offset
      invariant forall i :: 0 <= i < a.Length && !(start <= i < start + 11) ==> a[i] == old(a[i])
      invariant Repeats(a[..], offset, start, op)
      decreases 8 - (op - src)
    {
      ghost var before := a[..];
      Move8(a, src, op);
      ProlongRepeats(before, a[..], offset, start, op, m, op - src);
      op, m := op + (op - src), 2 * m;
    }
  }

  /** Two eight-byte moves, for offsets of at least eight and up to sixteen bytes. */
  method Copy16(a: array<byte>, offset: nat, start: nat, length: nat)
    requires 8 <= offset <= start && length <= 16 && start + 16 <= a.Length
    modifies a
    ensures a[..start + length] == CopyFrom(old(a[..start]), offset, length)
    ensures a[start + 16..] == old(a[start + 16..])
  {
    Move8(a, start - offset, start);
    Move8(a, start - offset + 8, start + 8);
    RepeatsIsCopy(old(a[..]), a[..], offset, start, length);
    assert old(a[..])[..start] == old(a[..start]) && a[..][..start + length] == a[..start + length];
  }
}
