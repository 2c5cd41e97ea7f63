/** The LZF format: literal runs of up to 32 bytes and back references into the output. */
module LzfFormat {
  import opened Bytes
  import opened Copying

  /** Length of a back reference's encoding: a third byte when the length field is full. */
  function HeaderSize(ctrl: byte): (n: nat) {
    if ctrl < 32 then 1 else if ctrl / 32 == 7 then 3 else 2
  }

  /** Bytes a back reference produces. */
  function RefLength(c: seq<byte>): (n: nat)
    requires c != [] && c[0] >= 32 && |c| >= HeaderSize(c[0])
  {
    var len: nat := c[0] / 32;
    if len == 7 then 9 + c[1] as nat else len + 2
  }

  /** How far back it reaches. */
  function RefOffset(c: seq<byte>): (n: nat)
    requires c != [] && c[0] >= 32 && |c| >= HeaderSize(c[0])
  {
    var high: nat, low: nat := c[0] % 32, c[HeaderSize(c[0]) - 1];
    256 * high + low + 1
  }

  /** The output of the elements `c` behind `out`; `None` for an element cut short or a reference before the output. */
  function Decode(c: seq<byte>, out: seq<byte>): (r: Option<seq<byte>>)
    decreases |c|
  {
    if c == [] then Some(out)
    else if c[0] < 32 then
      var n := c[0] + 1;
      if |c| < 1 + n then None else Decode(c[1 + n..], out + c[1..1 + n])
    else
      var h := HeaderSize(c[0]);
      if |c| < h || RefOffset(c) > |out| then None
      else Decode(c[h..], CopyFrom(out, RefOffset(c), RefLength(c)))
  }

  /** How `lzf_decompress` ends: the output, or the error number it sets. */
  datatype Outcome = Done(out: seq<byte>) | TooBig | Invalid

  /** Decoding into a buffer of `limit` bytes, with the decoder's order of checks. */
  function DecodeWithin(c: seq<byte>, out: seq<byte>, limit: nat): (r: Outcome)
    decreases |c|
  {
    if c == [] then Done(out)
    else if c[0] < 32 then
      var n := c[0] + 1;
      if |out| + n > limit then TooBig
      else if |c| < 1 + n then Invalid
      else DecodeWithin(c[1 + n..], out + c[1..1 + n], limit)
    else
      var h := HeaderSize(c[0]);
      if |c| < h then Invalid
      else if |out| + RefLength(c) > limit then TooBig
      else if RefOffset(c) > |out| then Invalid
      else DecodeWithin(c[h..], CopyFrom(out, RefOffset(c), RefLength(c)), limit)
  }

  /** The bounded decoder and the unbounded one agree on a stream, up to the bound. */
  ghost predicate Bounded(c: seq<byte>, out: seq<byte>, limit: nat) {
    && (DecodeWithin(c, out, limit).Done? <==> Decode(c, out).Some? && |Decode(c, out).value| <= limit)
    && (DecodeWithin(c, out, limit).Done? ==> Decode(c, out) == Some(DecodeWithin(c, out, limit).out))
    && (Decode(c, out).Some? ==> out <= Decode(c, out).value)
  }

  function AtLeast(limit: nat, out: seq<byte>): (n: nat) {
    if |out| <= limit then limit else |out|
  }

  lemma LiteralBounded(c: seq<byte>, out: seq<byte>, limit: nat, n: nat, next: seq<byte>)
    requires |out| <= limit && c != [] && c[0] < 32 && n == c[0] + 1 && |c| >= 1 + n && next == out + c[1..1 + n]
    requires Bounded(c[1 + n..], next, AtLeast(limit, next))
    ensures Bounded(c, out, limit)
  {
  }

  lemma ReferenceBounded(c: seq<byte>, out: seq<byte>, limit: nat, h: nat, next: seq<byte>)
    requires |out| <= limit && c != [] && c[0] >= 32 && h == HeaderSize(c[0]) && |c| >= h && RefOffset(c) <= |out|
    requires next == CopyFrom(out, RefOffset(c), RefLength(c))
    requires Bounded(c[h..], next, AtLeast(limit, next))
    ensures Bounded(c, out, limit)
  {
    CopyFromRepeats(out, RefOffset(c), RefLength(c));
  }

  lemma {:induction false} AllBounded(c: seq<byte>, out: seq<byte>, limit: nat)
    requires |out| <= limit
    ensures Bounded(c, out, limit)
    decreases |c|
  {
    if c != [] {
      if c[0] < 32 {
        var n := c[0] + 1;
        if |c| >= 1 + n {
          var next := out + c[1..1 + n];
          AllBounded(c[1 + n..], next, AtLeast(limit, next));
          LiteralBounded(c, out, limit, n, next);
        }
      } else {
        var h := HeaderSize(c[0]);
        if |c| >= h && RefOffset(c) <= |out| {
          var next := CopyFrom(out, RefOffset(c), RefLength(c));
          AllBounded(c[h..], next, AtLeast(limit, next));
          ReferenceBounded(c, out, limit, h, next);
        }
      }
    }
  }

  /** The bounded decoder succeeds exactly when the stream is well formed and its output fits. */
  lemma WithinIsDecode(c: seq<byte>, out: seq<byte>, limit: nat)
    requires |out| <= limit
    ensures DecodeWithin(c, out, limit).Done? <==> Decode(c, out).Some? && |Decode(c, out).value| <= limit
    ensures DecodeWithin(c, out, limit).Done? ==> Decode(c, out) == Some(DecodeWithin(c, out, limit).out)
    ensures Decode(c, out).Some? ==> out <= Decode(c, out).value
  {
    AllBounded(c, out, limit);
  }

  /** With room for the longest references nothing is too big: what fails is malformed. */
  lemma {:induction false} RoomIsEnough(c: seq<byte>, out: seq<byte>, limit: nat)
    requires |out| + 264 * |c| <= limit
    ensures DecodeWithin(c, out, limit) == match Decode(c, out) case None => Invalid case Some(r) => Done(r)
    decreases |c|
  {
    if c != [] {
      if c[0] < 32 {
        var n := c[0] + 1;
        if |c| >= 1 + n {
          RoomIsEnough(c[1 + n..], out + c[1..1 + n], limit);
        }
      } else {
        var h := HeaderSize(c[0]);
        if |c| >= h && RefOffset(c) <= |out| {
          RoomIsEnough(c[h..], CopyFrom(out, RefOffset(c), RefLength(c)), limit);
        }
      }
    }
  }

  /** A malformed stream stays malformed in every larger buffer. */
  lemma {:induction false} InvalidStays(c: seq<byte>, out: seq<byte>, limit: nat, limit': nat)
    requires limit <= limit' && DecodeWithin(c, out, limit) == Invalid
    ensures DecodeWithin(c, out, limit') == Invalid
    decreases |c|
  {
    if c[0] < 32 {
      var n := c[0] + 1;
      if |c| >= 1 + n {
        InvalidStays(c[1 + n..], out + c[1..1 + n], limit, limit');
      }
    } else {
      var h := HeaderSize(c[0]);
      if |c| >= h && RefOffset(c) <= |out| {
        InvalidStays(c[h..], CopyFrom(out, RefOffset(c), RefLength(c)), limit, limit');
      }
    }
  }

  /** What follows a complete literal run does not change how the run is read. */
  lemma LiteralLocal(a: seq<byte>, b: seq<byte>, out: seq<byte>)
    requires a != [] && a[0] < 32 && |a| >= 2 + a[0]
    ensures Decode(a + b, out) == Decode(a[2 + a[0]..] + b, out + a[1..2 + a[0]])
  {
    var n := a[0] + 1;
    var s := a + b;
    assert s[1..1 + n] == a[1..1 + n];
    assert s[1 + n..] == a[1 + n..] + b;
  }

  /** What follows a complete back reference does not change how it is read. */
  lemma ReferenceLocal(a: seq<byte>, b: seq<byte>, out: seq<byte>)
    requires a != [] && a[0] >= 32 && |a| >= HeaderSize(a[0]) && RefOffset(a) <= |out|
    ensures Decode(a + b, out) == Decode(a[HeaderSize(a[0])..] + b, CopyFrom(out, RefOffset(a), RefLength(a)))
  {
    var h := HeaderSize(a[0]);
    var s := a + b;
    assert s[h..] == a[h..] + b;
    assert RefOffset(s) == RefOffset(a) && RefLength(s) == RefLength(a);
  }

  /** A complete stream can be followed by another one. */
  lemma {:induction false} DecodeAppend(a: seq<byte>, b: seq<byte>, out: seq<byte>, mid: seq<byte>)
    requires Decode(a, out) == Some(mid)
    ensures Decode(a + b, out) == Decode(b, mid)
    decreases |a|
  {
    if a == [] {
      assert a + b == b;
    } else if a[0] < 32 {
      LiteralLocal(a, b, out);
      DecodeAppend(a[2 + a[0]..], b, out + a[1..2 + a[0]], mid);
    } else {
      ReferenceLocal(a, b, out);
      DecodeAppend(a[HeaderSize(a[0])..], b, CopyFrom(out, RefOffset(a), RefLength(a)), mid);
    }
  }

  /** A literal run as it stands in the stream. */
  function LiteralRun(lit: seq<byte>): (e: seq<byte>)
    requires 1 <= |lit| <= 32
  {
    [|lit| - 1] + lit
  }

  lemma LiteralRunDecodes(lit: seq<byte>, out: seq<byte>)
    requires 1 <= |lit| <= 32
    ensures Decode(LiteralRun(lit), out) == Some(out + lit)
  {
    var e := LiteralRun(lit);
    assert e[1..1 + |lit|] == lit && e[1 + |lit|..] == [];
  }

  /** A back reference of `n` bytes, `off + 1` bytes back, as it stands in the stream. */
  function BackReference(off: nat, n: nat): (e: seq<byte>)
    requires off < 0x2000 && 3 <= n <= 264
  {
    if n < 9 then [off / 256 + 32 * (n - 2), off % 256]
    else [off / 256 + 32 * 7, n - 9, off % 256]
  }

  lemma Fields(high: nat, len: nat)
    requires high < 32 && 1 <= len <= 7
    ensures (high + 32 * len) / 32 == len && (high + 32 * len) % 32 == high
  {
  }

  lemma ReferenceFields(off: nat, n: nat)
    requires off < 0x2000 && 3 <= n <= 264
    ensures var e := BackReference(off, n);
            && e[0] >= 32 && |e| == HeaderSize(e[0])
            && RefLength(e) == n && RefOffset(e) == off + 1
  {
    Fields(off / 256, if n < 9 then n - 2 else 7);
  }

  lemma OneReferenceDecodes(e: seq<byte>, out: seq<byte>)
    requires e != [] && e[0] >= 32 && |e| == HeaderSize(e[0]) && RefOffset(e) <= |out|
    ensures Decode(e, out) == Some(CopyFrom(out, RefOffset(e), RefLength(e)))
  {
    assert e[HeaderSize(e[0])..] == [];
  }

  lemma BackReferenceDecodes(off: nat, n: nat, out: seq<byte>)
    requires off < 0x2000 && 3 <= n <= 264 && off < |out|
    ensures Decode(BackReference(off, n), out) == Some(CopyFrom(out, off + 1, n))
  {
    ReferenceFields(off, n);
    OneReferenceDecodes(BackReference(off, n), out);
  }
}
