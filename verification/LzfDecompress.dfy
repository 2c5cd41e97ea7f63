/** `lzf_decompress`: decoding in place, proved to follow the bounded decoder check by check. */
module LzfDecompress {
  import opened Bytes
  import opened Copying
  import opened LzfFormat

  datatype Errno = NoError | E2BIG | EINVAL

  /** The loop reads one byte before it looks at the length, so an empty input is read as one byte. */
  function ReadLength(inLen: nat): (n: nat) {
    if inLen == 0 then 1 else inLen
  }

  /** What is left of the input at `ip`. */
  ghost function Rest(input: seq<byte>, inLen: nat, ip: nat): (rest: seq<byte>)
    requires ip <= ReadLength(inLen) <= |input|
  {
    input[ip..ReadLength(inLen)]
  }

  lemma RestAfter(input: seq<byte>, inLen: nat, ip: nat, n: nat)
    requires ip + n <= ReadLength(inLen) <= |input|
    ensures Rest(input, inLen, ip)[n..] == Rest(input, inLen, ip + n)
  {
  }

  lemma RestSlice(input: seq<byte>, inLen: nat, ip: nat, n: nat)
    requires ip + 1 + n <= ReadLength(inLen) <= |input|
    ensures Rest(input, inLen, ip)[1..1 + n] == input[ip + 1..ip + 1 + n]
  {
  }

  /** How the bounded decoder goes on when a step ends in `err` at `ip` with the output `out`. */
  ghost function Continue(input: seq<byte>, inLen: nat, ip: nat, out: seq<byte>, limit: nat, err: Errno): (r: Outcome)
    requires ip <= ReadLength(inLen) <= |input|
  {
    match err
    case NoError => DecodeWithin(Rest(input, inLen, ip), out, limit)
    case E2BIG => TooBig
    case EINVAL => Invalid
  }

  /** The checks of a literal run, in the decoder's order. */
  function LiteralCheck(inLen: nat, ip: nat, ctrl: nat, op: nat, outLen: nat): (err: Errno) {
    if op + ctrl + 1 > outLen then E2BIG else if ip + 1 + ctrl + 1 > inLen then EINVAL else NoError
  }

  lemma LiteralStep(input: seq<byte>, inLen: nat, ip: nat, out: seq<byte>, limit: nat)
    requires ip < ReadLength(inLen) <= |input| && input[ip] < 32
    ensures var ctrl, err := input[ip], LiteralCheck(inLen, ip, input[ip], |out|, limit);
            if err == NoError then
              ip + 2 + ctrl <= inLen &&
              Continue(input, inLen, ip, out, limit, NoError)
              == Continue(input, inLen, ip + 2 + ctrl, out + input[ip + 1..ip + 2 + ctrl], limit, NoError)
            else
              Continue(input, inLen, ip, out, limit, NoError) == Continue(input, inLen, ip, out, limit, err)
  {
    var c, n := Rest(input, inLen, ip), input[ip] + 1;
    assert c[0] == input[ip];
    if LiteralCheck(inLen, ip, input[ip], |out|, limit) == NoError {
      RestSlice(input, inLen, ip, n);
      RestAfter(input, inLen, ip, 1 + n);
    }
  }

  method PutLiterals(input: seq<byte>, inLen: nat, ip0: nat, out: array<byte>, outLen: nat, op0: nat)
    returns (ip: nat, op: nat, err: Errno)
    requires ip0 < ReadLength(inLen) <= |input| && input[ip0] < 32 && op0 <= outLen <= out.Length
    modifies out
    ensures out[outLen..] == old(out[outLen..])
    ensures err == LiteralCheck(inLen, ip0, input[ip0], op0, outLen)
    ensures err == NoError ==> ip == ip0 + 2 + input[ip0] <= inLen && op <= outLen
    ensures err == NoError ==> out[..op] == old(out[..op0]) + input[ip0 + 1..ip]
  {
    var ctrl: nat := input[ip0];
    ip, op, err := ip0 + 1, op0, NoError;
    ctrl := ctrl + 1;
    if op + ctrl > outLen {
      return ip, op, E2BIG;
    }
    if ip + ctrl > inLen {
      return ip, op, EINVAL;
    }
    Store(out, op, input, ip, ctrl);
    assert out[..op + ctrl] == out[..op] + out[op..op + ctrl];
    ip, op := ip + ctrl, op + ctrl;
  }

  /** The checks of a back reference, in the decoder's order. */
  function ReferenceCheck(c: seq<byte>, op: nat, outLen: nat): (err: Errno)
    requires c != [] && c[0] >= 32
  {
    if |c| < HeaderSize(c[0]) then EINVAL
    else if op + RefLength(c) > outLen then E2BIG
    else if RefOffset(c) > op then EINVAL
    else NoError
  }

  lemma ReferenceStep(input: seq<byte>, inLen: nat, ip: nat, out: seq<byte>, limit: nat)
    requires ip < ReadLength(inLen) <= |input| && input[ip] >= 32
    ensures var c := Rest(input, inLen, ip);
            var err := ReferenceCheck(c, |out|, limit);
            if err == NoError then
              Continue(input, inLen, ip, out, limit, NoError)
              == Continue(input, inLen, ip + HeaderSize(c[0]), CopyFrom(out, RefOffset(c), RefLength(c)), limit,
                          NoError)
            else
              Continue(input, inLen, ip, out, limit, NoError) == Continue(input, inLen, ip, out, limit, err)
  {
    var c := Rest(input, inLen, ip);
    assert c[0] == input[ip];
    if |c| >= HeaderSize(c[0]) {
      RestAfter(input, inLen, ip, HeaderSize(c[0]));
    }
  }

  /** Reading the header: its length and offset, or the error of an input cut short. */
  method ReadReference(input: seq<byte>, inLen: nat, ip0: nat, op: nat)
    returns (ip: nat, len: nat, ref: int, err: Errno)
    requires ip0 < ReadLength(inLen) <= |input| && input[ip0] >= 32
    ensures var c := Rest(input, inLen, ip0);
            if |c| < HeaderSize(c[0]) then err == EINVAL
            else err == NoError && ip == ip0 + HeaderSize(c[0]) && len + 2 == RefLength(c) && ref == op - RefOffset(c)
  {
    var ctrl: nat := input[ip0];
    ip, err := ip0 + 1, NoError;
    len, ref := ctrl / 32, op - 256 * (ctrl % 32) - 1;
    ghost var c := Rest(input, inLen, ip0);
    assert c[0] == input[ip0];
    if ip >= inLen {
      return ip, len, ref, EINVAL;
    }
    assert c[1] == input[ip];
    if len == 7 {
      len, ip := len + input[ip], ip + 1;
      if ip >= inLen {
        return ip, len, ref, EINVAL;
      }
      assert c[2] == input[ip];
    }
    ref, ip := ref - input[ip], ip + 1;
  }

  /** Copying the referenced bytes: as a block where the areas are disjoint, byte by byte otherwise. */
  method CopyReference(out: array<byte>, ref: nat, op: nat, len: nat)
    requires ref < op && op + len + 2 <= out.Length
    modifies out
    ensures out[..op + len + 2] == CopyFrom(old(out[..op]), op - ref, len + 2)
    ensures out[op + len + 2..] == old(out[op + len + 2..])
  {
    if len > 9 && op >= ref + len + 2 {
      var n := len + 2;
      Store(out, op, out[..], ref, n);
      forall i | op <= i < op + n ensures out[..][i] == out[..][i - (op - ref)] {
        assert out[i] == out[op..op + n][i - op];
      }
      RepeatsIsCopy(old(out[..]), out[..], op - ref, op, n);
      assert old(out[..])[..op] == old(out[..op]) && out[..][..op + n] == out[..op + n];
    } else {
      IncrementalCopy(out, op - ref, op, len + 2);
    }
  }

  method PutReference(input: seq<byte>, inLen: nat, ip0: nat, out: array<byte>, outLen: nat, op0: nat)
    returns (ip: nat, op: nat, err: Errno)
    requires ip0 < ReadLength(inLen) <= |input| && input[ip0] >= 32 && op0 <= outLen <= out.Length
    modifies out
    ensures out[outLen..] == old(out[outLen..])
    ensures var c := Rest(input, inLen, ip0);
            && err == ReferenceCheck(c, op0, outLen)
            && (err == NoError ==>
                  && ip == ip0 + HeaderSize(c[0]) && op <= outLen
                  && out[..op] == CopyFrom(old(out[..op0]), RefOffset(c), RefLength(c)))
  {
    op := op0;
    var len: nat, ref;
    ip, len, ref, err := ReadReference(input, inLen, ip0, op0);
    if err != NoError {
      return;
    }
    if op + len + 2 > outLen {
      return ip, op, E2BIG;
    }
    if ref < 0 {
      return ip, op, EINVAL;
    }
    CopyReference(out, ref, op, len);
    op := op + len + 2;
    assert out[outLen..] == out[op..][outLen - op..];
  }

  /**
   The whole decoder: it succeeds exactly when the bounded decoder does, with the same output, and
   otherwise reports the same error; nothing is stored past `outLen`.
   */
  method Decompress(input: seq<byte>, inLen: nat, out: array<byte>, outLen: nat) returns (n: nat, err: Errno)
    requires ReadLength(inLen) <= |input| && outLen <= out.Length
    modifies out
    ensures out[outLen..] == old(out[outLen..])
    ensures match DecodeWithin(input[..ReadLength(inLen)], [], outLen)
            case Done(r) => err == NoError && n == |r| <= outLen && out[..n] == r
            case TooBig => n == 0 && err == E2BIG
            case Invalid => n == 0 && err == EINVAL
  {
    var ip: nat, op: nat := 0, 0;
    assert Rest(input, inLen, 0) == input[..ReadLength(inLen)] && out[..op] == [];
    ghost var result := Continue(input, inLen, 0, [], outLen, NoError);
    while true
      invariant ip < ReadLength(inLen) && op <= outLen && out[outLen..] == old(out[outLen..])
      invariant result == Continue(input, inLen, ip, out[..op], outLen, NoError)
      decreases inLen - ip
    {
      if input[ip] < 32 {
        LiteralStep(input, inLen, ip, out[..op], outLen);
        ip, op, err := PutLiterals(input, inLen, ip, out, outLen, op);
      } else {
        ReferenceStep(input, inLen, ip, out[..op], outLen);
        ip, op, err := PutReference(input, inLen, ip, out, outLen, op);
      }
      if err != NoError {
        return 0, err;
      }
      if ip >= inLen {
        break;
      }
    }
    return op, NoError;
  }

  /** An input of no bytes always fails, whatever byte happens to stand where it would begin. */
  lemma EmptyInputFails(stale: byte, limit: nat)
    ensures !DecodeWithin([stale], [], limit).Done?
  {
  }

  /** Zero means failure only: every complete input produces something. */
  lemma {:induction false} OutputGrows(c: seq<byte>, out: seq<byte>, limit: nat)
    requires c != [] && DecodeWithin(c, out, limit).Done?
    ensures |DecodeWithin(c, out, limit).out| > |out|
    decreases |c|
  {
    if c[0] < 32 {
      var n := c[0] + 1;
      if |c| > 1 + n {
        OutputGrows(c[1 + n..], out + c[1..1 + n], limit);
      }
    } else {
      CopyFromRepeats(out, RefOffset(c), RefLength(c));
      if |c| > HeaderSize(c[0]) {
        OutputGrows(c[HeaderSize(c[0])..], CopyFrom(out, RefOffset(c), RefLength(c)), limit);
      }
    }
  }
}
