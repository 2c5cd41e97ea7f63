/** Measuring a match: whole words at a time, then the lowest differing bit. */
module SnappyMatch {
  import opened Bytes

  /** Bitwise exclusive or of unsigned words. */
  function Xor(a: nat, b: nat): (x: nat)
    decreases a + b
  {
    if a == 0 && b == 0 then 0
    else 2 * Xor(a / 2, b / 2) + if a % 2 == b % 2 then 0 else 1
  }

  /** Number of zero bits below the lowest set bit. */
  function LowestSetBit(n: nat): (k: nat)
    requires n > 0
  {
    if n % 2 == 1 then 0 else 1 + LowestSetBit(n / 2)
  }

  /** The shifting loop of `find_lsb_set_non_zero` and its 64-bit twin, on a non-zero word. */
  method FindLsbSetNonZero(word: nat) returns (result: nat)
    requires word > 0
    ensures result == LowestSetBit(word)
  {
    var n := word;
    result := 0;
    while n % 2 == 0
      invariant n > 0
      decreases n
      invariant LowestSetBit(word) == result + LowestSetBit(n)
    {
      result := result + 1;
      n := n / 2;
    }
  }

  // ------------------------------------------- exclusive or, byte by byte

  /** Words given by their lowest bit and the rest. */
  lemma XorBit(u: nat, v: nat, x: nat, y: nat, h: nat, h': nat)
    requires x < 2 && y < 2 && u == x + 2 * h && v == y + 2 * h'
    ensures Xor(u, v) == (if x == y then 0 else 1) + 2 * Xor(h, h')
  {
    LowBitUnique(u, x, h);
    LowBitUnique(v, y, h');
  }

  lemma LowBitUnique(u: nat, x: nat, h: nat)
    requires x < 2 && u == x + 2 * h
    ensures u % 2 == x && u / 2 == h
  {
  }

  /** `a` shifted left by `k` bits. */
  function ShiftLeft(a: nat, k: nat): (r: nat)
    decreases k
  {
    if k == 0 then a else 2 * ShiftLeft(a, k - 1)
  }

  /** The low `k` bits and the rest are combined separately. */
  lemma {:induction false} XorLowBits(k: nat, x: nat, y: nat, a: nat, b: nat)
    requires x < ShiftLeft(1, k) && y < ShiftLeft(1, k)
    ensures Xor(x, y) < ShiftLeft(1, k)
    ensures Xor(x + ShiftLeft(a, k), y + ShiftLeft(b, k)) == Xor(x, y) + ShiftLeft(Xor(a, b), k)
  {
    if k > 0 {
      var x1, x0 := LowBit(x);
      var y1, y0 := LowBit(y);
      XorLowBits(k - 1, x1, y1, a, b);
      XorBit(x, y, x0, y0, x1, y1);
      XorBit(x + ShiftLeft(a, k), y + ShiftLeft(b, k), x0, y0, x1 + ShiftLeft(a, k - 1), y1 + ShiftLeft(b, k - 1));
    }
  }

  lemma LowBit(x: nat) returns (hi: nat, lo: nat)
    ensures x == lo + 2 * hi && lo < 2
  {
    hi, lo := x / 2, x % 2;
  }

  /** The low byte and the rest are combined separately. */
  lemma XorLowByte(x: byte, y: byte, a: nat, b: nat)
    ensures Xor(x, y) < 256
    ensures Xor(x + 256 * a, y + 256 * b) == Xor(x, y) + 256 * Xor(a, b)
  {
    XorLowBits(8, x, y, a, b);
    ShiftByte(1);
    ShiftByte(a);
    ShiftByte(b);
    ShiftByte(Xor(a, b));
  }

  lemma ShiftByte(a: nat)
    ensures ShiftLeft(a, 8) == 256 * a
  {
  }

  lemma {:induction false} XorIsZero(u: nat, v: nat)
    ensures Xor(u, v) == 0 <==> u == v
    decreases u + v
  {
    if u != 0 || v != 0 {
      XorIsZero(u / 2, v / 2);
    }
  }

  // ---------------------------------------------------- the lowest set bit

  lemma DoubledWord(t: nat)
    requires t > 0
    ensures LowestSetBit(2 * t) == 1 + LowestSetBit(t)
  {
    assert 2 * t / 2 == t;
  }

  lemma LowByteClear(t: nat)
    requires t > 0
    ensures LowestSetBit(256 * t) == 8 + LowestSetBit(t)
  {
    DoubledWord(t);
    DoubledWord(2 * t);
    DoubledWord(4 * t);
    DoubledWord(8 * t);
    DoubledWord(16 * t);
    DoubledWord(32 * t);
    DoubledWord(64 * t);
    DoubledWord(128 * t);
  }

  lemma EvenWord(n: nat)
    requires n > 0
    ensures LowestSetBit(n) > 0 ==> n % 2 == 0 && LowestSetBit(n) == 1 + LowestSetBit(n / 2)
  {
  }

  lemma {:induction false} LowBitsClear(n: nat, k: nat) returns (m: nat)
    requires n > 0 && LowestSetBit(n) >= k
    ensures n == ShiftLeft(m, k)
  {
    if k == 0 {
      m := n;
    } else {
      EvenWord(n);
      m := LowBitsClear(n / 2, k - 1);
    }
  }

  lemma LowByteSet(z: byte, t: nat)
    requires z > 0
    ensures LowestSetBit(z + 256 * t) < 8
  {
    if LowestSetBit(z + 256 * t) >= 8 {
      var m := LowBitsClear(z + 256 * t, 8);
      ShiftByte(m);
      assert false;
    }
  }

  /** `n` is how far the bytes of `p` from `a` and of `q` from `b` agree before `limit`. */
  ghost predicate IsMatchLength(p: seq<byte>, a: nat, q: seq<byte>, b: nat, limit: nat, n: nat)
    requires b <= limit <= |q| && a + (limit - b) <= |p|
  {
    && b + n <= limit
    && (forall i :: b <= i < b + n ==> q[i] == p[i - b + a])
    && (b + n == limit || q[b + n] != p[a + n])
  }

  /** The number of low bytes two different words have in common. */
  function EqualLowBytes(u: nat, v: nat): (n: nat)
    requires u != v
    decreases u + v
  {
    if u % 256 != v % 256 then 0 else 1 + EqualLowBytes(u / 256, v / 256)
  }

  /** Dividing the position of the lowest set bit by eight counts the bytes in common. */
  lemma {:induction false} LowestBitCountsBytes(u: nat, v: nat)
    requires u != v
    ensures Xor(u, v) > 0
    ensures LowestSetBit(Xor(u, v)) / 8 == EqualLowBytes(u, v)
    decreases u + v
  {
    DifferenceInWord(u, v);
    if u % 256 == v % 256 {
      LowestBitCountsBytes(u / 256, v / 256);
    }
  }

  lemma DifferenceInWord(u: nat, v: nat)
    requires u != v
    ensures Xor(u, v) > 0
    ensures u % 256 == v % 256 ==> Xor(u / 256, v / 256) > 0
    ensures LowestSetBit(Xor(u, v)) / 8
         == if u % 256 == v % 256 then LowestSetBit(Xor(u / 256, v / 256)) / 8 + 1 else 0
  {
    var a, x := LowByte(u);
    var b, y := LowByte(v);
    XorLowByte(x, y, a, b);
    XorIsZero(x, y);
    XorIsZero(a, b);
    if x == y {
      LowByteClear(Xor(a, b));
    } else {
      LowByteSet(Xor(x, y), Xor(a, b));
    }
  }

  lemma LowByte(u: nat) returns (hi: nat, lo: byte)
    ensures hi == u / 256 && lo == u % 256 && u == lo + 256 * hi
  {
    hi, lo := u / 256, u % 256;
  }

  lemma LowByteOf(u: nat, lo: byte, hi: nat)
    requires u == lo + 256 * hi
    ensures u % 256 == lo && u / 256 == hi
  {
  }

  /** For loaded words the bytes in common are the equal leading bytes in memory. */
  lemma {:induction false} FirstDifferingByte(p: seq<byte>, a: nat, q: seq<byte>, b: nat, k: nat, u: nat, v: nat)
    requires a + k <= |p| && b + k <= |q|
    requires u == LoadLE(q, b, k) && v == LoadLE(p, a, k) && u != v
    ensures EqualLowBytes(u, v) < k && q[b + EqualLowBytes(u, v)] != p[a + EqualLowBytes(u, v)]
    ensures forall i :: b <= i < b + EqualLowBytes(u, v) ==> q[i] == p[i - b + a]
    decreases k
  {
    var hb, ha := LoadLE(q, b + 1, k - 1), LoadLE(p, a + 1, k - 1);
    LowByteOf(u, q[b], hb);
    LowByteOf(v, p[a], ha);
    if p[a] == q[b] {
      FirstDifferingByte(p, a + 1, q, b + 1, k - 1, hb, ha);
    }
  }

  method SameWord(p: seq<byte>, a: nat, q: seq<byte>, b: nat, w: nat) returns (same: bool)
    requires a + w <= |p| && b + w <= |q|
    ensures same ==> forall i :: b <= i < b + w ==> q[i] == p[i - b + a]
    ensures !same ==> exists i :: b <= i < b + w && q[i] != p[i - b + a]
  {
    LoadInjective(q, b, p, a, w);
    same := LoadLE(q, b, w) == LoadLE(p, a, w);
    SlicesAgree(p, a, q, b, w);
  }

  lemma SlicesAgree(p: seq<byte>, a: nat, q: seq<byte>, b: nat, w: nat)
    requires a + w <= |p| && b + w <= |q|
    ensures q[b..b + w] == p[a..a + w] <==> forall i :: b <= i < b + w ==> q[i] == p[i - b + a]
  {
    if q[b..b + w] == p[a..a + w] {
      forall i | b <= i < b + w ensures q[i] == p[i - b + a] {
        assert q[i] == q[b..b + w][i - b] == p[a..a + w][i - b];
      }
    }
  }

  /** Exclusive or, lowest set bit, divided by eight: the number of equal leading bytes. */
  method EqualLeadingBytes(p: seq<byte>, a: nat, q: seq<byte>, b: nat, w: nat) returns (n: nat)
    requires a + w <= |p| && b + w <= |q|
    requires exists i :: b <= i < b + w && q[i] != p[i - b + a]
    ensures n < w && q[b + n] != p[a + n]
    ensures forall i :: b <= i < b + n ==> q[i] == p[i - b + a]
  {
    LoadInjective(q, b, p, a, w);
    SlicesAgree(p, a, q, b, w);
    var u, v := LoadLE(q, b, w), LoadLE(p, a, w);
    LowestBitCountsBytes(u, v);
    FirstDifferingByte(p, a, q, b, w, u, v);
    var matchingBits := FindLsbSetNonZero(Xor(u, v));
    n := matchingBits / 8;
  }

  /** The 64-bit form; the two regions may lie in the same buffer and overlap. */
  method FindMatchLength(p: seq<byte>, s1: nat, q: seq<byte>, start: nat, limit: nat) returns (matched: nat)
    requires start <= limit <= |q| && s1 + (limit - start) <= |p|
    ensures IsMatchLength(p, s1, q, start, limit, matched)
  {
    matched := MatchWordThenReturn(p, s1, q, start, limit, 8);
  }

  /** The 32-bit little-endian form. */
  method FindMatchLength32(p: seq<byte>, s1: nat, q: seq<byte>, start: nat, limit: nat) returns (matched: nat)
    requires start <= limit <= |q| && s1 + (limit - start) <= |p|
    ensures IsMatchLength(p, s1, q, start, limit, matched)
  {
    matched := MatchWhileEqual(p, s1, q, start, limit, 4);
  }

  /** The loops of the 64-bit form, for words of `w` bytes. */
  method MatchWordThenReturn(p: seq<byte>, s1: nat, q: seq<byte>, start: nat, limit: nat, w: nat) returns (matched: nat)
    requires start <= limit <= |q| && s1 + (limit - start) <= |p| && w > 0
    ensures IsMatchLength(p, s1, q, start, limit, matched)
  {
    var s2 := start;
    matched := 0;
    while s2 <= limit - w
      invariant s2 == start + matched <= limit
      invariant forall i :: start <= i < s2 ==> q[i] == p[i - start + s1]
    {
      var same := SameWord(p, s1 + matched, q, s2, w);
      if same {
        s2, matched := s2 + w, matched + w;
      } else {
        var n := EqualLeadingBytes(p, s1 + matched, q, s2, w);
        matched := matched + n;
        return;
      }
    }
    while s2 < limit
      invariant s2 == start + matched <= limit
      invariant forall i :: start <= i < s2 ==> q[i] == p[i - start + s1]
    {
      if p[s1 + matched] == q[s2] {
        s2, matched := s2 + 1, matched + 1;
      } else {
        return;
      }
    }
  }

  /** The loops of the 32-bit form, for words of `w` bytes. */
  method MatchWhileEqual(p: seq<byte>, s1: nat, q: seq<byte>, start: nat, limit: nat, w: nat) returns (matched: nat)
    requires start <= limit <= |q| && s1 + (limit - start) <= |p| && w > 0
    ensures IsMatchLength(p, s1, q, start, limit, matched)
  {
    var s2 := start;
    matched := 0;
    while s2 <= limit - w
      invariant s2 == start + matched <= limit
      invariant forall i :: start <= i < s2 ==> q[i] == p[i - start + s1]
    {
      var same := SameWord(p, s1 + matched, q, s2, w);
      if !same { break; }
      s2, matched := s2 + w, matched + w;
    }
    if s2 <= limit - w {
      var n := EqualLeadingBytes(p, s1 + matched, q, s2, w);
      matched := matched + n;
    } else {
      while s2 < limit && p[s1 + matched] == q[s2]
        invariant s2 == start + matched <= limit
        invariant forall i :: start <= i < s2 ==> q[i] == p[i - start + s1]
      {
        s2, matched := s2 + 1, matched + 1;
      }
    }
  }

  /** No other length is a match length, so both forms return the same number. */
  lemma MatchLengthUnique(p: seq<byte>, a: nat, q: seq<byte>, b: nat, limit: nat, m: nat, n: nat)
    requires b <= limit <= |q| && a + (limit - b) <= |p|
    requires IsMatchLength(p, a, q, b, limit, m) && IsMatchLength(p, a, q, b, limit, n)
    ensures m == n
  {
    if n < m {
      assert false;
    } else if m < n {
      assert false;
    }
  }
}
