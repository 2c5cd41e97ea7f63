/** Bytes, machine words and the little-endian loads shared by both codecs. */
module Bytes {
  type byte = b: int | 0 <= b < 256
  type u16 = w: int | 0 <= w < 0x1_0000
  type u32 = w: int | 0 <= w < 0x1_0000_0000

  datatype Option<+T> = None | Some(value: T)

  /** The little-endian word held by the `k` bytes of `s` that start at `i`. */
  function LoadLE(s: seq<byte>, i: nat, k: nat): (v: nat)
    requires i + k <= |s|
    decreases k
  {
    if k == 0 then 0 else s[i] + 256 * LoadLE(s, i + 1, k - 1)
  }

  /** `2` to the power `k`. */
  function PowerOfTwo(k: nat): (p: nat)
    ensures p >= 1
  {
    if k == 0 then 1 else 2 * PowerOfTwo(k - 1)
  }

  /** `256` to the power `k`. */
  function Pow256(k: nat): (p: nat)
    ensures p >= 1
  {
    if k == 0 then 1 else 256 * Pow256(k - 1)
  }

  /** A load depends only on the bytes it covers, wherever they are stored. */
  lemma {:induction false} LoadLocal(s: seq<byte>, i: nat, t: seq<byte>, j: nat, k: nat)
    requires i + k <= |s| && j + k <= |t|
    requires s[i..i + k] == t[j..j + k]
    ensures LoadLE(s, i, k) == LoadLE(t, j, k)
    decreases k
  {
    if k > 0 {
      assert s[i] == s[i..i + k][0] == t[j..j + k][0] == t[j];
      assert s[i + 1..i + k] == s[i..i + k][1..] == t[j..j + k][1..] == t[j + 1..j + k];
      LoadLocal(s, i + 1, t, j + 1, k - 1);
    }
  }

  /** A `k`-byte load is below 256 to the power `k`, and equal loads come from equal bytes. */
  lemma {:induction false} LoadInjective(s: seq<byte>, i: nat, t: seq<byte>, j: nat, k: nat)
    requires i + k <= |s| && j + k <= |t|
    ensures LoadLE(s, i, k) < Pow256(k)
    ensures LoadLE(s, i, k) == LoadLE(t, j, k) <==> s[i..i + k] == t[j..j + k]
    decreases k
  {
    if k > 0 {
      LoadInjective(s, i + 1, t, j + 1, k - 1);
      assert s[i..i + k] == [s[i]] + s[i + 1..i + k];
      assert t[j..j + k] == [t[j]] + t[j + 1..j + k];
      if s[i..i + k] == t[j..j + k] {
        LoadLocal(s, i, t, j, k);
      }
    }
  }

  /** Keeping the low `k` bytes of a wider load gives the narrower load. */
  lemma {:induction false} LoadMasked(s: seq<byte>, i: nat, k: nat, n: nat)
    requires k <= n && i + n <= |s|
    ensures LoadLE(s, i, n) % Pow256(k) == LoadLE(s, i, k)
    decreases k
  {
    LoadInjective(s, i, s, i, k);
    if k > 0 {
      LoadMasked(s, i + 1, k - 1, n - 1);
      var hi, p := LoadLE(s, i + 1, n - 1), Pow256(k - 1);
      ModScale(s[i], hi, p);
    } else {
      assert LoadLE(s, i, n) % 1 == 0;
    }
  }

  /** Reducing `lo + 256 * hi` modulo `256 * p` leaves the low digit alone. */
  lemma ModScale(lo: byte, hi: nat, p: nat)
    requires p >= 1
    ensures (lo + 256 * hi) % (256 * p) == lo + 256 * (hi % p)
  {
    var q, r := hi / p, hi % p;
    assert hi == p * q + r;
    assert lo + 256 * hi == (256 * p) * q + (lo + 256 * r);
    ModUnique(256 * p, q, lo + 256 * r);
  }

  /** Quotient and remainder are determined by the division equation. */
  lemma ModUnique(d: nat, q: nat, r: nat)
    requires r < d
    ensures (d * q + r) % d == r && (d * q + r) / d == q
  {
    DivisionUnique(d, q, r, (d * q + r) / d, (d * q + r) % d);
  }

  lemma DivisionUnique(d: nat, q: nat, r: nat, q': nat, r': nat)
    requires r < d && r' < d
    requires d * q + r == d * q' + r'
    ensures q == q' && r == r'
  {
    if q < q' {
      MulMonotone(d, q + 1, q');
    } else if q' < q {
      MulMonotone(d, q' + 1, q);
    }
  }

  lemma MulMonotone(d: nat, a: nat, b: nat)
    requires a <= b
    ensures d * a <= d * b
  {
  }
}
