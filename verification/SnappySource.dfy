/** The scatter/gather byte source: a list of fragments and a position in it. */
module SnappySource {
  import opened Bytes

  function Flatten(fragments: seq<seq<byte>>): (s: seq<byte>) {
    if fragments == [] then [] else fragments[0] + Flatten(fragments[1..])
  }

  /** No fragment with bytes in it stands behind an empty one, which the source takes for the end. */
  ghost predicate Orderly(iov: seq<seq<byte>>) {
    forall i, j :: 0 <= i < j < |iov| && iov[i] == [] ==> iov[j] == []
  }

  ghost predicate ValidIov(iov: seq<seq<byte>>) {
    |iov| >= 1 && Orderly(iov)
  }

  /** The bytes of the fragments from `vec` on, up to the first empty one. */
  function SeenFrom(iov: seq<seq<byte>>, vec: nat): (s: seq<byte>)
    requires vec <= |iov|
    decreases |iov| - vec
  {
    if vec == |iov| || iov[vec] == [] then [] else iov[vec] + SeenFrom(iov, vec + 1)
  }

  /** What is seen from position `off` of fragment `vec` on: an empty fragment looks like the end. */
  function Seen(iov: seq<seq<byte>>, vec: nat, off: nat): (s: seq<byte>)
    requires vec < |iov| && off <= |iov[vec]|
  {
    if iov[vec] == [] then [] else iov[vec][off..] + SeenFrom(iov, vec + 1)
  }

  lemma {:induction false} NothingLeft(fragments: seq<seq<byte>>)
    requires forall i :: 0 <= i < |fragments| ==> fragments[i] == []
    ensures Flatten(fragments) == []
  {
    if fragments != [] {
      NothingLeft(fragments[1..]);
    }
  }

  lemma {:induction false} SeenIsFlat(iov: seq<seq<byte>>, vec: nat)
    requires Orderly(iov) && vec <= |iov|
    ensures SeenFrom(iov, vec) == Flatten(iov[vec..])
    decreases |iov| - vec
  {
    if vec < |iov| {
      assert iov[vec..][1..] == iov[vec + 1..];
      if iov[vec] == [] {
        NothingLeft(iov[vec..]);
      } else {
        SeenIsFlat(iov, vec + 1);
      }
    }
  }

  /** Without an empty fragment before others everything is seen. */
  lemma OrderlyIsSeen(iov: seq<seq<byte>>)
    requires ValidIov(iov)
    ensures Seen(iov, 0, 0) == Flatten(iov)
  {
    SeenIsFlat(iov, 0);
    assert iov[0..] == iov && iov[0][0..] == iov[0];
  }

  lemma Advance(iov: seq<seq<byte>>, vec: nat, off: nat, n: nat)
    requires vec < |iov| && off + n <= |iov[vec]|
    ensures n <= |Seen(iov, vec, off)| && Seen(iov, vec, off + n) == Seen(iov, vec, off)[n..]
  {
    if iov[vec] != [] {
      DropFront(iov[vec], off, n, SeenFrom(iov, vec + 1));
    }
  }

  lemma DropFront(fragment: seq<byte>, off: nat, n: nat, more: seq<byte>)
    requires off + n <= |fragment|
    ensures (fragment[off..] + more)[n..] == fragment[off + n..] + more
  {
  }

  lemma NextFragment(iov: seq<seq<byte>>, vec: nat)
    requires vec + 1 < |iov| && iov[vec] != []
    ensures Seen(iov, vec, |iov[vec]|) == Seen(iov, vec + 1, 0)
  {
    assert iov[vec + 1][0..] == iov[vec + 1];
  }

  class Source {
    const iov: seq<seq<byte>>
    var curvec: nat
    var curoff: nat
    ghost var rest: seq<byte>  // the bytes seen and not consumed yet

    constructor (fragments: seq<seq<byte>>)
      requires |fragments| >= 1
      ensures Valid() && iov == fragments && rest == Seen(fragments, 0, 0) && Peek() == fragments[0]
    {
      iov, curvec, curoff, rest := fragments, 0, 0, Seen(fragments, 0, 0);
    }

    ghost predicate Valid()
      reads this
    {
      && curvec < |iov| && curoff <= |iov[curvec]| && rest == Seen(iov, curvec, curoff)
      && (curoff == |iov[curvec]| ==> curvec == |iov| - 1 || iov[curvec] == [])
    }

    /** At an empty fragment with bytes behind it. */
    ghost predicate Gap()
      reads this
    {
      curvec + 1 < |iov| && iov[curvec] == [] && iov[curvec + 1] != []
    }

    /** The rest of the current fragment; empty only where nothing more is seen. */
    function Peek(): (s: seq<byte>)
      requires curvec < |iov| && curoff <= |iov[curvec]|
      reads this
      ensures Valid() ==> s <= rest && (s == [] ==> rest == [])
    {
      iov[curvec][curoff..]
    }

    /** What is seen lies in the current fragment. */
    ghost predicate Lone()
      reads this
    {
      Valid() && rest == Peek()
    }

    /**
     Consumes `n` of the peeked bytes, moving to the next fragment when the current one is used up. Skipping
     nothing in front of a gap is the one way to see what lies behind it.
     */
    method Skip(n: nat)
      requires Valid() && n <= |Peek()|
      modifies this
      ensures Valid() && (n > 0 || !old(Gap()) ==> rest == old(rest)[n..] && (old(Lone()) ==> Lone()))
    {
      Advance(iov, curvec, curoff, n);
      rest := rest[n..];
      curoff := curoff + n;
      if curoff >= |iov[curvec]| && curvec + 1 < |iov| {
        if iov[curvec] != [] {
          NextFragment(iov, curvec);
        } else {
          rest := Seen(iov, curvec + 1, 0);
        }
        curoff := 0;
        curvec := curvec + 1;
      }
    }
  }
}
