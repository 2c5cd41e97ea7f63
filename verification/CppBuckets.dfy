/** The buckets of the macro table: an array of linked chains, relinked in place. */
module CppBuckets {
  datatype How = PREDEF | CMDLINE | DEFINE
  datatype Def = Def(name: string, nargs: int, repl: string, how: How)

  /** A definition and the link to the next one in its chain. */
  class Node {
    var def: Def
    var link: Node?
    ghost var home: nat  // the bucket it is linked into

    constructor (d: Def, next: Node?, ghost bucket: nat)
      ensures def == d && link == next && home == bucket
    {
      def, link, home := d, next, bucket;
    }
  }

  function At(ns: seq<Node>, i: nat): (n: Node?) {
    if i < |ns| then ns[i] else null
  }

  function Without<T>(b: seq<T>, i: nat): (r: seq<T>)
    requires i < |b|
  {
    b[..i] + b[i + 1..]
  }

  ghost predicate Owned(ns: seq<Node>, nodes: set<Node>) {
    forall i :: 0 <= i < |ns| ==> ns[i] in nodes
  }

  lemma OwnedWithout(ns: seq<Node>, nodes: set<Node>, i: nat)
    requires Owned(ns, nodes) && i < |ns|
    ensures Owned(Without(ns, i), nodes)
  {
  }

  /** From `head` on the links lead through the nodes `ns`, which hold the definitions `ds`. */
  ghost predicate Chain(head: Node?, ns: seq<Node>, ds: seq<Def>, bucket: nat)
    reads ns
  {
    && |ns| == |ds| && head == At(ns, 0)
    && (forall i :: 0 <= i < |ns| ==> ns[i].def == ds[i] && ns[i].link == At(ns, i + 1) && ns[i].home == bucket)
    && (forall i, j :: 0 <= i < j < |ns| ==> ns[i] != ns[j])
  }

  lemma Prepended(d: Node, ns: seq<Node>, ds: seq<Def>, bucket: nat)
    requires Chain(d.link, ns, ds, bucket) && d !in ns && d.home == bucket
    ensures Chain(d, [d] + ns, [d.def] + ds, bucket)
  {
    var ns', ds' := [d] + ns, [d.def] + ds;
    forall i | 0 <= i < |ns'|
      ensures ns'[i].def == ds'[i] && ns'[i].link == At(ns', i + 1) && ns'[i].home == bucket
    {
      if i > 0 {
        assert ns'[i] == ns[i - 1] && ds'[i] == ds[i - 1] && At(ns', i + 1) == At(ns, i);
      } else {
        assert At(ns', 1) == At(ns, 0);
      }
    }
  }

  class Buckets {
    const heads: array<Node?>
    ghost var chains: seq<seq<Node>>
    ghost var table: seq<seq<Def>>
    ghost var nodes: set<Node>

    /** Bucket `h` is a chain of the table's own nodes. */
    ghost predicate ChainAt(h: nat)
      requires h < |chains| == |table| == heads.Length && Owned(chains[h], nodes)
      reads this, heads, nodes
    {
      Chain(heads[h], chains[h], table[h], h)
    }

    ghost predicate Valid()
      reads this, heads, nodes
    {
      && |chains| == |table| == heads.Length
      && (forall h :: 0 <= h < |chains| ==> Owned(chains[h], nodes) && |chains[h]| == |table[h]|)
      && (forall h {:trigger ChainAt(h)} :: 0 <= h < |chains| ==> ChainAt(h))
    }

    /** A place in a chain: the node there and the one before it. */
    ghost predicate Cursor(h: nat, prev: Node?, d: Node?, i: nat)
      reads this
    {
      && |chains| == |table| && h < |chains| && i <= |chains[h]| == |table[h]| && d == At(chains[h], i)
      && prev == if i == 0 then null else chains[h][i - 1]
    }

    constructor (size: nat)
      ensures Valid() && fresh(heads) && nodes == {} && heads.Length == size
      ensures table == seq(size, _ => [])
    {
      heads := new Node?[size](_ => null);
      chains, table, nodes := seq(size, _ => []), seq(size, _ => []), {};
    }

    /** Walk a chain to the node of that name, keeping the node before it. */
    method Search(h: nat, name: string) returns (prev: Node?, d: Node?, ghost i: nat)
      requires Valid() && h < heads.Length
      ensures i <= |chains[h]| && d == At(chains[h], i) && prev == if i == 0 then null else chains[h][i - 1]
      ensures forall k :: 0 <= k < i ==> table[h][k].name != name
      ensures i < |chains[h]| ==> table[h][i].name == name
    {
      prev, d, i := null, heads[h], 0;
      assert ChainAt(h);
      while d != null && d.def.name != name
        invariant i <= |chains[h]| && d == At(chains[h], i) && prev == if i == 0 then null else chains[h][i - 1]
        invariant forall k :: 0 <= k < i ==> table[h][k].name != name
        decreases |chains[h]| - i
      {
        prev, d, i := d, d.link, i + 1;
      }
    }

    /** A node is in no chain but that of its home. */
    lemma AtHomeOnly(h: nat, k: nat, i: nat)
      requires Valid() && h < |chains| && k < |chains| && h != k && i < |chains[h]|
      ensures chains[h][i] !in chains[k]
    {
      assert ChainAt(h) && ChainAt(k);
    }

    /** A node that leads to the chain becomes its head. */
    method Enter(h: nat, d: Node)
      requires Valid() && h < heads.Length && d !in nodes && d.link == heads[h] && d.home == h
      modifies this, heads
      ensures Valid() && table == old(table)[h := [d.def] + old(table)[h]] && nodes == old(nodes) + {d}
    {
      ghost var ns, ds := chains[h], table[h];
      assert ChainAt(h) && d !in ns;
      Prepended(d, ns, ds, h);
      heads[h] := d;
      chains, table, nodes := chains[h := [d] + ns], table[h := [d.def] + ds], nodes + {d};
      forall k | 0 <= k < |chains| ensures ChainAt(k) {
        if k != h {
          assert old(ChainAt(k));
        }
      }
    }

    /** A new node at the front of a chain. */
    method Insert(h: nat, def: Def)
      requires Valid() && h < heads.Length
      modifies this, heads
      ensures Valid() && table == old(table)[h := [def] + old(table)[h]] && fresh(nodes - old(nodes))
    {
      var d := new Node(def, heads[h], h);
      forall k | 0 <= k < |chains| ensures ChainAt(k) {
        assert old(ChainAt(k));
      }
      Enter(h, d);
    }

    /** A node from elsewhere is linked in at the front of a chain; what it was linked to is overwritten. */
    method Relink(h: nat, d: Node)
      requires Valid() && h < heads.Length && d !in nodes
      modifies this, heads, d
      ensures Valid() && table == old(table)[h := [d.def] + old(table)[h]]
      ensures nodes == old(nodes) + {d} && d.def == old(d.def)
    {
      assert ChainAt(h) && d !in chains[h];
      d.link := heads[h];
      d.home := h;
      forall k | 0 <= k < |chains| ensures ChainAt(k) {
        assert old(ChainAt(k)) && d !in chains[k];
      }
      Enter(h, d);
    }

    /** Another definition in a node. */
    method Replace(d: Node, def: Def, ghost h: nat, ghost i: nat)
      requires Valid() && h < |chains| && i < |chains[h]| && d == chains[h][i]
      modifies this`table, d`def
      ensures Valid() && table == old(table)[h := old(table)[h][i := def]]
    {
      assert ChainAt(h);
      d.def := def;
      table := table[h := table[h][i := def]];
      forall k | 0 <= k < |chains| ensures ChainAt(k) {
        if k != h {
          assert old(ChainAt(k)) && d !in chains[k];
        }
      }
    }

    /** A node is unlinked: the link that led to it leads to its successor. */
    method Unlink(h: nat, prev: Node?, d: Node, ghost i: nat)
      requires Valid() && h < heads.Length && i < |chains[h]| && d == chains[h][i]
      requires prev == if i == 0 then null else chains[h][i - 1]
      modifies this, heads, nodes
      ensures Valid() && nodes == old(nodes)
      ensures table == old(table)[h := Without(old(table)[h], i)]
      ensures chains == old(chains)[h := Without(old(chains)[h], i)]
    {
      ghost var cs, ts := chains, table;
      OwnedWithout(cs[h], nodes, i);
      LinkPast(h, prev, d, i);
      chains, table := cs[h := Without(cs[h], i)], ts[h := Without(ts[h], i)];
      forall k | 0 <= k < |chains| ensures ChainAt(k) {
        assert k != h ==> chains[k] == cs[k] && table[k] == ts[k];
      }
    }

    /** `*dp = d->link`, where `dp` is the bucket's head or the link of the node before. */
    method LinkPast(h: nat, prev: Node?, d: Node, ghost i: nat)
      requires Valid() && h < heads.Length && i < |chains[h]| && d == chains[h][i]
      requires prev == if i == 0 then null else chains[h][i - 1]
      modifies heads, nodes
      ensures Chain(heads[h], Without(chains[h], i), Without(table[h], i), h)
      ensures forall k :: 0 <= k < |chains| && k != h ==> Chain(heads[k], chains[k], table[k], k)
    {
      ghost var ns, ds := chains[h], table[h];
      assert ChainAt(h);
      if prev == null {
        heads[h] := d.link;
      } else {
        forall k | 0 <= k < |chains| && k != h ensures prev !in chains[k] {
          AtHomeOnly(h, k, i - 1);
        }
        prev.link := d.link;
      }
      Removed(heads[h], ns, ds, i, h);
      forall k | 0 <= k < |chains| && k != h ensures Chain(heads[k], chains[k], table[k], k) {
        assert old(ChainAt(k));
      }
    }
  }

  lemma WithoutAt<T>(s: seq<T>, i: nat, j: nat)
    requires i < |s| && j < |s| - 1
    ensures Without(s, i)[j] == s[if j < i then j else j + 1]
  {
  }

  lemma NextWithout(ns: seq<Node>, i: nat, j: nat)
    requires i < |ns| && j < |ns| - 1
    ensures At(Without(ns, i), j + 1) == if j + 1 == i then At(ns, i + 1) else At(ns, if j < i then j + 1 else j + 2)
  {
    if j + 1 < |ns| - 1 {
      WithoutAt(ns, i, j + 1);
    }
  }

  lemma RemovedLinks(ns: seq<Node>, ds: seq<Def>, i: nat, bucket: nat, j: nat)
    requires i < |ns| == |ds| && j < |ns| - 1
    requires forall j :: 0 <= j < |ns| ==> ns[j].def == ds[j] && ns[j].home == bucket
    requires forall j :: 0 <= j < |ns| ==> ns[j].link == if j + 1 == i then At(ns, i + 1) else At(ns, j + 1)
    ensures var n := Without(ns, i)[j];
            n.def == Without(ds, i)[j] && n.link == At(Without(ns, i), j + 1) && n.home == bucket
  {
    WithoutAt(ns, i, j);
    WithoutAt(ds, i, j);
    NextWithout(ns, i, j);
  }

  lemma RemovedDistinct(ns: seq<Node>, i: nat, j: nat, k: nat)
    requires i < |ns| && j < k < |ns| - 1 && forall j, k :: 0 <= j < k < |ns| ==> ns[j] != ns[k]
    ensures Without(ns, i)[j] != Without(ns, i)[k]
  {
    WithoutAt(ns, i, j);
    WithoutAt(ns, i, k);
  }

  lemma Removed(head: Node?, ns: seq<Node>, ds: seq<Def>, i: nat, bucket: nat)
    requires i < |ns| == |ds| && head == if i == 0 then At(ns, 1) else At(ns, 0)
    requires forall j :: 0 <= j < |ns| ==> ns[j].def == ds[j] && ns[j].home == bucket
    requires forall j :: 0 <= j < |ns| ==> ns[j].link == if j + 1 == i then At(ns, i + 1) else At(ns, j + 1)
    requires forall j, k :: 0 <= j < k < |ns| ==> ns[j] != ns[k]
    ensures Chain(head, Without(ns, i), Without(ds, i), bucket)
  {
    var ns', ds' := Without(ns, i), Without(ds, i);
    forall j | 0 <= j < |ns'|
      ensures ns'[j].def == ds'[j] && ns'[j].link == At(ns', j + 1) && ns'[j].home == bucket
    {
      RemovedLinks(ns, ds, i, bucket, j);
    }
    forall j, k | 0 <= j < k < |ns'| ensures ns'[j] != ns'[k] {
      RemovedDistinct(ns, i, j, k);
    }
    if |ns'| > 0 {
      WithoutAt(ns, i, 0);
    }
  }
}
