/** The macro table: a chained hash table that grows, refining a map from names to definitions. */
module CppSymbols {
  import opened Bytes
  import opened CppBuckets

  const SIZES := [7, 37, 179, 719, 2003, 8009, 30011, 120011, 0]
  const WORD := 0x1_0000_0000_0000_0000

  /** The hash of the characters of `s` after `i`, in a 64-bit word. */
  function Mix(s: string, i: nat): (i': nat)
    decreases |s|
  {
    if s == [] then i else Mix(s[1..], (i / 256 + i * 8 + s[0] as int) % WORD)
  }

  function Hash(s: string, size: nat): (h: nat)
    requires size > 0
    ensures h < size
  {
    Mix(s, 0) % 0x8000_0000 % size
  }

  // -------------------------------------------------------------------
  // Tables as values
  // -------------------------------------------------------------------

  ghost predicate Has(b: seq<Def>, name: string) {
    exists i :: 0 <= i < |b| && b[i].name == name
  }

  /** Bucket `h` of a table of `size` buckets holds exactly the definitions that hash there, once each. */
  ghost predicate BucketOk(b: seq<Def>, h: nat, size: nat, defs: map<string, Def>)
    requires size > 0
  {
    && (forall i :: 0 <= i < |b| ==> b[i].name in defs && defs[b[i].name] == b[i] && Hash(b[i].name, size) == h)
    && (forall i, j :: 0 <= i < j < |b| ==> b[i].name != b[j].name)
    && (forall name :: name in defs && Hash(name, size) == h ==> Has(b, name))
  }

  function Bucket(t: seq<seq<Def>>, h: nat): (b: seq<Def>)
    requires h < |t|
  {
    t[h]
  }

  ghost predicate TableOk(t: seq<seq<Def>>, defs: map<string, Def>) {
    |t| > 0 && forall h {:trigger Bucket(t, h)} :: 0 <= h < |t| ==> BucketOk(Bucket(t, h), h, |t|, defs)
  }

  lemma BucketIsOk(t: seq<seq<Def>>, defs: map<string, Def>, h: nat)
    requires TableOk(t, defs) && h < |t|
    ensures BucketOk(t[h], h, |t|, defs)
  {
    assert Bucket(t, h) == t[h];
  }

  lemma FoundInBucket(t: seq<seq<Def>>, defs: map<string, Def>, name: string)
    requires TableOk(t, defs)
    ensures Has(t[Hash(name, |t|)], name) <==> name in defs
  {
    var b := t[Hash(name, |t|)];
    BucketIsOk(t, defs, Hash(name, |t|));
    if Has(b, name) {
      var i :| 0 <= i < |b| && b[i].name == name;
    }
  }

  /** A new definition at the front of its bucket. */
  lemma InsertOk(t: seq<seq<Def>>, defs: map<string, Def>, d: Def)
    requires TableOk(t, defs) && d.name !in defs
    ensures var h := Hash(d.name, |t|); TableOk(t[h := [d] + t[h]], defs[d.name := d])
  {
    var h, defs' := Hash(d.name, |t|), defs[d.name := d];
    var t' := t[h := [d] + t[h]];
    forall k | 0 <= k < |t'| ensures BucketOk(Bucket(t', k), k, |t'|, defs') {
      BucketIsOk(t, defs, k);
      forall name | name in defs' && Hash(name, |t|) == k ensures Has(t'[k], name) {
        if name == d.name {
          assert t'[k][0].name == name;
        } else {
          var i :| 0 <= i < |t[k]| && t[k][i].name == name;
          assert t'[k][if k == h then i + 1 else i].name == name;
        }
      }
    }
  }

  /** Another definition of the same name in the same place. */
  lemma ReplaceOk(t: seq<seq<Def>>, defs: map<string, Def>, i: nat, d: Def)
    requires TableOk(t, defs) && i < |t[Hash(d.name, |t|)]| && t[Hash(d.name, |t|)][i].name == d.name
    ensures var h := Hash(d.name, |t|); TableOk(t[h := t[h][i := d]], defs[d.name := d])
    ensures d.name in defs
  {
    var h, defs' := Hash(d.name, |t|), defs[d.name := d];
    BucketIsOk(t, defs, h);
    var t' := t[h := t[h][i := d]];
    forall k | 0 <= k < |t'| ensures BucketOk(Bucket(t', k), k, |t'|, defs') {
      BucketIsOk(t, defs, k);
      forall name | name in defs' && Hash(name, |t|) == k ensures Has(t'[k], name) {
        var m :| 0 <= m < |t[k]| && t[k][m].name == name;
        assert t'[k][m].name == name;
      }
    }
  }

  /** A definition unlinked from its chain. */
  lemma RemoveOk(t: seq<seq<Def>>, defs: map<string, Def>, h: nat, i: nat)
    requires TableOk(t, defs) && h < |t| && i < |t[h]|
    ensures TableOk(t[h := Without(t[h], i)], defs - {t[h][i].name})
    ensures t[h][i].name in defs
  {
    BucketIsOk(t, defs, h);
    var gone := t[h][i].name;
    var t', defs' := t[h := Without(t[h], i)], defs - {gone};
    forall k | 0 <= k < |t'| ensures BucketOk(Bucket(t', k), k, |t'|, defs') {
      BucketIsOk(t, defs, k);
      if k == h {
        BucketWithout(t[h], h, |t|, defs, i);
      } else {
        OtherBucket(t[k], k, |t|, defs, gone);
      }
    }
  }

  lemma BucketWithout(b: seq<Def>, h: nat, size: nat, defs: map<string, Def>, i: nat)
    requires size > 0 && BucketOk(b, h, size, defs) && i < |b|
    ensures BucketOk(Without(b, i), h, size, defs - {b[i].name})
  {
    forall name | name in defs - {b[i].name} && Hash(name, size) == h ensures Has(Without(b, i), name) {
      var m :| 0 <= m < |b| && b[m].name == name;
      assert Without(b, i)[if m > i then m - 1 else m].name == name;
    }
  }

  lemma OtherBucket(b: seq<Def>, k: nat, size: nat, defs: map<string, Def>, gone: string)
    requires size > 0 && BucketOk(b, k, size, defs) && Hash(gone, size) != k
    ensures BucketOk(b, k, size, defs - {gone})
  {
  }

  /** The definitions that survive `undef_predefs`. */
  function WithoutPredefs(defs: map<string, Def>): (r: map<string, Def>) {
    map name | name in defs && defs[name].how != PREDEF :: defs[name]
  }

  /** Only predefined macros are missing from `now`. */
  ghost predicate OnlyPredefsGone(was: map<string, Def>, now: map<string, Def>) {
    && (forall name :: name in now ==> name in was && now[name] == was[name])
    && (forall name :: name in was && name !in now ==> was[name].how == PREDEF)
  }

  lemma OneMoreGone(was: map<string, Def>, now: map<string, Def>, name: string)
    requires OnlyPredefsGone(was, now) && name in now && now[name].how == PREDEF
    ensures OnlyPredefsGone(was, now - {name})
  {
  }

  ghost predicate NoPredefs(b: seq<Def>) {
    forall i :: 0 <= i < |b| ==> b[i].how != PREDEF
  }

  lemma AllPredefsGone(t: seq<seq<Def>>, was: map<string, Def>, now: map<string, Def>)
    requires TableOk(t, now) && OnlyPredefsGone(was, now) && forall h :: 0 <= h < |t| ==> NoPredefs(t[h])
    ensures now == WithoutPredefs(was)
  {
    forall name | name in now ensures now[name].how != PREDEF {
      var b := t[Hash(name, |t|)];
      BucketIsOk(t, now, Hash(name, |t|));
      var i :| 0 <= i < |b| && b[i].name == name;
      assert NoPredefs(b);
    }
  }

  // -------------------------------------------------------------------
  // Moving to a larger table
  // -------------------------------------------------------------------

  /** The definitions of the names in `names`. */
  ghost function Restrict(defs: map<string, Def>, names: set<string>): (r: map<string, Def>) {
    map name | name in defs && name in names :: defs[name]
  }

  ghost function Names(b: seq<Def>): (r: set<string>) {
    set i | 0 <= i < |b| :: b[i].name
  }

  /** The names in the first `n` buckets of a table of `size`. */
  ghost function NamesBelow(defs: map<string, Def>, size: nat, n: nat): (r: set<string>)
    requires size > 0
  {
    set name | name in defs && Hash(name, size) < n
  }

  lemma NextBucketNames(b: seq<Def>, n: nat, size: nat, defs: map<string, Def>)
    requires size > 0 && BucketOk(b, n, size, defs)
    ensures NamesBelow(defs, size, n + 1) == NamesBelow(defs, size, n) + Names(b)
    ensures forall i :: 0 <= i < |b| ==> b[i].name !in NamesBelow(defs, size, n)
  {
    forall name | name in NamesBelow(defs, size, n + 1) ensures name in NamesBelow(defs, size, n) + Names(b) {
      if Hash(name, size) == n {
        assert Has(b, name);
      }
    }
  }

  lemma MoveOne(t: seq<seq<Def>>, defs: map<string, Def>, names: set<string>, d: Def)
    requires TableOk(t, Restrict(defs, names)) && d.name in defs && defs[d.name] == d && d.name !in names
    ensures var h := Hash(d.name, |t|); TableOk(t[h := [d] + t[h]], Restrict(defs, names + {d.name}))
  {
    InsertOk(t, Restrict(defs, names), d);
    assert Restrict(defs, names)[d.name := d] == Restrict(defs, names + {d.name});
  }

  /** The last entry of the size list is its end mark. */
  const LAST := 7

  /** The chains of a table, none of which shares a node with another. */
  ghost predicate Apart(chains: seq<seq<Node>>) {
    forall h, i, k, j ::
      0 <= h < |chains| && 0 <= i < |chains[h]| && 0 <= k < |chains| && 0 <= j < |chains[k]| && h != k
      ==> chains[h][i] != chains[k][j]
  }

  class SymbolTable {
    var buckets: Buckets
    var symtblSize: nat
    var nInTable: nat
    var sizeIndex: nat
    var doAtCtrls: bool
    ghost var defs: map<string, Def>

    /** The load the table is kept under, as long as there is a larger size to go to. */
    ghost predicate Loaded()
      reads this`symtblSize, this`nInTable, this`sizeIndex
    {
      nInTable <= 2 * symtblSize || sizeIndex > LAST
    }

    /** The size is the one the index stands for, and the chains hold the map. */
    ghost predicate Holds()
      reads this`buckets, this`symtblSize, this`nInTable, this`sizeIndex, this`defs
      reads buckets, buckets.heads, buckets.nodes
    {
      && buckets.Valid() && symtblSize == |buckets.table| && sizeIndex <= LAST + 1
      && symtblSize == SIZES[if sizeIndex > LAST then LAST else sizeIndex]
      && TableOk(buckets.table, defs) && nInTable == |defs|
    }

    ghost predicate Valid()
      reads this`buckets, this`symtblSize, this`nInTable, this`sizeIndex, this`defs
      reads buckets, buckets.heads, buckets.nodes
    {
      Holds() && Loaded()
    }

    constructor ()
      ensures Valid() && fresh(buckets) && fresh(buckets.heads) && buckets.nodes == {} && defs == map[] && !doAtCtrls
    {
      sizeIndex, symtblSize, nInTable, doAtCtrls := 0, SIZES[0], 0, false;
      buckets := new Buckets(SIZES[0]);
      defs := map[];
    }

    /** The hash, folded over the name character by character. */
    method ComputeHash(name: string) returns (h: nat)
      requires symtblSize > 0
      ensures h == Hash(name, symtblSize)
    {
      var i, k := 0, 0;
      assert name[0..] == name;
      while k < |name|
        invariant 0 <= k <= |name| && 0 <= i && Mix(name[k..], i) == Mix(name, 0)
      {
        assert name[k..][1..] == name[k + 1..];
        i, k := (i / 256 + i * 8 + name[k] as int) % WORD, k + 1;
      }
      h := i % 0x8000_0000 % symtblSize;
    }

    /** The node of a name in its chain, if there is one. */
    method Find(name: string) returns (h: nat, prev: Node?, d: Node?, ghost i: nat)
      requires Holds()
      ensures h == Hash(name, symtblSize) && i <= |buckets.chains[h]| && d == At(buckets.chains[h], i)
      ensures prev == if i == 0 then null else buckets.chains[h][i - 1]
      ensures d != null <==> name in defs
      ensures d != null ==> d.def == buckets.table[h][i] == defs[name] && d.def.name == name && d in buckets.nodes
    {
      h := ComputeHash(name);
      prev, d, i := buckets.Search(h, name);
      FoundInBucket(buckets.table, defs, name);
      BucketIsOk(buckets.table, defs, h);
      assert buckets.ChainAt(h);
    }

    /** Looking a name up is looking it up in the map. */
    method FindDef(name: string) returns (r: Option<Def>)
      requires Valid()
      ensures r == if name in defs then Some(defs[name]) else None
    {
      var h, prev, d, i := Find(name);
      r := if d == null then None else Some(d.def);
    }

    /** Take a definition out of the table. */
    method Remove(h: nat, prev: Node?, d: Node, ghost i: nat)
      requires Valid() && h < symtblSize && i < |buckets.chains[h]| && d == buckets.chains[h][i]
      requires prev == if i == 0 then null else buckets.chains[h][i - 1]
      modifies this`nInTable, this`defs, buckets, buckets.heads, buckets.nodes
      ensures Valid() && buckets.nodes == old(buckets.nodes)
      ensures old(buckets.table[h][i].name) in old(defs) && defs == old(defs) - {old(buckets.table[h][i].name)}
      ensures buckets.table == old(buckets.table)[h := Without(old(buckets.table)[h], i)]
      ensures buckets.chains == old(buckets.chains)[h := Without(old(buckets.chains)[h], i)]
    {
      assert buckets.ChainAt(h);
      ghost var name := buckets.table[h][i].name;
      RemoveOk(buckets.table, defs, h, i);
      assert defs.Keys == (defs - {name}).Keys + {name};
      buckets.Unlink(h, prev, d, i);
      nInTable := nInTable - 1;
      defs := defs - {name};
    }

    /** Take a name out of the table, if it is there. */
    method Drop(name: string)
      requires Valid()
      modifies this`nInTable, this`defs, buckets, buckets.heads, buckets.nodes
      ensures Valid() && buckets.nodes == old(buckets.nodes) && defs == old(defs) - {name}
    {
      var h, prev, d, i := Find(name);
      if d == null {
        assert defs - {name} == defs;
        return;
      }
      Remove(h, prev, d, i);
    }

    method Undef(name: string)
      requires Valid()
      modifies this`nInTable, this`defs, this`doAtCtrls, buckets, buckets.heads, buckets.nodes
      ensures Valid() && buckets.nodes == old(buckets.nodes) && defs == old(defs) - {name}
      ensures doAtCtrls == (old(doAtCtrls) && name != "at_sign_ctrls")
    {
      Drop(name);
      if name == "at_sign_ctrls" {
        doAtCtrls := false;
      }
    }

    /** Relink one node into the chain its name belongs to. */
    method MoveNode(d: Node, ghost seen: set<string>)
      requires buckets.Valid() && symtblSize == |buckets.table| > 0 && TableOk(buckets.table, Restrict(defs, seen))
      requires d !in buckets.nodes && d.def.name in defs && defs[d.def.name] == d.def && d.def.name !in seen
      modifies buckets, buckets.heads, d
      ensures buckets.Valid() && |buckets.table| == symtblSize
      ensures TableOk(buckets.table, Restrict(defs, seen + {old(d.def.name)}))
      ensures buckets.nodes == old(buckets.nodes) + {d}
    {
      MoveOne(buckets.table, defs, seen, d.def);
      var h := ComputeHash(d.def.name);
      buckets.Relink(h, d);
    }

    /** Relink the first node of a chain; what follows it is still the rest of the chain. */
    method MoveFirst(d: Node, ghost left: seq<Node>, ghost more: seq<Def>, ghost home: nat, ghost seen: set<string>)
      returns (n: Node?)
      requires buckets.Valid() && symtblSize == |buckets.table| > 0 && TableOk(buckets.table, Restrict(defs, seen))
      requires Chain(d, left, more, home) && Foreign(left, buckets.nodes) && Movable(more, defs, seen)
      modifies buckets, buckets.heads, d
      ensures |left| == |more| > 0 && left[0] == d && buckets.nodes == old(buckets.nodes) + {d}
      ensures Chain(n, left[1..], more[1..], home) && Foreign(left[1..], buckets.nodes)
      ensures Movable(more[1..], defs, seen + {more[0].name})
      ensures buckets.Valid() && |buckets.table| == symtblSize
      ensures TableOk(buckets.table, Restrict(defs, seen + {more[0].name}))
    {
      n := d.link;
      Tail(d, left, more, home);
      TailSets(left, more, buckets.nodes, defs, seen);
      MoveNode(d, seen);
    }

    /**
     Relink a chain's nodes into the table, one by one: the link to the next node is saved before it is
     overwritten, and no node is lost.
     */
    method MoveChain(head: Node?, ghost ns: seq<Node>, ghost ds: seq<Def>, ghost home: nat, ghost names: set<string>)
      requires buckets.Valid() && symtblSize == |buckets.table| > 0 && TableOk(buckets.table, Restrict(defs, names))
      requires Chain(head, ns, ds, home) && Foreign(ns, buckets.nodes) && Movable(ds, defs, names)
      modifies buckets, buckets.heads, ns
      ensures buckets.Valid() && |buckets.table| == symtblSize
      ensures TableOk(buckets.table, Restrict(defs, names + Names(ds)))
      ensures buckets.nodes == old(buckets.nodes) + NodeSet(ns)
    {
      var d := head;
      ghost var left, more, seen := ns, ds, names;
      while d != null
        invariant Chain(d, left, more, home) && Foreign(left, buckets.nodes) && Movable(more, defs, seen)
        invariant buckets.Valid() && |buckets.table| == symtblSize && TableOk(buckets.table, Restrict(defs, seen))
        invariant ToGo(left, ns, buckets.nodes, old(buckets.nodes)) && NamesToGo(more, ds, seen, names)
        decreases |left|
      {
        OneLess(left, ns, buckets.nodes, old(buckets.nodes));
        OneNameLess(more, ds, seen, names);
        var n := MoveFirst(d, left, more, home, seen);
        left, more, seen, d := left[1..], more[1..], seen + {more[0].name}, n;
      }
      NoneToGo(ns, buckets.nodes, old(buckets.nodes));
      NoNameToGo(ds, seen, names);
    }

    /** Relink every chain of the old table into the new, empty one. */
    method MoveAll(otbl: Buckets)
      requires otbl != buckets && otbl.heads != buckets.heads && otbl.Valid() && TableOk(otbl.table, defs)
      requires buckets.Valid() && buckets.nodes == {} && symtblSize == |buckets.table| > 0
      requires buckets.table == seq(symtblSize, _ => [])
      modifies buckets, buckets.heads, otbl.nodes
      ensures buckets.Valid() && |buckets.table| == symtblSize && TableOk(buckets.table, defs)
      ensures buckets.nodes <= otbl.nodes
    {
      ghost var cs, ts := otbl.chains, otbl.table;
      var osize := otbl.heads.Length;
      ChainsApart(otbl);
      forall j | 0 <= j < osize ensures Chain(otbl.heads[j], cs[j], ts[j], j) {
        assert otbl.ChainAt(j);
      }
      EmptyOk(buckets.table);
      assert NamesBelow(defs, osize, 0) == {} && Restrict(defs, {}) == map[];
      for i := 0 to osize
        invariant buckets.Valid() && |buckets.table| == symtblSize && buckets.nodes <= otbl.nodes
        invariant TableOk(buckets.table, Restrict(defs, NamesBelow(defs, osize, i)))
        invariant forall j :: i <= j < osize ==> Chain(otbl.heads[j], cs[j], ts[j], j) && Foreign(cs[j], buckets.nodes)
      {
        ghost var nodes := buckets.nodes;
        BucketIsOk(ts, defs, i);
        NextBucketNames(ts[i], i, osize, defs);
        assert Chain(otbl.heads[i], cs[i], ts[i], i) && Owned(cs[i], otbl.nodes);
        MoveChain(otbl.heads[i], cs[i], ts[i], i, NamesBelow(defs, osize, i));
        forall j | i < j < osize ensures Foreign(cs[j], buckets.nodes) {
          StillForeign(cs, i, j, nodes);
        }
      }
      assert Restrict(defs, NamesBelow(defs, osize, osize)) == defs;
    }

    /** A larger table with the same definitions, if there is a larger size. */
    method RehashUp()
      requires Holds() && (nInTable <= 2 * symtblSize + 1 || sizeIndex > LAST)
      modifies this`buckets, this`symtblSize, this`sizeIndex, buckets.nodes
      ensures Valid() && buckets.nodes <= old(buckets.nodes)
      ensures buckets == old(buckets) || (fresh(buckets) && fresh(buckets.heads))
    {
      if SIZES[sizeIndex] == 0 {
        return;
      }
      sizeIndex := sizeIndex + 1;
      if SIZES[sizeIndex] == 0 {
        return;
      }
      var otbl := buckets;
      symtblSize := SIZES[sizeIndex];
      buckets := new Buckets(symtblSize);
      MoveAll(otbl);
    }

    /** A name not in the table yet. */
    method Add(h: nat, d: Def)
      requires Valid() && h == Hash(d.name, symtblSize) && d.name !in defs
      modifies this`buckets, this`symtblSize, this`sizeIndex, this`nInTable, this`defs
      modifies buckets, buckets.heads, buckets.nodes
      ensures Valid() && defs == old(defs)[d.name := d] && fresh(buckets.nodes - old(buckets.nodes))
      ensures buckets == old(buckets) || (fresh(buckets) && fresh(buckets.heads))
    {
      InsertOk(buckets.table, defs, d);
      assert defs[d.name := d].Keys == defs.Keys + {d.name};
      buckets.Insert(h, d);
      nInTable, defs := nInTable + 1, defs[d.name := d];
      if nInTable > 2 * symtblSize {
        RehashUp();
      }
    }

    /** A name already in the table: its node gets the new definition. */
    method Overwrite(h: nat, node: Node, ghost i: nat, d: Def)
      requires Valid() && h == Hash(d.name, symtblSize) && d.name in defs && node.def.name == d.name
      requires i < |buckets.chains[h]| && node == buckets.chains[h][i] && buckets.table[h][i].name == d.name
      modifies this`defs, buckets, node
      ensures Valid() && defs == old(defs)[d.name := d] && buckets.nodes == old(buckets.nodes)
    {
      assert buckets.ChainAt(h);
      ReplaceOk(buckets.table, defs, i, d);
      assert defs[d.name := d].Keys == defs.Keys;
      buckets.Replace(node, d, h, i);
      defs := defs[d.name := d];
    }

    /** A definition replaces an earlier one of its name or is added; the table grows when it gets too full. */
    method Define(name: string, nargs: int, repl: string, how: How) returns (redefined: bool)
      requires Valid()
      modifies this, buckets, buckets.heads, buckets.nodes
      ensures Valid() && fresh(buckets.nodes - old(buckets.nodes))
      ensures buckets == old(buckets) || (fresh(buckets) && fresh(buckets.heads))
      ensures defs == old(defs)[name := Def(name, nargs, repl, how)]
      ensures redefined <==> name in old(defs) && (nargs != old(defs)[name].nargs || repl != old(defs)[name].repl)
      ensures doAtCtrls == (old(doAtCtrls) || name == "at_sign_ctrls")
      ensures nInTable == |defs| && (nInTable <= 2 * symtblSize || sizeIndex > LAST)
    {
      if name == "at_sign_ctrls" {
        doAtCtrls := true;
      }
      var h, prev, node, i := Find(name);
      var d := Def(name, nargs, repl, how);
      redefined := false;
      if node != null {
        redefined := nargs != node.def.nargs || repl != node.def.repl;
        Overwrite(h, node, i, d);
      } else {
        Add(h, d);
      }
    }

    /** One turn: a predefined macro is taken out, any other is passed. */
    method FilterOne(h: nat, prev0: Node?, d0: Node, ghost i0: nat, ghost was: map<string, Def>)
      returns (prev: Node?, d: Node?, ghost i: nat)
      requires Valid() && h < symtblSize && buckets.Cursor(h, prev0, d0, i0)
      requires OnlyPredefsGone(was, defs) && NoPredefs(buckets.table[h][..i0])
      modifies this`nInTable, this`defs, buckets, buckets.heads, buckets.nodes
      ensures Valid() && buckets.nodes == old(buckets.nodes) && buckets.Cursor(h, prev, d, i)
      ensures OnlyPredefsGone(was, defs) && NoPredefs(buckets.table[h][..i])
      ensures |buckets.table[h]| - i < |old(buckets.table[h])| - i0
      ensures buckets.table == old(buckets.table)[h := buckets.table[h]]
    {
      assert buckets.ChainAt(h);
      ghost var b := buckets.table[h];
      prev, d, i := prev0, d0.link, i0;
      if d0.def.how == PREDEF {
        RemovePredef(h, prev, d0, i, was);
        KeptInFront(b, i);
      } else {
        assert b[..i + 1] == b[..i] + [b[i]];
        prev, i := d0, i + 1;
      }
    }

    /** Take every predefined macro out of one chain. */
    method FilterChain(h: nat)
      requires Valid() && h < symtblSize
      modifies this`nInTable, this`defs, buckets, buckets.heads, buckets.nodes
      ensures Valid() && buckets.nodes == old(buckets.nodes) && OnlyPredefsGone(old(defs), defs)
      ensures NoPredefs(buckets.table[h]) && buckets.table == old(buckets.table)[h := buckets.table[h]]
    {
      assert buckets.ChainAt(h);
      var prev: Node?, d := null, buckets.heads[h];
      ghost var i: nat := 0;
      while d != null
        invariant Valid() && buckets.nodes == old(buckets.nodes) && buckets.Cursor(h, prev, d, i)
        invariant OnlyPredefsGone(old(defs), defs) && NoPredefs(buckets.table[h][..i])
        invariant buckets.table == old(buckets.table)[h := buckets.table[h]]
        decreases |buckets.table[h]| - i
      {
        prev, d, i := FilterOne(h, prev, d, i, old(defs));
      }
      assert buckets.table[h][..i] == buckets.table[h];
    }

    method RemovePredef(h: nat, prev: Node?, d: Node, ghost i: nat, ghost was: map<string, Def>)
      requires Valid() && h < symtblSize && i < |buckets.chains[h]| && d == buckets.chains[h][i]
      requires prev == (if i == 0 then null else buckets.chains[h][i - 1])
      requires d.def.how == PREDEF && OnlyPredefsGone(was, defs)
      modifies this`nInTable, this`defs, buckets, buckets.heads, buckets.nodes
      ensures Valid() && buckets.nodes == old(buckets.nodes) && OnlyPredefsGone(was, defs)
      ensures i < |old(buckets.table[h])| && buckets.table == old(buckets.table)[h := Without(old(buckets.table)[h], i)]
      ensures buckets.chains == old(buckets.chains)[h := Without(old(buckets.chains)[h], i)]
    {
      assert buckets.ChainAt(h);
      BucketIsOk(buckets.table, defs, h);
      OneMoreGone(was, defs, d.def.name);
      Remove(h, prev, d, i);
    }

    method UndefPredefs()
      requires Valid()
      modifies this`nInTable, this`defs, buckets, buckets.heads, buckets.nodes
      ensures Valid() && buckets.nodes == old(buckets.nodes) && defs == WithoutPredefs(old(defs))
    {
      for h := symtblSize downto 0
        invariant Valid() && buckets.nodes == old(buckets.nodes) && OnlyPredefsGone(old(defs), defs)
        invariant forall k :: h <= k < symtblSize ==> NoPredefs(buckets.table[k])
      {
        FilterChain(h);
      }
      AllPredefsGone(buckets.table, old(defs), defs);
    }
  }

  lemma KeptInFront(b: seq<Def>, i: nat)
    requires i < |b| && NoPredefs(b[..i])
    ensures NoPredefs(Without(b, i)[..i])
  {
    assert Without(b, i)[..i] == b[..i];
  }

  lemma ChainsApart(b: Buckets)
    requires b.Valid()
    ensures Apart(b.chains)
  {
    forall h, i, k, j | 0 <= h < |b.chains| && 0 <= i < |b.chains[h]| && 0 <= k < |b.chains|
                        && 0 <= j < |b.chains[k]| && h != k
      ensures b.chains[h][i] != b.chains[k][j]
    {
      b.AtHomeOnly(h, k, i);
    }
  }

  lemma StillForeign(cs: seq<seq<Node>>, i: nat, j: nat, nodes: set<Node>)
    requires Apart(cs) && i < j < |cs| && Foreign(cs[j], nodes)
    ensures Foreign(cs[j], nodes + NodeSet(cs[i]))
  {
  }

  lemma EmptyOk(t: seq<seq<Def>>)
    requires |t| > 0 && forall h :: 0 <= h < |t| ==> t[h] == []
    ensures TableOk(t, map[])
  {
  }

  ghost function NodeSet(ns: seq<Node>): (r: set<Node>) {
    set n | n in ns
  }

  /** None of the nodes is linked into the table yet. */
  ghost predicate Foreign(ns: seq<Node>, nodes: set<Node>) {
    forall i :: 0 <= i < |ns| ==> ns[i] !in nodes
  }

  /** Definitions of the map, each name once and none of those moved already. */
  ghost predicate Movable(ds: seq<Def>, defs: map<string, Def>, seen: set<string>) {
    && (forall i :: 0 <= i < |ds| ==> ds[i].name in defs && defs[ds[i].name] == ds[i] && ds[i].name !in seen)
    && (forall i, j :: 0 <= i < j < |ds| ==> ds[i].name != ds[j].name)
  }

  /** Behind its first node a chain is a chain, and the first node is not in it. */
  lemma Tail(d: Node, ns: seq<Node>, ds: seq<Def>, bucket: nat)
    requires Chain(d, ns, ds, bucket)
    ensures |ns| > 0 && ns[0] == d && d.def == ds[0] && Chain(d.link, ns[1..], ds[1..], bucket) && d !in ns[1..]
  {
  }

  lemma TailSets(ns: seq<Node>, ds: seq<Def>, nodes: set<Node>, defs: map<string, Def>, seen: set<string>)
    requires |ns| == |ds| > 0 && Foreign(ns, nodes) && Movable(ds, defs, seen) && ns[0] !in ns[1..]
    ensures Foreign(ns[1..], nodes + {ns[0]}) && Movable(ds[1..], defs, seen + {ds[0].name})
  {
    forall i | 0 <= i < |ns[1..]| ensures ns[1..][i] !in nodes + {ns[0]} {
      assert ns[1..][i] == ns[i + 1] && ns[1..][i] in ns[1..];
    }
  }

  /** The nodes still `left` and those in the table are the ones to move and the ones that were there. */
  ghost predicate ToGo(left: seq<Node>, ns: seq<Node>, nodes: set<Node>, was: set<Node>) {
    NodeSet(left) <= NodeSet(ns) && nodes + NodeSet(left) == was + NodeSet(ns)
  }

  lemma OneLess(left: seq<Node>, ns: seq<Node>, nodes: set<Node>, was: set<Node>)
    requires |left| > 0 && ToGo(left, ns, nodes, was)
    ensures left[0] in ns && ToGo(left[1..], ns, nodes + {left[0]}, was)
  {
    assert left == [left[0]] + left[1..] && left[0] in NodeSet(left);
    assert NodeSet(left) == {left[0]} + NodeSet(left[1..]);
  }

  lemma NoneToGo(ns: seq<Node>, nodes: set<Node>, was: set<Node>)
    requires ToGo([], ns, nodes, was)
    ensures nodes == was + NodeSet(ns)
  {
    assert NodeSet([]) == {};
  }

  ghost predicate NamesToGo(more: seq<Def>, ds: seq<Def>, seen: set<string>, was: set<string>) {
    seen + Names(more) == was + Names(ds)
  }

  lemma OneNameLess(more: seq<Def>, ds: seq<Def>, seen: set<string>, was: set<string>)
    requires |more| > 0 && NamesToGo(more, ds, seen, was)
    ensures NamesToGo(more[1..], ds, seen + {more[0].name}, was)
  {
    FirstName(more);
  }

  lemma NoNameToGo(ds: seq<Def>, seen: set<string>, was: set<string>)
    requires NamesToGo([], ds, seen, was)
    ensures seen == was + Names(ds)
  {
    assert Names([]) == {};
  }

  lemma FirstName(ds: seq<Def>)
    requires |ds| > 0
    ensures Names(ds) == {ds[0].name} + Names(ds[1..])
  {
    forall name | name in Names(ds) ensures name in {ds[0].name} + Names(ds[1..]) {
      var i :| 0 <= i < |ds| && ds[i].name == name;
      assert i > 0 ==> ds[1..][i - 1] == ds[i];
    }
  }
}
