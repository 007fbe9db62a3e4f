/** class hashmap of ec_map.h: bucket chains linked in place, proved to do to its buckets what HashBuckets
    describes, and so to behave as a finite map; the iterator's positions. */
module HashMaps {
  import opened Wrappers
  import opened HashBuckets

  class Node<V> {
    var value: V
    var pNext: Node?<V>

    constructor (v: V)
      ensures value == v && pNext == null
    {
      value := v;
      pNext := null;
    }
  }

  ghost predicate Linked<V>(c: seq<Node<V>>, first: Node?<V>)
    reads c`pNext
  {
    && first == (if |c| == 0 then null else c[0])
    && (forall i :: 0 <= i < |c| - 1 ==> c[i].pNext == c[i + 1])
    && (|c| > 0 ==> c[|c| - 1].pNext == null)
  }

  ghost function Values<V>(c: seq<Node<V>>): (vs: seq<V>)
    reads c`value
    ensures |vs| == |c| && forall i :: 0 <= i < |c| ==> vs[i] == c[i].value
  {
    if c == [] then [] else [c[0].value] + Values(c[1..])
  }

  ghost function At<V>(c: seq<Node<V>>, i: int): Node?<V> {
    if 0 <= i < |c| then c[i] else null
  }

  // No node comes twice, in one chain or in two.
  ghost predicate Apart<V>(cs: seq<seq<Node<V>>>) {
    forall i, j, a, b :: 0 <= i < |cs| && 0 <= j < |cs| && 0 <= a < |cs[i]| && 0 <= b < |cs[j]| && cs[i][a] == cs[j][b] ==> i == j && a == b
  }

  ghost function NodesOf<V>(cs: seq<seq<Node<V>>>): set<Node<V>> {
    set i, a | 0 <= i < |cs| && 0 <= a < |cs[i]| :: cs[i][a]
  }

  ghost function Views<V>(cs: seq<seq<Node<V>>>, i: nat): (bs: seq<seq<V>>)
    requires i <= |cs|
    reads NodesOf(cs)
    ensures |bs| == |cs| - i
    decreases |cs| - i
  {
    if i == |cs| then [] else
    assert forall a :: 0 <= a < |cs[i]| ==> cs[i][a] in NodesOf(cs);
    [Values(cs[i])] + Views(cs, i + 1)
  }

  lemma {:induction false} ViewsAt<V>(cs: seq<seq<Node<V>>>, i: nat, j: nat)
    requires i <= j < |cs|
    ensures Views(cs, i)[j - i] == Values(cs[j])
    decreases j - i
  {
    if i < j {
      ViewsAt(cs, i + 1, j);
    }
  }

  class HashMap<K(==,!new), V> {
    const keys: Keys<K, V>
    const ppv: array<Node?<V>>
    var usize: nat
    ghost var chains: seq<seq<Node<V>>>
    ghost var model: map<K, V>

    ghost function View(): (bs: seq<seq<V>>)
      reads this`chains, NodesOf(chains)
      ensures |bs| == |chains|
    {
      Views(chains, 0)
    }

    lemma ViewAt(i: nat)
      requires i < |chains|
      ensures View()[i] == Values(chains[i])
    {
      ViewsAt(chains, 0, i);
    }

    lemma ViewAll()
      ensures forall i :: 0 <= i < |chains| ==> View()[i] == Values(chains[i])
    {
      forall i | 0 <= i < |chains| ensures View()[i] == Values(chains[i]) {
        ViewAt(i);
      }
    }

    ghost predicate Chained()
      reads this`chains, ppv, NodesOf(chains)
    {
      && ppv.Length == |chains| > 0 && Apart(chains)
      && forall i :: 0 <= i < |chains| ==> Linked(chains[i], ppv[i])
    }

    ghost predicate Valid()
      reads this, ppv, NodesOf(chains)
    {
      Chained() && usize == |Flat(View())| && Represents(keys, View(), model)
    }

    // The loop of set, get, erase and emplace over one chain.
    method Find(first: Node?<V>, key: K, ghost c: seq<Node<V>>) returns (prev: Node?<V>, node: Node?<V>, ghost k: nat)
      requires Linked(c, first)
      ensures k == IndexIn(keys, Values(c), key) && node == At(c, k) && prev == At(c, k - 1)
    {
      prev, node, k := null, first, 0;
      while node != null
        invariant k <= |c| && node == At(c, k) && prev == At(c, k - 1)
        invariant forall i :: 0 <= i < k ==> keys.keyOf(c[i].value) != key
        decreases |c| - k
      {
        if keys.keyOf(node.value) == key {
          IndexIs(Values(c), key, k);
          return;
        }
        prev := node;
        node := node.pNext;
        k := k + 1;
      }
      NotFound(keys, Values(c), key);
    }

    lemma IndexIs(b: seq<V>, key: K, k: nat)
      requires k < |b| && keys.keyOf(b[k]) == key && forall i :: 0 <= i < k ==> keys.keyOf(b[i]) != key
      ensures IndexIn(keys, b, key) == k
    {
    }

    constructor (k: Keys<K, V>, uhashsize: nat)
      requires 0 < uhashsize
      ensures Valid() && model == map[] && keys == k && ppv.Length == uhashsize
    {
      keys := k;
      ppv := new Node?<V>[uhashsize](i => null);
      usize, chains, model := 0, seq(uhashsize, i => []), map[];
      new;
      EmptyValid();
    }

    lemma EmptyValid()
      requires ppv.Length == |chains| > 0 && (forall i :: 0 <= i < |chains| ==> ppv[i] == null && chains[i] == []) && usize == 0 && model == map[]
      ensures Valid()
    {
      hide Views, Represents;
      ViewAll();
      EmptyFlat(View());
      NothingIn(keys, View());
    }

    lemma NothingIn(h: Keys<K, V>, bs: seq<seq<V>>)
      requires |bs| > 0 && forall i :: 0 <= i < |bs| ==> bs[i] == []
      ensures Represents(h, bs, map[])
    {
    }

    lemma EmptyFlat(bs: seq<seq<V>>)
      requires forall i :: 0 <= i < |bs| ==> bs[i] == []
      ensures Flat(bs) == []
      decreases |bs|
    {
      if bs != [] {
        EmptyFlat(bs[1..]);
      }
    }

    /** get */
    method Get(key: K) returns (r: Option<V>)
      requires Valid()
      ensures r == if key in model then Some(model[key]) else None
    {
      GetIsLookup(keys, View(), model, key);
      if usize == 0 {
        NoEntry(View(), Upos(keys, ppv.Length, key));
        return None;
      }
      var upos := Upos(keys, ppv.Length, key);
      ViewAt(upos);
      var prev, node;
      ghost var k;
      prev, node, k := Find(ppv[upos], key, chains[upos]);
      r := if node == null then None else Some(node.value);
    }

    lemma NoEntry(bs: seq<seq<V>>, i: nat)
      requires Flat(bs) == [] && i < |bs|
      ensures bs[i] == []
    {
      if i > 0 {
        NoEntry(bs[1..], i - 1);
      }
    }

    // The chain at u has changed, and its values with it.
    lemma ViewIs(bs: seq<seq<V>>, u: nat, c: seq<V>)
      requires |bs| == |chains| && u < |bs| && Values(chains[u]) == c
      requires forall i :: 0 <= i < |chains| && i != u ==> Values(chains[i]) == bs[i]
      ensures View() == bs[u := c]
    {
      hide Views;
      ViewAll();
    }

    lemma NotElsewhere(u: nat, k: nat)
      requires Apart(chains) && u < |chains| && k < |chains[u]|
      ensures forall i :: 0 <= i < |chains| && i != u ==> chains[u][k] !in chains[i]
      ensures forall j :: 0 <= j < |chains[u]| && j != k ==> chains[u][j] != chains[u][k]
    {
    }

    // A node of the chain gets a new value.
    method Replace(node: Node<V>, v: V, ghost u: nat, ghost k: nat)
      requires Chained() && u < |chains| && k < |chains[u]| && node == chains[u][k]
      modifies node`value
      ensures Chained() && View() == old(View())[u := old(Values(chains[u]))[k := v]]
    {
      NotElsewhere(u, k);
      hide Views, Apart, Linked;
      ghost var bs, c := View(), Values(chains[u]);
      ViewAll();
      node.value := v;
      ViewIs(bs, u, c[k := v]);
    }

    // A new node in front of the chain.
    method PushFront(upos: nat, v: V)
      requires Chained() && upos < ppv.Length
      modifies ppv, this`chains
      ensures Chained() && View() == old(View())[upos := [v] + old(View())[upos]]
      ensures |chains| == |old(chains)|
      ensures fresh(NodesOf(chains) - old(NodesOf(chains)))
    {
      hide Views, Apart, Linked, Values;
      ghost var bs, cs := View(), chains;
      ViewAll();
      var pnode := NewFront(upos, v);
      FrontApart(cs, upos, pnode);
      FrontLinked(cs[upos], pnode);
      chains := cs[upos := [pnode] + cs[upos]];
      ViewIs(bs, upos, [v] + bs[upos]);
    }

    method NewFront(upos: nat, v: V) returns (pnode: Node<V>)
      requires upos < ppv.Length
      modifies ppv
      ensures fresh(pnode) && pnode.value == v && pnode.pNext == old(ppv[upos])
      ensures ppv[upos] == pnode && forall i :: 0 <= i < ppv.Length && i != upos ==> ppv[i] == old(ppv[i])
    {
      pnode := new Node(v);
      pnode.pNext := ppv[upos];
      ppv[upos] := pnode;
    }

    lemma FrontLinked(c: seq<Node<V>>, n: Node<V>)
      requires Linked(c, n.pNext)
      ensures Linked([n] + c, n) && Values([n] + c) == [n.value] + Values(c)
    {
      assert ([n] + c)[1..] == c;
    }

    lemma FrontApart(cs: seq<seq<Node<V>>>, u: nat, n: Node<V>)
      requires Apart(cs) && u < |cs| && n !in NodesOf(cs)
      ensures Apart(cs[u := [n] + cs[u]])
    {
      var ds := cs[u := [n] + cs[u]];
      forall i, a | 0 <= i < |cs| && 0 <= a < |cs[i]| ensures cs[i][a] in NodesOf(cs) {
      }
    }

    // The node at k leaves its chain.
    method Unlink(upos: nat, prev: Node?<V>, node: Node<V>, ghost k: nat)
      requires Chained() && upos < ppv.Length && k < |chains[upos]| && node == chains[upos][k] && prev == At(chains[upos], k - 1)
      modifies ppv, this`chains, NodesOf(chains)`pNext
      ensures Chained() && View() == old(View())[upos := Removed(old(Values(chains[upos])), k)]
      ensures chains == old(chains)[upos := Removed(old(chains)[upos], k)]
    {
      hide Views, Apart, Linked, Removed, Values;
      ghost var bs, cs, c := View(), chains, chains[upos];
      PrevIn(upos, k);
      ViewAll();
      UnlinkFrom(upos, prev, node, c, k);
      RemovedApart(cs, upos, k);
      RemovedValues(c, k);
      chains := cs[upos := Removed(c, k)];
      ViewIs(bs, upos, Removed(Values(c), k));
    }

    // The relinking in erase: the head of the bucket or the node before skips the node.
    method UnlinkFrom(upos: nat, prev: Node?<V>, node: Node<V>, ghost c: seq<Node<V>>, ghost k: nat)
      requires upos < ppv.Length && Linked(c, ppv[upos]) && k < |c| && node == c[k] && prev == At(c, k - 1)
      requires forall i, j :: 0 <= i < j < |c| ==> c[i] != c[j]
      modifies ppv, c`pNext
      ensures Linked(Removed(c, k), ppv[upos])
      ensures forall i :: 0 <= i < ppv.Length && i != upos ==> ppv[i] == old(ppv[i])
    {
      if prev == null {
        ppv[upos] := node.pNext;
      } else {
        prev.pNext := node.pNext;
      }
      ghost var r := Removed(c, k);
      assert forall a :: 0 <= a < |r| ==> r[a] == c[if a < k then a else a + 1];
    }

    lemma PrevIn(u: nat, k: nat)
      requires Chained() && u < |chains| && k < |chains[u]|
      ensures forall j :: 0 <= j < |chains[u]| ==> chains[u][j] in NodesOf(chains)
      ensures forall i, j :: 0 <= i < |chains| && i != u && 0 <= j < |chains[u]| ==> chains[u][j] !in chains[i]
      ensures forall i, j :: 0 <= i < j < |chains[u]| ==> chains[u][i] != chains[u][j]
    {
    }

    lemma RemovedApart(cs: seq<seq<Node<V>>>, u: nat, k: nat)
      requires Apart(cs) && u < |cs| && k < |cs[u]|
      ensures Apart(cs[u := Removed(cs[u], k)])
    {
      var r := Removed(cs[u], k);
      assert forall a :: 0 <= a < |r| ==> r[a] == cs[u][if a < k then a else a + 1];
    }

    lemma RemovedValues(c: seq<Node<V>>, k: nat)
      requires k < |c|
      ensures Values(Removed(c, k)) == Removed(Values(c), k)
    {
      RemovedAt(c, k);
      RemovedAt(Values(c), k);
      hide Values, Removed;
      assert forall a :: 0 <= a < |Removed(c, k)| ==> Values(Removed(c, k))[a] == Removed(Values(c), k)[a];
    }

    lemma RemovedAt<T>(s: seq<T>, k: nat)
      requires k < |s|
      ensures |Removed(s, k)| == |s| - 1
      ensures forall a :: 0 <= a < |s| - 1 ==> Removed(s, k)[a] == s[if a < k then a else a + 1]
    {
    }

    // After a change of one bucket.
    lemma NowValid(bs: seq<seq<V>>, m: map<K, V>, u: nat, b: seq<V>)
      requires Chained() && u < |bs| && View() == bs[u := b] && usize == |Flat(bs)| - |bs[u]| + |b| && Represents(keys, bs[u := b], model)
      ensures Valid()
    {
      FlatUpdate(bs, u, b);
    }

    lemma BucketLinked(u: nat)
      requires Chained()
      ensures ppv.Length == |chains| > 0 && (u < |chains| ==> Linked(chains[u], ppv[u]))
    {
    }

    // The body of set: the value over the one found, or in front.
    method Put(key: K, upos: nat, v: V)
      requires Chained() && upos < ppv.Length
      modifies this`usize, this`chains, ppv, NodesOf(chains)`value
      ensures Chained() && View() == old(View())[upos := SetIn(keys, old(View())[upos], key, v)]
      ensures usize == old(usize) - |old(View())[upos]| + |SetIn(keys, old(View())[upos], key, v)|
    {
      hide View, Chained, Linked, Values, IndexIn, Removed;
      BucketLinked(upos);
      ViewAt(upos);
      var prev, node;
      ghost var k;
      prev, node, k := Find(ppv[upos], key, chains[upos]);
      if node != null {
        Replace(node, v, upos, k);
      } else {
        PushFront(upos, v);
        usize := usize + 1;
      }
    }

    /** set: replaces the value of the key, or adds it. */
    method Set(key: K, v: V)
      requires Valid() && keys.keyOf(v) == key
      modifies this, ppv, NodesOf(chains)
      ensures Valid() && model == old(model)[key := v]
    {
      hide Views, Represents, Apart, Linked, Flat, Chained, SetIn;
      Sizes();
      ghost var bs, m := View(), model;
      var upos := Upos(keys, ppv.Length, key);
      model := m[key := v];
      Put(key, upos, v);
      SetRefines(keys, bs, m, key, v);
      NowValid(bs, m, upos, SetIn(keys, bs[upos], key, v));
    }

    lemma SomeEntry(bs: seq<seq<V>>, u: nat)
      requires u < |bs| && |bs[u]| > 0
      ensures |Flat(bs)| > 0
    {
      FlatUpdate(bs, u, []);
    }

    // The search of erase and emplace, and the removal of the entry it finds.
    method Remove(key: K, upos: nat) returns (found: bool)
      requires Chained() && usize == |Flat(View())| && upos == Upos(keys, ppv.Length, key)
      modifies this`usize, this`chains, ppv, NodesOf(chains)`pNext
      ensures Chained() && ppv.Length == |old(View())|
      ensures View() == old(View())[upos := EraseIn(keys, old(View())[upos], key)] && usize == old(usize) - (if found then 1 else 0)
      ensures found <==> IndexIn(keys, old(View())[upos], key) < |old(View())[upos]|
      ensures forall n :: n in NodesOf(chains) ==> n in old(NodesOf(chains))
    {
      hide View, Chained, Linked, Flat, Removed, Values, IndexIn, Upos;
      ghost var bs, cs := View(), chains;
      BucketLinked(upos);
      ViewAt(upos);
      var prev, node;
      ghost var k;
      prev, node, k := Find(ppv[upos], key, chains[upos]);
      if node == null {
        assert bs[upos := bs[upos]] == bs;
        return false;
      }
      SomeEntry(bs, upos);
      Unlink(upos, prev, node, k);
      RemovedNodes(cs, upos, k);
      usize := usize - 1;
      found := true;
    }

    lemma RemovedNodes(cs: seq<seq<Node<V>>>, u: nat, k: nat)
      requires u < |cs| && k < |cs[u]|
      ensures forall n :: n in NodesOf(cs[u := Removed(cs[u], k)]) ==> n in NodesOf(cs)
    {
      RemovedAt(cs[u], k);
      hide Removed;
      var ds := cs[u := Removed(cs[u], k)];
      forall i, a | 0 <= i < |ds| && 0 <= a < |ds[i]| ensures ds[i][a] in NodesOf(cs) {
        if i == u {
          assert ds[i][a] == cs[u][if a < k then a else a + 1];
        }
      }
    }

    /** erase: whether the key was there; now it is not. */
    method Erase(key: K) returns (found: bool)
      requires Valid()
      modifies this`usize, this`chains, this`model, ppv, NodesOf(chains)`pNext
      ensures Valid() && model == old(model) - {key} && found == (key in old(model))
    {
      hide Views, Represents, Apart, Linked, Flat, Removed, Chained;
      Sizes();
      ghost var bs, m := View(), model;
      var upos := Upos(keys, ppv.Length, key);
      EraseRefines(keys, bs, m, key);
      ErasedWhen(keys, bs, m, key);
      if usize == 0 {
        NoEntry(bs, upos);
        NotInEmpty(m, key);
        return false;
      }
      model := m - {key};
      found := Remove(key, upos);
      NowValid(bs, m, upos, EraseIn(keys, bs[upos], key));
    }

    lemma NotInEmpty(m: map<K, V>, key: K)
      requires key !in m
      ensures m - {key} == m
    {
    }

    lemma Sizes()
      requires Chained()
      ensures ppv.Length == |chains| == |View()| > 0
    {
    }

    lemma ErasedWhen(h: Keys<K, V>, bs: seq<seq<V>>, m: map<K, V>, key: K)
      requires Represents(h, bs, m)
      ensures var b := bs[Upos(h, |bs|, key)]; key in m <==> IndexIn(h, b, key) < |b|
      ensures var b := bs[Upos(h, |bs|, key)]; |EraseIn(h, b, key)| == |b| - (if key in m then 1 else 0)
    {
      GetIsLookup(h, bs, m, key);
    }

    /** emplace: the entry of the key, if any, goes; the new one comes. */
    method Emplace(key: K, v: V)
      requires Valid() && keys.keyOf(v) == key
      modifies this, ppv, NodesOf(chains)
      ensures Valid() && model == old(model)[key := v]
    {
      hide Views, Represents, Apart, Linked, Flat, Removed;
      ghost var bs, m := View(), model;
      var upos := Upos(keys, ppv.Length, key);
      ErasedWhen(keys, bs, m, key);
      model := m[key := v];
      var found := Remove(key, upos);
      PushFront(upos, v);
      usize := usize + 1;
      EmplaceRefines(keys, bs, m, key, v);
      NowValid(bs, m, upos, EmplaceIn(keys, bs[upos], key, v));
    }

    // ---- iteration ----

    // The walk down a chain that _nexti and atpos do.
    method Walk(ih: nat, il: nat) returns (node: Node?<V>, ul: nat)
      requires Chained() && ih < ppv.Length
      ensures ul <= il && node == At(chains[ih], ul) && (ul < il ==> node == null) && ul <= |chains[ih]|
      ensures node != null ==> (node.pNext == null <==> ul + 1 == |chains[ih]|)
      ensures View() == old(View())
    {
      hide Apart;
      ghost var c := chains[ih];
      node, ul := ppv[ih], 0;
      while ul < il && node != null
        invariant ul <= il && ul <= |c| && node == At(c, ul)
      {
        node := node.pNext;
        ul := ul + 1;
      }
      if node != null {
        LinkAt(c, ppv[ih], ul);
      }
    }

    lemma LinkAt(c: seq<Node<V>>, first: Node?<V>, k: nat)
      requires Linked(c, first) && k < |c|
      ensures c[k].pNext == if k + 1 < |c| then c[k + 1] else null
    {
    }

    // The scan for the next bucket that is not empty.
    method FirstBucket(from: nat) returns (pos: nat)
      requires Chained()
      ensures pos == FirstFrom(View(), from) && View() == old(View())
    {
      hide Views, Apart;
      ViewAll();
      var ih := from;
      while ih < ppv.Length
        invariant FirstFrom(View(), ih) == FirstFrom(View(), from)
        decreases ppv.Length - ih
      {
        if ppv[ih] != null {
          return ih * TWO32;
        }
        ih := ih + 1;
      }
      pos := END;
    }

    /** begin() */
    method Begin() returns (pos: nat)
      requires Valid()
      ensures pos == FirstFrom(View(), 0) && View() == old(View())
    {
      if usize == 0 {
        NothingFrom(View(), 0);
        return END;
      }
      pos := FirstBucket(0);
    }

    lemma NothingFrom(bs: seq<seq<V>>, ih: nat)
      requires Flat(bs) == []
      ensures FirstFrom(bs, ih) == END
      decreases |bs| - ih
    {
      if ih < |bs| {
        NoEntry(bs, ih);
        NothingFrom(bs, ih + 1);
      }
    }

    /** ++ : _nexti(pos) */
    method NextI(pos: nat) returns (next: nat)
      requires Chained()
      ensures next == NextPos(View(), pos) && View() == old(View())
    {
      hide Views, Apart, FirstFrom;
      ViewAll();
      var ih, il := pos / TWO32, pos % TWO32;
      if ih < ppv.Length {
        var node, ul := Walk(ih, il);
        ViewAll();
        if node != null && node.pNext != null {
          return ih * TWO32 + (ul + 1);
        }
        ih := ih + 1;
      } else {
        PastEnd(View(), ih);
        PastEnd(View(), ih + 1);
      }
      next := FirstBucket(ih);
    }

    lemma PastEnd(bs: seq<seq<V>>, ih: nat)
      requires ih >= |bs|
      ensures FirstFrom(bs, ih) == END
    {
    }

    /** atpos(pos) */
    method AtI(pos: nat) returns (r: Option<V>)
      requires Valid()
      ensures r == AtPos(View(), pos) && View() == old(View())
    {
      hide Views, Apart, Flat, Represents;
      ViewAll();
      var ih, il := pos / TWO32, pos % TWO32;
      if ih >= ppv.Length {
        return None;
      }
      if usize == 0 {
        NoEntry(View(), ih);
        return None;
      }
      var node, ul := Walk(ih, il);
      ViewAll();
      r := if ul == il && node != null then Some(node.value) else None;
    }

    /** A loop from begin to end: every entry of the map, each once. */
    method Entries() returns (out: seq<V>)
      requires Valid() && Fits(View())
      ensures KeysDiffer(keys, out) && |out| == |model| == usize
      ensures forall j :: 0 <= j < |out| ==> keys.keyOf(out[j]) in model && model[keys.keyOf(out[j])] == out[j]
      ensures forall k :: k in model ==> model[k] in out
    {
      EntriesOnce(keys, View(), model, Flat(View()));
      out := Collect();
    }

    // for (it = begin(); it != end(); ++it)
    method Collect() returns (out: seq<V>)
      requires Valid() && Fits(View())
      ensures out == Flat(old(View()))
    {
      hide Views, Flat, Represents, FirstFrom, NextPos, AtPos, Apart, Linked, Visits;
      ghost var bs, all := View(), Flat(View());
      ghost var rest := all;
      VisitsAll(bs);
      out := [];
      var pos := Begin();
      VisitStep(bs, pos, rest);
      while pos != END
        invariant View() == bs && Visits(bs, pos, rest) && out + rest == all && (pos == END <==> rest == [])
        decreases |rest|
      {
        VisitStep(bs, pos, rest);
        var v := AtI(pos);
        out := out + [v.value];
        rest := rest[1..];
        pos := NextI(pos);
        VisitStep(bs, pos, rest);
      }
    }

    lemma VisitStep(bs: seq<seq<V>>, pos: nat, rest: seq<V>)
      requires Visits(bs, pos, rest)
      ensures pos == END <==> rest == []
      ensures rest != [] ==> AtPos(bs, pos) == Some(rest[0]) && Visits(bs, NextPos(bs, pos), rest[1..]) && [rest[0]] + rest[1..] == rest
    {
      hide AtPos, NextPos;
    }
  }
}
