/**
 The control plane's index of what each node has cached: hot keys and a Bloom filter per node
 (ContentIndex in internal/contentindex/bloom.go).
 */
module ContentIndexes {
  import opened GoText
  import opened BloomFilters

  // None stands for nil.
  datatype Summary = Summary(hotKeys: Option<seq<string>>, bloomBytes: Option<seq<Byte>>, bloomK: uint32, totalKeys: int)

  datatype Index = Index(hotKeys: map<string, set<string>>, blooms: map<string, Bloom>, totalKeys: map<string, int>)

  const Empty: Index := Index(map[], map[], map[])

  predicate Probeable(ix: Index) {
    forall n | n in ix.blooms :: InBounds(ix.blooms[n])
  }

  // The filter in the summary, if it has one, can be probed.
  predicate Loadable(s: Summary) {
    s.bloomBytes.Some? && s.bloomK > 0 ==> InBounds(FromBytes(s.bloomBytes.value, s.bloomK))
  }

  function SetOf(keys: seq<string>): set<string> {
    set k | k in keys
  }

  function Updated(ix: Index, node: string, s: Summary): Index {
    Index(if s.hotKeys.Some? then ix.hotKeys[node := SetOf(s.hotKeys.value)] else ix.hotKeys,
          if s.bloomBytes.Some? && s.bloomK > 0 then ix.blooms[node := FromBytes(s.bloomBytes.value, s.bloomK)] else ix.blooms,
          ix.totalKeys[node := s.totalKeys])
  }

  function Removed(ix: Index, node: string): Index {
    Index(ix.hotKeys - {node}, ix.blooms - {node}, ix.totalKeys - {node})
  }

  // ---------- Lookups, one node at a time and all at once ----------

  predicate IsHot(ix: Index, node: string, key: string) {
    node in ix.hotKeys && key in ix.hotKeys[node]
  }

  predicate InBloom(ix: Index, hash: HashFn, node: string, key: string)
    requires Probeable(ix)
  {
    node in ix.blooms && Contains(ix.blooms[node], hash(key))
  }

  class ContentIndex {
    const hash: HashFn
    var hotKeys: map<string, set<string>>
    var blooms: map<string, Bloom>
    var totalKeys: map<string, int>

    function View(): Index
      reads this
    {
      Index(hotKeys, blooms, totalKeys)
    }

    constructor (hash: HashFn)
      ensures this.hash == hash && View() == Empty
    {
      this.hash := hash;
      hotKeys, blooms, totalKeys := map[], map[], map[];
    }

    method Update(node: string, s: Summary)
      modifies this
      ensures View() == Updated(old(View()), node, s)
      ensures Probeable(old(View())) && Loadable(s) ==> Probeable(View())
    {
      if s.hotKeys.Some? {
        var keys := s.hotKeys.value;
        var found: set<string> := {};
        for i := 0 to |keys|
          invariant found == SetOf(keys[..i])
          invariant View() == old(View())
        {
          found := found + {keys[i]};
        }
        assert keys[..|keys|] == keys;
        hotKeys := hotKeys[node := found];
      }
      if s.bloomBytes.Some? && s.bloomK > 0 {
        blooms := blooms[node := FromBytes(s.bloomBytes.value, s.bloomK)];
      }
      totalKeys := totalKeys[node := s.totalKeys];
    }

    method RemoveNode(node: string)
      modifies this
      ensures View() == Removed(old(View()), node)
      ensures Probeable(old(View())) ==> Probeable(View())
    {
      hotKeys, blooms, totalKeys := hotKeys - {node}, blooms - {node}, totalKeys - {node};
    }

    /** One node: whether the key is in its hot set, and whether it is likely cached at all. */
    method IsCached(node: string, key: string) returns (isHot: bool, likelyCached: bool)
      requires Probeable(View())
      ensures isHot <==> IsHot(View(), node, key)
      ensures likelyCached <==> IsHot(View(), node, key) || InBloom(View(), hash, node, key)
    {
      if node in hotKeys {
        if key in hotKeys[node] {
          return true, true;
        }
      }
      if node in blooms {
        if Contains(blooms[node], hash(key)) {
          return false, true;
        }
      }
      return false, false;
    }

    /** All nodes at once; a hot node is not looked up in its filter, so the sets are disjoint. */
    method FindNodesWithKey(key: string) returns (hot: set<string>, bloom: set<string>)
      requires Probeable(View())
      ensures forall n :: n in hot <==> IsHot(View(), n, key)
      ensures forall n :: n in bloom <==> !IsHot(View(), n, key) && InBloom(View(), hash, n, key)
    {
      hot, bloom := {}, {};
      var rest := hotKeys.Keys;
      while rest != {}
        invariant rest <= hotKeys.Keys
        invariant forall n :: n in hot <==> IsHot(View(), n, key) && n !in rest
        decreases |rest|
      {
        var n :| n in rest;
        if key in hotKeys[n] {
          hot := hot + {n};
        }
        rest := rest - {n};
      }
      rest := blooms.Keys;
      while rest != {}
        invariant rest <= blooms.Keys
        invariant forall n :: n in bloom <==> !IsHot(View(), n, key) && InBloom(View(), hash, n, key) && n !in rest
        decreases |rest|
      {
        var n :| n in rest;
        if n !in hot && Contains(blooms[n], hash(key)) {
          bloom := bloom + {n};
        }
        rest := rest - {n};
      }
    }
  }

  // ---------- Histories ----------

  datatype Op =
    | Update(node: string, summary: Summary)
    | Remove(node: string)

  function After(ops: seq<Op>): Index {
    if ops == [] then Empty
    else
      var ix := After(ops[..|ops| - 1]);
      match ops[|ops| - 1]
      case Update(node, s) => Updated(ix, node, s)
      case Remove(node) => Removed(ix, node)
  }

  // The last hot keys, and the last filter bytes, that the node sent since it was last removed.
  function LastHot(ops: seq<Op>, node: string): Option<seq<string>> {
    if ops == [] then None
    else
      var op := ops[|ops| - 1];
      if op.node != node then LastHot(ops[..|ops| - 1], node)
      else if op.Remove? then None
      else if op.summary.hotKeys.Some? then op.summary.hotKeys
      else LastHot(ops[..|ops| - 1], node)
  }

  function LastBloom(ops: seq<Op>, node: string): Option<Bloom> {
    if ops == [] then None
    else
      var op := ops[|ops| - 1];
      if op.node != node then LastBloom(ops[..|ops| - 1], node)
      else if op.Remove? then None
      else if op.summary.bloomBytes.Some? && op.summary.bloomK > 0 then
        Some(FromBytes(op.summary.bloomBytes.value, op.summary.bloomK))
      else LastBloom(ops[..|ops| - 1], node)
  }

  function LastTotal(ops: seq<Op>, node: string): Option<int> {
    if ops == [] then None
    else
      var op := ops[|ops| - 1];
      if op.node != node then LastTotal(ops[..|ops| - 1], node)
      else if op.Remove? then None
      else Some(op.summary.totalKeys)
  }

  /** After any history a key is hot on a node exactly when it is in the latest list of hot keys that
      the node sent since it was last removed. */
  lemma HotExactly(ops: seq<Op>, node: string, key: string)
    ensures IsHot(After(ops), node, key) <==> LastHot(ops, node).Some? && key in LastHot(ops, node).value
  {
    IndexIsLatest(ops, node);
  }

  /** After any history the index knows of each node the latest hot keys and the latest filter it
      sent, each part on its own, and nothing of a node removed since. */
  lemma {:induction false} IndexIsLatest(ops: seq<Op>, node: string)
    ensures
      var ix := After(ops);
      && (node in ix.hotKeys <==> LastHot(ops, node).Some?)
      && (node in ix.hotKeys ==> ix.hotKeys[node] == SetOf(LastHot(ops, node).value))
      && (node in ix.blooms <==> LastBloom(ops, node).Some?)
      && (node in ix.blooms ==> ix.blooms[node] == LastBloom(ops, node).value)
      && (node in ix.totalKeys <==> LastTotal(ops, node).Some?)
      && (node in ix.totalKeys ==> ix.totalKeys[node] == LastTotal(ops, node).value)
  {
    if ops != [] {
      IndexIsLatest(ops[..|ops| - 1], node);
    }
  }

  /** So when a node's latest filter was built by adding its keys, every one of those keys is
      reported as likely cached on that node. */
  lemma ReportedKeysAreFound(ops: seq<Op>, hash: HashFn, node: string, b: Bloom, keys: seq<string>, key: string)
    requires Probeable(After(ops)) && Holds(b, hash, keys) && b.k > 0 && key in keys
    requires LastBloom(ops, node) == Some(FromBytes(Serialize(b.words), b.k))
    ensures InBloom(After(ops), hash, node, key)
  {
    IndexIsLatest(ops, node);
    LoadedContainsExactly(b, hash, keys, key);
  }
}
