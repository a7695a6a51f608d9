/** The index of a port: sockets by their handle, through the tree nodes embedded in them. */
module SockIndex {
  import opened Common
  import T = TreeShape
  import opened SockTree

  type SockId = nat

  /** The tree holds exactly the nodes of the sockets in `keys`, each under its key. */
  ghost predicate Indexes(es: set<T.Entry>, leaf: map<SockId, T.Node>, keys: map<nat, SockId>) {
    && (forall key | key in keys :: keys[key] in leaf && T.Entry(key, leaf[keys[key]]) in es)
    && (forall e | e in es :: e.key in keys && keys[e.key] in leaf && leaf[keys[e.key]] == e.n)
    && (forall j, k | j in keys && k in keys && j != k :: keys[j] != keys[k])
  }

  ghost predicate OwnNodes(leaf: map<SockId, T.Node>, owner: map<T.Node, SockId>) {
    forall s | s in leaf :: leaf[s] in owner && owner[leaf[s]] == s
  }

  lemma Added(es: set<T.Entry>, leaf: map<SockId, T.Node>, keys: map<nat, SockId>, key: nat, s: SockId)
    requires Indexes(es, leaf, keys) && s in leaf && key !in keys && s !in keys.Values
    ensures Indexes(es + {T.Entry(key, leaf[s])}, leaf, keys[key := s])
  {
  }

  lemma Removed(es: set<T.Entry>, leaf: map<SockId, T.Node>, owner: map<T.Node, SockId>, keys: map<nat, SockId>,
    key: nat, e: T.Entry)
    requires Indexes(es, leaf, keys) && OwnNodes(leaf, owner) && key in keys && e in es && e.n == leaf[keys[key]]
    ensures e.key == key && Indexes(es - {e}, leaf, keys - {key})
  {
    assert owner[leaf[keys[e.key]]] == keys[e.key] && owner[leaf[keys[key]]] == keys[key];
  }

  lemma Unregistered(t: T.Shape, leaf: map<SockId, T.Node>, owner: map<T.Node, SockId>, keys: map<nat, SockId>,
    s: SockId)
    requires Indexes(T.Entries(t), leaf, keys) && OwnNodes(leaf, owner) && s in leaf && s !in keys.Values
    ensures leaf[s] !in T.Nodes(t)
  {
    T.NodesInOrder(t, leaf[s]);
    forall e | e in T.Entries(t)
      ensures e.n != leaf[s]
    {
      assert keys[e.key] in keys.Values;
      assert owner[leaf[keys[e.key]]] == keys[e.key] && owner[leaf[s]] == s;
    }
  }

  lemma Registered(t: T.Shape, e: T.Entry)
    requires e in T.Entries(t)
    ensures e.n in T.Nodes(t)
  {
    T.NodesInOrder(t, e.n);
  }

  class Index {
    const tree: Tree
    var leaf: map<SockId, T.Node>
    var owner: map<T.Node, SockId>
    ghost var keys: map<nat, SockId>
    ghost var nodes: set<T.Node>

    ghost predicate Valid()
      reads this, tree, nodes
    {
      && nodes == T.Nodes(tree.shape) && tree.Valid()
      && Indexes(T.Entries(tree.shape), leaf, keys) && OwnNodes(leaf, owner)
    }

    constructor ()
      ensures Valid() && leaf == map[] && keys == map[] && fresh(tree) && nodes == {}
    {
      tree := new Tree();
      leaf, owner, keys, nodes := map[], map[], map[], {};
    }

    /** port_find_socket */
    method Find(key: nat) returns (s: Option<SockId>)
      requires Valid()
      ensures s == if key in keys then Some(keys[key]) else None
    {
      var n := tree.Find(key);
      s := if n == null then None else Some(owner[n]);
      if n != null {
        assert T.Entry(key, n) in T.Entries(tree.shape);
      }
    }

    /** port_register_socket */
    method Register(s: SockId, key: nat) returns (ok: bool)
      requires Valid() && s in leaf && s !in keys.Values
      modifies this`keys, this`nodes, tree, leaf[s], nodes
      ensures Valid() && ok == (key !in old(keys)) && keys == if ok then old(keys)[key := s] else old(keys)
      ensures nodes <= old(nodes) + {leaf[s]}
    {
      hide Indexes, OwnNodes, Tree.Valid;
      ok := RegisterLeaf(tree, s, key, leaf, owner, keys);
      nodes := T.Nodes(tree.shape);
      if ok {
        keys := keys[key := s];
      }
    }

    /** port_unregister_socket */
    method Unregister(s: SockId, ghost key: nat)
      requires Valid() && key in keys && keys[key] == s
      modifies this`keys, this`nodes, tree, nodes
      ensures Valid() && keys == old(keys) - {key} && nodes <= old(nodes)
    {
      hide Indexes, OwnNodes, Tree.Valid;
      LeafThere(T.Entries(tree.shape), leaf, keys, key);
      UnregisterLeaf(tree, leaf[s], key, leaf, owner, keys);
      keys, nodes := keys - {key}, T.Nodes(tree.shape);
    }

    /** The socket at the root of the tree, as port_delete takes it. */
    method AtRoot() returns (s: Option<SockId>)
      requires Valid()
      ensures s == None <==> keys == map[]
      ensures s.Some? ==> exists key :: key in keys && keys[key] == s.value
    {
      RootEntry(tree.shape);
      s := if tree.root == null then None else Some(owner[tree.root]);
      if tree.root != null {
        ghost var e :| e in T.Entries(tree.shape) && e.n == tree.root;
        assert keys[e.key] == s.value;
      }
    }

    /** tree_node_init in a new socket. */
    method New(s: SockId)
      requires Valid() && s !in leaf
      modifies this`leaf, this`owner
      ensures Valid() && leaf.Keys == old(leaf.Keys) + {s} && fresh(leaf[s])
    {
      hide Indexes, OwnNodes, T.RedBlack, T.Sorted, T.InOrder, T.Holds;
      ghost var t := tree.shape;
      ghost var ns, m := T.Nodes(t), T.Mem(T.Nodes(t));
      assert forall x | x in ns :: allocated(x);
      var n := new T.Node();
      assert T.Mem(ns) == m;
      leaf, owner := leaf[s := n], owner[n := s];
      OneMore(T.Entries(tree.shape), old(leaf), old(owner), keys, s, n);
    }

    /** The socket is freed. */
    method Forget(s: SockId)
      requires Valid() && s !in keys.Values
      modifies this`leaf
      ensures Valid() && leaf == old(leaf) - {s}
    {
      OneLess(T.Entries(tree.shape), leaf, owner, keys, s);
      hide Indexes, OwnNodes;
      leaf := leaf - {s};
    }
  }

  lemma KeyPresent(es: set<T.Entry>, leaf: map<SockId, T.Node>, keys: map<nat, SockId>, key: nat)
    requires Indexes(es, leaf, keys)
    ensures (exists e :: e in es && e.key == key) <==> key in keys
  {
    if key in keys {
      assert T.Entry(key, leaf[keys[key]]) in es;
    }
  }

  lemma LeafThere(es: set<T.Entry>, leaf: map<SockId, T.Node>, keys: map<nat, SockId>, key: nat)
    requires Indexes(es, leaf, keys) && key in keys
    ensures keys[key] in leaf && T.Entry(key, leaf[keys[key]]) in es
  {
  }

  lemma OneMore(es: set<T.Entry>, leaf: map<SockId, T.Node>, owner: map<T.Node, SockId>, keys: map<nat, SockId>,
    s: SockId, n: T.Node)
    requires Indexes(es, leaf, keys) && OwnNodes(leaf, owner) && s !in leaf && n !in leaf.Values
    ensures Indexes(es, leaf[s := n], keys) && OwnNodes(leaf[s := n], owner[n := s])
  {
  }

  lemma OneLess(es: set<T.Entry>, leaf: map<SockId, T.Node>, owner: map<T.Node, SockId>, keys: map<nat, SockId>,
    s: SockId)
    requires Indexes(es, leaf, keys) && OwnNodes(leaf, owner) && s !in keys.Values
    ensures Indexes(es, leaf - {s}, keys) && OwnNodes(leaf - {s}, owner)
  {
    assert forall key | key in keys :: keys[key] in keys.Values;
  }

  lemma RootEntry(t: T.Shape)
    ensures t.Fork? ==> T.Entry(t.key, t.n) in T.Entries(t)
    ensures t.Nil? ==> T.Entries(t) == {}
  {
  }

  /** tree_add with the index that it leaves behind. */
  method RegisterLeaf(tree: Tree, s: SockId, key: nat, leaf: map<SockId, T.Node>, ghost owner: map<T.Node, SockId>,
    ghost keys: map<nat, SockId>)
    returns (ok: bool)
    requires tree.Valid() && Indexes(T.Entries(tree.shape), leaf, keys) && OwnNodes(leaf, owner)
    requires s in leaf && s !in keys.Values
    modifies tree, leaf[s], T.Nodes(tree.shape)
    ensures tree.Valid() && ok == (key !in keys)
    ensures Indexes(T.Entries(tree.shape), leaf, if ok then keys[key := s] else keys)
    ensures T.Nodes(tree.shape) <= old(T.Nodes(tree.shape)) + {leaf[s]}
  {
    ghost var es := T.Entries(tree.shape);
    Unregistered(tree.shape, leaf, owner, keys, s);
    KeyPresent(es, leaf, keys, key);
    if key !in keys {
      Added(es, leaf, keys, key, s);
    }
    hide Indexes, OwnNodes, T.Entries;
    var r := tree.Add(leaf[s], key);
    ok := r == 0;
  }

  /** tree_del with the index that it leaves behind. */
  method UnregisterLeaf(tree: Tree, n: T.Node, ghost key: nat, ghost leaf: map<SockId, T.Node>,
    ghost owner: map<T.Node, SockId>, ghost keys: map<nat, SockId>)
    requires tree.Valid() && Indexes(T.Entries(tree.shape), leaf, keys) && OwnNodes(leaf, owner)
    requires key in keys && keys[key] in leaf && n == leaf[keys[key]]
    modifies tree, T.Nodes(tree.shape)
    ensures tree.Valid() && Indexes(T.Entries(tree.shape), leaf, keys - {key})
    ensures T.Nodes(tree.shape) <= old(T.Nodes(tree.shape))
  {
    ghost var es, e := T.Entries(tree.shape), T.Entry(n.key, n);
    LeafThere(es, leaf, keys, key);
    Registered(tree.shape, T.Entry(key, n));
    if e in es {
      Removed(es, leaf, owner, keys, key, e);
    }
    hide Indexes, OwnNodes, T.Entries;
    tree.Del(n);
  }
}
