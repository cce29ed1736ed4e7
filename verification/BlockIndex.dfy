/** Who waits for which key: for every key the list of waiting clients in the order they blocked,
    for every client its keys with the node that stands for it in each list, and for every key
    the number of waiting clients that also want to know when the key goes away. */
module BlockIndex {

  /** Keys of different databases are different keys. */
  datatype Key = Key(db: nat, name: string)

  /** A node of a key's list; `id` tells nodes apart as their addresses do. */
  datatype Node = Node(id: nat, client: nat)

  datatype Index = Index(
    blocking: map<Key, seq<Node>>,     // db->blocking_keys
    nokey: map<Key, nat>,              // db->blocking_keys_unblock_on_nokey
    held: map<nat, map<Key, nat>>,     // c->bstate.keys, each key with its node
    nextNode: nat)

  // ----- Lists ------------------------------------------------------------------------------

  function Without(list: seq<Node>, id: nat): seq<Node> {
    if list == [] then []
    else (if list[0].id == id then [] else [list[0]]) + Without(list[1..], id)
  }

  function Count(list: seq<Node>, among: set<nat>): nat {
    if list == [] then 0 else (if list[0].client in among then 1 else 0) + Count(list[1..], among)
  }

  /** Nodes are numbered as they are made: the list is in the order in which clients blocked. */
  ghost predicate InOrder(list: seq<Node>) {
    forall i, j :: 0 <= i < j < |list| ==> list[i].id < list[j].id
  }

  lemma {:induction false} WithoutMeans(list: seq<Node>, id: nat)
    ensures forall n :: n in Without(list, id) <==> n in list && n.id != id
  {
    if list != [] {
      WithoutMeans(list[1..], id);
      assert list == [list[0]] + list[1..];
    }
  }

  lemma {:induction false} WithoutInOrder(list: seq<Node>, id: nat)
    requires InOrder(list)
    ensures InOrder(Without(list, id))
  {
    if list != [] {
      var w := Without(list[1..], id);
      assert InOrder(list[1..]);
      WithoutInOrder(list[1..], id);
      WithoutMeans(list[1..], id);
      forall n | n in w ensures list[0].id < n.id {
        IdLater(list, n);
      }
      ConsInOrder(list[0], w);
      assert [] + w == w;
    }
  }

  lemma IdLater(list: seq<Node>, n: Node)
    requires InOrder(list) && list != [] && n in list[1..]
    ensures list[0].id < n.id
  {
    var k :| 0 <= k < |list[1..]| && list[1..][k] == n;
    assert list[k + 1] == n;
  }

  lemma ConsInOrder(n: Node, w: seq<Node>)
    requires InOrder(w) && forall m :: m in w ==> n.id < m.id
    ensures InOrder([n] + w)
  {
    forall i, j | 0 <= i < j < |[n] + w| ensures ([n] + w)[i].id < ([n] + w)[j].id {
      assert ([n] + w)[j] == w[j - 1] && w[j - 1] in w;
    }
  }

  lemma {:induction false} WithoutNothing(list: seq<Node>, id: nat)
    requires forall n :: n in list ==> n.id != id
    ensures Without(list, id) == list
  {
    if list != [] {
      assert list[0] in list;
      WithoutNothing(list[1..], id);
      assert [list[0]] + list[1..] == list;
    }
  }

  lemma {:induction false} CountAppend(list: seq<Node>, n: Node, among: set<nat>)
    ensures Count(list + [n], among) == Count(list, among) + if n.client in among then 1 else 0
  {
    if list == [] {
      assert [] + [n] == [n];
    } else {
      CountAppend(list[1..], n, among);
      assert (list + [n])[1..] == list[1..] + [n];
    }
  }

  lemma {:induction false} CountWithout(list: seq<Node>, n: Node, among: set<nat>)
    requires InOrder(list) && n in list
    ensures Count(Without(list, n.id), among) == Count(list, among) - if n.client in among then 1 else 0
  {
    if list[0].id == n.id {
      var k :| 0 <= k < |list| && list[k] == n;
      assert k == 0;
      forall m | m in list[1..] ensures m.id != n.id {
        IdLater(list, m);
      }
      WithoutNothing(list[1..], n.id);
      assert [] + list[1..] == list[1..];
    } else {
      CountWithout(list[1..], n, among);
      var w := Without(list[1..], n.id);
      assert ([list[0]] + w)[1..] == w;
    }
  }

  lemma {:induction false} CountSame(list: seq<Node>, a: set<nat>, b: set<nat>)
    requires forall n :: n in list ==> (n.client in a <==> n.client in b)
    ensures Count(list, a) == Count(list, b)
  {
    if list != [] {
      assert list[0] in list;
      CountSame(list[1..], a, b);
    }
  }

  lemma {:induction false} CountPositive(list: seq<Node>, among: set<nat>)
    ensures Count(list, among) > 0 <==> exists n :: n in list && n.client in among
  {
    if list != [] {
      CountPositive(list[1..], among);
      assert list[0] in list;
    }
  }

  // ----- The operations ------------------------------------------------------------------------

  /** The body of the loop of blockForKeys for one key. */
  function Link(x: Index, c: nat, key: Key, onNokey: bool): Index
    requires c in x.held
  {
    if key in x.held[c] then x
    else
      var list := if key in x.blocking then x.blocking[key] else [];
      var count := if key in x.nokey then x.nokey[key] else 0;
      var mine: map<Key, nat> := x.held[c][key := x.nextNode];
      Index(x.blocking[key := list + [Node(x.nextNode, c)]],
            if onNokey then x.nokey[key := count + 1] else x.nokey,
            x.held[c := mine],
            x.nextNode + 1)
  }

  function LinkAll(x: Index, c: nat, keys: seq<Key>, onNokey: bool): (y: Index)
    requires c in x.held
    ensures y.held.Keys == x.held.Keys
    decreases |keys|
  {
    if keys == [] then x else Link(LinkAll(x, c, keys[..|keys| - 1], onNokey), c, keys[|keys| - 1], onNokey)
  }

  /** The list of `key` after the client has left it. */
  function Rest(x: Index, c: nat, key: Key): seq<Node>
    requires c in x.held && key in x.held[c] && key in x.blocking
  {
    Without(x.blocking[key], x.held[c][key])
  }

  predicate Emptied(x: Index, c: nat, ks: set<Key>, key: Key)
    requires c in x.held
  {
    key in ks && key in x.held[c] && key in x.blocking && Rest(x, c, key) == []
  }

  /** The client leaves the lists of `ks`; empty lists go, and so do counts that reach zero. */
  function Unlink(x: Index, c: nat, ks: set<Key>, onNokey: bool): Index
    requires c in x.held
  {
    Index(
      map k | k in x.blocking && !Emptied(x, c, ks, k) ::
        if k in ks && k in x.held[c] then Rest(x, c, k) else x.blocking[k],
      map k | k in x.nokey && !Emptied(x, c, ks, k) && !(k in ks && k in x.held[c] && onNokey && x.nokey[k] <= 1) ::
        if k in ks && k in x.held[c] && onNokey then x.nokey[k] - 1 else x.nokey[k],
      x.held[c := x.held[c] - ks],
      x.nextNode)
  }

  // ----- The invariant -------------------------------------------------------------------------

  /** The node stands for a client that holds the key with this very node. */
  ghost predicate Held(x: Index, key: Key, n: Node) {
    n.client in x.held && key in x.held[n.client] && x.held[n.client][key] == n.id && n.id < x.nextNode
  }

  ghost predicate GoodList(x: Index, key: Key, among: set<nat>)
    requires key in x.blocking
  {
    && x.blocking[key] != []
    && InOrder(x.blocking[key])
    && (forall n :: n in x.blocking[key] ==> Held(x, key, n))
    && (if key in x.nokey then x.nokey[key] else 0) == Count(x.blocking[key], among)
  }

  /** `among` are the clients that want to know when a key goes away. */
  ghost predicate Good(x: Index, among: set<nat>) {
    && (forall k :: k in x.blocking ==> GoodList(x, k, among))
    && (forall c, k :: c in x.held && k in x.held[c] ==> k in x.blocking && Node(x.held[c][k], c) in x.blocking[k])
    && (forall k :: k in x.nokey ==> k in x.blocking && x.nokey[k] > 0)
  }

  /** A client holds a key exactly when it occurs in the key's list; it occurs there once, and
      the stored node is that occurrence. */
  lemma OccursOnce(x: Index, among: set<nat>, c: nat, k: Key)
    requires Good(x, among)
    ensures (c in x.held && k in x.held[c]) <==>
      (k in x.blocking && exists i :: 0 <= i < |x.blocking[k]| && x.blocking[k][i].client == c)
    ensures k in x.blocking ==>
      forall i, j ::
        (&& 0 <= i < |x.blocking[k]| && 0 <= j < |x.blocking[k]|
         && x.blocking[k][i].client == c && x.blocking[k][j].client == c)
        ==> i == j && c in x.held && k in x.held[c] && x.blocking[k][i].id == x.held[c][k]
  {
    if c in x.held && k in x.held[c] {
      var n := Node(x.held[c][k], c);
      assert n in x.blocking[k];
    }
    if k in x.blocking {
      assert GoodList(x, k, among);
      forall i | 0 <= i < |x.blocking[k]| ensures Held(x, k, x.blocking[k][i]) {
        assert x.blocking[k][i] in x.blocking[k];
      }
    }
  }

  /** The count of a key is the number of waiting clients that want to know. */
  lemma NokeyMeans(x: Index, among: set<nat>, k: Key)
    requires Good(x, among)
    ensures k in x.nokey <==> exists c :: c in among && c in x.held && k in x.held[c]
  {
    if k in x.blocking {
      assert GoodList(x, k, among);
      CountPositive(x.blocking[k], among);
      if exists n :: n in x.blocking[k] && n.client in among {
        var n :| n in x.blocking[k] && n.client in among;
        assert Held(x, k, n);
      }
    }
    if c :| c in among && c in x.held && k in x.held[c] {
      assert Node(x.held[c][k], c) in x.blocking[k];
    }
  }

  // ----- The operations keep it --------------------------------------------------------------------

  /** A client that waits for nothing may change its mind about missing keys. */
  lemma AmongOther(x: Index, among: set<nat>, other: set<nat>)
    requires Good(x, among)
    requires forall c :: c in x.held && x.held[c] != map[] ==> (c in among <==> c in other)
    ensures Good(x, other)
  {
    forall k | k in x.blocking ensures GoodList(x, k, other) {
      assert GoodList(x, k, among);
      forall n | n in x.blocking[k] ensures n.client in among <==> n.client in other {
        assert Held(x, k, n);
        assert x.held[n.client] != map[];
      }
      CountSame(x.blocking[k], among, other);
    }
  }

  lemma LinkKeeps(x: Index, c: nat, key: Key, onNokey: bool, among: set<nat>)
    requires Good(x, among) && c in x.held && (c in among <==> onNokey)
    ensures Good(Link(x, c, key, onNokey), among)
    ensures Link(x, c, key, onNokey).held.Keys == x.held.Keys
    ensures Link(x, c, key, onNokey).held[c].Keys == x.held[c].Keys + {key}
  {
    hide GoodList;
    var y := Link(x, c, key, onNokey);
    if key !in x.held[c] {
      var n := Node(x.nextNode, c);
      var list := if key in x.blocking then x.blocking[key] else [];
      LinkedList(x, c, key, onNokey, among);
      forall k | k in y.blocking ensures GoodList(y, k, among) {
        if k != key {
          OtherList(x, y, k, among);
        }
      }
      forall d, k | d in y.held && k in y.held[d]
        ensures k in y.blocking && Node(y.held[d][k], d) in y.blocking[k]
      {
        if d == c && k == key {
          assert y.blocking[key][|list|] == n;
        } else {
          var old' := Node(x.held[d][k], d);
          assert old' in x.blocking[k];
        }
      }
    }
  }

  lemma LinkedList(x: Index, c: nat, key: Key, onNokey: bool, among: set<nat>)
    requires Good(x, among) && c in x.held && (c in among <==> onNokey) && key !in x.held[c]
    ensures key in Link(x, c, key, onNokey).blocking && GoodList(Link(x, c, key, onNokey), key, among)
  {
    var y := Link(x, c, key, onNokey);
    var n := Node(x.nextNode, c);
    var list := if key in x.blocking then x.blocking[key] else [];
    assert key in x.blocking ==> GoodList(x, key, among);
    CountAppend(list, n, among);
    forall m | m in list ensures Held(y, key, m) && m.id < n.id {
      assert Held(x, key, m);
    }
    forall i | 0 <= i < |list| ensures list[i].id < n.id {
      assert list[i] in list;
    }
  }

  /** A list that an operation on another key, or on another client, does not touch. */
  lemma OtherList(x: Index, y: Index, k: Key, among: set<nat>)
    requires k in x.blocking && GoodList(x, k, among)
    requires k in y.blocking && y.blocking[k] == x.blocking[k]
    requires (k in y.nokey <==> k in x.nokey) && (k in x.nokey ==> y.nokey[k] == x.nokey[k])
    requires x.nextNode <= y.nextNode
    requires forall n :: n in x.blocking[k] && Held(x, k, n) ==>
      n.client in y.held && k in y.held[n.client] && y.held[n.client][k] == n.id
    ensures GoodList(y, k, among)
  {
    forall n | n in y.blocking[k] ensures Held(y, k, n) {
      assert Held(x, k, n);
    }
  }

  /** A list from which the client has been unlinked. */
  lemma UnlinkedList(x: Index, c: nat, ks: set<Key>, onNokey: bool, among: set<nat>, k: Key)
    requires Good(x, among) && c in x.held && (c in among <==> onNokey)
    requires k in ks && k in x.held[c]
    ensures var y := Unlink(x, c, ks, onNokey);
      && (k in y.blocking ==> GoodList(y, k, among))
      && (k in y.nokey ==> k in y.blocking && y.nokey[k] > 0)
      && (k in y.blocking <==> Rest(x, c, k) != [])
  {
    hide Without, Count;
    var y := Unlink(x, c, ks, onNokey);
    var n := Node(x.held[c][k], c);
    assert n in x.blocking[k] && GoodList(x, k, among);
    WithoutMeans(x.blocking[k], n.id);
    WithoutInOrder(x.blocking[k], n.id);
    CountWithout(x.blocking[k], n, among);
    CountPositive(x.blocking[k], among);
    forall m | m in Rest(x, c, k) ensures Held(y, k, m) {
      assert m in x.blocking[k] && Held(x, k, m);
    }
  }

  /** Leaving any of one's lists keeps everything else as it is. */
  lemma UnlinkKeeps(x: Index, c: nat, ks: set<Key>, onNokey: bool, among: set<nat>)
    requires Good(x, among) && c in x.held && (c in among <==> onNokey)
    ensures Good(Unlink(x, c, ks, onNokey), among)
  {
    hide Rest, Count, GoodList, Emptied, InOrder;
    var y := Unlink(x, c, ks, onNokey);
    forall k | k in y.blocking ensures GoodList(y, k, among) {
      if k in ks && k in x.held[c] {
        UnlinkedList(x, c, ks, onNokey, among, k);
      } else {
        KeptList(x, c, ks, onNokey, among, k);
      }
    }
    forall d, k | d in y.held && k in y.held[d]
      ensures k in y.blocking && Node(y.held[d][k], d) in y.blocking[k]
    {
      KeptNode(x, c, ks, onNokey, among, d, k);
    }
    forall k | k in y.nokey ensures k in y.blocking && y.nokey[k] > 0 {
      if k in ks && k in x.held[c] {
        UnlinkedList(x, c, ks, onNokey, among, k);
      }
    }
  }

  lemma KeptList(x: Index, c: nat, ks: set<Key>, onNokey: bool, among: set<nat>, k: Key)
    requires Good(x, among) && c in x.held && k in x.blocking && !(k in ks && k in x.held[c])
    ensures k in Unlink(x, c, ks, onNokey).blocking && GoodList(Unlink(x, c, ks, onNokey), k, among)
  {
    var y := Unlink(x, c, ks, onNokey);
    assert GoodList(x, k, among);
    OtherList(x, y, k, among);
  }

  lemma KeptNode(x: Index, c: nat, ks: set<Key>, onNokey: bool, among: set<nat>, d: nat, k: Key)
    requires Good(x, among) && c in x.held
    requires d in x.held && k in Unlink(x, c, ks, onNokey).held[d]
    ensures var y := Unlink(x, c, ks, onNokey);
      k in y.blocking && Node(y.held[d][k], d) in y.blocking[k]
  {
    var n := Node(x.held[d][k], d);
    assert n in x.blocking[k];
    if k in ks && k in x.held[c] {
      assert GoodList(x, k, among);
      var m := Node(x.held[c][k], c);
      assert m in x.blocking[k];
      SameIdSameNode(x.blocking[k], n, m);
      WithoutMeans(x.blocking[k], m.id);
      assert n in Rest(x, c, k);
    }
  }

  lemma SameIdSameNode(list: seq<Node>, n: Node, m: Node)
    requires InOrder(list) && n in list && m in list
    ensures n.id == m.id ==> n == m
  {
  }

  lemma {:induction false} LinkAllKeeps(x: Index, c: nat, keys: seq<Key>, onNokey: bool, among: set<nat>)
    requires Good(x, among) && c in x.held && (c in among <==> onNokey)
    ensures var y := LinkAll(x, c, keys, onNokey);
      Good(y, among) && y.held[c].Keys == x.held[c].Keys + (set k | k in keys)
      && forall d :: d in x.held && d != c ==> y.held[d] == x.held[d]
    decreases |keys|
  {
    hide Good, LinkAll;
    LinkUnfold(x, c, keys, onNokey);
    if keys != [] {
      var front, last := keys[..|keys| - 1], keys[|keys| - 1];
      LinkAllKeeps(x, c, front, onNokey, among);
      LinkKeeps(LinkAll(x, c, front, onNokey), c, last, onNokey, among);
      assert keys == front + [last];
      assert (set k | k in keys) == (set k | k in front) + {last};
    }
  }

  lemma LinkUnfold(x: Index, c: nat, keys: seq<Key>, onNokey: bool)
    requires c in x.held
    ensures LinkAll(x, c, keys, onNokey) == if keys == [] then x
      else Link(LinkAll(x, c, keys[..|keys| - 1], onNokey), c, keys[|keys| - 1], onNokey)
  {
    hide Link;
  }

  /** What leaving lists means for one key. */
  lemma UnlinkAt(x: Index, c: nat, ks: set<Key>, onNokey: bool, j: Key)
    requires c in x.held
    ensures var y := Unlink(x, c, ks, onNokey);
      && (!(j in ks && j in x.held[c]) ==>
            && (j in y.blocking <==> j in x.blocking) && (j in x.blocking ==> y.blocking[j] == x.blocking[j])
            && (j in y.nokey <==> j in x.nokey) && (j in x.nokey ==> y.nokey[j] == x.nokey[j]))
      && (j in y.held[c] <==> j in x.held[c] && j !in ks) && (j in y.held[c] ==> y.held[c][j] == x.held[c][j])
  {
  }

  /** Leaving a list depends on that list, its node and its count only. */
  lemma UnlinkSame(x: Index, y: Index, c: nat, ks: set<Key>, ls: set<Key>, onNokey: bool, j: Key)
    requires c in x.held && c in y.held && (j in ks <==> j in ls)
    requires (j in x.held[c] <==> j in y.held[c]) && (j in x.held[c] ==> x.held[c][j] == y.held[c][j])
    requires (j in x.blocking <==> j in y.blocking) && (j in x.blocking ==> x.blocking[j] == y.blocking[j])
    requires (j in x.nokey <==> j in y.nokey) && (j in x.nokey ==> x.nokey[j] == y.nokey[j])
    ensures var a, b := Unlink(x, c, ks, onNokey), Unlink(y, c, ls, onNokey);
      && (j in a.blocking <==> j in b.blocking) && (j in a.blocking ==> a.blocking[j] == b.blocking[j])
      && (j in a.nokey <==> j in b.nokey) && (j in a.nokey ==> a.nokey[j] == b.nokey[j])
  {
  }
}
