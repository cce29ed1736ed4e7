/** Serving a key: the loop of handleClientsBlockedOnKey over the server's own steps. The loop reads
    the length of the key's list once and the next node before each visit; a visit may wake the
    client, which leaves all its lists, and executes its command, which may block it again, block
    others, or signal keys. */
module BlockServe {
  import opened BlockIndex
  import opened Blocked

  function ListOf(x: Index, key: Key): seq<Node> {
    if key in x.blocking then x.blocking[key] else []
  }

  /** What a visit to client `c` can do: only `c` itself stops waiting. */
  predicate Own(e: Step, c: nat) {
    match e
    case Unblock(d, _) => d == c
    case WakeOnKey(d, _) => d == c
    case _ => true
  }

  /** One round of the loop: the node that listNext returned, and what happened during the visit. */
  datatype Round = Round(node: Node, states: seq<Sys>, steps: seq<Step>)

  ghost predicate IsVisit(r: Round) {
    && |r.states| == |r.steps| + 1
    && forall i :: 0 <= i < |r.steps| ==>
         && Typed(r.states[i]) && Enabled(r.states[i], r.steps[i]) && Own(r.steps[i], r.node.client)
         && r.states[i + 1] == Next(r.states[i], r.steps[i])
  }

  function End(r: Round): Sys
    requires |r.states| == |r.steps| + 1
  {
    r.states[|r.steps|]
  }

  ghost predicate IsNext(list: seq<Node>, n: Node, m: Node) {
    exists i, j :: 0 <= i < j < |list| && j == i + 1 && list[i] == n && list[j] == m
  }

  ghost predicate IsLast(list: seq<Node>, n: Node) {
    list != [] && list[|list| - 1] == n
  }

  /** The rounds from node `n` on, with `count` of them allowed. The iterator holds the node that
      followed `n` when the visit began. */
  ghost predicate RoundsFrom(s: Sys, key: Key, n: Node, count: nat, rounds: seq<Round>)
    decreases |rounds|
  {
    && rounds != [] && rounds[0].node == n && IsVisit(rounds[0]) && rounds[0].states[0] == s
    && if count == 1 || IsLast(ListOf(s.index, key), n) then |rounds| == 1
       else
         && |rounds| > 1
         && IsNext(ListOf(s.index, key), n, rounds[1].node)
         && RoundsFrom(End(rounds[0]), key, rounds[1].node, if count > 0 then count - 1 else 0, rounds[1..])
  }

  /** A complete execution of the loop. */
  ghost predicate Serves(s: Sys, key: Key, rounds: seq<Round>) {
    var entry := ListOf(s.index, key);
    if entry == [] then rounds == [] else RoundsFrom(s, key, entry[0], |entry|, rounds)
  }

  // ----- What a visit does to the list ------------------------------------------------------------

  /** From `x` to `y` nothing but new nodes came to the list, and only nodes of `c` left it. */
  ghost predicate Kept(x: Index, y: Index, key: Key, c: nat) {
    && x.nextNode <= y.nextNode
    && (forall n :: n in ListOf(y, key) ==> n in ListOf(x, key) || n.id >= x.nextNode)
    && (forall n :: n in ListOf(x, key) && n.client != c ==> n in ListOf(y, key))
  }

  lemma LinkKept(x: Index, d: nat, k: Key, onNokey: bool, key: Key, c: nat)
    requires d in x.held
    ensures Kept(x, Link(x, d, k, onNokey), key, c)
  {
  }

  lemma {:induction false} LinkAllKept(x: Index, d: nat, keys: seq<Key>, onNokey: bool, key: Key, c: nat)
    requires d in x.held
    ensures Kept(x, LinkAll(x, d, keys, onNokey), key, c)
    decreases |keys|
  {
    hide Link;
    if keys != [] {
      var front := keys[..|keys| - 1];
      LinkAllKept(x, d, front, onNokey, key, c);
      LinkKept(LinkAll(x, d, front, onNokey), d, keys[|keys| - 1], onNokey, key, c);
    }
  }

  lemma UnlinkList(x: Index, c: nat, ks: set<Key>, onNokey: bool, key: Key)
    requires c in x.held && (key in x.held[c] ==> key in x.blocking)
    ensures ListOf(Unlink(x, c, ks, onNokey), key)
         == if key in ks && key in x.held[c] then Without(x.blocking[key], x.held[c][key]) else ListOf(x, key)
    ensures Unlink(x, c, ks, onNokey).nextNode == x.nextNode
  {
    hide Without;
  }

  /** The node of a client is the only one in the list with its number. */
  lemma OwnNode(x: Index, among: set<nat>, c: nat, key: Key)
    requires Good(x, among) && c in x.held && key in x.held[c]
    ensures key in x.blocking
    ensures forall n :: n in x.blocking[key] && n.id == x.held[c][key] ==> n.client == c
  {
    var mine := Node(x.held[c][key], c);
    assert mine in x.blocking[key] && GoodList(x, key, among);
    forall n | n in x.blocking[key] && n.id == mine.id ensures n.client == c {
      SameIdSameNode(x.blocking[key], n, mine);
    }
  }

  lemma SameIdSameNode(list: seq<Node>, n: Node, m: Node)
    requires InOrder(list) && n in list && m in list && n.id == m.id
    ensures n == m
  {
    var i :| 0 <= i < |list| && list[i] == n;
    var j :| 0 <= j < |list| && list[j] == m;
    assert i == j;
  }

  lemma UnlinkKept(x: Index, c: nat, ks: set<Key>, onNokey: bool, among: set<nat>, key: Key)
    requires Good(x, among) && c in x.held
    ensures Kept(x, Unlink(x, c, ks, onNokey), key, c)
  {
    hide Good, Unlink, Without;
    if key in x.held[c] {
      OwnNode(x, among, c, key);
      WithoutMeans(x.blocking[key], x.held[c][key]);
    }
    UnlinkList(x, c, ks, onNokey, key);
  }

  lemma SameKept(x: Index, y: Index, key: Key, c: nat)
    requires x.blocking == y.blocking && x.nextNode == y.nextNode
    ensures Kept(x, y, key, c)
  {
  }

  lemma KeptTwice(x: Index, y: Index, z: Index, key: Key, c: nat)
    requires Kept(x, y, key, c) && Kept(y, z, key, c)
    ensures Kept(x, z, key, c)
  {
  }

  lemma StepKept(s: Sys, e: Step, key: Key, c: nat)
    requires Inv(s) && Enabled(s, e) && Own(e, c)
    ensures Kept(s.index, Next(s, e).index, key, c)
  {
    hide Kept, Unlink, LinkAll, Good, Clients, Counters;
    match e {
      case Block(d, b, keys, onNokey) => LinkAllKept(s.index, d, keys, onNokey, key, c);
      case Unblock(d, queue) => UnblockKept(s, d, queue, key);
      case WakeOnKey(d, k) =>
        UnlinkKept(s.index, d, {k}, s.info[d].onNokey, NokeyClients(s.info), key);
        ReleaseKeeps(s, d, k);
        UnblockKept(ReleaseKey(s, d, k), d, false, key);
        KeptTwice(s.index, ReleaseKey(s, d, k).index, Next(s, e).index, key, c);
      case _ => SameKept(s.index, Next(s, e).index, key, c);
    }
  }

  lemma UnblockKept(s: Sys, c: nat, queue: bool, key: Key)
    requires Inv(s) && c in s.info
    ensures Kept(s.index, UnblockClient(s, c, queue).index, key, c)
  {
    hide Kept, Unlink, Good;
    UnlinkKept(s.index, c, s.index.held[c].Keys, s.info[c].onNokey, NokeyClients(s.info), key);
    SameKept(s.index, s.index, key, c);
  }

  lemma {:induction false} VisitKept(r: Round, key: Key, k: nat)
    requires IsVisit(r) && Inv(r.states[0]) && k <= |r.steps|
    ensures Inv(r.states[k]) && Kept(r.states[0].index, r.states[k].index, key, r.node.client)
    decreases k
  {
    hide Inv, Kept, Next, Enabled, Typed;
    if k == 0 {
      SameKept(r.states[0].index, r.states[0].index, key, r.node.client);
    } else {
      VisitKept(r, key, k - 1);
      NextKeeps(r.states[k - 1], r.steps[k - 1]);
      StepKept(r.states[k - 1], r.steps[k - 1], key, r.node.client);
      KeptTwice(r.states[0].index, r.states[k - 1].index, r.states[k].index, key, r.node.client);
    }
  }

  // ----- The loop ---------------------------------------------------------------------------------

  /** The nodes still to be visited: in the list, in order, and with no other node of the entry
      among or behind them. */
  ghost predicate ToVisit(s: Sys, key: Key, rest: seq<Node>, bound: nat) {
    && rest != [] && InOrder(rest) && bound <= s.index.nextNode
    && (forall n :: n in rest ==> n in ListOf(s.index, key) && n.id < bound)
    && (forall n :: n in ListOf(s.index, key) && rest[0].id <= n.id < bound ==> n in rest)
  }

  lemma ListFacts(s: Sys, key: Key)
    requires Inv(s)
    ensures InOrder(ListOf(s.index, key))
    ensures forall n :: n in ListOf(s.index, key) ==> n.id < s.index.nextNode
    ensures forall n, m :: n in ListOf(s.index, key) && m in ListOf(s.index, key) && n.client == m.client ==> n == m
  {
    if key in s.index.blocking {
      assert GoodList(s.index, key, NokeyClients(s.info));
      forall n | n in ListOf(s.index, key) ensures Held(s.index, key, n) {
      }
    }
  }

  lemma FirstTwo(rest: seq<Node>, n: Node)
    requires |rest| > 1 && InOrder(rest) && n in rest
    ensures n == rest[0] || n.id >= rest[1].id
    ensures n in rest[1..] <==> n != rest[0]
    ensures rest[0].id < rest[1].id
  {
    var k :| 0 <= k < |rest| && rest[k] == n;
    if k > 0 {
      assert rest[1..][k - 1] == n;
    }
  }

  lemma NotLast(list: seq<Node>, n: Node, m: Node)
    requires InOrder(list) && m in list
    ensures IsLast(list, n) ==> m.id <= n.id
  {
    var k :| 0 <= k < |list| && list[k] == m;
    if k < |list| - 1 {
      assert list[k].id < list[|list| - 1].id;
    }
  }

  /** The node after `n` in the list is the next to visit. */
  lemma NextIsNext(s: Sys, key: Key, rest: seq<Node>, bound: nat, m: Node)
    requires Inv(s) && ToVisit(s, key, rest, bound) && |rest| > 1 && IsNext(ListOf(s.index, key), rest[0], m)
    ensures m == rest[1]
  {
    hide Inv;
    ListFacts(s, key);
    var list := ListOf(s.index, key);
    var i, j :| 0 <= i < j < |list| && j == i + 1 && list[i] == rest[0] && list[j] == m;
    assert rest[1] in rest;
    var k :| 0 <= k < |list| && list[k] == rest[1];
    assert rest[0].id < rest[1].id && list[i].id < list[j].id;
    assert k >= j;
    assert m in list && m.id <= rest[1].id;
    FirstTwo(rest, m);
    assert m.id == rest[1].id;
    assert k == j;
  }

  lemma AfterVisit(s: Sys, t: Sys, key: Key, rest: seq<Node>, bound: nat)
    requires Inv(s) && ToVisit(s, key, rest, bound) && |rest| > 1
    requires Kept(s.index, t.index, key, rest[0].client)
    ensures ToVisit(t, key, rest[1..], bound)
  {
    hide Inv;
    ListFacts(s, key);
    assert rest[0] in rest && rest[1] in rest;
    forall n | n in rest[1..] ensures n in ListOf(t.index, key) && n.id < bound {
      FirstTwo(rest, n);
    }
    forall n | n in ListOf(t.index, key) && rest[1].id <= n.id < bound ensures n in rest[1..] {
      assert n in ListOf(s.index, key) && n in rest;
      FirstTwo(rest, n);
    }
  }

  /** The round is a visit to `n`, begun in a good state with `n` in the list. */
  ghost predicate Visits(r: Round, n: Node, key: Key) {
    IsVisit(r) && r.node == n && Inv(r.states[0]) && n in ListOf(r.states[0].index, key)
  }

  lemma {:induction false} RoundsVisit(s: Sys, key: Key, rest: seq<Node>, bound: nat, rounds: seq<Round>)
    requires Inv(s) && ToVisit(s, key, rest, bound) && RoundsFrom(s, key, rest[0], |rest|, rounds)
    ensures |rounds| == |rest|
    ensures forall i :: 0 <= i < |rest| ==> Visits(rounds[i], rest[i], key)
    ensures Visits(rounds[|rest| - 1], rest[|rest| - 1], key) && Inv(End(rounds[|rest| - 1]))
    decreases |rest|
  {
    hide Inv, IsNext, IsLast, ToVisit, Kept, Next, Enabled, Own, Typed, ListOf;
    FirstIsThere(s, key, rest, bound);
    VisitEnd(rounds[0], key);
    if |rest| > 1 {
      var t := End(rounds[0]);
      SecondIsNotLast(s, key, rest, bound);
      NextIsNext(s, key, rest, bound, rounds[1].node);
      AfterVisit(s, t, key, rest, bound);
      RoundsVisit(t, key, rest[1..], bound, rounds[1..]);
      forall i | 1 <= i < |rest| ensures Visits(rounds[i], rest[i], key) {
        assert rounds[1..][i - 1] == rounds[i] && rest[1..][i - 1] == rest[i];
      }
    }
  }

  lemma VisitEnd(r: Round, key: Key)
    requires IsVisit(r) && Inv(r.states[0])
    ensures Inv(End(r)) && Kept(r.states[0].index, End(r).index, key, r.node.client)
  {
    hide Inv, Kept;
    VisitKept(r, key, |r.steps|);
  }

  lemma FirstIsThere(s: Sys, key: Key, rest: seq<Node>, bound: nat)
    requires ToVisit(s, key, rest, bound)
    ensures rest != [] && rest[0] in ListOf(s.index, key)
  {
    assert rest[0] in rest;
  }

  lemma SecondIsNotLast(s: Sys, key: Key, rest: seq<Node>, bound: nat)
    requires Inv(s) && ToVisit(s, key, rest, bound) && |rest| > 1
    ensures !IsLast(ListOf(s.index, key), rest[0])
  {
    hide Inv, IsLast;
    ListFacts(s, key);
    assert rest[1] in rest;
    FirstTwo(rest, rest[1]);
    NotLast(ListOf(s.index, key), rest[0], rest[1]);
  }

  /** Every client that waited for the key at entry is visited once, in the order in which they
      blocked, and nobody else is; the node that the loop goes to is always still in the list. */
  lemma ServesTheWaiting(s: Sys, key: Key, rounds: seq<Round>)
    requires Inv(s) && Serves(s, key, rounds)
    ensures var entry := ListOf(s.index, key);
      |rounds| == |entry| && forall i :: 0 <= i < |entry| ==> Visits(rounds[i], entry[i], key)
    ensures rounds != [] ==> IsVisit(rounds[|rounds| - 1]) && Inv(End(rounds[|rounds| - 1]))
  {
    hide Inv;
    var entry := ListOf(s.index, key);
    if entry != [] {
      ListFacts(s, key);
      RoundsVisit(s, key, entry, s.index.nextNode, rounds);
    }
  }
}
