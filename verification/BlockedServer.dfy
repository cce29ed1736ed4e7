/** The blocking operations as the server runs them, on dictionaries, lists and counters changed
    in place. Each method makes exactly the move that `Blocked` describes. */
module BlockedServer {
  import opened BlockIndex
  import opened Blocked

  /** releaseBlockedEntry without remove_key: the client's own dictionary still names the key. */
  function Release(x: Index, c: nat, key: Key, onNokey: bool): Index
    requires c in x.held
  {
    Unlink(x, c, {key}, onNokey).(held := x.held)
  }

  lemma ReleaseMore(x: Index, c: nat, done: set<Key>, k: Key, onNokey: bool)
    requires c in x.held && k !in done
    ensures Release(Unlink(x, c, done, onNokey).(held := x.held), c, k, onNokey)
         == Unlink(x, c, done + {k}, onNokey).(held := x.held)
  {
    hide Emptied;
    var y := Unlink(x, c, done, onNokey);
    var y' := y.(held := x.held);
    var z, w := Release(y', c, k, onNokey), Unlink(x, c, done + {k}, onNokey);
    forall j
      ensures (j in z.blocking <==> j in w.blocking) && (j in z.blocking ==> z.blocking[j] == w.blocking[j])
      ensures (j in z.nokey <==> j in w.nokey) && (j in z.nokey ==> z.nokey[j] == w.nokey[j])
    {
      ReleaseMoreAt(x, c, done, k, onNokey, j);
    }
    assert z.blocking == w.blocking && z.nokey == w.nokey;
  }

  lemma ReleaseMoreAt(x: Index, c: nat, done: set<Key>, k: Key, onNokey: bool, j: Key)
    requires c in x.held && k !in done
    ensures var z := Release(Unlink(x, c, done, onNokey).(held := x.held), c, k, onNokey);
      var w := Unlink(x, c, done + {k}, onNokey);
      && (j in z.blocking <==> j in w.blocking) && (j in z.blocking ==> z.blocking[j] == w.blocking[j])
      && (j in z.nokey <==> j in w.nokey) && (j in z.nokey ==> z.nokey[j] == w.nokey[j])
  {
    hide Rest, Emptied;
    var y' := Unlink(x, c, done, onNokey).(held := x.held);
    UnlinkAt(x, c, done, onNokey, j);
    UnlinkAt(y', c, {k}, onNokey, j);
    UnlinkAt(x, c, done + {k}, onNokey, j);
    if j == k {
      UnlinkSame(y', x, c, {k}, done + {k}, onNokey, j);
    } else {
      UnlinkSame(x, x, c, done, done + {k}, onNokey, j);
    }
  }

  lemma UnlinkNothing(x: Index, c: nat, onNokey: bool)
    requires c in x.held
    ensures Unlink(x, c, {}, onNokey).(held := x.held) == x
  {
  }

  /** Leaving one list, spelled out. */
  lemma UnlinkOne(x: Index, c: nat, key: Key, onNokey: bool)
    requires c in x.held && key in x.held[c] && key in x.blocking
    requires onNokey ==> key in x.nokey && x.nokey[key] > 0
    ensures var list := Without(x.blocking[key], x.held[c][key]);
      var y := Unlink(x, c, {key}, onNokey);
      && y.blocking == (if list == [] then x.blocking - {key} else x.blocking[key := list])
      && y.nokey == (if list == [] || (onNokey && x.nokey[key] == 1) then x.nokey - {key}
                     else if onNokey then x.nokey[key := x.nokey[key] - 1]
                     else x.nokey)
      && y.held == x.held[c := x.held[c] - {key}] && y.nextNode == x.nextNode
  {
    hide Without;
    assert Emptied(x, c, {key}, key) <==> Rest(x, c, key) == [];
  }

  /** What the assertions of releaseBlockedEntry rely on. */
  lemma EntryExists(x: Index, among: set<nat>, c: nat, key: Key)
    requires Good(x, among) && c in x.held && key in x.held[c]
    ensures key in x.blocking
    ensures c in among ==> key in x.nokey && x.nokey[key] > 0
  {
    NokeyMeans(x, among, key);
  }

  class BlockedServer {
    var blocking: map<Key, seq<Node>>
    var nokey: map<Key, nat>
    var held: map<nat, map<Key, nat>>
    var nextNode: nat
    var info: map<nat, Info>
    var byType: map<BType, nat>
    var blockedClients: int
    var unblocked: seq<nat>
    var ready: set<Key>
    var readyKeys: seq<Key>
    var batch: seq<Key>

    ghost function Lists(): Index
      reads this
    {
      Index(blocking, nokey, held, nextNode)
    }

    ghost function State(): Sys
      reads this
    {
      Sys(Lists(), info, byType, blockedClients, unblocked, ready, readyKeys, batch)
    }

    constructor ()
      ensures State() == Init() && Inv(State())
    {
      InitInv();
      blocking, nokey, held, nextNode, info := map[], map[], map[], 0, map[];
      byType := Init().byType;
      blockedClients, unblocked, ready, readyKeys, batch := 0, [], {}, [], [];
    }

    /** The body of the loop of blockForKeys. */
    method LinkKey(c: nat, key: Key, onNokey: bool)
      requires c in held
      modifies this`blocking, this`nokey, this`held, this`nextNode
      ensures Lists() == Link(old(Lists()), c, key, onNokey) && held.Keys == old(held).Keys
    {
      if key in held[c] {
        return;
      }
      var list := if key in blocking then blocking[key] else [];
      blocking := blocking[key := list + [Node(nextNode, c)]];
      var mine: map<Key, nat> := held[c][key := nextNode];
      held := held[c := mine];
      nextNode := nextNode + 1;
      if onNokey {
        nokey := nokey[key := if key in nokey then nokey[key] + 1 else 1];
      }
    }

    /** The loop of blockForKeys. */
    method LinkKeys(c: nat, keys: seq<Key>, onNokey: bool)
      requires c in held
      modifies this`blocking, this`nokey, this`held, this`nextNode
      ensures Lists() == LinkAll(old(Lists()), c, keys, onNokey)
    {
      hide Link, LinkAll;
      ghost var x := Lists();
      LinkUnfold(x, c, keys[..0], onNokey);
      var j := 0;
      while j < |keys|
        invariant 0 <= j <= |keys| && c in held
        invariant Lists() == LinkAll(x, c, keys[..j], onNokey)
      {
        LinkUnfold(x, c, keys[..j + 1], onNokey);
        assert keys[..j + 1][..j] == keys[..j];
        LinkKey(c, keys[j], onNokey);
        j := j + 1;
      }
      assert keys[..j] == keys;
    }

    /** blockForKeys. */
    method BlockForKeys(c: nat, b: BType, keys: seq<Key>, onNokey: bool)
      requires Inv(State()) && Enabled(State(), Block(c, b, keys, onNokey))
      modifies this
      ensures State() == Blocked.BlockForKeys(old(State()), c, b, keys, onNokey) && Inv(State())
    {
      hide Inv, LinkAll;
      BlockKeeps(State(), c, b, keys, onNokey);
      InvTyped(State());
      LinkKeys(c, keys, onNokey);
      var i := info[c].(onNokey := onNokey);
      if b != ForModule {
        i := i.(pending := true);
      }
      info := info[c := i];
      MarkBlocked(c, b);
    }

    /** blockClient. */
    method MarkBlocked(c: nat, b: BType)
      requires c in info && b in byType
      modifies this`info, this`blockedClients, this`byType
      ensures State() == BlockClient(old(State()), c, b)
    {
      if !info[c].byModule {
        blockedClients := blockedClients + 1;
      }
      info := info[c := info[c].(blocked := true, btype := b)];
      byType := byType[b := byType[b] + 1];
    }

    /** releaseBlockedEntry. */
    method ReleaseBlockedEntry(c: nat, key: Key, removeKey: bool)
      requires c in info && c in held && key in held[c] && key in blocking
      requires info[c].onNokey ==> key in nokey && nokey[key] > 0
      modifies this`blocking, this`nokey, this`held
      ensures Lists() == if removeKey then Unlink(old(Lists()), c, {key}, info[c].onNokey)
                         else Release(old(Lists()), c, key, info[c].onNokey)
    {
      hide Unlink;
      UnlinkOne(Lists(), c, key, info[c].onNokey);
      var list := Without(blocking[key], held[c][key]);
      if |list| == 0 {
        blocking := blocking - {key};
        nokey := nokey - {key};
      } else {
        blocking := blocking[key := list];
        if info[c].onNokey {
          if nokey[key] == 1 {
            nokey := nokey - {key};
          } else {
            nokey := nokey[key := nokey[key] - 1];
          }
        }
      }
      if removeKey {
        held := held[c := held[c] - {key}];
      }
    }

    /** One more key of a client that has already left the lists of `done`. */
    method ReleaseNext(c: nat, key: Key, ghost x: Index, ghost done: set<Key>, ghost among: set<nat>)
      requires c in info && c in x.held && key in x.held[c] && key !in done
      requires Good(x, among) && (c in among <==> info[c].onNokey)
      requires Lists() == Unlink(x, c, done, info[c].onNokey).(held := x.held)
      modifies this`blocking, this`nokey, this`held
      ensures Lists() == Unlink(x, c, done + {key}, info[c].onNokey).(held := x.held)
    {
      hide Good, Unlink;
      EntryExists(x, among, c, key);
      UnlinkAt(x, c, done, info[c].onNokey, key);
      ReleaseMore(x, c, done, key, info[c].onNokey);
      ReleaseBlockedEntry(c, key, false);
    }

    /** The loop of unblockClientWaitingData, in any order of the keys. */
    method ReleaseEach(c: nat, ghost among: set<nat>)
      requires c in info && c in held && Good(Lists(), among) && (c in among <==> info[c].onNokey)
      modifies this`blocking, this`nokey, this`held
      ensures Lists() == Unlink(old(Lists()), c, old(held)[c].Keys, info[c].onNokey).(held := old(held))
    {
      hide Good, Unlink;
      ghost var x := Lists();
      var todo := held[c].Keys;
      ghost var done: set<Key> := {};
      UnlinkNothing(x, c, info[c].onNokey);
      while todo != {}
        invariant todo + done == x.held[c].Keys && todo * done == {}
        invariant Lists() == Unlink(x, c, done, info[c].onNokey).(held := x.held)
        decreases |todo|
      {
        var key :| key in todo;
        ReleaseNext(c, key, x, done, among);
        done := done + {key};
        todo := todo - {key};
      }
      assert done == x.held[c].Keys;
    }

    /** unblockClientWaitingData: release every key, then forget them all at once. */
    method UnblockClientWaitingData(c: nat, ghost among: set<nat>)
      requires c in info && c in held && Good(Lists(), among) && (c in among <==> info[c].onNokey)
      modifies this`blocking, this`nokey, this`held
      ensures Lists() == Unlink(old(Lists()), c, old(held)[c].Keys, info[c].onNokey)
    {
      hide Good, Unlink;
      ghost var x := Lists();
      ForgetAll(x, c, info[c].onNokey);
      ReleaseEach(c, among);
      held := held[c := map[]];
    }

    /** queueClientForReprocessing. */
    method QueueForReprocessing(c: nat)
      requires c in info
      modifies this`info, this`unblocked
      ensures State() == Queue(old(State()), c)
    {
      if !info[c].queued {
        info := info[c := info[c].(queued := true)];
        unblocked := unblocked + [c];
      }
    }

    /** The first part of unblockClient, by the type of blocking. */
    method LeaveLists(c: nat)
      requires Inv(State()) && c in info && info[c].blocked
      modifies this`blocking, this`nokey, this`held
      ensures Lists() == if OnKeys(info[c].btype) then Unlink(old(Lists()), c, old(held)[c].Keys, info[c].onNokey)
                         else old(Lists())
    {
      hide Good, Clients, Counters, Queues, Unlink;
      GoodAmong(State(), c);
      ghost var among := NokeyClients(info);
      UnlinkNoKeys(Lists(), c, info[c].onNokey);
      if info[c].btype == ForList || info[c].btype == ForZset || info[c].btype == ForStream {
        UnblockClientWaitingData(c, among);
      } else if info[c].btype == ForModule {
        if held[c] != map[] {
          UnblockClientWaitingData(c, among);
        }
      }
    }

    /** The counters and the flags of the client. */
    method ClearMarks(c: nat)
      requires c in info && info[c].btype in byType && byType[info[c].btype] > 0
      modifies this`info, this`blockedClients, this`byType
      ensures State() == Unmark(old(State()), c)
      ensures c in info
    {
      if !info[c].byModule {
        blockedClients := blockedClients - 1;
      }
      byType := byType[info[c].btype := byType[info[c].btype] - 1];
      info := info[c := info[c].(blocked := false, btype := NotBlocked, onNokey := false)];
    }

    /** unblockClient. */
    method Wake(c: nat, queue: bool)
      requires Inv(State()) && c in info && info[c].blocked
      modifies this
      ensures State() == UnblockClient(old(State()), c, queue) && Inv(State())
    {
      hide Inv, Unlink, Unmark, OnKeys, Queue;
      UnblockKeeps(State(), c, queue);
      BlockedCount(State(), c);
      LeaveLists(c);
      ClearMarks(c);
      if queue {
        QueueForReprocessing(c);
      }
    }

    /** unblockClientOnKey, up to the pending command. */
    method WakeClientOnKey(c: nat, key: Key)
      requires Inv(State()) && Enabled(State(), WakeOnKey(c, key))
      modifies this
      ensures State() == UnblockOnKey(old(State()), c, key) && Inv(State())
    {
      hide Good, Clients, Counters, Queues, Unlink, Inv, NokeyClients, Release, Typed;
      ghost var s := State();
      WakeKeeps(s, c, key);
      ReleaseKeeps(s, c, key);
      StillBlocked(s, c, key);
      EntryExists(Lists(), NokeyClients(info), c, key);
      ReleaseBlockedEntry(c, key, true);
      Wake(c, false);
      info := info[c := info[c].(pending := false)];
    }

    /** signalKeyAsReadyLogic. */
    method SignalKeyAsReady(key: Key, t: ObjectType, deleted: bool)
      requires Inv(State())
      modifies this`ready, this`readyKeys
      ensures State() == Signal(old(State()), key, t, deleted) && Inv(State())
    {
      hide Good, Clients, Counters, Queues;
      SignalKeeps(State(), key, t, deleted);
      var b := BlockedTypeOf(t);
      if b == NotBlocked {
        return;
      }
      if byType[b] == 0 && byType[ForModule] == 0 {
        return;
      }
      if deleted {
        if key !in nokey {
          return;
        }
      } else {
        if key !in blocking {
          return;
        }
      }
      if key in ready {
        return;
      }
      ready := ready + {key};
      readyKeys := readyKeys + [key];
    }
  }

  lemma ForgetAll(x: Index, c: nat, onNokey: bool)
    requires c in x.held
    ensures var y := Unlink(x, c, x.held[c].Keys, onNokey);
      y == y.(held := x.held).(held := x.held[c := map[]])
  {
    UnlinkHeld(x, c, x.held[c].Keys, onNokey);
  }

  lemma UnlinkNoKeys(x: Index, c: nat, onNokey: bool)
    requires c in x.held
    ensures x.held[c] == map[] ==> Unlink(x, c, x.held[c].Keys, onNokey) == x
  {
    UnlinkNothing(x, c, onNokey);
  }

  lemma InvTyped(s: Sys)
    requires Inv(s)
    ensures Typed(s)
  {
  }

  lemma GoodAmong(s: Sys, c: nat)
    requires Inv(s) && c in s.info
    ensures Good(s.index, NokeyClients(s.info)) && (c in NokeyClients(s.info) <==> s.info[c].onNokey)
  {
  }

  lemma BlockedCount(s: Sys, c: nat)
    requires Inv(s) && c in s.info && s.info[c].blocked
    ensures Typed(s) && s.byType[s.info[c].btype] > 0
  {
    CounterPositive(s, c);
  }

  lemma StillBlocked(s: Sys, c: nat, key: Key)
    requires Inv(s) && c in s.info && key in s.index.held[c]
    ensures s.info[c].blocked && Good(s.index, NokeyClients(s.info))
    ensures c in NokeyClients(s.info) <==> s.info[c].onNokey
  {
    IndexMeans(s, c, key);
  }
}
