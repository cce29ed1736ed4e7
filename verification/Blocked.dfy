/** Blocking and waking clients: the operations of the server on clients that wait for keys, the
    counters per type, the queue of keys signalled as ready, and the list of clients to resume. */
module Blocked {
  import opened BlockIndex

  datatype BType =
    | NotBlocked | ForList | ForWait | ForWaitAof | ForModule | ForStream | ForZset | Postponed | ForShutdown

  datatype ObjectType = StringObject | ListObject | SetObject | ZsetObject | HashObject | StreamObject | ModuleObject

  datatype Info = Info(
    btype: BType,
    blocked: bool,     // CLIENT_BLOCKED
    onNokey: bool,     // bstate.unblock_on_nokey
    pending: bool,     // CLIENT_PENDING_COMMAND
    queued: bool,      // CLIENT_UNBLOCKED
    byModule: bool)    // CLIENT_MODULE

  datatype Sys = Sys(
    index: Index,
    info: map<nat, Info>,
    byType: map<BType, nat>,     // server.blocked_clients_by_type
    blockedClients: int,         // server.blocked_clients
    unblocked: seq<nat>,         // server.unblocked_clients
    ready: set<Key>,             // db->ready_keys
    readyKeys: seq<Key>,         // server.ready_keys
    batch: seq<Key>)             // what handleClientsBlockedOnKeys still has to go through

  // ----- Operations ----------------------------------------------------------------------------

  predicate OnKeys(b: BType) {
    b == ForList || b == ForZset || b == ForStream || b == ForModule
  }

  /** getBlockedTypeByType. */
  function BlockedTypeOf(t: ObjectType): BType {
    match t
    case ListObject => ForList
    case ZsetObject => ForZset
    case ModuleObject => ForModule
    case StreamObject => ForStream
    case _ => NotBlocked
  }

  /** blockClient. */
  function BlockClient(s: Sys, c: nat, b: BType): Sys
    requires c in s.info && b in s.byType
  {
    s.(info := s.info[c := s.info[c].(blocked := true, btype := b)],
       blockedClients := s.blockedClients + if s.info[c].byModule then 0 else 1,
       byType := s.byType[b := s.byType[b] + 1])
  }

  /** blockForKeys. */
  function BlockForKeys(s: Sys, c: nat, b: BType, keys: seq<Key>, onNokey: bool): Sys
    requires c in s.info && c in s.index.held && b in s.byType
  {
    var i := s.info[c];
    BlockClient(s.(index := LinkAll(s.index, c, keys, onNokey),
                   info := s.info[c := i.(onNokey := onNokey, pending := i.pending || b != ForModule)]), c, b)
  }

  /** queueClientForReprocessing. */
  function Queue(s: Sys, c: nat): Sys
    requires c in s.info
  {
    if s.info[c].queued then s
    else s.(info := s.info[c := s.info[c].(queued := true)], unblocked := s.unblocked + [c])
  }

  /** releaseBlockedEntry, with remove_key. */
  function ReleaseKey(s: Sys, c: nat, key: Key): Sys
    requires c in s.info && c in s.index.held
  {
    s.(index := Unlink(s.index, c, {key}, s.info[c].onNokey))
  }

  /** The part of unblockClient about the client itself and the counters. */
  function Unmark(s: Sys, c: nat): Sys
    requires c in s.info && s.info[c].btype in s.byType
  {
    var i := s.info[c];
    var n := s.byType[i.btype];
    s.(info := s.info[c := i.(blocked := false, btype := NotBlocked, onNokey := false)],
       blockedClients := s.blockedClients - if i.byModule then 0 else 1,
       byType := s.byType[i.btype := if n > 0 then n - 1 else 0])
  }

  /** unblockClient. */
  function UnblockClient(s: Sys, c: nat, queue: bool): Sys
    requires c in s.info && c in s.index.held && s.info[c].btype in s.byType
  {
    var i := s.info[c];
    var index := if OnKeys(i.btype) then Unlink(s.index, c, s.index.held[c].Keys, i.onNokey) else s.index;
    var t := Unmark(s.(index := index), c);
    if queue then Queue(t, c) else t
  }

  /** unblockClientOnKey, up to the point where the pending command is executed again. */
  function UnblockOnKey(s: Sys, c: nat, key: Key): Sys
    requires c in s.info && c in s.index.held && s.info[c].btype in s.byType
  {
    var t := UnblockClient(ReleaseKey(s, c, key), c, false);
    t.(info := t.info[c := t.info[c].(pending := false)])
  }

  /** signalKeyAsReadyLogic. */
  function Signal(s: Sys, key: Key, t: ObjectType, deleted: bool): Sys
    requires forall b: BType :: b in s.byType
  {
    var b := BlockedTypeOf(t);
    if b == NotBlocked then s
    else if s.byType[b] == 0 && s.byType[ForModule] == 0 then s
    else if deleted && key !in s.index.nokey then s
    else if !deleted && key !in s.index.blocking then s
    else if key in s.ready then s
    else s.(ready := s.ready + {key}, readyKeys := s.readyKeys + [key])
  }

  datatype Step =
    | NewClient(c: nat, byModule: bool)
    | FreeClient(c: nat)
    | Block(c: nat, b: BType, keys: seq<Key>, onNokey: bool)
    | BlockOther(c: nat, b: BType)
    | Unblock(c: nat, queue: bool)
    | WakeOnKey(c: nat, key: Key)
    | Requeue(c: nat)
    | SignalKey(key: Key, t: ObjectType, deleted: bool)
    | TakeBatch
    | StartKey
    | ResumeClient

  /** When the server can make the step. */
  predicate Enabled(s: Sys, e: Step) {
    match e
    case NewClient(c, _) => c !in s.info
    case FreeClient(c) => c in s.info && !s.info[c].blocked
    case Block(c, b, _, _) => c in s.info && !s.info[c].blocked && OnKeys(b)
    case BlockOther(c, b) => c in s.info && !s.info[c].blocked && b != NotBlocked
    case Unblock(c, _) => c in s.info && s.info[c].blocked
    case WakeOnKey(c, key) =>
      c in s.info && c in s.index.held && key in s.index.held[c] && s.info[c].btype != ForModule
    case Requeue(c) => c in s.info && !s.info[c].blocked && !s.info[c].byModule
    case SignalKey(_, _, _) => true
    case TakeBatch => s.batch == []
    case StartKey => s.batch != []
    case ResumeClient => s.unblocked != []
  }

  function WithoutClient(list: seq<nat>, c: nat): seq<nat> {
    if list == [] then [] else (if list[0] == c then [] else [list[0]]) + WithoutClient(list[1..], c)
  }

  function Next(s: Sys, e: Step): Sys
    requires Typed(s) && Enabled(s, e)
  {
    match e
    case NewClient(c, byModule) =>
      s.(info := s.info[c := Info(NotBlocked, false, false, false, false, byModule)],
         index := s.index.(held := s.index.held[c := map[]]))
    case FreeClient(c) =>
      s.(info := s.info - {c}, index := s.index.(held := s.index.held - {c}),
         unblocked := WithoutClient(s.unblocked, c))
    case Block(c, b, keys, onNokey) => BlockForKeys(s, c, b, keys, onNokey)
    case BlockOther(c, b) => BlockClient(s, c, b)
    case Unblock(c, queue) => UnblockClient(s, c, queue)
    case WakeOnKey(c, key) => UnblockOnKey(s, c, key)
    case Requeue(c) => Queue(s, c)
    case SignalKey(key, t, deleted) => Signal(s, key, t, deleted)
    case TakeBatch => s.(batch := s.readyKeys, readyKeys := [])
    case StartKey => s.(ready := s.ready - {s.batch[0]}, batch := s.batch[1..])
    case ResumeClient =>
      var c := s.unblocked[0];
      if c in s.info then
        s.(unblocked := s.unblocked[1..], info := s.info[c := s.info[c].(queued := false)])
      else s.(unblocked := s.unblocked[1..])
  }

  // ----- The invariant -------------------------------------------------------------------------

  predicate Typed(s: Sys) {
    && (forall b: BType :: b in s.byType)
    && s.index.held.Keys == s.info.Keys
  }

  function NokeyClients(info: map<nat, Info>): set<nat> {
    set c | c in info && info[c].onNokey
  }

  function OfType(info: map<nat, Info>, b: BType): set<nat> {
    set c | c in info && info[c].btype == b
  }

  function Regular(info: map<nat, Info>): set<nat> {
    set c | c in info && info[c].blocked && !info[c].byModule
  }

  ghost predicate Consistent(i: Info) {
    && (i.blocked <==> i.btype != NotBlocked)
    && (!i.blocked ==> !i.onNokey)
  }

  ghost predicate Clients(s: Sys)
    requires Typed(s)
  {
    && (forall c :: c in s.info ==> Consistent(s.info[c]))
    && (forall c :: c in s.info && s.index.held[c] != map[] ==> OnKeys(s.info[c].btype))
  }

  ghost predicate Counters(s: Sys)
    requires Typed(s)
  {
    && (forall b: BType :: b != NotBlocked ==> s.byType[b] == |OfType(s.info, b)|)
    && s.blockedClients == |Regular(s.info)|
  }

  ghost predicate NoRepeat<T>(list: seq<T>) {
    forall i, j :: 0 <= i < j < |list| ==> list[i] != list[j]
  }

  ghost predicate Queues(s: Sys) {
    && NoRepeat(s.batch + s.readyKeys)
    && (forall k :: k in s.ready <==> k in s.batch + s.readyKeys)
    && NoRepeat(s.unblocked)
    && (forall c :: c in s.unblocked <==> c in s.info && s.info[c].queued)
  }

  ghost predicate Inv(s: Sys) {
    && Typed(s)
    && Good(s.index, NokeyClients(s.info))
    && Clients(s)
    && Counters(s)
    && Queues(s)
  }

  function Init(): Sys {
    Sys(Index(map[], map[], map[], 0), map[],
        map[NotBlocked := 0, ForList := 0, ForWait := 0, ForWaitAof := 0, ForModule := 0, ForStream := 0,
            ForZset := 0, Postponed := 0, ForShutdown := 0],
        0, [], {}, [], [])
  }

  lemma InitInv()
    ensures Inv(Init())
  {
    forall b: BType ensures b in Init().byType {
      match b {
        case NotBlocked => case ForList => case ForWait => case ForWaitAof => case ForModule =>
        case ForStream => case ForZset => case Postponed => case ForShutdown =>
      }
    }
    assert OfType(Init().info, ForList) == {};
    assert forall b: BType :: OfType(Init().info, b) == {};
    assert Regular(Init().info) == {};
  }

  // ----- Counting clients ----------------------------------------------------------------------

  lemma SwapOne(a: set<nat>, b: set<nat>, c: nat)
    requires forall d :: d != c ==> (d in a <==> d in b)
    ensures |b| + (if c in a then 1 else 0) == |a| + if c in b then 1 else 0
  {
    var others := a - {c};
    assert others == b - {c};
    assert c in a ==> a == others + {c};
    assert c in b ==> b == others + {c};
    assert c !in a ==> a == others;
    assert c !in b ==> b == others;
  }

  predicate IsRegular(i: Info) {
    i.blocked && !i.byModule
  }

  /** The counters after a client's type has changed. */
  lemma CountersUpdate(s: Sys, t: Sys, c: nat, i: Info)
    requires Typed(s) && Counters(s) && Typed(t) && c in s.info && t.info == s.info[c := i]
    requires forall b: BType :: b != NotBlocked ==>
      t.byType[b] + (if s.info[c].btype == b then 1 else 0) == s.byType[b] + if i.btype == b then 1 else 0
    requires t.blockedClients + (if IsRegular(s.info[c]) then 1 else 0)
          == s.blockedClients + if IsRegular(i) then 1 else 0
    ensures Counters(t)
  {
    forall b: BType | b != NotBlocked ensures t.byType[b] == |OfType(t.info, b)| {
      SwapOne(OfType(s.info, b), OfType(t.info, b), c);
    }
    SwapOne(Regular(s.info), Regular(t.info), c);
  }

  // ----- Every step keeps it ---------------------------------------------------------------------

  lemma BlockClientCounters(s: Sys, t: Sys, c: nat, b: BType)
    requires Typed(s) && Counters(s) && c in s.info && !IsRegular(s.info[c]) && s.info[c].btype == NotBlocked
    requires b != NotBlocked && t == BlockClient(s, c, b)
    ensures Typed(t) && Counters(t)
  {
    CountersUpdate(s, t, c, s.info[c].(blocked := true, btype := b));
  }

  lemma BlockKeeps(s: Sys, c: nat, b: BType, keys: seq<Key>, onNokey: bool)
    requires Inv(s) && Enabled(s, Block(c, b, keys, onNokey))
    ensures Inv(BlockForKeys(s, c, b, keys, onNokey))
  {
    hide Good, Counters, Queues, LinkAll, NokeyClients, Clients, Consistent;
    var t := BlockForKeys(s, c, b, keys, onNokey);
    IdleClient(s, c);
    BlockIndexKeeps(s, t, c, keys, onNokey);
    BlockCounters(s, c, b, keys, onNokey);
    SameQueues(s, t, c);
    BlockedClients(s, t, c);
  }

  lemma BlockCounters(s: Sys, c: nat, b: BType, keys: seq<Key>, onNokey: bool)
    requires Typed(s) && Counters(s) && c in s.info && b != NotBlocked
    requires !s.info[c].blocked && s.info[c].btype == NotBlocked
    ensures Counters(BlockForKeys(s, c, b, keys, onNokey)) && Typed(BlockForKeys(s, c, b, keys, onNokey))
  {
    hide Counters, LinkAll;
    var i := s.info[c];
    var i' := i.(onNokey := onNokey, pending := i.pending || b != ForModule);
    var mid := s.(index := LinkAll(s.index, c, keys, onNokey), info := s.info[c := i']);
    MidCounters(s, mid, c, i');
    BlockClientCounters(mid, BlockForKeys(s, c, b, keys, onNokey), c, b);
  }

  lemma IdleClient(s: Sys, c: nat)
    requires Typed(s) && Clients(s) && c in s.info && !s.info[c].blocked
    ensures s.info[c].btype == NotBlocked && !s.info[c].onNokey && s.index.held[c] == map[]
  {
  }

  lemma BlockIndexKeeps(s: Sys, t: Sys, c: nat, keys: seq<Key>, onNokey: bool)
    requires Typed(s) && Good(s.index, NokeyClients(s.info)) && c in s.info && s.index.held[c] == map[]
    requires t.index == LinkAll(s.index, c, keys, onNokey)
    requires c in t.info && t.info[c].onNokey == onNokey
    requires forall d :: d != c ==>
      (d in t.info <==> d in s.info) && (d in s.info ==> t.info[d].onNokey == s.info[d].onNokey)
    ensures Good(t.index, NokeyClients(t.info))
    ensures t.index.held.Keys == s.index.held.Keys
    ensures forall k :: k in t.index.held[c] <==> k in keys
    ensures forall d :: d in s.info && d != c ==> t.index.held[d] == s.index.held[d]
  {
    hide Good;
    var among := NokeyClients(t.info);
    assert forall d :: d != c ==> (d in NokeyClients(s.info) <==> d in among);
    AmongOther(s.index, NokeyClients(s.info), among);
    LinkAllKeeps(s.index, c, keys, onNokey, among);
    assert forall k :: k in t.index.held[c] <==> k in t.index.held[c].Keys;
  }

  lemma BlockedClients(s: Sys, t: Sys, c: nat)
    requires Typed(s) && Typed(t) && Clients(s) && c in s.info && t.info.Keys == s.info.Keys
    requires Consistent(t.info[c]) && OnKeys(t.info[c].btype)
    requires forall d :: d in s.info && d != c ==> t.info[d] == s.info[d] && t.index.held[d] == s.index.held[d]
    ensures Clients(t)
  {
  }

  /** Flags that are not counted. */
  lemma MidCounters(s: Sys, t: Sys, c: nat, i: Info)
    requires Typed(s) && Typed(t) && Counters(s) && c in s.info && t.info == s.info[c := i]
    requires i.btype == s.info[c].btype && i.blocked == s.info[c].blocked && i.byModule == s.info[c].byModule
    requires t.byType == s.byType && t.blockedClients == s.blockedClients
    ensures Counters(t)
  {
    CountersUpdate(s, t, c, i);
  }

  lemma SameQueues(s: Sys, t: Sys, c: nat)
    requires Queues(s) && c in s.info
    requires t.batch == s.batch && t.readyKeys == s.readyKeys && t.ready == s.ready && t.unblocked == s.unblocked
    requires t.info.Keys == s.info.Keys && forall d :: d in s.info ==> t.info[d].queued == s.info[d].queued
    ensures Queues(t)
  {
  }

  lemma BlockOtherKeeps(s: Sys, c: nat, b: BType)
    requires Inv(s) && Enabled(s, BlockOther(c, b))
    ensures Inv(BlockClient(s, c, b))
  {
    hide Good, Counters, Queues;
    var t := BlockClient(s, c, b);
    assert NokeyClients(t.info) == NokeyClients(s.info);
    BlockClientCounters(s, t, c, b);
    SameQueues(s, t, c);
  }

  lemma QueueKeeps(s: Sys, c: nat)
    requires Inv(s) && c in s.info
    ensures Inv(Queue(s, c))
  {
    hide Good, Counters;
    var t := Queue(s, c);
    assert NokeyClients(t.info) == NokeyClients(s.info);
    if !s.info[c].queued {
      MidCounters(s, t, c, s.info[c].(queued := true));
    }
  }

  lemma ReleaseKeeps(s: Sys, c: nat, key: Key)
    requires Inv(s) && c in s.info
    ensures Inv(ReleaseKey(s, c, key))
  {
    hide Good, Counters, Queues;
    var t := ReleaseKey(s, c, key);
    UnlinkKeeps(s.index, c, {key}, s.info[c].onNokey, NokeyClients(s.info));
    MidCounters(s, t, c, s.info[c]);
    SameQueues(s, t, c);
    UnlinkHeld(s.index, c, {key}, s.info[c].onNokey);
  }

  lemma UnlinkHeld(x: Index, c: nat, ks: set<Key>, onNokey: bool)
    requires c in x.held
    ensures Unlink(x, c, ks, onNokey).held == x.held[c := x.held[c] - ks]
    ensures x.held[c] - x.held[c].Keys == map[]
    ensures x.held[c] == map[] ==> x.held[c] - ks == map[]
  {
  }

  lemma UnblockKeeps(s: Sys, c: nat, queue: bool)
    requires Inv(s) && c in s.info && s.info[c].blocked
    ensures Inv(UnblockClient(s, c, queue))
  {
    hide Good, Counters, Queues, Queue, Unlink, OnKeys;
    var i := s.info[c];
    var i' := i.(blocked := false, btype := NotBlocked, onNokey := false);
    var t := UnblockClient(s, c, false);
    UnlinkKeeps(s.index, c, s.index.held[c].Keys, i.onNokey, NokeyClients(s.info));
    UnlinkHeld(s.index, c, s.index.held[c].Keys, i.onNokey);
    assert t.index.held[c] == map[];
    assert forall d :: d != c ==> (d in NokeyClients(s.info) <==> d in NokeyClients(t.info));
    AmongOther(t.index, NokeyClients(s.info), NokeyClients(t.info));
    UnblockCounters(s, t, c, i');
    SameQueues(s, t, c);
    if queue {
      QueueKeeps(t, c);
    }
  }

  lemma UnblockCounters(s: Sys, t: Sys, c: nat, i: Info)
    requires Typed(s) && Typed(t) && Clients(s) && Counters(s) && c in s.info && s.info[c].blocked
    requires i == s.info[c].(blocked := false, btype := NotBlocked, onNokey := false)
    requires t == UnblockClient(s, c, false)
    ensures Counters(t)
  {
    assert c in OfType(s.info, s.info[c].btype);
    CountersUpdate(s, t, c, i);
  }

  lemma WakeKeeps(s: Sys, c: nat, key: Key)
    requires Inv(s) && Enabled(s, WakeOnKey(c, key))
    ensures Inv(UnblockOnKey(s, c, key))
  {
    hide Good, Counters, Queues;
    var r := ReleaseKey(s, c, key);
    ReleaseKeeps(s, c, key);
    assert s.index.held[c] != map[];
    UnblockKeeps(r, c, false);
    PendingKeeps(UnblockClient(r, c, false), c);
  }

  lemma PendingKeeps(s: Sys, c: nat)
    requires Inv(s) && c in s.info
    ensures Inv(s.(info := s.info[c := s.info[c].(pending := false)]))
  {
    hide Good, Counters, Queues;
    var t := s.(info := s.info[c := s.info[c].(pending := false)]);
    assert NokeyClients(t.info) == NokeyClients(s.info);
    MidCounters(s, t, c, t.info[c]);
    SameQueues(s, t, c);
  }

  lemma SignalKeeps(s: Sys, key: Key, o: ObjectType, deleted: bool)
    requires Inv(s)
    ensures Inv(Signal(s, key, o, deleted))
  {
    hide Good, Counters;
    var t := Signal(s, key, o, deleted);
    if t != s {
      SameCounters(s, t);
      assert t.batch + t.readyKeys == (s.batch + s.readyKeys) + [key];
    }
  }

  lemma SameCounters(s: Sys, t: Sys)
    requires Typed(s) && Typed(t) && Counters(s)
    requires t.info == s.info && t.byType == s.byType && t.blockedClients == s.blockedClients
    ensures Counters(t)
  {
  }

  lemma BatchKeeps(s: Sys)
    requires Inv(s)
    ensures s.batch == [] ==> Inv(Next(s, TakeBatch))
    ensures s.batch != [] ==> Inv(Next(s, StartKey))
  {
    hide Good, Counters;
    if s.batch == [] {
      var t := Next(s, TakeBatch);
      SameCounters(s, t);
      assert t.batch + t.readyKeys == s.batch + s.readyKeys;
    } else {
      var t := Next(s, StartKey);
      SameCounters(s, t);
      assert s.batch + s.readyKeys == [s.batch[0]] + (t.batch + t.readyKeys);
      PopHead(s.batch + s.readyKeys, s.ready);
    }
  }

  lemma PopHead<T>(list: seq<T>, members: set<T>)
    requires list != [] && NoRepeat(list) && forall k :: k in members <==> k in list
    ensures NoRepeat(list[1..]) && forall k :: k in members - {list[0]} <==> k in list[1..]
  {
    assert list == [list[0]] + list[1..];
  }

  lemma ResumeKeeps(s: Sys)
    requires Inv(s) && s.unblocked != []
    ensures Inv(Next(s, ResumeClient))
  {
    hide Good, Counters, Queues, NoRepeat;
    var c := s.unblocked[0];
    FirstIsQueued(s);
    var t := Next(s, ResumeClient);
    assert NokeyClients(t.info) == NokeyClients(s.info);
    MidCounters(s, t, c, t.info[c]);
    ResumeQueues(s, t, c);
  }

  lemma FirstIsQueued(s: Sys)
    requires Queues(s) && s.unblocked != []
    ensures s.unblocked[0] in s.info
  {
    assert s.unblocked[0] in s.unblocked;
  }

  lemma ResumeQueues(s: Sys, t: Sys, c: nat)
    requires Queues(s) && s.unblocked != [] && c == s.unblocked[0] && c in s.info
    requires t.unblocked == s.unblocked[1..] && t.info == s.info[c := s.info[c].(queued := false)]
    requires t.batch == s.batch && t.readyKeys == s.readyKeys && t.ready == s.ready
    ensures Queues(t)
  {
    assert s.unblocked == [c] + t.unblocked;
    assert forall d :: d in t.unblocked ==> d in s.unblocked;
  }

  lemma {:induction false} WithoutClientMeans(list: seq<nat>, c: nat)
    requires NoRepeat(list)
    ensures NoRepeat(WithoutClient(list, c))
    ensures forall d :: d in WithoutClient(list, c) <==> d in list && d != c
  {
    if list != [] {
      assert list == [list[0]] + list[1..];
      assert list[0] !in list[1..];
      WithoutClientMeans(list[1..], c);
    }
  }

  lemma NewClientKeeps(s: Sys, c: nat, byModule: bool)
    requires Inv(s) && c !in s.info
    ensures Inv(Next(s, NewClient(c, byModule)))
  {
    hide Good, Counters, Clients, Queues;
    var t := Next(s, NewClient(c, byModule));
    assert NokeyClients(t.info) == NokeyClients(s.info);
    SameLists(s.index, t.index, NokeyClients(s.info));
    IdleCounters(s, t, c);
    NewClientQueues(s, t, c);
  }

  lemma NewClientQueues(s: Sys, t: Sys, c: nat)
    requires Typed(s) && Typed(t) && Clients(s) && Queues(s) && c !in s.info && c in t.info
    requires t.info == s.info[c := t.info[c]] && t.index.held == s.index.held[c := map[]]
    requires Consistent(t.info[c]) && !t.info[c].queued
    requires t.batch == s.batch && t.readyKeys == s.readyKeys && t.ready == s.ready && t.unblocked == s.unblocked
    ensures Clients(t) && Queues(t)
  {
  }

  /** A client that is not blocked is in no count. */
  lemma IdleCounters(s: Sys, t: Sys, c: nat)
    requires Typed(s) && Typed(t) && Counters(s) && t.byType == s.byType && t.blockedClients == s.blockedClients
    requires forall d :: d != c ==> (d in t.info <==> d in s.info) && (d in s.info ==> t.info[d] == s.info[d])
    requires c in s.info ==> !s.info[c].blocked && s.info[c].btype == NotBlocked
    requires c in t.info ==> !t.info[c].blocked && t.info[c].btype == NotBlocked
    ensures Counters(t)
  {
    forall b: BType | b != NotBlocked ensures t.byType[b] == |OfType(t.info, b)| {
      assert OfType(t.info, b) == OfType(s.info, b);
    }
    assert Regular(t.info) == Regular(s.info);
  }

  /** Clients without keys come and go without touching any list. */
  lemma SameLists(x: Index, y: Index, among: set<nat>)
    requires Good(x, among) && y == x.(held := y.held)
    requires forall c :: c in x.held && x.held[c] != map[] ==> c in y.held && y.held[c] == x.held[c]
    requires forall c :: c in y.held && y.held[c] != map[] ==> c in x.held && y.held[c] == x.held[c]
    ensures Good(y, among)
  {
    forall k | k in y.blocking ensures GoodList(y, k, among) {
      assert GoodList(x, k, among);
      forall n | n in y.blocking[k] ensures Held(y, k, n) {
        assert Held(x, k, n);
        assert x.held[n.client] != map[];
      }
    }
    forall c, k | c in y.held && k in y.held[c]
      ensures k in y.blocking && Node(y.held[c][k], c) in y.blocking[k] {
      assert y.held[c] != map[];
      assert k in x.held[c];
    }
  }

  lemma FreeClientKeeps(s: Sys, c: nat)
    requires Inv(s) && c in s.info && !s.info[c].blocked
    ensures Inv(Next(s, FreeClient(c)))
  {
    hide Good, Counters, WithoutClient;
    var t := Next(s, FreeClient(c));
    IdleClient(s, c);
    assert NokeyClients(t.info) == NokeyClients(s.info);
    SameLists(s.index, t.index, NokeyClients(s.info));
    IdleCounters(s, t, c);
    WithoutClientMeans(s.unblocked, c);
  }

  lemma NextKeeps(s: Sys, e: Step)
    requires Inv(s) && Enabled(s, e)
    ensures Inv(Next(s, e))
  {
    hide Good, Clients, Counters, Queues, Unlink, LinkAll;
    match e {
      case NewClient(c, byModule) => NewClientKeeps(s, c, byModule);
      case FreeClient(c) => FreeClientKeeps(s, c);
      case Block(c, b, keys, onNokey) => BlockKeeps(s, c, b, keys, onNokey);
      case BlockOther(c, b) => BlockOtherKeeps(s, c, b);
      case Unblock(c, queue) => UnblockKeeps(s, c, queue);
      case WakeOnKey(c, key) => WakeKeeps(s, c, key);
      case Requeue(c) => QueueKeeps(s, c);
      case SignalKey(key, t, deleted) => SignalKeeps(s, key, t, deleted);
      case TakeBatch => BatchKeeps(s);
      case StartKey => BatchKeeps(s);
      case ResumeClient => ResumeKeeps(s);
    }
  }

  // ----- Runs ----------------------------------------------------------------------------------------

  ghost predicate IsRun(states: seq<Sys>, steps: seq<Step>) {
    && |states| == |steps| + 1 && states[0] == Init()
    && forall i :: 0 <= i < |steps| ==>
         Typed(states[i]) && Enabled(states[i], steps[i]) && states[i + 1] == Next(states[i], steps[i])
  }

  /** In every reachable state the index, the counters and the queues agree. */
  lemma {:induction false} AlwaysInv(states: seq<Sys>, steps: seq<Step>)
    requires IsRun(states, steps)
    ensures Inv(states[|steps|])
    decreases |steps|
  {
    hide Inv, Next, Enabled, Typed, Init;
    if steps == [] {
      InitInv();
    } else {
      var n := |steps| - 1;
      AlwaysInv(states[..n + 1], steps[..n]);
      assert states[..n + 1][n] == states[n];
      NextKeeps(states[n], steps[n]);
    }
  }

  /** The list of a key names each client that waits for it once, in the order they blocked; the
      entry exists exactly while somebody waits; the no-key count is the number of those who
      want to know; a client that waits is blocked on keys. */
  lemma IndexMeans(s: Sys, c: nat, k: Key)
    requires Inv(s)
    ensures k in s.index.blocking ==> s.index.blocking[k] != [] && InOrder(s.index.blocking[k])
    ensures (c in s.info && k in s.index.held[c]) <==>
      (k in s.index.blocking && exists i :: 0 <= i < |s.index.blocking[k]| && s.index.blocking[k][i].client == c)
    ensures c in s.info && k in s.index.held[c] ==> s.info[c].blocked && OnKeys(s.info[c].btype)
    ensures k in s.index.nokey <==> exists d :: d in s.info && s.info[d].onNokey && k in s.index.held[d]
    ensures k in s.index.nokey ==> s.index.nokey[k] == Count(s.index.blocking[k], NokeyClients(s.info))
  {
    OccursOnce(s.index, NokeyClients(s.info), c, k);
    NokeyMeans(s.index, NokeyClients(s.info), k);
    if k in s.index.blocking {
      assert GoodList(s.index, k, NokeyClients(s.info));
    }
    if c in s.info && k in s.index.held[c] {
      assert s.index.held[c] != map[];
    }
    if d :| d in s.info && s.info[d].onNokey && k in s.index.held[d] {
      assert d in NokeyClients(s.info);
    }
  }

  // ----- What blocking and unblocking leave -------------------------------------------------------------

  lemma OnlyOnKeys(s: Sys, c: nat)
    requires Typed(s) && Clients(s) && c in s.info
    ensures !OnKeys(s.info[c].btype) ==> s.index.held[c] == map[]
  {
  }

  /** An unblocked client is blocked no more and waits for no key; it is last in the list of
      clients to resume if that was asked for and it was not in it. Everybody else keeps
      waiting. */
  lemma UnblockMeans(s: Sys, c: nat, queue: bool)
    requires Inv(s) && c in s.info && s.info[c].blocked
    ensures var z := UnblockClient(s, c, queue); var i := s.info[c];
      && z.info.Keys == s.info.Keys && z.index.held.Keys == s.index.held.Keys
      && z.info[c] == Info(NotBlocked, false, false, i.pending, i.queued || queue, i.byModule)
      && z.index.held[c] == map[]
      && z.unblocked == s.unblocked + (if queue && !i.queued then [c] else [])
      && (forall d :: d in s.info && d != c ==> z.info[d] == s.info[d] && z.index.held[d] == s.index.held[d])
      && z == s.(info := z.info, index := z.index, byType := z.byType, blockedClients := z.blockedClients,
                 unblocked := z.unblocked)
  {
    hide Good, Counters, Queues, Clients, Unlink, OnKeys;
    OnlyOnKeys(s, c);
    UnlinkHeld(s.index, c, s.index.held[c].Keys, s.info[c].onNokey);
    assert s.unblocked + [] == s.unblocked;
  }

  /** Woken for a key it is the same, and its pending command is about to be run again. */
  lemma WakeMeans(s: Sys, c: nat, key: Key)
    requires Inv(s) && Enabled(s, WakeOnKey(c, key))
    ensures var z := UnblockOnKey(s, c, key); var i := s.info[c];
      && z.info.Keys == s.info.Keys && z.index.held.Keys == s.index.held.Keys
      && z.info[c] == Info(NotBlocked, false, false, false, i.queued, i.byModule)
      && z.index.held[c] == map[]
      && (forall d :: d in s.info && d != c ==> z.info[d] == s.info[d] && z.index.held[d] == s.index.held[d])
      && z == s.(info := z.info, index := z.index, byType := z.byType, blockedClients := z.blockedClients)
  {
    hide Inv, Unlink, UnblockClient;
    var r := ReleaseKey(s, c, key);
    ReleaseKeeps(s, c, key);
    ReleaseHeld(s, c, key);
    UnblockMeans(r, c, false);
    assert r.unblocked + [] == r.unblocked;
  }

  lemma ReleaseHeld(s: Sys, c: nat, key: Key)
    requires Inv(s) && Enabled(s, WakeOnKey(c, key))
    ensures var r := ReleaseKey(s, c, key);
      && r == s.(index := r.index) && r.index.held.Keys == s.index.held.Keys && s.info[c].blocked
      && forall d :: d in s.info && d != c ==> r.index.held[d] == s.index.held[d]
  {
    hide Good, Counters, Queues;
    UnlinkHeld(s.index, c, {key}, s.info[c].onNokey);
    assert s.index.held[c] != map[];
  }

  /** A client blocked on keys waits for exactly those, in the way it was blocked; its command is
      to be run again, unless a module takes care of it. */
  lemma BlockMeans(s: Sys, c: nat, b: BType, keys: seq<Key>, onNokey: bool)
    requires Inv(s) && Enabled(s, Block(c, b, keys, onNokey))
    ensures var z := BlockForKeys(s, c, b, keys, onNokey); var i := s.info[c];
      && z.info.Keys == s.info.Keys && z.index.held.Keys == s.index.held.Keys
      && z.info[c] == Info(b, true, onNokey, i.pending || b != ForModule, i.queued, i.byModule)
      && (forall k :: k in z.index.held[c] <==> k in keys)
      && (forall d :: d in s.info && d != c ==> z.info[d] == s.info[d] && z.index.held[d] == s.index.held[d])
      && z == s.(info := z.info, index := z.index, byType := z.byType, blockedClients := z.blockedClients)
  {
    hide Good, Counters, Queues, Clients, LinkAll, NokeyClients, OnKeys;
    var z := BlockForKeys(s, c, b, keys, onNokey);
    IdleClient(s, c);
    BlockIndexKeeps(s, z, c, keys, onNokey);
  }

  // ----- No wake-up is lost, none is doubled -----------------------------------------------------------

  function Times(list: seq<Key>, k: Key): nat {
    multiset(list)[k]
  }

  lemma {:induction false} OnceIfMember(list: seq<Key>, k: Key)
    requires NoRepeat(list)
    ensures Times(list, k) == if k in list then 1 else 0
  {
    if list != [] {
      assert list == [list[0]] + list[1..];
      assert list[0] !in list[1..];
      OnceIfMember(list[1..], k);
    }
  }

  /** What a client that is blocked in this way is waiting for. A module client waits for any
      type that clients can wait for at all: strings, sets and hashes are not among them. */
  ghost predicate WaitsFor(b: BType, t: ObjectType) {
    || (b == ForList && t == ListObject)
    || (b == ForZset && t == ZsetObject)
    || (b == ForStream && t == StreamObject)
    || (b == ForModule && t in {ListObject, ZsetObject, StreamObject, ModuleObject})
  }

  /** A client that a signal concerns: it waits for the key and for this type of object; if the
      key is gone, it must also want to know. */
  ghost predicate Concerned(s: Sys, c: nat, key: Key, t: ObjectType, deleted: bool)
    requires Typed(s)
  {
    && c in s.info && key in s.index.held[c]
    && WaitsFor(s.info[c].btype, t)
    && (deleted ==> s.info[c].onNokey)
  }

  lemma CounterPositive(s: Sys, c: nat)
    requires Inv(s) && c in s.info && s.info[c].blocked
    ensures s.byType[s.info[c].btype] > 0
  {
    assert c in OfType(s.info, s.info[c].btype);
  }

  /** After a signal that concerns somebody, the key is queued exactly once, despite the early
      returns on counters and on keys already signalled. */
  lemma SignalIsQueued(s: Sys, c: nat, key: Key, t: ObjectType, deleted: bool)
    requires Inv(s) && Concerned(s, c, key, t, deleted)
    ensures var z := Signal(s, key, t, deleted);
      key in z.ready && Times(z.batch + z.readyKeys, key) == 1
  {
    hide Good, Counters;
    IndexMeans(s, c, key);
    CounterPositive(s, c);
    assert s.info[c].onNokey ==> key in s.index.nokey;
    SignalKeeps(s, key, t, deleted);
    var z := Signal(s, key, t, deleted);
    OnceIfMember(z.batch + z.readyKeys, key);
  }

  /** And a signal queues a key only if somebody waits for it, who wants to know if it is gone,
      and somebody, perhaps somebody else, is blocked for this type of object. */
  lemma SignalQueuesOnlyIf(s: Sys, key: Key, t: ObjectType, deleted: bool)
    requires Inv(s) && key !in s.ready
    ensures key in Signal(s, key, t, deleted).ready <==>
      && (exists c :: c in s.info && key in s.index.held[c] && (deleted ==> s.info[c].onNokey))
      && (exists d :: d in s.info && s.info[d].blocked && WaitsFor(s.info[d].btype, t))
  {
    hide Inv, WaitsFor;
    SomebodyHolds(s, key);
    SomebodyCounted(s, t);
  }

  /** The early return on the counters is taken exactly when nobody waits for the type. */
  lemma SomebodyCounted(s: Sys, t: ObjectType)
    requires Inv(s)
    ensures Typed(s)
    ensures (BlockedTypeOf(t) != NotBlocked && (s.byType[BlockedTypeOf(t)] > 0 || s.byType[ForModule] > 0))
        <==> exists d :: d in s.info && s.info[d].blocked && WaitsFor(s.info[d].btype, t)
  {
    hide Good, Counters, Queues, Clients;
    var b := BlockedTypeOf(t);
    if b != NotBlocked {
      CountedExists(s, b);
    }
    CountedExists(s, ForModule);
  }

  lemma SomebodyHolds(s: Sys, key: Key)
    requires Inv(s)
    ensures key in s.index.blocking <==> exists c :: c in s.info && key in s.index.held[c]
    ensures key in s.index.nokey <==> exists c :: c in s.info && key in s.index.held[c] && s.info[c].onNokey
  {
    IndexMeans(s, 0, key);
    if key in s.index.blocking {
      var n := s.index.blocking[key][0];
      assert n in s.index.blocking[key] && GoodList(s.index, key, NokeyClients(s.info));
      assert Held(s.index, key, n);
    }
    if c :| c in s.info && key in s.index.held[c] {
      IndexMeans(s, c, key);
    }
  }

  lemma CountedExists(s: Sys, b: BType)
    requires Inv(s) && b != NotBlocked
    ensures s.byType[b] > 0 <==> exists d :: d in s.info && s.info[d].btype == b
    ensures forall d :: d in s.info && s.info[d].btype == b ==> s.info[d].blocked
  {
    var of := OfType(s.info, b);
    assert s.byType[b] == |of|;
    if |of| > 0 {
      var d :| d in of;
    }
    if d :| d in s.info && s.info[d].btype == b {
      assert d in of;
    }
  }

  /** A signalled key stays signalled until its turn comes: no other step forgets it. */
  lemma ReadyUntilHandled(s: Sys, e: Step, key: Key)
    requires Inv(s) && Enabled(s, e) && key in s.ready
    requires !(e.StartKey? && s.batch[0] == key)
    ensures key in Next(s, e).ready
  {
    hide Good, Counters, Queues, Unlink, LinkAll;
  }

  // ----- Keys are handled in the order of their signals --------------------------------------------------

  /** The key that a step makes ready, if any. */
  function MadeReady(s: Sys, e: Step): seq<Key>
    requires Typed(s) && Enabled(s, e)
  {
    if e.SignalKey? && e.key in Next(s, e).ready - s.ready then [e.key] else []
  }

  /** The key whose turn a step is, if any. */
  function Turn(s: Sys, e: Step): seq<Key>
    requires Enabled(s, e)
  {
    if e.StartKey? then [s.batch[0]] else []
  }

  ghost function Signalled(states: seq<Sys>, steps: seq<Step>): seq<Key>
    requires IsRun(states, steps)
    decreases |steps|
  {
    if steps == [] then []
    else
      var n := |steps| - 1;
      Signalled(states[..n + 1], steps[..n]) + MadeReady(states[n], steps[n])
  }

  ghost function Handled(states: seq<Sys>, steps: seq<Step>): seq<Key>
    requires IsRun(states, steps)
    decreases |steps|
  {
    if steps == [] then []
    else
      var n := |steps| - 1;
      Handled(states[..n + 1], steps[..n]) + Turn(states[n], steps[n])
  }

  /** First signalled, first handled: the keys handled so far, then those still waiting, are the
      keys that became ready, in that order. */
  lemma {:induction false} HandledInOrder(states: seq<Sys>, steps: seq<Step>)
    requires IsRun(states, steps)
    ensures var s := states[|steps|]; Signalled(states, steps) == Handled(states, steps) + s.batch + s.readyKeys
    decreases |steps|
  {
    hide Next, Enabled, Typed, MadeReady, Turn;
    if steps != [] {
      var n := |steps| - 1;
      HandledInOrder(states[..n + 1], steps[..n]);
      assert states[..n + 1][n] == states[n];
      StepInOrder(states[n], steps[n], Handled(states[..n + 1], steps[..n]));
    }
  }

  lemma StepInOrder(s: Sys, e: Step, done: seq<Key>)
    requires Typed(s) && Enabled(s, e)
    ensures var z := Next(s, e);
      done + s.batch + s.readyKeys + MadeReady(s, e) == done + Turn(s, e) + z.batch + z.readyKeys
  {
    StepQueues(s, e);
    hide Next, Enabled, Typed, MadeReady;
    var z := Next(s, e);
    match e {
      case StartKey => assert done + s.batch == done + [s.batch[0]] + z.batch;
      case TakeBatch => assert done + s.batch + s.readyKeys == done + z.batch + z.readyKeys;
      case SignalKey(_, _, _) => assert s.readyKeys + MadeReady(s, e) == z.readyKeys;
      case _ =>
    }
  }

  lemma StepQueues(s: Sys, e: Step)
    requires Typed(s) && Enabled(s, e)
    ensures var z := Next(s, e);
      match e
      case StartKey => s.batch != [] && s.batch == [s.batch[0]] + z.batch && z.readyKeys == s.readyKeys
      case TakeBatch => s.batch == [] && z.batch == s.readyKeys && z.readyKeys == []
      case SignalKey(_, _, _) => z.batch == s.batch && z.readyKeys == s.readyKeys + MadeReady(s, e)
      case _ => z.batch == s.batch && z.readyKeys == s.readyKeys
    ensures !e.SignalKey? ==> MadeReady(s, e) == []
  {
    hide Unlink, LinkAll;
  }
}
