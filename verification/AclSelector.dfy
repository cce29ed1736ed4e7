/** The selector as the server keeps it: a bitmap, a flag, first arguments and the text of the
    rules, all changed in place. Each method makes exactly the move that `Acl` describes. */
module AclSelector {
  import opened Options
  import opened AclRules
  import opened Acl
  import opened AclReplay

  // ----- The moves add up --------------------------------------------------------------------

  function Change(sel: Selector, ids: set<nat>, owners: set<nat>, value: bool): Selector {
    DropArgs(SetBits(sel, ids, value), owners)
  }

  lemma ChangeTwice(sel: Selector, i: set<nat>, o: set<nat>, j: set<nat>, p: set<nat>, value: bool)
    ensures Change(Change(sel, i, o, value), j, p, value) == Change(sel, i + j, o + p, value)
  {
    var known, more := KnownOf(i), KnownOf(j);
    assert KnownOf(i + j) == known + more;
    assert sel.bits - known - more == sel.bits - (known + more);
    assert sel.bits + known + more == sel.bits + (known + more);
    assert sel.args - o - p == sel.args - (o + p);
    assert known + more == {} <==> known == {} && more == {};
  }

  function SubIds(c: Command, names: set<string>): set<nat> {
    set s | s in names && s in c.subs :: c.subs[s].id
  }

  /** The subcommands of `c` that are in the category, among `names`. */
  function SubIdsIn(c: Command, names: set<string>, cat: string): set<nat> {
    set s | s in names && s in c.subs && cat in c.subs[s].cats :: c.subs[s].id
  }

  function CommandIds(c: Command, cat: string): set<nat> {
    (if cat in c.cats then TopIds(c) else {}) + SubIdsIn(c, c.subs.Keys, cat)
  }

  function CommandOwners(c: Command, cat: string): set<nat> {
    (if cat in c.cats then {c.id} else {}) + SubIdsIn(c, c.subs.Keys, cat)
  }

  function TableIds(t: Table, names: set<string>, cat: string): set<nat> {
    set n, i | n in names && n in t.commands && i in CommandIds(t.commands[n], cat) :: i
  }

  function TableOwners(t: Table, names: set<string>, cat: string): set<nat> {
    set n, i | n in names && n in t.commands && i in CommandOwners(t.commands[n], cat) :: i
  }

  lemma TableMore(t: Table, names: set<string>, n: string, cat: string)
    requires n in t.commands
    ensures TableIds(t, names + {n}, cat) == TableIds(t, names, cat) + CommandIds(t.commands[n], cat)
    ensures TableOwners(t, names + {n}, cat) == TableOwners(t, names, cat) + CommandOwners(t.commands[n], cat)
  {
    hide CommandIds, CommandOwners;
  }

  lemma TableAll(t: Table, cat: string)
    ensures TableIds(t, t.commands.Keys, cat) == CategoryIds(t, cat)
    ensures TableOwners(t, t.commands.Keys, cat) == CategoryOwners(t, cat)
  {
    forall i ensures i in TableIds(t, t.commands.Keys, cat) <==> i in CategoryIds(t, cat) {
      if i in TableIds(t, t.commands.Keys, cat) {
        var n :| n in t.commands && i in CommandIds(t.commands[n], cat);
      }
      if i in CategoryIds(t, cat) {
        var n :| n in t.commands && i in CommandIds(t.commands[n], cat);
      }
    }
    forall i ensures i in TableOwners(t, t.commands.Keys, cat) <==> i in CategoryOwners(t, cat) {
      if i in CategoryOwners(t, cat) {
        var n :| n in t.commands && i in CommandOwners(t.commands[n], cat);
      }
    }
  }

  // ----- The selector ---------------------------------------------------------------------------

  function SetOf(a: seq<bool>): (s: set<nat>)
    ensures forall i: nat :: i in s <==> i < |a| && a[i]
  {
    set i | 0 <= i < |a| && a[i]
  }

  lemma OneKnown(sel: Selector, id: nat, value: bool)
    ensures SetBits(sel, {id}, value) ==
      if id >= BITS then sel
      else if value then sel.(bits := sel.bits + {id})
      else sel.(bits := sel.bits - {id}, all := false)
  {
    assert KnownOf({id}) == if id < BITS then {id} else {};
    assert sel.bits + {} == sel.bits && sel.bits - {} == sel.bits;
  }

  lemma OneBit(a: seq<bool>, id: nat, value: bool)
    ensures id < |a| ==> SetOf(a[id := value]) == if value then SetOf(a) + {id} else SetOf(a) - {id}
  {
  }

  /** The loop over the letters of a '%' operation whose length is known. */
  method ReadPermissions(op: string) returns (start: Option<nat>)
    requires op != ""
    ensures start == PatternStart(op, 1, false, false)
    ensures start.Some? ==> start.value <= |op|
  {
    var offset, read, write := 1, false, false;
    while offset < |op|
      invariant 1 <= offset <= |op|
      invariant PatternStart(op, offset, read, write) == PatternStart(op, 1, false, false)
    {
      if (op[offset] == 'R' || op[offset] == 'r') && !read {
        read := true;
      } else if (op[offset] == 'W' || op[offset] == 'w') && !write {
        write := true;
      } else if op[offset] == '~' {
        return Some(offset + 1);
      } else {
        return None;
      }
      offset := offset + 1;
    }
    start := Some(offset);
  }

  class AclSelector {
    const allowed: array<bool>        // allowed_commands
    var allCommands: bool             // SELECTOR_FLAG_ALLCOMMANDS
    var rules: string                 // command_rules
    var args: map<nat, seq<string>>   // allowed_firstargs
    var allKeys: bool                 // SELECTOR_FLAG_ALLKEYS
    var allChannels: bool             // SELECTOR_FLAG_ALLCHANNELS

    ghost predicate Valid()
      reads this
    {
      allowed.Length == BITS
    }

    ghost function State(): Selector
      reads this, allowed
    {
      Selector(SetOf(allowed[..]), allCommands, rules, args, allKeys, allChannels)
    }

    /** ACLCreateSelector. */
    constructor ()
      ensures Valid() && State() == FRESH && fresh(allowed)
    {
      allowed := new bool[BITS](i => false);
      allCommands, rules, args, allKeys, allChannels := false, "", map[], false, false;
    }

    /** The memset of +@all and -@all. */
    method SetAll(value: bool)
      requires Valid()
      modifies allowed
      ensures SetOf(allowed[..]) == if value then AllBits() else {}
    {
      for i := 0 to BITS
        invariant forall k :: 0 <= k < i ==> allowed[k] == value
      {
        allowed[i] := value;
      }
      forall i: nat ensures i in SetOf(allowed[..]) <==> value && i < BITS {
        assert i < BITS ==> allowed[..][i] == value;
      }
      assert forall i: nat :: i in AllBits() <==> Known(i);
    }

    /** ACLSetSelectorCommandBit. */
    method SetCommandBit(id: nat, value: bool)
      requires Valid()
      modifies this`allCommands, allowed
      ensures State() == SetBits(old(State()), {id}, value)
    {
      hide SetBits;
      OneBit(allowed[..], id, value);
      OneKnown(State(), id, value);
      if id >= BITS {
        return;
      }
      ghost var before := allowed[..];
      allowed[id] := value;
      assert allowed[..] == before[id := value];
      if !value {
        allCommands := false;
      }
    }

    /** ACLResetFirstArgsForCommand. */
    method ResetFirstArgs(id: nat)
      modifies this`args
      ensures args == old(args) - {id}
    {
      args := args - {id};
    }

    /** ACLChangeSelectorPerm. */
    method ChangeCommandPerm(target: Target, allow: bool)
      requires Valid()
      modifies this`allCommands, this`args, allowed
      ensures State() == ChangePerm(old(State()), target, allow)
    {
      hide SetBits, DropArgs, Change, ChangePerm, SubIds, TopIds;
      ghost var start := old(State());
      var id := match target case Top(c) => c.id case Child(s) => s.id;
      SetCommandBit(id, allow);
      ResetFirstArgs(id);
      ChangeOne(start, id, allow);
      PermIsChange(start, target, allow);
      if target.Top? {
        ChangeSubcommands(target.cmd, allow, start);
      }
    }

    /** The loop over the subcommands. */
    method ChangeSubcommands(c: Command, allow: bool, ghost start: Selector)
      requires Valid() && State() == Change(start, {c.id}, {c.id}, allow)
      modifies this`allCommands, this`args, allowed
      ensures State() == Change(start, {c.id} + SubIds(c, c.subs.Keys), {c.id}, allow)
    {
      hide SetBits, DropArgs, Change, SubIds;
      var subs := c.subs;
      var todo := subs.Keys;
      ghost var done: set<string> := {};
      NoSubIds(c);
      while todo != {}
        invariant todo + done == subs.Keys
        invariant State() == Change(start, {c.id} + SubIds(c, done), {c.id}, allow)
        decreases |todo|
      {
        var s :| s in todo;
        ghost var sofar := State();
        SetCommandBit(subs[s].id, allow);
        BitsOnly(sofar, subs[s].id, allow);
        ChangeTwice(start, {c.id} + SubIds(c, done), {c.id}, {subs[s].id}, {}, allow);
        assert {c.id} + {} == {c.id};
        OneMoreSub(c, done, s, c.id);
        done := done + {s};
        todo := todo - {s};
      }
    }

    /** ACLSetSelectorCommandBitsForCategory, for the subcommands of one command. */
    method ChangeSubcommandsIn(c: Command, cat: string, allow: bool)
      requires Valid()
      modifies this`allCommands, this`args, allowed
      ensures State() == Change(old(State()), SubIdsIn(c, c.subs.Keys, cat), SubIdsIn(c, c.subs.Keys, cat), allow)
    {
      hide SetBits, DropArgs, Change, SubIdsIn;
      ghost var start := old(State());
      var todo := c.subs.Keys;
      ghost var done: set<string> := {};
      ChangeNothing(start, allow);
      NoSubs(c, cat);
      while todo != {}
        invariant todo + done == c.subs.Keys
        invariant State() == Change(start, SubIdsIn(c, done, cat), SubIdsIn(c, done, cat), allow)
        decreases |todo|
      {
        var s :| s in todo;
        var sub := c.subs[s];
        ghost var sofar := State();
        if cat in sub.cats {
          ChangeCommandPerm(Child(sub), allow);
          PermIsChange(sofar, Child(sub), allow);
          ghost var ids := SubIdsIn(c, done, cat);
          ChangeTwice(start, ids, ids, {sub.id}, {sub.id}, allow);
        }
        OneMoreSubIn(c, done, s, cat);
        done := done + {s};
        todo := todo - {s};
      }
    }

    /** ACLSetSelectorCommandBitsForCategory: walk the command table in any order. */
    method SetCommandBitsForCategory(t: Table, cat: string, allow: bool)
      requires Valid()
      modifies this`allCommands, this`args, allowed
      ensures State() == ChangeCategory(t, old(State()), cat, allow)
    {
      hide SetBits, DropArgs, Change, CommandIds, CommandOwners;
      ghost var start := old(State());
      var todo := t.commands.Keys;
      ghost var done: set<string> := {};
      ChangeNothing(start, allow);
      assert TableIds(t, done, cat) == {} && TableOwners(t, done, cat) == {};
      while todo != {}
        invariant todo + done == t.commands.Keys && todo * done == {}
        invariant State() == Change(start, TableIds(t, done, cat), TableOwners(t, done, cat), allow)
        decreases |todo|
      {
        var n :| n in todo;
        ChangeCommandIn(t.commands[n], cat, allow);
        ChangeTwice(start, TableIds(t, done, cat), TableOwners(t, done, cat),
                    CommandIds(t.commands[n], cat), CommandOwners(t.commands[n], cat), allow);
        TableMore(t, done, n, cat);
        done := done + {n};
        todo := todo - {n};
      }
      TableAll(t, cat);
      CategoryIsChange(t, start, cat, allow);
    }

    method ChangeCommandIn(c: Command, cat: string, allow: bool)
      requires Valid()
      modifies this`allCommands, this`args, allowed
      ensures State() == Change(old(State()), CommandIds(c, cat), CommandOwners(c, cat), allow)
    {
      hide SetBits, DropArgs, Change, SubIdsIn, TopIds;
      ghost var start := old(State());
      ghost var ids: set<nat>, owners: set<nat> := {}, {};
      ChangeNothing(start, allow);
      if cat in c.cats {
        ChangeCommandPerm(Top(c), allow);
        PermIsChange(start, Top(c), allow);
        ids, owners := TopIds(c), {c.id};
      }
      ghost var subs := SubIdsIn(c, c.subs.Keys, cat);
      ChangeSubcommandsIn(c, cat, allow);
      ChangeTwice(start, ids, owners, subs, subs, allow);
    }

    /** ACLAddAllowedFirstArg. */
    method AddAllowedFirstArg(id: nat, arg: string)
      modifies this`args
      ensures State() == AddArg(old(State()), id, arg)
    {
      var list := if id in args then args[id] else [];
      var items := 0;
      while items < |list|
        invariant 0 <= items <= |list|
        invariant forall i :: 0 <= i < items ==> Lower(list[i]) != Lower(arg)
      {
        if Lower(list[items]) == Lower(arg) {
          return;
        }
        items := items + 1;
      }
      args := args[id := list + [arg]];
    }

    /** ACLUpdateCommandRules. */
    method UpdateCommandRules(name: string, allow: bool)
      modifies this`rules
      ensures State() == Update(old(State()), name, allow)
    {
      hide Scan, Text, Lower;
      var newRule := Lower(name);
      rules := RemoveCommandRule(rules, newRule);
      if |rules| > 0 {
        rules := rules + " ";
      }
      assert "" + Text(Rule(allow, newRule)) == Text(Rule(allow, newRule));
      rules := rules + Text(Rule(allow, newRule));
    }

    /** ACLSetSelector, called with the length of the operation or with -1. */
    method Set(t: Table, op: string, measured: bool) returns (ok: bool)
      requires Valid()
      modifies this, allowed
      ensures ok <==> SetSelector(t, old(State()), op, measured).Done?
      ensures State() == SetSelector(t, old(State()), op, measured).After(old(State()))
    {
      hide ChangePerm, ChangeCategory, Update, AddArg, Lookup, LastBar, Lower, SetPattern;
      var low := Lower(op);
      if low == "allkeys" || low == "~*" {
        allKeys := true;
        return true;
      }
      if low == "resetkeys" {
        allKeys := false;
        return true;
      }
      if low == "allchannels" || low == "&*" {
        allChannels := true;
        return true;
      }
      if low == "resetchannels" {
        allChannels := false;
        return true;
      }
      if low == "allcommands" || low == "+@all" {
        SetAll(true);
        allCommands, rules, args := true, "", map[];
        return true;
      }
      if low == "nocommands" || low == "-@all" {
        SetAll(false);
        allCommands, rules, args := false, "", map[];
        return true;
      }
      if IsPattern(op) {
        ok := AddPattern(op, measured);
        return;
      }
      if op == "" || (op[0] != '+' && op[0] != '-') {
        return false;
      }
      if |op| > 1 && op[1] == '@' {
        ok := SetCategory(t, op, measured);
      } else {
        ok := SetCommand(t, op, measured);
      }
    }

    /** The branches for patterns: the permission letters of '%', then the search for blanks. */
    method AddPattern(op: string, measured: bool) returns (ok: bool)
      requires IsPattern(op)
      modifies this`allKeys, this`allChannels
      ensures ok <==> SetPattern(old(State()), op, measured).Done?
      ensures State() == SetPattern(old(State()), op, measured).After(old(State()))
    {
      if op[0] == '&' {
        if allChannels || !measured || HasSpaces(op[1..]) {
          return false;
        }
        allChannels := false;
        return true;
      }
      if allKeys || !measured {
        return false;
      }
      var offset := 1;
      if op[0] == '%' {
        var start := ReadPermissions(op);
        if start.None? {
          return false;
        }
        offset := start.value;
      }
      if HasSpaces(op[offset..]) {
        return false;
      }
      allKeys := false;
      ok := true;
    }

    /** ACLSetSelectorCategory. */
    method SetCategory(t: Table, op: string, measured: bool) returns (ok: bool)
      requires Valid() && IsRule(op) && |op| > 1 && op[1] == '@'
      modifies this, allowed
      ensures ok <==> SetSelector(t, old(State()), op, measured).Done?
      ensures State() == SetSelector(t, old(State()), op, measured).After(old(State()))
    {
      hide ChangeCategory, Update, Lower;
      OpNames(op);
      var cat := Lower(op[2..]);
      if cat !in t.categories {
        return false;
      }
      UpdateCommandRules(op[1..], op[0] == '+');
      SetCommandBitsForCategory(t, cat, op[0] == '+');
      ok := true;
    }

    method SetCommand(t: Table, op: string, measured: bool) returns (ok: bool)
      requires Valid() && IsRule(op) && !(|op| > 1 && op[1] == '@')
      modifies this, allowed
      ensures ok <==> SetSelector(t, old(State()), op, measured).Done?
      ensures State() == SetSelector(t, old(State()), op, measured).After(old(State()))
    {
      hide ChangePerm, ChangeCategory, Update, AddArg, Lookup, LastBar, Lower;
      OpNames(op);
      var name := op[1..];
      var bar := LastBar(name);
      var found := Lookup(t, name);
      if op[0] == '-' || bar == |name| {
        if found.None? {
          return false;
        }
        ChangeCommandPerm(found.value, op[0] == '+');
        UpdateCommandRules(name, op[0] == '+');
        return true;
      }
      var base, sub := Lookup(t, name[..bar]), name[bar + 1..];
      if base.None? || base.value.Child? || sub == "" {
        return false;
      }
      if base.value.cmd.subs != map[] {
        if found.None? {
          return false;
        }
        ChangeCommandPerm(found.value, true);
      } else {
        AddAllowedFirstArg(base.value.cmd.id, sub);
      }
      UpdateCommandRules(name, true);
      ok := true;
    }
  }

  lemma ChangeOne(sel: Selector, id: nat, value: bool)
    ensures var s := SetBits(sel, {id}, value);
      s.(args := s.args - {id}) == Change(sel, {id}, {id}, value)
  {
  }

  lemma BitsOnly(sel: Selector, id: nat, value: bool)
    ensures SetBits(sel, {id}, value) == Change(sel, {id}, {}, value)
  {
  }

  lemma ChangeNothing(sel: Selector, value: bool)
    ensures Change(sel, {}, {}, value) == sel
  {
  }

  lemma PermIsChange(sel: Selector, target: Target, allow: bool)
    ensures ChangePerm(sel, target, allow) ==
      match target
      case Top(c) => Change(sel, {c.id} + SubIds(c, c.subs.Keys), {c.id}, allow)
      case Child(s) => Change(sel, {s.id}, {s.id}, allow)
    ensures target.Top? ==> {target.cmd.id} + SubIds(target.cmd, target.cmd.subs.Keys) == TopIds(target.cmd)
  {
    if target.Top? {
      var c := target.cmd;
      assert SubIds(c, c.subs.Keys) == set s | s in c.subs :: c.subs[s].id;
    }
  }

  lemma CategoryIsChange(t: Table, sel: Selector, cat: string, allow: bool)
    ensures ChangeCategory(t, sel, cat, allow) == Change(sel, CategoryIds(t, cat), CategoryOwners(t, cat), allow)
  {
  }

  lemma NoSubs(c: Command, cat: string)
    ensures SubIdsIn(c, {}, cat) == {}
  {
  }

  lemma NoSubIds(c: Command)
    ensures {c.id} + SubIds(c, {}) == {c.id}
  {
  }

  lemma OneMoreSub(c: Command, done: set<string>, s: string, id: nat)
    requires s in c.subs
    ensures {id} + SubIds(c, done + {s}) == {id} + SubIds(c, done) + {c.subs[s].id}
  {
  }

  lemma OneMoreSubIn(c: Command, done: set<string>, s: string, cat: string)
    requires s in c.subs
    ensures SubIdsIn(c, done + {s}, cat)
         == SubIdsIn(c, done, cat) + if cat in c.subs[s].cats then {c.subs[s].id} else {}
  {
  }

  // ----- Command ids ----------------------------------------------------------------------------

  /** ACLGetCommandID and its table of names. */
  class CommandIdTable {
    var ids: map<string, nat>   // commandId
    var nextId: nat             // nextid

    /** Different names have different ids, and no name has the reserved one. */
    ghost predicate Valid()
      reads this
    {
      && (forall n :: n in ids ==> ids[n] < nextId && ids[n] != FUTURE)
      && (forall m, n :: m in ids && n in ids && ids[m] == ids[n] ==> m == n)
      && nextId != FUTURE
    }

    constructor ()
      ensures Valid() && ids == map[] && nextId == 0
    {
      ids, nextId := map[], 0;
    }

    /** The id of a name, in any case, is the one it got the first time. */
    method GetCommandID(cmdname: string) returns (id: nat)
      requires Valid()
      modifies this
      ensures Valid()
      ensures Lower(cmdname) in ids && ids[Lower(cmdname)] == id && id != FUTURE
      ensures forall n :: n in old(ids) ==> n in ids && ids[n] == old(ids)[n]
      ensures ids.Keys == old(ids).Keys + {Lower(cmdname)}
      ensures Lower(cmdname) !in old(ids) ==> id == old(nextId) && nextId > id
    {
      var name := Lower(cmdname);
      if name in ids {
        return ids[name];
      }
      ids := ids[name := nextId];
      id := nextId;
      nextId := nextId + 1;
      if nextId == BITS - 1 {
        nextId := nextId + 1;
      }
    }
  }
}
