/** Command permissions of an ACL selector. The permissions live twice: as a set of command bits
    and first arguments, which every check reads, and as the text of the rules that led there,
    which is what gets listed, saved and replayed. */
module Acl {
  import opened Options
  import opened AclRules

  const BITS: nat := 1024      // USER_COMMAND_BITS_COUNT
  const FUTURE: nat := 1023    // the reserved bit: commands that modules load later

  datatype Sub = Sub(id: nat, cats: set<string>)
  datatype Command = Command(id: nat, cats: set<string>, subs: map<string, Sub>)

  /** server.orig_commands and the category names, all in lower case. */
  datatype Table = Table(commands: map<string, Command>, categories: set<string>)

  datatype Selector = Selector(
    bits: set<nat>,                // allowed_commands
    all: bool,                     // SELECTOR_FLAG_ALLCOMMANDS
    rules: string,                 // command_rules
    args: map<nat, seq<string>>,   // allowed_firstargs
    allKeys: bool,                 // SELECTOR_FLAG_ALLKEYS
    allChannels: bool)             // SELECTOR_FLAG_ALLCHANNELS

  /** ACLCreateSelector, with acl-pubsub-default at its default. */
  const FRESH := Selector({}, false, "", map[], false, false)

  // ----- Names ------------------------------------------------------------------------------

  function LowerChar(c: char): char {
    if 'A' <= c <= 'Z' then (c as int + 32) as char else c
  }

  lemma LowerCharMeans(c: char)
    ensures var capitals, small := "ABCDEFGHIJKLMNOPQRSTUVWXYZ", "abcdefghijklmnopqrstuvwxyz";
      && (forall i :: 0 <= i < 26 && capitals[i] == c ==> LowerChar(c) == small[i])
      && (c !in capitals ==> LowerChar(c) == c)
  {
    var capitals, small := "ABCDEFGHIJKLMNOPQRSTUVWXYZ", "abcdefghijklmnopqrstuvwxyz";
    assert forall i :: 0 <= i < 26 ==> capitals[i] as int == 65 + i && small[i] as int == 97 + i;
    if 'A' <= c <= 'Z' {
      assert capitals[c as int - 65] == c;
    }
  }

  function Lower(s: string): (r: string)
    ensures |r| == |s| && forall i :: 0 <= i < |s| ==> r[i] == LowerChar(s[i])
  {
    seq(|s|, i requires 0 <= i < |s| => LowerChar(s[i]))
  }

  /** strrchr(s, '|'), or the length. */
  function LastBar(s: string): (n: nat)
    ensures n <= |s| && (n < |s| ==> s[n] == '|' && '|' !in s[n + 1..]) && (n == |s| ==> '|' !in s)
  {
    if s == "" then 0
    else if s[|s| - 1] == '|' then |s| - 1
    else
      var front := s[..|s| - 1];
      var n := LastBar(front);
      if n == |front| then
        assert s == front + [s[|s| - 1]];
        |s|
      else
        assert s[n + 1..] == front[n + 1..] + [s[|s| - 1]];
        n
  }

  datatype Target = Top(cmd: Command) | Child(sub: Sub)

  /** ACLLookupCommand: one name, or a container and a subcommand. */
  function Lookup(t: Table, name: string): Option<Target> {
    var n := LastBar(name);
    var low := Lower(name);
    if n == |name| then
      if low in t.commands then Some(Top(t.commands[low])) else None
    else
      var base, sub := low[..n], low[n + 1..];
      if base in t.commands && sub in t.commands[base].subs then Some(Child(t.commands[base].subs[sub])) else None
  }

  // ----- The operations on the two representations --------------------------------------------

  /** ACLGetCommandBitCoordinates: an id beyond the bitmap has no bit. */
  predicate Known(id: nat) {
    id < BITS
  }

  function AllBits(): set<nat> {
    set i | 0 <= i < BITS && Known(i)
  }

  function KnownOf(ids: set<nat>): (known: set<nat>)
    ensures forall i :: i in known <==> i in ids && i < BITS
  {
    set i | i in ids && Known(i)
  }

  /** ACLSetSelectorCommandBit for each of `ids`. */
  function SetBits(sel: Selector, ids: set<nat>, value: bool): Selector {
    var known := KnownOf(ids);
    if value then sel.(bits := sel.bits + known)
    else sel.(bits := sel.bits - known, all := sel.all && known == {})
  }

  function DropArgs(sel: Selector, ids: set<nat>): Selector {
    sel.(args := sel.args - ids)
  }

  function TopIds(c: Command): set<nat> {
    {c.id} + set s | s in c.subs :: c.subs[s].id
  }

  /** ACLChangeSelectorPerm. */
  function ChangePerm(sel: Selector, target: Target, allow: bool): Selector {
    match target
    case Top(c) => DropArgs(SetBits(sel, TopIds(c), allow), {c.id})
    case Child(s) => DropArgs(SetBits(sel, {s.id}, allow), {s.id})
  }

  function CategoryIds(t: Table, cat: string): set<nat> {
    (set n, i | n in t.commands && cat in t.commands[n].cats && i in TopIds(t.commands[n]) :: i)
    + (set n, s | n in t.commands && s in t.commands[n].subs && cat in t.commands[n].subs[s].cats
         :: t.commands[n].subs[s].id)
  }

  function CategoryOwners(t: Table, cat: string): set<nat> {
    (set n | n in t.commands && cat in t.commands[n].cats :: t.commands[n].id)
    + (set n, s | n in t.commands && s in t.commands[n].subs && cat in t.commands[n].subs[s].cats
         :: t.commands[n].subs[s].id)
  }

  /** ACLSetSelectorCommandBitsForCategory, in whatever order the dictionaries are walked. */
  function ChangeCategory(t: Table, sel: Selector, cat: string, allow: bool): Selector {
    DropArgs(SetBits(sel, CategoryIds(t, cat), allow), CategoryOwners(t, cat))
  }

  predicate HasArg(list: seq<string>, arg: string) {
    exists i :: 0 <= i < |list| && Lower(list[i]) == Lower(arg)
  }

  /** ACLAddAllowedFirstArg. */
  function AddArg(sel: Selector, id: nat, arg: string): Selector {
    var list := if id in sel.args then sel.args[id] else [];
    if HasArg(list, arg) then sel else sel.(args := sel.args[id := list + [arg]])
  }

  /** ACLUpdateCommandRules. */
  function Update(sel: Selector, name: string, allow: bool): Selector {
    var kept := Scan(sel.rules, 0, Lower(name));
    var text := Text(Rule(allow, Lower(name)));
    sel.(rules := if kept == "" then text else kept + " " + text)
  }

  datatype Outcome = Done(sel: Selector) | Refused {
    /** A refused operation changes nothing. */
    function After(before: Selector): Selector {
      if Done? then sel else before
    }
  }

  // ----- Keys and channels: the flags; the patterns themselves are not kept -------------------

  predicate IsKeyWord(low: string) {
    || low == "allkeys" || low == "~*" || low == "resetkeys"
    || low == "allchannels" || low == "&*" || low == "resetchannels"
  }

  function SetKeyWord(sel: Selector, low: string): Selector {
    if low == "allkeys" || low == "~*" then sel.(allKeys := true)
    else if low == "resetkeys" then sel.(allKeys := false)
    else if low == "allchannels" || low == "&*" then sel.(allChannels := true)
    else sel.(allChannels := false)
  }

  predicate IsPattern(op: string) {
    op != "" && (op[0] == '~' || op[0] == '%' || op[0] == '&')
  }

  /** ACLStringHasSpaces. */
  predicate HasSpaces(s: string) {
    s != "" && (IsSpace(s[0]) || s[0] == '\0' || HasSpaces(s[1..]))
  }

  /** Where the pattern of a '%' operation starts: behind the letters R and W, each at most once,
      and a '~'; or at the end. */
  function PatternStart(op: string, i: nat, read: bool, write: bool): (r: Option<nat>)
    ensures r.Some? && i <= |op| ==> r.value <= |op|
    decreases |op| - i
  {
    if i >= |op| then Some(i)
    else if (op[i] == 'R' || op[i] == 'r') && !read then PatternStart(op, i + 1, true, write)
    else if (op[i] == 'W' || op[i] == 'w') && !write then PatternStart(op, i + 1, read, true)
    else if op[i] == '~' then Some(i + 1)
    else None
  }

  /** A key or channel pattern. Without a length the search for blanks runs into the terminating
      zero of the string, or the letters of '%' do, and the pattern is refused. */
  function SetPattern(sel: Selector, op: string, measured: bool): Outcome
    requires IsPattern(op)
  {
    if op[0] == '&' then
      if sel.allChannels || !measured || HasSpaces(op[1..]) then Refused else Done(sel.(allChannels := false))
    else if sel.allKeys || !measured then Refused
    else
      var start := if op[0] == '%' then PatternStart(op, 1, false, false) else Some(1);
      if start.None? || HasSpaces(op[start.value..]) then Refused else Done(sel.(allKeys := false))
  }

  /** What +@all and -@all leave. */
  function Base(sel: Selector, future: bool): Selector {
    sel.(bits := if future then AllBits() else {}, all := future, rules := "", args := map[])
  }

  /** ACLSetSelector. `measured` says whether the caller gives the length of the operation, as for
      an operation of a user, or -1, as the description does for the rules it reads back. */
  function SetSelector(t: Table, sel: Selector, op: string, measured: bool): Outcome {
    var low := Lower(op);
    if IsKeyWord(low) then Done(SetKeyWord(sel, low))
    else if low == "allcommands" || low == "+@all" then Done(Base(sel, true))
    else if low == "nocommands" || low == "-@all" then Done(Base(sel, false))
    else if IsPattern(op) then SetPattern(sel, op, measured)
    else if op == "" || (op[0] != '+' && op[0] != '-') then Refused
    else if |op| > 1 && op[1] == '@' then
      if Lower(op[2..]) in t.categories then
        Done(ChangeCategory(t, Update(sel, op[1..], op[0] == '+'), Lower(op[2..]), op[0] == '+'))
      else Refused
    else
      var name := op[1..];
      var n := LastBar(name);
      if op[0] == '-' || n == |name| then
        match Lookup(t, name)
        case None => Refused
        case Some(target) => Done(Update(ChangePerm(sel, target, op[0] == '+'), name, op[0] == '+'))
      else
        match Lookup(t, name[..n])
        case None => Refused
        case Some(Child(_)) => Refused
        case Some(Top(c)) =>
          if name[n + 1..] == "" then Refused
          else if c.subs != map[] then
            match Lookup(t, name)
            case None => Refused
            case Some(target) => Done(Update(ChangePerm(sel, target, true), name, true))
          else
            Done(Update(AddArg(sel, c.id, name[n + 1..]), name, true))
  }

  // ----- What a rule means ----------------------------------------------------------------------

  /** What a selector can grant: a command bit, or one first argument in any case. */
  datatype Atom = Bit(id: nat) | Arg(id: nat, arg: string)

  ghost predicate Has(sel: Selector, a: Atom) {
    match a
    case Bit(i) => i in sel.bits
    case Arg(i, x) => i in sel.args && exists k :: 0 <= k < |sel.args[i]| && Lower(sel.args[i][k]) == x
  }

  datatype Meaning =
    | Category(cat: string)
    | Whole(cmd: Command)
    | Part(sub: Sub)
    | FirstArg(owner: Command, arg: string)
    | Nothing

  /** What a rule is about, `name` being in lower case. */
  function MeaningOf(t: Table, r: Rule): Meaning {
    if r.name != "" && r.name[0] == '@' then
      if r.name[1..] in t.categories then Category(r.name[1..]) else Nothing
    else
      match Lookup(t, r.name)
      case Some(Top(c)) => Whole(c)
      case Some(Child(s)) => Part(s)
      case None =>
        var n := LastBar(r.name);
        if !r.allow || n == |r.name| || r.name[n + 1..] == "" then Nothing
        else
          match Lookup(t, r.name[..n])
          case Some(Top(c)) => if c.subs == map[] then FirstArg(c, r.name[n + 1..]) else Nothing
          case _ => Nothing
  }

  /** The atoms a rule decides. */
  ghost predicate Touches(t: Table, m: Meaning, a: Atom) {
    match m
    case Category(cat) =>
      (match a case Bit(i) => i in CategoryIds(t, cat) case Arg(i, _) => i in CategoryOwners(t, cat))
    case Whole(c) => (match a case Bit(i) => i in TopIds(c) case Arg(i, _) => i == c.id)
    case Part(s) => (match a case Bit(i) => i == s.id case Arg(i, _) => i == s.id)
    case FirstArg(c, arg) => a == Arg(c.id, arg)
    case Nothing => false
  }

  /** How it decides them: a rule about commands forgets all first arguments. */
  ghost predicate Grants(m: Meaning, allow: bool, a: Atom) {
    allow && (a.Bit? || m.FirstArg?)
  }

  /** What a list of rules leaves of an atom: the last rule that decides it wins. */
  ghost predicate Final(t: Table, future: bool, rs: seq<Rule>, a: Atom)
    decreases |rs|
  {
    if rs == [] then a.Bit? && future && a.id < BITS
    else
      var r := rs[|rs| - 1];
      var m := MeaningOf(t, r);
      if Touches(t, m, a) then Grants(m, r.allow, a) else Final(t, future, rs[..|rs| - 1], a)
  }

  // ----- Names and categories, spelled out -----------------------------------------------------

  lemma LastBarIs(name: string, n: nat)
    requires n < |name| && name[n] == '|' && '|' !in name[n + 1..]
    ensures LastBar(name) == n
  {
  }

  /** A name without a bar stands for the command, one with a bar for a subcommand, in any case. */
  lemma LookupMeans(t: Table, name: string, found: Target)
    ensures Lookup(t, name) == Some(found) <==>
      match found
      case Top(c) => '|' !in name && Lower(name) in t.commands && t.commands[Lower(name)] == c
      case Child(s) =>
        exists n :: 0 <= n < |name| && name[n] == '|' && '|' !in name[n + 1..]
          && Lower(name[..n]) in t.commands
          && Lower(name[n + 1..]) in t.commands[Lower(name[..n])].subs
          && t.commands[Lower(name[..n])].subs[Lower(name[n + 1..])] == s
  {
    hide LastBar;
    var n := LastBar(name);
    if n < |name| {
      assert Lower(name)[..n] == Lower(name[..n]) && Lower(name)[n + 1..] == Lower(name[n + 1..]);
      forall m | 0 <= m < |name| && name[m] == '|' && '|' !in name[m + 1..] ensures m == n {
        LastBarIs(name, m);
      }
    }
  }

  lemma TopIdsMean(c: Command, i: nat)
    ensures i in TopIds(c) <==> i == c.id || exists s :: s in c.subs && c.subs[s].id == i
  {
  }

  /** A subcommand with this id is in the category. */
  ghost predicate SubIn(c: Command, cat: string, i: nat) {
    exists s :: s in c.subs && cat in c.subs[s].cats && c.subs[s].id == i
  }

  /** A category stands for its commands with all their subcommands, and for single subcommands;
      first arguments go for the commands and single subcommands that are in it themselves. */
  lemma CategoryMeans(t: Table, cat: string, i: nat)
    ensures i in CategoryIds(t, cat) <==>
      exists n :: n in t.commands &&
        (SubIn(t.commands[n], cat, i) || (cat in t.commands[n].cats && i in TopIds(t.commands[n])))
    ensures i in CategoryOwners(t, cat) <==>
      exists n :: n in t.commands
        && (SubIn(t.commands[n], cat, i) || (cat in t.commands[n].cats && i == t.commands[n].id))
  {
    hide TopIds;
    if n, s :| n in t.commands && s in t.commands[n].subs && cat in t.commands[n].subs[s].cats
               && t.commands[n].subs[s].id == i {
      assert SubIn(t.commands[n], cat, i);
    }
  }

  /** A first argument that is granted in any case is not added again; another one comes last. */
  lemma AddArgMeans(sel: Selector, id: nat, arg: string)
    ensures var z := AddArg(sel, id, arg);
      if Has(sel, Arg(id, Lower(arg))) then z == sel
      else
        && z == sel.(args := z.args) && z.args.Keys == sel.args.Keys + {id}
        && z.args[id] == (if id in sel.args then sel.args[id] else []) + [arg]
        && forall i :: i in sel.args && i != id ==> z.args[i] == sel.args[i]
  {
  }

  // ----- Key and channel operations, spelled out -------------------------------------------------

  lemma {:induction false} HasSpacesMeans(s: string)
    ensures HasSpaces(s) <==> exists i :: 0 <= i < |s| && (IsSpace(s[i]) || s[i] == '\0')
  {
    if s != "" {
      HasSpacesMeans(s[1..]);
      assert forall i :: 1 <= i < |s| ==> s[i] == s[1..][i - 1];
      if i :| 0 <= i < |s[1..]| && (IsSpace(s[1..][i]) || s[1..][i] == '\0') {
        assert s[i + 1] == s[1..][i];
      }
    }
  }

  predicate IsRead(c: char) { c == 'R' || c == 'r' }

  predicate IsWrite(c: char) { c == 'W' || c == 'w' }

  /** R and W, each at most once and in any order and case. */
  predicate AreLetters(s: string) {
    || s == ""
    || (|s| == 1 && (IsRead(s[0]) || IsWrite(s[0])))
    || (|s| == 2 && ((IsRead(s[0]) && IsWrite(s[1])) || (IsWrite(s[0]) && IsRead(s[1]))))
  }

  /** What may follow '%': letters up to the end of the operation, or letters, a '~', and a
      pattern without blanks. */
  ghost predicate LettersAndPattern(op: string, k: nat) {
    && 1 <= k <= |op| && AreLetters(op[1..k])
    && (k < |op| ==> op[k] == '~' && !HasSpaces(op[k + 1..]))
  }

  predicate LettersFrom(s: string, read: bool, write: bool) {
    || s == ""
    || (IsRead(s[0]) && !read && LettersFrom(s[1..], true, write))
    || (IsWrite(s[0]) && !write && LettersFrom(s[1..], read, true))
  }

  lemma LettersAre(s: string)
    ensures LettersFrom(s, false, false) <==> AreLetters(s)
  {
    if s != "" && s[1..] != "" {
      assert s[1..][1..] == s[2..];
      assert LettersFrom(s[2..], true, true) <==> s[2..] == "";
    }
  }

  lemma {:induction false} PatternStartIs(op: string, i: nat, read: bool, write: bool, k: nat)
    requires 1 <= i <= k <= |op| && (k < |op| ==> op[k] == '~')
    ensures LettersFrom(op[i..k], read, write) ==>
              PatternStart(op, i, read, write) == Some(if k < |op| then k + 1 else k)
    decreases |op| - i
  {
    if i < k {
      assert op[i..k][1..] == op[i + 1..k];
      PatternStartIs(op, i + 1, true, write, k);
      PatternStartIs(op, i + 1, read, true, k);
    }
  }

  lemma {:induction false} PatternStartHas(op: string, i: nat, read: bool, write: bool) returns (k: nat)
    requires 1 <= i <= |op| && PatternStart(op, i, read, write).Some?
    ensures i <= k <= |op| && LettersFrom(op[i..k], read, write)
    ensures if k < |op| then op[k] == '~' && PatternStart(op, i, read, write).value == k + 1
            else PatternStart(op, i, read, write).value == |op|
    decreases |op| - i
  {
    if i == |op| || op[i] == '~' {
      k := i;
    } else if IsRead(op[i]) && !read {
      k := PatternStartHas(op, i + 1, true, write);
      assert op[i..k][1..] == op[i + 1..k];
    } else {
      k := PatternStartHas(op, i + 1, read, true);
      assert op[i..k][1..] == op[i + 1..k];
    }
  }

  lemma PercentMeans(op: string)
    requires op != ""
    ensures var start := PatternStart(op, 1, false, false);
      (start.Some? && !HasSpaces(op[start.value..])) <==> exists k :: LettersAndPattern(op, k)
  {
    hide LettersFrom, AreLetters, HasSpaces, PatternStart;
    NoSpacesAtEnd(op);
    var start := PatternStart(op, 1, false, false);
    if start.Some? {
      var k := PatternStartHas(op, 1, false, false);
      LettersAre(op[1..k]);
      assert !HasSpaces(op[start.value..]) ==> LettersAndPattern(op, k);
    }
    if k: nat :| LettersAndPattern(op, k) {
      LettersAre(op[1..k]);
      PatternStartIs(op, 1, false, false, k);
    }
  }

  lemma NoSpacesAtEnd(op: string)
    ensures !HasSpaces(op[|op|..])
  {
  }

  /** A pattern is accepted exactly if it comes with its length, not everything is allowed already,
      its letters are good, and it has no blanks; it never changes a flag. */
  lemma PatternAccepted(t: Table, sel: Selector, op: string, measured: bool)
    requires IsPattern(op) && !IsKeyWord(Lower(op))
    ensures var o := SetSelector(t, sel, op, measured);
      && (o.Done? ==> o.sel == sel)
      && (o.Done? <==>
            && measured
            && (if op[0] == '&' then !sel.allChannels else !sel.allKeys)
            && (if op[0] == '%' then exists k :: LettersAndPattern(op, k) else !HasSpaces(op[1..])))
  {
    hide IsKeyWord, PatternStart, HasSpaces, LettersAndPattern, Lookup, LastBar, Update, ChangePerm, ChangeCategory,
      AddArg, Base;
    assert Lower(op)[0] == LowerChar(op[0]);
    PercentMeans(op);
  }

  lemma WordSets(sel: Selector, low: string)
    requires IsKeyWord(low)
    ensures var z := SetKeyWord(sel, low);
      && z == sel.(allKeys := z.allKeys, allChannels := z.allChannels)
      && (z.allKeys <==> low == "allkeys" || low == "~*" || (sel.allKeys && low != "resetkeys"))
      && (z.allChannels <==> low == "allchannels" || low == "&*" || (sel.allChannels && low != "resetchannels"))
  {
  }

  lemma NoKeyWord(low: string)
    requires !IsKeyWord(low)
    ensures low != "allkeys" && low != "~*" && low != "resetkeys"
    ensures low != "allchannels" && low != "&*" && low != "resetchannels"
  {
  }

  predicate SameFlags(a: Selector, b: Selector) {
    a.allKeys == b.allKeys && a.allChannels == b.allChannels
  }

  lemma PartsKeepFlags(t: Table)
    ensures forall sel, n, v :: SameFlags(Update(sel, n, v), sel)
    ensures forall sel, x, v :: SameFlags(ChangePerm(sel, x, v), sel)
    ensures forall sel, c, v :: SameFlags(ChangeCategory(t, sel, c, v), sel)
    ensures forall sel, i, x :: SameFlags(AddArg(sel, i, x), sel)
    ensures forall sel, v :: SameFlags(Base(sel, v), sel)
  {
    hide Lower, CategoryIds, CategoryOwners, TopIds, KnownOf, HasArg, Scan, Text, AllBits;
  }

  lemma CommandsKeepFlags(t: Table, sel: Selector, op: string, measured: bool)
    requires !IsKeyWord(Lower(op)) && !IsPattern(op)
    ensures var o := SetSelector(t, sel, op, measured); o.Done? ==> SameFlags(o.sel, sel)
  {
    hide IsKeyWord, IsPattern, Lower, Lookup, LastBar, Update, ChangePerm, ChangeCategory, AddArg, Base;
    PartsKeepFlags(t);
  }

  /** The two flags follow the last word about them, and no such word touches the commands. */
  lemma FlagWords(t: Table, sel: Selector, op: string, measured: bool)
    ensures var o := SetSelector(t, sel, op, measured); var low := Lower(op);
      && (o.Done? ==>
            && (o.sel.allKeys <==> low == "allkeys" || low == "~*" || (sel.allKeys && low != "resetkeys"))
            && (o.sel.allChannels <==>
                  low == "allchannels" || low == "&*" || (sel.allChannels && low != "resetchannels")))
      && (IsKeyWord(low) ==> o.Done? && o.sel == sel.(allKeys := o.sel.allKeys, allChannels := o.sel.allChannels))
  {
    var low := Lower(op);
    if IsKeyWord(low) {
      WordSets(sel, low);
      assert SetSelector(t, sel, op, measured) == Done(SetKeyWord(sel, low)) by {
        hide SetKeyWord, IsKeyWord;
      }
      hide SetSelector, SetKeyWord, IsKeyWord, Lower;
    } else {
      hide SetSelector, IsKeyWord, IsPattern, Lower;
      NoKeyWord(low);
      if IsPattern(op) {
        PatternAccepted(t, sel, op, measured);
      } else {
        CommandsKeepFlags(t, sel, op, measured);
      }
    }
  }

  // ----- Well-formed tables ---------------------------------------------------------------------

  /** A name as the command table holds it. */
  ghost predicate GoodName(n: string) {
    n != "" && Lower(n) == n && '|' !in n && Clean(n) && n[0] != '@'
  }

  /** Only a command without subcommands can have first arguments. */
  ghost predicate Owner(t: Table, id: nat) {
    exists n :: n in t.commands && t.commands[n].subs == map[] && t.commands[n].id == id
  }

  ghost predicate GoodSub(t: Table, s: string, sub: Sub) {
    GoodName(s) && sub.id != FUTURE && !Owner(t, sub.id)
  }

  ghost predicate GoodCommand(t: Table, n: string, c: Command) {
    && GoodName(n) && c.id != FUTURE
    && forall s :: s in c.subs ==> GoodSub(t, s, c.subs[s])
  }

  ghost predicate WellFormed(t: Table) {
    && (forall n :: n in t.commands ==> GoodCommand(t, n, t.commands[n]))
    && (forall c :: c in t.categories ==> Lower(c) == c && '|' !in c && Clean(c))
    && "all" !in t.categories
  }

  /** An atom that matters: in the bitmap, or a first argument of a command that can have any. */
  ghost predicate Live(t: Table, a: Atom) {
    match a
    case Bit(i) => i < BITS
    case Arg(i, _) => Owner(t, i)
  }
}
