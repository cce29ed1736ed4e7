/** Replaying the rules of a selector rebuilds the selector, as long as no first argument holds a
    blank or a quote: the check that ACLDescribeSelectorCommandRules makes does not fail then. */
module AclReplay {
  import opened Options
  import opened AclRules
  import opened Acl

  // ----- Names ---------------------------------------------------------------------------------

  lemma LowerTwice(s: string)
    ensures Lower(Lower(s)) == Lower(s)
  {
  }

  lemma LastBarLower(s: string)
    ensures LastBar(Lower(s)) == LastBar(s)
  {
    var n := LastBar(s);
    var low := Lower(s);
    if n < |s| {
      assert low[n + 1..] == Lower(s[n + 1..]);
    } else {
    }
  }

  lemma LookupLower(t: Table, name: string)
    ensures Lookup(t, Lower(name)) == Lookup(t, name)
  {
    LastBarLower(name);
    LowerTwice(name);
  }

  /** A subcommand or a first argument has one bar, and a command before it. */
  lemma OneBar(t: Table, r: Rule)
    requires WellFormed(t) && MeaningOf(t, r) != Nothing && Lower(r.name) == r.name
    requires LastBar(r.name) < |r.name|
    ensures var n := LastBar(r.name);
      && r.name[..n] in t.commands && '|' !in r.name[..n] && r.name[0] != '@'
      && MeaningOf(t, r) == (
           var (c, rest) := (t.commands[r.name[..n]], r.name[n + 1..]);
           if c.subs == map[] then FirstArg(c, rest) else if rest in c.subs then Part(c.subs[rest]) else Nothing)
  {
    hide WellFormed, Lower;
    var n := LastBar(r.name);
    assert r.name[n] in r.name;
    var base, rest := r.name[..n], r.name[n + 1..];
    TableNames(t, base);
    TableNames(t, r.name[1..]);
    assert n > 0 ==> r.name[1..][n - 1] in r.name[1..];
    assert n > 0 ==> base[0] == r.name[0];
    NoBarWhole(t, base);
  }

  lemma TableNames(t: Table, n: string)
    requires WellFormed(t)
    ensures n in t.commands ==> '|' !in n && n != "" && n[0] != '@'
    ensures n in t.categories ==> '|' !in n
  {
  }

  /** What is found as a command has no bar in its name. */
  lemma NoBarWhole(t: Table, name: string)
    requires WellFormed(t) && Lower(name) == name
    ensures Lookup(t, name).Some? && Lookup(t, name).value.Top? ==>
              '|' !in name && name in t.commands && Lookup(t, name) == Some(Top(t.commands[name]))
    ensures name in t.commands ==> Lookup(t, name) == Some(Top(t.commands[name]))
  {
    hide WellFormed;
    TableNames(t, name);
    if name in t.commands {
    }
  }

  // ----- What the operations do to an atom -------------------------------------------------------

  lemma ChangePermHas(t: Table, sel: Selector, target: Target, allow: bool, a: Atom)
    requires Live(t, a)
    ensures var m := if target.Top? then Whole(target.cmd) else Part(target.sub);
      Has(ChangePerm(sel, target, allow), a) <==> if Touches(t, m, a) then Grants(m, allow, a) else Has(sel, a)
  {
    if a.Bit? {
    }
  }

  lemma ChangeCategoryHas(t: Table, sel: Selector, cat: string, allow: bool, a: Atom)
    requires Live(t, a)
    ensures Has(ChangeCategory(t, sel, cat, allow), a) <==>
      if Touches(t, Category(cat), a) then Grants(Category(cat), allow, a) else Has(sel, a)
  {
    hide CategoryIds, CategoryOwners;
    if a.Bit? {
    }
  }

  lemma AddArgHas(sel: Selector, id: nat, arg: string, a: Atom)
    ensures Has(AddArg(sel, id, arg), a) <==> a == Arg(id, Lower(arg)) || Has(sel, a)
  {
    var list := if id in sel.args then sel.args[id] else [];
    if !HasArg(list, arg) {
      assert (list + [arg])[|list|] == arg;
      assert forall k :: 0 <= k < |list| ==> (list + [arg])[k] == list[k];
    }
  }

  /** One accepted operation: the atoms it decides are decided by its rule, the others keep, and
      the rule goes to the end of the text. */
  ghost predicate Applied(t: Table, sel: Selector, r: Rule, sel': Selector) {
    && (forall a :: Live(t, a) ==>
          (Has(sel', a) <==>
             if Touches(t, MeaningOf(t, r), a) then Grants(MeaningOf(t, r), r.allow, a) else Has(sel, a)))
    && sel'.rules == Update(sel, r.name, r.allow).rules
    && (sel.args.Keys <= OwnerIds(t) && WellFormed(t) ==> sel'.args.Keys <= OwnerIds(t))
    && (forall i :: i in sel'.bits ==> i in sel.bits || i < BITS)
  }

  function OwnerIds(t: Table): set<nat> {
    set n | n in t.commands && t.commands[n].subs == map[] :: t.commands[n].id
  }

  /** The rule an operation stands for. */
  function RuleOf(op: string): Rule
    requires op != ""
  {
    Rule(op[0] == '+', Lower(op[1..]))
  }

  predicate IsRule(op: string) {
    && op != "" && (op[0] == '+' || op[0] == '-')
    && Lower(op) != "+@all" && Lower(op) != "-@all"
  }

  lemma UpdateHas(sel: Selector, name: string, allow: bool)
    ensures Update(sel, Lower(name), allow) == Update(sel, name, allow)
    ensures var u := Update(sel, name, allow); u.bits == sel.bits && u.args == sel.args && u.all == sel.all
  {
    LowerTwice(name);
  }

  lemma UpdateRules(x: Selector, y: Selector, name: string, allow: bool)
    requires x.rules == y.rules
    ensures Update(x, name, allow).rules == Update(y, name, allow).rules
  {
  }

  lemma PermApplied(t: Table, sel: Selector, target: Target, name: string, allow: bool)
    requires Lookup(t, name) == Some(target) && name != "" && name[0] != '@'
    ensures MeaningOf(t, Rule(allow, Lower(name))) == if target.Top? then Whole(target.cmd) else Part(target.sub)
    ensures Applied(t, sel, Rule(allow, Lower(name)), Update(ChangePerm(sel, target, allow), name, allow))
  {
    hide Lookup, ChangePerm, Touches, Grants;
    LookupLower(t, name);
    assert Lower(name)[0] != '@';
    UpdateHas(ChangePerm(sel, target, allow), name, allow);
    UpdateHas(sel, name, allow);
    PermKeys(sel, target, allow);
    var sel' := Update(ChangePerm(sel, target, allow), name, allow);
    forall a | Live(t, a)
      ensures var m := if target.Top? then Whole(target.cmd) else Part(target.sub);
        Has(sel', a) <==> if Touches(t, m, a) then Grants(m, allow, a) else Has(sel, a)
    {
      ChangePermHas(t, sel, target, allow, a);
    }
  }

  lemma PermKeys(sel: Selector, target: Target, allow: bool)
    ensures var p := ChangePerm(sel, target, allow);
      && p.rules == sel.rules && p.args.Keys <= sel.args.Keys
      && forall i :: i in p.bits ==> i in sel.bits || i < BITS
  {
  }

  lemma CategoryApplied(t: Table, sel: Selector, name: string, allow: bool)
    requires name != "" && name[0] == '@' && Lower(name[1..]) in t.categories
    ensures MeaningOf(t, Rule(allow, Lower(name))) == Category(Lower(name[1..]))
    ensures Applied(t, sel, Rule(allow, Lower(name)),
                    ChangeCategory(t, Update(sel, name, allow), Lower(name[1..]), allow))
  {
    hide ChangeCategory, Touches, Grants;
    var cat := Lower(name[1..]);
    assert Lower(name)[1..] == cat;
    UpdateHas(sel, name, allow);
    CategoryKeys(t, Update(sel, name, allow), cat, allow);
    var sel' := ChangeCategory(t, Update(sel, name, allow), cat, allow);
    forall a | Live(t, a)
      ensures Has(sel', a) <==> if Touches(t, Category(cat), a) then Grants(Category(cat), allow, a) else Has(sel, a)
    {
      ChangeCategoryHas(t, Update(sel, name, allow), cat, allow, a);
    }
  }

  lemma CategoryKeys(t: Table, sel: Selector, cat: string, allow: bool)
    ensures var p := ChangeCategory(t, sel, cat, allow);
      && p.rules == sel.rules && p.args.Keys <= sel.args.Keys
      && forall i :: i in p.bits ==> i in sel.bits || i < BITS
  {
    hide CategoryIds, CategoryOwners;
  }

  lemma LowerParts(s: string, n: nat)
    requires n < |s|
    ensures Lower(s)[..n] == Lower(s[..n]) && Lower(s)[n + 1..] == Lower(s[n + 1..])
  {
  }

  lemma FirstArgMeaning(t: Table, c: Command, name: string)
    requires WellFormed(t) && name != "" && name[0] != '@'
    requires LastBar(name) < |name| && name[LastBar(name) + 1..] != ""
    requires Lookup(t, name[..LastBar(name)]) == Some(Top(c)) && c.subs == map[]
    ensures MeaningOf(t, Rule(true, Lower(name))) == FirstArg(c, Lower(name[LastBar(name) + 1..]))
    ensures c.id in OwnerIds(t)
  {
    hide WellFormed, LastBar, Lower;
    var n := LastBar(name);
    var low := Lower(name);
    LastBarLower(name);
    LookupLower(t, name[..n]);
    LowerParts(name, n);
    LowerTwice(name);
    LowerTwice(name[..n]);
    NoBarWhole(t, low[..n]);
    assert low[0] != '@';
  }

  lemma FirstArgApplied(t: Table, sel: Selector, c: Command, name: string)
    requires WellFormed(t) && name != "" && name[0] != '@'
    requires LastBar(name) < |name| && name[LastBar(name) + 1..] != ""
    requires Lookup(t, name[..LastBar(name)]) == Some(Top(c)) && c.subs == map[]
    ensures MeaningOf(t, Rule(true, Lower(name))).FirstArg?
    ensures Applied(t, sel, Rule(true, Lower(name)), Update(AddArg(sel, c.id, name[LastBar(name) + 1..]), name, true))
  {
    hide WellFormed, AddArg, Lookup, MeaningOf, LastBar, OwnerIds, Lower, Touches, Grants, Has, Live, Update;
    var arg := name[LastBar(name) + 1..];
    var sel1 := AddArg(sel, c.id, arg);
    var sel' := Update(sel1, name, true);
    FirstArgMeaning(t, c, name);
    UpdateHas(sel1, name, true);
    UpdateHas(sel, name, true);
    AddArgKeys(sel, c.id, arg);
    UpdateRules(sel1, sel, name, true);
    forall a | Live(t, a)
      ensures var m := FirstArg(c, Lower(arg));
        Has(sel', a) <==> if Touches(t, m, a) then Grants(m, true, a) else Has(sel, a)
    {
      AddArgHas(sel, c.id, arg, a);
      SameHas(sel', sel1, a);
      FirstArgTouches(t, c, Lower(arg), a);
    }
  }

  lemma SameHas(x: Selector, y: Selector, a: Atom)
    requires x.bits == y.bits && x.args == y.args
    ensures Has(x, a) == Has(y, a)
  {
  }

  lemma FirstArgTouches(t: Table, c: Command, arg: string, a: Atom)
    ensures Touches(t, FirstArg(c, arg), a) <==> a == Arg(c.id, arg)
    ensures Grants(FirstArg(c, arg), true, a)
  {
  }

  lemma AddArgKeys(sel: Selector, id: nat, arg: string)
    ensures var p := AddArg(sel, id, arg);
      && p.rules == sel.rules && p.bits == sel.bits && p.args.Keys <= sel.args.Keys + {id}
  {
  }

  /** An operation about commands is accepted exactly when its rule means something, and then it
      does what the rule means. */
  lemma SetSelectorApplies(t: Table, sel: Selector, op: string, measured: bool)
    requires WellFormed(t) && IsRule(op)
    ensures var o := SetSelector(t, sel, op, measured);
      && (o.Refused? <==> MeaningOf(t, RuleOf(op)) == Nothing)
      && (o.Done? ==> Applied(t, sel, RuleOf(op), o.sel))
  {
    hide WellFormed, Lookup, MeaningOf, Applied, ChangePerm, ChangeCategory, AddArg, Update, Lower;
    var name := op[1..];
    var allow := op[0] == '+';
    OpNames(op);
    if name != "" && name[0] == '@' {
      assert op[2..] == name[1..];
      CategoryMeaning(t, name, allow);
      if Lower(op[2..]) in t.categories {
        CategoryApplied(t, sel, name, allow);
      }
    } else {
      WholeMeaning(t, name, allow);
      var n := LastBar(name);
      if !allow || n == |name| {
        if Lookup(t, name).Some? {
          PermApplied(t, sel, Lookup(t, name).value, name, allow);
        }
      } else {
        var base := Lookup(t, name[..n]);
        if base.Some? && base.value.Top? && name[n + 1..] != "" {
          if base.value.cmd.subs != map[] {
            if Lookup(t, name).Some? {
              PermApplied(t, sel, Lookup(t, name).value, name, true);
            }
          } else {
            FirstArgApplied(t, sel, base.value.cmd, name);
          }
        }
      }
    }
  }

  lemma OpNames(op: string)
    requires IsRule(op)
    ensures Lower(op) != "allcommands" && Lower(op) != "nocommands" && !IsKeyWord(Lower(op)) && !IsPattern(op)
  {
    assert Lower(op)[0] == op[0];
  }

  lemma CategoryMeaning(t: Table, name: string, allow: bool)
    requires name != "" && name[0] == '@'
    ensures MeaningOf(t, Rule(allow, Lower(name))) ==
      if Lower(name[1..]) in t.categories then Category(Lower(name[1..])) else Nothing
  {
    assert Lower(name)[1..] == Lower(name[1..]);
  }

  lemma WholeMeaning(t: Table, name: string, allow: bool)
    requires WellFormed(t) && (name == "" || name[0] != '@')
    ensures var m := MeaningOf(t, Rule(allow, Lower(name)));
      var n := LastBar(name);
      && (Lookup(t, name).Some? ==> m != Nothing && name != "")
      && (Lookup(t, name).None? && (!allow || n == |name|) ==> m == Nothing)
      && (Lookup(t, name).None? && n < |name| && name[n + 1..] == "" ==> m == Nothing)
      && (Lookup(t, name).None? && n < |name| ==>
            var base := Lookup(t, name[..n]);
            (base.None? || base.value.Child? || base.value.cmd.subs != map[]) ==> m == Nothing)
      && (n < |name| && Lookup(t, name).Some? ==>
            var base := Lookup(t, name[..n]);
            base.Some? && base.value.Top? && base.value.cmd.subs != map[] && name[n + 1..] != "")
  {
    hide WellFormed, LastBar, Lower;
    var n := LastBar(name);
    var low := Lower(name);
    LookupLower(t, name);
    LastBarLower(name);
    LowerTwice(name);
    if n < |name| {
      LookupLower(t, name[..n]);
      assert low[..n] == Lower(name[..n]) && low[n + 1..] == Lower(name[n + 1..]);
      LowerTwice(name[..n]);
      NoBarWhole(t, low[..n]);
      SubNames(t, low[..n], low[n + 1..]);
    } else {
      SubNames(t, low, "");
    }
  }

  lemma SubNames(t: Table, n: string, s: string)
    requires WellFormed(t)
    ensures n in t.commands ==> n != ""
    ensures n in t.commands && s in t.commands[n].subs ==> s != ""
  {
    if n in t.commands {
      assert GoodCommand(t, n, t.commands[n]);
    }
  }

  // ----- What is removed does not matter ----------------------------------------------------------

  ghost predicate Valid(t: Table, r: Rule) {
    && MeaningOf(t, r) != Nothing && Lower(r.name) == r.name && r.name != "" && Clean(r.name)
    && r.name != "@all"
  }

  /** A rule that `name` removes decides nothing that the new rule does not decide. */
  lemma RemovedIsCovered(t: Table, x: Rule, r: Rule, a: Atom)
    requires WellFormed(t) && Valid(t, x) && Valid(t, r) && Removes(x.name, r.name) && Live(t, a)
    ensures Touches(t, MeaningOf(t, x), a) ==> Touches(t, MeaningOf(t, r), a)
  {
    hide LastBar, Lower;
    if x.name == r.name {
    } else {
      InsideContainer(t, x, r);
      var c := t.commands[r.name];
      if MeaningOf(t, x).Part? {
        var sub := x.name[LastBar(x.name) + 1..];
        assert sub in c.subs && c.subs[sub].id in TopIds(c);
        assert GoodSub(t, sub, c.subs[sub]);
      }
    }
  }

  /** Then the new rule is about a command, and the old one about something inside it. */
  lemma InsideContainer(t: Table, x: Rule, r: Rule)
    requires WellFormed(t) && Valid(t, x) && Valid(t, r)
    requires |x.name| > |r.name| && x.name[..|r.name|] == r.name && x.name[|r.name|] == '|'
    ensures r.name in t.commands && MeaningOf(t, r) == Whole(t.commands[r.name])
    ensures LastBar(x.name) == |r.name|
    ensures MeaningOf(t, x) ==
      (if t.commands[r.name].subs == map[] then FirstArg(t.commands[r.name], x.name[|r.name| + 1..])
       else if x.name[|r.name| + 1..] in t.commands[r.name].subs
       then Part(t.commands[r.name].subs[x.name[|r.name| + 1..]]) else Nothing)
  {
    hide WellFormed, Lookup, LastBar, MeaningOf;
    var n := LastBar(x.name);
    assert x.name[|r.name|] in x.name;
    assert n < |x.name|;
    OneBar(t, x);
    assert n == |r.name|;
    WholeOf(t, r);
  }

  lemma WholeOf(t: Table, r: Rule)
    requires WellFormed(t) && r.name in t.commands && Lower(r.name) == r.name
    ensures MeaningOf(t, r) == Whole(t.commands[r.name])
  {
    hide WellFormed;
    TableNames(t, r.name);
    NoBarWhole(t, r.name);
  }

  lemma {:induction false} KeptSnoc(rs: seq<Rule>, x: Rule, name: string)
    ensures Kept(rs + [x], name) == Kept(rs, name) + (if Removes(x.name, name) then [] else [x])
  {
    hide Removes;
    if rs == [] {
      assert [] + [x] == [x];
    } else {
      assert (rs + [x])[0] == rs[0] && (rs + [x])[1..] == rs[1..] + [x];
      KeptSnoc(rs[1..], x, name);
      var h, k := if Removes(rs[0].name, name) then [] else [rs[0]], Kept(rs[1..], name);
      var e := if Removes(x.name, name) then [] else [x];
      assert h + (k + e) == h + k + e;
    }
  }

  lemma FinalSnoc(t: Table, future: bool, rs: seq<Rule>, r: Rule, a: Atom)
    ensures Final(t, future, rs + [r], a) ==
      if Touches(t, MeaningOf(t, r), a) then Grants(MeaningOf(t, r), r.allow, a) else Final(t, future, rs, a)
  {
    assert (rs + [r])[..|rs|] == rs;
  }

  ghost predicate AllValid(t: Table, rs: seq<Rule>) {
    forall x :: x in rs ==> Valid(t, x)
  }

  /** The atoms a new rule leaves alone do not notice that older rules were removed. */
  lemma {:induction false} KeptFinal(t: Table, future: bool, rs: seq<Rule>, r: Rule, a: Atom)
    requires WellFormed(t) && AllValid(t, rs) && Valid(t, r) && Live(t, a)
    requires !Touches(t, MeaningOf(t, r), a)
    ensures Final(t, future, Kept(rs, r.name), a) == Final(t, future, rs, a)
    decreases |rs|
  {
    hide WellFormed, Valid, Touches, Live, Removes, Kept, Final;
    if rs == [] {
      KeptNone(rs, r.name);
    } else {
      var front, x := rs[..|rs| - 1], rs[|rs| - 1];
      assert rs == front + [x];
      assert x in rs && AllValid(t, front);
      KeptFinal(t, future, front, r, a);
      KeptSnoc(front, x, r.name);
      FinalSnoc(t, future, front, x, a);
      if Removes(x.name, r.name) {
        RemovedIsCovered(t, x, r, a);
        assert Kept(front, r.name) + [] == Kept(front, r.name);
      } else {
        FinalSnoc(t, future, Kept(front, r.name), x, a);
      }
    }
  }

  // ----- The invariant ------------------------------------------------------------------------------

  /** No rule would remove an earlier one. */
  ghost predicate NoClash(rs: seq<Rule>)
    decreases |rs|
  {
    rs == [] ||
    (&& NoClash(rs[..|rs| - 1])
     && forall x :: x in rs[..|rs| - 1] ==> !Removes(x.name, rs[|rs| - 1].name))
  }

  /** The rules explain the selector: their text is the stored text, and what they say of each
      atom is what the bitmap and the first arguments say. */
  ghost predicate Explains(t: Table, sel: Selector, rs: seq<Rule>) {
    && sel.rules == Join(Texts(rs))
    && AllValid(t, rs)
    && NoClash(rs)
    && (forall a :: Live(t, a) ==> (Has(sel, a) <==> Final(t, FUTURE in sel.bits, rs, a)))
    && (forall i :: i in sel.bits ==> i < BITS)
    && sel.args.Keys <= OwnerIds(t)
  }

  lemma {:induction false} KeptNoClash(rs: seq<Rule>, name: string)
    requires NoClash(rs)
    ensures NoClash(Kept(rs, name))
    decreases |rs|
  {
    hide Removes, Kept;
    if rs == [] {
      KeptNone(rs, name);
    } else {
      var front, x := rs[..|rs| - 1], rs[|rs| - 1];
      assert rs == front + [x];
      KeptNoClash(front, name);
      KeptSnoc(front, x, name);
      KeptMeans(front, name);
      var k := Kept(front, name);
      assert (k + [x])[..|k|] == k;
      assert k + [] == k;
    }
  }

  lemma NoClashSnoc(rs: seq<Rule>, r: Rule)
    requires NoClash(rs)
    ensures NoClash(Kept(rs, r.name) + [r])
  {
    hide Removes, Kept;
    KeptNoClash(rs, r.name);
    KeptMeans(rs, r.name);
    var k := Kept(rs, r.name);
    assert (k + [r])[..|k|] == k;
  }

  lemma ValidNoBlanks(t: Table, rs: seq<Rule>)
    requires AllValid(t, rs)
    ensures NoBlanks(rs)
  {
    forall i | 0 <= i < |rs| ensures ' ' !in rs[i].name {
      assert rs[i] in rs;
    }
  }

  /** Adding a rule to the text is removing what it replaces and putting it last. */
  lemma UpdateText(sel: Selector, rs: seq<Rule>, r: Rule)
    requires sel.rules == Join(Texts(rs)) && NoBlanks(rs) && Lower(r.name) == r.name
    ensures Update(sel, r.name, r.allow).rules == Join(Texts(Kept(rs, r.name) + [r]))
  {
    hide Scan, Kept, Join, Texts, Text;
    RemoveIsFilter(rs, r.name);
    var k := Kept(rs, r.name);
    TextNotEmpty(k);
    JoinOne(k, r);
  }

  lemma JoinOne(k: seq<Rule>, r: Rule)
    ensures Join(Texts(k + [r])) == if k == [] then Text(r) else Join(Texts(k)) + " " + Text(r)
  {
    JoinAppend(Texts(k), [Text(r)]);
    assert Texts(k + [r]) == Texts(k) + [Text(r)];
  }

  lemma NeverFuture(t: Table, r: Rule)
    requires WellFormed(t)
    ensures !Touches(t, MeaningOf(t, r), Bit(FUTURE))
  {
    hide Lower;
    var m := MeaningOf(t, r);
    if m.Whole? {
      WholeIsTable(t, r);
    } else if m.Part? {
    } else if m.Category? {
    }
  }

  lemma WholeIsTable(t: Table, r: Rule)
    requires MeaningOf(t, r).Whole?
    ensures Lower(r.name) in t.commands && MeaningOf(t, r).cmd == t.commands[Lower(r.name)]
  {
  }

  // ----- Runs ---------------------------------------------------------------------------------------

  /** Only a first argument can bring a blank or a quote into the text. */
  ghost predicate CleanOp(t: Table, op: string) {
    IsRule(op) && MeaningOf(t, RuleOf(op)).FirstArg? ==> Clean(Lower(op[1..]))
  }

  lemma ConcatClean(a: string, b: string)
    requires Clean(a) && Clean(b)
    ensures Clean(a + "|" + b) && Clean("@" + b)
  {
  }

  lemma RuleIsValid(t: Table, op: string)
    requires WellFormed(t) && IsRule(op) && CleanOp(t, op) && MeaningOf(t, RuleOf(op)) != Nothing
    ensures Valid(t, RuleOf(op))
  {
    hide WellFormed, Clean, Lower, MeaningOf;
    var r := RuleOf(op);
    LowerTwice(op[1..]);
    ValidNames(t, r);
  }

  /** Every name that means something is clean, except perhaps a first argument. */
  lemma ValidNames(t: Table, r: Rule)
    requires WellFormed(t) && MeaningOf(t, r) != Nothing && Lower(r.name) == r.name
    ensures r.name != "" && (MeaningOf(t, r).FirstArg? || Clean(r.name))
  {
    hide WellFormed, Clean, Lower, Lookup, LastBar;
    match MeaningOf(t, r) {
      case Category(cat) =>
        TableClean(t, "", "", cat);
        ConcatClean("", cat);
        assert r.name == "@" + cat;
      case Whole(c) =>
        WholeIsTable(t, r);
        TableClean(t, r.name, "", "");
      case Part(sub) =>
        PartClean(t, r);
      case FirstArg(c, arg) =>
      case Nothing =>
    }
  }

  lemma PartClean(t: Table, r: Rule)
    requires WellFormed(t) && MeaningOf(t, r).Part? && Lower(r.name) == r.name
    ensures Clean(r.name) && r.name != ""
  {
    hide WellFormed, Clean, Lower;
    var n := LastBar(r.name);
    TableClean(t, r.name[..n], r.name[n + 1..], "");
    ConcatClean(r.name[..n], r.name[n + 1..]);
    assert r.name == r.name[..n] + "|" + r.name[n + 1..];
  }

  lemma TableClean(t: Table, n: string, s: string, cat: string)
    requires WellFormed(t)
    ensures n in t.commands ==> Clean(n) && n != "" && (s in t.commands[n].subs ==> Clean(s))
    ensures cat in t.categories ==> Clean(cat)
  {
    if n in t.commands {
      if s in t.commands[n].subs {
        assert GoodSub(t, s, t.commands[n].subs[s]);
      }
    }
  }

  /** One accepted rule: the invariant holds of the kept rules followed by the new one. */
  lemma RuleStep(t: Table, sel: Selector, rs: seq<Rule>, op: string, measured: bool)
    requires WellFormed(t) && Explains(t, sel, rs) && IsRule(op) && CleanOp(t, op)
    requires MeaningOf(t, RuleOf(op)) != Nothing
    ensures var (r, o) := (RuleOf(op), SetSelector(t, sel, op, measured));
      && o.Done?
      && Explains(t, o.sel, Kept(rs, r.name) + [r])
      && (FUTURE in o.sel.bits <==> FUTURE in sel.bits)
      && Valid(t, r)
  {
    hide WellFormed, SetSelector, MeaningOf, Touches, Grants, Final, Kept, Update, Valid, Has, NoClash;
    var r := RuleOf(op);
    RuleIsValid(t, op);
    SetSelectorApplies(t, sel, op, measured);
    var sel' := SetSelector(t, sel, op, measured).sel;
    ValidNoBlanks(t, rs);
    UpdateText(sel, rs, r);
    NoClashSnoc(rs, r);
    KeptMeans(rs, r.name);
    NeverFuture(t, r);
    FutureBit(t, sel, sel', r);
    var rs' := Kept(rs, r.name) + [r];
    forall a | Live(t, a) ensures Has(sel', a) <==> Final(t, FUTURE in sel.bits, rs', a) {
      FinalSnoc(t, FUTURE in sel.bits, Kept(rs, r.name), r, a);
      if !Touches(t, MeaningOf(t, r), a) {
        KeptFinal(t, FUTURE in sel.bits, rs, r, a);
      }
    }
  }

  lemma FutureBit(t: Table, sel: Selector, sel': Selector, r: Rule)
    requires Applied(t, sel, r, sel') && !Touches(t, MeaningOf(t, r), Bit(FUTURE))
    ensures FUTURE in sel'.bits <==> FUTURE in sel.bits
  {
    hide Touches, MeaningOf, Grants;
    assert Live(t, Bit(FUTURE));
    assert Has(sel, Bit(FUTURE)) <==> FUTURE in sel.bits;
    assert Has(sel', Bit(FUTURE)) <==> FUTURE in sel'.bits;
  }

  lemma BaseExplains(t: Table, sel: Selector, future: bool)
    ensures Explains(t, Base(sel, future), []) && (FUTURE in Base(sel, future).bits <==> future)
  {
    assert Known(FUTURE);
    var s := Base(sel, future);
    forall a | Live(t, a) ensures Has(s, a) <==> Final(t, FUTURE in s.bits, [], a) {
      if a.Bit? {
        assert Known(a.id);
      }
    }
  }

  /** One operation of any kind; a refused one changes nothing. */
  function Apply(t: Table, sel: Selector, op: string): Selector {
    SetSelector(t, sel, op, true).After(sel)
  }

  function Run(t: Table, sel: Selector, ops: seq<string>): Selector
    decreases |ops|
  {
    if ops == [] then sel else Apply(t, Run(t, sel, ops[..|ops| - 1]), ops[|ops| - 1])
  }

  ghost predicate Explained(t: Table, sel: Selector) {
    exists rs :: Explains(t, sel, rs)
  }

  /** The flags for keys and channels are no part of the explanation. */
  lemma SameExplains(t: Table, sel: Selector, sel': Selector, rs: seq<Rule>)
    requires Explains(t, sel, rs)
    requires sel'.bits == sel.bits && sel'.rules == sel.rules && sel'.args == sel.args
    ensures Explains(t, sel', rs)
  {
    hide Final, AllValid, NoClash;
    assert forall a :: Has(sel', a) == Has(sel, a);
  }

  lemma NotARule(t: Table, sel: Selector, op: string, measured: bool)
    requires !IsRule(op)
    ensures var o := SetSelector(t, sel, op, measured);
      o.Done? ==>
        || o.sel == Base(sel, true)
        || o.sel == Base(sel, false)
        || (o.sel.bits == sel.bits && o.sel.rules == sel.rules && o.sel.args == sel.args && o.sel.all == sel.all)
  {
    hide Lookup, LastBar, Update, ChangePerm, ChangeCategory, AddArg, Base, PatternStart, HasSpaces;
  }

  lemma ApplyExplained(t: Table, sel: Selector, op: string)
    requires WellFormed(t) && Explained(t, sel) && CleanOp(t, op)
    ensures Explained(t, Apply(t, sel, op))
  {
    hide WellFormed, Explains, MeaningOf, SetSelector, Base;
    var rs :| Explains(t, sel, rs);
    if IsRule(op) {
      SetSelectorApplies(t, sel, op, true);
      if MeaningOf(t, RuleOf(op)) != Nothing {
        RuleStep(t, sel, rs, op, true);
      }
    } else {
      BaseExplains(t, sel, true);
      BaseExplains(t, sel, false);
      NotARule(t, sel, op, true);
      var sel' := Apply(t, sel, op);
      if sel'.bits == sel.bits && sel'.rules == sel.rules && sel'.args == sel.args {
        SameExplains(t, sel, sel', rs);
      }
    }
  }

  lemma {:induction false} RunExplained(t: Table, start: Selector, ops: seq<string>)
    requires WellFormed(t) && Explained(t, start) && forall i :: 0 <= i < |ops| ==> CleanOp(t, ops[i])
    ensures Explained(t, Run(t, start, ops))
    decreases |ops|
  {
    hide WellFormed, CleanOp, Explained, Apply;
    if ops != [] {
      RunExplained(t, start, ops[..|ops| - 1]);
      ApplyExplained(t, Run(t, start, ops[..|ops| - 1]), ops[|ops| - 1]);
    }
  }

  /** A selector without permissions, whatever its flags for keys and channels. */
  lemma FreshExplained(t: Table, sel: Selector)
    requires sel == FRESH.(allKeys := sel.allKeys, allChannels := sel.allChannels)
    ensures Explained(t, sel)
  {
    BaseExplains(t, sel, false);
    assert sel == Base(sel, false);
  }

  // ----- Replay ---------------------------------------------------------------------------------------

  /** Feed the arguments back; every one has to be accepted. */
  function Replay(t: Table, sel: Selector, argv: seq<string>, measured: bool): Option<Selector>
    decreases |argv|
  {
    if argv == [] then Some(sel)
    else
      match SetSelector(t, sel, argv[0], measured)
      case Done(s) => Replay(t, s, argv[1..], measured)
      case Refused => None
  }

  lemma TextIsOp(t: Table, r: Rule)
    requires Valid(t, r)
    ensures IsRule(Text(r)) && RuleOf(Text(r)) == r && CleanOp(t, Text(r))
  {
    assert Text(r)[1..] == r.name;
    assert ([LowerChar(Text(r)[0])] + r.name)[1..] == r.name;
    assert "+@all"[1..] == "@all" && "-@all"[1..] == "@all";
  }

  lemma {:induction false} KeptAll(rs: seq<Rule>, name: string)
    requires forall x :: x in rs ==> !Removes(x.name, name)
    ensures Kept(rs, name) == rs
  {
    hide Removes;
    if rs != [] {
      KeptAll(rs[1..], name);
      assert rs == [rs[0]] + rs[1..];
    }
  }

  lemma {:induction false} NoClashPrefix(rs: seq<Rule>, k: nat)
    requires NoClash(rs) && k <= |rs|
    ensures NoClash(rs[..k])
    ensures k < |rs| ==> forall x :: x in rs[..k] ==> !Removes(x.name, rs[k].name)
    decreases |rs|
  {
    hide Removes;
    if k == |rs| {
      assert rs[..k] == rs;
    } else {
      var front := rs[..|rs| - 1];
      NoClashPrefix(front, k);
      assert front[..k] == rs[..k];
    }
  }

  /** Replaying the first rules rebuilds the text and every atom as of those rules. */
  lemma {:induction false} ReplayPrefix(t: Table, base: Selector, rs: seq<Rule>, k: nat, measured: bool)
    returns (s: Selector)
    requires WellFormed(t) && AllValid(t, rs) && NoClash(rs) && k <= |rs| && Explains(t, base, [])
    ensures Explains(t, s, rs[..k]) && (FUTURE in s.bits <==> FUTURE in base.bits)
    ensures Replay(t, base, Texts(rs), measured) == Replay(t, s, Texts(rs)[k..], measured)
    decreases k
  {
    hide WellFormed, Explains, SetSelector, MeaningOf, Valid, NoClash;
    if k == 0 {
      s := base;
      assert Texts(rs)[0..] == Texts(rs) && rs[..0] == [];
    } else {
      var s0 := ReplayPrefix(t, base, rs, k - 1, measured);
      ReplayStep(t, s0, rs, k - 1, measured);
      s := SetSelector(t, s0, Text(rs[k - 1]), measured).sel;
      assert Texts(rs)[k - 1..][0] == Text(rs[k - 1]) && Texts(rs)[k - 1..][1..] == Texts(rs)[k..];
    }
  }

  lemma ReplayStep(t: Table, s: Selector, rs: seq<Rule>, k: nat, measured: bool)
    requires WellFormed(t) && AllValid(t, rs) && NoClash(rs) && k < |rs| && Explains(t, s, rs[..k])
    ensures var o := SetSelector(t, s, Text(rs[k]), measured);
      o.Done? && Explains(t, o.sel, rs[..k + 1]) && (FUTURE in o.sel.bits <==> FUTURE in s.bits)
  {
    hide WellFormed, Explains, SetSelector, MeaningOf, Valid, NoClash, Kept, Text, Texts;
    var r := rs[k];
    assert r in rs;
    TextIsOp(t, r);
    ValidMeans(t, r);
    RuleStep(t, s, rs[..k], Text(r), measured);
    NoClashPrefix(rs, k);
    KeptAll(rs[..k], r.name);
    assert rs[..k + 1] == rs[..k] + [r];
  }

  lemma ValidMeans(t: Table, r: Rule)
    requires Valid(t, r)
    ensures MeaningOf(t, r) != Nothing
  {
  }

  /** Two selectors that the same rules explain grant the same things. */
  lemma SameRulesSameGrants(t: Table, x: Selector, y: Selector, rs: seq<Rule>)
    requires Explains(t, x, rs) && Explains(t, y, rs) && (FUTURE in x.bits <==> FUTURE in y.bits)
    ensures x.bits == y.bits && x.rules == y.rules
    ensures forall a :: Live(t, a) ==> (Has(x, a) <==> Has(y, a))
  {
    hide Final;
    forall i: nat ensures i in x.bits <==> i in y.bits {
      if i < BITS {
        assert Live(t, Bit(i));
        assert Has(x, Bit(i)) <==> Has(y, Bit(i));
      }
    }
  }

  /** ACLDescribeSelectorCommandRules; None stands for a failed assertion or the panic. The rules
      are read back without their lengths. */
  function Describe(t: Table, sel: Selector): Option<string> {
    var future := FUTURE in sel.bits;
    match SplitArgs(sel.rules)
    case None => None
    case Some(argv) =>
      match Replay(t, Base(FRESH, future), argv, false)
      case None => None
      case Some(fake) =>
        if fake.bits != sel.bits then None
        else Some((if future then "+@all" else "-@all") + (if sel.rules == "" then "" else " " + sel.rules))
  }

  lemma ValidTextsClean(t: Table, rs: seq<Rule>)
    requires AllValid(t, rs)
    ensures AllClean(Texts(rs))
  {
    forall i | 0 <= i < |rs| ensures Clean(Text(rs[i])) {
      assert rs[i] in rs;
      SignClean(rs[i].name);
    }
  }

  /** Read back and replayed on any selector that was reset as the reserved bit says, the stored
      rules give the same bitmap, the same text and the same first arguments. */
  ghost predicate Rebuilds(t: Table, sel: Selector, any: Selector, measured: bool) {
    SplitArgs(sel.rules).Some? &&
    var o := Replay(t, Base(any, FUTURE in sel.bits), SplitArgs(sel.rules).value, measured);
    && o.Some? && o.value.bits == sel.bits && o.value.rules == sel.rules
    && forall a :: Live(t, a) ==> (Has(o.value, a) <==> Has(sel, a))
  }

  lemma ReplayRebuilds(t: Table, sel: Selector, any: Selector, measured: bool)
    requires WellFormed(t) && Explained(t, sel)
    ensures Rebuilds(t, sel, any, measured)
  {
    hide WellFormed, SetSelector, Final, Has, Base, Live, Valid, NoClash, AllValid;
    var rs :| Explains(t, sel, rs);
    var base := Base(any, FUTURE in sel.bits);
    BaseExplains(t, any, FUTURE in sel.bits);
    ValidTextsClean(t, rs);
    ReadBack(rs);
    var s := ReplayPrefix(t, base, rs, |rs|, measured);
    assert rs[..|rs|] == rs && Texts(rs)[|rs|..] == [];
    SameRulesSameGrants(t, s, sel, rs);
  }

  lemma ResetOp(t: Table, sel: Selector, future: bool, measured: bool)
    ensures SetSelector(t, sel, First(future), measured) == Done(Base(sel, future))
  {
    hide Lookup, LastBar, Update, ChangePerm, ChangeCategory, AddArg, Base, SetPattern, SetKeyWord;
    assert Lower("+@all") == "+@all" && Lower("-@all") == "-@all";
    assert "-@all"[0] == '-' && "+@all"[0] == '+';
  }

  /** The listed rules are a program for the selector: read back and applied to a selector in any
      state, they rebuild the bitmap, the first arguments and the text. Applied to the selector
      itself, as ACLRecomputeCommandBitsFromCommandRulesAllUsers does, they change nothing. */
  lemma DescriptionRebuilds(t: Table, sel: Selector, any: Selector, measured: bool)
    requires WellFormed(t) && Explained(t, sel)
    ensures Describe(t, sel).Some? && SplitArgs(Describe(t, sel).value).Some?
    ensures var o := Replay(t, any, SplitArgs(Describe(t, sel).value).value, measured);
      && o.Some? && o.value.bits == sel.bits && o.value.rules == sel.rules
      && forall a :: Live(t, a) ==> (Has(o.value, a) <==> Has(sel, a))
  {
    hide WellFormed, SetSelector, Final, Has, Base, Live, Valid, NoClash, Clean, Describe, SplitArgs, Texts;
    var rs :| Explains(t, sel, rs);
    var future := FUTURE in sel.bits;
    ReplayRebuilds(t, sel, any, measured);
    DescriptionText(t, sel, rs);
    ValidTextsClean(t, rs);
    ReadBack(rs);
    ResetOp(t, any, future, measured);
    var argv := [First(future)] + Texts(rs);
    assert argv[0] == First(future) && argv[1..] == Texts(rs);
  }

  function First(future: bool): string {
    if future then "+@all" else "-@all"
  }

  lemma DescriptionText(t: Table, sel: Selector, rs: seq<Rule>)
    requires WellFormed(t) && Explains(t, sel, rs)
    ensures Describe(t, sel).Some?
    ensures SplitArgs(Describe(t, sel).value) == Some([First(FUTURE in sel.bits)] + Texts(rs))
  {
    hide WellFormed, SetSelector, Final, Has, Base, Live, Valid, NoClash, Clean, SplitArgs, Replay, Join;
    assert Explained(t, sel);
    ReplayRebuilds(t, sel, FRESH, false);
    ValidTextsClean(t, rs);
    var first := First(FUTURE in sel.bits);
    TextNotEmpty(rs);
    JoinFirst(first, rs);
    AllIsClean();
    var argv := [first] + Texts(rs);
    forall i | 0 <= i < |argv| ensures Clean(argv[i]) && argv[i] != "" && !IsSpace(argv[i][0]) {
      if i > 0 {
        assert argv[i] == Texts(rs)[i - 1];
      }
    }
    SplitClean(argv);
  }

  lemma JoinFirst(first: string, rs: seq<Rule>)
    ensures Join([first] + Texts(rs)) == first + if rs == [] then "" else " " + Join(Texts(rs))
  {
    JoinAppend([first], Texts(rs));
    assert Texts(rs) == [] <==> rs == [];
    var tail := Join(Texts(rs));
    assert first + " " + tail == first + (" " + tail);
    assert first + "" == first;
  }

  lemma AllIsClean()
    ensures Clean("+@all") && Clean("-@all")
  {
  }

  /** After clean operations, accepted or refused, describing the selector never panics. */
  lemma DescribeNeverPanics(t: Table, start: Selector, ops: seq<string>)
    requires WellFormed(t) && Explained(t, start) && forall i :: 0 <= i < |ops| ==> CleanOp(t, ops[i])
    ensures Describe(t, Run(t, start, ops)).Some?
  {
    hide WellFormed, Run, Replay, Base, Explained, CleanOp;
    RunExplained(t, start, ops);
    ReplayRebuilds(t, Run(t, start, ops), FRESH, false);
  }

  // ----- The flag that skips the bitmap ---------------------------------------------------------------

  ghost predicate FlagSound(sel: Selector) {
    (sel.all ==> sel.bits == AllBits()) && sel.bits <= AllBits()
  }

  lemma SetBitsFlag(sel: Selector, ids: set<nat>, value: bool)
    requires FlagSound(sel)
    ensures FlagSound(SetBits(sel, ids, value))
  {
  }

  /** SELECTOR_FLAG_ALLCOMMANDS, which lets a check skip the bitmap, is only ever set while every
      bit of the bitmap is. */
  lemma {:induction false} FlagNeverLies(t: Table, start: Selector, ops: seq<string>)
    requires FlagSound(start)
    ensures FlagSound(Run(t, start, ops))
    decreases |ops|
  {
    hide AllBits, SetSelector, FlagSound;
    if ops != [] {
      FlagNeverLies(t, start, ops[..|ops| - 1]);
      FlagStep(t, Run(t, start, ops[..|ops| - 1]), ops[|ops| - 1]);
    }
  }

  lemma FlagStep(t: Table, sel: Selector, op: string)
    requires FlagSound(sel)
    ensures FlagSound(Apply(t, sel, op))
  {
    FlagBase(sel);
    if IsRule(op) {
      FlagRule(t, sel, op);
    } else {
      hide FlagSound, SetSelector, Base;
      NotARule(t, sel, op, true);
      var sel' := Apply(t, sel, op);
      if sel'.bits == sel.bits && sel'.all == sel.all {
        SameFlag(sel, sel');
      }
    }
  }

  lemma FlagRule(t: Table, sel: Selector, op: string)
    requires FlagSound(sel) && IsRule(op)
    ensures FlagSound(Apply(t, sel, op))
  {
    hide FlagSound, SetBits, Lower, Lookup, LastBar, TopIds, CategoryIds, CategoryOwners, Update, AddArg;
    OpNames(op);
    forall s: Selector, ids, value | FlagSound(s) ensures FlagSound(SetBits(s, ids, value)) {
      SetBitsFlag(s, ids, value);
    }
    forall s: Selector, s': Selector | FlagSound(s) && s'.bits == s.bits && s'.all == s.all ensures FlagSound(s') {
      SameFlag(s, s');
    }
    forall s: Selector, name, allow
      ensures Update(s, name, allow).bits == s.bits && Update(s, name, allow).all == s.all {
      UpdateHas(s, name, allow);
    }
    forall s: Selector, id, arg ensures AddArg(s, id, arg).bits == s.bits && AddArg(s, id, arg).all == s.all {
      AddArgFlag(s, id, arg);
    }
  }

  lemma AddArgFlag(s: Selector, id: nat, arg: string)
    ensures AddArg(s, id, arg).bits == s.bits && AddArg(s, id, arg).all == s.all
  {
  }

  lemma SameFlag(s: Selector, s': Selector)
    requires FlagSound(s) && s'.bits == s.bits && s'.all == s.all
    ensures FlagSound(s')
  {
  }

  lemma FlagBase(sel: Selector)
    ensures FlagSound(Base(sel, true)) && FlagSound(Base(sel, false))
  {
  }
}
