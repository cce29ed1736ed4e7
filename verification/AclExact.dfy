/** Exactly which operations keep a selector replayable. A first argument may hold a blank or a
    quote; the text of the rules cannot carry it, and the grant is lost when they are read back. */
module AclExact {
  import opened Options
  import opened AclRules
  import opened Acl
  import opened AclReplay

  // ----- What a token can grant -------------------------------------------------------------------

  /** Read as an operation, the token allows the first argument `a`. */
  ghost predicate GrantsArg(t: Table, token: string, a: Atom) {
    IsRule(token) && MeaningOf(t, RuleOf(token)).FirstArg? && Touches(t, MeaningOf(t, RuleOf(token)), a)
  }

  lemma StepGrants(t: Table, s: Selector, token: string, a: Atom, measured: bool)
    requires WellFormed(t) && Live(t, a) && a.Arg?
    ensures var o := SetSelector(t, s, token, measured);
      o.Done? && Has(o.sel, a) ==> Has(s, a) || GrantsArg(t, token, a)
  {
    hide WellFormed, MeaningOf, Touches, Live, SetSelector;
    if IsRule(token) {
      SetSelectorApplies(t, s, token, measured);
    } else {
      NotARule(t, s, token, measured);
    }
  }

  /** A first argument that a replay allows was asked for by one of the tokens. */
  lemma {:induction false} ReplayGrants(t: Table, s: Selector, argv: seq<string>, a: Atom, measured: bool)
    requires WellFormed(t) && Live(t, a) && a.Arg?
    ensures var o := Replay(t, s, argv, measured);
      o.Some? && Has(o.value, a) ==> Has(s, a) || exists i :: 0 <= i < |argv| && GrantsArg(t, argv[i], a)
    decreases |argv|
  {
    hide WellFormed, SetSelector, Live, Has, GrantsArg;
    if argv != [] {
      var o := SetSelector(t, s, argv[0], measured);
      if o.Done? {
        StepGrants(t, s, argv[0], a, measured);
        ReplayGrants(t, o.sel, argv[1..], a, measured);
        if i :| 0 <= i < |argv[1..]| && GrantsArg(t, argv[1..][i], a) {
          assert argv[i + 1] == argv[1..][i];
        }
      }
    }
  }

  lemma CleanLower(s: string)
    ensures Clean(Lower(s)) <==> Clean(s)
  {
  }

  /** A token that grants `a` spells it out after the first bar. */
  lemma TokenShape(t: Table, token: string, a: Atom)
    requires WellFormed(t) && GrantsArg(t, token, a)
    ensures a.Arg?
    ensures var name := RuleOf(token).name;
      var n := LastBar(name);
      && 0 < n < |name| && '|' !in name[..n] && name[n + 1..] == a.arg && name[n] == '|'
      && name[..n] in t.commands && t.commands[name[..n]].subs == map[] && a.id == t.commands[name[..n]].id
      && |token| == 2 + n + |a.arg| && token[0] in "+-"
    ensures Clean(token) ==> Clean(a.arg)
  {
    hide WellFormed, Lookup, Clean, Lower;
    var r := RuleOf(token);
    LowerTwice(token[1..]);
    OneBar(t, r);
    SubNames(t, r.name[..LastBar(r.name)], "");
    if Clean(token) {
      SuffixClean(token, 1);
      CleanLower(token[1..]);
      SuffixClean(r.name, LastBar(r.name) + 1);
    }
  }

  lemma SuffixClean(s: string, k: nat)
    requires k <= |s| && Clean(s)
    ensures Clean(s[k..])
  {
  }

  // ----- How an unclean rule is read back ---------------------------------------------------------

  lemma {:induction false} LexStarts(u: string, v: string, arg: string)
    requires Clean(u)
    ensures Lex(u + v, Bare, arg) == Lex(v, Bare, arg + u)
    decreases |u|
  {
    if u == "" {
      assert u + v == v && arg + u == arg;
    } else {
      LexStarts(u[1..], v, arg + [u[0]]);
      assert (u + v)[1..] == u[1..] + v;
      assert arg + [u[0]] + u[1..] == arg + u;
    }
  }

  lemma {:induction false} LexExtends(s: string, mode: Mode, arg: string)
    ensures var o := Lex(s, mode, arg); o.Some? ==> arg <= o.value.arg
    decreases |s|
  {
    match mode {
      case Bare =>
        if s != "" && !Ends(s[0]) {
          if s[0] == '\"' {
            LexExtends(s[1..], Double, arg);
          } else if s[0] == '\'' {
            LexExtends(s[1..], Single, arg);
          } else {
            LexExtends(s[1..], Bare, arg + [s[0]]);
          }
        }
      case Double =>
        if |s| >= 4 && s[0] == '\\' && s[1] == 'x' && IsHex(s[2]) && IsHex(s[3]) {
          LexExtends(s[4..], Double, arg + [(Hex(s[2]) * 16 + Hex(s[3])) as char]);
        } else if |s| >= 2 && s[0] == '\\' {
          LexExtends(s[2..], Double, arg + [Escape(s[1])]);
        } else if s != "" && s[0] != '\"' {
          LexExtends(s[1..], Double, arg + [s[0]]);
        }
      case Single =>
        if |s| >= 2 && s[0] == '\\' && s[1] == '\'' {
          LexExtends(s[2..], Single, arg + ['\'']);
        } else if s != "" && s[0] != '\'' {
          LexExtends(s[1..], Single, arg + [s[0]]);
        }
    }
  }

  lemma {:induction false} TokenFits(ts: seq<string>, i: nat)
    requires i < |ts|
    ensures |ts[i]| <= Total(ts)
  {
    if i > 0 {
      TokenFits(ts[1..], i - 1);
    }
  }

  lemma TokensFit(s: string)
    ensures var o := SplitArgs(s); o.Some? ==> forall i :: 0 <= i < |o.value| ==> |o.value[i]| <= |s|
  {
    hide SplitArgs, Total;
    SplitLength(s);
    var o := SplitArgs(s);
    if o.Some? {
      forall i | 0 <= i < |o.value| ensures |o.value[i]| <= |s| {
        TokenFits(o.value, i);
      }
    }
  }

  /** The clean start of a text is the start of its first token, which then is clean or at least
      two characters short; the other tokens come out of the rest of the text. */
  lemma SplitTail(u: string, x: string)
    requires Clean(u) && u != "" && !IsSpace(u[0])
    ensures var o := SplitArgs(u + x); o.Some? ==>
      && o.value != [] && u <= o.value[0]
      && (Clean(o.value[0]) || |o.value[0]| + 2 <= |u| + |x|)
      && forall i :: 1 <= i < |o.value| ==> |o.value[i]| <= |x|
  {
    hide Lex, Clean, SplitArgs;
    var s := u + x;
    assert s[0] == u[0];
    SplitFirst(s);
    LexStarts(u, x, "");
    assert "" + u == u;
    LexExtends(x, Bare, u);
    EmptyClean();
    LexLength(s, "");
    var o := Lex(s, Bare, "");
    if o.Some? {
      TokensFit(o.value.rest);
    }
  }

  lemma EmptyClean()
    ensures Clean("")
  {
  }

  /** Clean tokens in front are read back one by one. */
  lemma {:induction false} SplitJoin(ts: seq<string>, text: string)
    requires forall i :: 0 <= i < |ts| ==> Clean(ts[i]) && ts[i] != "" && !IsSpace(ts[i][0])
    ensures SplitArgs(if ts == [] then text else Join(ts) + " " + text)
         == match SplitArgs(text) case None => None case Some(tail) => Some(ts + tail)
    decreases |ts|
  {
    hide Lex, Clean, SplitArgs;
    if ts == [] {
      assert forall tail: seq<string> :: [] + tail == tail;
    } else {
      hide Join;
      SplitJoin(ts[1..], text);
      var next := if ts[1..] == [] then text else Join(ts[1..]) + " " + text;
      JoinFront(ts, text);
      SplitOne(ts[0], next);
      var o := SplitArgs(text);
      if o.Some? {
        assert [ts[0]] + (ts[1..] + o.value) == ts + o.value;
      }
    }
  }

  lemma SplitOne(token: string, next: string)
    requires Clean(token) && token != "" && !IsSpace(token[0])
    ensures SplitArgs(token + " " + next)
         == match SplitArgs(next) case None => None case Some(ts) => Some([token] + ts)
  {
    hide Lex, Clean, SplitArgs;
    var rest := " " + next;
    LexClean(token, rest, "");
    assert "" + token == token && rest[1..] == next;
    assert token + " " + next == token + rest;
    SplitFirst(token + rest);
  }

  lemma JoinFront(ts: seq<string>, text: string)
    requires ts != []
    ensures Join(ts) + " " + text == ts[0] + " " + if ts[1..] == [] then text else Join(ts[1..]) + " " + text
  {
  }

  // ----- One operation ----------------------------------------------------------------------------

  /** What a first argument's rule looks like. */
  lemma RuleShape(t: Table, r: Rule)
    requires WellFormed(t) && MeaningOf(t, r).FirstArg? && Lower(r.name) == r.name
    ensures var n := LastBar(r.name);
      var x := r.name[n + 1..];
      && n < |r.name| && r.name == r.name[..n] + "|" + x && '|' !in r.name[..n] && '|' !in x
      && r.name[..n] in t.commands
      && MeaningOf(t, r) == FirstArg(t.commands[r.name[..n]], x) && Owner(t, t.commands[r.name[..n]].id)
      && Clean(r.name[..n]) && (Clean(x) ==> Clean(r.name)) && r.allow
  {
    hide WellFormed, Lookup, Clean, Lower;
    var n := LastBar(r.name);
    OneBar(t, r);
    TableClean(t, r.name[..n], "", "");
    if Clean(r.name[n + 1..]) {
      ConcatClean(r.name[..n], r.name[n + 1..]);
    }
  }

  lemma BarIsThere(name: string, base: string, n: nat)
    requires base + "|" <= name && '|' !in base && n == LastBar(name) && '|' !in name[..n]
    ensures n == |base|
  {
    hide LastBar;
    assert name[|base|] == '|';
    BarBehind(name, base, n);
    BarInFront(name, base, n);
  }

  lemma BarBehind(name: string, base: string, n: nat)
    requires base + "|" <= name && n < |name| && name[n] == '|'
    ensures '|' !in base ==> n >= |base|
  {
    if n < |base| {
      assert base[n] == name[n];
    }
  }

  lemma BarInFront(name: string, base: string, n: nat)
    requires base + "|" <= name && n <= |name|
    ensures '|' !in name[..n] ==> n <= |base|
  {
    if n > |base| {
      assert name[..n][|base|] == '|';
    }
  }

  /** No token of the last rule grants its own unclean argument. */
  lemma NoTokenGrants(t: Table, sign: string, base: string, x: string, tokens: seq<string>, i: nat, a: Atom)
    requires WellFormed(t) && sign in ["+", "-"] && Clean(base) && '|' !in base && Lower(base) == base
    requires SplitArgs(sign + base + "|" + x) == Some(tokens) && i < |tokens|
    requires a.Arg? && a.arg == x && !Clean(x)
    ensures !GrantsArg(t, tokens[i], a)
  {
    hide WellFormed, SplitArgs, GrantsArg, LastBar, Clean, Lower;
    var u := sign + base + "|";
    PrefixClean(sign, base);
    SplitTail(u, x);
    if GrantsArg(t, tokens[i], a) {
      TokenShape(t, tokens[i], a);
      var name := RuleOf(tokens[i]).name;
      if i == 0 {
        LowerPrefix(tokens[0], sign, base);
        BarIsThere(name, base, LastBar(name));
      }
      assert false;
    }
  }

  lemma PrefixClean(sign: string, base: string)
    requires sign in ["+", "-"] && Clean(base)
    ensures Clean(sign + base + "|") && !IsSpace((sign + base + "|")[0])
  {
  }

  lemma LowerPrefix(token: string, sign: string, base: string)
    requires |sign| == 1 && sign + base + "|" <= token && Lower(base) == base
    ensures base + "|" <= Lower(token[1..])
  {
    var low := Lower(token[1..]);
    forall k | 0 <= k < |base| + 1 ensures low[k] == (base + "|")[k] {
      assert token[k + 1] == (sign + base + "|")[k + 1];
      assert k < |base| ==> Lower(base)[k] == LowerChar(base[k]);
    }
  }

  /** The clean rules before the last one are read back as they are. */
  lemma SplitLast(t: Table, k: seq<Rule>, r: Rule, argv: seq<string>) returns (tail: seq<string>)
    requires AllValid(t, k) && SplitArgs(Join(Texts(k + [r]))) == Some(argv)
    ensures SplitArgs(Text(r)) == Some(tail) && argv == Texts(k) + tail && AllClean(Texts(k))
  {
    hide SplitArgs, Clean, Join, Texts, Valid;
    JoinOne(k, r);
    TextNotEmpty(k);
    ValidTextsClean(t, k);
    SignsFirst(k);
    SplitJoin(Texts(k), Text(r));
    tail := SplitArgs(Text(r)).value;
  }

  lemma SignsFirst(k: seq<Rule>)
    ensures forall i :: 0 <= i < |Texts(k)| ==> Texts(k)[i] != "" && !IsSpace(Texts(k)[i][0])
    ensures |Texts(k)| == |k|
  {
  }

  lemma TextParts(r: Rule, n: nat)
    requires n < |r.name| && r.name == r.name[..n] + "|" + r.name[n + 1..]
    ensures Text(r) == (if r.allow then "+" else "-") + r.name[..n] + "|" + r.name[n + 1..]
  {
  }

  /** No token of the rules grants the unclean argument of the last one. */
  lemma NothingGrants(t: Table, k: seq<Rule>, r: Rule, argv: seq<string>, a: Atom)
    requires WellFormed(t) && AllValid(t, k) && MeaningOf(t, r).FirstArg? && Lower(r.name) == r.name && !Clean(r.name)
    requires SplitArgs(Join(Texts(k + [r]))) == Some(argv)
    requires a == Arg(MeaningOf(t, r).owner.id, MeaningOf(t, r).arg)
    ensures forall i :: 0 <= i < |argv| ==> !GrantsArg(t, argv[i], a)
  {
    hide *;
    RuleShape(t, r);
    var n := LastBar(r.name);
    var sign := if r.allow then "+" else "-";
    var tail := SplitLast(t, k, r, argv);
    TextParts(r, n);
    LowerBase(r.name, n);
    forall i | 0 <= i < |argv| ensures !GrantsArg(t, argv[i], a) {
      if i < |Texts(k)| {
        CleanAt(Texts(k), i);
        CleanGrantsClean(t, Texts(k)[i], a);
      } else {
        NoTokenGrants(t, sign, r.name[..n], r.name[n + 1..], tail, i - |Texts(k)|, a);
      }
    }
  }

  lemma CleanAt(ts: seq<string>, i: nat)
    requires AllClean(ts) && i < |ts|
    ensures Clean(ts[i])
  {
  }

  lemma CleanGrantsClean(t: Table, token: string, a: Atom)
    requires WellFormed(t) && Clean(token) && a.Arg? && !Clean(a.arg)
    ensures !GrantsArg(t, token, a)
  {
    hide WellFormed, Clean, GrantsArg;
    if GrantsArg(t, token, a) {
      TokenShape(t, token, a);
    }
  }

  lemma LowerBase(s: string, n: nat)
    requires n <= |s| && Lower(s) == s
    ensures Lower(s[..n]) == s[..n]
  {
  }

  /** An unclean first argument is granted, and its grant is lost on replay. */
  lemma UncleanIsLost(t: Table, sel: Selector, rs: seq<Rule>, op: string, any: Selector, measured: bool)
    requires WellFormed(t) && Explains(t, sel, rs) && IsRule(op) && !CleanOp(t, op)
    ensures !Rebuilds(t, Apply(t, sel, op), any, measured)
  {
    hide WellFormed, SetSelector, MeaningOf, Final, Update, Lower, Clean, Has, Replay, SplitArgs, Join, NoClash, Valid,
      Base;
    var r := RuleOf(op);
    SetSelectorApplies(t, sel, op, true);
    var sel' := SetSelector(t, sel, op, true).sel;
    LowerTwice(op[1..]);
    RuleShape(t, r);
    ValidNoBlanks(t, rs);
    UpdateText(sel, rs, r);
    KeptMeans(rs, r.name);
    var k := Kept(rs, r.name);
    var a := Arg(MeaningOf(t, r).owner.id, MeaningOf(t, r).arg);
    assert Live(t, a) && Has(sel', a);
    var future := FUTURE in sel'.bits;
    if SplitArgs(sel'.rules).Some? {
      var argv := SplitArgs(sel'.rules).value;
      NothingGrants(t, k, r, argv, a);
      ReplayGrants(t, Base(any, future), argv, a, measured);
      BaseHasNoArgs(any, future, a);
    }
  }

  lemma BaseHasNoArgs(sel: Selector, future: bool, a: Atom)
    requires a.Arg?
    ensures !Has(Base(sel, future), a)
  {
  }

  /** The replay of an accepted operation, with or without lengths and on any selector, gives back
      its bits, its text and its first arguments exactly when the argument it allows, if any, is
      free of blanks and quotes. */
  lemma ReplayExact(t: Table, sel: Selector, op: string, any: Selector, measured: bool)
    requires WellFormed(t) && Explained(t, sel)
    ensures Rebuilds(t, Apply(t, sel, op), any, measured) <==> CleanOp(t, op)
  {
    hide WellFormed, Explains, CleanOp, Rebuilds, Apply, IsRule;
    if CleanOp(t, op) {
      ApplyExplained(t, sel, op);
      ReplayRebuilds(t, Apply(t, sel, op), any, measured);
    } else {
      UncleanIsRule(t, op);
      var rs :| Explains(t, sel, rs);
      UncleanIsLost(t, sel, rs, op, any, measured);
    }
  }

  lemma UncleanIsRule(t: Table, op: string)
    requires !CleanOp(t, op)
    ensures IsRule(op)
  {
  }

  ghost predicate AllCleanOps(t: Table, ops: seq<string>) {
    forall i :: 0 <= i < |ops| ==> CleanOp(t, ops[i])
  }

  /** The first operation of a run that is not clean. */
  lemma {:induction false} FirstUnclean(t: Table, ops: seq<string>) returns (k: nat)
    requires !AllCleanOps(t, ops)
    ensures k < |ops| && !CleanOp(t, ops[k]) && AllCleanOps(t, ops[..k])
    decreases |ops|
  {
    hide CleanOp;
    var front := ops[..|ops| - 1];
    if AllCleanOps(t, front) {
      k := |ops| - 1;
    } else {
      k := FirstUnclean(t, front);
      assert front[..k] == ops[..k];
    }
  }

  /** A selector can be replayed at every moment of a run, whatever was refused in it, exactly when
      no operation of the run brings a blank or a quote into the text. */
  lemma RunExact(t: Table, start: Selector, ops: seq<string>, any: Selector, measured: bool)
    requires WellFormed(t) && Explained(t, start)
    ensures AllCleanOps(t, ops) <==>
      forall n :: 0 <= n <= |ops| ==> Rebuilds(t, Run(t, start, ops[..n]), any, measured)
  {
    hide WellFormed, CleanOp, Rebuilds, Apply, Explained;
    if AllCleanOps(t, ops) {
      forall n | 0 <= n <= |ops| ensures Rebuilds(t, Run(t, start, ops[..n]), any, measured) {
        RunExplained(t, start, ops[..n]);
        ReplayRebuilds(t, Run(t, start, ops[..n]), any, measured);
      }
    } else {
      var k := FirstUnclean(t, ops);
      RunExplained(t, start, ops[..k]);
      ReplayExact(t, Run(t, start, ops[..k]), ops[k], any, measured);
      assert ops[..k + 1][..k] == ops[..k];
      assert !Rebuilds(t, Run(t, start, ops[..k + 1]), any, measured);
    }
  }

  // ----- What the loss looks like -----------------------------------------------------------------

  /** The name of a command, a bar, and what is behind it. */
  lemma NameParts(t: Table, n: string, arg: string)
    requires WellFormed(t) && n in t.commands && '|' !in arg
    ensures var (name, op) := (n + "|" + arg, "+" + (n + "|" + arg));
      && name != "" && name[0] != '@' && LastBar(name) == |n| && name[..|n|] == n && name[|n| + 1..] == arg
      && Lookup(t, n) == Some(Top(t.commands[n])) && Lower(n) == n
      && op[1..] == name && op[0] == '+' && op[1] == name[0] && IsRule(op)
  {
    hide WellFormed, Lookup, LastBar, Lower, IsRule;
    var name := n + "|" + arg;
    TableNames(t, n);
    TableLower(t, n);
    NoBarWhole(t, n);
    assert name[|n|] == '|' && name[..|n|] == n && name[|n| + 1..] == arg;
    LastBarIs(name, |n|);
    OpIsRule(name);
    assert name[0] == n[0];
  }

  /** A first argument is accepted in any state: it is added, and its rule goes to the text. */
  lemma FirstArgAdded(t: Table, sel: Selector, n: string, arg: string, measured: bool)
    requires WellFormed(t) && n in t.commands && t.commands[n].subs == map[]
    requires Lower(arg) == arg && '|' !in arg && arg != ""
    ensures var name := n + "|" + arg;
      && IsRule("+" + name) && Lower(name) == name && MeaningOf(t, Rule(true, name)).FirstArg?
      && SetSelector(t, sel, "+" + name, measured) == Done(Update(AddArg(sel, t.commands[n].id, arg), name, true))
  {
    hide WellFormed, Lookup, LastBar, AddArg, Lower, Update, MeaningOf, IsRule, IsKeyWord, IsPattern;
    var name := n + "|" + arg;
    NameParts(t, n, arg);
    LowerJoined(n, arg);
    FirstArgMeaning(t, t.commands[n], name);
    OpNames("+" + name);
    NotReset("+" + name);
  }

  lemma NotReset(op: string)
    requires IsRule(op)
    ensures Lower(op) != "+@all" && Lower(op) != "-@all"
  {
  }

  lemma LowerJoined(n: string, arg: string)
    requires Lower(n) == n && Lower(arg) == arg
    ensures Lower(n + "|" + arg) == n + "|" + arg
  {
    forall i | 0 <= i < |n + "|" + arg| ensures Lower(n + "|" + arg)[i] == (n + "|" + arg)[i] {
      if i < |n| {
        assert Lower(n)[i] == LowerChar(n[i]);
      } else if i > |n| {
        assert Lower(arg)[i - |n| - 1] == LowerChar(arg[i - |n| - 1]);
      }
    }
  }

  lemma TableLower(t: Table, n: string)
    requires WellFormed(t) && n in t.commands
    ensures Lower(n) == n
  {
  }

  lemma OpIsRule(name: string)
    requires name != "" && name[0] != '@'
    ensures IsRule("+" + name)
  {
    var op := "+" + name;
    assert Lower(op)[1] == LowerChar(name[0]) != '@';
    assert "+@all"[1] == '@' && "-@all"[1] == '@';
  }

  /** An allowed first argument with a blank in it on a fresh selector. */
  lemma BlankAdded(t: Table, n: string, a: string, b: string)
    requires WellFormed(t) && n in t.commands && t.commands[n].subs == map[]
    requires Lower(a) == a && '|' !in a && Clean(a)
    requires Lower(b) == b && '|' !in b && Clean(b) && b != "" && !IsSpace(b[0])
    ensures var o := SetSelector(t, FRESH, "+" + (n + "|" + (a + " " + b)), true);
      && o.Done? && o.sel.bits == {}
      && SplitArgs(o.sel.rules) == Some(["+" + (n + "|" + a), b])
    ensures !CleanOp(t, "+" + (n + "|" + (a + " " + b)))
  {
    hide WellFormed, Clean, SplitArgs, AddArg, MeaningOf, Lower, SetSelector, IsRule;
    var arg := a + " " + b;
    var name := n + "|" + arg;
    LowerBlank(a, b);
    FirstArgAdded(t, FRESH, n, arg, true);
    AddArgKeys(FRESH, t.commands[n].id, arg);
    ScanEnd("", Lower(name));
    assert name == (n + "|" + a) + " " + b;
    TableClean(t, n, "", "");
    ConcatClean(n, a);
    BlankIsSplit(n + "|" + a, b);
    assert ("+" + name)[1..] == name;
    BlankUnclean(n + "|" + a, b);
  }

  lemma LowerBlank(a: string, b: string)
    requires Lower(a) == a && Lower(b) == b && '|' !in a && '|' !in b
    ensures Lower(a + " " + b) == a + " " + b && '|' !in a + " " + b
  {
    forall i | 0 <= i < |a + " " + b| ensures Lower(a + " " + b)[i] == (a + " " + b)[i] {
      if i < |a| {
        assert Lower(a)[i] == LowerChar(a[i]);
      } else if i > |a| {
        assert Lower(b)[i - |a| - 1] == LowerChar(b[i - |a| - 1]);
      }
    }
  }

  lemma BlankUnclean(a: string, b: string)
    ensures !Clean(a + " " + b)
  {
    assert (a + " " + b)[|a|] == ' ';
  }

  /** What an operation that is no rule does to an empty bitmap when it is read back. */
  lemma PlainToken(t: Table, s: Selector, b: string)
    requires Lower(b) == b && b != "" && b[0] != '+' && b[0] != '-' && s.bits == {}
    ensures var o := SetSelector(t, s, b, false);
      (o.Done? && o.sel.bits == {}) <==> IsKeyWord(b) || b == "nocommands"
  {
    hide Lookup, LastBar, Update, ChangePerm, ChangeCategory, AddArg, PatternStart, HasSpaces;
    assert Known(FUTURE);
    assert FUTURE in AllBits();
    assert "+@all"[0] == '+' && "-@all"[0] == '-';
  }

  /** Read back as an operation, the token is accepted and grants no command: a key or channel
      word, a rule that takes away, or a rule about no command as a whole. */
  ghost predicate GrantsNoCommand(t: Table, b: string) {
    || IsKeyWord(b) || b == "nocommands" || b == "-@all"
    || (IsRule(b) && MeaningOf(t, RuleOf(b)) != Nothing
        && (b[0] == '+' ==> forall i :: 0 <= i < BITS ==> !Touches(t, MeaningOf(t, RuleOf(b)), Bit(i))))
  }

  lemma RuleToken(t: Table, s: Selector, b: string)
    requires WellFormed(t) && IsRule(b) && s.bits == {}
    ensures var o := SetSelector(t, s, b, false);
      (o.Done? && o.sel.bits == {}) <==>
        && MeaningOf(t, RuleOf(b)) != Nothing
        && (b[0] == '+' ==> forall i :: 0 <= i < BITS ==> !Touches(t, MeaningOf(t, RuleOf(b)), Bit(i)))
  {
    hide WellFormed, SetSelector, MeaningOf, Touches, RuleOf, Update;
    var o, r := SetSelector(t, s, b, false), RuleOf(b);
    SetSelectorApplies(t, s, b, false);
    RuleSign(b);
    if o.Done? {
      var m := MeaningOf(t, r);
      assert forall i :: 0 <= i < BITS ==> Live(t, Bit(i));
      assert forall i :: 0 <= i < BITS ==>
        (Has(o.sel, Bit(i)) <==> Touches(t, m, Bit(i)) && Grants(m, r.allow, Bit(i)));
      assert forall i :: i in o.sel.bits ==> 0 <= i < BITS && Has(o.sel, Bit(i));
    }
  }

  lemma RuleSign(b: string)
    requires IsRule(b)
    ensures RuleOf(b).allow <==> b[0] == '+'
  {
  }

  lemma AnyToken(t: Table, s: Selector, b: string)
    requires WellFormed(t) && Lower(b) == b && b != "" && s.bits == {}
    ensures var o := SetSelector(t, s, b, false);
      (o.Done? && o.sel.bits == {}) <==> GrantsNoCommand(t, b)
  {
    hide WellFormed, SetSelector, MeaningOf, Touches, RuleOf;
    if IsRule(b) {
      RuleToken(t, s, b);
      RuleIsNoWord(b);
    } else if b[0] != '+' && b[0] != '-' {
      PlainToken(t, s, b);
    } else {
      ResetToken(t, s, b);
    }
  }

  lemma RuleIsNoWord(b: string)
    requires IsRule(b) && Lower(b) == b
    ensures !IsKeyWord(b) && b != "nocommands" && b != "-@all"
  {
  }

  lemma ResetToken(t: Table, s: Selector, b: string)
    requires b == "+@all" || b == "-@all"
    requires Lower(b) == b
    ensures var o := SetSelector(t, s, b, false);
      o.Done? && (o.sel.bits == {} <==> b == "-@all")
    ensures !IsKeyWord(b) && b != "nocommands"
  {
    hide Lookup, LastBar, Update, ChangePerm, ChangeCategory, AddArg, PatternStart, HasSpaces;
    assert Known(FUTURE);
    assert FUTURE in AllBits();
  }

  /** A first argument with a blank in it, on a fresh selector: the description does not panic
      exactly if something stands before the blank, and what stands behind it is accepted and
      grants no command; and whatever stands there, the rules read back do not grant what the
      selector grants, so that in those cases the grant is lost silently. */
  lemma BlankExact(t: Table, n: string, a: string, b: string, any: Selector, measured: bool)
    requires WellFormed(t) && n in t.commands && t.commands[n].subs == map[]
    requires Lower(a) == a && '|' !in a && Clean(a)
    requires Lower(b) == b && '|' !in b && Clean(b) && b != "" && !IsSpace(b[0])
    ensures var o := SetSelector(t, FRESH, "+" + (n + "|" + (a + " " + b)), true);
      && o.Done?
      && (Describe(t, o.sel).Some? <==> a != "" && GrantsNoCommand(t, b))
      && !Rebuilds(t, o.sel, any, measured)
  {
    hide WellFormed, Clean, AddArg, SplitArgs, Lower, Rebuilds, SetSelector, CleanOp, Explained, Base,
      GrantsNoCommand;
    var op := "+" + (n + "|" + (a + " " + b));
    BlankAdded(t, n, a, b);
    FreshExplained(t, FRESH);
    ReplayExact(t, FRESH, op, any, measured);
    var base := Base(FRESH, false);
    EmptyBase();
    var x := "+" + (n + "|" + a);
    if a == "" {
      assert n + "|" + a == n + "|";
      NoArgument(t, base, n, b);
    } else {
      FirstArgAdded(t, base, n, a, false);
      AddArgKeys(base, t.commands[n].id, a);
      TwoTokens(t, base, x, b);
      AnyToken(t, SetSelector(t, base, x, false).sel, b);
    }
  }

  lemma EmptyBase()
    ensures Base(FRESH, false).bits == {} && FUTURE !in FRESH.bits
  {
  }

  lemma TwoTokens(t: Table, s: Selector, x: string, b: string)
    requires SetSelector(t, s, x, false).Done?
    ensures Replay(t, s, [x, b], false) ==
      match SetSelector(t, SetSelector(t, s, x, false).sel, b, false) case Done(z) => Some(z) case Refused => None
  {
    hide SetSelector;
    var s1 := SetSelector(t, s, x, false).sel;
    var o := SetSelector(t, s1, b, false);
    assert [x, b][0] == x && [x, b][1..] == [b] && [b][0] == b && [b][1..] == [];
    assert Replay(t, s, [x, b], false) == Replay(t, s1, [b], false);
    if o.Done? {
      assert Replay(t, o.sel, [], false) == Some(o.sel);
    }
  }

  /** A bar with nothing behind it. */
  lemma NoArgument(t: Table, s: Selector, n: string, b: string)
    requires WellFormed(t) && n in t.commands && t.commands[n].subs == map[]
    ensures Replay(t, s, ["+" + (n + "|"), b], false) == None
  {
    hide WellFormed, Lookup, LastBar, AddArg, Lower, Update, IsRule, IsKeyWord, IsPattern;
    var name := n + "|";
    assert name == n + "|" + "";
    NameParts(t, n, "");
    OpNames("+" + name);
    NotReset("+" + name);
    assert SetSelector(t, s, "+" + name, false).Refused?;
    assert ["+" + name, b][0] == "+" + name;
  }
}
