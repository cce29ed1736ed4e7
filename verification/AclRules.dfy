/** The text of a selector's command rules: how rules are kept in one string, taken out of it in
    place, and read back as arguments. */
module AclRules {
  import opened Options

  /** A rule is '+' or '-' and the name of a command, a subcommand, a first argument or a
      category. */
  datatype Rule = Rule(allow: bool, name: string)

  function Text(r: Rule): string {
    (if r.allow then "+" else "-") + r.name
  }

  function Texts(rs: seq<Rule>): (ts: seq<string>)
    ensures |ts| == |rs| && forall i :: 0 <= i < |rs| ==> ts[i] == Text(rs[i])
  {
    seq(|rs|, i requires 0 <= i < |rs| => Text(rs[i]))
  }

  /** The rules, one blank between two of them. */
  function Join(ts: seq<string>): string {
    if ts == [] then "" else if |ts| == 1 then ts[0] else ts[0] + " " + Join(ts[1..])
  }

  // ----- Removing rules in place -------------------------------------------------------------

  /** strchr(s, ' '), or the length. */
  function FindBlank(s: string): (n: nat)
    ensures n <= |s| && ' ' !in s[..n] && (n < |s| ==> s[n] == ' ')
  {
    if s == "" || s[0] == ' ' then 0 else 1 + FindBlank(s[1..])
  }

  /** A rule about `name` itself or, when `name` is a container, about something inside it. */
  predicate Removes(existing: string, name: string) {
    existing == name || (|existing| > |name| && existing[..|name|] == name && existing[|name|] == '|')
  }

  lemma RemovesMeans(existing: string, name: string)
    ensures Removes(existing, name) <==> existing == name || exists rest: string :: existing == name + "|" + rest
  {
    if |existing| > |name| {
      assert existing[..|name|] == name && existing[|name|] == '|' ==>
        existing == name + "|" + existing[|name| + 1..];
    }
  }

  function Kept(rs: seq<Rule>, name: string): seq<Rule> {
    if rs == [] then []
    else (if Removes(rs[0].name, name) then [] else [rs[0]]) + Kept(rs[1..], name)
  }

  /** The walk of ACLSelectorRemoveCommandRule over the text from position `pos`. */
  function Scan(text: string, pos: nat, name: string): string
    requires pos <= |text|
    decreases |text| - pos
  {
    if pos == |text| then text
    else
      var body := text[pos + 1..];
      var n := FindBlank(body);
      var last := n == |body|;
      var copyEnd := if last then |text| else pos + 1 + n + 1;
      var copyTo := if last && pos > 0 then pos - 1 else pos;
      if Removes(body[..n], name) then
        var text' := text[..copyTo] + text[copyEnd..];
        if last then text' else Scan(text', copyTo, name)
      else Scan(text, copyEnd, name)
  }

  /** The memcmp on the common length, then the lengths. */
  method Matches(text: string, start: nat, existingLen: nat, name: string) returns (b: bool)
    requires start + existingLen <= |text|
    ensures b == Removes(text[start..start + existingLen], name)
  {
    var m := if existingLen < |name| then existingLen else |name|;
    b := text[start..start + m] == name[..m]
      && (existingLen == |name| || (existingLen > |name| && text[start + |name|] == '|'));
    ghost var existing := text[start..start + existingLen];
    assert existing[..m] == text[start..start + m];
    assert name[..|name|] == name && existing[..|existing|] == existing;
  }

  /** strchr on the text itself. */
  method RuleEnd(text: string, start: nat) returns (end: nat)
    requires start <= |text|
    ensures start <= end <= |text| && end == start + FindBlank(text[start..])
  {
    end := start;
    while end < |text| && text[end] != ' '
      invariant start <= end <= |text|
      invariant start + FindBlank(text[start..]) == end + FindBlank(text[end..])
    {
      assert text[end..][1..] == text[end + 1..];
      end := end + 1;
    }
  }

  /** The walk, moving the tail of the text over what is removed. */
  method RemoveCommandRule(rules: string, name: string) returns (r: string)
    ensures r == Scan(rules, 0, name)
  {
    hide Removes, FindBlank;
    r := rules;
    var pos := 0;
    while pos < |r|
      invariant 0 <= pos <= |r|
      invariant Scan(r, pos, name) == Scan(rules, 0, name)
      decreases |r| - pos
    {
      var copyTo := pos;
      pos := pos + 1;
      var ruleEnd := RuleEnd(r, pos);
      ghost var body := r[pos..];
      assert body[..ruleEnd - pos] == r[pos..ruleEnd];
      if ruleEnd == |r| && copyTo > 0 {
        copyTo := copyTo - 1;
      }
      var copyEnd := if ruleEnd < |r| then ruleEnd + 1 else ruleEnd;
      var gone := Matches(r, pos, ruleEnd - pos, name);
      if gone {
        r := r[..copyTo] + r[copyEnd..];
        pos := copyTo;
      } else {
        pos := copyEnd;
      }
    }
  }

  // ----- Editing the text is filtering the rules ----------------------------------------------

  /** No blank in any name: nothing that the walk could mistake for the end of a rule. */
  ghost predicate NoBlanks(rs: seq<Rule>) {
    forall i :: 0 <= i < |rs| ==> ' ' !in rs[i].name
  }

  function Before(rs: seq<Rule>): string {
    if rs == [] then "" else Join(Texts(rs)) + " "
  }

  lemma {:induction false} JoinAppend(a: seq<string>, b: seq<string>)
    ensures Join(a + b) == if a == [] then Join(b) else if b == [] then Join(a) else Join(a) + " " + Join(b)
  {
    if a == [] {
      assert a + b == b;
    } else if b == [] {
      assert a + b == a;
    } else {
      JoinAppend(a[1..], b);
      assert (a + b)[0] == a[0] && (a + b)[1..] == a[1..] + b;
      if |a| > 1 {
        var x, y, z := a[0], Join(a[1..]), Join(b);
        assert x + " " + (y + " " + z) == x + " " + y + " " + z;
      } else {
        assert a[1..] + b == b;
      }
    }
  }

  lemma {:induction false} FindAt(a: string, b: string)
    requires ' ' !in a && (b == "" || b[0] == ' ')
    ensures FindBlank(a + b) == |a|
  {
    if a != "" {
      assert a[0] in a;
      assert (a + b)[1..] == a[1..] + b;
      FindAt(a[1..], b);
    } else {
      assert a + b == b;
    }
  }

  /** The text from a rule on: its sign, its name, and either nothing or a blank and the rest. */
  lemma TailText(rs: seq<Rule>)
    requires rs != []
    ensures Join(Texts(rs)) == Text(rs[0]) + (if |rs| == 1 then "" else " " + Join(Texts(rs[1..])))
  {
    assert Texts(rs)[1..] == Texts(rs[1..]);
    assert Text(rs[0]) + "" == Text(rs[0]);
  }

  lemma TextNotEmpty(rs: seq<Rule>)
    ensures Join(Texts(rs)) == "" <==> rs == []
    ensures |Before(rs)| > 0 <==> rs != []
  {
    if rs != [] {
      TailText(rs);
    }
  }

  lemma BeforeAppend(rs: seq<Rule>, r: Rule)
    ensures Before(rs + [r]) == Before(rs) + Text(r) + " "
  {
    JoinAppend(Texts(rs), [Text(r)]);
    assert Texts(rs + [r]) == Texts(rs) + [Text(r)];
    assert Join([Text(r)]) == Text(r);
    var x, t := Join(Texts(rs)), Text(r);
    assert rs != [] ==> (x + " " + t) + " " == (x + " ") + t + " ";
    assert "" + t + " " == t + " ";
  }

  /** One step of the walk at a name `n` with `tail` characters after it; `next` is the text
      without that rule. */
  lemma ScanText(text: string, pos: nat, n: string, tail: nat, next: string, name: string)
    requires pos + 1 + |n| + tail == |text|
    requires FindBlank(text[pos + 1..]) == |n| && text[pos + 1..][..|n|] == n
    requires tail == 0 && pos > 0 ==> next == text[..pos - 1] + text[|text|..]
    requires tail == 0 && pos == 0 ==> next == text[..pos] + text[|text|..]
    requires tail > 0 ==> next == text[..pos] + text[pos + 1 + |n| + 1..]
    requires tail > 0 ==> pos <= |next|
    ensures Scan(text, pos, name) ==
      if Removes(n, name) then (if tail == 0 then next else Scan(next, pos, name))
      else (if tail == 0 then text else Scan(text, pos + 1 + |n| + 1, name))
  {
    hide Removes, Scan, FindBlank;
    ScanUnfold(text, pos, name, |n|);
    ScanEnd(text, name);
  }

  lemma Slices(b: string, sign: string, n: string, rest: string)
    requires |sign| == 1
    ensures var text := b + sign + n + rest;
      && |text| == |b| + 1 + |n| + |rest|
      && text[|b| + 1..] == n + rest
      && (n + rest)[..|n|] == n
      && (rest == "" && b != "" ==> text[..|b| - 1] + text[|text|..] == b[..|b| - 1])
      && (rest == "" && b == "" ==> text[..|b|] + text[|text|..] == "")
      && (rest != "" ==> text[..|b|] + text[|b| + 1 + |n| + 1..] == b + rest[1..])
  {
    var text := b + sign + n + rest;
    assert text[..|b|] == b;
    if rest == "" && b != "" {
      assert text[..|b| - 1] == b[..|b| - 1];
    }
  }

  lemma ScanEnd(text: string, name: string)
    ensures Scan(text, |text|, name) == text
  {
  }

  lemma ScanUnfold(text: string, pos: nat, name: string, n: nat)
    requires pos < |text| && n == FindBlank(text[pos + 1..])
    ensures var last := pos + 1 + n == |text|;
      var copyEnd := if last then |text| else pos + 1 + n + 1;
      var copyTo := if last && pos > 0 then pos - 1 else pos;
      Scan(text, pos, name) ==
        if Removes(text[pos + 1..][..n], name) then
          (if last then text[..copyTo] + text[copyEnd..] else Scan(text[..copyTo] + text[copyEnd..], copyTo, name))
        else Scan(text, copyEnd, name)
  {
    hide Removes, FindBlank;
  }

  lemma BeforeButLast(done: seq<Rule>)
    ensures done == [] ==> Before(done) == "" && Join(Texts(done)) == ""
    ensures done != [] ==> Before(done) != "" && Before(done)[..|Before(done)| - 1] == Join(Texts(done))
  {
  }

  /** One step of the walk, standing at the first rule of `rs`. */
  lemma ScanStep(done: seq<Rule>, rs: seq<Rule>, name: string)
    requires rs != [] && ' ' !in rs[0].name
    ensures var text := Before(done) + Join(Texts(rs));
      Scan(text, |Before(done)|, name) ==
        if Removes(rs[0].name, name) then
          (if |rs| == 1 then Join(Texts(done)) else Scan(Before(done) + Join(Texts(rs[1..])), |Before(done)|, name))
        else
          (if |rs| == 1 then text else Scan(text, |Before(done)| + |Text(rs[0])| + 1, name))
  {
    hide Scan, Join, Before, Removes, Texts, FindBlank;
    var b := Before(done);
    var sign := if rs[0].allow then "+" else "-";
    var n := rs[0].name;
    var tail := Join(Texts(rs[1..]));
    var rest := if |rs| == 1 then "" else " " + tail;
    TailText(rs);
    BeforeButLast(done);
    var next := if |rs| == 1 then Join(Texts(done)) else b + tail;
    ScanPieces(b + Join(Texts(rs)), b, sign, n, rest, next, name);
  }

  lemma ScanPieces(text: string, b: string, sign: string, n: string, rest: string, next: string, name: string)
    requires |sign| == 1 && ' ' !in n && (rest == "" || rest[0] == ' ')
    requires text == b + sign + n + rest
    requires rest == "" ==> next == if b == "" then "" else b[..|b| - 1]
    requires rest != "" ==> next == b + rest[1..]
    ensures Scan(text, |b|, name) ==
      if Removes(n, name) then (if rest == "" then next else Scan(next, |b|, name))
      else (if rest == "" then text else Scan(text, |b| + 1 + |n| + 1, name))
  {
    hide *;
    Slices(b, sign, n, rest);
    FindAt(n, rest);
    ScanText(text, |b|, n, |rest|, next, name);
  }

  /** The walk leaves exactly the rules that are to be kept, in order. */
  lemma {:induction false} ScanKeeps(done: seq<Rule>, rs: seq<Rule>, name: string)
    requires NoBlanks(rs) && rs != []
    ensures Scan(Before(done) + Join(Texts(rs)), |Before(done)|, name) == Join(Texts(done + Kept(rs, name)))
    decreases |rs|
  {
    hide Scan, Join, Before, Text, Texts, Removes, Kept;
    ScanStep(done, rs, name);
    KeptStep(done, rs, name);
    if |rs| == 1 {
      if !Removes(rs[0].name, name) {
        JoinBefore(done, rs);
      }
    } else if Removes(rs[0].name, name) {
      ScanKeeps(done, rs[1..], name);
    } else {
      ScanKeeps(done + [rs[0]], rs[1..], name);
      ShiftOne(done, rs);
    }
  }

  lemma KeptStep(done: seq<Rule>, rs: seq<Rule>, name: string)
    requires rs != []
    ensures Removes(rs[0].name, name) ==> done + Kept(rs, name) == done + Kept(rs[1..], name)
    ensures !Removes(rs[0].name, name) ==> done + Kept(rs, name) == done + [rs[0]] + Kept(rs[1..], name)
    ensures |rs| == 1 ==> done + Kept(rs, name) == if Removes(rs[0].name, name) then done else done + rs
  {
    hide Removes;
    KeptCons(rs, name);
    var k := Kept(rs[1..], name);
    if !Removes(rs[0].name, name) {
      assert done + ([rs[0]] + k) == done + [rs[0]] + k;
    }
    if |rs| == 1 {
      assert rs == [rs[0]];
      KeptNone(rs[1..], name);
      assert done + [] == done && [rs[0]] + [] == rs;
    }
  }

  lemma KeptCons(rs: seq<Rule>, name: string)
    requires rs != []
    ensures Kept(rs, name) == if Removes(rs[0].name, name) then Kept(rs[1..], name) else [rs[0]] + Kept(rs[1..], name)
  {
    assert [] + Kept(rs[1..], name) == Kept(rs[1..], name);
  }

  lemma KeptNone(rs: seq<Rule>, name: string)
    requires rs == []
    ensures Kept(rs, name) == []
  {
  }

  lemma JoinBefore(done: seq<Rule>, rs: seq<Rule>)
    requires rs != []
    ensures Before(done) + Join(Texts(rs)) == Join(Texts(done + rs))
  {
    JoinAppend(Texts(done), Texts(rs));
    assert Texts(done + rs) == Texts(done) + Texts(rs);
    assert "" + Join(Texts(rs)) == Join(Texts(rs));
  }

  lemma ShiftOne(done: seq<Rule>, rs: seq<Rule>)
    requires |rs| > 1
    ensures Before(done) + Join(Texts(rs)) == Before(done + [rs[0]]) + Join(Texts(rs[1..]))
    ensures |Before(done)| + |Text(rs[0])| + 1 == |Before(done + [rs[0]])|
  {
    TailText(rs);
    BeforeAppend(done, rs[0]);
    var b, t, j := Before(done), Text(rs[0]), Join(Texts(rs[1..]));
    assert b + (t + (" " + j)) == (b + t + " ") + j;
  }

  /** ACLSelectorRemoveCommandRule: cutting pieces out of the text is filtering the rules. */
  lemma RemoveIsFilter(rs: seq<Rule>, name: string)
    requires NoBlanks(rs)
    ensures Scan(Join(Texts(rs)), 0, name) == Join(Texts(Kept(rs, name)))
  {
    if rs == [] {
      assert Texts(rs) == [];
    } else {
      ScanKeeps([], rs, name);
      assert "" + Join(Texts(rs)) == Join(Texts(rs));
      assert [] + Kept(rs, name) == Kept(rs, name);
    }
  }

  lemma {:induction false} KeptMeans(rs: seq<Rule>, name: string)
    ensures forall r :: r in Kept(rs, name) <==> r in rs && !Removes(r.name, name)
    ensures NoBlanks(rs) ==> NoBlanks(Kept(rs, name))
  {
    if rs != [] {
      KeptMeans(rs[1..], name);
    }
  }

  // ----- Reading the rules back: sdssplitargs ---------------------------------------------------

  predicate IsSpace(c: char) {
    c == ' ' || c == '\t' || c == '\n' || c == '\r' || c as int == 11 || c as int == 12
  }

  /** What ends an unquoted argument. */
  predicate Ends(c: char) {
    c == ' ' || c == '\t' || c == '\n' || c == '\r'
  }

  datatype Mode = Bare | Double | Single

  datatype Piece = Piece(arg: string, rest: string)

  predicate IsHex(c: char) {
    '0' <= c <= '9' || 'a' <= c <= 'f' || 'A' <= c <= 'F'
  }

  function Hex(c: char): (n: nat)
    ensures n < 16
  {
    if '0' <= c <= '9' then c as int - 48
    else if 'a' <= c <= 'f' then c as int - 97 + 10
    else if 'A' <= c <= 'F' then c as int - 65 + 10
    else 0
  }

  function Escape(c: char): char {
    match c
    case 'n' => '\n'
    case 'r' => '\r'
    case 't' => '\t'
    case 'b' => 8 as char
    case 'a' => 7 as char
    case _ => c
  }

  /** One argument; None when the quotes are wrong. */
  function Lex(s: string, mode: Mode, arg: string): Option<Piece>
    decreases |s|
  {
    match mode
    case Bare =>
      if s == "" then Some(Piece(arg, ""))
      else if Ends(s[0]) then Some(Piece(arg, s[1..]))
      else if s[0] == '\"' then Lex(s[1..], Double, arg)
      else if s[0] == '\'' then Lex(s[1..], Single, arg)
      else Lex(s[1..], Bare, arg + [s[0]])
    case Double =>
      if |s| >= 4 && s[0] == '\\' && s[1] == 'x' && IsHex(s[2]) && IsHex(s[3]) then
        Lex(s[4..], Double, arg + [(Hex(s[2]) * 16 + Hex(s[3])) as char])
      else if |s| >= 2 && s[0] == '\\' then Lex(s[2..], Double, arg + [Escape(s[1])])
      else if s == "" then None
      else if s[0] == '\"' then
        if |s| > 1 && !IsSpace(s[1]) then None else Some(Piece(arg, s[1..]))
      else Lex(s[1..], Double, arg + [s[0]])
    case Single =>
      if |s| >= 2 && s[0] == '\\' && s[1] == '\'' then Lex(s[2..], Single, arg + ['\''])
      else if s == "" then None
      else if s[0] == '\'' then
        if |s| > 1 && !IsSpace(s[1]) then None else Some(Piece(arg, s[1..]))
      else Lex(s[1..], Single, arg + [s[0]])
  }

  lemma {:induction false} LexShrinks(s: string, mode: Mode, arg: string)
    ensures var o := Lex(s, mode, arg);
      o.Some? ==> |o.value.rest| <= |s| && (s != "" ==> |o.value.rest| < |s|)
    decreases |s|
  {
    match mode {
      case Bare =>
        if s == "" || Ends(s[0]) {
        } else if s[0] == '\"' {
          LexShrinks(s[1..], Double, arg);
        } else if s[0] == '\'' {
          LexShrinks(s[1..], Single, arg);
        } else {
          LexShrinks(s[1..], Bare, arg + [s[0]]);
        }
      case Double =>
        if |s| >= 4 && s[0] == '\\' && s[1] == 'x' && IsHex(s[2]) && IsHex(s[3]) {
          LexShrinks(s[4..], Double, arg + [(Hex(s[2]) * 16 + Hex(s[3])) as char]);
        } else if |s| >= 2 && s[0] == '\\' {
          LexShrinks(s[2..], Double, arg + [Escape(s[1])]);
        } else if s != "" && s[0] != '\"' {
          LexShrinks(s[1..], Double, arg + [s[0]]);
        }
      case Single =>
        if |s| >= 2 && s[0] == '\\' && s[1] == '\'' {
          LexShrinks(s[2..], Single, arg + ['\'']);
        } else if s != "" && s[0] != '\'' {
          LexShrinks(s[1..], Single, arg + [s[0]]);
        }
    }
  }

  function SplitArgs(s: string): Option<seq<string>>
    decreases |s|
  {
    if s == "" then Some([])
    else if IsSpace(s[0]) then SplitArgs(s[1..])
    else
      LexShrinks(s, Bare, "");
      match Lex(s, Bare, "")
      case None => None
      case Some(p) =>
        match SplitArgs(p.rest)
        case None => None
        case Some(ts) => Some([p.arg] + ts)
  }

  // ----- When the text can be read back ----------------------------------------------------------

  ghost predicate Clean(t: string) {
    forall i :: 0 <= i < |t| ==> !Ends(t[i]) && t[i] != '\"' && t[i] != '\''
  }

  lemma {:induction false} LexClean(t: string, rest: string, arg: string)
    requires Clean(t) && (rest == "" || Ends(rest[0]))
    ensures Lex(t + rest, Bare, arg) == Some(Piece(arg + t, if rest == "" then "" else rest[1..]))
    decreases |t|
  {
    if t == "" {
      assert t + rest == rest && arg + t == arg;
    } else {
      LexClean(t[1..], rest, arg + [t[0]]);
      assert (t + rest)[1..] == t[1..] + rest;
      assert arg + [t[0]] + t[1..] == arg + t;
    }
  }

  lemma {:induction false} SplitClean(ts: seq<string>)
    requires forall i :: 0 <= i < |ts| ==> Clean(ts[i]) && ts[i] != "" && !IsSpace(ts[i][0])
    ensures SplitArgs(Join(ts)) == Some(ts)
  {
    hide Lex;
    if ts != [] {
      SplitClean(ts[1..]);
      var rest := if |ts| == 1 then "" else " " + Join(ts[1..]);
      LexClean(ts[0], rest, "");
      assert "" + ts[0] == ts[0];
      assert ts[0] + (" " + Join(ts[1..])) == ts[0] + " " + Join(ts[1..]);
      assert ts[0] + "" == ts[0];
      assert Join(ts) == ts[0] + rest;
      assert ts == [ts[0]] + ts[1..];
      SplitFirst(Join(ts));
    }
  }

  lemma SplitFirst(s: string)
    requires s != "" && !IsSpace(s[0])
    ensures var o := Lex(s, Bare, "");
      SplitArgs(s) == match o
        case None => None
        case Some(p) => match SplitArgs(p.rest) case None => None case Some(ts) => Some([p.arg] + ts)
  {
    LexShrinks(s, Bare, "");
  }

  /** Inside quotes an argument never takes fewer characters than it yields, and the closing
      quote yields nothing. */
  lemma {:induction false} LexQuoted(s: string, mode: Mode, arg: string)
    requires !mode.Bare?
    ensures var o := Lex(s, mode, arg); o.Some? ==> |o.value.arg| + |o.value.rest| + 1 <= |arg| + |s|
    decreases |s|
  {
    if mode.Double? {
      if |s| >= 4 && s[0] == '\\' && s[1] == 'x' && IsHex(s[2]) && IsHex(s[3]) {
        LexQuoted(s[4..], Double, arg + [(Hex(s[2]) * 16 + Hex(s[3])) as char]);
      } else if |s| >= 2 && s[0] == '\\' {
        LexQuoted(s[2..], Double, arg + [Escape(s[1])]);
      } else if s != "" && s[0] != '\"' {
        LexQuoted(s[1..], Double, arg + [s[0]]);
      }
    } else {
      if |s| >= 2 && s[0] == '\\' && s[1] == '\'' {
        LexQuoted(s[2..], Single, arg + ['\'']);
      } else if s != "" && s[0] != '\'' {
        LexQuoted(s[1..], Single, arg + [s[0]]);
      }
    }
  }

  /** An argument either is a clean piece of the text, or two characters are lost to quotes. */
  lemma {:induction false} LexLength(s: string, arg: string)
    requires Clean(arg)
    ensures var o := Lex(s, Bare, arg); o.Some? ==>
      || |o.value.arg| + |o.value.rest| + 2 <= |arg| + |s|
      || (Clean(o.value.arg) && (|o.value.arg| + |o.value.rest| + 1 == |arg| + |s|
                                 || (o.value.rest == "" && |o.value.arg| == |arg| + |s|)))
    decreases |s|
  {
    if s != "" && !Ends(s[0]) {
      if s[0] == '\"' {
        LexQuoted(s[1..], Double, arg);
      } else if s[0] == '\'' {
        LexQuoted(s[1..], Single, arg);
      } else {
        LexLength(s[1..], arg + [s[0]]);
      }
    }
  }

  function Total(ts: seq<string>): nat {
    if ts == [] then 0 else |ts[0]| + Total(ts[1..])
  }

  ghost predicate AllClean(ts: seq<string>) {
    forall i :: 0 <= i < |ts| ==> Clean(ts[i])
  }

  /** The arguments and one separator between two of them fit into the text, exactly only if no
      quote was read. */
  lemma {:induction false} SplitLength(s: string)
    ensures var o := SplitArgs(s); o.Some? && o.value != [] ==>
      && Total(o.value) + |o.value| - 1 <= |s|
      && (Total(o.value) + |o.value| - 1 == |s| ==> AllClean(o.value))
    decreases |s|
  {
    hide Lex, Clean;
    if s == "" {
    } else if IsSpace(s[0]) {
      SplitLength(s[1..]);
    } else {
      LexShrinks(s, Bare, "");
      SplitFirst(s);
      LexLength(s, "");
      var o := Lex(s, Bare, "");
      if o.Some? {
        SplitLength(o.value.rest);
        if SplitArgs(o.value.rest).Some? {
          var ts := SplitArgs(o.value.rest).value;
          assert ([o.value.arg] + ts)[1..] == ts;
        }
      }
    }
  }

  lemma {:induction false} JoinLength(ts: seq<string>)
    requires ts != []
    ensures |Join(ts)| == Total(ts) + |ts| - 1
  {
    if |ts| > 1 {
      JoinLength(ts[1..]);
    }
  }

  /** sdssplitargs gives the rules back exactly when no rule has a blank or a quote in it. */
  lemma ReadBack(rs: seq<Rule>)
    ensures SplitArgs(Join(Texts(rs))) == Some(Texts(rs)) <==> AllClean(Texts(rs))
  {
    var ts := Texts(rs);
    if AllClean(ts) {
      SplitClean(ts);
    }
    if rs != [] {
      JoinLength(ts);
      SplitLength(Join(ts));
    }
  }

  /** A rule with a blank in it is read back as two. */
  lemma BlankIsSplit(a: string, b: string)
    requires Clean(a) && Clean(b) && b != "" && !IsSpace(b[0])
    ensures SplitArgs(Text(Rule(true, a + " " + b))) == Some(["+" + a, b])
  {
    hide Lex, Clean, SplitArgs;
    var text := Text(Rule(true, a + " " + b));
    var rest := " " + b;
    assert text == ("+" + a) + rest;
    SignClean(a);
    LexClean("+" + a, rest, "");
    assert "" + ("+" + a) == "+" + a && rest[1..] == b;
    SplitFirst(text);
    SplitClean([b]);
    assert Join([b]) == b;
    assert ["+" + a] + [b] == ["+" + a, b];
  }

  lemma SignClean(a: string)
    requires Clean(a)
    ensures Clean("+" + a) && Clean("-" + a)
  {
  }
}
