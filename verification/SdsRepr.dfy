/** sdscatrepr, the quoting that sdssplitargs is there to undo. */
module SdsRepr {
  import opened Options
  import opened AclRules

  /** The characters of C, one byte each. */
  predicate Bytes(s: string) {
    forall i :: 0 <= i < |s| ==> s[i] as int < 256
  }

  predicate IsPrint(c: char) {
    32 <= c as int <= 126
  }

  /** One digit of "%02x". */
  function HexDigit(n: nat): (c: char)
    requires n < 16
    ensures IsHex(c) && Hex(c) == n
  {
    if n < 10 then (48 + n) as char else (97 + n - 10) as char
  }

  /** Digits are read in either case. */
  lemma HexMeans(c: char)
    ensures var small, capital := "0123456789abcdef", "0123456789ABCDEF";
      && (IsHex(c) <==> c in small || c in capital)
      && forall i :: 0 <= i < 16 && (small[i] == c || capital[i] == c) ==> Hex(c) == i
  {
    var small, capital := "0123456789abcdef", "0123456789ABCDEF";
    if '0' <= c <= '9' {
      assert small[c as int - 48] == c;
    } else if 'a' <= c <= 'f' {
      assert small[c as int - 87] == c;
    } else if 'A' <= c <= 'F' {
      assert capital[c as int - 55] == c;
    }
  }

  function Quoted(c: char): string
    requires c as int < 256
  {
    if c == '\\' || c == '\"' then ['\\', c]
    else if c == '\n' then "\\n"
    else if c == '\r' then "\\r"
    else if c == '\t' then "\\t"
    else if c as int == 7 then "\\a"
    else if c as int == 8 then "\\b"
    else if IsPrint(c) then [c]
    else ['\\', 'x', HexDigit(c as int / 16), HexDigit(c as int % 16)]
  }

  function Body(s: string): string
    requires Bytes(s)
  {
    if s == "" then "" else Quoted(s[0]) + Body(s[1..])
  }

  /** sdscatrepr. */
  function Repr(s: string): string
    requires Bytes(s)
  {
    "\"" + Body(s) + "\""
  }

  lemma LexQuoted(c: char, rest: string, arg: string)
    requires c as int < 256
    ensures Lex(Quoted(c) + rest, Double, arg) == Lex(rest, Double, arg + [c])
  {
    var q := Quoted(c);
    assert (q + rest)[|q|..] == rest;
    assert (c as int / 16) * 16 + c as int % 16 == c as int;
  }

  lemma {:induction false} LexBody(s: string, rest: string, arg: string)
    requires Bytes(s)
    ensures Lex(Body(s) + rest, Double, arg) == Lex(rest, Double, arg + s)
  {
    hide Lex, Quoted;
    if s == "" {
      assert Body(s) + rest == rest && arg + s == arg;
    } else {
      assert Body(s) + rest == Quoted(s[0]) + (Body(s[1..]) + rest);
      LexQuoted(s[0], Body(s[1..]) + rest, arg);
      LexBody(s[1..], rest, arg + [s[0]]);
      assert arg + [s[0]] + s[1..] == arg + s;
    }
  }

  /** A quoted string, whatever its bytes, is split off as one argument; what follows must be
      white space, and the closing quote must be there. */
  lemma SplitQuoted(s: string, rest: string)
    requires Bytes(s)
    ensures SplitArgs(Repr(s) + rest) ==
      if rest != "" && !IsSpace(rest[0]) then None
      else match SplitArgs(rest) case None => None case Some(ts) => Some([s] + ts)
    ensures SplitArgs("\"" + Body(s)) == None
  {
    hide Body;
    OpenQuote(Body(s) + ("\"" + rest));
    LexBody(s, "\"" + rest, "");
    assert Repr(s) + rest == "\"" + (Body(s) + ("\"" + rest));
    OpenQuote(Body(s));
    LexBody(s, "", "");
    assert Body(s) + "" == Body(s) && "" + s == s;
    assert ("\"" + rest)[1..] == rest;
  }

  lemma OpenQuote(s: string)
    ensures SplitArgs("\"" + s) ==
      match Lex(s, Double, "")
      case None => None
      case Some(p) => (match SplitArgs(p.rest) case None => None case Some(ts) => Some([p.arg] + ts))
  {
    hide Lex;
    BareQuote(s);
    LexShrinks("\"" + s, Bare, "");
    assert ("\"" + s)[0] == '\"';
  }

  lemma BareQuote(s: string)
    ensures Lex("\"" + s, Bare, "") == Lex(s, Double, "")
  {
    assert ("\"" + s)[1..] == s;
  }

  /** The strings, quoted, with a blank between them. */
  function Line(list: seq<string>): string
    requires forall i :: 0 <= i < |list| ==> Bytes(list[i])
  {
    if list == [] then "" else Repr(list[0]) + (if |list| == 1 then "" else " " + Line(list[1..]))
  }

  /** sdssplitargs undoes sdscatrepr: any strings come back from the line of their quotations. */
  lemma {:induction false} LineSplits(list: seq<string>)
    requires forall i :: 0 <= i < |list| ==> Bytes(list[i])
    ensures SplitArgs(Line(list)) == Some(list)
  {
    hide Repr;
    if list != [] {
      var more := if |list| == 1 then "" else " " + Line(list[1..]);
      LineSplits(list[1..]);
      SplitQuoted(list[0], more);
      SkipBlank(Line(list[1..]));
      assert list == [list[0]] + list[1..];
    }
  }

  lemma SkipBlank(s: string)
    ensures SplitArgs(" " + s) == SplitArgs(s)
  {
    assert (" " + s)[1..] == s;
  }

  // ----- Single quotes ------------------------------------------------------------------------

  /** Between single quotes only a quote needs a backslash. */
  function SingleBody(s: string): string {
    if s == "" then "" else (if s[0] == '\'' then "\\'" else [s[0]]) + SingleBody(s[1..])
  }

  lemma {:induction false} LexSingle(s: string, rest: string, arg: string)
    requires '\\' !in s
    ensures Lex(SingleBody(s) + rest, Single, arg) == Lex(rest, Single, arg + s)
  {
    if s == "" {
      assert SingleBody(s) + rest == rest && arg + s == arg;
    } else {
      var q := if s[0] == '\'' then "\\'" else [s[0]];
      var r := SingleBody(s[1..]) + rest;
      assert SingleBody(s) + rest == q + r;
      assert (q + r)[|q|..] == r;
      assert Lex(q + r, Single, arg) == Lex(r, Single, arg + [s[0]]);
      LexSingle(s[1..], rest, arg + [s[0]]);
      assert arg + [s[0]] + s[1..] == arg + s;
    }
  }

  /** A string without backslashes comes back from single quotes, which must be closed and be
      followed by white space. */
  lemma SingleQuoted(s: string, rest: string)
    requires '\\' !in s
    ensures Lex(SingleBody(s) + ("'" + rest), Single, "") ==
      if rest != "" && !IsSpace(rest[0]) then None else Some(Piece(s, rest))
    ensures Lex(SingleBody(s), Single, "") == None
  {
    hide SingleBody;
    LexSingle(s, "'" + rest, "");
    LexSingle(s, "", "");
    assert SingleBody(s) + "" == SingleBody(s) && "" + s == s;
    assert ("'" + rest)[1..] == rest;
  }
}
