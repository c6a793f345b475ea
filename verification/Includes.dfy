/** Which words the scanner looks up, said without its column count: whether a directive is open
    follows from the text between two words.  From it follow when the names in an `#include` line
    are hidden, and when they are not. */
module Includes {
  import opened CStrings
  import opened Lists
  import opened Tokens
  import opened Lexing
  import opened CodeStream

  /** The number of characters before the first word. */
  function Gap(t: string): (n: nat)
    ensures n <= |t| && (n < |t| ==> IsIdStart(t[n]))
  {
    if t == "" || IsIdStart(t[0]) then 0 else 1 + Gap(t[1..])
  }

  /** What stands behind the last newline. */
  function LastOf(g: string): string {
    if '\n' in g then LastOf(g[1..]) else g
  }

  /** A directive is open behind the text `g` between two words: `g` holds no newline and one was open
      before, or the last line of `g` begins with `#`. */
  predicate Opens(pp: bool, g: string) {
    if '\n' in g then LastOf(g) != "" && LastOf(g)[0] == '#' else pp
  }

  /** The text between two words, with a newline in front at the start of a line. */
  function Between(start: bool, g: string): string {
    if start then "\n" + g else g
  }

  /** The lookups, by words and the text between them; `start` at the start of a line. */
  function Lookups(t: string, start: bool, pp: bool): List<Use>
    decreases |t|, 0
  {
    var n := Gap(t);
    if n == |t| then Nil
    else FromWord(t[n..][..IdLen(t[n..])], DropWord(t[n..]), Opens(pp, Between(start, t[..n])))
  }

  /** From the word `name` on, with `u` behind it: the rest of an `#include` line is skipped. */
  function FromWord(name: string, u: string, open: bool): List<Use>
    decreases |u|, 1
  {
    if !(open && name == "include") then Cons(Use(name, ParenFollows(u), 0), Lookups(AfterLookahead(u), false, open))
    else
      match DropLine(AfterLookahead(u))
      case None => Nil
      case Some(below) => Cons(Use(name, ParenFollows(u), 0), Lookups(below, true, false))
  }

  lemma {:induction false} LastOfMore(x: string, g: string)
    requires '\n' in g
    ensures '\n' in x + g && LastOf(x + g) == LastOf(g)
  {
    assert (x + g)[|x|..] == g;
    if x == "" {
      assert x + g == g;
    } else {
      assert (x + g)[1..] == x[1..] + g;
      LastOfMore(x[1..], g);
    }
  }

  lemma LastOfLine(x: string, g: string)
    requires '\n' !in g
    ensures '\n' in x + "\n" + g && LastOf(x + "\n" + g) == g
  {
    assert x + "\n" + g == x + ("\n" + g) && ("\n" + g)[0] == '\n' && ("\n" + g)[1..] == g;
    LastOfMore(x, "\n" + g);
  }

  lemma OpensBehind(pp: bool, x: string, g: string)
    ensures Opens(pp, x + "\n" + g) <==> Opens(false, "\n" + g)
  {
    assert x + "\n" + g == x + ("\n" + g) && ("\n" + g)[0] == '\n';
    LastOfMore(x, "\n" + g);
  }

  /** One character between words: of the column count no more matters than whether it begins a line. */
  lemma OpensStep(start: bool, pp: bool, c: char, g: string)
    requires start ==> !pp
    ensures Opens(pp, Between(start, [c] + g))
       <==> Opens((c != '\n' && pp) || (start && c == '#'), Between(c == '\n', g))
  {
    var x := Between(start, "");
    assert Between(start, [c] + g) == x + [c] + g;
    if c == '\n' {
      OpensBehind(pp, x, g);
    } else if '\n' in g {
      LastOfMore(x + [c], g);
    } else if start {
      LastOfLine("", [c] + g);
      assert "" + "\n" + ([c] + g) == x + [c] + g;
    }
  }

  lemma LookupsStep(t: string, start: bool, pp: bool)
    requires t != "" && !IsIdStart(t[0]) && (start ==> !pp)
    ensures Lookups(t, start, pp) == Lookups(t[1..], t[0] == '\n', (t[0] != '\n' && pp) || (start && t[0] == '#'))
  {
    var n := Gap(t);
    OpensStep(start, pp, t[0], t[1..][..n - 1]);
    assert t[..n] == [t[0]] + t[1..][..n - 1] && t[n..] == t[1..][n - 1..];
  }

  lemma LookupsNone()
    ensures Lookups("", false, false) == Nil && Lookups("", false, true) == Nil
  {}

  lemma LookupsWord(t: string, start: bool, pp: bool)
    requires t != "" && IsIdStart(t[0]) && (start ==> !pp)
    ensures Lookups(t, start, pp) == FromWord(t[..IdLen(t)], DropWord(t), pp)
  {
    assert t[0..] == t && t[..0] == "";
    assert start ==> Between(start, "") == "" + "\n" + "";
    if start {
      LastOfLine("", "");
    }
  }

  /** The scanner with its line and column count looks up what `Lookups` says. */
  lemma {:induction false} ScanIsLookups(t: string, lnr: nat, col: nat, pp: bool)
    requires col == 0 ==> !pp
    ensures Unnumbered(Scan(t, lnr, col, pp)) == Lookups(t, col == 0, pp)
    decreases |t|
  {
    if t != "" {
      var c := t[0];
      var lnr' := if c == '\n' then lnr + 1 else lnr;
      var col' := if c == '\n' then 0 else col + 1;
      var pp' := (c != '\n' && pp) || (col' == 1 && c == '#');
      if !IsIdStart(c) {
        LookupsStep(t, col == 0, pp);
        ScanIsLookups(t[1..], lnr', col', pp');
      } else {
        LookupsWord(t, col == 0, pp);
        ScanWordIsLookups(t, lnr', col', pp');
      }
    }
  }

  lemma {:induction false} ScanWordIsLookups(t: string, lnr: nat, col: nat, pp: bool)
    requires t != "" && IsIdStart(t[0]) && col > 0
    ensures Unnumbered(ScanWord(t, lnr, col, pp)) == Lookups(t, false, pp)
    decreases |t|, 0
  {
    if pp && t[..IdLen(t)] == "include" {
      var m := DropLine(AfterLookahead(DropWord(t)));
      if m.Some? {
        ScanIsLookups(m.value, lnr + 2, 0, false);
      }
      IncludeAgrees(t, lnr, col);
    } else {
      var rest, col' := PlainReads(t, lnr, col, pp);
      ScanIsLookups(rest, lnr, col', pp);
      PlainAgrees(t, lnr, col, pp, rest, col');
    }
  }

  lemma IncludeAgrees(t: string, lnr: nat, col: nat)
    requires t != "" && IsIdStart(t[0]) && t[..IdLen(t)] == "include"
    requires var m := DropLine(AfterLookahead(DropWord(t)));
      m.Some? ==> Unnumbered(Scan(m.value, lnr + 2, 0, false)) == Lookups(m.value, true, false)
    ensures Unnumbered(ScanWord(t, lnr, col, true)) == Lookups(t, false, true)
  {
    LookupsWord(t, false, true);
    IncludeReads(t, lnr, col);
  }

  lemma PlainReads(t: string, lnr: nat, col: nat, pp: bool) returns (rest: string, col': nat)
    requires t != "" && IsIdStart(t[0]) && col > 0 && !(pp && t[..IdLen(t)] == "include")
    ensures rest == AfterLookahead(DropWord(t)) && |rest| < |t| && col' > 0
    ensures ScanWord(t, lnr, col, pp) ==
      Cons(Use(t[..IdLen(t)], ParenFollows(DropWord(t)), lnr), Scan(rest, lnr, col', pp))
  {
    rest, col' := AfterLookahead(DropWord(t)), col + IdLen(t) - 1 + SpaceLen(DropWord(t));
    assert Scan("", lnr, col', pp) == Nil;
  }

  lemma PlainAgrees(t: string, lnr: nat, col: nat, pp: bool, rest: string, col': nat)
    requires t != "" && IsIdStart(t[0]) && !(pp && t[..IdLen(t)] == "include")
    requires rest == AfterLookahead(DropWord(t)) && Unnumbered(Scan(rest, lnr, col', pp)) == Lookups(rest, false, pp)
    requires ScanWord(t, lnr, col, pp) ==
      Cons(Use(t[..IdLen(t)], ParenFollows(DropWord(t)), lnr), Scan(rest, lnr, col', pp))
    ensures Unnumbered(ScanWord(t, lnr, col, pp)) == Lookups(t, false, pp)
  {
    LookupsWord(t, false, pp);
  }

  // ---- An `#include` line

  lemma {:induction false} GapAt(a: string, w: string)
    requires (forall k :: 0 <= k < |a| ==> !IsIdStart(a[k])) && w != "" && IsIdStart(w[0])
    ensures Gap(a + w) == |a| && (a + w)[..|a|] == a && (a + w)[|a|..] == w
  {
    if a == "" {
      assert a + w == w;
    } else {
      assert (a + w)[1..] == a[1..] + w;
      GapAt(a[1..], w);
    }
  }

  lemma {:induction false} WordAtHead(name: string, tail: string)
    requires (forall k :: 0 <= k < |name| ==> IsIdChar(name[k])) && (tail != "" ==> !IsIdChar(tail[0]))
    ensures IdLen(name + tail) == |name| && (name + tail)[..|name|] == name && DropWord(name + tail) == tail
  {
    if name == "" {
      assert name + tail == tail;
    } else {
      assert (name + tail)[1..] == name[1..] + tail;
      WordAtHead(name[1..], tail);
    }
  }

  lemma {:induction false} DropSpacesMore(b: string, x: string)
    ensures DropSpaces(b + x) == if DropSpaces(b) == "" then DropSpaces(x) else DropSpaces(b) + x
  {
    if b == "" {
      assert b + x == x;
    } else if IsSpace(b[0]) {
      assert (b + x)[1..] == b[1..] + x;
      DropSpacesMore(b[1..], x);
    }
  }

  lemma TailMore(d: string, x: string)
    requires d != ""
    ensures (d + x)[0] == d[0] && (d + x)[1..] == d[1..] + x
  {}

  /** The lookahead of a word does not reach beyond the first character that is no white space. */
  lemma LookaheadMore(b: string, x: string)
    requires DropSpaces(b) != ""
    ensures AfterLookahead(b + x) == AfterLookahead(b) + x && ParenFollows(b + x) == ParenFollows(b)
  {
    DropSpacesMore(b, x);
    TailMore(DropSpaces(b), x);
  }

  lemma LookaheadBlank(b: string, x: string)
    requires DropSpaces(b) == ""
    ensures AfterLookahead(b + x) == AfterLookahead(x) && ParenFollows(b + x) == ParenFollows(x)
  {
    DropSpacesMore(b, x);
  }

  lemma {:induction false} DropLineAt(y: string, rest: string)
    requires '\n' !in y
    ensures DropLine(y + "\n" + rest) == Some(rest)
  {
    var t := y + "\n" + rest;
    if y == "" {
      assert t[1..] == rest;
    } else {
      assert t[1..] == y[1..] + "\n" + rest && t[0] == y[0];
      DropLineAt(y[1..], rest);
    }
  }

  lemma {:induction false} DropSpacesWithin(b: string, c: char)
    requires c !in b
    ensures c !in DropSpaces(b)
  {
    if b != "" && IsSpace(b[0]) {
      DropSpacesWithin(b[1..], c);
    }
  }

  lemma LookaheadWithin(b: string, c: char)
    requires c !in b
    ensures c !in AfterLookahead(b)
  {
    DropSpacesWithin(b, c);
  }

  lemma LookaheadInLine(x: string, rest: string)
    requires '\n' !in x && DropSpaces(x) != ""
    ensures var w := x + "\n" + rest; ParenFollows(w) == ParenFollows(x) && DropLine(AfterLookahead(w)) == Some(rest)
  {
    assert x + "\n" + rest == x + ("\n" + rest);
    assert AfterLookahead(x) + "\n" + rest == AfterLookahead(x) + ("\n" + rest);
    LookaheadMore(x, "\n" + rest);
    LookaheadWithin(x, '\n');
    DropLineAt(AfterLookahead(x), rest);
  }

  lemma LookaheadOver(b: string, below: string)
    requires DropSpaces(b) == ""
    ensures var w := b + "\n" + below;
      ParenFollows(w) == ParenFollows(below) && AfterLookahead(w) == AfterLookahead(below)
  {
    assert b + "\n" + below == b + ("\n" + below);
    LookaheadBlank(b, "\n" + below);
    LookaheadBlank("\n", below);
  }

  /** What may stand before and behind the word `include` of one line. */
  ghost predicate IncludeParts(a: string, b: string) {
    && '\n' !in a && (forall k :: 0 <= k < |a| ==> !IsIdStart(a[k]))
    && '\n' !in b && (b != "" ==> !IsIdChar(b[0]))
  }

  function IncludeLine(a: string, b: string, rest: string): string {
    a + ("include" + (b + "\n" + rest))
  }

  /** The first lookup where the first word of a line is `include`. */
  lemma IncludeFirst(a: string, w: string, pp: bool)
    requires '\n' !in a && (forall k :: 0 <= k < |a| ==> !IsIdStart(a[k])) && (w != "" ==> !IsIdChar(w[0]))
    ensures Lookups(a + ("include" + w), true, pp) == FromWord("include", w, a != "" && a[0] == '#')
  {
    GapAt(a, "include" + w);
    WordAtHead("include", w);
    LastOfLine("", a);
    assert Between(true, a) == "" + "\n" + a;
  }

  /** A line whose first word is `include`, where the scanner is at its start.  Behind a `#` in the
      first column the rest of the line is skipped, once something stands on it. */
  lemma IncludeSkips(a: string, b: string, rest: string, pp: bool)
    requires IncludeParts(a, b) && a != "" && a[0] == '#' && DropSpaces(b) != ""
    ensures Lookups(IncludeLine(a, b, rest), true, pp)
         == Cons(Use("include", ParenFollows(b), 0), Lookups(rest, true, false))
  {
    IncludeFirst(a, b + "\n" + rest, pp);
    LookaheadInLine(b, rest);
  }

  /** If nothing but white space stands behind it, the next line on which something stands is skipped
      instead. */
  lemma BareIncludeSkips(b: string, a: string, x: string, rest: string, pp: bool)
    requires IncludeParts(a, b) && a != "" && a[0] == '#' && DropSpaces(b) == ""
    requires '\n' !in x && DropSpaces(x) != ""
    ensures Lookups(IncludeLine(a, b, x + "\n" + rest), true, pp)
         == Cons(Use("include", ParenFollows(x), 0), Lookups(rest, true, false))
  {
    IncludeFirst(a, b + "\n" + (x + "\n" + rest), pp);
    LookaheadOver(b, x + "\n" + rest);
    LookaheadInLine(x, rest);
  }

  /** Where no `#` stands in the first column, it is a word like any other. */
  lemma IncludeIsWord(a: string, b: string, rest: string, pp: bool)
    requires IncludeParts(a, b) && !(a != "" && a[0] == '#')
    ensures var w := b + "\n" + rest;
      Lookups(IncludeLine(a, b, rest), true, pp)
        == Cons(Use("include", ParenFollows(w), 0), Lookups(AfterLookahead(w), false, false))
  {
    IncludeFirst(a, b + "\n" + rest, pp);
  }

  // ---- What stands before the line

  /** How the scanner leaves a text that ends with a newline: at the start of a line, or reading the
      white space behind a word, with a directive open or not, or behind an `include` to be skipped. */
  datatype Leave = AtLine | AtWord(open: bool) | AtInclude

  function Leaves(t: string, start: bool, pp: bool): Leave
    decreases |t|, 0
  {
    var n := Gap(t);
    if n == |t| then AtLine
    else LeavesWord(t[n..][..IdLen(t[n..])], DropWord(t[n..]), Opens(pp, Between(start, t[..n])))
  }

  function LeavesWord(name: string, u: string, open: bool): Leave
    decreases |u|, 1
  {
    var skips := open && name == "include";
    if DropSpaces(u) == "" then (if skips then AtInclude else AtWord(open))
    else if !skips then Leaves(AfterLookahead(u), false, open)
    else
      match DropLine(AfterLookahead(u))
      case None => AtLine
      case Some(below) => Leaves(below, true, false)
  }

  /** The lookups in `s` from there on.  Behind a word the first character is taken for its lookahead. */
  function Resume(l: Leave, s: string): List<Use>
    requires s != ""
  {
    match l
    case AtLine => Lookups(s, true, false)
    case AtWord(open) => Lookups(s[1..], false, open)
    case AtInclude =>
      match DropLine(s[1..])
      case None => Nil
      case Some(below) => Cons(Use("include", false, 0), Lookups(below, true, false))
  }

  predicate EndsLine(t: string) {
    t != "" && t[|t| - 1] == '\n'
  }

  /** A character that is neither white space nor part of a word, nor makes a call of one. */
  predicate Solid(c: char) {
    !IsSpace(c) && !IsIdChar(c) && c != '('
  }

  lemma {:induction false} WordMore(t: string, s: string)
    requires EndsLine(t)
    ensures IdLen(t + s) == IdLen(t) < |t| && DropWord(t + s) == DropWord(t) + s && EndsLine(DropWord(t))
  {
    if IsIdChar(t[0]) {
      assert (t + s)[1..] == t[1..] + s;
      WordMore(t[1..], s);
    }
  }

  lemma {:induction false} EndsBehindSpaces(u: string)
    requires EndsLine(u) && DropSpaces(u) != ""
    ensures EndsLine(DropSpaces(u)) && EndsLine(AfterLookahead(u))
  {
    if IsSpace(u[0]) {
      EndsBehindSpaces(u[1..]);
    } else {
      assert |u| > 1;
    }
  }

  lemma {:induction false} DropLineMore(x: string, s: string)
    requires EndsLine(x)
    ensures var m := DropLine(x);
      m.Some? && DropLine(x + s) == Some(m.value + s) && |m.value| < |x| && (m.value == "" || EndsLine(m.value))
  {
    assert (x + s)[1..] == x[1..] + s;
    if x[0] != '\n' {
      DropLineMore(x[1..], s);
    }
  }

  lemma {:induction false} GapMore(t: string, s: string)
    ensures Gap(t) == |t| ==> Gap(t + s) == |t| + Gap(s)
    ensures Gap(t) < |t| ==> Gap(t + s) == Gap(t)
  {
    if t == "" {
      assert t + s == s;
    } else {
      assert (t + s)[1..] == t[1..] + s;
      GapMore(t[1..], s);
    }
  }

  lemma OpensAtLine(t: string, g: string, start: bool, pp: bool)
    requires if t == "" then start else EndsLine(t)
    ensures Opens(pp, Between(start, t + g)) <==> Opens(false, Between(true, g))
  {
    if t == "" {
      assert Between(start, t + g) == "" + "\n" + g;
      OpensBehind(pp, "", g);
    } else {
      var x := Between(start, t[..|t| - 1]);
      assert Between(start, t + g) == x + "\n" + g;
      OpensBehind(pp, x, g);
    }
  }

  /** The lookups of two texts whose words are the same, with a directive open in both or in none. */
  lemma SameWords(x: string, y: string, start: bool, start': bool, pp: bool, pp': bool)
    requires x[Gap(x)..] == y[Gap(y)..]
    requires Opens(pp, Between(start, x[..Gap(x)])) == Opens(pp', Between(start', y[..Gap(y)]))
    ensures Lookups(x, start, pp) == Lookups(y, start', pp')
  {
    assert Gap(x) == |x| <==> x[Gap(x)..] == "";
    assert Gap(y) == |y| <==> y[Gap(y)..] == "";
  }

  lemma SplitGap(t: string, s: string, start: bool, pp: bool)
    requires Gap(t) == |t| && (if t == "" then start else EndsLine(t))
    ensures Lookups(t + s, start, pp) == Lookups(s, true, false)
  {
    GapMore(t, s);
    WithGap(t, s, Gap(s));
    OpensAtLine(t, s[..Gap(s)], start, pp);
    SameWords(t + s, s, start, true, pp, false);
  }

  lemma WithGap(t: string, s: string, n: nat)
    requires n <= |s|
    ensures (t + s)[..|t| + n] == t + s[..n] && (t + s)[|t| + n..] == s[n..]
  {}

  lemma SplitWord(t: string, s: string, start: bool, pp: bool) returns (name: string, u: string, open: bool)
    requires Gap(t) < |t| && EndsLine(t)
    ensures EndsLine(u) && |u| < |t|
    ensures Lookups(t, start, pp) == FromWord(name, u, open) && Leaves(t, start, pp) == LeavesWord(name, u, open)
    ensures Lookups(t + s, start, pp) == FromWord(name, u + s, open)
  {
    GapMore(t, s);
    var n := Gap(t);
    assert (t + s)[n..] == t[n..] + s && (t + s)[..n] == t[..n];
    WordMore(t[n..], s);
    name, u, open := t[n..][..IdLen(t[n..])], DropWord(t[n..]), Opens(pp, Between(start, t[..n]));
    assert (t[n..] + s)[..IdLen(t[n..])] == name;
  }

  lemma LookaheadSplit(u: string, s: string)
    requires EndsLine(u) && s != "" && Solid(s[0])
    ensures DropSpaces(u) == "" ==>
      AfterLookahead(u) == "" && AfterLookahead(u + s) == s[1..] && !ParenFollows(u) && !ParenFollows(u + s)
    ensures DropSpaces(u) != "" ==>
      && AfterLookahead(u + s) == AfterLookahead(u) + s && EndsLine(AfterLookahead(u))
      && ParenFollows(u + s) == ParenFollows(u)
  {
    if DropSpaces(u) == "" {
      LookaheadBlank(u, s);
    } else {
      LookaheadMore(u, s);
      EndsBehindSpaces(u);
    }
  }

  /** The lookups of a text are those before the end of a line and those from there on. */
  lemma {:induction false} LookupsSplit(t: string, s: string, start: bool, pp: bool)
    requires (if t == "" then start else EndsLine(t)) && s != "" && Solid(s[0])
    ensures Lookups(t + s, start, pp) == Lookups(t, start, pp).Plus(Resume(Leaves(t, start, pp), s))
    decreases |t|, 0
  {
    if Gap(t) == |t| {
      SplitGap(t, s, start, pp);
    } else {
      var name, u, open := SplitWord(t, s, start, pp);
      FromWordSplit(name, u, s, open);
    }
  }

  lemma {:induction false} FromWordSplit(name: string, u: string, s: string, open: bool)
    requires EndsLine(u) && s != "" && Solid(s[0])
    ensures FromWord(name, u + s, open) == FromWord(name, u, open).Plus(Resume(LeavesWord(name, u, open), s))
    decreases |u|, 1
  {
    LookaheadSplit(u, s);
    if DropSpaces(u) == "" {
      LookupsNone();
    } else if open && name == "include" {
      DropLineMore(AfterLookahead(u), s);
      LookupsSplit(DropLine(AfterLookahead(u)).value, s, true, false);
    } else {
      LookupsSplit(AfterLookahead(u), s, false, open);
    }
  }

  // ---- An `#include` line in a text

  /** The lookups of a whole code stream. */
  function Words(t: string): List<Use> {
    Lookups(t, true, false)
  }

  /** An `#include` line in a text.  Where the scanner is at its start, or comes from a word with a
      directive open, or from an `include` that still skips a line, nothing of `b` is looked up. */
  lemma IncludeInText(p: string, a: string, b: string, rest: string)
    requires (p == "" || EndsLine(p)) && IncludeParts(a, b) && DropSpaces(b) != ""
    ensures var t, w := p + ("#" + IncludeLine(a, b, rest)), b + "\n" + rest;
      match Leaves(p, true, false)
      case AtWord(false) =>
        Words(t) == Words(p).Plus(Cons(Use("include", ParenFollows(b), 0), Lookups(AfterLookahead(w), false, false)))
      case AtInclude => Words(t) == Words(p).Plus(Cons(Use("include", false, 0), Words(rest)))
      case _ => Words(t) == Words(p).Plus(Cons(Use("include", ParenFollows(b), 0), Words(rest)))
  {
    var s := "#" + IncludeLine(a, b, rest);
    LookupsSplit(p, s, true, false);
    assert s[1..] == IncludeLine(a, b, rest);
    match Leaves(p, true, false)
    case AtLine => HashAtStart(a, b, rest);
    case AtWord(open) => IncludeAfter(a, b, rest, open);
    case AtInclude => LineSkipped(a, b, rest);
  }

  lemma HashAtStart(a: string, b: string, rest: string)
    requires IncludeParts(a, b) && DropSpaces(b) != ""
    ensures Words("#" + IncludeLine(a, b, rest)) == Cons(Use("include", ParenFollows(b), 0), Words(rest))
  {
    assert "#" + IncludeLine(a, b, rest) == IncludeLine("#" + a, b, rest);
    IncludeSkips("#" + a, b, rest, false);
  }

  lemma IncludeAfter(a: string, b: string, rest: string, open: bool)
    requires IncludeParts(a, b) && DropSpaces(b) != ""
    ensures Lookups(IncludeLine(a, b, rest), false, open) ==
      Cons(Use("include", ParenFollows(b), 0),
           if open then Words(rest) else Lookups(AfterLookahead(b + "\n" + rest), false, false))
  {
    GapAt(a, "include" + (b + "\n" + rest));
    WordAtHead("include", b + "\n" + rest);
    LookaheadInLine(b, rest);
  }

  lemma LineSkipped(a: string, b: string, rest: string)
    requires IncludeParts(a, b)
    ensures DropLine(IncludeLine(a, b, rest)) == Some(rest)
  {
    assert IncludeLine(a, b, rest) == (a + "include" + b) + "\n" + rest;
    assert '\n' !in "include";
    DropLineAt(a + "include" + b, rest);
  }

  /** Two ends of an `#include` line that are told apart by nothing but the names in them. */
  ghost predicate LikeEnds(a: string, b: string, b': string) {
    && IncludeParts(a, b) && IncludeParts(a, b') && DropSpaces(b) != "" && DropSpaces(b') != ""
    && ParenFollows(b) == ParenFollows(b')
  }

  /** Whatever stands in an `#include` line behind `p` is hidden. */
  ghost predicate Hides(p: string) {
    forall a, b, b', rest :: LikeEnds(a, b, b') ==>
      Words(p + ("#" + IncludeLine(a, b, rest))) == Words(p + ("#" + IncludeLine(a, b', rest)))
  }

  /** It is hidden exactly if the text before does not end with a word with no directive open. */
  lemma HidesExact(p: string)
    requires p == "" || EndsLine(p)
    ensures Hides(p) <==> Leaves(p, true, false) != AtWord(false)
  {
    if Leaves(p, true, false) == AtWord(false) {
      NotHidden(p);
    } else {
      forall a, b, b', rest | LikeEnds(a, b, b')
        ensures Words(p + ("#" + IncludeLine(a, b, rest))) == Words(p + ("#" + IncludeLine(a, b', rest)))
      {
        IncludeInText(p, a, b, rest);
        IncludeInText(p, a, b', rest);
      }
    }
  }

  /** Behind a word, the `#` is taken for the lookahead of the word, and the name `e` is looked up. */
  lemma NotHidden(p: string)
    requires (p == "" || EndsLine(p)) && Leaves(p, true, false) == AtWord(false)
    ensures !Hides(p)
  {
    var b, b' := " <e>", " <>";
    assert LikeEnds("", b, b');
    IncludeInText(p, "", b, "");
    IncludeInText(p, "", b', "");
    NameRead();
    NoneRead();
    Words(p).PlusLength(Cons(Use("include", false, 0), Cons(Use("e", false, 0), Nil)));
    Words(p).PlusLength(Cons(Use("include", false, 0), Nil));
  }

  lemma LookaheadAt(c: char, x: string)
    requires !IsSpace(c) && !IsIdStart(c)
    ensures AfterLookahead([c] + x) == x && (ParenFollows([c] + x) <==> c == '(')
  {
    assert ([c] + x)[1..] == x;
  }

  lemma {:induction false} NoWord(t: string, start: bool, pp: bool)
    requires forall k :: 0 <= k < |t| ==> !IsIdStart(t[k])
    ensures Gap(t) == |t| && Lookups(t, start, pp) == Nil
  {
    if t != "" {
      NoWord(t[1..], start, pp);
    }
  }

  lemma Bracket(x: string)
    ensures AfterLookahead(" <" + x) == x
  {
    assert " <" + x == " " + (['<'] + x);
    LookaheadBlank(" ", ['<'] + x);
    LookaheadAt('<', x);
  }

  lemma NameRead()
    ensures Lookups(AfterLookahead(" <e>" + "\n" + ""), false, false) == Cons(Use("e", false, 0), Nil)
  {
    assert " <e>" + "\n" + "" == " <" + ("e" + (['>'] + "\n"));
    Bracket("e" + (['>'] + "\n"));
    WordAtHead("e", ['>'] + "\n");
    LookupsWord("e" + (['>'] + "\n"), false, false);
    LookaheadAt('>', "\n");
    NoWord("\n", false, false);
  }

  lemma NoneRead()
    ensures Lookups(AfterLookahead(" <>" + "\n" + ""), false, false) == Nil
  {
    assert " <>" + "\n" + "" == " <" + ">\n";
    Bracket(">\n");
    NoWord(">\n", false, false);
  }

  // ---- Texts behind which nothing is lost

  /** Behind every character of a word stands one that is neither white space nor of a word. */
  ghost predicate Closed(t: string) {
    forall i :: 0 <= i < |t| && IsIdChar(t[i]) ==> exists j :: i < j < |t| && !IsIdChar(t[j]) && !IsSpace(t[j])
  }

  lemma ClosedTail(t: string, k: nat)
    requires Closed(t) && k <= |t|
    ensures Closed(t[k..])
  {
    forall i | 0 <= i < |t[k..]| && IsIdChar(t[k..][i])
      ensures exists j :: i < j < |t[k..]| && !IsIdChar(t[k..][j]) && !IsSpace(t[k..][j])
    {
      assert IsIdChar(t[k + i]);
      var j :| k + i < j < |t| && !IsIdChar(t[j]) && !IsSpace(t[j]);
      assert t[k..][j - k] == t[j];
    }
  }

  /** Behind such a text the scanner is always at the start of a line. */
  lemma {:induction false} ClosedLeaves(t: string, start: bool, pp: bool)
    requires Closed(t)
    ensures Leaves(t, start, pp) == AtLine
    decreases |t|, 0
  {
    var n := Gap(t);
    if n < |t| {
      var s := t[n..];
      ClosedTail(t, n);
      ClosedWord(s);
      WordSplits(s);
      ClosedTail(s, IdLen(s));
      ClosedWordLeaves(s[..IdLen(s)], DropWord(s), Opens(pp, Between(start, t[..n])));
    }
  }

  lemma ClosedWord(s: string)
    requires Closed(s) && s != "" && IsIdChar(s[0])
    ensures DropSpaces(DropWord(s)) != ""
  {
    var u := DropWord(s);
    var j :| 0 < j < |s| && !IsIdChar(s[j]) && !IsSpace(s[j]);
    WordSplits(s);
    SpacesSplit(u);
    IdLenSpan(s, 0);
    assert s[0..] == s && s[j] == u[j - IdLen(s)];
  }

  lemma {:induction false} ClosedWordLeaves(name: string, u: string, open: bool)
    requires Closed(u) && DropSpaces(u) != ""
    ensures LeavesWord(name, u, open) == AtLine
    decreases |u|, 1
  {
    var r := AfterLookahead(u);
    SpacesSplit(u);
    assert r == u[|u| - |r|..];
    ClosedTail(u, |u| - |r|);
    if !(open && name == "include") {
      ClosedLeaves(r, false, open);
    } else if DropLine(r).Some? {
      DropLineExact(r);
      ClosedTail(r, LineEnd(r) + 1);
      ClosedLeaves(DropLine(r).value, true, false);
    }
  }

  // ---- In source texts

  /** Text before which the scanner is in code and at the start of a line. */
  ghost predicate BeforeLine(p: string) {
    && RunState(Start, p) == Start
    && (CodeOf(p) == "" || EndsLine(CodeOf(p))) && Leaves(CodeOf(p), true, false) == AtLine
  }

  lemma CodeOfHidden(p: string, x: string, h: Hidden, y: string, rest: string)
    requires RunState(Start, p) == Start && Plain(x) && h.WellFormed() && Plain(y)
    ensures CodeOf(p + (x + h.Text() + (y + rest))) == CodeOf(p) + (x + (y + CodeOf(rest)))
  {
    PlainIsCode(x);
    PlainIsCode(y);
    CodeOfConcat(y, rest);
    CodeOfConcat(p, x + h.Text() + (y + rest));
    HiddenContributesNothing(x, h, y + rest);
  }

  /** A quoted header name is hidden as a string, so that nothing stands behind the word `include`:
      the next line is skipped. */
  lemma QuotedIncludeSkipsNext(p: string, h: string, x: string, rest: string)
    requires BeforeLine(p) && Escaped(h, '"') && Plain(x) && '\n' !in x && DropSpaces(x) != ""
    ensures Words(CodeOf(p + ("#include " + StringLiteral(h).Text() + ("\n" + x + "\n" + rest))))
         == Words(CodeOf(p)).Plus(Cons(Use("include", ParenFollows(x), 0), Words(CodeOf(rest))))
  {
    LinePlain(x);
    CodeOfHidden(p, "#include ", StringLiteral(h), "\n" + x + "\n", rest);
    BareText(x, CodeOf(rest));
    LookupsSplit(CodeOf(p), "#include " + (("\n" + x + "\n") + CodeOf(rest)), true, false);
  }

  lemma LinePlain(x: string)
    requires Plain(x)
    ensures Plain("\n" + x + "\n")
  {
    var t := "\n" + x + "\n";
    assert forall i :: 0 < i < |t| - 1 ==> t[i] == x[i - 1];
  }

  lemma BareText(x: string, rest: string)
    requires '\n' !in x && DropSpaces(x) != ""
    ensures Words("#include " + (("\n" + x + "\n") + rest)) == Cons(Use("include", ParenFollows(x), 0), Words(rest))
  {
    BareLine(x, rest);
    BareIncludeSkips(" ", "#", x, rest, false);
  }

  lemma BareLine(x: string, rest: string)
    ensures "#include " + (("\n" + x + "\n") + rest) == IncludeLine("#", " ", x + "\n" + rest)
  {
    assert "#include " == "#" + "include" + " ";
    assert ("\n" + x + "\n") + rest == "\n" + (x + "\n" + rest);
  }

  /** The newline behind a line comment is hidden, and a `#` below it is in no first column: the names in
      the `#include` line are looked up. */
  lemma CommentShowsInclude(a: string, c: string, b: string, rest: string)
    requires Plain(a) && a != "" && a[0] != '#' && '\n' !in c
    requires IncludeParts(a + "#", b) && Plain("#include" + b + "\n")
    ensures Words(CodeOf(a + LineComment(c).Text() + ("#include" + b + "\n" + rest)))
         == Cons(Use("include", ParenFollows(b + "\n" + CodeOf(rest)), 0),
                 Lookups(AfterLookahead(b + "\n" + CodeOf(rest)), false, false))
  {
    CodeOfHidden("", a, LineComment(c), "#include" + b + "\n", rest);
    JoinedText(a, LineComment(c).Text(), b, rest);
    JoinedLine(a, b, CodeOf(rest));
    IncludeIsWord(a + "#", b, CodeOf(rest), false);
  }

  lemma JoinedText(a: string, h: string, b: string, rest: string)
    ensures a + h + ("#include" + b + "\n" + rest) == "" + (a + h + (("#include" + b + "\n") + rest))
  {}

  lemma JoinedLine(a: string, b: string, rest: string)
    ensures "" + (a + (("#include" + b + "\n") + rest)) == IncludeLine(a + "#", b, rest)
  {}
}
