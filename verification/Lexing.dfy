/** The lexical classes of C source text, twice: as the character-driven machine
    of `cf_next` with one character of lookahead, and as a division of the text
    into regions.  The two agree on every text. */
module Lexing {
  import opened CStrings
  import opened Lists

  /** `enum cclass_set`; a buffered character has one class, so masks become tests for equality.
      `NoClass` is the empty mask, 0. */
  datatype CClass = NoClass | Undef | Code | OuterString | InnerString | OuterChar | InnerChar
    | OuterComment | InnerComment | EofMark | ErrMark

  /** A super-character. */
  datatype Ccl = Ccl(ccl: CClass, chr: CInt)

  /** `enum state`, without S_INCHAR, which no transition enters. */
  datatype State = Start | Dquote | DquoteEscape | Slash | SlashStar | SlashStarStar
    | Squote | SquoteEscape | CommentEol | Done

  /** What the machine emits for one character, and its next state. */
  function Step(st: State, c: char): (List<Ccl>, State)
    requires st != Done
  {
    match st
    case Start =>
      if c == '"' then (Tag1(c, OuterString), Dquote)
      else if c == '\'' then (Tag1(c, OuterChar), Squote)
      else if c == '/' then (Nil, Slash)
      else (Tag1(c, Code), Start)
    case Dquote =>
      if c == '\\' then (Tag1(c, InnerString), DquoteEscape)
      else if c == '"' then (Tag1(c, OuterString), Start)
      else (Tag1(c, InnerString), Dquote)
    case DquoteEscape => (Tag1(c, InnerString), Dquote)
    case Squote =>
      if c == '\\' then (Tag1(c, InnerChar), SquoteEscape)
      else if c == '\'' then (Tag1(c, OuterChar), Start)
      else (Tag1(c, InnerChar), Squote)
    case SquoteEscape => (Tag1(c, InnerChar), Squote)
    case Slash =>
      if c == '/' then (Tag2(c, OuterComment), CommentEol)
      else if c == '*' then (Tag2(c, OuterComment), SlashStar)
      else (Tag2(c, Code), Start)
    case SlashStar => (Tag1(c, InnerComment), if c == '*' then SlashStarStar else SlashStar)
    case SlashStarStar =>
      (Tag1(c, InnerComment), if c == '/' then Start else if c == '*' then SlashStarStar else SlashStar)
    case CommentEol => (Tag1(c, InnerComment), if c == '\n' then Start else CommentEol)
  }

  function Tag1(c: char, ccl: CClass): List<Ccl> {
    Cons(Ccl(ccl, Ch(c)), Nil)
  }

  /** The slash that was pending, and the character after it. */
  function Tag2(c: char, ccl: CClass): List<Ccl> {
    Cons(Ccl(ccl, Ch('/')), Tag1(c, ccl))
  }

  /** Everything emitted for `s`, before the end of the file is seen. */
  function Run(st: State, s: string): List<Ccl>
    requires st != Done
    decreases |s|
  {
    if s == "" then Nil else Step(st, s[0]).0.Plus(Run(Step(st, s[0]).1, s[1..]))
  }

  function RunState(st: State, s: string): (r: State)
    requires st != Done
    ensures r != Done
    decreases |s|
  {
    if s == "" then st else RunState(Step(st, s[0]).1, s[1..])
  }

  lemma {:induction false} RunConcat(st: State, s: string, t: string)
    requires st != Done
    ensures Run(st, s + t) == Run(st, s).Plus(Run(RunState(st, s), t))
    ensures RunState(st, s + t) == RunState(RunState(st, s), t)
    decreases |s|
  {
    if s == "" {
      assert s + t == t;
    } else {
      var (e, st') := Step(st, s[0]);
      assert (s + t)[1..] == s[1..] + t;
      RunConcat(st', s[1..], t);
      e.PlusAssociative(Run(st', s[1..]), Run(RunState(st, s), t));
    }
  }

  // ---- Conservation

  /** The characters of a list of super-characters. */
  function Chars(cs: List<Ccl>): List<char> {
    match cs
    case Nil => Nil
    case Cons(x, xs) => if x.chr.Ch? then Cons(x.chr.c, Chars(xs)) else Chars(xs)
  }

  lemma {:induction false} CharsPlus(a: List<Ccl>, b: List<Ccl>)
    ensures Chars(a.Plus(b)) == Chars(a).Plus(Chars(b))
  {
    if a.Cons? {
      CharsPlus(a.tail, b);
    }
  }

  function ToList(s: string): List<char> {
    if s == "" then Nil else Cons(s[0], ToList(s[1..]))
  }

  /** The character the machine is still looking at. */
  function Pending(st: State): List<char> {
    if st == Slash then Cons('/', Nil) else Nil
  }

  /** One call conserves: what was pending and what comes in is emitted or pending afterwards,
      with at most two super-characters emitted. */
  lemma StepConserves(st: State, c: char)
    requires st != Done
    ensures Chars(Step(st, c).0).Plus(Pending(Step(st, c).1)) == Pending(st).Plus(Cons(c, Nil))
    ensures Step(st, c).0.Cons? && Step(st, c).0.tail.Cons? ==> Step(st, c).0.tail.tail.Nil?
  {
    if st == Slash {
      assert Chars(Tag1(c, Code)) == Chars(Tag1(c, OuterComment)) == Cons(c, Nil);
    }
    Chars(Step(st, c).0).PlusNil();
  }

  /** A whole run loses nothing but a slash it is still looking at. */
  lemma {:induction false} RunConserves(st: State, s: string)
    requires st != Done
    ensures Chars(Run(st, s)).Plus(Pending(RunState(st, s))) == Pending(st).Plus(ToList(s))
    decreases |s|
  {
    if s == "" {
      Pending(st).PlusNil();
    } else {
      var (e, st') := Step(st, s[0]);
      var rest := Run(st', s[1..]);
      StepConserves(st, s[0]);
      RunConserves(st', s[1..]);
      CharsPlus(e, rest);
      Chars(e).PlusAssociative(Chars(rest), Pending(RunState(st, s)));
      Chars(e).PlusAssociative(Pending(st'), ToList(s[1..]));
      Pending(st).PlusAssociative(Cons(s[0], Nil), ToList(s[1..]));
    }
  }

  // ---- Regions

  /** How much of `t` belongs to a literal closed by `q`, its opening quote not included. */
  function QuoteLen(t: string, q: char): (n: nat)
    ensures n <= |t| && (t != "" ==> n > 0)
  {
    if t == "" then 0
    else if t[0] == q then 1
    else if t[0] == '\\' && |t| > 1 then 2 + QuoteLen(t[2..], q)
    else 1 + QuoteLen(t[1..], q)
  }

  /** Whether that literal is closed within `t`. */
  predicate QuoteCloses(t: string, q: char) {
    t != "" && (t[0] == q || QuoteCloses(if t[0] == '\\' && |t| > 1 then t[2..] else t[1..], q))
  }

  /** How much of `t` belongs to a block comment, its opener not included. */
  function BlockLen(t: string): (n: nat)
    ensures n <= |t|
  {
    if |t| < 2 then |t| else if t[..2] == "*/" then 2 else 1 + BlockLen(t[1..])
  }

  /** How much of `t` belongs to a line comment, its opener not included. */
  function LineLen(t: string): (n: nat)
    ensures n <= |t|
  {
    if t == "" then 0 else if t[0] == '\n' then 1 else 1 + LineLen(t[1..])
  }

  /** `t` with every character in class `ccl`. */
  function Tag(t: string, ccl: CClass): List<Ccl> {
    if t == "" then Nil else Cons(Ccl(ccl, Ch(t[0])), Tag(t[1..], ccl))
  }

  /** A literal: its quotes are outer, everything between them inner. */
  function Literal(s: string, q: char, outer: CClass, inner: CClass): (nat, List<Ccl>)
    requires s != ""
  {
    var n := QuoteLen(s[1..], q);
    if QuoteCloses(s[1..], q) then
      (1 + n, Cons(Ccl(outer, Ch(s[0])), Tag(s[1..n], inner).Plus(Tag1(q, outer))))
    else
      (1 + n, Cons(Ccl(outer, Ch(s[0])), Tag(s[1..], inner)))
  }

  /** A comment: its two opening characters are outer, everything after them, the closer
      included, is inner. */
  function Comment(s: string, n: nat): (nat, List<Ccl>)
    requires 2 + n <= |s|
  {
    (2 + n, Tag(s[..2], OuterComment).Plus(Tag(s[2..2 + n], InnerComment)))
  }

  /** The region at the head of `s`: its length, and its characters with their classes.
      A slash that starts no comment is code together with whatever follows it, and a slash
      that ends the text is never classified. */
  function Region(s: string): (r: (nat, List<Ccl>))
    requires s != ""
    ensures 0 < r.0 <= |s|
  {
    if s[0] == '"' then Literal(s, '"', OuterString, InnerString)
    else if s[0] == '\'' then Literal(s, '\'', OuterChar, InnerChar)
    else if s[0] != '/' then (1, Tag1(s[0], Code))
    else if |s| == 1 then (1, Nil)
    else if s[1] == '/' then Comment(s, LineLen(s[2..]))
    else if s[1] == '*' then Comment(s, BlockLen(s[2..]))
    else (2, Tag2(s[1], Code))
  }

  /** The whole text, region by region. */
  function Lex(s: string): List<Ccl> {
    if s == "" then Nil else Region(s).1.Plus(Lex(s[Region(s).0..]))
  }

  // ---- The machine runs through one region at a time

  /** The states inside a literal. */
  function In(q: char): State {
    if q == '"' then Dquote else Squote
  }

  function Outer(q: char): CClass {
    if q == '"' then OuterString else OuterChar
  }

  function Inner(q: char): CClass {
    if q == '"' then InnerString else InnerChar
  }

  lemma RunOne(st: State, s: string)
    requires st != Done && st != Slash && s != "" && !(st == Start && s[0] == '/')
    ensures var (e, st') := Step(st, s[0]); Run(st, s) == Cons(e.head, Run(st', s[1..]))
  {
    var (e, st') := Step(st, s[0]);
    assert e == Cons(e.head, Nil);
    assert e.tail.Plus(Run(st', s[1..])) == Run(st', s[1..]);
  }

  /** Inside a literal the machine tags everything up to the closing quote as inner, the quote
      as outer, and is back in code. */
  ghost predicate QuoteRuns(t: string, q: char) {
    var n := QuoteLen(t, q);
    if QuoteCloses(t, q) then
      n > 0 && Run(In(q), t) == Tag(t[..n - 1], Inner(q)).Plus(Cons(Ccl(Outer(q), Ch(q)), Run(Start, t[n..])))
    else
      n == |t| && Run(In(q), t) == Tag(t, Inner(q))
  }

  lemma {:induction false} RunInQuote(t: string, q: char)
    requires q == '"' || q == '\''
    ensures QuoteRuns(t, q)
    decreases |t|
  {
    if t == "" {
    } else if t[0] == q {
      RunOne(In(q), t);
      assert t[..0] == "";
    } else if t[0] == '\\' && |t| > 1 {
      RunInQuote(t[2..], q);
      EscapedPairRuns(t, q);
    } else {
      RunInQuote(t[1..], q);
      PlainCharRuns(t, q);
    }
  }

  lemma EscapedPairRuns(t: string, q: char)
    requires q == '"' || q == '\''
    requires |t| > 1 && t[0] == '\\' && QuoteRuns(t[2..], q)
    ensures QuoteRuns(t, q)
  {
    var u, n := t[2..], QuoteLen(t, q);
    RunOne(In(q), t);
    RunOne(Step(In(q), t[0]).1, t[1..]);
    assert t[1..][1..] == u;
    assert Run(In(q), t) == Cons(Ccl(Inner(q), Ch(t[0])), Cons(Ccl(Inner(q), Ch(t[1])), Run(In(q), u)));
    if QuoteCloses(t, q) {
      TagTwo(t[..n - 1], Inner(q));
      assert t[..n - 1][2..] == u[..n - 3] && t[n..] == u[n - 2..];
    } else {
      TagTwo(t, Inner(q));
    }
  }

  lemma PlainCharRuns(t: string, q: char)
    requires q == '"' || q == '\''
    requires t != "" && t[0] != q && (t[0] == '\\' ==> |t| == 1) && QuoteRuns(t[1..], q)
    ensures QuoteRuns(t, q)
  {
    var u, n := t[1..], QuoteLen(t, q);
    RunOne(In(q), t);
    if QuoteCloses(t, q) {
      assert t[..n - 1][1..] == u[..n - 2] && t[n..] == u[n - 1..];
    }
  }

  lemma TagTwo(t: string, ccl: CClass)
    requires |t| >= 2
    ensures Tag(t, ccl) == Cons(Ccl(ccl, Ch(t[0])), Cons(Ccl(ccl, Ch(t[1])), Tag(t[2..], ccl)))
  {
    assert t[1..][1..] == t[2..];
  }

  lemma TagHead(t: string, n: nat, ccl: CClass)
    requires 0 < n <= |t|
    ensures Tag(t[..n], ccl) == Cons(Ccl(ccl, Ch(t[0])), Tag(t[1..][..n - 1], ccl))
    ensures t[n..] == t[1..][n - 1..]
  {
    assert t[..n][1..] == t[1..][..n - 1];
  }

  /** In state `st` the machine tags the first `n` characters as inner comment and is back in code. */
  ghost predicate CommentRuns(st: State, t: string, n: nat)
    requires st != Done
  {
    n <= |t| && Run(st, t) == Tag(t[..n], InnerComment).Plus(Run(Start, t[n..]))
  }

  /** One more character in front of a comment. */
  lemma CommentStep(st: State, t: string, n: nat)
    requires st == CommentEol || st == SlashStar || st == SlashStarStar
    requires t != "" && CommentRuns(Step(st, t[0]).1, t[1..], n)
    ensures CommentRuns(st, t, n + 1)
  {
    RunOne(st, t);
    TagHead(t, n + 1, InnerComment);
  }

  lemma NothingLeft(t: string)
    ensures CommentRuns(Start, t, 0)
  {
    assert t[..0] == "" && t[0..] == t;
  }

  lemma {:induction false} RunInLine(t: string)
    ensures CommentRuns(CommentEol, t, LineLen(t))
  {
    if t != "" {
      if t[0] == '\n' {
        NothingLeft(t[1..]);
        CommentStep(CommentEol, t, 0);
      } else {
        RunInLine(t[1..]);
        CommentStep(CommentEol, t, LineLen(t) - 1);
      }
    }
  }

  /** How much of `t` belongs to a block comment, after a star or not. */
  function BlockRest(star: bool, t: string): (n: nat)
    ensures n <= |t|
    decreases |t|
  {
    if t == "" then 0
    else if star && t[0] == '/' then 1
    else 1 + BlockRest(t[0] == '*', t[1..])
  }

  lemma {:induction false} BlockRestIsLen(t: string)
    ensures BlockRest(false, t) == BlockLen(t)
  {
    if t != "" {
      var u := t[1..];
      BlockRestIsLen(u);
      if u != "" {
        assert t[..2] == [t[0], u[0]];
      }
    }
  }

  lemma {:induction false} RunInBlock(star: bool, t: string)
    ensures CommentRuns(if star then SlashStarStar else SlashStar, t, BlockRest(star, t))
    decreases |t|
  {
    if t != "" {
      if star && t[0] == '/' {
        NothingLeft(t[1..]);
        CommentStep(SlashStarStar, t, 0);
      } else {
        RunInBlock(t[0] == '*', t[1..]);
        CommentStep(if star then SlashStarStar else SlashStar, t, BlockRest(star, t) - 1);
      }
    }
  }

  lemma RunRegion(s: string)
    requires s != ""
    ensures Run(Start, s) == Region(s).1.Plus(Run(Start, s[Region(s).0..]))
  {
    var t := s[1..];
    if s[0] == '"' || s[0] == '\'' {
      RunOne(Start, s);
      RunInQuote(t, s[0]);
      RunLiteral(s);
    } else if s[0] != '/' {
      RunOne(Start, s);
      assert Tag1(s[0], Code).tail.Plus(Run(Start, t)) == Run(Start, t);
    } else if |s| == 1 {
      assert Run(Start, s) == Run(Slash, t);
    } else {
      RunSlash(s);
    }
  }

  lemma RunLiteral(s: string)
    requires s != "" && (s[0] == '"' || s[0] == '\'') && QuoteRuns(s[1..], s[0])
    requires Run(Start, s) == Cons(Ccl(Outer(s[0]), Ch(s[0])), Run(In(s[0]), s[1..]))
    ensures Run(Start, s) == Region(s).1.Plus(Run(Start, s[Region(s).0..]))
  {
    var t, q := s[1..], s[0];
    var n := QuoteLen(t, q);
    var rest := Run(Start, s[1 + n..]);
    if QuoteCloses(t, q) {
      assert t[..n - 1] == s[1..n] && t[n..] == s[1 + n..];
      Tag(s[1..n], Inner(q)).PlusAssociative(Tag1(q, Outer(q)), rest);
      assert Tag1(q, Outer(q)).Plus(rest) == Cons(Ccl(Outer(q), Ch(q)), rest);
    } else {
      Tag(t, Inner(q)).PlusNil();
    }
  }

  lemma RunSlash(s: string)
    requires |s| > 1 && s[0] == '/'
    ensures Run(Start, s) == Region(s).1.Plus(Run(Start, s[Region(s).0..]))
  {
    var t := s[2..];
    assert s[1..][1..] == t;
    assert Run(Start, s) == Run(Slash, s[1..]) == Step(Slash, s[1]).0.Plus(Run(Step(Slash, s[1]).1, t));
    if s[1] == '/' {
      RunInLine(t);
      RunComment(s, LineLen(t), Run(CommentEol, t));
    } else if s[1] == '*' {
      RunInBlock(false, t);
      BlockRestIsLen(t);
      RunComment(s, BlockLen(t), Run(SlashStar, t));
    }
  }

  lemma RunComment(s: string, n: nat, rest: List<Ccl>)
    requires |s| > 1 && s[0] == '/' && 2 + n <= |s|
    requires var t := s[2..]; rest == Tag(t[..n], InnerComment).Plus(Run(Start, t[n..]))
    ensures Tag2(s[1], OuterComment).Plus(rest) == Comment(s, n).1.Plus(Run(Start, s[2 + n..]))
  {
    var t, e := s[2..], Tag2(s[1], OuterComment);
    assert t[..n] == s[2..2 + n] && t[n..] == s[2 + n..];
    TagTwo(s[..2], OuterComment);
    assert s[..2][2..] == "" && Tag(s[..2], OuterComment) == e;
    e.PlusAssociative(Tag(s[2..2 + n], InnerComment), Run(Start, s[2 + n..]));
  }

  /** On every text the machine emits exactly the region-by-region lexing. */
  lemma {:induction false} RunIsLex(s: string)
    ensures Run(Start, s) == Lex(s)
    decreases |s|
  {
    if s != "" {
      RunRegion(s);
      RunIsLex(s[Region(s).0..]);
    }
  }
}
