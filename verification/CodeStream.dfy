/** The code characters of a source text, and why nothing inside a comment or a
    literal can reach them. */
module CodeStream {
  import opened CStrings
  import opened Lists
  import opened Lexing

  /** The characters whose class is code. */
  function CodeChars(cs: List<Ccl>): string {
    match cs
    case Nil => ""
    case Cons(x, xs) => if x.ccl == Code && x.chr.Ch? then [x.chr.c] + CodeChars(xs) else CodeChars(xs)
  }

  /** The code characters still to come from `s` when the machine is in `st`. */
  function CodeRun(st: State, s: string): string {
    if st == Done then "" else CodeChars(Run(st, s))
  }

  /** The code characters of a whole source text. */
  function CodeOf(s: string): string {
    CodeRun(Start, s)
  }

  lemma {:induction false} CodeCharsPlus(a: List<Ccl>, b: List<Ccl>)
    ensures CodeChars(a.Plus(b)) == CodeChars(a) + CodeChars(b)
  {
    if a.Cons? {
      CodeCharsPlus(a.tail, b);
    }
  }

  lemma {:induction false} CodeCharsOfTag(t: string, ccl: CClass)
    requires ccl != Code
    ensures CodeChars(Tag(t, ccl)) == ""
  {
    if t != "" {
      CodeCharsOfTag(t[1..], ccl);
    }
  }

  /** Text the machine hides from the scanner. */
  datatype Hidden =
    | BlockComment(body: string)
    | LineComment(body: string)
    | StringLiteral(body: string)
    | CharLiteral(body: string)
  {
    function Text(): string {
      match this
      case BlockComment(b) => "/*" + b + "*/"
      case LineComment(b) => "//" + b + "\n"
      case StringLiteral(b) => "\"" + b + "\""
      case CharLiteral(b) => "'" + b + "'"
    }

    /** It with its classes: the two characters that open a comment, and the quotes of a literal, are
        outer, all else is inner. */
    function Classified(): List<Ccl> {
      match this
      case BlockComment(b) => Tag("/*", OuterComment).Plus(Tag(b + "*/", InnerComment))
      case LineComment(b) => Tag("//", OuterComment).Plus(Tag(b + "\n", InnerComment))
      case StringLiteral(b) => Cons(Ccl(OuterString, Ch('"')), Tag(b, InnerString).Plus(Tag1('"', OuterString)))
      case CharLiteral(b) => Cons(Ccl(OuterChar, Ch('\'')), Tag(b, InnerChar).Plus(Tag1('\'', OuterChar)))
    }

    /** The body cannot end the region early. */
    ghost predicate WellFormed() {
      match this
      case BlockComment(b) => forall i :: 0 <= i < |b| - 1 ==> !(b[i] == '*' && b[i + 1] == '/')
      case LineComment(b) => '\n' !in b
      case StringLiteral(b) => Escaped(b, '"')
      case CharLiteral(b) => Escaped(b, '\'')
    }
  }

  /** `b` is made of escaped pairs and of characters that are neither a backslash nor the quote. */
  predicate Escaped(b: string, q: char) {
    b == ""
    || (b[0] == '\\' && |b| > 1 && Escaped(b[2..], q))
    || (b[0] != '\\' && b[0] != q && Escaped(b[1..], q))
  }

  lemma {:induction false} BlockLenOf(b: string, rest: string)
    requires BlockComment(b).WellFormed()
    ensures BlockLen(b + "*/" + rest) == |b| + 2
  {
    var t := b + "*/" + rest;
    if b == "" {
      assert t[..2] == "*/";
    } else {
      assert t[1] == (if |b| > 1 then b[1] else '*');
      assert t[..2] == [t[0], t[1]] && t[..2] != "*/";
      assert t[1..] == b[1..] + "*/" + rest;
      var c := b[1..];
      forall i | 0 <= i < |c| - 1
        ensures !(c[i] == '*' && c[i + 1] == '/')
      {
        assert c[i] == b[i + 1] && c[i + 1] == b[i + 2];
      }
      BlockLenOf(c, rest);
    }
  }

  lemma {:induction false} LineLenOf(b: string, rest: string)
    requires '\n' !in b
    ensures LineLen(b + "\n" + rest) == |b| + 1
  {
    if b != "" {
      assert (b + "\n" + rest)[1..] == b[1..] + "\n" + rest;
      LineLenOf(b[1..], rest);
    }
  }

  lemma {:induction false} QuoteLenOf(b: string, q: char, rest: string)
    requires Escaped(b, q) && q != '\\'
    ensures QuoteLen(b + [q] + rest, q) == |b| + 1 && QuoteCloses(b + [q] + rest, q)
  {
    var t := b + [q] + rest;
    if b != "" {
      if b[0] == '\\' {
        assert t[2..] == b[2..] + [q] + rest;
        QuoteLenOf(b[2..], q, rest);
      } else {
        assert t[1..] == b[1..] + [q] + rest;
        QuoteLenOf(b[1..], q, rest);
      }
    }
  }

  lemma CommentRegion(s: string, n: nat)
    requires |s| >= 2 && s[0] == '/' && 2 + n <= |s|
    requires (s[1] == '/' && n == LineLen(s[2..])) || (s[1] == '*' && n == BlockLen(s[2..]))
    ensures Region(s).0 == 2 + n && CodeChars(Region(s).1) == ""
    ensures Region(s).1 == Tag(s[..2], OuterComment).Plus(Tag(s[2..2 + n], InnerComment))
  {
    CodeCharsOfTag(s[..2], OuterComment);
    CodeCharsOfTag(s[2..2 + n], InnerComment);
    CodeCharsPlus(Tag(s[..2], OuterComment), Tag(s[2..2 + n], InnerComment));
  }

  lemma LiteralRegion(s: string, n: nat)
    requires s != "" && (s[0] == '"' || s[0] == '\'')
    requires QuoteCloses(s[1..], s[0]) && n == QuoteLen(s[1..], s[0])
    ensures Region(s).0 == 1 + n && CodeChars(Region(s).1) == ""
    ensures Region(s).1 == Cons(Ccl(Outer(s[0]), Ch(s[0])), Tag(s[1..n], Inner(s[0])).Plus(Tag1(s[0], Outer(s[0]))))
  {
    var q := s[0];
    CodeCharsOfTag(s[1..n], Inner(q));
    CodeCharsPlus(Tag(s[1..n], Inner(q)), Tag1(q, Outer(q)));
  }

  lemma HiddenComment(b: string, end: string, rest: string)
    requires (end == "*/" && BlockComment(b).WellFormed()) || (end == "\n" && LineComment(b).WellFormed())
    ensures var s := (if end == "\n" then "//" else "/*") + b + end + rest;
      && Region(s).0 == 2 + |b| + |end| && CodeChars(Region(s).1) == ""
      && Region(s).1 == Tag((if end == "\n" then "//" else "/*"), OuterComment).Plus(Tag(b + end, InnerComment))
  {
    var s := (if end == "\n" then "//" else "/*") + b + end + rest;
    assert s[2..] == b + end + rest;
    if end == "\n" {
      LineLenOf(b, rest);
    } else {
      BlockLenOf(b, rest);
    }
    CommentRegion(s, |b + end|);
    assert s == (if end == "\n" then "//" else "/*") + (b + end) + rest;
    CutMiddle(if end == "\n" then "//" else "/*", b + end, rest);
  }

  lemma CutMiddle(a: string, b: string, c: string)
    requires |a| == 2
    ensures (a + b + c)[..2] == a && (a + b + c)[2..2 + |b|] == b
  {}

  lemma HiddenLiteral(s: string, b: string, q: char, rest: string)
    requires Escaped(b, q) && (q == '"' || q == '\'')
    requires s != "" && s[0] == q && s[1..] == b + [q] + rest
    ensures Region(s).0 == |b| + 2 && CodeChars(Region(s).1) == ""
    ensures Region(s).1 == Cons(Ccl(Outer(q), Ch(q)), Tag(b, Inner(q)).Plus(Tag1(q, Outer(q))))
  {
    QuoteLenOf(b, q, rest);
    LiteralRegion(s, |b| + 1);
    assert s[1..|b| + 1] == b;
  }

  lemma HiddenRegion(h: Hidden, rest: string)
    requires h.WellFormed()
    ensures Region(h.Text() + rest).0 == |h.Text()| && CodeChars(Region(h.Text() + rest).1) == ""
    ensures Region(h.Text() + rest).1 == h.Classified()
  {
    match h
    case BlockComment(b) => HiddenComment(b, "*/", rest);
    case LineComment(b) => HiddenComment(b, "\n", rest);
    case StringLiteral(b) => QuotedTail(b, '"', rest); HiddenLiteral(h.Text() + rest, b, '"', rest);
    case CharLiteral(b) => QuotedTail(b, '\'', rest); HiddenLiteral(h.Text() + rest, b, '\'', rest);
  }

  lemma QuotedTail(b: string, q: char, rest: string)
    ensures ([q] + b + [q] + rest)[1..] == b + [q] + rest
  {}

  lemma HiddenIsSkipped(h: Hidden, rest: string)
    requires h.WellFormed()
    ensures CodeOf(h.Text() + rest) == CodeOf(rest)
  {
    var s := h.Text() + rest;
    HiddenRegion(h, rest);
    RunRegion(s);
    assert s[|h.Text()|..] == rest;
    CodeCharsPlus(Region(s).1, Run(Start, rest));
  }

  lemma CodeOfConcat(p: string, s: string)
    requires RunState(Start, p) == Start
    ensures CodeOf(p + s) == CodeOf(p) + CodeOf(s)
  {
    RunConcat(Start, p, s);
    CodeCharsPlus(Run(Start, p), Run(Start, s));
  }

  /** A comment or a literal that starts in code contributes nothing, and leaves what comes
      before and after it as it is: the code stream never depends on its body. */
  lemma HiddenContributesNothing(p: string, h: Hidden, rest: string)
    requires RunState(Start, p) == Start && h.WellFormed()
    ensures CodeOf(p + h.Text() + rest) == CodeOf(p) + CodeOf(rest)
  {
    HiddenIsSkipped(h, rest);
    CodeOfConcat(p, h.Text() + rest);
    assert p + h.Text() + rest == p + (h.Text() + rest);
  }

  /** Text in which nothing is hidden: no quotes, and every slash has a character behind it that makes it
      no comment. */
  predicate Plain(t: string) {
    && '"' !in t && '\'' !in t
    && forall i :: 0 <= i < |t| && t[i] == '/' ==> i + 1 < |t| && t[i + 1] != '/' && t[i + 1] != '*'
  }

  lemma PlainTail(t: string, k: nat)
    requires Plain(t) && k <= |t|
    ensures Plain(t[k..])
  {
    assert forall i :: 0 <= i < |t| - k ==> t[k..][i] == t[k + i];
  }

  /** All of it is code. */
  lemma {:induction false} PlainIsCode(t: string)
    requires Plain(t)
    ensures RunState(Start, t) == Start && CodeOf(t) == t
    decreases |t|
  {
    if t != "" {
      var n := if t[0] == '/' then 2 else 1;
      PlainTail(t, n);
      PlainIsCode(t[n..]);
      PlainHead(t[..n], t[n..]);
      assert t[..n] + t[n..] == t;
      CodeOfConcat(t[..n], t[n..]);
    }
  }

  lemma PlainHead(h: string, rest: string)
    requires (|h| == 1 && h[0] !in "\"'/") || (|h| == 2 && h[0] == '/' && h[1] != '/' && h[1] != '*')
    ensures RunState(Start, h) == Start && CodeOf(h) == h && RunState(Start, h + rest) == RunState(Start, rest)
  {
    RunConcat(Start, h, rest);
    if |h| == 1 {
      PlainOne(h[0]);
      assert h == [h[0]];
    } else {
      PlainTwo(h[1]);
      assert h == ['/', h[1]];
    }
  }

  lemma PlainOne(c: char)
    requires c !in "\"'/"
    ensures RunState(Start, [c]) == Start && CodeOf([c]) == [c]
  {
    assert [c][1..] == "" && Step(Start, c) == (Tag1(c, Code), Start);
    assert Run(Start, "") == Nil && RunState(Start, "") == Start;
    Tag1(c, Code).PlusNil();
    assert Run(Start, [c]) == Tag1(c, Code);
    CodeTagged(c);
  }

  lemma PlainTwo(c: char)
    requires c != '/' && c != '*'
    ensures RunState(Start, ['/', c]) == Start && CodeOf(['/', c]) == ['/', c]
  {
    assert [c][1..] == "" && Step(Slash, c) == (Tag2(c, Code), Start);
    assert Run(Start, "") == Nil && RunState(Start, "") == Start;
    Tag2(c, Code).PlusNil();
    assert Run(Slash, [c]) == Tag2(c, Code) && RunState(Slash, [c]) == Start;
    assert ['/', c][1..] == [c] && Step(Start, '/') == (Nil, Slash);
    assert Run(Start, ['/', c]) == Run(Slash, [c]);
    CodeTagged(c);
  }

  lemma CodeTagged(c: char)
    ensures CodeChars(Tag1(c, Code)) == [c] && CodeChars(Tag2(c, Code)) == ['/', c]
  {
    assert CodeChars(Nil) == "";
    assert CodeChars(Tag1(c, Code)) == [c] + "";
    assert CodeChars(Tag2(c, Code)) == ['/'] + CodeChars(Tag1(c, Code));
  }
}
