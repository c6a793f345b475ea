/** The pull/pushback filter over `libcf`: `cf_getc` and `cf_ungetc` refine a lazy
    stream of code characters. */
module CodeFilter {
  import opened CStrings
  import opened Files
  import opened Lists
  import opened Lexing
  import opened CodeStream
  import opened Libcf

  const ENOBUFS: int := 105

  predicate IsMark(x: Ccl) {
    x.ccl == EofMark || x.ccl == ErrMark
  }

  /** Between calls the buffer holds characters only. */
  ghost predicate NoMarks(buf: seq<Ccl>) {
    forall i :: 0 <= i < |buf| ==> !IsMark(buf[i]) && buf[i].chr.Ch?
  }

  /** The code characters in a buffer, from entry `i` on, and then `rest`. */
  ghost function Onto(buf: seq<Ccl>, i: nat, rest: string): string
    decreases |buf| - i
  {
    if i >= |buf| then rest
    else if buf[i].ccl == Code && buf[i].chr.Ch? then [buf[i].chr.c] + Onto(buf, i + 1, rest)
    else Onto(buf, i + 1, rest)
  }

  lemma {:induction false} OntoOfDrop(buf: seq<Ccl>, k: nat, i: nat, rest: string)
    requires k <= |buf|
    ensures Onto(buf[k..], i, rest) == Onto(buf, k + i, rest)
    decreases |buf| - i
  {
    if i < |buf| - k {
      OntoOfDrop(buf, k, i + 1, rest);
    }
  }

  ghost predicate Ready(f: File, cf: Cf, ccv: Ccv)
    reads f, cf, ccv, ccv.array_
  {
    f.pos <= |f.text| && cf.Valid() && cf.err == 0 && ccv.Valid() && ccv.sz == NLOOKAHEAD && NoMarks(ccv.Contents())
  }

  /** The code characters still to come: those in the buffer, then those of the rest of the file. */
  ghost function Stream(f: File, cf: Cf, ccv: Ccv): string
    requires f.pos <= |f.text| && ccv.Valid()
    reads f, cf, ccv, ccv.array_
  {
    Onto(ccv.Contents(), 0, CodeRun(cf.state, f.Rest()))
  }

  const MARKED: seq<Ccl> := [Ccl(EofMark, Ch('\0'))]

  lemma StepShape(st: State, c: char)
    requires st != Done
    ensures var e := Step(st, c).0;
      e.Nil? || (!IsMark(e.head) && (e == Tag1(c, e.head.ccl) || e == Tag2(c, e.head.ccl)))
  {}

  lemma TagIntoEmpty(c: char, ccl: CClass, two: bool)
    requires ccl != EofMark && ccl != ErrMark
    ensures PushedAll([], if two then Tag2(c, ccl) else Tag1(c, ccl), NLOOKAHEAD)
         == if two then [Ccl(ccl, Ch('/')), Ccl(ccl, Ch(c))] else [Ccl(ccl, Ch(c))]
  {
    PushedTags([], c, ccl, NLOOKAHEAD);
  }

  lemma OntoOne(x: Ccl, xs: List<Ccl>)
    ensures Onto([x], 0, CodeChars(xs)) == CodeChars(Cons(x, xs))
  {
    assert Onto([x], 1, CodeChars(xs)) == CodeChars(xs);
  }

  lemma OntoTwo(x: Ccl, y: Ccl, xs: List<Ccl>)
    ensures Onto([x, y], 0, CodeChars(xs)) == CodeChars(Cons(x, Cons(y, xs)))
  {
    OntoOfDrop([x, y], 1, 0, CodeChars(xs));
    assert [x, y][1..] == [y];
    OntoOne(y, xs);
  }

  lemma EmittedOne(c: char, ccl: CClass, xs: List<Ccl>)
    requires ccl != EofMark && ccl != ErrMark
    ensures Emitted(Tag1(c, ccl), xs)
  {
    TagIntoEmpty(c, ccl, false);
    OntoOne(Ccl(ccl, Ch(c)), xs);
    assert Tag1(c, ccl).Plus(xs) == Cons(Ccl(ccl, Ch(c)), xs);
  }

  lemma EmittedTwo(c: char, ccl: CClass, xs: List<Ccl>)
    requires ccl != EofMark && ccl != ErrMark
    ensures Emitted(Tag2(c, ccl), xs)
  {
    TagIntoEmpty(c, ccl, true);
    OntoTwo(Ccl(ccl, Ch('/')), Ccl(ccl, Ch(c)), xs);
    assert Tag1(c, ccl).Plus(xs) == Cons(Ccl(ccl, Ch(c)), xs);
    assert Tag2(c, ccl).Plus(xs) == Cons(Ccl(ccl, Ch('/')), Tag1(c, ccl).Plus(xs));
  }

  /** What was emitted, put into an empty buffer: nothing is rejected, and no code character is lost. */
  ghost predicate Emitted(e: List<Ccl>, xs: List<Ccl>) {
    var buf := PushedAll([], e, NLOOKAHEAD);
    |buf| <= 2 && NoMarks(buf) && Onto(buf, 0, CodeChars(xs)) == CodeChars(e.Plus(xs))
  }

  /** One character into an empty buffer. */
  lemma StepIntoEmpty(st: State, s: string)
    requires st != Done && s != ""
    ensures var (e, st') := Step(st, s[0]); var buf := PushedAll([], e, NLOOKAHEAD);
      |buf| <= 2 && NoMarks(buf) && Onto(buf, 0, CodeRun(st', s[1..])) == CodeRun(st, s)
  {
    var (e, st') := Step(st, s[0]);
    StepShape(st, s[0]);
    if e.Cons? {
      if e.tail.Cons? {
        EmittedTwo(s[0], e.head.ccl, Run(st', s[1..]));
      } else {
        EmittedOne(s[0], e.head.ccl, Run(st', s[1..]));
      }
    }
  }

  /** The inner loop of `cf_getc`: reads until something is in the buffer. */
  method Fill(f: File, cf: Cf, ccv: Ccv)
    requires Ready(f, cf, ccv)
    modifies f, cf, ccv`len, ccv.array_
    ensures f.pos <= |f.text| && f.pos >= old(f.pos) && cf.Valid() && cf.err == 0 && ccv.Valid() && ccv.len > 0
    ensures old(ccv.len) > 0 ==> ccv.Contents() == old(ccv.Contents())
    ensures old(ccv.len) == 0 && ccv.Contents() != MARKED ==> f.pos > old(f.pos) && ccv.len <= 2
    ensures if ccv.Contents() == MARKED then old(Stream(f, cf, ccv)) == "" && cf.state == Done
            else NoMarks(ccv.Contents()) && Stream(f, cf, ccv) == old(Stream(f, cf, ccv))
  {
    while ccv.len == 0
      invariant f.pos <= |f.text| && f.pos >= old(f.pos) && cf.Valid() && cf.err == 0 && ccv.Valid()
      invariant old(ccv.len) > 0 ==> ccv.Contents() == old(ccv.Contents())
      invariant old(ccv.len) == 0 && ccv.len > 0 && ccv.Contents() != MARKED ==> f.pos > old(f.pos) && ccv.len <= 2
      invariant if ccv.Contents() == MARKED then old(Stream(f, cf, ccv)) == "" && cf.state == Done
                else NoMarks(ccv.Contents()) && Stream(f, cf, ccv) == old(Stream(f, cf, ccv))
      decreases |f.text| - f.pos, ccv.len == 0
    {
      ghost var st, rest := cf.state, f.Rest();
      var c := f.Getc();
      if st != Done && c != EOF {
        StepIntoEmpty(st, rest);
      }
      assert ccv.Contents() == [];
      var rv := CfNext(cf, ccv, c);
      if rv != 0 && rv != -1 {
        assert false;
      }
    }
  }

  /** The index of the first super-character from `i` on that the filter lets through, or the length. */
  ghost function FirstTaken(buf: seq<Ccl>, i: nat): (k: nat)
    requires i <= |buf|
    ensures i <= k <= |buf|
    decreases |buf| - i
  {
    if i == |buf| || IsMark(buf[i]) || buf[i].ccl == Code then i else FirstTaken(buf, i + 1)
  }

  lemma {:induction false} FirstTakenCode(buf: seq<Ccl>, i: nat, rest: string)
    requires NoMarks(buf) && i <= |buf|
    ensures var k := FirstTaken(buf, i);
      if k < |buf| then buf[k].ccl == Code && Onto(buf, i, rest) == [buf[k].chr.c] + Onto(buf, k + 1, rest)
      else Onto(buf, i, rest) == rest
    decreases |buf| - i
  {
    if i < |buf| && buf[i].ccl != Code {
      FirstTakenCode(buf, i + 1, rest);
    }
  }

  /** The inner shift of `cf_getc`: drops entry `k` and everything before it. */
  method ShiftPast(ccv: Ccv, k: nat)
    requires ccv.Valid() && k < ccv.len
    modifies ccv`len, ccv.array_
    ensures ccv.Valid() && ccv.Contents() == old(ccv.Contents())[k + 1..]
  {
    ghost var buf := ccv.Contents();
    var len, pos, dst := ccv.len, k + 1, 0;
    while pos < len
      invariant k < pos <= len == |buf| <= ccv.array_.Length && dst == pos - (k + 1)
      invariant forall i :: 0 <= i < dst ==> ccv.array_[i] == buf[k + 1 + i]
      invariant forall i :: pos <= i < len ==> ccv.array_[i] == buf[i]
    {
      ccv.array_[dst] := ccv.array_[pos];
      dst := dst + 1;
      pos := pos + 1;
    }
    ccv.len := dst;
  }

  /** The loop of `cf_getc` over the buffer: takes the first code character or mark, and
      shifts what follows it to the front. */
  method Take(ccv: Ccv) returns (found: bool, c: CInt)
    requires ccv.Valid()
    modifies ccv`len, ccv.array_
    ensures ccv.Valid()
    ensures var buf, k := old(ccv.Contents()), FirstTaken(old(ccv.Contents()), 0);
      && found == (k < |buf|)
      && (found ==> ccv.Contents() == buf[k + 1..] && c == if buf[k].ccl == EofMark then EOF else buf[k].chr)
      && (!found ==> ccv.Contents() == [])
  {
    ghost var buf := ccv.Contents();
    var len, pos := ccv.len, 0;
    while pos < len
      invariant pos <= len == |buf| && ccv.Valid() && ccv.Contents() == buf
      invariant FirstTaken(buf, 0) == FirstTaken(buf, pos)
    {
      var x := ccv.array_[pos];
      assert x == buf[pos];
      if x.ccl == ErrMark || x.ccl == EofMark || x.ccl == Code {
        ShiftPast(ccv, pos);
        return true, if x.ccl == EofMark then EOF else x.chr;
      }
      pos := pos + 1;
    }
    ccv.len := 0;
    return false, EOF;
  }

  /** What `Take` does to the stream of code characters. */
  lemma TakeFromStream(buf: seq<Ccl>, rest: string)
    requires NoMarks(buf)
    ensures var k := FirstTaken(buf, 0); var s := Onto(buf, 0, rest);
      if k < |buf| then buf[k].ccl != EofMark && NoMarks(buf[k + 1..])
        && s != "" && buf[k].chr == Ch(s[0]) && s[1..] == Onto(buf[k + 1..], 0, rest)
      else s == rest
  {
    FirstTakenCode(buf, 0, rest);
    var k := FirstTaken(buf, 0);
    if k < |buf| {
      OntoOfDrop(buf, k + 1, 0, rest);
    }
  }

  /** One round of the outer loop of `cf_getc`. */
  method Round(f: File, cf: Cf, ccv: Ccv) returns (found: bool, c: CInt)
    requires Ready(f, cf, ccv)
    modifies f, cf, ccv`len, ccv.array_
    ensures Ready(f, cf, ccv) && f.pos >= old(f.pos)
    ensures var s := old(Stream(f, cf, ccv));
      if !found then Stream(f, cf, ccv) == s && ccv.len == 0 && (f.pos > old(f.pos) || old(ccv.len) > 0)
      else if s == "" then c == EOF && Stream(f, cf, ccv) == ""
      else c == Ch(s[0]) && Stream(f, cf, ccv) == s[1..]
    ensures ccv.len <= 1 || ccv.len < old(ccv.len)
  {
    Fill(f, cf, ccv);
    ghost var buf := ccv.Contents();
    if buf != MARKED {
      TakeFromStream(buf, CodeRun(cf.state, f.Rest()));
    }
    found, c := Take(ccv);
  }

  /** `cf_getc`: the head of the stream, leaving its tail; end of file exactly when the stream is empty. */
  method CfGetc(f: File, cf: Cf, ccv: Ccv) returns (c: CInt)
    requires Ready(f, cf, ccv)
    modifies f, cf, ccv`len, ccv.array_
    ensures Ready(f, cf, ccv)
    ensures var s := old(Stream(f, cf, ccv));
      if s == "" then c == EOF && Stream(f, cf, ccv) == "" else c == Ch(s[0]) && Stream(f, cf, ccv) == s[1..]
    ensures ccv.len <= 1 || ccv.len < old(ccv.len)
  {
    var found := false;
    while true
      invariant Ready(f, cf, ccv) && Stream(f, cf, ccv) == old(Stream(f, cf, ccv))
      invariant ccv.len == 0 || ccv.len == old(ccv.len)
      decreases |f.text| - f.pos, ccv.len
    {
      found, c := Round(f, cf, ccv);
      if found {
        return;
      }
    }
  }

  /** `cf_ungetc`: one code character in front; refused only by a full buffer. */
  method CfUngetc(c: char, ccv: Ccv) returns (rv: int)
    requires ccv.Valid()
    modifies ccv`len, ccv.array_
    ensures ccv.Valid()
    ensures if old(ccv.len) >= ccv.sz then rv == ENOBUFS && ccv.Contents() == old(ccv.Contents())
            else rv == 0 && ccv.Contents() == [Ccl(Code, Ch(c))] + old(ccv.Contents())
  {
    if ccv.len >= ccv.sz {
      return ENOBUFS;
    }
    ghost var buf := ccv.Contents();
    var pos := ccv.len;
    while pos != 0
      invariant 0 <= pos <= ccv.len == |buf| < ccv.array_.Length
      invariant forall i :: 0 <= i < pos ==> ccv.array_[i] == buf[i]
      invariant forall i :: pos < i <= ccv.len ==> ccv.array_[i] == buf[i - 1]
    {
      ccv.array_[pos] := ccv.array_[pos - 1];
      pos := pos - 1;
    }
    ccv.len := ccv.len + 1;
    ccv.array_[0] := Ccl(Code, Ch(c));
    return 0;
  }

  /** What is pushed back is the next character read, and reading it leaves the stream as it was. */
  lemma UngetThenGet(buf: seq<Ccl>, c: char, rest: string)
    ensures Onto([Ccl(Code, Ch(c))] + buf, 0, rest) == [c] + Onto(buf, 0, rest)
  {
    OntoOfDrop([Ccl(Code, Ch(c))] + buf, 1, 0, rest);
    assert ([Ccl(Code, Ch(c))] + buf)[1..] == buf;
  }
}
