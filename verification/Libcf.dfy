/** `libcf`: the buffer of super-characters and the machine that fills it. */
module Libcf {
  import opened CStrings
  import opened Lists
  import opened Lexing

  const NLOOKAHEAD: nat := 4
  const ENOSPC: int := 28
  const ENODATA: int := 61
  const ENOTRECOVERABLE: int := 131

  /** The vector of super-characters, used as a stack by `libcf` and as a queue by the scanner. */
  class Ccv {
    var sz: nat
    var len: nat
    const array_: array<Ccl>

    ghost predicate Valid()
      reads this
    {
      len <= sz == array_.Length
    }

    ghost function Contents(): seq<Ccl>
      requires Valid()
      reads this, array_
    {
      array_[..len]
    }

    /** `ccv_new` */
    constructor ()
      ensures Valid() && fresh(array_) && sz == NLOOKAHEAD && Contents() == []
    {
      array_ := new Ccl[NLOOKAHEAD](_ => Ccl(Undef, EOF));
      sz := NLOOKAHEAD;
      len := 0;
    }

    /** `ccv_push`: rejected without effect when the vector is full. */
    method Push(chr: CInt, cclass: CClass) returns (rv: int)
      requires Valid()
      modifies this`len, array_
      ensures Valid()
      ensures old(len) < sz ==> rv == 0 && Contents() == old(Contents()) + [Ccl(cclass, chr)]
      ensures old(len) == sz ==> rv == ENOSPC && Contents() == old(Contents())
    {
      if len >= sz {
        return ENOSPC;
      }
      array_[len] := Ccl(cclass, chr);
      len := len + 1;
      return 0;
    }

    /** `ccv_top` */
    method Top() returns (rv: int, top: Ccl)
      requires Valid()
      ensures if len == 0 then rv == ENODATA && top == Ccl(NoClass, Ch('\0'))
              else rv == 0 && top == Contents()[len - 1]
    {
      if len == 0 {
        return ENODATA, Ccl(NoClass, Ch('\0'));
      }
      return 0, array_[len - 1];
    }

    /** `ccv_pop` undoes the last push. */
    method Pop() returns (rv: int, top: Ccl)
      requires Valid()
      modifies this`len
      ensures Valid()
      ensures if old(len) == 0 then rv == ENODATA && len == 0 && top == Ccl(NoClass, Ch('\0'))
              else rv == 0 && old(Contents()) == Contents() + [top]
    {
      if len == 0 {
        return ENODATA, Ccl(NoClass, Ch('\0'));
      }
      len := len - 1;
      return 0, array_[len];
    }
  }

  /** What a push leaves: dropped when the vector is full. */
  function Pushed(buf: seq<Ccl>, x: Ccl, sz: nat): seq<Ccl> {
    if |buf| < sz then buf + [x] else buf
  }

  function PushedAll(buf: seq<Ccl>, xs: List<Ccl>, sz: nat): seq<Ccl>
    decreases xs
  {
    match xs
    case Nil => buf
    case Cons(x, rest) => PushedAll(Pushed(buf, x, sz), rest, sz)
  }

  /** The class kept in the context is determined by the state. */
  function ClassOf(st: State): CClass {
    match st
    case Start | Slash => Code
    case Dquote | DquoteEscape => InnerString
    case Squote | SquoteEscape => InnerChar
    case SlashStar | SlashStarStar | CommentEol => InnerComment
    case Done => EofMark
  }

  class Cf {
    var err: int
    var state: State
    var cclass: CClass

    ghost predicate Valid()
      reads this
    {
      state == Done || cclass == ClassOf(state)
    }

    /** `cf_new(CC_CODE)` */
    constructor ()
      ensures Valid() && state == Start && err == 0
    {
      err := 0;
      state := Start;
      cclass := Code;
    }
  }

  /** The top of the buffer as the end-of-file branch sees it. */
  function TopOf(buf: seq<Ccl>): Ccl {
    if buf == [] then Ccl(Code, Ch('\0')) else buf[|buf| - 1]
  }

  /** The end-of-file branch tests the character on top of the buffer, not the one passed in. */
  function ErrAfterEof(err: int, st: State, buf: seq<Ccl>): int {
    if TopOf(buf).chr == EOF && st != Start then ENOTRECOVERABLE else err
  }

  lemma PushedTags(buf: seq<Ccl>, c: char, ccl: CClass, sz: nat)
    ensures PushedAll(buf, Tag1(c, ccl), sz) == Pushed(buf, Ccl(ccl, Ch(c)), sz)
    ensures PushedAll(buf, Tag2(c, ccl), sz) == Pushed(Pushed(buf, Ccl(ccl, Ch('/')), sz), Ccl(ccl, Ch(c)), sz)
  {
    var buf' := Pushed(buf, Ccl(ccl, Ch('/')), sz);
    assert PushedAll(buf', Tag1(c, ccl), sz) == Pushed(buf', Ccl(ccl, Ch(c)), sz);
  }

  /** `cf_next` on the end of the file, or after it. */
  method CfEof(ctx: Cf, rccv: Ccv) returns (rv: int)
    requires rccv.Valid()
    modifies ctx, rccv`len, rccv.array_
    ensures ctx.state == Done && rccv.Valid()
    ensures ctx.err == old(ErrAfterEof(ctx.err, ctx.state, rccv.Contents()))
    ensures rv == if ctx.err != 0 then -ctx.err else -1
    ensures rccv.Contents() == if old(TopOf(rccv.Contents())).ccl == EofMark then old(rccv.Contents())
                               else Pushed(old(rccv.Contents()), Ccl(EofMark, Ch('\0')), rccv.sz)
  {
    var top := Ccl(Code, Ch('\0'));
    if rccv.len != 0 {
      rv, top := rccv.Top();
    }
    if top.ccl != EofMark {
      var _ := rccv.Push(Ch('\0'), EofMark);
    }
    if top.chr == EOF && ctx.state != Start {
      ctx.err := ENOTRECOVERABLE;
    }
    ctx.state := Done;
    return if ctx.err != 0 then -ctx.err else -1;
  }

  /** The switch of `cf_next` over the states: the class of the character and what comes next. */
  method Switch(ctx: Cf, c: char) returns (next_state: State, next_cclass: CClass, lookahead: bool)
    requires ctx.Valid() && ctx.state != Done
    modifies ctx`cclass
    ensures next_state == Step(ctx.state, c).1
    ensures next_state != Start ==> next_cclass == ClassOf(next_state)
    ensures Step(ctx.state, c).0
         == if lookahead then Nil else if ctx.state == Slash then Tag2(c, ctx.cclass) else Tag1(c, ctx.cclass)
  {
    next_state, next_cclass, lookahead := ctx.state, ctx.cclass, false;
    match ctx.state {
      case Start =>
        ctx.cclass := Code;
        if c == '"' {
          ctx.cclass, next_cclass, next_state := OuterString, InnerString, Dquote;
        } else if c == '\'' {
          ctx.cclass, next_cclass, next_state := OuterChar, InnerChar, Squote;
        } else if c == '/' {
          ctx.cclass, next_state, lookahead := Undef, Slash, true;
        }
      case Dquote =>
        if c == '\\' {
          next_state := DquoteEscape;
        } else if c == '"' {
          ctx.cclass, next_state := OuterString, Start;
        }
      case DquoteEscape =>
        next_state := Dquote;
      case Squote =>
        if c == '\\' {
          next_state := SquoteEscape;
        } else if c == '\'' {
          next_state := Start;
          if ctx.cclass != InnerChar {
            assert false;
          }
          ctx.cclass := OuterChar;
        }
      case SquoteEscape =>
        next_state := Squote;
      case Slash =>
        if c == '/' {
          ctx.cclass, next_cclass, next_state := OuterComment, InnerComment, CommentEol;
        } else if c == '*' {
          ctx.cclass, next_cclass, next_state := OuterComment, InnerComment, SlashStar;
        } else {
          ctx.cclass, next_state := Code, Start;
        }
      case SlashStar =>
        if c == '*' {
          next_state := SlashStarStar;
        }
      case SlashStarStar =>
        if c == '/' {
          next_state := Start;
        } else if c != '*' {
          next_state := SlashStar;
        }
      case CommentEol =>
        if c == '\n' {
          next_state := Start;
        }
    }
  }

  /** `cf_next` on a character. */
  method CfChar(ctx: Cf, rccv: Ccv, c: char)
    requires ctx.Valid() && rccv.Valid() && ctx.state != Done
    modifies ctx`state, ctx`cclass, rccv`len, rccv.array_
    ensures ctx.Valid() && rccv.Valid()
    ensures ctx.state == Step(old(ctx.state), c).1
    ensures rccv.Contents() == PushedAll(old(rccv.Contents()), Step(old(ctx.state), c).0, rccv.sz)
  {
    ghost var buf := rccv.Contents();
    var next_state, next_cclass, lookahead := Switch(ctx, c);
    PushedTags(buf, c, ctx.cclass, rccv.sz);
    if ctx.state == Slash {
      var _ := rccv.Push(Ch('/'), ctx.cclass);
    }
    if !lookahead {
      var _ := rccv.Push(Ch(c), ctx.cclass);
    }
    ctx.cclass := next_cclass;
    ctx.state := next_state;
    if ctx.state == Start {
      ctx.cclass := Code;
    }
  }

  /** `cf_next` */
  method CfNext(ctx: Cf, rccv: Ccv, chr: CInt) returns (rv: int)
    requires ctx.Valid() && rccv.Valid()
    modifies ctx, rccv`len, rccv.array_
    ensures ctx.Valid() && rccv.Valid()
    ensures old(ctx.state) != Done && chr != EOF ==>
      && ctx.state == Step(old(ctx.state), chr.c).1
      && rccv.Contents() == PushedAll(old(rccv.Contents()), Step(old(ctx.state), chr.c).0, rccv.sz)
      && ctx.err == old(ctx.err) && rv == 0
    ensures old(ctx.state) == Done || chr == EOF ==>
      && ctx.state == Done
      && ctx.err == old(ErrAfterEof(ctx.err, ctx.state, rccv.Contents()))
      && rv == (if ctx.err != 0 then -ctx.err else -1)
      && rccv.Contents() == (if old(TopOf(rccv.Contents())).ccl == EofMark then old(rccv.Contents())
                             else Pushed(old(rccv.Contents()), Ccl(EofMark, Ch('\0')), rccv.sz))
  {
    if ctx.state == Done || chr == EOF {
      rv := CfEof(ctx, rccv);
    } else {
      CfChar(ctx, rccv, chr.c);
      rv := 0;
    }
  }
}
