/** The pointer loop of `show_includes` over one include string: header names
    separated by bars. */
module Headers {
  import opened Lists

  /** The line printed for one header name; nothing for an empty one. */
  function Directive(name: string): string {
    if name == "" then "" else "#include <" + name + ">\n"
  }

  /** The loop when `name` lies between the two pointers and `rest` begins at the second one.
      Behind a bar both pointers move to the next character and the second one then moves on
      unlooked: that character is never compared with a bar, and when it is the terminator
      the loop runs past the end of the string, which is `None`. */
  function Directives(name: string, rest: string, out: string): Option<string>
    decreases |rest|
  {
    if rest == "" then Some(out + Directive(name))
    else if rest[0] != '|' then Directives(name + [rest[0]], rest[1..], out)
    else if |rest| == 1 then None
    else Directives([rest[1]], rest[2..], out + Directive(name))
  }

  /** The pointer loop; `ok` is false where it would read past the terminator. */
  method PrintDirectives(s: string, before: string) returns (ok: bool, out: string)
    ensures match Directives("", s, before) case None => !ok case Some(text) => ok && out == text
  {
    out := before;
    var p1, p2 := 0, 0;
    assert s[0..0] == "" && s[0..] == s;
    while p2 <= |s|
      invariant 0 <= p1 <= p2 <= |s| + 1
      invariant if p2 > |s| then Directives("", s, before) == None
                else Directives(s[p1..p2], s[p2..], out) == Directives("", s, before)
      decreases |s| + 1 - p2
    {
      if p2 == |s| || s[p2] == '|' {
        ghost var out0 := out;
        var len := p2 - p1;
        if len != 0 {
          out := out + ("#include <" + s[p1..p1 + len] + ">\n");
        }
        assert s[p1..p1 + len] == s[p1..p2];
        assert out == out0 + Directive(s[p1..p2]);
        if p2 == |s| {
          return true, out;
        }
        assert p2 + 1 < |s| ==> s[p2..][2..] == s[p2 + 2..] && [s[p2..][1]] == s[p2 + 1..p2 + 2];
        p1 := p2 + 1;
        p2 := p1;
      } else {
        assert s[p1..p2] + [s[p2]] == s[p1..p2 + 1] && s[p2..][1..] == s[p2 + 1..];
      }
      p2 := p2 + 1;
    }
    ok := false;
  }

  /** The number of bars at the end of `s`. */
  function TrailingBars(s: string): (n: nat)
    ensures n <= |s|
  {
    if s == "" || s[|s| - 1] != '|' then 0 else 1 + TrailingBars(s[..|s| - 1])
  }

  lemma {:induction false} TrailingBarsOfTail(s: string)
    requires s != ""
    ensures s[0] != '|' ==> TrailingBars(s) == TrailingBars(s[1..])
    ensures s[0] == '|' ==> TrailingBars(s) == TrailingBars(s[1..]) + if TrailingBars(s[1..]) == |s| - 1 then 1 else 0
  {
    if |s| > 1 {
      var init, t := s[..|s| - 1], s[1..];
      TrailingBarsOfTail(init);
      assert t[..|t| - 1] == init[1..] && t[|t| - 1] == s[|s| - 1];
    }
  }

  lemma PairOfBars(s: string)
    requires |s| > 1 && s[0] == '|'
    ensures TrailingBars(s) == TrailingBars(s[2..]) || TrailingBars(s) == TrailingBars(s[2..]) + 2
  {
    TrailingBarsOfTail(s);
    TrailingBarsOfTail(s[1..]);
    assert s[1..][1..] == s[2..];
  }

  /** The loop stays inside the string exactly when an even number of bars ends it. */
  lemma {:induction false} InsideIffEvenBars(name: string, rest: string, out: string)
    ensures Directives(name, rest, out).Some? <==> TrailingBars(rest) % 2 == 0
    decreases |rest|
  {
    if rest != "" {
      TrailingBarsOfTail(rest);
      var t := rest[1..];
      if rest[0] != '|' {
        InsideIffEvenBars(name + [rest[0]], t, out);
      } else if |rest| > 1 {
        PairOfBars(rest);
        InsideIffEvenBars([rest[1]], rest[2..], out + Directive(name));
      }
    }
  }

  /** A string on which the loop runs past the terminator. */
  lemma BarAtEndRunsPast(out: string)
    ensures Directives("", "a|", out) == None
  {
    assert "a|"[1..] == "|" && "" + ['a'] == "a";
    assert Directives("", "a|", out) == Directives("a", "|", out);
  }

  // ---- Strings as lists of names

  function JoinBars(names: List<string>): string {
    match names
    case Nil => ""
    case Cons(h, Nil) => h
    case Cons(h, t) => h + "|" + JoinBars(t)
  }

  /** Names behind a bar: none empty, and no bar in any of them but as its first character. */
  predicate LaterNames(names: List<string>) {
    names.Cons? ==> names.head != "" && '|' !in names.head[1..] && LaterNames(names.tail)
  }

  /** The names in one include string, as the loop divides it: the first one may be empty, but has no bar. */
  predicate BarNames(names: List<string>) {
    names.Cons? && '|' !in names.head && LaterNames(names.tail)
  }

  /** One line for each name that is not empty, in order. */
  function IncludeLines(names: List<string>): string {
    match names
    case Nil => ""
    case Cons(h, t) => (if h == "" then "" else "#include <" + h + ">\n") + IncludeLines(t)
  }

  /** Characters that are no bars join the name between the pointers. */
  lemma {:induction false} NameRead(name: string, h: string, rest: string, out: string)
    requires '|' !in h
    ensures Directives(name, h + rest, out) == Directives(name + h, rest, out)
    decreases |h|
  {
    if h == "" {
      assert h + rest == rest && name + h == name;
    } else {
      assert (h + rest)[1..] == h[1..] + rest && name + [h[0]] + h[1..] == name + h;
      NameRead(name + [h[0]], h[1..], rest, out);
    }
  }

  /** The string behind the first name. */
  function Behind(t: List<string>): string {
    if t.Nil? then "" else "|" + JoinBars(t)
  }

  lemma JoinCons(h: string, t: List<string>)
    ensures JoinBars(Cons(h, t)) == h + Behind(t)
  {}

  /** The loop with the first name read. */
  lemma {:induction false} NamesFrom(h: string, t: List<string>, out: string)
    requires LaterNames(t)
    ensures Directives(h, Behind(t), out) == Some(out + IncludeLines(Cons(h, t)))
    decreases t
  {
    if t.Nil? {
      assert IncludeLines(t) == "" && Directive(h) + "" == Directive(h);
    } else {
      var next, u := t.head, Behind(t.tail);
      JoinCons(next, t.tail);
      var rest := "|" + (next + u);
      assert rest[1] == next[0] && rest[2..] == next[1..] + u && [next[0]] + next[1..] == next;
      NameRead([next[0]], next[1..], u, out + Directive(h));
      NamesFrom(next, t.tail, out + Directive(h));
      assert out + Directive(h) + IncludeLines(t) == out + (Directive(h) + IncludeLines(t));
    }
  }

  /** An include string gives one line for each of its names that is not empty, in order. */
  lemma NamesPrinted(names: List<string>, out: string)
    requires BarNames(names)
    ensures Directives("", JoinBars(names), out) == Some(out + IncludeLines(names))
  {
    var h, u := names.head, Behind(names.tail);
    JoinCons(h, names.tail);
    assert "" + h == h;
    NameRead("", h, u, out);
    NamesFrom(h, names.tail, out);
  }

  /** Every string in which the loop stays inside is such a list of names. */
  lemma {:induction false} NamesExist(s: string) returns (h: string, t: List<string>)
    requires TrailingBars(s) % 2 == 0
    ensures '|' !in h && LaterNames(t) && s == h + Behind(t)
    decreases |s|
  {
    if s == "" {
      h, t := "", Nil;
    } else if s[0] != '|' {
      TrailingBarsOfTail(s);
      h, t := NamesExist(s[1..]);
      MoreOfName(s, h, t);
      h := [s[0]] + h;
    } else {
      BarPaired(s);
      var h1, t1 := NamesExist(s[2..]);
      MoreNames(s, h1, t1);
      h, t := "", Cons([s[1]] + h1, t1);
    }
  }

  lemma MoreOfName(s: string, h: string, t: List<string>)
    requires s != "" && s[0] != '|' && '|' !in h && s[1..] == h + Behind(t)
    ensures '|' !in [s[0]] + h && s == [s[0]] + h + Behind(t)
  {
    assert s == [s[0]] + s[1..];
    assert [s[0]] + (h + Behind(t)) == [s[0]] + h + Behind(t);
  }

  lemma MoreNames(s: string, h: string, t: List<string>)
    requires |s| > 1 && s[0] == '|' && '|' !in h && LaterNames(t) && s[2..] == h + Behind(t)
    ensures LaterNames(Cons([s[1]] + h, t)) && s == "" + Behind(Cons([s[1]] + h, t))
  {
    var c := s[1];
    NextName(c, h, t);
    JoinCons([c] + h, t);
    AfterBar(s, h, Behind(t));
    assert "" + Behind(Cons([c] + h, t)) == Behind(Cons([c] + h, t));
  }

  lemma NextName(c: char, h: string, t: List<string>)
    requires '|' !in h && LaterNames(t)
    ensures LaterNames(Cons([c] + h, t))
  {
    assert ([c] + h)[1..] == h;
  }

  lemma AfterBar(s: string, h: string, u: string)
    requires |s| > 1 && s[0] == '|' && s[2..] == h + u
    ensures s == "|" + ([s[1]] + h + u)
  {
    assert s == [s[0], s[1]] + s[2..];
  }

  lemma BarPaired(s: string)
    requires s != "" && s[0] == '|' && TrailingBars(s) % 2 == 0
    ensures |s| > 1 && TrailingBars(s[2..]) % 2 == 0
  {
    if |s| > 1 {
      PairOfBars(s);
    }
  }

  lemma NamesOfString(s: string) returns (names: List<string>)
    requires TrailingBars(s) % 2 == 0
    ensures BarNames(names) && JoinBars(names) == s
  {
    var h, t := NamesExist(s);
    names := Cons(h, t);
    JoinCons(h, t);
  }
}
