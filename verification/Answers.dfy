/** From source text to printed text: what `incbot` answers, said without its loops. */
module Answers {
  import opened Interning
  import opened Lists
  import opened Lexing
  import opened CodeStream
  import opened IdTable
  import opened Syncing
  import opened Tokens
  import opened Includes
  import opened References
  import opened Emit

  /** The lookups for a whole source text. */
  function Uses(src: string): List<Use> {
    Scan(CodeOf(src), 0, 0, false)
  }

  /** The lookups for several source texts, in order. */
  function AllUses(srcs: seq<string>): List<Use> {
    if srcs == [] then Nil else AllUses(srcs[..|srcs| - 1]).Plus(Uses(srcs[|srcs| - 1]))
  }

  /** What entry `e` gives: its include string, and its identifier with its type. */
  function KeyAt(v: Tables, e: nat): Key
    requires e < |v.rows|
  {
    Key(v.rows[e].src1, Import(v.rows[e].sym, PrintedAs(v.rows[e].typ)))
  }

  /** The use `u` needs what the entry of its name gives. */
  ghost predicate NeededBy(v: ValidTables, u: Use, k: Key) {
    exists e :: NeededFrom(v, u, e, k)
  }

  ghost predicate NeededFrom(v: ValidTables, u: Use, e: nat, k: Key) {
    && e < |v.rows| && e + 1 < |v.st.ids|
    && u.name == v.st.ids[e + 1]
    && k == KeyAt(v, e)
    && Provides(v, e, u.call)
  }

  ghost predicate Needed(v: ValidTables, us: List<Use>, k: Key)
    decreases us
  {
    us.Cons? && (NeededBy(v, us.head, k) || Needed(v, us.tail, k))
  }

  /** Every include string that is needed can be printed. */
  ghost predicate Prints(v: ValidTables, us: List<Use>) {
    forall k :: Needed(v, us, k) ==> KeyOk(v, k)
  }

  /** `out` is an answer for the lookups `us`: the rendering of a strictly increasing list of keys that
      holds nothing but what is needed, and every include string and identifier that is. */
  ghost predicate Answer(v: ValidTables, us: List<Use>, out: string) {
    exists ks :: AnswerWith(v, us, ks, out)
  }

  ghost predicate AnswerWith(v: ValidTables, us: List<Use>, ks: List<Key>, out: string) {
    && AllOk(v, ks) && Increasing(v, ks)
    && GroupsOk(v, Groups(ks)) && GroupsIncrease(v, Groups(ks)) && out == Render(v, Groups(ks), "")
    && (forall k :: HasKey(ks, k) ==> Needed(v, us, k))
    && forall k :: Needed(v, us, k) ==> HasSame(ks, k)
  }

  /** No identifier is needed with two types for one include string. */
  ghost predicate Unambiguous(v: ValidTables, us: List<Use>) {
    forall k, k' :: Needed(v, us, k) && Needed(v, us, k') && k.Same(k') ==> k == k'
  }

  /** There is at most one answer, and it depends only on what is needed. */
  lemma AnswerUnique(v: ValidTables, us: List<Use>, us': List<Use>, out: string, out': string)
    requires Answer(v, us, out) && Answer(v, us', out') && Unambiguous(v, us)
    requires forall k :: Needed(v, us, k) <==> Needed(v, us', k)
    ensures out == out'
  {
    var ks :| AnswerWith(v, us, ks, out);
    var ks' :| AnswerWith(v, us', ks', out');
    forall k
      ensures HasKey(ks, k) ==> Needed(v, us, k) && HasSame(ks', k)
      ensures HasKey(ks', k) ==> Needed(v, us, k) && HasSame(ks, k)
    {
      assert Needed(v, us, k) <==> Needed(v, us', k);
    }
    SameKeysUnique(v, ks, ks');
  }

  /** An answer exists only where everything needed can be printed. */
  lemma AnswerPrints(v: ValidTables, us: List<Use>, out: string)
    requires Answer(v, us, out)
    ensures Prints(v, us)
  {
    var ks :| AnswerWith(v, us, ks, out);
    forall k | Needed(v, us, k)
      ensures KeyOk(v, k)
    {
      var k' := SameKey(ks, k);
      HasOk(v, ks, k');
    }
  }

  /** Where nothing is needed, nothing is printed. */
  lemma AnswerOfNone(v: ValidTables, us: List<Use>, out: string)
    requires Answer(v, us, out) && forall k :: !Needed(v, us, k)
    ensures out == ""
  {
    var ks :| AnswerWith(v, us, ks, out);
    if ks.Cons? {
      assert HasKey(ks, ks.head);
    }
  }

  /** Where one key is needed, its directive and its line are printed. */
  lemma AnswerOfOne(v: ValidTables, us: List<Use>, k: Key, out: string)
    requires Answer(v, us, out) && (forall k' :: Needed(v, us, k') <==> k' == k)
    ensures KeyOk(v, k)
    ensures v.st.strs[k.inc] != "" && '|' !in v.st.strs[k.inc] ==>
      out == "#include <" + v.st.strs[k.inc] + ">\n" + ImportLine(k.imp.typ, v.st.ids[k.imp.ref])
  {
    AnswerPrints(v, us, out);
    assert Needed(v, us, k);
    var ks :| AnswerWith(v, us, ks, out);
    OnlyKey(v, ks, k);
    if v.st.strs[k.inc] != "" && '|' !in v.st.strs[k.inc] {
      OneGroupText(v, k);
    }
  }

  /** An increasing list in which one key occurs and no other. */
  lemma OnlyKey(v: ValidTables, ks: List<Key>, k: Key)
    requires AllOk(v, ks) && Increasing(v, ks) && HasSame(ks, k) && forall k' :: HasKey(ks, k') ==> k' == k
    ensures ks == Cons(k, Nil)
  {
    assert HasKey(ks, ks.head);
    HeadNotBehind(v, ks);
    if ks.tail.Cons? {
      assert HasKey(ks, ks.tail.head);
    }
  }

  lemma OneGroupText(v: ValidTables, k: Key)
    requires KeyOk(v, k) && v.st.strs[k.inc] != "" && '|' !in v.st.strs[k.inc]
    ensures GroupsOk(v, Groups(Cons(k, Nil)))
    ensures Render(v, Groups(Cons(k, Nil)), "")
         == "#include <" + v.st.strs[k.inc] + ">\n" + ImportLine(k.imp.typ, v.st.ids[k.imp.ref])
  {
    var inc, g := v.st.strs[k.inc], Group(k.inc, Cons(k.imp, Nil));
    OneHeader(inc);
    assert Groups(Cons(k, Nil)) == Cons(g, Nil);
    GroupsAreOk(v, Cons(k, Nil));
    RenderText(v, g, Nil, Cons(inc, Nil), "");
    assert ImportLines(v, g.imports.tail) == "";
  }

  /** What is needed is what entries give. */
  lemma {:induction false} NeededEntry(v: ValidTables, us: List<Use>, k: Key) returns (e: nat, u: Use)
    requires Needed(v, us, k)
    ensures NeededFrom(v, u, e, k) && Has(us, u)
    decreases us
  {
    if NeededBy(v, us.head, k) {
      u := us.head;
      e :| NeededFrom(v, u, e, k);
    } else {
      e, u := NeededEntry(v, us.tail, k);
    }
  }

  /** Where every entry is that of its own identifier, nothing is ambiguous. */
  lemma InStepUnambiguous(v: ValidTables, us: List<Use>)
    requires InStep(v.rows)
    ensures Unambiguous(v, us)
  {
    forall k, k' | Needed(v, us, k) && Needed(v, us, k') && k.Same(k')
      ensures k == k'
    {
      var e, u := NeededEntry(v, us, k);
      var e', u' := NeededEntry(v, us, k');
    }
  }

  // ---- The references hold what is needed

  /** The references are good, and their keys are exactly those needed. */
  ghost predicate Holds(v: ValidTables, refs: seq<IncRef>, us: List<Use>) {
    RefsOk(v, refs) && forall k :: Occurs(v, refs, 0, k) <==> Needed(v, us, k)
  }

  lemma HoldsNothing(v: ValidTables)
    ensures Holds(v, [], Nil)
  {}

  lemma {:induction false} NeededPlus(v: ValidTables, a: List<Use>, b: List<Use>, k: Key)
    ensures Needed(v, a.Plus(b), k) <==> Needed(v, a, k) || Needed(v, b, k)
    decreases a
  {
    if a.Cons? {
      NeededPlus(v, a.tail, b, k);
    }
  }

  /** The reference of one lookup carries the key that the lookup needs. */
  lemma RefOfNeeded(v: ValidTables, u: Use, k: Key)
    requires Distinct(v.st.ids) && HasEntry(v, u)
    ensures RefOf(v, u).Some? && KeyOf(v, RefOf(v, u).value) == k <==> NeededBy(v, u, k)
  {
    if RefOf(v, u).Some? {
      var e := RefOf(v, u).value.ref_idnr;
      RefOfExact(v, u, e);
      assert KeyOf(v, RefOf(v, u).value) == k ==> NeededFrom(v, u, e, k);
    }
    if NeededBy(v, u, k) {
      var e :| NeededFrom(v, u, e, k);
      RefOfExact(v, u, e);
    }
  }

  lemma RefOfOk(v: ValidTables, u: Use)
    requires RefOf(v, u).Some? && Identified(v)
    ensures RefOk(v, RefOf(v, u).value)
  {
    var r := RefOf(v, u).value;
    assert RowBounded(v.st, v.rows[r.ref_idnr]);
  }

  /** Every entry with an include string has an identifier. */
  ghost predicate Identified(v: Tables) {
    forall e :: 0 <= e < |v.rows| && v.rows[e].src1 != 0 ==> v.rows[e].sym != 0
  }

  lemma OccursSnoc(v: Tables, refs: seq<IncRef>, r: IncRef, k: Key)
    ensures Occurs(v, refs + [r], 0, k) <==> Occurs(v, refs, 0, k) || KeyOf(v, r) == k
  {
    assert (refs + [r])[|refs|] == r;
    assert forall j :: 0 <= j < |refs| ==> (refs + [r])[j] == refs[j];
  }

  lemma {:induction false} RecordedNeeded(v: ValidTables, refs: seq<IncRef>, us: List<Use>, k: Key)
    requires Distinct(v.st.ids) && AllHaveEntries(v, us)
    ensures Occurs(v, Recorded(v, refs, us), 0, k) <==> Occurs(v, refs, 0, k) || Needed(v, us, k)
    decreases us
  {
    if us.Cons? {
      RecordedNeeded(v, Record1(v, refs, us.head), us.tail, k);
      RefOfNeeded(v, us.head, k);
      if RefOf(v, us.head).Some? {
        OccursSnoc(v, refs, RefOf(v, us.head).value, k);
      }
    }
  }

  lemma {:induction false} RecordedOk(v: ValidTables, refs: seq<IncRef>, us: List<Use>)
    requires Identified(v) && RefsOk(v, refs)
    ensures RefsOk(v, Recorded(v, refs, us))
    decreases us
  {
    if us.Cons? {
      if RefOf(v, us.head).Some? {
        RefOfOk(v, us.head);
      }
      RecordedOk(v, Record1(v, refs, us.head), us.tail);
    }
  }

  /** Recording the lookups of one more source text keeps the references exact. */
  lemma HoldsMore(v: ValidTables, refs: seq<IncRef>, us: List<Use>, more: List<Use>)
    requires Distinct(v.st.ids) && Identified(v) && AllHaveEntries(v, more) && Holds(v, refs, us)
    ensures Holds(v, Recorded(v, refs, more), us.Plus(more))
  {
    RecordedOk(v, refs, more);
    forall k
      ensures Occurs(v, Recorded(v, refs, more), 0, k) <==> Needed(v, us.Plus(more), k)
    {
      RecordedNeeded(v, refs, more, k);
      NeededPlus(v, us, more, k);
    }
  }

  /** The references print exactly when all that is needed does. */
  lemma PrintsExact(v: ValidTables, refs: seq<IncRef>, us: List<Use>)
    requires Holds(v, refs, us)
    ensures KeysPrintable(v, refs) <==> Prints(v, us)
  {
    if KeysPrintable(v, refs) {
      forall k | Needed(v, us, k)
        ensures KeyOk(v, k)
      {
        assert Occurs(v, refs, 0, k);
      }
    }
    if Prints(v, us) {
      forall i | 0 <= i < |refs|
        ensures KeyOk(v, KeyOf(v, refs[i]))
      {
        assert Occurs(v, refs, 0, KeyOf(v, refs[i]));
      }
    }
  }

  /** What an earlier source text needs stays needed. */
  lemma {:induction false} NeededEarlier(v: ValidTables, srcs: seq<string>, n: nat, k: Key)
    requires n <= |srcs| && Needed(v, AllUses(srcs[..n]), k)
    ensures Needed(v, AllUses(srcs), k)
  {
    if n == |srcs| {
      assert srcs[..n] == srcs;
    } else {
      var init := srcs[..|srcs| - 1];
      assert init[..n] == srcs[..n];
      NeededEarlier(v, init, n, k);
      NeededPlus(v, AllUses(init), Uses(srcs[|srcs| - 1]), k);
    }
  }

  /** Sorted references that hold what is needed print as the answer. */
  lemma SortedAnswer(v: ValidTables, refs: seq<IncRef>, us: List<Use>)
    requires Distinct(v.st.ids) && Distinct(v.st.strs)
    requires Holds(v, refs, us) && Sorted(v.st, refs) && KeysPrintable(v, refs)
    ensures Answer(v, us, EmitFrom(v, refs, 0, NO_KEY, ""))
  {
    var ks := Keys(v, refs, 0, NO_KEY);
    PrintedGroups(v, refs);
    KeysIncrease(v, refs, 0, NO_KEY);
    forall k
      ensures HasKey(ks, k) ==> Needed(v, us, k)
      ensures Needed(v, us, k) ==> HasSame(ks, k)
    {
      KeyOccurs(v, refs, k);
    }
    assert AnswerWith(v, us, ks, EmitFrom(v, refs, 0, NO_KEY, ""));
  }

  // ---- What is needed, in terms of the source text

  /** Somewhere in the code stream stands the identifier of `k`, as a call or not, in a place
      where its entry provides the include string of `k`. */
  ghost predicate Justified(v: ValidTables, code: string, k: Key) {
    exists i, j :: JustifiedAt(v, code, i, j, k)
  }

  ghost predicate JustifiedAt(v: ValidTables, code: string, i: nat, j: nat, k: Key) {
    TokenAt(code, i, j) && NeededBy(v, Use(code[i..j], ParenFollows(code[j..]), 0), k)
  }

  lemma NeededUnnumberedBy(v: ValidTables, u: Use, k: Key)
    ensures NeededBy(v, u, k) <==> NeededBy(v, u.(lnr := 0), k)
  {
    assert forall e :: NeededFrom(v, u, e, k) <==> NeededFrom(v, u.(lnr := 0), e, k);
  }

  lemma {:induction false} NeededUnnumbered(v: ValidTables, us: List<Use>, k: Key)
    ensures Needed(v, us, k) <==> exists u :: Has(Unnumbered(us), u) && NeededBy(v, u, k)
    decreases us
  {
    if us.Cons? {
      NeededUnnumbered(v, us.tail, k);
      var u := us.head.(lnr := 0);
      NeededUnnumberedBy(v, us.head, k);
      assert Has(Unnumbered(us), u);
      assert forall w :: Has(Unnumbered(us), w) <==> w == u || Has(Unnumbered(us.tail), w);
    }
  }

  /** Whatever is needed is justified by some code token. */
  lemma NeededJustified(v: ValidTables, src: string, k: Key)
    requires Needed(v, Uses(src), k)
    ensures Justified(v, CodeOf(src), k)
  {
    var code := CodeOf(src);
    NeededUnnumbered(v, Uses(src), k);
    var u :| Has(Unnumbered(Uses(src)), u) && NeededBy(v, u, k);
    assert code[0..] == code;
    ScanSound(code, 0, 0, 0, false, u);
    var i: nat, j: nat :| OccursAt(code, i, j, u);
    assert JustifiedAt(v, code, i, j, k);
  }

  /** Whatever a code token justifies is needed, unless the token is on an `#include` line. */
  lemma JustifiedNeeded(v: ValidTables, src: string, i: nat, j: nat, k: Key)
    requires JustifiedAt(v, CodeOf(src), i, j, k) && !OnIncludeLine(CodeOf(src), i)
    ensures Needed(v, Uses(src), k)
  {
    var code := CodeOf(src);
    var u := Use(code[i..j], ParenFollows(code[j..]), 0);
    assert code[0..] == code && OccursAt(code, i, j, u);
    ScanComplete(code, 0, 0, 0, false, i, j, u);
    NeededUnnumbered(v, Uses(src), k);
  }

  /** For a code stream in which no token `include` has a `#` before it, what is needed is exactly what
      some code token justifies. */
  lemma NeededExact(v: ValidTables, src: string, k: Key)
    requires Quiet(CodeOf(src), false)
    ensures Needed(v, Uses(src), k) <==> Justified(v, CodeOf(src), k)
  {
    if Needed(v, Uses(src), k) {
      NeededJustified(v, src, k);
    }
    if Justified(v, CodeOf(src), k) {
      var i: nat, j: nat :| JustifiedAt(v, CodeOf(src), i, j, k);
      JustifiedNeeded(v, src, i, j, k);
    }
  }

  /** The same for several source texts. */
  lemma {:induction false} AllNeededExact(v: ValidTables, srcs: seq<string>, k: Key)
    requires forall i :: 0 <= i < |srcs| ==> Quiet(CodeOf(srcs[i]), false)
    ensures Needed(v, AllUses(srcs), k) <==> exists i :: 0 <= i < |srcs| && Justified(v, CodeOf(srcs[i]), k)
  {
    if srcs != [] {
      var init, last := srcs[..|srcs| - 1], srcs[|srcs| - 1];
      AllNeededExact(v, init, k);
      NeededPlus(v, AllUses(init), Uses(last), k);
      NeededExact(v, last, k);
      assert forall i :: 0 <= i < |init| ==> init[i] == srcs[i];
    }
  }

  lemma {:induction false} AllUsesSame(a: seq<string>, b: seq<string>)
    requires |a| == |b| && forall i :: 0 <= i < |a| ==> Uses(a[i]) == Uses(b[i])
    ensures AllUses(a) == AllUses(b)
  {
    if a != [] {
      AllUsesSame(a[..|a| - 1], b[..|b| - 1]);
    }
  }

  /** The body of a comment or a literal never changes the answers, whatever surrounds it and whatever
      other source texts come before and after. */
  lemma BodiesDoNotMatter(v: ValidTables, srcs: seq<string>, i: nat, p: string, h: Hidden, h': Hidden, rest: string,
                          out: string, out': string)
    requires i < |srcs| && RunState(Start, p) == Start && h.WellFormed() && h'.WellFormed()
    ensures var a, b := srcs[i := p + h.Text() + rest], srcs[i := p + h'.Text() + rest];
      && (Answer(v, AllUses(a), out) <==> Answer(v, AllUses(b), out))
      && (Unambiguous(v, AllUses(a)) && Answer(v, AllUses(a), out) && Answer(v, AllUses(b), out') ==> out == out')
  {
    var a, b := srcs[i := p + h.Text() + rest], srcs[i := p + h'.Text() + rest];
    HiddenContributesNothing(p, h, rest);
    HiddenContributesNothing(p, h', rest);
    AllUsesSame(a, b);
    if Unambiguous(v, AllUses(a)) && Answer(v, AllUses(a), out) && Answer(v, AllUses(b), out') {
      AnswerUnique(v, AllUses(a), AllUses(b), out, out');
    }
  }

  // ---- What `#include` lines hide

  /** The lookups for a source text are the words of its code stream. */
  lemma UsesAreWords(src: string)
    ensures Unnumbered(Uses(src)) == Words(CodeOf(src))
  {
    ScanIsLookups(CodeOf(src), 0, 0, false);
  }

  lemma {:induction false} UnnumberedPlus(a: List<Use>, b: List<Use>)
    ensures Unnumbered(a.Plus(b)) == Unnumbered(a).Plus(Unnumbered(b))
    decreases a
  {
    if a.Cons? {
      UnnumberedPlus(a.tail, b);
    }
  }

  lemma {:induction false} AllUsesAlike(a: seq<string>, b: seq<string>)
    requires |a| == |b| && forall i :: 0 <= i < |a| ==> Unnumbered(Uses(a[i])) == Unnumbered(Uses(b[i]))
    ensures Unnumbered(AllUses(a)) == Unnumbered(AllUses(b))
  {
    if a != [] {
      var n := |a| - 1;
      AllUsesAlike(a[..n], b[..n]);
      UnnumberedPlus(AllUses(a[..n]), Uses(a[n]));
      UnnumberedPlus(AllUses(b[..n]), Uses(b[n]));
    }
  }

  /** The same lookups but for their lines need the same. */
  lemma AlikeNeeded(v: ValidTables, us: List<Use>, us': List<Use>, k: Key)
    requires Unnumbered(us) == Unnumbered(us')
    ensures Needed(v, us, k) <==> Needed(v, us', k)
  {
    NeededUnnumbered(v, us, k);
    NeededUnnumbered(v, us', k);
  }

  lemma AlikeAnswer(v: ValidTables, us: List<Use>, us': List<Use>, out: string)
    requires Unnumbered(us) == Unnumbered(us') && Answer(v, us, out)
    ensures Answer(v, us', out)
  {
    var ks :| AnswerWith(v, us, ks, out);
    forall k
      ensures Needed(v, us, k) <==> Needed(v, us', k)
    {
      AlikeNeeded(v, us, us', k);
    }
    assert AnswerWith(v, us', ks, out);
  }

  /** The code of `src` has an `#include` line behind `p`, with `b` behind the word `include`. */
  ghost predicate IncludesAt(src: string, p: string, a: string, b: string, rest: string) {
    && CodeOf(src) == p + ("#" + IncludeLine(a, b, rest)) && (p == "" || EndsLine(p))
    && IncludeParts(a, b) && DropSpaces(b) != ""
  }

  /** The names in an `#include` line never change what is printed, unless a word with no directive open
      stands before the line and nothing but white space between. */
  lemma IncludedNamesDoNotMatter(v: ValidTables, srcs: seq<string>, i: nat, src: string, src': string,
                                 p: string, a: string, b: string, b': string, rest: string, out: string)
    requires i < |srcs| && IncludesAt(src, p, a, b, rest) && IncludesAt(src', p, a, b', rest)
    requires ParenFollows(b) == ParenFollows(b') && Leaves(p, true, false) != AtWord(false)
    ensures Answer(v, AllUses(srcs[i := src]), out) <==> Answer(v, AllUses(srcs[i := src']), out)
  {
    HidesExact(p);
    assert LikeEnds(a, b, b');
    UsesAreWords(src);
    UsesAreWords(src');
    AllUsesAlike(srcs[i := src], srcs[i := src']);
    if Answer(v, AllUses(srcs[i := src]), out) {
      AlikeAnswer(v, AllUses(srcs[i := src]), AllUses(srcs[i := src']), out);
    }
    if Answer(v, AllUses(srcs[i := src']), out) {
      AlikeAnswer(v, AllUses(srcs[i := src']), AllUses(srcs[i := src]), out);
    }
  }

  /** Nor is any of them needed: what is needed is needed before the line, for the word `include` itself,
      or below the line. */
  lemma IncludedNamesNotNeeded(v: ValidTables, src: string, p: string, a: string, b: string, rest: string, k: Key)
    requires IncludesAt(src, p, a, b, rest) && Leaves(p, true, false) != AtWord(false)
    ensures var call := Leaves(p, true, false) != AtInclude && ParenFollows(b);
      Needed(v, Uses(src), k) <==>
        Needed(v, Words(p), k) || NeededBy(v, Use("include", call, 0), k) || Needed(v, Words(rest), k)
  {
    var call := Leaves(p, true, false) != AtInclude && ParenFollows(b);
    var below := Cons(Use("include", call, 0), Words(rest));
    IncludeInText(p, a, b, rest);
    UsesAreWords(src);
    WordsUnnumbered(CodeOf(src));
    AlikeNeeded(v, Uses(src), Words(CodeOf(src)), k);
    NeededPlus(v, Words(p), below, k);
  }

  lemma WordsUnnumbered(t: string)
    ensures Unnumbered(Words(t)) == Words(t)
  {
    ScanIsLookups(t, 0, 0, false);
    UnnumberedTwice(Scan(t, 0, 0, false));
  }

  lemma {:induction false} UnnumberedTwice(us: List<Use>)
    ensures Unnumbered(Unnumbered(us)) == Unnumbered(us)
    decreases us
  {
    if us.Cons? {
      UnnumberedTwice(us.tail);
    }
  }
}
