/** What `show_includes` prints: one group for each include string, one line in it for
    each identifier.  Where no identifier has two types, the text is a function of the set of
    references alone. */
module Emit {
  import opened CStrings
  import opened Interning
  import opened Lists
  import opened IdTable
  import opened References
  import opened Headers

  /** `refcmp` */
  function RefCmp(st: Store, a: IncRef, b: IncRef): int
    requires Names(st, a) && Names(st, b)
  {
    var cmp := StrCmp(st.strs[a.inc_sym], st.strs[b.inc_sym]);
    if cmp == 0 then StrCmp(st.ids[a.ref_sym], st.ids[b.ref_sym]) else cmp
  }

  /** A reference to an existing include string and an existing identifier. */
  predicate Names(st: Store, r: IncRef) {
    0 < r.inc_sym < |st.strs| && 0 < r.ref_sym < |st.ids|
  }

  ghost predicate AllNames(st: Store, refs: seq<IncRef>) {
    forall i :: 0 <= i < |refs| ==> Names(st, refs[i])
  }

  /** What `qsort` with `refcmp` establishes. */
  ghost predicate Sorted(st: Store, refs: seq<IncRef>) {
    AllNames(st, refs) && forall i, j :: 0 <= i < j < |refs| ==> RefCmp(st, refs[i], refs[j]) <= 0
  }

  lemma RefCmpTransitive(st: Store, a: IncRef, b: IncRef, c: IncRef)
    requires Names(st, a) && Names(st, b) && Names(st, c)
    requires RefCmp(st, a, b) <= 0 && RefCmp(st, b, c) <= 0
    ensures RefCmp(st, a, c) <= 0
  {
    StrCmpTransitive(st.strs[a.inc_sym], st.strs[b.inc_sym], st.strs[c.inc_sym]);
    if StrCmp(st.strs[a.inc_sym], st.strs[c.inc_sym]) == 0 {
      StrCmpTransitive(st.ids[a.ref_sym], st.ids[b.ref_sym], st.ids[c.ref_sym]);
    }
  }

  lemma RefCmpTotal(st: Store, a: IncRef, b: IncRef)
    requires Names(st, a) && Names(st, b)
    ensures RefCmp(st, a, b) <= 0 || RefCmp(st, b, a) <= 0
  {
    StrCmpAntisymmetric(st.strs[a.inc_sym], st.strs[b.inc_sym]);
    StrCmpAntisymmetric(st.ids[a.ref_sym], st.ids[b.ref_sym]);
  }

  /** Interning makes equal strings equal numbers, so ties are for the same include string and identifier. */
  lemma RefCmpZero(st: Store, a: IncRef, b: IncRef)
    requires Names(st, a) && Names(st, b) && Distinct(st.strs) && Distinct(st.ids)
    ensures RefCmp(st, a, b) == 0 <==> a.inc_sym == b.inc_sym && a.ref_sym == b.ref_sym
  {}

  // ---- The text

  /** `annotate_type` */
  function AnnotateType(t: IdType): string {
    match t
    case Constant => "constant"
    case Function => "function"
    case Keyword => "keyword"
    case Struct => "struct"
    case Typedef => "type"
    case Var => "var"
    case Unknown => "unknown"
    case _ => "?"
  }

  /** The line for one identifier. */
  function ImportLine(t: IdType, name: string): string {
    "    // Import "
    + (if Matches(t, {Function}) then name + "()"
       else if Matches(t, {Unknown}) then name
       else AnnotateType(t) + " " + name)
    + "\n"
  }

  /** The type as which a type is printed: an unknown letter has every bit of a mask. */
  function PrintedAs(t: IdType): IdType {
    if t == Invalid then Function else t
  }

  lemma PrintedLine(t: IdType, name: string)
    ensures ImportLine(PrintedAs(t), name) == ImportLine(t, name)
  {}

  /** Types that fit a use are printed alike only if they are printed as the same type. */
  lemma LinesDiffer(t: IdType, t': IdType, call: bool, call': bool, name: string)
    requires TypeFits(t, call) && TypeFits(t', call') && PrintedAs(t) != PrintedAs(t')
    ensures ImportLine(PrintedAs(t), name) != ImportLine(PrintedAs(t'), name)
  {
    LineLength(PrintedAs(t), name);
    LineLength(PrintedAs(t'), name);
  }

  lemma LineLength(t: IdType, name: string)
    requires t in {Function, Unknown, Typedef, Constant, Var, Struct}
    ensures |ImportLine(t, name)| == |ImportLine(Unknown, name)| +
      match t case Function => 2 case Var => 4 case Typedef => 5 case Struct => 7 case Constant => 9 case _ => 0
  {
    assert AnnotateType(Var) == "var" && AnnotateType(Typedef) == "type";
    assert AnnotateType(Struct) == "struct" && AnnotateType(Constant) == "constant";
  }

  /** An identifier, by number, and the type as which it is printed. */
  datatype Import = Import(ref: nat, typ: IdType)

  function Line(v: Tables, i: Import): string
    requires RefNumberOk(v, i.ref)
  {
    ImportLine(i.typ, v.st.ids[i.ref])
  }

  predicate RefNumberOk(v: Tables, ref: nat) {
    0 < ref < |v.st.ids|
  }

  /** The include string can be printed without reading past its end. */
  predicate Printable(s: string) {
    s != "" && s[|s| - 1] == '|' ==> !Printable(s[..|s| - 1])
  }

  /** An even number of bars ends it, and that is when the pointer loop stays inside. */
  lemma {:induction false} PrintableExact(s: string, out: string)
    ensures Printable(s) <==> TrailingBars(s) % 2 == 0
    ensures Printable(s) <==> Directives("", s, out).Some?
  {
    if s != "" && s[|s| - 1] == '|' {
      PrintableExact(s[..|s| - 1], out);
    }
    InsideIffEvenBars("", s, out);
  }

  /** The text after the directives of one include string. */
  function WithDirectives(s: string, out: string): string
    requires Printable(s)
  {
    PrintableExact(s, out);
    Directives("", s, out).value
  }

  /** An include string, by number, and what is imported from it. */
  datatype Key = Key(inc: nat, imp: Import) {
    /** The same include string and identifier, whatever the types. */
    predicate Same(k: Key) {
      inc == k.inc && imp.ref == k.imp.ref
    }
  }

  const NO_KEY: Key := Key(0, Import(0, NoType))

  function KeyOf(v: Tables, r: IncRef): Key {
    Key(r.inc_sym, Import(r.ref_sym, if r.ref_idnr < |v.rows| then PrintedAs(v.rows[r.ref_idnr].typ) else NoType))
  }

  /** Both numbers name something. */
  predicate KeyNamed(v: Tables, k: Key) {
    0 < k.inc < |v.st.strs| && RefNumberOk(v, k.imp.ref)
  }

  /** The key can be printed. */
  predicate KeyOk(v: Tables, k: Key) {
    KeyNamed(v, k) && Printable(v.st.strs[k.inc])
  }

  /** A recorded reference: its numbers name something, and it has an entry. */
  ghost predicate RefOk(v: Tables, r: IncRef) {
    KeyNamed(v, KeyOf(v, r)) && r.ref_idnr < |v.rows|
  }

  ghost predicate RefsOk(v: Tables, refs: seq<IncRef>) {
    forall i :: 0 <= i < |refs| ==> RefOk(v, refs[i])
  }

  ghost predicate KeysPrintable(v: Tables, refs: seq<IncRef>) {
    forall i :: 0 <= i < |refs| ==> KeyOk(v, KeyOf(v, refs[i]))
  }

  /** One round of the loop of `show_includes`: directives if the include string changes, a line
      if the identifier or the include string does. */
  function EmitOne(v: Tables, prev: Key, k: Key, out: string): string
    requires KeyOk(v, k)
  {
    var out1 := if k.inc != prev.inc then WithDirectives(v.st.strs[k.inc], out) else out;
    if !k.Same(prev) then out1 + Line(v, k.imp) else out1
  }

  /** The loop from reference `i` on. */
  ghost function EmitFrom(v: Tables, refs: seq<IncRef>, i: nat, prev: Key, out: string): string
    requires i <= |refs| && KeysPrintable(v, refs)
    decreases |refs| - i
  {
    if i == |refs| then out
    else
      assert KeyOk(v, KeyOf(v, refs[i]));
      EmitFrom(v, refs, i + 1, KeyOf(v, refs[i]), EmitOne(v, prev, KeyOf(v, refs[i]), out))
  }

  // ---- Groups

  /** The references without those that repeat include string and identifier of their neighbour. */
  function Keys(v: Tables, refs: seq<IncRef>, i: nat, prev: Key): List<Key>
    requires i <= |refs|
    decreases |refs| - i
  {
    if i == |refs| then Nil
    else
      var k := KeyOf(v, refs[i]);
      if k.Same(prev) then Keys(v, refs, i + 1, k) else Cons(k, Keys(v, refs, i + 1, k))
  }

  /** One include string with what is imported from it. */
  datatype Group = Group(inc: nat, imports: List<Import>)

  /** One more key in front of the groups. */
  function Front(k: Key, gs: List<Group>): List<Group> {
    if gs.Cons? && gs.head.inc == k.inc then Cons(Group(k.inc, Cons(k.imp, gs.head.imports)), gs.tail)
    else Cons(Group(k.inc, Cons(k.imp, Nil)), gs)
  }

  function Groups(ks: List<Key>): List<Group> {
    match ks
    case Nil => Nil
    case Cons(k, rest) => Front(k, Groups(rest))
  }

  predicate AllOk(v: Tables, ks: List<Key>) {
    ks.Cons? ==> KeyOk(v, ks.head) && AllOk(v, ks.tail)
  }

  predicate ImportsOk(v: Tables, imports: List<Import>) {
    imports.Cons? ==> RefNumberOk(v, imports.head.ref) && ImportsOk(v, imports.tail)
  }

  predicate GroupsOk(v: Tables, gs: List<Group>) {
    gs.Cons? ==>
      && 0 < gs.head.inc < |v.st.strs| && Printable(v.st.strs[gs.head.inc])
      && ImportsOk(v, gs.head.imports)
      && GroupsOk(v, gs.tail)
  }

  function RenderLines(v: Tables, imports: List<Import>, out: string): string
    requires ImportsOk(v, imports)
    decreases imports
  {
    match imports
    case Nil => out
    case Cons(k, rest) => RenderLines(v, rest, out + Line(v, k))
  }

  /** The text, group by group. */
  function Render(v: Tables, gs: List<Group>, out: string): string
    requires GroupsOk(v, gs)
    decreases gs
  {
    match gs
    case Nil => out
    case Cons(g, rest) => Render(v, rest, RenderLines(v, g.imports, WithDirectives(v.st.strs[g.inc], out)))
  }

  lemma {:induction false} GroupsAreOk(v: Tables, ks: List<Key>)
    requires AllOk(v, ks)
    ensures GroupsOk(v, Groups(ks))
  {
    if ks.Cons? {
      GroupsAreOk(v, ks.tail);
    }
  }

  /** The text when the group of `prev` is already open. */
  function RenderOpen(v: Tables, gs: List<Group>, prev: nat, out: string): string
    requires GroupsOk(v, gs)
  {
    if gs.Cons? && gs.head.inc == prev then Render(v, gs.tail, RenderLines(v, gs.head.imports, out))
    else Render(v, gs, out)
  }

  lemma {:induction false} KeysOk(v: Tables, refs: seq<IncRef>, i: nat, prev: Key)
    requires i <= |refs| && KeysPrintable(v, refs)
    ensures AllOk(v, Keys(v, refs, i, prev))
    decreases |refs| - i
  {
    if i < |refs| {
      KeysOk(v, refs, i + 1, KeyOf(v, refs[i]));
    }
  }

  /** The loop prints the groups of the references. */
  lemma {:induction false} EmitIsRender(v: Tables, refs: seq<IncRef>, i: nat, prev: Key, out: string)
    requires i <= |refs| && KeysPrintable(v, refs)
    ensures GroupsOk(v, Groups(Keys(v, refs, i, prev)))
    ensures EmitFrom(v, refs, i, prev, out) == RenderOpen(v, Groups(Keys(v, refs, i, prev)), prev.inc, out)
    decreases |refs| - i
  {
    KeysOk(v, refs, i, prev);
    GroupsAreOk(v, Keys(v, refs, i, prev));
    if i < |refs| {
      var k := KeyOf(v, refs[i]);
      EmitIsRender(v, refs, i + 1, k, EmitOne(v, prev, k, out));
      if !k.Same(prev) {
        RenderFirst(v, k, Keys(v, refs, i + 1, k), prev, out);
      }
    }
  }

  /** The next key continues the open group or opens one. */
  lemma RenderFirst(v: Tables, k: Key, ks: List<Key>, prev: Key, out: string)
    requires KeyOk(v, k) && AllOk(v, ks) && !k.Same(prev)
    ensures GroupsOk(v, Groups(ks)) && GroupsOk(v, Groups(Cons(k, ks)))
    ensures RenderOpen(v, Groups(Cons(k, ks)), prev.inc, out)
         == RenderOpen(v, Groups(ks), k.inc, EmitOne(v, prev, k, out))
  {
    GroupsAreOk(v, ks);
    GroupsAreOk(v, Cons(k, ks));
    RenderJoin(v, k, Groups(ks), if k.inc != prev.inc then WithDirectives(v.st.strs[k.inc], out) else out);
  }

  lemma RenderJoin(v: Tables, k: Key, gs: List<Group>, out: string)
    requires KeyOk(v, k) && GroupsOk(v, gs) && GroupsOk(v, Front(k, gs))
    ensures RenderOpen(v, Front(k, gs), k.inc, out) == RenderOpen(v, gs, k.inc, out + Line(v, k.imp))
  {
    if !(gs.Cons? && gs.head.inc == k.inc) {
      assert RenderLines(v, Cons(k.imp, Nil), out) == RenderLines(v, Nil, out + Line(v, k.imp));
    }
  }

  // ---- The groups are in order, and are determined by the set of references

  /** The include string comes first; for one include string, the identifier does. */
  ghost predicate KeyLess(st: Store, a: Key, b: Key)
    requires a.inc < |st.strs| && b.inc < |st.strs| && a.imp.ref < |st.ids| && b.imp.ref < |st.ids|
  {
    || Below(st.strs[a.inc], st.strs[b.inc])
    || (st.strs[a.inc] == st.strs[b.inc] && Below(st.ids[a.imp.ref], st.ids[b.imp.ref]))
  }

  lemma KeyLessCmp(st: Store, a: Key, b: Key)
    requires a.inc < |st.strs| && b.inc < |st.strs| && a.imp.ref < |st.ids| && b.imp.ref < |st.ids|
    ensures var cmp := StrCmp(st.strs[a.inc], st.strs[b.inc]);
      KeyLess(st, a, b) <==> cmp < 0 || (cmp == 0 && StrCmp(st.ids[a.imp.ref], st.ids[b.imp.ref]) < 0)
  {
    StrCmpExact(st.strs[a.inc], st.strs[b.inc]);
    StrCmpExact(st.ids[a.imp.ref], st.ids[b.imp.ref]);
  }

  /** Strictly increasing, include strings first. */
  ghost predicate Increasing(v: Tables, ks: List<Key>)
    requires AllOk(v, ks)
  {
    ks.Cons? && ks.tail.Cons? ==>
      KeyOk(v, ks.tail.head) && KeyLess(v.st, ks.head, ks.tail.head) && Increasing(v, ks.tail)
  }

  predicate HasKey(ks: List<Key>, k: Key) {
    ks.Cons? && (ks.head == k || HasKey(ks.tail, k))
  }

  lemma KeyLessTransitive(st: Store, a: Key, b: Key, c: Key)
    requires a.inc < |st.strs| && b.inc < |st.strs| && c.inc < |st.strs|
    requires a.imp.ref < |st.ids| && b.imp.ref < |st.ids| && c.imp.ref < |st.ids|
    requires KeyLess(st, a, b) && KeyLess(st, b, c)
    ensures KeyLess(st, a, c)
  {
    KeyLessCmp(st, a, b);
    KeyLessCmp(st, b, c);
    KeyLessCmp(st, a, c);
    StrCmpTransitive(st.strs[a.inc], st.strs[b.inc], st.strs[c.inc]);
    if StrCmp(st.strs[a.inc], st.strs[c.inc]) == 0 {
      StrCmpTransitive(st.ids[a.imp.ref], st.ids[b.imp.ref], st.ids[c.imp.ref]);
    }
  }

  lemma KeyLessAsymmetric(st: Store, a: Key, b: Key)
    requires a.inc < |st.strs| && b.inc < |st.strs| && a.imp.ref < |st.ids| && b.imp.ref < |st.ids|
    requires KeyLess(st, a, b)
    ensures !KeyLess(st, b, a) && a != b
  {
    KeyLessCmp(st, a, b);
    KeyLessCmp(st, b, a);
    StrCmpAntisymmetric(st.strs[a.inc], st.strs[b.inc]);
    StrCmpAntisymmetric(st.ids[a.imp.ref], st.ids[b.imp.ref]);
  }

  lemma {:induction false} HasOk(v: Tables, ks: List<Key>, k: Key)
    requires AllOk(v, ks) && HasKey(ks, k)
    ensures KeyOk(v, k)
  {
    if ks.head != k {
      HasOk(v, ks.tail, k);
    }
  }

  /** The head of an increasing list is below everything behind it. */
  lemma {:induction false} HeadLeast(v: Tables, ks: List<Key>, k: Key)
    requires AllOk(v, ks) && Increasing(v, ks) && ks.Cons? && HasKey(ks.tail, k)
    ensures KeyOk(v, k) && KeyLess(v.st, ks.head, k)
  {
    HasOk(v, ks.tail, k);
    if ks.tail.head != k {
      HeadLeast(v, ks.tail, k);
      KeyLessTransitive(v.st, ks.head, ks.tail.head, k);
    }
  }

  /** An increasing list is determined by its members. */
  lemma {:induction false} IncreasingUnique(v: Tables, a: List<Key>, b: List<Key>)
    requires AllOk(v, a) && AllOk(v, b) && Increasing(v, a) && Increasing(v, b)
    requires forall k :: HasKey(a, k) <==> HasKey(b, k)
    ensures a == b
  {
    if a.Nil? || b.Nil? {
      assert a.Cons? ==> HasKey(a, a.head);
      assert b.Cons? ==> HasKey(b, b.head);
    } else {
      SameHead(v, a, b);
      forall k
        ensures HasKey(a.tail, k) <==> HasKey(b.tail, k)
      {
        assert HasKey(a, k) <==> HasKey(b, k);
        if k == a.head {
          HeadNotBehind(v, a);
          HeadNotBehind(v, b);
        }
      }
      IncreasingUnique(v, a.tail, b.tail);
    }
  }

  lemma HeadNotBehind(v: Tables, ks: List<Key>)
    requires AllOk(v, ks) && Increasing(v, ks) && ks.Cons?
    ensures !HasKey(ks.tail, ks.head)
  {
    if HasKey(ks.tail, ks.head) {
      HeadLeast(v, ks, ks.head);
      KeyLessAsymmetric(v.st, ks.head, ks.head);
    }
  }

  lemma SameHead(v: Tables, a: List<Key>, b: List<Key>)
    requires AllOk(v, a) && AllOk(v, b) && Increasing(v, a) && Increasing(v, b) && a.Cons? && b.Cons?
    requires forall k :: HasKey(a, k) <==> HasKey(b, k)
    ensures a.head == b.head
  {
    assert HasKey(a, a.head) && HasKey(b, b.head);
    if a.head != b.head {
      assert HasKey(b, a.head) && HasKey(a, b.head);
      HeadLeast(v, b, a.head);
      HeadLeast(v, a, b.head);
      KeyLessAsymmetric(v.st, a.head, b.head);
    }
  }

  ghost predicate Occurs(v: Tables, refs: seq<IncRef>, i: nat, k: Key) {
    exists j :: i <= j < |refs| && KeyOf(v, refs[j]) == k
  }

  /** The include string and the identifier of `k` occur, with some type. */
  predicate HasSame(ks: List<Key>, k: Key) {
    ks.Cons? && (ks.head.Same(k) || HasSame(ks.tail, k))
  }

  lemma {:induction false} SameKey(ks: List<Key>, k: Key) returns (k': Key)
    requires HasSame(ks, k)
    ensures HasKey(ks, k') && k'.Same(k)
  {
    if ks.head.Same(k) {
      k' := ks.head;
    } else {
      k' := SameKey(ks.tail, k);
    }
  }

  /** Every key is that of a reference, and the include string and identifier of every reference
      occur among the keys, unless they are those of `prev`. */
  lemma {:induction false} KeysExact(v: Tables, refs: seq<IncRef>, i: nat, prev: Key, k: Key)
    requires i <= |refs|
    ensures HasKey(Keys(v, refs, i, prev), k) ==> Occurs(v, refs, i, k)
    ensures Occurs(v, refs, i, k) ==> k.Same(prev) || HasSame(Keys(v, refs, i, prev), k)
    decreases |refs| - i
  {
    if i < |refs| {
      var k1 := KeyOf(v, refs[i]);
      assert Occurs(v, refs, i, k) <==> k1 == k || Occurs(v, refs, i + 1, k);
      KeysExact(v, refs, i + 1, k1, k);
    }
  }

  lemma CmpIsLess(v: Tables, a: IncRef, b: IncRef)
    requires KeyOk(v, KeyOf(v, a)) && KeyOk(v, KeyOf(v, b)) && Distinct(v.st.strs) && Distinct(v.st.ids)
    requires RefCmp(v.st, a, b) <= 0 && !KeyOf(v, a).Same(KeyOf(v, b))
    ensures KeyLess(v.st, KeyOf(v, a), KeyOf(v, b))
  {
    RefCmpZero(v.st, a, b);
    KeyLessCmp(v.st, KeyOf(v, a), KeyOf(v, b));
  }

  /** In sorted order the keys increase strictly. */
  lemma {:induction false} KeysIncrease(v: Tables, refs: seq<IncRef>, i: nat, prev: Key)
    requires KeysPrintable(v, refs) && Sorted(v.st, refs) && Distinct(v.st.strs) && Distinct(v.st.ids)
    requires i <= |refs| && (i > 0 ==> KeyOf(v, refs[i - 1]) == prev)
    ensures AllOk(v, Keys(v, refs, i, prev)) && Increasing(v, Keys(v, refs, i, prev))
    ensures i > 0 && Keys(v, refs, i, prev).Cons? ==>
      KeyOk(v, prev) && KeyLess(v.st, prev, Keys(v, refs, i, prev).head)
    decreases |refs| - i
  {
    KeysOk(v, refs, i, prev);
    if i < |refs| {
      var k := KeyOf(v, refs[i]);
      assert KeyOk(v, KeyOf(v, refs[i]));
      KeysIncrease(v, refs, i + 1, k);
      if i > 0 && !k.Same(prev) {
        assert KeyOk(v, KeyOf(v, refs[i - 1]));
        CmpIsLess(v, refs[i - 1], refs[i]);
      }
    }
  }

  /** The same include strings and identifiers, and with the same types. */
  ghost predicate SameKeys(a: List<Key>, b: List<Key>) {
    && (forall k :: HasKey(a, k) ==> HasSame(b, k))
    && (forall k :: HasKey(b, k) ==> HasSame(a, k))
    && forall k, k' :: HasKey(a, k) && HasKey(b, k') && k.Same(k') ==> k == k'
  }

  lemma SameKeysHave(a: List<Key>, b: List<Key>, k: Key)
    requires SameKeys(a, b)
    ensures HasKey(a, k) <==> HasKey(b, k)
  {
    if HasKey(a, k) {
      HasToo(b, k);
    }
    if HasKey(b, k) {
      HasToo(a, k);
    }
  }

  lemma SameKeysUnique(v: Tables, a: List<Key>, b: List<Key>)
    requires AllOk(v, a) && AllOk(v, b) && Increasing(v, a) && Increasing(v, b) && SameKeys(a, b)
    ensures a == b
  {
    forall k
      ensures HasKey(a, k) <==> HasKey(b, k)
    {
      SameKeysHave(a, b, k);
    }
    IncreasingUnique(v, a, b);
  }

  lemma HasToo(ks: List<Key>, k: Key)
    requires HasSame(ks, k) && forall k' :: HasKey(ks, k') && k'.Same(k) ==> k' == k
    ensures HasKey(ks, k)
  {
    var k' := SameKey(ks, k);
  }

  /** No identifier occurs with two types under one include string. */
  ghost predicate OneType(v: Tables, refs: seq<IncRef>) {
    forall k, k' :: Occurs(v, refs, 0, k) && Occurs(v, refs, 0, k') && k.Same(k') ==> k == k'
  }

  /** So it is where every reference is to the entry of its own identifier. */
  lemma OwnEntriesOneType(v: Tables, refs: seq<IncRef>)
    requires forall i :: 0 <= i < |refs| ==> refs[i].ref_idnr + 1 == refs[i].ref_sym
    ensures OneType(v, refs)
  {
    forall k, k' | Occurs(v, refs, 0, k) && Occurs(v, refs, 0, k') && k.Same(k')
      ensures k == k'
    {
      var i :| 0 <= i < |refs| && KeyOf(v, refs[i]) == k;
      var j :| 0 <= j < |refs| && KeyOf(v, refs[j]) == k';
    }
  }

  lemma KeyOccurs(v: Tables, refs: seq<IncRef>, k: Key)
    requires KeysPrintable(v, refs)
    ensures HasKey(Keys(v, refs, 0, NO_KEY), k) ==> Occurs(v, refs, 0, k)
    ensures Occurs(v, refs, 0, k) ==> HasSame(Keys(v, refs, 0, NO_KEY), k)
  {
    KeysExact(v, refs, 0, NO_KEY, k);
  }

  /** Sorted lists of the same references, however often each occurs, have the same keys. */
  lemma SameSetSameKeys(v: Tables, a: seq<IncRef>, b: seq<IncRef>)
    requires Distinct(v.st.strs) && Distinct(v.st.ids) && OneType(v, a)
    requires KeysPrintable(v, a) && KeysPrintable(v, b) && Sorted(v.st, a) && Sorted(v.st, b)
    requires forall k :: Occurs(v, a, 0, k) <==> Occurs(v, b, 0, k)
    ensures Keys(v, a, 0, NO_KEY) == Keys(v, b, 0, NO_KEY)
  {
    KeysIncrease(v, a, 0, NO_KEY);
    KeysIncrease(v, b, 0, NO_KEY);
    forall k
      ensures HasKey(Keys(v, a, 0, NO_KEY), k) ==> Occurs(v, a, 0, k) && HasSame(Keys(v, b, 0, NO_KEY), k)
      ensures HasKey(Keys(v, b, 0, NO_KEY), k) ==> Occurs(v, a, 0, k) && HasSame(Keys(v, a, 0, NO_KEY), k)
    {
      KeyOccurs(v, a, k);
      KeyOccurs(v, b, k);
      assert Occurs(v, a, 0, k) <==> Occurs(v, b, 0, k);
    }
    SameKeysUnique(v, Keys(v, a, 0, NO_KEY), Keys(v, b, 0, NO_KEY));
  }

  /** Where no identifier occurs with two types under one include string, the printed text depends on
      the set of references only: not on their order, their multiplicity, their lines, or on how the
      sort orders ties. */
  lemma TextDependsOnSetOnly(v: Tables, a: seq<IncRef>, b: seq<IncRef>)
    requires Distinct(v.st.strs) && Distinct(v.st.ids) && OneType(v, a)
    requires KeysPrintable(v, a) && KeysPrintable(v, b) && Sorted(v.st, a) && Sorted(v.st, b)
    requires forall k :: Occurs(v, a, 0, k) <==> Occurs(v, b, 0, k)
    ensures EmitFrom(v, a, 0, NO_KEY, "") == EmitFrom(v, b, 0, NO_KEY, "")
  {
    SameSetSameKeys(v, a, b);
    EmitIsRender(v, a, 0, NO_KEY, "");
    EmitIsRender(v, b, 0, NO_KEY, "");
  }

  /** The condition is needed: of two references that tie, the text shows the type of the first. */
  lemma TieShows(v: Tables, a: IncRef, b: IncRef)
    requires KeyOk(v, KeyOf(v, a)) && KeyOk(v, KeyOf(v, b)) && KeyOf(v, a).Same(KeyOf(v, b))
    ensures Sorted(v.st, [a, b]) && Sorted(v.st, [b, a])
    ensures KeysPrintable(v, [a, b]) && KeysPrintable(v, [b, a])
    ensures EmitFrom(v, [a, b], 0, NO_KEY, "") == EmitFrom(v, [b, a], 0, NO_KEY, "")
       <==> Line(v, KeyOf(v, a).imp) == Line(v, KeyOf(v, b).imp)
  {
    TieText(v, a, b);
    TieText(v, b, a);
    SamePrefix(WithDirectives(v.st.strs[a.inc_sym], ""), Line(v, KeyOf(v, a).imp), Line(v, KeyOf(v, b).imp));
  }

  lemma SamePrefix(w: string, x: string, y: string)
    ensures w + x == w + y <==> x == y
  {
    assert (w + x)[|w|..] == x && (w + y)[|w|..] == y;
  }

  lemma TieText(v: Tables, a: IncRef, b: IncRef)
    requires KeyOk(v, KeyOf(v, a)) && KeyOk(v, KeyOf(v, b)) && KeyOf(v, a).Same(KeyOf(v, b))
    ensures KeysPrintable(v, [a, b])
    ensures EmitFrom(v, [a, b], 0, NO_KEY, "")
         == WithDirectives(v.st.strs[a.inc_sym], "") + Line(v, KeyOf(v, a).imp)
  {
    var refs, out := [a, b], EmitOne(v, NO_KEY, KeyOf(v, a), "");
    assert EmitFrom(v, refs, 0, NO_KEY, "") == EmitFrom(v, refs, 1, KeyOf(v, a), out);
    assert EmitFrom(v, refs, 1, KeyOf(v, a), out) == EmitFrom(v, refs, 2, KeyOf(v, b), out);
  }

  // ---- Shape of the groups

  ghost predicate LinesIncrease(v: Tables, imports: List<Import>)
    requires ImportsOk(v, imports)
  {
    imports.Cons? && imports.tail.Cons? ==>
      && RefNumberOk(v, imports.tail.head.ref)
      && Below(v.st.ids[imports.head.ref], v.st.ids[imports.tail.head.ref])
      && LinesIncrease(v, imports.tail)
  }

  ghost predicate IncLess(st: Store, a: nat, b: nat) {
    a < |st.strs| && b < |st.strs| && Below(st.strs[a], st.strs[b])
  }

  /** Include strings strictly increase from group to group, identifiers within each. */
  ghost predicate GroupsIncrease(v: Tables, gs: List<Group>)
    requires GroupsOk(v, gs)
  {
    gs.Cons? ==>
      && gs.head.imports.Cons?
      && LinesIncrease(v, gs.head.imports)
      && (gs.tail.Cons? ==> IncLess(v.st, gs.head.inc, gs.tail.head.inc))
      && GroupsIncrease(v, gs.tail)
  }

  predicate HasImport(imports: List<Import>, imp: Import) {
    imports.Cons? && (imports.head == imp || HasImport(imports.tail, imp))
  }

  predicate InGroups(gs: List<Group>, k: Key) {
    gs.Cons? && ((gs.head.inc == k.inc && HasImport(gs.head.imports, k.imp)) || InGroups(gs.tail, k))
  }

  lemma {:induction false} GroupsExact(ks: List<Key>, k: Key)
    ensures InGroups(Groups(ks), k) <==> HasKey(ks, k)
  {
    if ks.Cons? {
      GroupsExact(ks.tail, k);
      assert !HasImport(Nil, k.imp);
      assert HasKey(ks, k) <==> ks.head == k || InGroups(Groups(ks.tail), k);
    }
  }

  lemma {:induction false} GroupsOfIncreasing(v: Tables, ks: List<Key>)
    requires AllOk(v, ks) && Increasing(v, ks) && Distinct(v.st.strs)
    ensures GroupsOk(v, Groups(ks)) && GroupsIncrease(v, Groups(ks))
    ensures ks.Cons? ==> Groups(ks).Cons? && Groups(ks).head.inc == ks.head.inc
    ensures ks.Cons? ==> Groups(ks).head.imports.Cons? && Groups(ks).head.imports.head == ks.head.imp
  {
    GroupsAreOk(v, ks);
    if ks.Cons? {
      GroupsOfIncreasing(v, ks.tail);
    }
  }

  /** `show_includes` on sorted references prints one group for each include string, in strictly
      increasing order, each with its identifiers in strictly increasing order: nothing but what was
      recorded, and every include string and identifier recorded. */
  lemma PrintedGroups(v: Tables, refs: seq<IncRef>)
    requires Distinct(v.st.strs) && Distinct(v.st.ids) && KeysPrintable(v, refs) && Sorted(v.st, refs)
    ensures var gs := Groups(Keys(v, refs, 0, NO_KEY));
      && GroupsOk(v, gs) && GroupsIncrease(v, gs)
      && EmitFrom(v, refs, 0, NO_KEY, "") == Render(v, gs, "")
      && (forall k: Key :: InGroups(gs, k) ==> Occurs(v, refs, 0, k))
      && forall k: Key :: Occurs(v, refs, 0, k) ==> exists k': Key :: k'.Same(k) && InGroups(gs, k')
  {
    var ks := Keys(v, refs, 0, NO_KEY);
    KeysIncrease(v, refs, 0, NO_KEY);
    GroupsOfIncreasing(v, ks);
    EmitIsRender(v, refs, 0, NO_KEY, "");
    forall k: Key
      ensures InGroups(Groups(ks), k) ==> Occurs(v, refs, 0, k)
      ensures Occurs(v, refs, 0, k) ==> exists k': Key :: k'.Same(k) && InGroups(Groups(ks), k')
    {
      GroupsExact(ks, k);
      KeyOccurs(v, refs, k);
      if Occurs(v, refs, 0, k) {
        var k' := SameKey(ks, k);
        GroupsExact(ks, k');
      }
    }
  }

  // ---- The text, written out

  lemma DirectivesText(names: List<string>, out: string)
    requires BarNames(names)
    ensures Printable(JoinBars(names)) && WithDirectives(JoinBars(names), out) == out + IncludeLines(names)
  {
    NamesPrinted(names, out);
    PrintableExact(JoinBars(names), out);
  }

  /** The lines for the identifiers of one group. */
  function ImportLines(v: Tables, imports: List<Import>): string
    requires ImportsOk(v, imports)
  {
    if imports.Nil? then "" else Line(v, imports.head) + ImportLines(v, imports.tail)
  }

  lemma {:induction false} RenderLinesText(v: Tables, imports: List<Import>, out: string)
    requires ImportsOk(v, imports)
    ensures RenderLines(v, imports, out) == out + ImportLines(v, imports)
    decreases imports
  {
    if imports.Nil? {
      assert out + "" == out;
    } else {
      RenderLinesText(v, imports.tail, out + Line(v, imports.head));
    }
  }

  /** A group is the lines of its header names, then those of its identifiers. */
  lemma RenderText(v: Tables, g: Group, gs: List<Group>, names: List<string>, out: string)
    requires GroupsOk(v, Cons(g, gs)) && BarNames(names) && v.st.strs[g.inc] == JoinBars(names)
    ensures Render(v, Nil, out) == out
    ensures Render(v, Cons(g, gs), out) == Render(v, gs, out + IncludeLines(names) + ImportLines(v, g.imports))
  {
    DirectivesText(names, out);
    RenderLinesText(v, g.imports, out + IncludeLines(names));
  }

  /** The line for an identifier of each type. */
  lemma ImportText(t: IdType, name: string)
    requires TypeFits(t, true) || TypeFits(t, false)
    ensures ImportLine(t, name) ==
      match t
      case Function | Invalid => "    // Import " + name + "()\n"
      case Constant => "    // Import constant " + name + "\n"
      case Struct => "    // Import struct " + name + "\n"
      case Typedef => "    // Import type " + name + "\n"
      case Var => "    // Import var " + name + "\n"
      case _ => "    // Import " + name + "\n"
  {}

  /** One name without a bar. */
  lemma OneHeader(s: string)
    requires s != "" && '|' !in s
    ensures BarNames(Cons(s, Nil)) && JoinBars(Cons(s, Nil)) == s
    ensures IncludeLines(Cons(s, Nil)) == "#include <" + s + ">\n"
  {
    assert IncludeLines(Nil) == "";
  }

  lemma OneRendered(v: Tables, r: IncRef, inc: string)
    requires RefOk(v, r) && v.st.strs[r.inc_sym] == inc && inc != "" && '|' !in inc
    ensures KeysPrintable(v, [r])
    ensures EmitFrom(v, [r], 0, NO_KEY, "")
         == "#include <" + inc + ">\n" + ImportLine(v.rows[r.ref_idnr].typ, v.st.ids[r.ref_sym])
  {
    var k := KeyOf(v, r);
    OneHeader(inc);
    DirectivesText(Cons(inc, Nil), "");
    PrintedLine(v.rows[r.ref_idnr].typ, v.st.ids[r.ref_sym]);
    assert EmitFrom(v, [r], 0, NO_KEY, "") == EmitFrom(v, [r], 1, k, EmitOne(v, NO_KEY, k, ""));
  }

  /** The text printed for one reference, by the type of its entry. */
  lemma OnePrinted(v: Tables, r: IncRef, inc: string, name: string)
    requires RefOk(v, r) && (TypeFits(v.rows[r.ref_idnr].typ, true) || TypeFits(v.rows[r.ref_idnr].typ, false))
    requires inc == v.st.strs[r.inc_sym] && inc != "" && '|' !in inc && name == v.st.ids[r.ref_sym]
    ensures KeysPrintable(v, [r])
    ensures EmitFrom(v, [r], 0, NO_KEY, "") == "#include <" + inc + ">\n" +
      match v.rows[r.ref_idnr].typ
      case Function | Invalid => "    // Import " + name + "()\n"
      case Constant => "    // Import constant " + name + "\n"
      case Struct => "    // Import struct " + name + "\n"
      case Typedef => "    // Import type " + name + "\n"
      case Var => "    // Import var " + name + "\n"
      case _ => "    // Import " + name + "\n"
  {
    OneRendered(v, r, inc);
    ImportText(v.rows[r.ref_idnr].typ, name);
  }
}
