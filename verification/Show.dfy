/** `show_includes`: the references are sorted in place and printed group by group. */
module Show {
  import opened CStrings
  import opened IdTable
  import opened References
  import opened Headers
  import opened Emit
  import opened Incbot

  /** `refcmp` */
  method CompareRefs(db: IdDatabase, a: IncRef, b: IncRef) returns (cmp: int)
    requires db.Valid() && Names(db.St(), a) && Names(db.St(), b)
    ensures cmp == RefCmp(db.St(), a, b)
  {
    var inc_fname1 := db.IncludeName(a.inc_sym);
    var inc_fname2 := db.IncludeName(b.inc_sym);
    cmp := StrCmp(inc_fname1, inc_fname2);
    if cmp == 0 {
      var ref_sym1 := db.IdName(a.ref_sym);
      var ref_sym2 := db.IdName(b.ref_sym);
      cmp := StrCmp(ref_sym1, ref_sym2);
    }
  }

  lemma InsertSorted(st: Store, r: seq<IncRef>, k: nat, x: IncRef)
    requires Sorted(st, r) && Names(st, x) && k <= |r|
    requires forall i :: 0 <= i < k ==> RefCmp(st, r[i], x) <= 0
    requires k < |r| ==> RefCmp(st, x, r[k]) <= 0
    ensures Sorted(st, r[..k] + [x] + r[k..])
  {
    var s := r[..k] + [x] + r[k..];
    assert forall i :: 0 <= i < |s| ==> s[i] == if i < k then r[i] else if i == k then x else r[i - 1];
    forall i, j | 0 <= i < j < |s|
      ensures RefCmp(st, s[i], s[j]) <= 0
    {
      if i == k && j > k + 1 {
        RefCmpTransitive(st, x, r[k], r[j - 1]);
      }
    }
  }

  lemma InsertPermutes(r: seq<IncRef>, k: nat, x: IncRef)
    requires k <= |r|
    ensures multiset(r[..k] + [x] + r[k..]) == multiset(r) + multiset{x}
  {
    assert r == r[..k] + r[k..];
  }

  /** Where `x` belongs in a sorted sequence. */
  method Position(db: IdDatabase, r: seq<IncRef>, x: IncRef) returns (k: nat)
    requires db.Valid() && Sorted(db.St(), r) && Names(db.St(), x)
    ensures k <= |r| && forall i :: 0 <= i < k ==> RefCmp(db.St(), r[i], x) <= 0
    ensures k < |r| ==> RefCmp(db.St(), x, r[k]) <= 0
  {
    k := 0;
    while k < |r|
      invariant k <= |r| && forall i :: 0 <= i < k ==> RefCmp(db.St(), r[i], x) <= 0
    {
      var cmp := CompareRefs(db, r[k], x);
      if cmp > 0 {
        RefCmpTotal(db.St(), r[k], x);
        return;
      }
      k := k + 1;
    }
  }

  method Insert(db: IdDatabase, r: seq<IncRef>, x: IncRef) returns (s: seq<IncRef>)
    requires db.Valid() && Sorted(db.St(), r) && Names(db.St(), x)
    ensures Sorted(db.St(), s) && multiset(s) == multiset(r) + multiset{x}
  {
    var k := Position(db, r, x);
    InsertSorted(db.St(), r, k, x);
    InsertPermutes(r, k, x);
    s := r[..k] + [x] + r[k..];
  }

  /** `qsort` with `refcmp`.  Callers know no more than this contract: some sorted permutation. */
  method QSort(db: IdDatabase, refs: seq<IncRef>) returns (s: seq<IncRef>)
    requires db.Valid() && AllNames(db.St(), refs)
    ensures Sorted(db.St(), s) && multiset(s) == multiset(refs)
  {
    s := [];
    var i := 0;
    while i < |refs|
      invariant i <= |refs| && Sorted(db.St(), s) && multiset(s) == multiset(refs[..i])
    {
      s := Insert(db, s, refs[i]);
      assert refs[..i + 1] == refs[..i] + [refs[i]];
      i := i + 1;
    }
    assert refs[..i] == refs;
  }

  /** The line for one identifier. */
  method PrintImport(db: IdDatabase, r: IncRef, before: string) returns (out: string)
    requires db.Valid() && RefOk(db.View(), r)
    ensures out == before + Line(db.View(), KeyOf(db.View(), r).imp)
  {
    var ref_sym := db.IdName(r.ref_sym);
    var id_types := db.idv.tab[r.ref_idnr].typ;
    assert id_types == db.View().rows[r.ref_idnr].typ;
    var line := "    // Import ";
    if Matches(id_types, {Function}) {
      line := line + (ref_sym + "()");
    } else if Matches(id_types, {Unknown}) {
      line := line + ref_sym;
    } else {
      line := line + (AnnotateType(id_types) + " " + ref_sym);
    }
    out := before + (line + "\n");
    PrintedLine(id_types, ref_sym);
  }

  /** One round of the printing loop; `ok` is false where it would read past an include string. */
  method PrintRef(db: IdDatabase, r: IncRef, first: bool, prev: Key, before: string) returns (ok: bool, out: string)
    requires db.Valid() && RefOk(db.View(), r)
    requires if first then prev.inc == 0 else prev.inc == r.inc_sym ==> KeyOk(db.View(), KeyOf(db.View(), r))
    ensures ok <==> KeyOk(db.View(), KeyOf(db.View(), r))
    ensures ok ==> out == EmitOne(db.View(), prev, KeyOf(db.View(), r), before)
  {
    ok, out := true, before;
    var prev_ref := prev.imp.ref;
    if first || r.inc_sym != prev.inc {
      var inc_sym := db.IncludeName(r.inc_sym);
      PrintableExact(inc_sym, out);
      ok, out := PrintDirectives(inc_sym, out);
      if !ok {
        return;
      }
      prev_ref := 0;
    }
    if r.ref_sym != prev_ref {
      out := PrintImport(db, r, out);
    }
  }

  /** The references are sorted in place; their number and the tables stay as they are. */
  method SortRefs(db: IdDatabase, refv: RefVector)
    requires db.Valid() && refv.Valid() && {refv, refv.tab} !! db.Repr
    requires AllNames(db.St(), refv.Refs())
    modifies refv.tab
    ensures db.Valid() && db.View() == old(db.View()) && refv.Valid()
    ensures multiset(refv.Refs()) == multiset(old(refv.Refs())) && Sorted(db.St(), refv.Refs())
  {
    var sorted := QSort(db, refv.tab[..refv.len]);
    assert |multiset(sorted)| == |multiset(refv.Refs())|;
    Overwrite(refv, sorted);
  }

  method Overwrite(refv: RefVector, s: seq<IncRef>)
    requires refv.Valid() && |s| == refv.len
    modifies refv.tab
    ensures refv.Refs() == s
  {
    var i := 0;
    while i < |s|
      invariant 0 <= i <= |s| == refv.len <= refv.tab.Length
      invariant forall j :: 0 <= j < i ==> refv.tab[j] == s[j]
    {
      refv.tab[i] := s[i];
      i := i + 1;
    }
  }

  /** What the loop remembers of a reference. */
  function Remembered(r: IncRef): Key {
    Key(r.inc_sym, Import(r.ref_sym, NoType))
  }

  /** What the loop remembers before reference `n`. */
  function PrevKey(refs: seq<IncRef>, n: nat): Key
    requires n <= |refs|
  {
    if n == 0 then NO_KEY else Remembered(refs[n - 1])
  }

  ghost predicate KeyFine(v: Tables, refs: seq<IncRef>, n: nat) {
    n < |refs| && KeyOk(v, KeyOf(v, refs[n]))
  }

  ghost predicate AllFine(v: Tables, refs: seq<IncRef>, n: nat) {
    forall i :: 0 <= i < n ==> KeyFine(v, refs, i)
  }

  /** `outs[n]` is the text before reference `n`. */
  ghost predicate TraceStep(v: Tables, refs: seq<IncRef>, outs: seq<string>, n: nat) {
    n < |refs| && n + 1 < |outs|
    && (KeyFine(v, refs, n) ==> outs[n + 1] == EmitOne(v, PrevKey(refs, n), KeyOf(v, refs[n]), outs[n]))
  }

  ghost predicate Traced(v: Tables, refs: seq<IncRef>, outs: seq<string>) {
    |outs| == |refs| + 1 && outs[0] == "" && forall n :: 0 <= n < |refs| ==> TraceStep(v, refs, outs, n)
  }

  /** The texts before the references up to reference `n`. */
  lemma {:induction false} TraceTo(v: Tables, refs: seq<IncRef>, n: nat) returns (outs: seq<string>)
    requires n <= |refs|
    ensures |outs| == n + 1 && outs[0] == "" && forall k :: 0 <= k < n ==> TraceStep(v, refs, outs, k)
  {
    if n == 0 {
      outs := [""];
    } else {
      var before := TraceTo(v, refs, n - 1);
      var key := KeyOf(v, refs[n - 1]);
      outs := before + [if KeyOk(v, key) then EmitOne(v, PrevKey(refs, n - 1), key, before[n - 1]) else ""];
      forall k | 0 <= k < n
        ensures TraceStep(v, refs, outs, k)
      {
        assert k < n - 1 ==> TraceStep(v, refs, before, k);
      }
    }
  }

  lemma TraceAll(v: Tables, refs: seq<IncRef>) returns (outs: seq<string>)
    ensures Traced(v, refs, outs)
  {
    outs := TraceTo(v, refs, |refs|);
  }

  /** What the rest prints behind the text before reference `n`. */
  ghost function Rest(v: Tables, refs: seq<IncRef>, outs: seq<string>, n: nat): string
    requires KeysPrintable(v, refs) && n <= |refs| < |outs|
  {
    EmitFrom(v, refs, n, PrevKey(refs, n), outs[n])
  }

  lemma {:induction false} Constant(s: seq<string>, n: nat)
    requires n < |s| && forall k :: 0 <= k < |s| - 1 ==> s[k] == s[k + 1]
    ensures s[n] == s[|s| - 1]
    decreases |s| - n
  {
    if n < |s| - 1 {
      Constant(s, n + 1);
    }
  }

  /** Where everything can be printed, the text at the end is that of the specification. */
  lemma TraceEnds(v: Tables, refs: seq<IncRef>, outs: seq<string>)
    requires Traced(v, refs, outs) && KeysPrintable(v, refs)
    ensures outs[|refs|] == EmitFrom(v, refs, 0, NO_KEY, "")
  {
    var s := seq(|refs| + 1, n requires 0 <= n <= |refs| => Rest(v, refs, outs, n));
    forall k | 0 <= k < |s| - 1
      ensures s[k] == s[k + 1]
    {
      TraceNext(v, refs, outs, k);
    }
    Constant(s, 0);
  }

  lemma TraceNext(v: Tables, refs: seq<IncRef>, outs: seq<string>, n: nat)
    requires Traced(v, refs, outs) && KeysPrintable(v, refs) && n < |refs|
    ensures Rest(v, refs, outs, n) == Rest(v, refs, outs, n + 1)
  {
    assert TraceStep(v, refs, outs, n) && KeyFine(v, refs, n);
    EmitNext(v, refs, n, PrevKey(refs, n), outs[n]);
    EmitSame(v, refs, n + 1, KeyOf(v, refs[n]), PrevKey(refs, n + 1), outs[n + 1]);
  }

  lemma EmitNext(v: Tables, refs: seq<IncRef>, n: nat, prev: Key, out: string)
    requires KeysPrintable(v, refs) && n < |refs|
    ensures KeyOk(v, KeyOf(v, refs[n]))
    ensures EmitFrom(v, refs, n, prev, out)
         == EmitFrom(v, refs, n + 1, KeyOf(v, refs[n]), EmitOne(v, prev, KeyOf(v, refs[n]), out))
  {}

  /** Only include string and identifier need to be remembered. */
  lemma EmitSame(v: Tables, refs: seq<IncRef>, n: nat, prev: Key, prev': Key, out: string)
    requires KeysPrintable(v, refs) && n <= |refs| && prev.Same(prev')
    ensures EmitFrom(v, refs, n, prev, out) == EmitFrom(v, refs, n, prev', out)
  {}

  /** What the printing loop does with one reference. */
  method PrintNext(db: IdDatabase, refv: RefVector, refnr: nat, prev: Key, before: string, ghost outs: seq<string>)
    returns (ok: bool, cur: Key, out: string)
    requires db.Valid() && refv.Valid() && RefsOk(db.View(), refv.Refs()) && refnr < refv.len
    requires Traced(db.View(), refv.Refs(), outs) && before == outs[refnr] && prev == PrevKey(refv.Refs(), refnr)
    requires refnr > 0 ==> KeyFine(db.View(), refv.Refs(), refnr - 1)
    ensures ok <==> KeyFine(db.View(), refv.Refs(), refnr)
    ensures ok ==> out == outs[refnr + 1] && cur == PrevKey(refv.Refs(), refnr + 1)
  {
    ghost var v, refs := db.View(), refv.Refs();
    var r := refv.tab[refnr];
    assert r == refs[refnr] && RefOk(v, r) && TraceStep(v, refs, outs, refnr);
    cur := Remembered(r);
    ok, out := PrintRef(db, r, refnr == 0, prev, before);
  }

  /** The printing loop. */
  method PrintLoop(db: IdDatabase, refv: RefVector, ghost outs: seq<string>) returns (ok: bool, out: string)
    requires db.Valid() && refv.Valid() && RefsOk(db.View(), refv.Refs()) && Traced(db.View(), refv.Refs(), outs)
    ensures ok <==> AllFine(db.View(), refv.Refs(), refv.len)
    ensures ok ==> out == outs[refv.len]
  {
    ok, out := true, "";
    var prev, refnr := NO_KEY, 0;
    while refnr < refv.len
      invariant 0 <= refnr <= refv.len && ok
      invariant prev == PrevKey(refv.Refs(), refnr) && out == outs[refnr]
      invariant AllFine(db.View(), refv.Refs(), refnr)
    {
      ok, prev, out := PrintNext(db, refv, refnr, prev, out, outs);
      if !ok {
        return;
      }
      refnr := refnr + 1;
    }
  }

  /** The printing loop against its specification: it stays inside all include strings exactly when
      all of them can be printed. */
  method PrintRefs(db: IdDatabase, refv: RefVector) returns (ok: bool, out: string)
    requires db.Valid() && refv.Valid() && RefsOk(db.View(), refv.Refs())
    ensures ok <==> KeysPrintable(db.View(), refv.Refs())
    ensures ok ==> out == EmitFrom(db.View(), refv.Refs(), 0, NO_KEY, "")
  {
    ghost var v, refs := db.View(), refv.Refs();
    ghost var outs := TraceAll(v, refs);
    ok, out := PrintLoop(db, refv, outs);
    FineIsPrintable(v, refs);
    if ok {
      TraceEnds(v, refs, outs);
    }
  }

  lemma FineIsPrintable(v: Tables, refs: seq<IncRef>)
    ensures KeysPrintable(v, refs) <==> AllFine(v, refs, |refs|)
  {
    if AllFine(v, refs, |refs|) {
      forall i | 0 <= i < |refs|
        ensures KeyOk(v, KeyOf(v, refs[i]))
      {
        assert KeyFine(v, refs, i);
      }
    }
  }

  /** `show_includes`; `ok` is false where it would read past an include string. */
  method ShowIncludes(db: IdDatabase, refv: RefVector) returns (ok: bool, out: string)
    requires db.Valid() && refv.Valid() && {refv, refv.tab} !! db.Repr
    requires RefsOk(db.View(), refv.Refs())
    modifies refv.tab
    ensures db.Valid() && db.View() == old(db.View()) && refv.Valid()
    ensures multiset(refv.Refs()) == multiset(old(refv.Refs()))
    ensures Sorted(db.St(), refv.Refs())
    ensures ok <==> KeysPrintable(db.View(), refv.Refs())
    ensures ok ==> out == EmitFrom(db.View(), refv.Refs(), 0, NO_KEY, "")
  {
    ghost var refs := refv.Refs();
    RefsOkNames(db.View(), refs);
    SortRefs(db, refv);
    SameRefs(db.View(), refs, refv.Refs());
    ok, out := PrintRefs(db, refv);
  }

  lemma RefsOkNames(v: Tables, refs: seq<IncRef>)
    requires RefsOk(v, refs)
    ensures AllNames(v.st, refs)
  {
    forall i | 0 <= i < |refs|
      ensures Names(v.st, refs[i])
    {
      assert RefOk(v, refs[i]);
    }
  }

  /** A permutation of good references. */
  lemma SameRefs(v: Tables, a: seq<IncRef>, b: seq<IncRef>)
    requires multiset(a) == multiset(b) && RefsOk(v, a)
    ensures |a| == |b| && RefsOk(v, b)
    ensures forall k :: Occurs(v, a, 0, k) <==> Occurs(v, b, 0, k)
  {
    assert |multiset(a)| == |a| && |multiset(b)| == |b|;
    forall i | 0 <= i < |b|
      ensures RefOk(v, b[i])
    {
      assert b[i] in multiset(b);
      assert b[i] in a;
    }
    forall k: Key
      ensures Occurs(v, a, 0, k) <==> Occurs(v, b, 0, k)
    {
      if Occurs(v, a, 0, k) {
        OccursInPermutation(v, a, b, k);
      }
      if Occurs(v, b, 0, k) {
        OccursInPermutation(v, b, a, k);
      }
    }
  }

  lemma OccursInPermutation(v: Tables, a: seq<IncRef>, b: seq<IncRef>, k: Key)
    requires multiset(a) == multiset(b) && Occurs(v, a, 0, k)
    ensures Occurs(v, b, 0, k)
  {
    var j :| 0 <= j < |a| && KeyOf(v, a[j]) == k;
    assert a[j] in multiset(b);
    assert a[j] in b;
  }
}
