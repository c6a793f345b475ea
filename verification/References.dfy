/** What the scanner records: for each lookup at most one reference, decided by the
    identifier table. */
module References {
  import opened Interning
  import opened Lists
  import opened IdTable
  import opened Syncing
  import opened Tokens

  /** `incref_t` */
  datatype IncRef = IncRef(ref_sym: nat, inc_sym: nat, ref_idnr: nat, ref_lnr: nat)

  /** The dictionaries and the entries that a lookup can reach. */
  datatype Tables = Tables(st: Store, rows: seq<IdInfo>) {

    /** Every number in the table names something. */
    ghost predicate Valid() {
      Bounded(st, rows)
    }
  }

  type ValidTables = v: Tables | v.Valid() witness Tables(Dictionaries([""], [""]), [])

  /** `id_find`; what the code finds for an identifier without an entry is left open by its callers. */
  function IdFind(v: ValidTables, s: string, mask: set<IdType>): (r: Option<nat>)
    ensures r.Some? ==> r.value < |v.rows| && r.value + 1 < |v.st.ids| && v.st.ids[r.value + 1] == s
  {
    var symnr := Lookup(v.st.ids, s);
    if symnr == 0 || symnr > |v.rows| || !Matches(v.rows[symnr - 1].typ, mask) then None else Some(symnr - 1)
  }

  /** `id_find_linear_search` from entry `pos` of the committed entries on. */
  function FindFrom(st: Store, rows: seq<IdInfo>, s: string, mask: set<IdType>, pos: nat): (r: Option<nat>)
    requires Bounded(st, rows) && pos <= |rows|
    ensures r.Some? ==> pos <= r.value < |rows|
    decreases |rows| - pos
  {
    if pos == |rows| then None
    else
      var row := rows[pos];
      assert RowBounded(st, row);
      if row.sym != 0 && st.ids[row.sym] == s && Matches(row.typ, mask) then Some(pos)
      else FindFrom(st, rows, s, mask, pos + 1)
  }

  lemma {:induction false} FindFromSkips(st: Store, rows: seq<IdInfo>, s: string, mask: set<IdType>, pos: nat)
    requires Bounded(st, rows) && pos <= |rows|
    requires InStep(rows) && Distinct(st.ids) && |st.ids| > |rows|
    ensures var l := Lookup(st.ids, s);
      FindFrom(st, rows, s, mask, pos) ==
        if l != 0 && pos <= l - 1 < |rows| && Matches(rows[l - 1].typ, mask) then Some(l - 1) else None
    decreases |rows| - pos
  {
    if pos < |rows| {
      FindFromSkips(st, rows, s, mask, pos + 1);
      if st.ids[pos + 1] == s {
        LookupUnique(st.ids, pos + 1);
      }
    }
  }

  /** With `n` of the entries committed, the indexed search and the obsolete linear one find the same
      exactly when the name is not that of a fitting entry behind the committed ones.  Where all are
      committed they always agree. */
  lemma FindersAgree(v: ValidTables, n: nat, s: string, mask: set<IdType>)
    requires n <= |v.rows| && InStep(v.rows[..n]) && n < |v.st.ids| && Distinct(v.st.ids)
    requires Lookup(v.st.ids, s) <= |v.rows|
    ensures Bounded(v.st, v.rows[..n])
    ensures FindFrom(v.st, v.rows[..n], s, mask, 0) == IdFind(v, s, mask)
       <==> Lookup(v.st.ids, s) <= n || !Matches(v.rows[Lookup(v.st.ids, s) - 1].typ, mask)
  {
    FindFromSkips(v.st, v.rows[..n], s, mask, 0);
  }

  const CALL_MASK: set<IdType> := {Function, Keyword}
  const OTHER_MASK: set<IdType> := TYPE_ALL - {Function}

  /** `TYPE_FUNCTION | TYPE_KEYWORD` and `TYPE_ALL & ~TYPE_FUNCTION` */
  lemma MasksExact()
    ensures MaskBits(CALL_MASK) == 0x02 | 0x08 && MaskBits(OTHER_MASK) == 0x7F & !0x02
  {
    assert Function in CALL_MASK && Keyword in CALL_MASK && Function !in OTHER_MASK && Var in OTHER_MASK;
  }

  /** The reference recorded for one lookup, if any. */
  function RefOf(v: ValidTables, u: Use): Option<IncRef> {
    match IdFind(v, u.name, if u.call then CALL_MASK else OTHER_MASK)
    case None => None
    case Some(idnr) =>
      var row := v.rows[idnr];
      assert RowBounded(v.st, row);
      if row.src1 != 0 && v.st.strs[row.src1] != "" && row.typ != Keyword
      then Some(IncRef(row.sym, row.src1, idnr, u.lnr)) else None
  }

  function Record1(v: ValidTables, refs: seq<IncRef>, u: Use): seq<IncRef> {
    match RefOf(v, u) case None => refs case Some(r) => refs + [r]
  }

  /** The references after all lookups `us`. */
  function Recorded(v: ValidTables, refs: seq<IncRef>, us: List<Use>): seq<IncRef>
    decreases us
  {
    match us case Nil => refs case Cons(u, rest) => Recorded(v, Record1(v, refs, u), rest)
  }

  /** A type fits a use as a call, or any other use; an unknown type letter fits both. */
  predicate TypeFits(t: IdType, call: bool) {
    if call then t in {Function, Invalid} else t in {Unknown, Typedef, Constant, Var, Struct, Invalid}
  }

  /** Entry `k` provides an include for a use of its name, as a call or not: it has a
      non-empty include string, is no keyword, and its type fits the use. */
  ghost predicate Provides(v: ValidTables, k: nat, call: bool)
    requires k < |v.rows|
  {
    var row := v.rows[k];
    assert RowBounded(v.st, row);
    row.src1 != 0 && v.st.strs[row.src1] != "" && TypeFits(row.typ, call)
  }

  lemma MasksFit(t: IdType, call: bool)
    ensures Matches(t, if call then CALL_MASK else OTHER_MASK) && t != Keyword <==> TypeFits(t, call)
  {
    assert Function in CALL_MASK && Var in OTHER_MASK;
    match t
    case NoType =>
    case _ =>
  }

  /** The name, if it is known, has an entry. */
  predicate HasEntry(v: ValidTables, u: Use) {
    Lookup(v.st.ids, u.name) <= |v.rows|
  }

  predicate AllHaveEntries(v: ValidTables, us: List<Use>)
    decreases us
  {
    us.Cons? ==> HasEntry(v, us.head) && AllHaveEntries(v, us.tail)
  }

  /** Every known name looked up has an entry, and the lookups `us` turn `refs` into `r`. */
  ghost predicate Yields(v: ValidTables, refs: seq<IncRef>, us: List<Use>, r: seq<IncRef>) {
    AllHaveEntries(v, us) && Recorded(v, refs, us) == r
  }

  /** In step, every use has its entry. */
  lemma {:induction false} SyncedHaveEntries(v: ValidTables, us: List<Use>)
    requires Synced(v.st.ids, v.rows)
    ensures AllHaveEntries(v, us)
    decreases us
  {
    if us.Cons? {
      SyncedHaveEntries(v, us.tail);
    }
  }

  /** A lookup records entry `k` exactly if it is that of its name and provides an include for the use. */
  lemma RefOfExact(v: ValidTables, u: Use, k: nat)
    requires Distinct(v.st.ids) && HasEntry(v, u) && k < |v.rows| && k + 1 < |v.st.ids|
    ensures RefOf(v, u) == Some(IncRef(v.rows[k].sym, v.rows[k].src1, k, u.lnr))
       <==> u.name == v.st.ids[k + 1] && Provides(v, k, u.call)
    ensures RefOf(v, u).Some? ==> RefOf(v, u).value.ref_idnr < |v.rows|
    ensures RefOf(v, u).Some? && RefOf(v, u).value.ref_idnr == k
        ==> RefOf(v, u).value == IncRef(v.rows[k].sym, v.rows[k].src1, k, u.lnr)
  {
    LookupUnique(v.st.ids, k + 1);
    MasksFit(v.rows[k].typ, u.call);
  }

  /** Entry `k` was recorded, at some line. */
  ghost predicate Refers(refs: seq<IncRef>, k: nat) {
    exists i :: 0 <= i < |refs| && refs[i].ref_idnr == k
  }

  lemma {:induction false} RecordedExact(v: ValidTables, refs: seq<IncRef>, us: List<Use>, k: nat)
    requires Distinct(v.st.ids) && AllHaveEntries(v, us) && k < |v.rows| && k + 1 < |v.st.ids|
    ensures Refers(Recorded(v, refs, us), k)
       <==> Refers(refs, k) || exists u :: Has(us, u) && u.name == v.st.ids[k + 1] && Provides(v, k, u.call)
    decreases us
  {
    if us.Cons? {
      var u := us.head;
      RefOfExact(v, u, k);
      RecordedExact(v, Record1(v, refs, u), us.tail, k);
      Record1Refers(v, refs, u, k);
      assert Has(us, u);
      assert forall w :: Has(us, w) <==> w == u || Has(us.tail, w);
    }
  }

  lemma Record1Refers(v: ValidTables, refs: seq<IncRef>, u: Use, k: nat)
    ensures Refers(Record1(v, refs, u), k)
       <==> Refers(refs, k) || (RefOf(v, u).Some? && RefOf(v, u).value.ref_idnr == k)
  {
    var refs' := Record1(v, refs, u);
    if RefOf(v, u).Some? {
      assert refs'[|refs|] == RefOf(v, u).value;
      assert forall i :: 0 <= i < |refs| ==> refs'[i] == refs[i];
    }
  }
}
