/** The hash index of the symbol table as a value: 2-way buckets whose overflow
    chains are threaded through one array.  `Indexes` is the shape every reachable
    index has; the lemmas say what each update does to it. */
module HashIndex {
  import opened Interning

  const INIT_SIZE: nat := 11
  const ASSOCIATIVITY: nat := 2

  datatype HashEnt = HashEnt(h: nat, symnr: nat)

  datatype Bucket = Bucket(ent0: HashEnt, ent1: HashEnt, chain: nat) {
    function Ent(k: nat): HashEnt {
      if k == 0 then ent0 else ent1
    }

    function WithEnt(k: nat, e: HashEnt): Bucket {
      if k == 0 then this.(ent0 := e) else this.(ent1 := e)
    }
  }

  datatype Ovfl = Ovfl(symnr: nat, next: nat)

  /** A calloc'd bucket. */
  const EMPTY_BUCKET: Bucket := Bucket(HashEnt(0, 0), HashEnt(0, 0), 0)

  /** Nothing below depends on which hash function is used. */
  type HashFn = string -> nat

  datatype Index = Index(tbl: seq<Bucket>, ovfl: seq<Ovfl>)

  function BucketOf(hash: HashFn, s: string, size: nat): (b: nat)
    requires size > 0
    ensures b < size
  {
    hash(s) % size
  }

  /** Symbol numbers in the order in which a bucket is searched. */
  datatype Syms = Nil | Cons(head: nat, tail: Syms) {
    ghost predicate Has(k: nat) {
      Cons? && (head == k || tail.Has(k))
    }

    ghost function Snoc(k: nat): Syms {
      if Nil? then Cons(k, Nil) else Cons(head, tail.Snoc(k))
    }

    ghost function Count(k: nat): nat {
      if Nil? then 0 else (if head == k then 1 else 0) + tail.Count(k)
    }
  }

  /** The numbers below `n` whose names hash to bucket `b`, in increasing order. */
  ghost function Members(hash: HashFn, names: seq<string>, n: nat, size: nat, b: nat): Syms
    requires n <= |names| && size > 0
  {
    if n <= 1 then Nil
    else
      var m := Members(hash, names, n - 1, size, b);
      if BucketOf(hash, names[n - 1], size) == b then m.Snoc(n - 1) else m
  }

  /** Every link points further up the array, so every walk ends. */
  ghost predicate LinksAscend(ovfl: seq<Ovfl>) {
    forall e :: 0 < e < |ovfl| ==> ovfl[e].next == 0 || e < ovfl[e].next < |ovfl|
  }

  /** A place where a walk can stand: at an entry, or past the end of its chain. */
  ghost predicate Link(ovfl: seq<Ovfl>, e: nat) {
    LinksAscend(ovfl) && (e == 0 || e < |ovfl|)
  }

  /** Entry `x` is met on the walk from `e`. */
  ghost predicate OnChain(ovfl: seq<Ovfl>, e: nat, x: nat)
    requires Link(ovfl, e)
    decreases |ovfl| - e
  {
    e != 0 && (e == x || (ovfl[e].next != 0 && OnChain(ovfl, ovfl[e].next, x)))
  }

  /** The symbol numbers met on the walk from `e`. */
  ghost function ChainSyms(ovfl: seq<Ovfl>, e: nat): Syms
    requires Link(ovfl, e)
    decreases |ovfl| - e
  {
    if e == 0 then Nil
    else Cons(ovfl[e].symnr, if ovfl[e].next == 0 then Nil else ChainSyms(ovfl, ovfl[e].next))
  }

  /** The numbers a bucket holds: its used slots, then its chain. */
  ghost function Content(bkt: Bucket, ovfl: seq<Ovfl>): Syms
    requires Link(ovfl, bkt.chain)
  {
    if bkt.ent0.symnr == 0 then Nil
    else Cons(bkt.ent0.symnr,
      if bkt.ent1.symnr == 0 then Nil else Cons(bkt.ent1.symnr, ChainSyms(ovfl, bkt.chain)))
  }

  /** What is left of a bucket's search from slot `k` on. */
  ghost function ContentFrom(bkt: Bucket, ovfl: seq<Ovfl>, k: nat): Syms
    requires Link(ovfl, bkt.chain)
  {
    if k == 0 then Content(bkt, ovfl)
    else if k == 1 then
      if bkt.ent1.symnr == 0 then Nil else Cons(bkt.ent1.symnr, ChainSyms(ovfl, bkt.chain))
    else ChainSyms(ovfl, bkt.chain)
  }

  ghost predicate EntOk(hash: HashFn, ent: HashEnt, names: seq<string>) {
    ent.symnr != 0 ==> ent.symnr < |names| && ent.h == hash(names[ent.symnr])
  }

  /** A bucket holds exactly `syms`, in order, and its slots fill before its chain. */
  ghost predicate Holds(hash: HashFn, bkt: Bucket, ovfl: seq<Ovfl>, names: seq<string>, syms: Syms) {
    && Link(ovfl, bkt.chain)
    && (bkt.ent0.symnr == 0 ==> bkt.ent1.symnr == 0)
    && (bkt.ent1.symnr == 0 ==> bkt.chain == 0)
    && EntOk(hash, bkt.ent0, names)
    && EntOk(hash, bkt.ent1, names)
    && Content(bkt, ovfl) == syms
  }

  /** The index of the first `n` names: each number 1..n-1 is filed once, in the bucket of its
      hash, in order of insertion, slots before chain; each overflow entry is on the chain of
      its symbol's bucket. */
  ghost predicate Indexes(hash: HashFn, m: Index, names: seq<string>, n: nat) {
    && 1 <= n <= |names|
    && |m.tbl| > 0
    && LinksAscend(m.ovfl)
    && (forall b :: 0 <= b < |m.tbl| ==> Holds(hash, m.tbl[b], m.ovfl, names, Members(hash, names, n, |m.tbl|, b)))
    && (forall e :: 0 < e < |m.ovfl| ==> OnItsChain(hash, m, names, n, e))
  }

  ghost predicate OnItsChain(hash: HashFn, m: Index, names: seq<string>, n: nat, e: nat)
    requires n <= |names| && |m.tbl| > 0 && 0 < e < |m.ovfl|
  {
    && 0 < m.ovfl[e].symnr < n
    && var start := m.tbl[BucketOf(hash, names[m.ovfl[e].symnr], |m.tbl|)].chain;
       Link(m.ovfl, start) && OnChain(m.ovfl, start, e)
  }

  // ---- Looking up

  lemma {:induction false} SnocHas(m: Syms, x: nat, k: nat)
    ensures m.Snoc(x).Has(k) <==> m.Has(k) || k == x
    ensures m.Snoc(x).Count(k) == m.Count(k) + if k == x then 1 else 0
  {
    if m.Cons? {
      SnocHas(m.tail, x, k);
    }
  }

  /** `Members` holds each number of its bucket once, and no other. */
  lemma {:induction false} MembersExact(hash: HashFn, names: seq<string>, n: nat, size: nat, b: nat, k: nat)
    requires n <= |names| && size > 0
    ensures Members(hash, names, n, size, b).Has(k) <==> 0 < k < n && BucketOf(hash, names[k], size) == b
    ensures Members(hash, names, n, size, b).Count(k)
         == if 0 < k < n && BucketOf(hash, names[k], size) == b then 1 else 0
  {
    if n > 1 {
      MembersExact(hash, names, n - 1, size, b, k);
      SnocHas(Members(hash, names, n - 1, size, b), n - 1, k);
    }
  }

  /** The first number of `syms` whose name is `s`, or 0. */
  ghost function FirstMatch(syms: Syms, names: seq<string>, s: string): (r: nat)
    ensures r != 0 ==> syms.Has(r) && r < |names| && names[r] == s
  {
    if syms.Nil? then 0
    else if 0 < syms.head < |names| && names[syms.head] == s then syms.head
    else FirstMatch(syms.tail, names, s)
  }

  lemma {:induction false} FirstMatchSnoc(m: Syms, x: nat, names: seq<string>, s: string)
    ensures FirstMatch(m.Snoc(x), names, s)
         == if FirstMatch(m, names, s) != 0 then FirstMatch(m, names, s)
            else if 0 < x < |names| && names[x] == s then x else 0
  {
    if m.Cons? {
      FirstMatchSnoc(m.tail, x, names, s);
    }
  }

  lemma {:induction false} FirstMatchIsLookup(hash: HashFn, names: seq<string>, n: nat, size: nat, s: string)
    requires 1 <= n <= |names| && size > 0
    ensures FirstMatch(Members(hash, names, n, size, BucketOf(hash, s, size)), names, s) == Lookup(names[..n], s)
  {
    if n > 1 {
      var b := BucketOf(hash, s, size);
      FirstMatchIsLookup(hash, names, n - 1, size, s);
      FirstMatchSnoc(Members(hash, names, n - 1, size, b), n - 1, names, s);
      assert names[..n] == names[..n - 1] + [names[n - 1]];
      LookupSnoc(names[..n - 1], names[n - 1], s);
    }
  }

  /** Searching the one bucket of `s` finds exactly what the scan of every name finds. */
  lemma FindAgreesWithScan(hash: HashFn, names: seq<string>, size: nat, s: string)
    requires |names| >= 1 && size > 0
    ensures FirstMatch(Members(hash, names, |names|, size, BucketOf(hash, s, size)), names, s) == Lookup(names, s)
  {
    FirstMatchIsLookup(hash, names, |names|, size, s);
    assert names[..|names|] == names;
  }

  lemma EmptyIndexes(hash: HashFn, names: seq<string>)
    requires |names| >= 1
    ensures Indexes(hash, Index(seq(INIT_SIZE, _ => EMPTY_BUCKET), []), names, 1)
  {}

  lemma EntriesFiled(hash: HashFn, m: Index, names: seq<string>, n: nat)
    requires Indexes(hash, m, names, n)
    ensures forall e :: 0 < e < |m.ovfl| ==> 0 < m.ovfl[e].symnr < n
  {
    forall e: nat | 0 < e < |m.ovfl|
      ensures 0 < m.ovfl[e].symnr < n
    {
      assert OnItsChain(hash, m, names, n, e);
    }
  }

  // ---- Filing the next symbol

  lemma {:induction false} MembersOfLonger(hash: HashFn, names: seq<string>, names': seq<string>, n: nat,
                                          size: nat, b: nat)
    requires n <= |names| && names <= names' && size > 0
    ensures Members(hash, names', n, size, b) == Members(hash, names, n, size, b)
  {
    if n > 1 {
      MembersOfLonger(hash, names, names', n - 1, size, b);
    }
  }

  /** An index stays one while names it has not filed yet are appended. */
  lemma IndexesLonger(hash: HashFn, m: Index, names: seq<string>, names': seq<string>, n: nat)
    requires Indexes(hash, m, names, n) && names <= names'
    ensures Indexes(hash, m, names', n)
  {
    forall b | 0 <= b < |m.tbl|
      ensures Holds(hash, m.tbl[b], m.ovfl, names', Members(hash, names', n, |m.tbl|, b))
    {
      MembersOfLonger(hash, names, names', n, |m.tbl|, b);
    }
    forall e: nat | 0 < e < |m.ovfl|
      ensures OnItsChain(hash, m, names', n, e)
    {
      assert OnItsChain(hash, m, names, n, e);
    }
  }

  /** `ovfl` with one more entry, linked behind entry `t` when `t` is not 0. */
  ghost function Append(ovfl: seq<Ovfl>, t: nat, symnr: nat): (r: seq<Ovfl>)
    requires LinksAscend(ovfl) && |ovfl| > 0 && t < |ovfl|
    ensures |r| == |ovfl| + 1 && LinksAscend(r)
  {
    var r := ovfl + [Ovfl(symnr, 0)];
    if t == 0 then r else r[t := Ovfl(ovfl[t].symnr, |ovfl|)]
  }

  /** Appending behind `t` leaves every walk alone that does not meet `t`. */
  lemma {:induction false} AppendElsewhere(ovfl: seq<Ovfl>, t: nat, symnr: nat, e: nat)
    requires LinksAscend(ovfl) && |ovfl| > 0 && t < |ovfl| && Link(ovfl, e)
    requires !OnChain(ovfl, e, t)
    ensures ChainSyms(Append(ovfl, t, symnr), e) == ChainSyms(ovfl, e)
    decreases |ovfl| - e
  {
    if e != 0 {
      var r := Append(ovfl, t, symnr);
      assert r[e] == ovfl[e];
      if ovfl[e].next != 0 {
        AppendElsewhere(ovfl, t, symnr, ovfl[e].next);
      }
    }
  }

  /** A walk that ends in `t` goes on to the new entry. */
  lemma {:induction false} AppendAtTail(ovfl: seq<Ovfl>, t: nat, symnr: nat, e: nat)
    requires LinksAscend(ovfl) && 0 < t < |ovfl| && Link(ovfl, e)
    requires ovfl[t].next == 0 && OnChain(ovfl, e, t)
    ensures ChainSyms(Append(ovfl, t, symnr), e) == ChainSyms(ovfl, e).Snoc(symnr)
    ensures OnChain(Append(ovfl, t, symnr), e, |ovfl|)
    decreases |ovfl| - e
  {
    var r := Append(ovfl, t, symnr);
    assert r[|ovfl|] == Ovfl(symnr, 0);
    if e == t {
      assert r[e] == Ovfl(ovfl[t].symnr, |ovfl|);
      assert ChainSyms(r, |ovfl|) == Cons(symnr, Nil);
      assert OnChain(r, |ovfl|, |ovfl|);
    } else {
      assert r[e] == ovfl[e];
      AppendAtTail(ovfl, t, symnr, ovfl[e].next);
    }
  }

  /** No walk loses an entry. */
  lemma {:induction false} AppendKeeps(ovfl: seq<Ovfl>, t: nat, symnr: nat, e: nat, x: nat)
    requires LinksAscend(ovfl) && |ovfl| > 0 && t < |ovfl| && (t == 0 || ovfl[t].next == 0)
    requires Link(ovfl, e) && OnChain(ovfl, e, x)
    ensures OnChain(Append(ovfl, t, symnr), e, x)
    decreases |ovfl| - e
  {
    if e != x {
      assert e != t && Append(ovfl, t, symnr)[e] == ovfl[e];
      AppendKeeps(ovfl, t, symnr, ovfl[e].next, x);
    }
  }

  lemma {:induction false} ChainSymsHas(ovfl: seq<Ovfl>, e: nat, x: nat)
    requires Link(ovfl, e) && OnChain(ovfl, e, x)
    ensures 0 < x < |ovfl| && ChainSyms(ovfl, e).Has(ovfl[x].symnr)
    decreases |ovfl| - e
  {
    if e != x {
      ChainSymsHas(ovfl, ovfl[e].next, x);
    }
  }

  /** A chain of one bucket never holds an entry of another bucket's symbol. */
  lemma ChainMembers(hash: HashFn, m: Index, names: seq<string>, n: nat, b: nat, x: nat)
    requires Indexes(hash, m, names, n) && b < |m.tbl|
    requires Link(m.ovfl, m.tbl[b].chain) && OnChain(m.ovfl, m.tbl[b].chain, x)
    ensures 0 < x < |m.ovfl| && 0 < m.ovfl[x].symnr < n
    ensures BucketOf(hash, names[m.ovfl[x].symnr], |m.tbl|) == b
  {
    var syms := Members(hash, names, n, |m.tbl|, b);
    assert Holds(hash, m.tbl[b], m.ovfl, names, syms);
    ChainSymsHas(m.ovfl, m.tbl[b].chain, x);
    assert syms.Has(m.ovfl[x].symnr);
    MembersExact(hash, names, n, |m.tbl|, b, m.ovfl[x].symnr);
  }

  lemma MembersNext(hash: HashFn, names: seq<string>, n: nat, size: nat, b: nat)
    requires 1 <= n < |names| && size > 0
    ensures var m := Members(hash, names, n, size, b);
      Members(hash, names, n + 1, size, b) == if b == BucketOf(hash, names[n], size) then m.Snoc(n) else m
  {}

  lemma {:induction false} OnChainNext(ovfl: seq<Ovfl>, e: nat, x: nat)
    requires Link(ovfl, e) && OnChain(ovfl, e, x) && 0 < x < |ovfl| && ovfl[x].next != 0
    ensures OnChain(ovfl, e, ovfl[x].next)
    decreases |ovfl| - e
  {
    if e != x {
      OnChainNext(ovfl, ovfl[e].next, x);
    } else {
      assert OnChain(ovfl, ovfl[x].next, ovfl[x].next);
    }
  }

  /** A number is found in the bucket of its name exactly when it was filed before. */
  lemma FiledBefore(hash: HashFn, m: Index, names: seq<string>, n: nat, symnr: nat, b: nat)
    requires Indexes(hash, m, names, n) && 0 < symnr < |names| && b == BucketOf(hash, names[symnr], |m.tbl|)
    ensures Holds(hash, m.tbl[b], m.ovfl, names, Members(hash, names, n, |m.tbl|, b))
    ensures Content(m.tbl[b], m.ovfl).Has(symnr) <==> symnr < n
  {
    assert Holds(hash, m.tbl[b], m.ovfl, names, Members(hash, names, n, |m.tbl|, b));
    MembersExact(hash, names, n, |m.tbl|, b, symnr);
  }

  lemma ContentHas(bkt: Bucket, ovfl: seq<Ovfl>, k: nat)
    requires Link(ovfl, bkt.chain) && FreeSlot(bkt) == 2
    ensures Content(bkt, ovfl).Has(k)
       <==> bkt.ent0.symnr == k || bkt.ent1.symnr == k || ChainSyms(ovfl, bkt.chain).Has(k)
  {
    assert Content(bkt, ovfl).tail.Has(k) <==> bkt.ent1.symnr == k || ChainSyms(ovfl, bkt.chain).Has(k);
  }

  /** The slot a bucket fills next: 2 when only its chain can grow. */
  function FreeSlot(bkt: Bucket): nat {
    if bkt.ent0.symnr == 0 then 0 else if bkt.ent1.symnr == 0 then 1 else 2
  }

  lemma SlotHolds(hash: HashFn, bkt: Bucket, ovfl: seq<Ovfl>, names: seq<string>, syms: Syms, n: nat)
    requires Holds(hash, bkt, ovfl, names, syms) && FreeSlot(bkt) < ASSOCIATIVITY && 0 < n < |names|
    ensures Holds(hash, bkt.WithEnt(FreeSlot(bkt), HashEnt(hash(names[n]), n)), ovfl, names, syms.Snoc(n))
  {}

  /** Filing in a free slot of the bucket. */
  lemma FileInSlot(hash: HashFn, m: Index, names: seq<string>, n: nat)
    requires Indexes(hash, m, names, n) && n < |names|
    requires FreeSlot(m.tbl[BucketOf(hash, names[n], |m.tbl|)]) < ASSOCIATIVITY
    ensures var b := BucketOf(hash, names[n], |m.tbl|);
      var bkt := m.tbl[b].WithEnt(FreeSlot(m.tbl[b]), HashEnt(hash(names[n]), n));
      Indexes(hash, m.(tbl := m.tbl[b := bkt]), names, n + 1)
  {
    var b, n' := BucketOf(hash, names[n], |m.tbl|), n + 1;
    var bkt := m.tbl[b].WithEnt(FreeSlot(m.tbl[b]), HashEnt(hash(names[n]), n));
    var m' := m.(tbl := m.tbl[b := bkt]);
    forall b' | 0 <= b' < |m'.tbl|
      ensures Holds(hash, m'.tbl[b'], m'.ovfl, names, Members(hash, names, n', |m'.tbl|, b'))
    {
      MembersNext(hash, names, n, |m.tbl|, b');
      assert Holds(hash, m.tbl[b'], m.ovfl, names, Members(hash, names, n, |m.tbl|, b'));
      if b' == b {
        SlotHolds(hash, m.tbl[b], m.ovfl, names, Members(hash, names, n, |m.tbl|, b), n);
      }
    }
    forall e: nat | 0 < e < |m'.ovfl|
      ensures OnItsChain(hash, m', names, n', e)
    {
      assert OnItsChain(hash, m, names, n, e);
    }
  }

  /** The overflow array before its first real entry: entry 0 is reserved. */
  function Allocated(ovfl: seq<Ovfl>): (r: seq<Ovfl>)
    ensures |r| > 0 && ovfl <= r
  {
    if ovfl == [] then [Ovfl(0, 0)] else ovfl
  }

  lemma IndexesAllocated(hash: HashFn, m: Index, names: seq<string>, n: nat)
    requires Indexes(hash, m, names, n)
    ensures Indexes(hash, WithAllocated(m), names, n)
  {
    if m.ovfl == [] {
      var m' := WithAllocated(m);
      forall b | 0 <= b < |m.tbl|
        ensures Holds(hash, m'.tbl[b], m'.ovfl, names, Members(hash, names, n, |m.tbl|, b))
      {
        assert Holds(hash, m.tbl[b], m.ovfl, names, Members(hash, names, n, |m.tbl|, b));
      }
    }
  }

  lemma HeadHolds(hash: HashFn, bkt: Bucket, ovfl: seq<Ovfl>, names: seq<string>, syms: Syms, n: nat)
    requires Holds(hash, bkt, ovfl, names, syms) && FreeSlot(bkt) == 2
    requires |ovfl| > 0 && bkt.chain == 0
    ensures Holds(hash, bkt.(chain := |ovfl|), Append(ovfl, 0, n), names, syms.Snoc(n))
  {
    assert ChainSyms(Append(ovfl, 0, n), |ovfl|) == Cons(n, Nil);
    assert syms.tail.Snoc(n) == Cons(bkt.ent1.symnr, Nil.Snoc(n)) == Cons(bkt.ent1.symnr, Cons(n, Nil));
  }

  lemma TailHolds(hash: HashFn, bkt: Bucket, ovfl: seq<Ovfl>, names: seq<string>, syms: Syms, t: nat, n: nat)
    requires Holds(hash, bkt, ovfl, names, syms) && FreeSlot(bkt) == 2
    requires 0 < t < |ovfl| && ovfl[t].next == 0 && OnChain(ovfl, bkt.chain, t)
    ensures Holds(hash, bkt, Append(ovfl, t, n), names, syms.Snoc(n))
  {
    AppendAtTail(ovfl, t, n, bkt.chain);
  }

  lemma OtherHolds(hash: HashFn, bkt: Bucket, ovfl: seq<Ovfl>, names: seq<string>, syms: Syms, t: nat, n: nat)
    requires Holds(hash, bkt, ovfl, names, syms) && |ovfl| > 0 && t < |ovfl|
    requires !OnChain(ovfl, bkt.chain, t)
    ensures Holds(hash, bkt, Append(ovfl, t, n), names, syms)
  {
    AppendElsewhere(ovfl, t, n, bkt.chain);
  }

  /** Entry `t` is where the chain of bucket `b` ends; 0 when it has none. */
  ghost predicate ChainEnd(m: Index, b: nat, t: nat)
    requires b < |m.tbl| && Link(m.ovfl, m.tbl[b].chain)
  {
    if t == 0 then m.tbl[b].chain == 0
    else t < |m.ovfl| && m.ovfl[t].next == 0 && OnChain(m.ovfl, m.tbl[b].chain, t)
  }

  /** The index after symbol `n` was appended behind entry `t`, or, when `t` is 0, as the
      head of the chain of bucket `b`. */
  ghost function InOvfl(m: Index, b: nat, t: nat, n: nat): Index
    requires b < |m.tbl| && LinksAscend(m.ovfl) && t < |m.ovfl|
  {
    Index(if t == 0 then m.tbl[b := m.tbl[b].(chain := |m.ovfl|)] else m.tbl, Append(m.ovfl, t, n))
  }

  ghost predicate CanFileInOvfl(hash: HashFn, m: Index, names: seq<string>, n: nat, b: nat, t: nat) {
    && Indexes(hash, m, names, n)
    && n < |names|
    && b == BucketOf(hash, names[n], |m.tbl|)
    && |m.ovfl| > 0
    && FreeSlot(m.tbl[b]) == 2
    && Link(m.ovfl, m.tbl[b].chain)
    && ChainEnd(m, b, t)
  }

  lemma FileInOvflBucket(hash: HashFn, m: Index, names: seq<string>, n: nat, b: nat, t: nat, b': nat)
    requires CanFileInOvfl(hash, m, names, n, b, t) && b' < |m.tbl|
    ensures var m' := InOvfl(m, b, t, n);
      Holds(hash, m'.tbl[b'], m'.ovfl, names, Members(hash, names, n + 1, |m.tbl|, b'))
  {
    var syms := Members(hash, names, n, |m.tbl|, b');
    assert Holds(hash, m.tbl[b'], m.ovfl, names, syms);
    MembersNext(hash, names, n, |m.tbl|, b');
    if b' != b {
      if OnChain(m.ovfl, m.tbl[b'].chain, t) {
        ChainMembers(hash, m, names, n, b', t);
        ChainMembers(hash, m, names, n, b, t);
      }
      OtherHolds(hash, m.tbl[b'], m.ovfl, names, syms, t, n);
    } else if t == 0 {
      HeadHolds(hash, m.tbl[b], m.ovfl, names, syms, n);
    } else {
      TailHolds(hash, m.tbl[b], m.ovfl, names, syms, t, n);
    }
  }

  lemma FileInOvflEntry(hash: HashFn, m: Index, names: seq<string>, n: nat, b: nat, t: nat, e: nat)
    requires CanFileInOvfl(hash, m, names, n, b, t) && 0 < e <= |m.ovfl|
    ensures OnItsChain(hash, InOvfl(m, b, t, n), names, n + 1, e)
  {
    var r := Append(m.ovfl, t, n);
    if e < |m.ovfl| {
      assert OnItsChain(hash, m, names, n, e);
      AppendKeeps(m.ovfl, t, n, m.tbl[BucketOf(hash, names[m.ovfl[e].symnr], |m.tbl|)].chain, e);
      assert r[e].symnr == m.ovfl[e].symnr;
    } else if t == 0 {
      assert OnChain(r, e, e);
    } else {
      AppendAtTail(m.ovfl, t, n, m.tbl[b].chain);
    }
  }

  /** Filing in the overflow array: a new chain, or a longer one. */
  lemma FileInOvfl(hash: HashFn, m: Index, names: seq<string>, n: nat, b: nat, t: nat)
    requires CanFileInOvfl(hash, m, names, n, b, t)
    ensures Indexes(hash, InOvfl(m, b, t, n), names, n + 1)
  {
    var m', n' := InOvfl(m, b, t, n), n + 1;
    forall b' | 0 <= b' < |m'.tbl|
      ensures Holds(hash, m'.tbl[b'], m'.ovfl, names, Members(hash, names, n', |m'.tbl|, b'))
    {
      FileInOvflBucket(hash, m, names, n, b, t, b');
    }
    forall e: nat | 0 < e < |m'.ovfl|
      ensures OnItsChain(hash, m', names, n', e)
    {
      FileInOvflEntry(hash, m, names, n, b, t, e);
    }
  }

  function WithAllocated(m: Index): Index {
    m.(ovfl := Allocated(m.ovfl))
  }

  lemma FileInAllocated(hash: HashFn, m: Index, names: seq<string>, n: nat, b: nat, t: nat)
    requires Indexes(hash, m, names, n) && n < |names| && b == BucketOf(hash, names[n], |m.tbl|)
    requires FreeSlot(m.tbl[b]) == 2 && Link(m.ovfl, m.tbl[b].chain) && ChainEnd(m, b, t)
    ensures LinksAscend(Allocated(m.ovfl)) && Indexes(hash, InOvfl(WithAllocated(m), b, t, n), names, n + 1)
  {
    IndexesAllocated(hash, m, names, n);
    FileInOvfl(hash, WithAllocated(m), names, n, b, t);
  }

  // ---- What the shape means

  /** Every number is filed exactly once, in the bucket of its hash; slots fill before chains. */
  lemma FiledExactlyOnce(hash: HashFn, m: Index, names: seq<string>, n: nat, k: nat, b: nat)
    requires Indexes(hash, m, names, n) && 0 < k < n && b < |m.tbl|
    ensures Link(m.ovfl, m.tbl[b].chain)
    ensures Content(m.tbl[b], m.ovfl).Count(k) == if b == BucketOf(hash, names[k], |m.tbl|) then 1 else 0
    ensures m.tbl[b].chain != 0 ==> FreeSlot(m.tbl[b]) == 2
  {
    assert Holds(hash, m.tbl[b], m.ovfl, names, Members(hash, names, n, |m.tbl|, b));
    MembersExact(hash, names, n, |m.tbl|, b, k);
  }

  /** Every overflow entry lies on exactly one chain: that of its symbol's bucket. */
  lemma ChainsPartitionOvfl(hash: HashFn, m: Index, names: seq<string>, n: nat, e: nat, b: nat)
    requires Indexes(hash, m, names, n) && 0 < e < |m.ovfl| && b < |m.tbl|
    ensures Link(m.ovfl, m.tbl[b].chain) && 0 < m.ovfl[e].symnr < n
    ensures OnChain(m.ovfl, m.tbl[b].chain, e) <==> b == BucketOf(hash, names[m.ovfl[e].symnr], |m.tbl|)
  {
    assert Holds(hash, m.tbl[b], m.ovfl, names, Members(hash, names, n, |m.tbl|, b));
    assert OnItsChain(hash, m, names, n, e);
    if OnChain(m.ovfl, m.tbl[b].chain, e) {
      ChainMembers(hash, m, names, n, b, e);
    }
  }
}