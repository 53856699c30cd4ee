/**
 * `make_gene_relationships` of `src/ensembl_lite/_genomedb.py`: records are
 * sorted into buckets by lower-cased biotype and name, then every CDS is
 * walked up to its mRNA and on to its gene, the CDS takes the canonical
 * marker of a canonical mRNA, and each gene is mapped to a set of records.
 *
 * The records are objects and the function rewrites the `attrs` of some of
 * them, so the functions below work on a snapshot `snap` of their values
 * taken before the call. A Python set of records compares its elements by
 * name; it is a map from name to record here. The dict the source returns
 * is keyed by gene records, i.e. by gene name, and a set may be the value of
 * two genes at once: sets live in an arena of slots and each gene names its
 * slot.
 */
module GeneRelations {
  import opened Outcomes
  import opened Dicts
  import opened GffText
  import opened GffRecord

  type Snapshot = map<EnsemblGffRecord, RecordValue>

  /** Lower-cased biotype, then name, to the record stored there. */
  type Buckets = map<string, Dict<string, EnsemblGffRecord>>

  /** One entry of the returned dict: a gene and the records of its set. */
  datatype Relation = Relation(gene: EnsemblGffRecord, children: set<EnsemblGffRecord>)

  ghost predicate Covers(snap: Snapshot, records: seq<EnsemblGffRecord>) {
    forall i :: 0 <= i < |records| ==> records[i] in snap
  }

  /** The values of `records` at this moment. */
  ghost function Snap(records: seq<EnsemblGffRecord>): (snap: Snapshot)
    reads set i | 0 <= i < |records| :: records[i]
    ensures Covers(snap, records) && snap.Keys == set i | 0 <= i < |records| :: records[i]
    ensures forall o :: o in snap ==> snap[o] == o.Value()
  {
    map o | o in (set i | 0 <= i < |records| :: records[i]) :: o.Value()
  }

  ghost predicate BucketsValid(m: Buckets) {
    forall b :: b in m ==> Valid(m[b])
  }

  /** Every stored record sits in the bucket of its own lower-cased biotype, under its own name. */
  ghost predicate Named(m: Buckets, snap: Snapshot) {
    forall b, n :: b in m && n in m[b].items ==>
      m[b].items[n] in snap && snap[m[b].items[n]].name == n && Lower(snap[m[b].items[n]].biotype) == b
  }

  /** The first loop of `make_gene_relationships`, over `records` as they were when it ran. */
  function Bucketed(records: seq<EnsemblGffRecord>, snap: Snapshot): (m: Buckets)
    requires Covers(snap, records)
    ensures BucketsValid(m)
  {
    if records == [] then map[]
    else
      var pre := Bucketed(records[..|records| - 1], snap);
      var r := records[|records| - 1];
      var b := Lower(snap[r].biotype);
      var bucket := if b in pre then pre[b] else Empty();
      pre[b := Put(bucket, snap[r].name, r)]
  }

  lemma {:induction false} BucketedNamed(records: seq<EnsemblGffRecord>, snap: Snapshot)
    requires Covers(snap, records)
    ensures Named(Bucketed(records, snap), snap)
  {
    if records != [] {
      var pre := records[..|records| - 1];
      BucketedNamed(pre, snap);
      var m0, m := Bucketed(pre, snap), Bucketed(records, snap);
      var r := records[|records| - 1];
      forall b, n | b in m && n in m[b].items
        ensures m[b].items[n] in snap
        ensures snap[m[b].items[n]].name == n && Lower(snap[m[b].items[n]].biotype) == b
      {
        if b == Lower(snap[r].biotype) && n == snap[r].name {
          assert m[b].items[n] == r;
        } else {
          assert m[b].items[n] == m0[b].items[n];
        }
      }
    }
  }

  /** The lower-cased biotypes of `records`, in order. */
  ghost function BiotypeKeys(records: seq<EnsemblGffRecord>, snap: Snapshot): (bs: seq<string>)
    requires Covers(snap, records)
    ensures |bs| == |records|
  {
    seq(|records|, i requires 0 <= i < |records| => Lower(snap[records[i]].biotype))
  }

  /** The names of `records`, in order. */
  ghost function NameKeys(records: seq<EnsemblGffRecord>, snap: Snapshot): (ns: seq<string>)
    requires Covers(snap, records)
    ensures |ns| == |records|
  {
    seq(|records|, i requires 0 <= i < |records| => snap[records[i]].name)
  }

  /** No later entry has the same biotype and name as the `i`-th. */
  ghost predicate LastPair(bs: seq<string>, ns: seq<string>, i: nat)
    requires |ns| == |bs| && i < |bs|
  {
    forall j :: i < j < |bs| ==> bs[j] != bs[i] || ns[j] != ns[i]
  }

  /**
   * Record `rs[i]` is filed under biotype `bs[i]` and name `ns[i]`, the
   * last record with a given biotype and name is the one kept there, and
   * nothing but these records is filed.
   */
  ghost predicate Filed(m: Buckets, bs: seq<string>, ns: seq<string>, rs: seq<EnsemblGffRecord>)
    requires |ns| == |bs| && |rs| == |bs|
  {
    (forall i :: 0 <= i < |rs| ==> bs[i] in m && ns[i] in m[bs[i]].items)
    && (forall i :: 0 <= i < |rs| && LastPair(bs, ns, i) ==> m[bs[i]].items[ns[i]] == rs[i])
    && (forall b, n :: b in m && n in m[b].items ==> m[b].items[n] in rs)
  }

  /** Every record is filed, a later record with the same biotype and name replaces an earlier one, and only records of the list are filed. */
  lemma {:induction false} BucketedLast(records: seq<EnsemblGffRecord>, snap: Snapshot)
    requires Covers(snap, records)
    ensures Filed(Bucketed(records, snap), BiotypeKeys(records, snap), NameKeys(records, snap), records)
  {
    if records != [] {
      var k := |records| - 1;
      var pre := records[..k];
      BucketedLast(pre, snap);
      KeysSnoc(records, snap);
      var m0, bs, ns := Bucketed(pre, snap), BiotypeKeys(records, snap), NameKeys(records, snap);
      assert Filed(m0, bs[..k], ns[..k], records[..k]);
      FiledSnoc(m0, bs, ns, records);
      BucketedSnoc(records, snap);
      assert Bucketed(records, snap) == FileLast(m0, bs, ns, records);
    }
  }

  lemma KeysSnoc(records: seq<EnsemblGffRecord>, snap: Snapshot)
    requires Covers(snap, records) && records != []
    ensures var k := |records| - 1;
      BiotypeKeys(records, snap)[..k] == BiotypeKeys(records[..k], snap)
      && NameKeys(records, snap)[..k] == NameKeys(records[..k], snap)
  {
  }

  lemma BucketedSnoc(records: seq<EnsemblGffRecord>, snap: Snapshot)
    requires Covers(snap, records) && records != []
    ensures Bucketed(records, snap)
      == FileLast(Bucketed(records[..|records| - 1], snap), BiotypeKeys(records, snap), NameKeys(records, snap), records)
  {
  }

  /** Filing record `rs[k]` under `bs[k]` and `ns[k]`, where `k` is the last index. */
  function FileLast(m0: Buckets, bs: seq<string>, ns: seq<string>, rs: seq<EnsemblGffRecord>): Buckets
    requires |ns| == |bs| && |rs| == |bs| && |bs| > 0 && BucketsValid(m0)
  {
    var k := |bs| - 1;
    var bucket := if bs[k] in m0 then m0[bs[k]] else Empty();
    m0[bs[k] := Put(bucket, ns[k], rs[k])]
  }

  lemma FiledSnoc(m0: Buckets, bs: seq<string>, ns: seq<string>, rs: seq<EnsemblGffRecord>)
    requires |ns| == |bs| && |rs| == |bs| && |bs| > 0 && BucketsValid(m0)
    requires var k := |bs| - 1; Filed(m0, bs[..k], ns[..k], rs[..k])
    ensures Filed(FileLast(m0, bs, ns, rs), bs, ns, rs)
  {
    FiledSnocPresent(m0, bs, ns, rs);
    FiledSnocLast(m0, bs, ns, rs);
    FiledSnocOnly(m0, bs, ns, rs);
  }

  lemma FiledSnocPresent(m0: Buckets, bs: seq<string>, ns: seq<string>, rs: seq<EnsemblGffRecord>)
    requires |ns| == |bs| && |rs| == |bs| && |bs| > 0 && BucketsValid(m0)
    requires var k := |bs| - 1; Filed(m0, bs[..k], ns[..k], rs[..k])
    ensures var m := FileLast(m0, bs, ns, rs); forall i :: 0 <= i < |rs| ==> bs[i] in m && ns[i] in m[bs[i]].items
  {
    var k := |bs| - 1;
    var m := FileLast(m0, bs, ns, rs);
    forall i | 0 <= i < k ensures bs[i] in m && ns[i] in m[bs[i]].items {
      assert bs[..k][i] == bs[i] && ns[..k][i] == ns[i];
    }
  }

  lemma FiledSnocLast(m0: Buckets, bs: seq<string>, ns: seq<string>, rs: seq<EnsemblGffRecord>)
    requires |ns| == |bs| && |rs| == |bs| && |bs| > 0 && BucketsValid(m0)
    requires var k := |bs| - 1; Filed(m0, bs[..k], ns[..k], rs[..k])
    ensures var m := FileLast(m0, bs, ns, rs);
      forall i :: 0 <= i < |rs| && LastPair(bs, ns, i) ==> bs[i] in m && ns[i] in m[bs[i]].items && m[bs[i]].items[ns[i]] == rs[i]
  {
    var k := |bs| - 1;
    var m := FileLast(m0, bs, ns, rs);
    var b0, n0 := bs[k], ns[k];
    var p, q, t := bs[..k], ns[..k], rs[..k];
    forall i | 0 <= i < |rs| && LastPair(bs, ns, i)
      ensures bs[i] in m && ns[i] in m[bs[i]].items && m[bs[i]].items[ns[i]] == rs[i]
    {
      if i < k {
        assert p[i] == bs[i] && q[i] == ns[i] && t[i] == rs[i];
        assert LastPair(p, q, i);
        assert bs[i] != b0 || ns[i] != n0;
        assert m0[bs[i]].items[ns[i]] == rs[i];
        if bs[i] == b0 {
          assert m[b0].items == m0[b0].items[n0 := rs[k]];
        }
      }
    }
  }

  lemma FiledSnocOnly(m0: Buckets, bs: seq<string>, ns: seq<string>, rs: seq<EnsemblGffRecord>)
    requires |ns| == |bs| && |rs| == |bs| && |bs| > 0 && BucketsValid(m0)
    requires var k := |bs| - 1; Filed(m0, bs[..k], ns[..k], rs[..k])
    ensures var m := FileLast(m0, bs, ns, rs); forall b, n :: b in m && n in m[b].items ==> m[b].items[n] in rs
  {
    var m := FileLast(m0, bs, ns, rs);
    forall b, n | b in m && n in m[b].items ensures m[b].items[n] in rs {
      FiledSnocOnlyAt(m0, bs, ns, rs, b, n);
    }
  }

  lemma FiledSnocOnlyAt(m0: Buckets, bs: seq<string>, ns: seq<string>, rs: seq<EnsemblGffRecord>, b: string, n: string)
    requires |ns| == |bs| && |rs| == |bs| && |bs| > 0 && BucketsValid(m0)
    requires var k := |bs| - 1; forall b, n :: b in m0 && n in m0[b].items ==> m0[b].items[n] in rs[..k]
    requires var m := FileLast(m0, bs, ns, rs); b in m && n in m[b].items
    ensures var m := FileLast(m0, bs, ns, rs); m[b].items[n] in rs
  {
    var k := |bs| - 1;
    var m := FileLast(m0, bs, ns, rs);
    var b0, n0 := bs[k], ns[k];
    if b == b0 && n == n0 {
      assert m[b].items[n] == rs[k];
    } else {
      if b == b0 {
        assert m[b0].items == (if b0 in m0 then m0[b0] else Empty()).items[n0 := rs[k]];
      } else {
        assert m[b] == m0[b];
      }
      assert b in m0 && n in m0[b].items && m[b].items[n] == m0[b].items[n];
      var x := m0[b].items[n];
      assert x in rs[..k];
      var j :| 0 <= j < k && rs[..k][j] == x;
      assert rs[j] == x;
    }
  }

  /**
   * The second loop, part way: whether every lookup so far succeeded, the
   * gene name to slot dict, the slots (sets keyed by name) and the CDS
   * records that took the canonical marker.
   */
  datatype GeneState = GeneState(
    ok: bool,
    genes: Dict<string, nat>,
    slots: seq<map<string, EnsemblGffRecord>>,
    marked: set<EnsemblGffRecord>)

  ghost predicate SlotsValid(genes: Dict<string, nat>, slots: seq<map<string, EnsemblGffRecord>>) {
    Valid(genes) && forall g :: g in genes.items ==> genes.items[g] < |slots|
  }

  ghost predicate StateValid(st: GeneState) {
    SlotsValid(st.genes, st.slots)
  }

  /** Every gene of the dict is a record of the gene bucket. */
  ghost predicate GenesIn(genes: Dict<string, nat>, m: Buckets) {
    forall g :: g in genes.items ==> "gene" in m && g in m["gene"].items
  }

  ghost predicate GenesFiled(st: GeneState, m: Buckets) {
    GenesIn(st.genes, m)
  }

  /** `set.add`: an element equal by name to a member leaves the set as it is. */
  function AddByName(s: map<string, EnsemblGffRecord>, name: string, r: EnsemblGffRecord): map<string, EnsemblGffRecord> {
    if name in s then s else s[name := r]
  }

  /** The mRNA record a CDS value's parent names, if there is one. */
  function MrnaOf(m: Buckets, cv: RecordValue): Option<EnsemblGffRecord> {
    if "mrna" in m && cv.parentId in m["mrna"].items then Some(m["mrna"].items[cv.parentId]) else None
  }

  /** The gene record an mRNA value's parent names, if there is one. */
  function GeneOf(m: Buckets, mv: RecordValue): Option<EnsemblGffRecord> {
    if "gene" in m && mv.parentId in m["gene"].items then Some(m["gene"].items[mv.parentId]) else None
  }

  /** One turn of the second loop, for the CDS record `c`; after a `KeyError` nothing changes. */
  function GeneStep(st: GeneState, c: EnsemblGffRecord, m: Buckets, snap: Snapshot): (r: GeneState)
    requires StateValid(st) && c in snap && BucketsValid(m) && Named(m, snap)
  {
    if !st.ok then st
    else match MrnaOf(m, snap[c])
      case None => st.(ok := false)
      case Some(mrna) =>
        var marked := if Contains(snap[mrna].attrs, CanonicalTag) then st.marked + {c} else st.marked;
        match GeneOf(m, snap[mrna])
        case None => st.(ok := false, marked := marked)
        case Some(gene) =>
          var key := StripTypedIds(snap[gene].name);
          var slot := if key in st.genes.items then st.genes.items[key] else |st.slots|;
          var slots := if key in st.genes.items then st.slots else st.slots + [map[]];
          var members := AddByName(AddByName(slots[slot], snap[c].name, c), snap[mrna].name, mrna);
          GeneState(true, Put(st.genes, snap[gene].name, slot), slots[slot := members], marked)
  }

  /** A step that finds both the mRNA and the gene of `c`. */
  lemma GeneStepHit(st: GeneState, c: EnsemblGffRecord, m: Buckets, snap: Snapshot, mrna: EnsemblGffRecord, gene: EnsemblGffRecord)
    requires StateValid(st) && st.ok && c in snap && BucketsValid(m) && Named(m, snap)
    requires MrnaOf(m, snap[c]) == Some(mrna) && GeneOf(m, snap[mrna]) == Some(gene)
    ensures var key := StripTypedIds(snap[gene].name);
      var slot := if key in st.genes.items then st.genes.items[key] else |st.slots|;
      var slots := if key in st.genes.items then st.slots else st.slots + [map[]];
      var marked := if Contains(snap[mrna].attrs, CanonicalTag) then st.marked + {c} else st.marked;
      GeneStep(st, c, m, snap)
      == GeneState(true, Put(st.genes, snap[gene].name, slot),
                   slots[slot := AddByName(AddByName(slots[slot], snap[c].name, c), snap[mrna].name, mrna)], marked)
  {
  }

  lemma StepValid(st: GeneState, c: EnsemblGffRecord, m: Buckets, snap: Snapshot)
    requires StateValid(st) && GenesFiled(st, m) && c in snap && BucketsValid(m) && Named(m, snap)
    ensures StateValid(GeneStep(st, c, m, snap)) && GenesFiled(GeneStep(st, c, m, snap), m)
  {
    var r := GeneStep(st, c, m, snap);
    if st.ok && MrnaOf(m, snap[c]).Some? && GeneOf(m, snap[MrnaOf(m, snap[c]).value]).Some? {
      var mrna := MrnaOf(m, snap[c]).value;
      var gene := GeneOf(m, snap[mrna]).value;
      var name := snap[gene].name;
      assert name == snap[mrna].parentId && name in m["gene"].items;
      assert |r.slots| >= |st.slots| && r.genes == Put(st.genes, name, r.genes.items[name]);
      forall g | g in r.genes.items
        ensures r.genes.items[g] < |r.slots| && "gene" in m && g in m["gene"].items
      {
        if g != name {
          assert r.genes.items[g] == st.genes.items[g];
        }
      }
    }
  }

  /** The second loop over the CDS records `cds`, in order. */
  function GeneFold(cds: seq<EnsemblGffRecord>, m: Buckets, snap: Snapshot): (st: GeneState)
    requires BucketsValid(m) && Named(m, snap) && forall i :: 0 <= i < |cds| ==> cds[i] in snap
    ensures StateValid(st) && GenesFiled(st, m)
  {
    if cds == [] then GeneState(true, Empty(), [], {})
    else
      var pre := GeneFold(cds[..|cds| - 1], m, snap);
      StepValid(pre, cds[|cds| - 1], m, snap);
      GeneStep(pre, cds[|cds| - 1], m, snap)
  }

  /** Both loops over `records` with values `snap`; a missing `cds` bucket is a `KeyError`. */
  function GeneRelationsSpec(records: seq<EnsemblGffRecord>, snap: Snapshot): (st: GeneState)
    requires Covers(snap, records)
    ensures StateValid(st) && GenesFiled(st, Bucketed(records, snap))
  {
    var m := Bucketed(records, snap);
    BucketedNamed(records, snap);
    if "cds" in m then GeneFold(Values(m["cds"]), m, snap) else GeneState(false, Empty(), [], {})
  }

  /** The returned dict, in key order: each gene record with the records of its slot. */
  function RelationsOf(genes: Dict<string, nat>, slots: seq<map<string, EnsemblGffRecord>>, m: Buckets): (rs: seq<Relation>)
    requires SlotsValid(genes, slots) && GenesIn(genes, m)
    ensures |rs| == |genes.keys|
  {
    seq(|genes.keys|, i requires 0 <= i < |genes.keys| => RelationOf(genes, slots, m, genes.keys[i]))
  }

  function RelationOf(genes: Dict<string, nat>, slots: seq<map<string, EnsemblGffRecord>>, m: Buckets, g: string): Relation
    requires SlotsValid(genes, slots) && GenesIn(genes, m) && g in genes.items
  {
    Relation(m["gene"].items[g], slots[genes.items[g]].Values)
  }

  /** A record's value after the second loop: a marked CDS carries the canonical marker in front. */
  function Marked(v: RecordValue, marked: bool): RecordValue {
    if marked then v.(attrs := CanonicalTag + ";" + v.attrs) else v
  }

  /** Every record in `snap` holds its snapshot value, with the marker in front when it is in `marked`. */
  ghost predicate HeapIs(snap: Snapshot, marked: set<EnsemblGffRecord>)
    reads snap.Keys
  {
    forall o :: o in snap ==> o.Value() == Marked(snap[o], o in marked)
  }

  /** Only CDS records take the marker. */
  ghost predicate MarkedCds(snap: Snapshot, marked: set<EnsemblGffRecord>) {
    forall o :: o in marked ==> o in snap && Lower(snap[o].biotype) == "cds"
  }

  /** One more CDS record is one more `GeneStep`. */
  lemma FoldSnoc(cds: seq<EnsemblGffRecord>, j: nat, m: Buckets, snap: Snapshot)
    requires BucketsValid(m) && Named(m, snap) && forall i :: 0 <= i < |cds| ==> cds[i] in snap
    requires j < |cds|
    ensures GeneFold(cds[..j + 1], m, snap) == GeneStep(GeneFold(cds[..j], m, snap), cds[j], m, snap)
  {
    assert cds[..j + 1][..j] == cds[..j];
  }

  /** Once a lookup failed, the rest of the CDS records change nothing. */
  lemma {:induction false} FoldAfterFailure(cds: seq<EnsemblGffRecord>, j: nat, m: Buckets, snap: Snapshot)
    requires BucketsValid(m) && Named(m, snap) && forall i :: 0 <= i < |cds| ==> cds[i] in snap
    requires j <= |cds| && !GeneFold(cds[..j], m, snap).ok
    ensures GeneFold(cds, m, snap) == GeneFold(cds[..j], m, snap)
    decreases |cds| - j
  {
    if j < |cds| {
      var pre := cds[..|cds| - 1];
      assert pre[..j] == cds[..j];
      FoldAfterFailure(pre, j, m, snap);
    } else {
      assert cds[..j] == cds;
    }
  }

  /** The CDS `c` has an mRNA in the `mrna` bucket, and that mRNA a gene in the `gene` bucket. */
  ghost predicate Resolves(m: Buckets, snap: Snapshot, c: EnsemblGffRecord)
    requires BucketsValid(m) && Named(m, snap)
  {
    c in snap && MrnaOf(m, snap[c]).Some? && GeneOf(m, snap[MrnaOf(m, snap[c]).value]).Some?
  }

  /** The CDS `c` has an mRNA, and that mRNA carries the canonical marker. */
  ghost predicate CanonicalMrna(m: Buckets, snap: Snapshot, c: EnsemblGffRecord)
    requires BucketsValid(m) && Named(m, snap)
  {
    c in snap && MrnaOf(m, snap[c]).Some? && Contains(snap[MrnaOf(m, snap[c]).value].attrs, CanonicalTag)
  }

  ghost function MrnaRecord(m: Buckets, snap: Snapshot, c: EnsemblGffRecord): EnsemblGffRecord
    requires BucketsValid(m) && Named(m, snap) && Resolves(m, snap, c)
  {
    MrnaOf(m, snap[c]).value
  }

  /** The name of the gene the CDS `c` belongs to. */
  ghost function GeneKey(m: Buckets, snap: Snapshot, c: EnsemblGffRecord): string
    requires BucketsValid(m) && Named(m, snap) && Resolves(m, snap, c)
  {
    snap[MrnaRecord(m, snap, c)].parentId
  }

  /** No gene's prefix-stripped name is itself the name of a gene. */
  ghost predicate NoCollision(m: Buckets) {
    "gene" in m ==> forall n :: n in m["gene"].items ==> StripTypedIds(n) !in m["gene"].items
  }

  /** The set a gene gets from one CDS: the CDS, and its mRNA unless a member already has that name. */
  ghost function PairOf(m: Buckets, snap: Snapshot, c: EnsemblGffRecord): map<string, EnsemblGffRecord>
    requires BucketsValid(m) && Named(m, snap) && Resolves(m, snap, c)
  {
    AddByName(AddByName(map[], snap[c].name, c), snap[MrnaRecord(m, snap, c)].name, MrnaRecord(m, snap, c))
  }

  lemma StepOk(st: GeneState, c: EnsemblGffRecord, m: Buckets, snap: Snapshot)
    requires StateValid(st) && c in snap && BucketsValid(m) && Named(m, snap)
    ensures GeneStep(st, c, m, snap).ok == (st.ok && Resolves(m, snap, c))
  {
  }

  lemma ResolvesSnoc(cds: seq<EnsemblGffRecord>, pre: seq<EnsemblGffRecord>, m: Buckets, snap: Snapshot)
    requires BucketsValid(m) && Named(m, snap) && cds != [] && pre == cds[..|cds| - 1]
    requires forall i :: 0 <= i < |pre| ==> Resolves(m, snap, pre[i])
    requires Resolves(m, snap, cds[|cds| - 1])
    ensures forall i :: 0 <= i < |cds| ==> Resolves(m, snap, cds[i])
  {
    forall i | 0 <= i < |cds| ensures Resolves(m, snap, cds[i]) {
      if i < |pre| {
        assert cds[i] == pre[i];
      }
    }
  }

  /** A full run means every CDS has its mRNA and that mRNA its gene. */
  lemma {:induction false} FoldOkResolves(cds: seq<EnsemblGffRecord>, m: Buckets, snap: Snapshot)
    requires BucketsValid(m) && Named(m, snap) && forall i :: 0 <= i < |cds| ==> cds[i] in snap
    requires GeneFold(cds, m, snap).ok
    ensures forall i :: 0 <= i < |cds| ==> Resolves(m, snap, cds[i])
  {
    if cds != [] {
      var pre := cds[..|cds| - 1];
      var c := cds[|cds| - 1];
      assert GeneFold(cds, m, snap) == GeneStep(GeneFold(pre, m, snap), c, m, snap);
      StepOk(GeneFold(pre, m, snap), c, m, snap);
      FoldOkResolves(pre, m, snap);
      ResolvesSnoc(cds, pre, m, snap);
    }
  }

  /** When every CDS resolves, the loop runs to the end. */
  lemma {:induction false} ResolvesFoldOk(cds: seq<EnsemblGffRecord>, m: Buckets, snap: Snapshot)
    requires BucketsValid(m) && Named(m, snap) && forall i :: 0 <= i < |cds| ==> cds[i] in snap
    requires forall i :: 0 <= i < |cds| ==> Resolves(m, snap, cds[i])
    ensures GeneFold(cds, m, snap).ok
  {
    if cds != [] {
      var pre := cds[..|cds| - 1];
      var c := cds[|cds| - 1];
      forall i | 0 <= i < |pre| ensures Resolves(m, snap, pre[i]) {
        assert pre[i] == cds[i];
      }
      ResolvesFoldOk(pre, m, snap);
      StepOk(GeneFold(pre, m, snap), c, m, snap);
    }
  }

  /** The loop runs to the end exactly when every CDS has its mRNA and that mRNA its gene. */
  lemma FoldOk(cds: seq<EnsemblGffRecord>, m: Buckets, snap: Snapshot)
    requires BucketsValid(m) && Named(m, snap) && forall i :: 0 <= i < |cds| ==> cds[i] in snap
    ensures GeneFold(cds, m, snap).ok <==> forall i :: 0 <= i < |cds| ==> Resolves(m, snap, cds[i])
  {
    if GeneFold(cds, m, snap).ok {
      FoldOkResolves(cds, m, snap);
    }
    if forall i :: 0 <= i < |cds| ==> Resolves(m, snap, cds[i]) {
      ResolvesFoldOk(cds, m, snap);
    }
  }

  lemma StepMarked(st: GeneState, c: EnsemblGffRecord, m: Buckets, snap: Snapshot)
    requires StateValid(st) && c in snap && BucketsValid(m) && Named(m, snap)
    ensures GeneStep(st, c, m, snap).marked == if st.ok && CanonicalMrna(m, snap, c) then st.marked + {c} else st.marked
    ensures GeneStep(st, c, m, snap).ok ==> st.ok
  {
  }

  lemma MarkedSnoc(cds: seq<EnsemblGffRecord>, pre: seq<EnsemblGffRecord>, st: GeneState, st': GeneState,
                   m: Buckets, snap: Snapshot)
    requires BucketsValid(m) && Named(m, snap) && cds != [] && pre == cds[..|cds| - 1]
    requires forall c :: c in st.marked ==> c in pre && CanonicalMrna(m, snap, c)
    requires st.ok ==> forall i :: 0 <= i < |pre| && CanonicalMrna(m, snap, pre[i]) ==> pre[i] in st.marked
    requires st'.marked == if st.ok && CanonicalMrna(m, snap, cds[|cds| - 1]) then st.marked + {cds[|cds| - 1]} else st.marked
    requires st'.ok ==> st.ok
    ensures forall c :: c in st'.marked ==> c in cds && CanonicalMrna(m, snap, c)
    ensures st'.ok ==> forall i :: 0 <= i < |cds| && CanonicalMrna(m, snap, cds[i]) ==> cds[i] in st'.marked
  {
    forall c | c in st'.marked ensures c in cds && CanonicalMrna(m, snap, c) {
      if c in st.marked {
        var i :| 0 <= i < |pre| && pre[i] == c;
        assert cds[i] == c;
      }
    }
    if st'.ok {
      forall i | 0 <= i < |cds| && CanonicalMrna(m, snap, cds[i]) ensures cds[i] in st'.marked {
        if i < |pre| {
          assert cds[i] == pre[i];
        }
      }
    }
  }

  /**
   * The CDS records that take the canonical marker are CDS records of the
   * list whose mRNA is canonical, and after a full run they are all of them.
   */
  lemma {:induction false} FoldMarked(cds: seq<EnsemblGffRecord>, m: Buckets, snap: Snapshot)
    requires BucketsValid(m) && Named(m, snap) && forall i :: 0 <= i < |cds| ==> cds[i] in snap
    ensures forall c :: c in GeneFold(cds, m, snap).marked ==> c in cds && CanonicalMrna(m, snap, c)
    ensures GeneFold(cds, m, snap).ok ==>
      forall i :: 0 <= i < |cds| && CanonicalMrna(m, snap, cds[i]) ==> cds[i] in GeneFold(cds, m, snap).marked
  {
    if cds != [] {
      var pre, c := cds[..|cds| - 1], cds[|cds| - 1];
      var st, st' := GeneFold(pre, m, snap), GeneFold(cds, m, snap);
      assert st' == GeneStep(st, c, m, snap);
      StepMarked(st, c, m, snap);
      FoldMarked(pre, m, snap);
      MarkedSnoc(cds, pre, st, st', m, snap);
    }
  }

  /** The gene names of the CDS records, in order. */
  ghost function GeneKeys(m: Buckets, snap: Snapshot, cds: seq<EnsemblGffRecord>): (keys: seq<string>)
    requires BucketsValid(m) && Named(m, snap) && forall i :: 0 <= i < |cds| ==> Resolves(m, snap, cds[i])
    ensures |keys| == |cds|
  {
    seq(|cds|, i requires 0 <= i < |cds| => GeneKey(m, snap, cds[i]))
  }

  /** The names of the CDS records, in order. */
  ghost function CdsNames(snap: Snapshot, cds: seq<EnsemblGffRecord>): (names: seq<string>)
    requires forall i :: 0 <= i < |cds| ==> cds[i] in snap
    ensures |names| == |cds|
  {
    seq(|cds|, i requires 0 <= i < |cds| => snap[cds[i]].name)
  }

  /** The names of their mRNA records, in order. */
  ghost function MrnaNames(m: Buckets, snap: Snapshot, cds: seq<EnsemblGffRecord>): (names: seq<string>)
    requires BucketsValid(m) && Named(m, snap) && forall i :: 0 <= i < |cds| ==> Resolves(m, snap, cds[i])
    ensures |names| == |cds|
  {
    seq(|cds|, i requires 0 <= i < |cds| => snap[MrnaRecord(m, snap, cds[i])].name)
  }

  /** The sets each CDS alone would give its gene, in order. */
  ghost function Pairs(m: Buckets, snap: Snapshot, cds: seq<EnsemblGffRecord>): (ps: seq<map<string, EnsemblGffRecord>>)
    requires BucketsValid(m) && Named(m, snap) && forall i :: 0 <= i < |cds| ==> Resolves(m, snap, cds[i])
    ensures |ps| == |cds|
  {
    seq(|cds|, i requires 0 <= i < |cds| => PairOf(m, snap, cds[i]))
  }

  /** No later entry of `keys` repeats the `i`-th. */
  ghost predicate LastIn(keys: seq<string>, i: nat)
    requires i < |keys|
  {
    forall j :: i < j < |keys| ==> keys[j] != keys[i]
  }

  /**
   * The gene dict holds exactly the gene names `keys`; the slot of the gene
   * of the last CDS of each gene holds that CDS's name and its mRNA's name,
   * and, when `alone`, nothing but the pair that CDS gives.
   */
  ghost predicate SlotsFit(st: GeneState, keys: seq<string>, cn: seq<string>, mn: seq<string>,
                           ps: seq<map<string, EnsemblGffRecord>>, alone: bool)
    requires StateValid(st) && |cn| == |keys| && |mn| == |keys| && |ps| == |keys|
  {
    (forall g :: g in st.genes.items <==> g in keys)
    && forall i :: 0 <= i < |keys| && LastIn(keys, i) && keys[i] in st.genes.items ==>
      var slot := st.slots[st.genes.items[keys[i]]];
      cn[i] in slot && mn[i] in slot && (alone ==> slot == ps[i])
  }

  /**
   * What one resolved CDS does to the gene dict and the slots: its gene `g`
   * gets slot `slot`, an old one or a new one at the end, which gains the
   * names `a` of the CDS and `b` of its mRNA (and is exactly `p` when
   * `alone`); no other gene and no other slot changes, and no slot loses a
   * name.
   */
  ghost predicate SlotStep(st: GeneState, st': GeneState, g: string, a: string, b: string,
                           p: map<string, EnsemblGffRecord>, alone: bool, slot: nat)
  {
    slot <= |st.slots| && |st'.slots| == (if slot < |st.slots| then |st.slots| else |st.slots| + 1)
    && st'.genes.items == st.genes.items[g := slot]
    && (forall x :: 0 <= x < |st.slots| && x != slot ==> st'.slots[x] == st.slots[x])
    && (slot < |st.slots| ==> st.slots[slot].Keys <= st'.slots[slot].Keys)
    && a in st'.slots[slot] && b in st'.slots[slot]
    && (alone ==> slot == |st.slots| && st'.slots[slot] == p)
  }

  /** The slot the gene dict gives a gene whose stripped name is `key`: that key's slot, else a new one. */
  function SlotFor(genes: Dict<string, nat>, slots: seq<map<string, EnsemblGffRecord>>, key: string): nat {
    if key in genes.items then genes.items[key] else |slots|
  }

  /** The slots with a new empty one at the end when `key` names no slot. */
  function SlotsFor(genes: Dict<string, nat>, slots: seq<map<string, EnsemblGffRecord>>, key: string): seq<map<string, EnsemblGffRecord>> {
    if key in genes.items then slots else slots + [map[]]
  }

  lemma StepShape(st: GeneState, c: EnsemblGffRecord, m: Buckets, snap: Snapshot)
    requires StateValid(st) && st.ok && c in snap && BucketsValid(m) && Named(m, snap) && Resolves(m, snap, c)
    ensures var st', g := GeneStep(st, c, m, snap), GeneKey(m, snap, c);
      var key := StripTypedIds(g);
      var slot, base := SlotFor(st.genes, st.slots, key), SlotsFor(st.genes, st.slots, key);
      slot < |base| && st'.genes == Put(st.genes, g, slot)
      && st'.slots == base[slot := AddByName(AddByName(base[slot], snap[c].name, c),
                                             snap[MrnaRecord(m, snap, c)].name, MrnaRecord(m, snap, c))]
  {
    var gene := m["gene"].items[GeneKey(m, snap, c)];
    assert snap[gene].name == GeneKey(m, snap, c);
  }

  lemma UpdateIsSlotStep(st: GeneState, st': GeneState, g: string, key: string, a: string, ra: EnsemblGffRecord,
                         b: string, rb: EnsemblGffRecord, alone: bool)
    requires StateValid(st) && (alone ==> key !in st.genes.items)
    requires var slot, base := SlotFor(st.genes, st.slots, key), SlotsFor(st.genes, st.slots, key);
      st'.genes == Put(st.genes, g, slot) && st'.slots == base[slot := AddByName(AddByName(base[slot], a, ra), b, rb)]
    ensures SlotStep(st, st', g, a, b, AddByName(AddByName(map[], a, ra), b, rb), alone, SlotFor(st.genes, st.slots, key))
  {
  }

  lemma StepSlots(st: GeneState, c: EnsemblGffRecord, m: Buckets, snap: Snapshot)
    requires StateValid(st) && GenesIn(st.genes, m) && st.ok && c in snap && BucketsValid(m) && Named(m, snap)
    requires Resolves(m, snap, c)
    ensures var g := GeneKey(m, snap, c);
      SlotStep(st, GeneStep(st, c, m, snap), g, snap[c].name, snap[MrnaRecord(m, snap, c)].name,
               PairOf(m, snap, c), NoCollision(m), SlotFor(st.genes, st.slots, StripTypedIds(g)))
  {
    var g := GeneKey(m, snap, c);
    StepShape(st, c, m, snap);
    if NoCollision(m) {
      assert StripTypedIds(g) !in st.genes.items;
    }
    UpdateIsSlotStep(st, GeneStep(st, c, m, snap), g, StripTypedIds(g), snap[c].name, c,
                     snap[MrnaRecord(m, snap, c)].name, MrnaRecord(m, snap, c), NoCollision(m));
  }

  lemma SlotsSnoc(keys: seq<string>, cn: seq<string>, mn: seq<string>, ps: seq<map<string, EnsemblGffRecord>>,
                  g: string, a: string, b: string, p: map<string, EnsemblGffRecord>,
                  alone: bool, st: GeneState, st': GeneState, slot: nat)
    requires |cn| == |keys| && |mn| == |keys| && |ps| == |keys|
    requires StateValid(st) && StateValid(st')
    requires SlotsFit(st, keys, cn, mn, ps, alone)
    requires SlotStep(st, st', g, a, b, p, alone, slot)
    ensures SlotsFit(st', keys + [g], cn + [a], mn + [b], ps + [p], alone)
  {
    var n := |keys|;
    var k1, c1, m1, p1 := keys + [g], cn + [a], mn + [b], ps + [p];
    forall x ensures x in st'.genes.items <==> x in k1 {
      assert x in k1 <==> x in keys || x == g;
    }
    forall i | 0 <= i < |k1| && LastIn(k1, i) && k1[i] in st'.genes.items
      ensures var sl := st'.slots[st'.genes.items[k1[i]]];
        c1[i] in sl && m1[i] in sl && (alone ==> sl == p1[i])
    {
      if i < n {
        assert k1[i] == keys[i] && c1[i] == cn[i] && m1[i] == mn[i] && p1[i] == ps[i];
        forall j | i < j < |keys| ensures keys[j] != keys[i] {
          assert k1[j] == keys[j];
        }
        assert k1[n] == g;
        var x := st.genes.items[keys[i]];
        assert st'.genes.items[keys[i]] == x;
        if x == slot {
          assert st.slots[x].Keys <= st'.slots[x].Keys;
        }
      } else {
        assert k1[i] == g && c1[i] == a && m1[i] == b && p1[i] == p;
        assert st'.genes.items[g] == slot;
      }
    }
  }

  /**
   * After a full run the gene dict holds exactly the genes of the CDS
   * records; the set of a gene holds the names of the last CDS of that gene
   * and of its mRNA; and when no gene's stripped name is a gene name (so the
   * lookup by stripped name always misses) that set is nothing but the pair
   * that last CDS gives.
   */
  lemma {:induction false} FoldSlots(cds: seq<EnsemblGffRecord>, m: Buckets, snap: Snapshot)
    requires BucketsValid(m) && Named(m, snap) && forall i :: 0 <= i < |cds| ==> cds[i] in snap
    requires forall i :: 0 <= i < |cds| ==> Resolves(m, snap, cds[i])
    ensures SlotsFit(GeneFold(cds, m, snap), GeneKeys(m, snap, cds), CdsNames(snap, cds), MrnaNames(m, snap, cds),
                     Pairs(m, snap, cds), NoCollision(m))
  {
    if cds != [] {
      var n := |cds| - 1;
      var pre, c := cds[..n], cds[n];
      PrefixResolves(cds, m, snap);
      FoldSlots(pre, m, snap);
      ResolvesFoldOk(pre, m, snap);
      FoldLast(cds, m, snap);
      var st := GeneFold(pre, m, snap);
      StepSlots(st, c, m, snap);
      SlotSeqsSnoc(cds, m, snap);
      SlotsSnoc(GeneKeys(m, snap, pre), CdsNames(snap, pre), MrnaNames(m, snap, pre), Pairs(m, snap, pre),
                GeneKey(m, snap, c), snap[c].name, snap[MrnaRecord(m, snap, c)].name, PairOf(m, snap, c),
                NoCollision(m), st, GeneFold(cds, m, snap), SlotFor(st.genes, st.slots, StripTypedIds(GeneKey(m, snap, c))));
    }
  }

  lemma PrefixResolves(cds: seq<EnsemblGffRecord>, m: Buckets, snap: Snapshot)
    requires BucketsValid(m) && Named(m, snap) && cds != []
    requires forall i :: 0 <= i < |cds| ==> Resolves(m, snap, cds[i])
    ensures var pre := cds[..|cds| - 1]; forall i :: 0 <= i < |pre| ==> pre[i] in snap && Resolves(m, snap, pre[i])
  {
    var pre := cds[..|cds| - 1];
    forall i | 0 <= i < |pre| ensures pre[i] in snap && Resolves(m, snap, pre[i]) {
      assert pre[i] == cds[i];
    }
  }

  lemma FoldLast(cds: seq<EnsemblGffRecord>, m: Buckets, snap: Snapshot)
    requires BucketsValid(m) && Named(m, snap) && forall i :: 0 <= i < |cds| ==> cds[i] in snap
    requires cds != []
    ensures GeneFold(cds, m, snap) == GeneStep(GeneFold(cds[..|cds| - 1], m, snap), cds[|cds| - 1], m, snap)
  {
  }

  lemma SlotSeqsSnoc(cds: seq<EnsemblGffRecord>, m: Buckets, snap: Snapshot)
    requires BucketsValid(m) && Named(m, snap) && cds != []
    requires forall i :: 0 <= i < |cds| ==> Resolves(m, snap, cds[i])
    ensures var k := |cds| - 1;
      var pre, c := cds[..k], cds[k];
      GeneKeys(m, snap, cds) == GeneKeys(m, snap, pre) + [GeneKey(m, snap, c)]
      && CdsNames(snap, cds) == CdsNames(snap, pre) + [snap[c].name]
      && MrnaNames(m, snap, cds) == MrnaNames(m, snap, pre) + [snap[MrnaRecord(m, snap, c)].name]
      && Pairs(m, snap, cds) == Pairs(m, snap, pre) + [PairOf(m, snap, c)]
  {
  }

  /**
   * Both loops over `records`: they run to the end exactly when there is a
   * `cds` bucket and every CDS in it has its mRNA and that mRNA its gene;
   * the records that take the marker are CDS records of that bucket whose
   * mRNA is canonical, and after a full run they are all of them.
   */
  lemma GeneRelationsOutcome(records: seq<EnsemblGffRecord>, snap: Snapshot)
    requires Covers(snap, records)
    ensures var m, st := Bucketed(records, snap), GeneRelationsSpec(records, snap);
      Named(m, snap)
      && (st.ok <==> "cds" in m && forall i :: 0 <= i < |Values(m["cds"])| ==> Resolves(m, snap, Values(m["cds"])[i]))
    ensures var m, st := Bucketed(records, snap), GeneRelationsSpec(records, snap);
      Named(m, snap)
      && (forall c :: c in st.marked ==> "cds" in m && c in Values(m["cds"]) && CanonicalMrna(m, snap, c))
      && (st.ok ==> forall i :: 0 <= i < |Values(m["cds"])| && CanonicalMrna(m, snap, Values(m["cds"])[i]) ==>
            Values(m["cds"])[i] in st.marked)
  {
    var m := Bucketed(records, snap);
    BucketedNamed(records, snap);
    if "cds" in m {
      var cds := Values(m["cds"]);
      FoldOk(cds, m, snap);
      FoldMarked(cds, m, snap);
    }
  }

  /** A record with the marker in front is canonical. */
  lemma MarkedIsCanonical(v: RecordValue)
    ensures Contains(Marked(v, true).attrs, CanonicalTag)
  {
    ContainsPrefix(CanonicalTag, ";" + v.attrs);
    assert CanonicalTag + ";" + v.attrs == CanonicalTag + (";" + v.attrs);
  }

  /** The records of a bucket, in key order, are distinct objects. */
  lemma ValuesDistinct(m: Buckets, snap: Snapshot, b: string)
    requires BucketsValid(m) && Named(m, snap) && b in m
    ensures var vs := Values(m[b]); forall i, j :: 0 <= i < j < |vs| ==> vs[i] != vs[j]
  {
    var vs := Values(m[b]);
    forall i, j | 0 <= i < j < |vs| ensures vs[i] != vs[j] {
      assert snap[vs[i]].name == m[b].keys[i] && snap[vs[j]].name == m[b].keys[j];
    }
  }

  /** The first loop: the buckets of `records`, read in order. */
  method BucketRecords(records: seq<EnsemblGffRecord>) returns (buckets: Buckets)
    ensures buckets == Bucketed(records, Snap(records))
  {
    ghost var snap := Snap(records);
    buckets := map[];
    for i := 0 to |records|
      invariant Covers(snap, records[..i]) && buckets == Bucketed(records[..i], snap)
    {
      BucketedNext(records, snap, i);
      var record := records[i];
      var b := Lower(record.biotype);
      var bucket := if b in buckets then buckets[b] else Empty();
      buckets := buckets[b := Put(bucket, record.name, record)];
    }
    assert records[..|records|] == records;
  }

  /** Reading one more record files it in its bucket under its name. */
  lemma BucketedNext(records: seq<EnsemblGffRecord>, snap: Snapshot, i: nat)
    requires Covers(snap, records) && i < |records|
    ensures Covers(snap, records[..i]) && Covers(snap, records[..i + 1])
    ensures var pre, r := Bucketed(records[..i], snap), records[i];
      var b := Lower(snap[r].biotype);
      Bucketed(records[..i + 1], snap) == pre[b := Put(if b in pre then pre[b] else Empty(), snap[r].name, r)]
  {
    assert records[..i + 1][..i] == records[..i];
  }

  /** A CDS under a canonical mRNA takes the canonical marker in front of its attributes. */
  method MarkCanonical(cds: EnsemblGffRecord, ghost snap: Snapshot, ghost marked: set<EnsemblGffRecord>)
      returns (ghost marked': set<EnsemblGffRecord>)
    requires cds in snap && Lower(snap[cds].biotype) == "cds" && cds !in marked
    requires HeapIs(snap, marked) && MarkedCds(snap, marked)
    modifies cds`attrs
    ensures marked' == marked + {cds}
    ensures HeapIs(snap, marked') && MarkedCds(snap, marked')
  {
    cds.attrs := CanonicalTag + ";" + cds.attrs;
    marked' := marked + {cds};
    forall o | o in snap
      ensures o.Value() == Marked(snap[o], o in marked')
    {
      if o != cds {
        assert o.Value() == old(o.Value());
      }
    }
  }

  /** One turn of the second loop, for the CDS record `cds`; `ok` is false after a `KeyError`. */
  method RelateCds(cds: EnsemblGffRecord, buckets: Buckets, genes: Dict<string, nat>,
                   slots: seq<map<string, EnsemblGffRecord>>, ghost snap: Snapshot, ghost marked: set<EnsemblGffRecord>)
      returns (ok: bool, genes': Dict<string, nat>, slots': seq<map<string, EnsemblGffRecord>>,
               ghost marked': set<EnsemblGffRecord>)
    requires BucketsValid(buckets) && Named(buckets, snap) && SlotsValid(genes, slots)
    requires cds in snap && Lower(snap[cds].biotype) == "cds" && cds !in marked
    requires HeapIs(snap, marked) && MarkedCds(snap, marked)
    modifies cds`attrs
    ensures GeneState(ok, genes', slots', marked') == GeneStep(GeneState(true, genes, slots, marked), cds, buckets, snap)
    ensures marked' == marked || marked' == marked + {cds}
    ensures HeapIs(snap, marked') && MarkedCds(snap, marked')
  {
    ok, genes', slots', marked' := false, genes, slots, marked;
    var cdsName, cdsParent := cds.name, cds.parentId;
    assert cdsName == snap[cds].name && cdsParent == snap[cds].parentId;
    if "mrna" !in buckets || cdsParent !in buckets["mrna"].items {
      assert MrnaOf(buckets, snap[cds]).None?;
      return;
    }
    var mrna := buckets["mrna"].items[cdsParent];
    assert MrnaOf(buckets, snap[cds]) == Some(mrna);
    assert mrna.Value() == snap[mrna];
    var mrnaName, mrnaParent := mrna.name, mrna.parentId;
    if mrna.IsCanonical() {
      marked' := MarkCanonical(cds, snap, marked);
    }
    assert marked' == (if Contains(snap[mrna].attrs, CanonicalTag) then marked + {cds} else marked);
    if "gene" !in buckets || mrnaParent !in buckets["gene"].items {
      assert GeneOf(buckets, snap[mrna]).None?;
      return;
    }
    var gene := buckets["gene"].items[mrnaParent];
    assert GeneOf(buckets, snap[mrna]) == Some(gene);
    assert gene.Value() == snap[gene];
    var key := gene.StableId();
    var slot: nat;
    if key in genes.items {
      slot := genes.items[key];
    } else {
      slot := |slots|;
      slots' := slots + [map[]];
    }
    assert key == StripTypedIds(snap[gene].name) && gene.name == snap[gene].name;
    assert slots' == if key in genes.items then slots else slots + [map[]];
    var members := AddByName(AddByName(slots'[slot], cdsName, cds), mrnaName, mrna);
    ok, slots', genes' := true, slots'[slot := members], Put(genes, gene.name, slot);
    GeneStepHit(GeneState(true, genes, slots, marked), cds, buckets, snap, mrna, gene);
  }

  /** The second loop, over the CDS records in bucket order; it stops at the first `KeyError`. */
  method RelateAll(cdsList: seq<EnsemblGffRecord>, buckets: Buckets, ghost snap: Snapshot)
      returns (ok: bool, genes: Dict<string, nat>, slots: seq<map<string, EnsemblGffRecord>>,
               ghost marked: set<EnsemblGffRecord>)
    requires BucketsValid(buckets) && Named(buckets, snap)
    requires forall i :: 0 <= i < |cdsList| ==> cdsList[i] in snap && Lower(snap[cdsList[i]].biotype) == "cds"
    requires forall i, j :: 0 <= i < j < |cdsList| ==> cdsList[i] != cdsList[j]
    requires HeapIs(snap, {})
    modifies snap.Keys`attrs
    ensures GeneFold(cdsList, buckets, snap) == GeneState(ok, genes, slots, marked)
    ensures HeapIs(snap, marked)
  {
    genes, slots, marked := Empty(), [], {};
    for j := 0 to |cdsList|
      invariant GeneFold(cdsList[..j], buckets, snap) == GeneState(true, genes, slots, marked)
      invariant forall i :: j <= i < |cdsList| ==> cdsList[i] !in marked
      invariant HeapIs(snap, marked) && MarkedCds(snap, marked)
    {
      FoldSnoc(cdsList, j, buckets, snap);
      var cds := cdsList[j];
      assert cds !in marked;
      ok, genes, slots, marked := RelateCds(cds, buckets, genes, slots, snap, marked);
      if !ok {
        FoldAfterFailure(cdsList, j + 1, buckets, snap);
        return;
      }
    }
    ok := true;
    assert cdsList[..|cdsList|] == cdsList;
  }

  /**
   * `make_gene_relationships`: a `KeyError` (a missing bucket, or a parent
   * name that is not in the next bucket) stops it half way, after the
   * changes made so far.
   */
  method MakeGeneRelationships(records: seq<EnsemblGffRecord>) returns (r: Result<seq<Relation>, string>)
    modifies (set i | 0 <= i < |records| :: records[i])`attrs
    ensures var snap := old(Snap(records));
      var st := GeneRelationsSpec(records, snap);
      (r.Success? <==> st.ok) && (r.Success? ==> r.value == RelationsOf(st.genes, st.slots, Bucketed(records, snap)))
    ensures var st := GeneRelationsSpec(records, old(Snap(records)));
      forall i :: 0 <= i < |records| ==> records[i].Value() == Marked(old(records[i].Value()), records[i] in st.marked)
    ensures forall i :: 0 <= i < |records| ==> records[i].featureId == old(records[i].featureId)
  {
    ghost var snap := Snap(records);
    var buckets := BucketRecords(records);
    BucketedNamed(records, snap);
    if "cds" !in buckets {
      return Failure("KeyError: 'cds'");
    }
    var cdsList := Values(buckets["cds"]);
    ValuesDistinct(buckets, snap, "cds");
    var ok, genes, slots, marked := RelateAll(cdsList, buckets, snap);
    if ok {
      r := Success(RelationsOf(genes, slots, buckets));
    } else {
      r := Failure("KeyError: a parent name that is not in the next bucket");
    }
  }
}
