/**
 * The tables of the feature-graph store `EnsemblGffDb` of
 * `src/ensembl_lite/_genomedb.py`, and what its operations do to them.
 *
 * The SQLite tables become values: the `biotype` table is a sequence of
 * type strings and the `feature` table a sequence of rows, the row at
 * position `k` of either having the AUTOINCREMENT id `k + 1` (rows are
 * never deleted). The `related_feature` table is a set of
 * `(gene_id, related_id)` pairs: every query of this store reads it
 * through a set or a name-keyed dict, so duplicate rows cannot be observed.
 */
module GffStore {
  import opened Outcomes
  import opened GffText
  import opened GffRecord

  /** One row of the `feature` table. */
  datatype Feature = Feature(
    seqid: string,
    biotypeId: nat,
    start: int,
    stop: int,
    strand: string,
    attrs: string,
    spans: seq<Span>,
    stableId: string,
    isCanonical: bool)

  /** The tables of one store, and `_get_biotype_id`'s per-store cache. */
  datatype Store = Store(
    biotypes: seq<string>,
    biotypeIds: map<string, nat>,
    features: seq<Feature>,
    edges: set<(nat, nat)>)

  /** One row of the `gff` view: a feature joined with its biotype text. */
  datatype GffRow = GffRow(
    seqid: string,
    biotype: string,
    start: int,
    stop: int,
    strand: string,
    spans: seq<Span>,
    name: string,
    isCanonical: bool,
    featureId: nat)

  const EmptyStore: Store := Store([], map[], [], {})

  const EmptySpans: string := "zero-size array to reduction operation"
  const GeneIdMissing: string := "gene.feature_id not defined"
  const ChildIdMissing: string := "child.feature_id not defined"
  /** What `"Ensembl_canonical;" + None` raises when a record with no attribute text is canonical. */
  const AttrsNone: string := "can only concatenate str (not \"NoneType\") to str"

  /** `int(numpy.array(spans).min())`: the least coordinate of any segment. */
  function MinCoord(spans: seq<Span>): (m: int)
    requires spans != []
    ensures forall k :: 0 <= k < |spans| ==> m <= spans[k].start && m <= spans[k].end
    ensures exists k :: 0 <= k < |spans| && (m == spans[k].start || m == spans[k].end)
  {
    var here := if spans[0].start <= spans[0].end then spans[0].start else spans[0].end;
    if |spans| == 1 then here
    else
      var rest := MinCoord(spans[1..]);
      assert forall k :: 1 <= k < |spans| ==> spans[k] == spans[1..][k - 1];
      if here <= rest then here else rest
  }

  /** `int(numpy.array(spans).max())`: the greatest coordinate of any segment. */
  function MaxCoord(spans: seq<Span>): (m: int)
    requires spans != []
    ensures forall k :: 0 <= k < |spans| ==> spans[k].start <= m && spans[k].end <= m
    ensures exists k :: 0 <= k < |spans| && (m == spans[k].start || m == spans[k].end)
  {
    var here := if spans[0].start >= spans[0].end then spans[0].start else spans[0].end;
    if |spans| == 1 then here
    else
      var rest := MaxCoord(spans[1..]);
      assert forall k :: 1 <= k < |spans| ==> spans[k] == spans[1..][k - 1];
      if here >= rest then here else rest
  }

  /**
   * The record after `add_feature` has filled its coordinates: a falsy
   * (zero) start or stop becomes the least or greatest coordinate of the
   * spans. `None` when such a coordinate is needed and there are no spans,
   * where numpy raises `ValueError`.
   */
  function Filled(v: RecordValue): Option<RecordValue> {
    if (v.start == 0 || v.stop == 0) && v.spans == [] then None
    else Some(v.(start := if v.start != 0 then v.start else MinCoord(v.spans),
                 stop := if v.stop != 0 then v.stop else MaxCoord(v.spans)))
  }

  /**
   * Filling only touches zero coordinates, and only with the extreme
   * coordinate of the spans; a filled record fills to itself, so storing it
   * again writes the same coordinates.
   */
  lemma FilledSpec(v: RecordValue)
    ensures Filled(v).None? <==> v.spans == [] && (v.start == 0 || v.stop == 0)
    ensures Filled(v).Some? ==> var w := Filled(v).value;
      w.(start := v.start, stop := v.stop) == v
      && (v.start != 0 ==> w.start == v.start)
      && (v.start == 0 ==> forall k :: 0 <= k < |v.spans| ==> w.start <= v.spans[k].start && w.start <= v.spans[k].end)
      && (v.stop != 0 ==> w.stop == v.stop)
      && (v.stop == 0 ==> forall k :: 0 <= k < |v.spans| ==> v.spans[k].start <= w.stop && v.spans[k].end <= w.stop)
      && Filled(w) == Some(w)
  {
  }

  /** What a stored row keeps about its coordinates: a zero is the spans' own extreme. */
  predicate RowValid(biotypeCount: nat, f: Feature) {
    1 <= f.biotypeId <= biotypeCount
    && (f.start == 0 ==> f.spans != [] && MinCoord(f.spans) == 0)
    && (f.stop == 0 ==> f.spans != [] && MaxCoord(f.spans) == 0)
  }

  /**
   * The cache and the biotype table agree (every cached string names its own
   * row and every row is cached under its own text), and every feature names
   * an existing biotype row.
   */
  ghost predicate StoreValid(s: Store) {
    (forall b :: b in s.biotypeIds ==>
      1 <= s.biotypeIds[b] <= |s.biotypes| && s.biotypes[s.biotypeIds[b] - 1] == b)
    && (forall k :: 0 <= k < |s.biotypes| ==>
      s.biotypes[k] in s.biotypeIds && s.biotypeIds[s.biotypes[k]] == k + 1)
    && (forall k :: 0 <= k < |s.features| ==> RowValid(|s.biotypes|, s.features[k]))
  }

  /** The `feature` row `add_feature` writes for a filled record. */
  function RowOf(w: RecordValue, biotypeId: nat): Feature {
    Feature(w.seqid, biotypeId, w.start, w.stop, w.strand, w.attrs, w.spans,
            StripTypedIds(w.name), Contains(w.attrs, CanonicalTag))
  }

  function ViewRow(biotypes: seq<string>, f: Feature, id: nat): GffRow
    requires 1 <= f.biotypeId <= |biotypes|
  {
    GffRow(f.seqid, biotypes[f.biotypeId - 1], f.start, f.stop, f.strand, f.spans,
           f.stableId, f.isCanonical, id)
  }

  /** The `gff` view, in id order. */
  function View(s: Store): (rows: seq<GffRow>)
    requires StoreValid(s)
    ensures |rows| == |s.features|
  {
    seq(|s.features|, k requires 0 <= k < |s.features| => ViewRow(s.biotypes, s.features[k], k + 1))
  }

  /** How a filled record reads back through the `gff` view once stored under `id`. */
  function StoredView(w: RecordValue, id: nat): GffRow {
    GffRow(w.seqid, w.biotype, w.start, w.stop, w.strand, w.spans,
           StripTypedIds(w.name), Contains(w.attrs, CanonicalTag), id)
  }

  /** `_get_biotype_id`: the cached id of `b`, or the id of a new biotype row. */
  function Intern(s: Store, b: string): (Store, nat) {
    if b in s.biotypeIds then (s, s.biotypeIds[b])
    else
      var id := |s.biotypes| + 1;
      (s.(biotypes := s.biotypes + [b], biotypeIds := s.biotypeIds[b := id]), id)
  }

  /**
   * The id returned names a row holding exactly `b`; a string already seen
   * keeps its id; no cached entry ever changes; only the biotype table grows.
   */
  lemma InternSpec(s: Store, b: string)
    requires StoreValid(s)
    ensures var (s', id) := Intern(s, b);
      1 <= id <= |s'.biotypes| && s'.biotypes[id - 1] == b && s'.biotypeIds[b] == id
      && (b in s.biotypeIds ==> id == s.biotypeIds[b] && s' == s)
      && (b !in s.biotypeIds ==> id == |s.biotypes| + 1)
      && (forall c :: c in s.biotypeIds ==> c in s'.biotypeIds && s'.biotypeIds[c] == s.biotypeIds[c])
      && s'.biotypes[..|s.biotypes|] == s.biotypes
      && s'.features == s.features && s'.edges == s.edges
  {
  }

  /** Interning keeps the cache and the tables in agreement. */
  lemma InternValid(s: Store, b: string)
    requires StoreValid(s)
    ensures StoreValid(Intern(s, b).0)
  {
    if b !in s.biotypeIds {
      var bs, ids := s.biotypes + [b], s.biotypeIds[b := |s.biotypes| + 1];
      assert Intern(s, b).0 == s.(biotypes := bs, biotypeIds := ids);
      InternCached(s.biotypes, s.biotypeIds, b);
      InternRows(s.biotypes, s.biotypeIds, b);
      forall k | 0 <= k < |s.features| ensures RowValid(|bs|, s.features[k]) {
      }
    }
  }

  /** A new biotype keeps every cached string naming its own row. */
  lemma InternCached(bs: seq<string>, ids: map<string, nat>, b: string)
    requires forall c :: c in ids ==> 1 <= ids[c] <= |bs| && bs[ids[c] - 1] == c
    ensures var bs', ids' := bs + [b], ids[b := |bs| + 1];
      forall c :: c in ids' ==> 1 <= ids'[c] <= |bs'| && bs'[ids'[c] - 1] == c
  {
    var bs', ids' := bs + [b], ids[b := |bs| + 1];
    forall c | c in ids' ensures 1 <= ids'[c] <= |bs'| && bs'[ids'[c] - 1] == c {
      if c != b {
        assert bs'[ids[c] - 1] == bs[ids[c] - 1];
      }
    }
  }

  /** A new biotype keeps every row cached under its own text. */
  lemma InternRows(bs: seq<string>, ids: map<string, nat>, b: string)
    requires forall k :: 0 <= k < |bs| ==> bs[k] in ids && ids[bs[k]] == k + 1
    requires b !in ids
    ensures var bs', ids' := bs + [b], ids[b := |bs| + 1];
      forall k :: 0 <= k < |bs'| ==> bs'[k] in ids' && ids'[bs'[k]] == k + 1
  {
    var bs', ids' := bs + [b], ids[b := |bs| + 1];
    forall k | 0 <= k < |bs'| ensures bs'[k] in ids' && ids'[bs'[k]] == k + 1 {
      if k < |bs| {
        assert bs'[k] == bs[k];
      }
    }
  }

  /**
   * Within one store a biotype string has exactly one id: two features have
   * the same biotype id if and only if their biotype texts are equal.
   */
  lemma SameBiotypeSameId(s: Store, i: nat, j: nat)
    requires StoreValid(s)
    requires i < |s.features| && j < |s.features|
    ensures s.features[i].biotypeId == s.features[j].biotypeId
      <==> View(s)[i].biotype == View(s)[j].biotype
  {
    var bi, bj := s.features[i].biotypeId, s.features[j].biotypeId;
    assert RowValid(|s.biotypes|, s.features[i]) && RowValid(|s.biotypes|, s.features[j]);
    if s.biotypes[bi - 1] == s.biotypes[bj - 1] {
      assert s.biotypeIds[s.biotypes[bi - 1]] == bi;
      assert s.biotypeIds[s.biotypes[bj - 1]] == bj;
    }
  }

  /** `Insert` is filling, then interning, then appending the row. */
  lemma InsertSteps(s: Store, v: RecordValue, w: RecordValue, s1: Store, bid: nat)
    requires Filled(v) == Some(w) && (s1, bid) == Intern(s, w.biotype)
    ensures Insert(s, v) == Some((s1.(features := s1.features + [RowOf(w, bid)]), |s1.features| + 1))
  {
  }

  /** A filled record's row keeps the coordinate invariant. */
  lemma FilledRowValid(v: RecordValue, w: RecordValue, bid: nat, n: nat)
    requires Filled(v) == Some(w) && 1 <= bid <= n
    ensures RowValid(n, RowOf(w, bid))
  {
  }

  lemma AppendRowValid(s: Store, f: Feature)
    requires StoreValid(s) && RowValid(|s.biotypes|, f)
    ensures StoreValid(s.(features := s.features + [f]))
  {
    var s' := s.(features := s.features + [f]);
    forall k | 0 <= k < |s'.features| ensures RowValid(|s'.biotypes|, s'.features[k]) {
      if k < |s.features| {
        assert s'.features[k] == s.features[k];
      }
    }
  }

  /**
   * `add_feature` on the tables: `None` when the coordinates cannot be
   * filled; otherwise the new tables and the id of the new row.
   */
  function Insert(s: Store, v: RecordValue): Option<(Store, nat)> {
    match Filled(v)
    case None => None
    case Some(w) =>
      var (s1, bid) := Intern(s, w.biotype);
      Some((s1.(features := s1.features + [RowOf(w, bid)]), |s1.features| + 1))
  }

  /** Row `k` of `s` reads back through the `gff` view as the filled record `w`. */
  ghost predicate StoredAs(s: Store, k: nat, w: RecordValue) {
    k < |s.features| && 1 <= s.features[k].biotypeId <= |s.biotypes|
    && ViewRow(s.biotypes, s.features[k], k + 1) == StoredView(w, k + 1)
  }

  /** `s'` extends `s`: earlier biotype rows, feature rows and cache entries are kept. */
  ghost predicate Grows(s: Store, s': Store) {
    |s.biotypes| <= |s'.biotypes| && s'.biotypes[..|s.biotypes|] == s.biotypes
    && |s.features| <= |s'.features| && s'.features[..|s.features|] == s.features
    && (forall c :: c in s.biotypeIds ==> c in s'.biotypeIds && s'.biotypeIds[c] == s.biotypeIds[c])
  }

  lemma GrowsTrans(s: Store, s1: Store, s2: Store)
    requires Grows(s, s1) && Grows(s1, s2)
    ensures Grows(s, s2)
  {
    assert s2.biotypes[..|s.biotypes|] == s2.biotypes[..|s1.biotypes|][..|s.biotypes|];
    assert s2.features[..|s.features|] == s2.features[..|s1.features|][..|s.features|];
  }

  lemma GrowsKeepsStored(s: Store, s': Store, k: nat, w: RecordValue)
    requires StoredAs(s, k, w) && Grows(s, s')
    ensures StoredAs(s', k, w)
  {
    assert s'.features[k] == s'.features[..|s.features|][k];
    var b := s.features[k].biotypeId - 1;
    assert s'.biotypes[b] == s'.biotypes[..|s.biotypes|][b];
  }

  /**
   * A stored record gets the next id, the one new row reads back through the
   * view as the filled record, and everything stored before is kept.
   */
  lemma InsertSpec(s: Store, v: RecordValue)
    requires StoreValid(s)
    ensures Insert(s, v).None? <==> Filled(v).None?
    ensures Insert(s, v).Some? ==> var (s', id) := Insert(s, v).value;
      id == |s.features| + 1 && |s'.features| == id
      && StoredAs(s', id - 1, Filled(v).value)
      && Grows(s, s') && s'.edges == s.edges
  {
    if Filled(v).Some? {
      InternSpec(s, Filled(v).value.biotype);
    }
  }

  /** Storing a record keeps the store valid. */
  lemma InsertValid(s: Store, v: RecordValue)
    requires StoreValid(s)
    ensures Insert(s, v).Some? ==> StoreValid(Insert(s, v).value.0)
  {
    if Filled(v).Some? {
      var w := Filled(v).value;
      InternSpec(s, w.biotype);
      InternValid(s, w.biotype);
      var (s1, bid) := Intern(s, w.biotype);
      FilledRowValid(v, w, bid, |s1.biotypes|);
      AppendRowValid(s1, RowOf(w, bid));
    }
  }

  /**
   * A record already filled is stored exactly as the record it was filled
   * from: storing the same record object twice writes identical rows.
   */
  lemma InsertFilled(s: Store, v: RecordValue, w: RecordValue)
    requires StoreValid(s)
    requires Filled(v) == Some(w)
    ensures Insert(s, w) == Insert(s, v)
  {
    FilledSpec(v);
  }

  /**
   * The first loop of `add_records`: each record stored in turn; the flag is
   * false when a record could not be stored, and the tables then hold the
   * records before it.
   */
  function InsertAll(s: Store, vs: seq<RecordValue>): (Store, bool)
    decreases |vs|
  {
    if vs == [] then (s, true)
    else match Insert(s, vs[0])
      case None => (s, false)
      case Some(p) => InsertAll(p.0, vs[1..])
  }

  lemma {:induction false} InsertAllValid(s: Store, vs: seq<RecordValue>)
    requires StoreValid(s)
    ensures StoreValid(InsertAll(s, vs).0)
    decreases |vs|
  {
    if vs != [] {
      InsertValid(s, vs[0]);
      if Insert(s, vs[0]).Some? {
        InsertAllValid(Insert(s, vs[0]).value.0, vs[1..]);
      }
    }
  }

  /** The edge table takes no part in `StoreValid`. */
  lemma EdgesFree(s: Store, edges: set<(nat, nat)>)
    requires StoreValid(s)
    ensures StoreValid(s.(edges := edges))
  {
  }

  /** Record `k` of `vs` is stored as row `base + k`. */
  ghost predicate StoredFrom(s: Store, base: nat, vs: seq<RecordValue>) {
    forall k :: 0 <= k < |vs| ==> Filled(vs[k]).Some? && StoredAs(s, base + k, Filled(vs[k]).value)
  }

  /**
   * Storing fails exactly when some record cannot be filled; on success
   * record `k` reads back as its filled self under the fresh id
   * `|features| + k + 1`. Earlier rows, the edges and the cache entries are
   * kept either way.
   */
  lemma {:induction false} InsertAllSpec(s: Store, vs: seq<RecordValue>)
    requires StoreValid(s)
    ensures var (s', ok) := InsertAll(s, vs);
      (ok <==> forall k :: 0 <= k < |vs| ==> Filled(vs[k]).Some?)
      && Grows(s, s') && s'.edges == s.edges
      && (ok ==> |s'.features| == |s.features| + |vs| && StoredFrom(s', |s.features|, vs))
    decreases |vs|
  {
    if vs != [] {
      InsertSpec(s, vs[0]);
      InsertValid(s, vs[0]);
      match Insert(s, vs[0])
      case None =>
      case Some(p) =>
        var s1 := p.0;
        assert |s1.features| == |s.features| + 1 && Grows(s, s1) && s1.edges == s.edges;
        InsertAllSpec(s1, vs[1..]);
        var (s2, ok) := InsertAll(s1, vs[1..]);
        assert InsertAll(s, vs) == (s2, ok);
        GrowsTrans(s, s1, s2);
        GrowsKeepsStored(s1, s2, |s.features|, Filled(vs[0]).value);
        InsertAllStep(vs, |s.features|, s2, ok);
    }
  }

  /** One step of `InsertAllSpec`: the head's row and the tail's rows sit side by side. */
  lemma InsertAllStep(vs: seq<RecordValue>, base: nat, s2: Store, ok: bool)
    requires vs != []
    requires Filled(vs[0]).Some? && StoredAs(s2, base, Filled(vs[0]).value)
    requires ok <==> forall k :: 0 <= k < |vs| - 1 ==> Filled(vs[1..][k]).Some?
    requires ok ==> StoredFrom(s2, base + 1, vs[1..])
    ensures ok <==> forall k :: 0 <= k < |vs| ==> Filled(vs[k]).Some?
    ensures ok ==> StoredFrom(s2, base, vs)
  {
    forall k | 1 <= k < |vs| ensures vs[1..][k - 1] == vs[k] { }
  }

  /** What the relation loop of `add_records` reads: a gene's id and its children's ids. */
  datatype Linkage = Linkage(geneId: Option<nat>, childIds: set<Option<nat>>)

  /** The edges after the relation loop, and the error it stopped with, if any. */
  datatype Linked = Linked(edges: set<(nat, nat)>, error: Option<string>)

  /** The rows `executemany` inserts for one gene: one per child id. */
  function EdgesFor(geneId: nat, childIds: set<Option<nat>>): set<(nat, nat)> {
    set o | o in childIds && o.Some? :: (geneId, o.value)
  }

  /**
   * The relation loop of `add_records`: each gene in turn, stopping at the
   * first gene or child without an id; the edges inserted before the error
   * stay.
   */
  function Link(edges: set<(nat, nat)>, ls: seq<Linkage>): (r: Linked)
    decreases |ls|
  {
    if ls == [] then Linked(edges, None)
    else if ls[0].geneId.None? then Linked(edges, Some(GeneIdMissing))
    else if None in ls[0].childIds then Linked(edges, Some(ChildIdMissing))
    else Link(edges + EdgesFor(ls[0].geneId.value, ls[0].childIds), ls[1..])
  }

  /** Every gene and child of the relations has an id. */
  ghost predicate AllLinked(ls: seq<Linkage>) {
    forall i :: 0 <= i < |ls| ==> ls[i].geneId.Some? && None !in ls[i].childIds
  }

  /** The edges of a fully linked relation list: one per (gene, child) pair. */
  ghost function AllEdges(ls: seq<Linkage>): set<(nat, nat)>
    requires AllLinked(ls)
  {
    set i, o | 0 <= i < |ls| && o in ls[i].childIds && o.Some? :: (ls[i].geneId.value, o.value)
  }

  /**
   * The loop raises exactly when some gene or child has no id; otherwise it
   * adds exactly one edge per (gene, child) pair. Edges are only ever added.
   */
  lemma {:induction false} LinkSpec(edges: set<(nat, nat)>, ls: seq<Linkage>)
    ensures Link(edges, ls).error.None? <==> AllLinked(ls)
    ensures AllLinked(ls) ==> Link(edges, ls).edges == edges + AllEdges(ls)
    ensures edges <= Link(edges, ls).edges
    decreases |ls|
  {
    if ls != [] && ls[0].geneId.Some? && None !in ls[0].childIds {
      var g := ls[0].geneId.value;
      LinkSpec(edges + EdgesFor(g, ls[0].childIds), ls[1..]);
      assert AllLinked(ls) <==> AllLinked(ls[1..]) by {
        if AllLinked(ls[1..]) {
          forall i | 1 <= i < |ls| ensures ls[i].geneId.Some? && None !in ls[i].childIds {
            assert ls[i] == ls[1..][i - 1];
          }
        }
      }
      if AllLinked(ls) {
        AllEdgesCons(ls);
      }
    }
  }

  lemma AllEdgesCons(ls: seq<Linkage>)
    requires ls != [] && AllLinked(ls) && AllLinked(ls[1..])
    ensures AllEdges(ls) == EdgesFor(ls[0].geneId.value, ls[0].childIds) + AllEdges(ls[1..])
  {
    var head := EdgesFor(ls[0].geneId.value, ls[0].childIds);
    forall e | e in AllEdges(ls) ensures e in head + AllEdges(ls[1..]) {
      var i, o :| 0 <= i < |ls| && o in ls[i].childIds && o.Some? && e == (ls[i].geneId.value, o.value);
      if i > 0 {
        assert ls[1..][i - 1] == ls[i];
      }
    }
    forall e | e in AllEdges(ls[1..]) ensures e in AllEdges(ls) {
      var i, o :| 0 <= i < |ls[1..]| && o in ls[1..][i].childIds && o.Some? && e == (ls[1..][i].geneId.value, o.value);
      assert ls[1..][i] == ls[i + 1];
    }
  }

  /** A record that is either untouched or already filled is stored the same way. */
  lemma InsertFilledOrSame(s: Store, v: RecordValue, cur: RecordValue)
    requires StoreValid(s)
    requires cur == v || Filled(v) == Some(cur)
    ensures Insert(s, cur) == Insert(s, v)
  {
    if cur != v {
      InsertFilled(s, v, cur);
    }
  }
}
