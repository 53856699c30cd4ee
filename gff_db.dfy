/**
 * The feature-graph store `EnsemblGffDb` of `src/ensembl_lite/_genomedb.py`
 * as a class over the tables of `GffStore`: each method is proved against
 * the function on those tables that says what it does.
 */
module GffDb {
  import opened Outcomes
  import opened GffText
  import opened GffRecord
  import opened GeneRelations
  import opened GffStore
  import opened GffQueries
  import Dicts

  /** The records a relation list mentions. */
  ghost function Members(rels: seq<Relation>): set<EnsemblGffRecord> {
    (set i | 0 <= i < |rels| :: rels[i].gene)
    + (set i, c | 0 <= i < |rels| && c in rels[i].children :: c)
  }

  function LinkageOf(rel: Relation): Linkage
    reads {rel.gene} + rel.children
  {
    Linkage(rel.gene.featureId, set c | c in rel.children :: c.featureId)
  }

  ghost function Linkages(rels: seq<Relation>): (ls: seq<Linkage>)
    reads Members(rels)
    ensures |ls| == |rels|
    ensures forall i :: 0 <= i < |rels| ==> ls[i] == LinkageOf(rels[i])
  {
    seq(|rels|, i requires 0 <= i < |rels| reads Members(rels) => LinkageOf(rels[i]))
  }

  ghost function RecordSet(records: seq<EnsemblGffRecord>): set<EnsemblGffRecord> {
    set k | 0 <= k < |records| :: records[k]
  }

  ghost function ValuesOf(records: seq<EnsemblGffRecord>): (vs: seq<RecordValue>)
    reads RecordSet(records)
    ensures |vs| == |records|
    ensures forall k :: 0 <= k < |records| ==> vs[k] == records[k].Value()
  {
    seq(|records|, k requires 0 <= k < |records| reads RecordSet(records) => records[k].Value())
  }

  /** Each record either still holds its value in `vals` or holds it with coordinates filled. */
  ghost predicate FilledOrSame(records: seq<EnsemblGffRecord>, vals: seq<RecordValue>)
    reads RecordSet(records)
  {
    ValuesFilledOrSame(ValuesOf(records), vals)
  }

  ghost predicate ValuesFilledOrSame(now: seq<RecordValue>, vals: seq<RecordValue>) {
    |vals| == |now|
    && forall k :: 0 <= k < |now| ==> now[k] == vals[k] || Filled(vals[k]) == Some(now[k])
  }

  /** A record listed twice has one value in `vals`. */
  ghost predicate AliasesAgree(records: seq<EnsemblGffRecord>, vals: seq<RecordValue>) {
    |vals| == |records|
    && forall j, k :: 0 <= j < |records| && 0 <= k < |records| && records[j] == records[k] ==>
         vals[j] == vals[k]
  }

  /** The first `i` records hold their values in `vals` with coordinates filled. */
  ghost predicate FilledBefore(records: seq<EnsemblGffRecord>, vals: seq<RecordValue>, i: nat)
    reads RecordSet(records)
  {
    ValuesFilledBefore(ValuesOf(records), vals, i)
  }

  ghost predicate ValuesFilledBefore(now: seq<RecordValue>, vals: seq<RecordValue>, i: nat) {
    |vals| == |now| && i <= |now|
    && forall k :: 0 <= k < i ==> Filled(vals[k]) == Some(now[k])
  }

  /**
   * Each of the first `i` records carries a row id in `(base, base + i]`,
   * and that id is the row of the record at its position.
   */
  ghost predicate IdsAssigned(records: seq<EnsemblGffRecord>, base: nat, i: nat)
    reads RecordSet(records)
  {
    IdsPlaced(records, IdsOf(records), base, i)
  }

  /** `IdsAssigned` for the ids `ids` the records carry. */
  ghost predicate IdsPlaced(records: seq<EnsemblGffRecord>, ids: seq<Option<nat>>, base: nat, i: nat) {
    |ids| == |records| && i <= |records|
    && forall k :: 0 <= k < i ==>
         ids[k].Some? && base < ids[k].value <= base + i
         && records[ids[k].value - base - 1] == records[k]
  }

  /** After `add_feature` on the record at `i` (and its aliases), the first `i + 1` records are filled. */
  lemma ValuesAfter(prev: seq<RecordValue>, now: seq<RecordValue>, vals: seq<RecordValue>, same: seq<bool>, i: nat)
    requires |prev| == |now| == |vals| == |same| && i < |vals|
    requires ValuesFilledOrSame(prev, vals) && ValuesFilledBefore(prev, vals, i)
    requires forall k :: 0 <= k < |same| ==>
      if same[k] then vals[k] == vals[i] && now[k] == now[i] else now[k] == prev[k]
    requires Filled(vals[i]) == Some(now[i])
    ensures ValuesFilledOrSame(now, vals) && ValuesFilledBefore(now, vals, i + 1)
  {
  }

  /** After `add_feature` gives the record at `i` (and its aliases) the id `base + i + 1`, the first `i + 1` are placed. */
  lemma IdsAfter(records: seq<EnsemblGffRecord>, prevIds: seq<Option<nat>>, nowIds: seq<Option<nat>>, base: nat, i: nat)
    requires |prevIds| == |nowIds| == |records| && i < |records|
    requires IdsPlaced(records, prevIds, base, i) && nowIds[i] == Some(base + i + 1)
    requires forall k :: 0 <= k < |records| ==>
      if records[k] == records[i] then nowIds[k] == nowIds[i] else nowIds[k] == prevIds[k]
    ensures IdsPlaced(records, nowIds, base, i + 1)
  {
  }

  /** The `featureId` each record currently carries. */
  ghost function IdsOf(records: seq<EnsemblGffRecord>): (ids: seq<Option<nat>>)
    reads RecordSet(records)
    ensures |ids| == |records|
    ensures forall k :: 0 <= k < |records| ==> ids[k] == records[k].featureId
  {
    seq(|records|, k requires 0 <= k < |records| reads RecordSet(records) => records[k].featureId)
  }

  /** One entry of `related`: the gene record at place `entry.0` and the records at the places of its children. */
  function RelationOf(recs: seq<EnsemblGffRecord>, entry: (nat, map<string, nat>)): Relation
    requires entry.0 < |recs| && forall c :: c in entry.1 ==> entry.1[c] < |recs|
  {
    Relation(recs[entry.0], set c | c in entry.1 :: recs[entry.1[c]])
  }

  /** `related` as the `gene_relations` dict `add_records` iterates, in key order. */
  function RelatedList(recs: seq<EnsemblGffRecord>, d: Related): (rels: seq<Relation>)
    requires Dicts.Valid(d) && PlacesBelow(d, |recs|)
    ensures |rels| == |d.keys|
    ensures forall i :: 0 <= i < |d.keys| ==> rels[i] == RelationOf(recs, d.items[d.keys[i]])
  {
    seq(|d.keys|, i requires 0 <= i < |d.keys| => RelationOf(recs, d.items[d.keys[i]]))
  }

  /**
   * Once the record at place `p` carries id `p + 1`, no gene or child of
   * `related` lacks an id, and the edges the relation loop inserts are one
   * per (gene entry, child entry), between the ids of their places.
   */
  lemma RelationsLinked(recs: seq<EnsemblGffRecord>, d: Related)
    requires Dicts.Valid(d) && PlacesBelow(d, |recs|)
    requires forall p :: 0 <= p < |recs| ==> recs[p].featureId == Some(p + 1)
    ensures AllLinked(Linkages(RelatedList(recs, d)))
    ensures AllEdges(Linkages(RelatedList(recs, d))) == NewEdges(d)
  {
    var ls := Linkages(RelatedList(recs, d));
    forall i | 0 <= i < |ls| ensures ls[i] == PlaceLinkages(d)[i] {
      LinkageAt(recs, d, i);
    }
    assert ls == PlaceLinkages(d);
    PlaceLinkagesEdges(d);
  }

  /** The child ids of one entry of `related` once every record carries the id of its place. */
  ghost function ChildIds(children: map<string, nat>): set<Option<nat>> {
    set c | c in children :: Some(children[c] + 1)
  }

  /** What the relation loop reads for `related` once every record carries the id of its place. */
  ghost function PlaceLinkages(d: Related): (ls: seq<Linkage>)
    requires Dicts.Valid(d)
    ensures |ls| == |d.keys|
    ensures forall i :: 0 <= i < |d.keys| ==>
      ls[i] == Linkage(Some(d.items[d.keys[i]].0 + 1), ChildIds(d.items[d.keys[i]].1))
  {
    seq(|d.keys|, i requires 0 <= i < |d.keys| =>
      Linkage(Some(d.items[d.keys[i]].0 + 1), ChildIds(d.items[d.keys[i]].1)))
  }

  lemma PlaceLinkagesEdges(d: Related)
    requires Dicts.Valid(d)
    ensures AllLinked(PlaceLinkages(d)) && AllEdges(PlaceLinkages(d)) == NewEdges(d)
  {
    var ls := PlaceLinkages(d);
    assert AllLinked(ls);
    forall x | x in AllEdges(ls) ensures x in NewEdges(d) {
      PlaceEdgeNew(d, x);
    }
    forall x | x in NewEdges(d) ensures x in AllEdges(ls) {
      NewEdgePlace(d, x);
    }
  }

  lemma PlaceEdgeNew(d: Related, x: (nat, nat))
    requires Dicts.Valid(d) && AllLinked(PlaceLinkages(d)) && x in AllEdges(PlaceLinkages(d))
    ensures x in NewEdges(d)
  {
    var ls := PlaceLinkages(d);
    var i, o :| 0 <= i < |ls| && o in ls[i].childIds && o.Some? && x == (ls[i].geneId.value, o.value);
    assert d.keys[i] in d.items;
    var g := d.keys[i];
    var c :| c in d.items[g].1 && o == Some(d.items[g].1[c] + 1);
    assert x == (d.items[g].0 + 1, d.items[g].1[c] + 1);
  }

  lemma NewEdgePlace(d: Related, x: (nat, nat))
    requires Dicts.Valid(d) && AllLinked(PlaceLinkages(d)) && x in NewEdges(d)
    ensures x in AllEdges(PlaceLinkages(d))
  {
    var ls := PlaceLinkages(d);
    var g, c :| g in d.items && c in d.items[g].1 && x == (d.items[g].0 + 1, d.items[g].1[c] + 1);
    var i :| 0 <= i < |d.keys| && d.keys[i] == g;
    var o := Some(d.items[g].1[c] + 1);
    assert o in ls[i].childIds;
    assert x == (ls[i].geneId.value, o.value);
  }

  lemma LinkageAt(recs: seq<EnsemblGffRecord>, d: Related, i: nat)
    requires Dicts.Valid(d) && PlacesBelow(d, |recs|) && i < |d.keys|
    requires forall p :: 0 <= p < |recs| ==> recs[p].featureId == Some(p + 1)
    ensures Linkages(RelatedList(recs, d))[i]
      == Linkage(Some(d.items[d.keys[i]].0 + 1), ChildIds(d.items[d.keys[i]].1))
  {
    assert d.keys[i] in d.items;
    var entry := d.items[d.keys[i]];
    var rel := RelationOf(recs, entry);
    assert (set r | r in rel.children :: r.featureId) == ChildIds(entry.1) by {
      forall o | o in ChildIds(entry.1) ensures o in (set r | r in rel.children :: r.featureId) {
        var c :| c in entry.1 && o == Some(entry.1[c] + 1);
        assert recs[entry.1[c]] in rel.children;
      }
    }
  }

  class EnsemblGffDb {
    var biotypes: seq<string>
    var biotypeIds: map<string, nat>
    var features: seq<Feature>
    var edges: set<(nat, nat)>

    function Tables(): Store
      reads this
    {
      Store(biotypes, biotypeIds, features, edges)
    }

    ghost predicate Valid()
      reads this
    {
      StoreValid(Tables())
    }

    /** A new store has empty tables and an empty biotype cache. */
    constructor ()
      ensures Tables() == EmptyStore
      ensures Valid()
    {
      biotypes, biotypeIds, features, edges := [], map[], [], {};
    }

    /** `__len__` and `num_records`: the number of feature rows. */
    function NumRecords(): nat
      reads this
    {
      |features|
    }

    /** `_get_biotype_id`. */
    method GetBiotypeId(b: string) returns (id: nat)
      requires Valid()
      modifies this`biotypes, this`biotypeIds
      ensures (Tables(), id) == Intern(old(Tables()), b)
    {
      if b in biotypeIds {
        id := biotypeIds[b];
      } else {
        id := |biotypes| + 1;
        biotypes := biotypes + [b];
        biotypeIds := biotypeIds[b := id];
      }
    }

    /**
     * `add_feature` for a given record: fills its zero coordinates, stores
     * its row under the next id and writes that id back into the record.
     */
    method AddFeature(feature: EnsemblGffRecord) returns (r: Result<nat, string>)
      requires Valid()
      modifies this`biotypes, this`biotypeIds, this`features
      modifies feature`start, feature`stop, feature`featureId
      ensures Valid()
      ensures r.Failure? <==> Filled(old(feature.Value())).None?
      ensures r.Failure? ==>
        Tables() == old(Tables()) && feature.Value() == old(feature.Value())
        && feature.featureId == old(feature.featureId)
      ensures r.Success? ==>
        r.value == |features| == old(|features|) + 1
        && Insert(old(Tables()), old(feature.Value())) == Some((Tables(), r.value))
        && Filled(old(feature.Value())) == Some(feature.Value()) && feature.featureId == Some(r.value)
    {
      ghost var v0 := feature.Value();
      var filled := FillCoordinates(feature);
      if !filled {
        return Failure(EmptySpans);
      }
      FilledSpec(v0);
      var id := StoreFilled(feature);
      r := Success(id);
    }

    /**
     * The rest of `add_feature` once the coordinates are filled: the row
     * goes in under the next id, which is written back into the record.
     */
    method StoreFilled(feature: EnsemblGffRecord) returns (id: nat)
      requires Valid() && Filled(feature.Value()) == Some(feature.Value())
      modifies this`biotypes, this`biotypeIds, this`features, feature`featureId
      ensures Valid()
      ensures id == |features| == old(|features|) + 1
      ensures Insert(old(Tables()), old(feature.Value())) == Some((Tables(), id))
      ensures feature.Value() == old(feature.Value()) && feature.featureId == Some(id)
      ensures forall v :: Filled(v) == Some(old(feature.Value())) ==> Insert(old(Tables()), v) == Some((Tables(), id))
    {
      ghost var s0, w := Tables(), feature.Value();
      var bid := GetBiotypeId(feature.biotype);
      ghost var s1 := Tables();
      id := |features| + 1;
      features := features + [RowOf(feature.Value(), bid)];
      feature.featureId := Some(id);
      assert feature.Value() == w;
      forall v | Filled(v) == Some(w) ensures Insert(s0, v) == Some((Tables(), id)) {
        InsertSteps(s0, v, w, s1, bid);
      }
      InsertValid(s0, w);
    }

    /**
     * `feature.start or int(spans.min())` and `feature.stop or
     * int(spans.max())`; false where numpy raises on empty spans, and the
     * record is then left as it was.
     */
    static method FillCoordinates(feature: EnsemblGffRecord) returns (ok: bool)
      modifies feature`start, feature`stop
      ensures ok <==> Filled(old(feature.Value())).Some?
      ensures ok ==> Filled(old(feature.Value())) == Some(feature.Value())
      ensures !ok ==> feature.Value() == old(feature.Value())
    {
      if feature.start == 0 {
        if feature.spans == [] {
          return false;
        }
        feature.start := MinCoord(feature.spans);
      }
      if feature.stop == 0 {
        if feature.spans == [] {
          return false;
        }
        feature.stop := MaxCoord(feature.spans);
      }
      return true;
    }

    /**
     * The first loop of `add_records`. Each record's id names a row stored
     * for that very record object, so distinct records get distinct, fresh
     * ids.
     */
    method AddAll(records: seq<EnsemblGffRecord>) returns (ok: bool)
      requires Valid()
      modifies this`biotypes, this`biotypeIds, this`features
      modifies RecordSet(records)`start, RecordSet(records)`stop, RecordSet(records)`featureId
      ensures Valid()
      ensures (Tables(), ok) == InsertAll(old(Tables()), old(ValuesOf(records)))
      ensures ok ==> forall k :: 0 <= k < |records| ==>
        Filled(old(records[k].Value())) == Some(records[k].Value())
      ensures ok ==> forall k :: 0 <= k < |records| ==>
        records[k].featureId.Some?
        && old(|features|) < records[k].featureId.value <= old(|features|) + |records|
        && records[records[k].featureId.value - old(|features|) - 1] == records[k]
    {
      ghost var vals := ValuesOf(records);
      ghost var base := |features|;
      var i := 0;
      while i < |records|
        invariant 0 <= i <= |records|
        invariant Valid() && edges == old(edges)
        invariant vals == old(ValuesOf(records))
        invariant InsertAll(Tables(), vals[i..]) == InsertAll(old(Tables()), vals)
        invariant |features| == base + i
        invariant AliasesAgree(records, vals)
        invariant FilledOrSame(records, vals) && FilledBefore(records, vals, i)
        invariant IdsAssigned(records, base, i)
      {
        ok := AddNext(records, vals, base, i);
        if !ok {
          return;
        }
        i := i + 1;
      }
      assert vals[i..] == [];
      return true;
    }

    /**
     * One pass of the `add_records` feature loop: `add_feature` on the
     * `i`-th record, keeping what the loop has established for the
     * records before it.
     */
    method AddNext(records: seq<EnsemblGffRecord>, ghost vals: seq<RecordValue>, ghost base: nat, i: nat)
      returns (ok: bool)
      requires Valid() && i < |records| && |features| == base + i
      requires AliasesAgree(records, vals)
      requires FilledOrSame(records, vals) && FilledBefore(records, vals, i)
      requires IdsAssigned(records, base, i)
      modifies this`biotypes, this`biotypeIds, this`features
      modifies RecordSet(records)`start, RecordSet(records)`stop, RecordSet(records)`featureId
      ensures Valid() && edges == old(edges)
      ensures !ok ==> (Tables(), false) == InsertAll(old(Tables()), vals[i..])
      ensures ok ==> InsertAll(Tables(), vals[i + 1..]) == InsertAll(old(Tables()), vals[i..])
      ensures ok ==> |features| == base + i + 1
      ensures ok ==> FilledOrSame(records, vals) && FilledBefore(records, vals, i + 1)
      ensures ok ==> IdsAssigned(records, base, i + 1)
    {
      ghost var before := Tables();
      ghost var prev, prevIds := ValuesOf(records), IdsOf(records);
      InsertFilledOrSame(before, vals[i], prev[i]);
      FilledSpec(vals[i]);
      assert vals[i..] == [vals[i]] + vals[i + 1..];
      var r := AddFeature(records[i]);
      if r.Failure? {
        return false;
      }
      assert InsertAll(Tables(), vals[i + 1..]) == InsertAll(before, vals[i..]);
      ghost var now, nowIds := ValuesOf(records), IdsOf(records);
      ghost var same := seq(|records|, k requires 0 <= k < |records| => records[k] == records[i]);
      assert now[i] == Filled(vals[i]).value;
      forall k | 0 <= k < |records|
        ensures if same[k] then vals[k] == vals[i] && now[k] == now[i] else now[k] == prev[k]
        ensures if records[k] == records[i] then nowIds[k] == nowIds[i] else nowIds[k] == prevIds[k]
      {
      }
      ValuesAfter(prev, now, vals, same, i);
      IdsAfter(records, prevIds, nowIds, base, i);
      ok := true;
    }

    /** The second loop of `add_records`. */
    method LinkRelations(rels: seq<Relation>) returns (r: Result<(), string>)
      modifies this`edges
      ensures var l := Link(old(edges), Linkages(rels));
        edges == l.edges && (r.Failure? <==> l.error.Some?)
    {
      ghost var ls := Linkages(rels);
      var i := 0;
      while i < |rels|
        invariant 0 <= i <= |rels|
        invariant Link(edges, ls[i..]) == Link(old(edges), ls)
        invariant ls == Linkages(rels)
      {
        var rel := rels[i];
        assert ls[i..][0] == LinkageOf(rel) && ls[i..][1..] == ls[i + 1..];
        if rel.gene.featureId.None? {
          return Failure(GeneIdMissing);
        }
        var childIds := set c | c in rel.children :: c.featureId;
        if None in childIds {
          return Failure(ChildIdMissing);
        }
        edges := edges + EdgesFor(rel.gene.featureId.value, childIds);
        i := i + 1;
      }
      assert ls[i..] == [];
      return Success(());
    }

    /**
     * `add_records`: stores every record, then one edge per (gene, child)
     * pair, raising `ValueError` at the first gene or child left without an
     * id.
     */
    method AddRecords(records: seq<EnsemblGffRecord>, rels: seq<Relation>) returns (r: Result<(), string>)
      requires Valid()
      modifies this
      modifies RecordSet(records)`start, RecordSet(records)`stop, RecordSet(records)`featureId
      ensures Valid()
      ensures var (s1, ok) := InsertAll(old(Tables()), old(ValuesOf(records)));
        biotypes == s1.biotypes && biotypeIds == s1.biotypeIds && features == s1.features
        && (!ok ==> r.Failure? && edges == old(edges))
        && (ok ==> var l := Link(old(edges), Linkages(rels));
              edges == l.edges && (r.Failure? <==> l.error.Some?))
      ensures InsertAll(old(Tables()), old(ValuesOf(records))).1 ==>
        forall k :: 0 <= k < |records| ==>
          Filled(old(records[k].Value())) == Some(records[k].Value())
          && records[k].featureId.Some?
          && old(|features|) < records[k].featureId.value <= old(|features|) + |records|
          && records[records[k].featureId.value - old(|features|) - 1] == records[k]
    {
      var ok := AddAll(records);
      if !ok {
        return Failure(EmptySpans);
      }
      ghost var s1 := Tables();
      r := LinkRelations(rels);
      assert Tables() == s1.(edges := edges);
      EdgesFree(s1, edges);
    }

    /**
     * `subset`: a new store holding, in id order, a rebuilt record per
     * selected row, and an edge per (gene name, child name) of the source
     * edges between two selected rows; an empty store gives an empty one.
     * Rebuilding a canonical row raises a `TypeError`, so `subset` fails
     * iff it selects a canonical row.
     */
    method Subset(keep: GffRow -> bool) returns (r: Result<EnsemblGffDb, string>, ghost pos: map<nat, nat>)
      requires Valid()
      ensures r.Failure? <==> SelectsCanonical(Tables(), keep)
      ensures r.Failure? ==> r.error == AttrsNone
      ensures r.Success? ==> fresh(r.value) && r.value.Valid()
      ensures r.Success? && |features| == 0 ==> r.value.Tables() == EmptyStore
      ensures r.Success? ==> SubsetOf(Tables(), keep, r.value.Tables(), pos)
    {
      var newdb := new EnsemblGffDb();
      if |features| == 0 {
        r, pos := Success(newdb), map[];
        return;
      }
      var s := Tables();
      var made, ids, places, vals := MatchingRecords(s, keep);
      pos := places;
      if made.Failure? {
        r := Failure(made.error);
        return;
      }
      newdb.Rebuild(s, keep, made.value, ids, places, vals);
      r := Success(newdb);
      assert Tables() == s;
    }

    /**
     * The rest of `subset`, on the new store: the second loop over the
     * edges of `s`, then `add_records` of the rebuilt records `recs` of the
     * rows `ids` with the relations gathered.
     */
    method Rebuild(s: Store, ghost keep: GffRow -> bool, recs: seq<EnsemblGffRecord>, ids: seq<nat>, pos: map<nat, nat>, ghost vals: seq<RecordValue>)
      requires Valid() && features == [] && edges == {}
      requires StoreValid(s) && ids == MatchingIds(View(s), keep, |s.features|)
      requires PosValid(ids, pos) && |recs| == |ids| && RecreatedAll(s, ids, vals)
      requires forall k :: 0 <= k < |recs| ==> recs[k].featureId.None? && recs[k].Value() == vals[k]
      requires forall j, k :: 0 <= j < k < |recs| ==> recs[j] != recs[k]
      modifies this
      modifies RecordSet(recs)`start, RecordSet(recs)`stop, RecordSet(recs)`featureId
      ensures Valid() && SubsetOf(s, keep, Tables(), pos)
    {
      var d := RelatedOf(s, ids, pos);
      NamesBelow(s, ids, d);
      ghost var s0 := Tables();
      RebuiltStored(s, ids, vals, s0);
      AddRebuilt(recs, d, vals);
      SubsetTables(s, ids, pos, d, vals, s0, Tables());
      SubsetOfIntro(s, keep, ids, pos, Tables());
    }

    /**
     * The `add_records` call of `subset`, into a new store, of the rebuilt
     * records and the relations of `related`: the records are stored in
     * order and the edges are the ones `related` names.
     */
    method AddRebuilt(recs: seq<EnsemblGffRecord>, d: Related, ghost vals: seq<RecordValue>)
      requires Valid() && features == [] && edges == {}
      requires Dicts.Valid(d) && PlacesBelow(d, |recs|)
      requires |vals| == |recs| && forall k :: 0 <= k < |recs| ==> recs[k].Value() == vals[k]
      requires forall j, k :: 0 <= j < k < |recs| ==> recs[j] != recs[k]
      requires InsertAll(Tables(), vals).1
      modifies this
      modifies RecordSet(recs)`start, RecordSet(recs)`stop, RecordSet(recs)`featureId
      ensures var s1 := InsertAll(old(Tables()), vals).0;
        Valid() && biotypes == s1.biotypes && biotypeIds == s1.biotypeIds && features == s1.features
        && edges == NewEdges(d)
    {
      var rels := RelatedList(recs, d);
      assert ValuesOf(recs) == vals;
      var r := AddRecords(recs, rels);
      IdsByPlace(recs);
      RelationsLinked(recs, d);
      LinkSpec({}, Linkages(rels));
    }

    /**
     * `get_feature_children`: the features related to a gene named `name`
     * whose columns pass `cond`, the further `**kwargs` conditions, one per name.
     */
    method GetFeatureChildren(name: string, cond: GffRow -> bool) returns (out: seq<FeatureData>, ghost via: seq<(nat, nat)>)
      ensures QueryResult(Tables(), name, Children(cond), out, via)
    {
      out, via := QueryRows(Tables(), name, Children(cond));
    }

    /** `get_feature_parent`: the genes a feature named `name` is related to, one per name. */
    method GetFeatureParent(name: string) returns (out: seq<FeatureData>, ghost via: seq<(nat, nat)>)
      ensures QueryResult(Tables(), name, Parents, out, via)
    {
      out, via := QueryRows(Tables(), name, Parents);
    }
  }

  /**
   * The first loop of `subset`, over the rows of the `gff` view that `keep`
   * selects, in id order: a new record per row, built from the row's
   * columns; `feature_ids` is the selected ids with, for each, its place.
   * The loop raises at a canonical row, so it fails iff one is selected.
   */
  method MatchingRecords(s: Store, keep: GffRow -> bool)
    returns (made: Result<seq<EnsemblGffRecord>, string>, ids: seq<nat>, pos: map<nat, nat>, ghost vals: seq<RecordValue>)
    requires StoreValid(s)
    ensures ids == MatchingIds(View(s), keep, |s.features|) && PosValid(ids, pos)
    ensures made.Failure? <==> SelectsCanonical(s, keep)
    ensures made.Failure? ==> made.error == AttrsNone
    ensures made.Success? ==> |made.value| == |ids| && RecreatedAll(s, ids, vals)
    ensures made.Success? ==> forall k :: 0 <= k < |ids| ==>
      fresh(made.value[k]) && made.value[k].featureId.None? && made.value[k].Value() == vals[k]
    ensures made.Success? ==> forall j, k :: 0 <= j < k < |ids| ==> made.value[j] != made.value[k]
  {
    ids, pos := SelectedPlaces(s, keep);
    SelectedIds(s, keep, ids);
    made, vals := RebuiltRecords(s, ids);
    CanonicalSelected(s, keep, ids);
  }

  /** The ids of the selected rows, in id order, and the place of each id. */
  method SelectedPlaces(s: Store, keep: GffRow -> bool) returns (ids: seq<nat>, pos: map<nat, nat>)
    requires StoreValid(s)
    ensures ids == MatchingIds(View(s), keep, |s.features|)
    ensures PosValid(ids, pos)
  {
    ids := MatchingIds(View(s), keep, |s.features|);
    SelectedIds(s, keep, ids);
    pos := Places(ids);
  }

  /** A new record per selected row, in the order of `ids`, or the error a canonical row raises. */
  method RebuiltRecords(s: Store, ids: seq<nat>) returns (made: Result<seq<EnsemblGffRecord>, string>, ghost vals: seq<RecordValue>)
    requires StoreValid(s)
    requires forall k :: 0 <= k < |ids| ==> 1 <= ids[k] <= |s.features|
    ensures made.Failure? <==> CanonicalAmong(s, ids)
    ensures made.Failure? ==> made.error == AttrsNone
    ensures made.Success? ==> |made.value| == |ids| && RecreatedAll(s, ids, vals)
    ensures made.Success? ==> forall k :: 0 <= k < |ids| ==>
      fresh(made.value[k]) && made.value[k].featureId.None? && made.value[k].Value() == vals[k]
    ensures made.Success? ==> forall j, k :: 0 <= j < k < |ids| ==> made.value[j] != made.value[k]
  {
    var rows := SelectedRows(s, ids);
    made := NewRecords(rows);
    vals := RecreatedRows(rows);
    if made.Success? {
      RowsRecreated(s, ids, rows, vals);
    }
  }

  /**
   * `t` is the store `subset` makes of `s` for the filter `keep`: row `k`
   * of `t` is the `k`-th selected row of `s`, renumbered and renamed, and
   * the edges of `t` are the edges of `s` between selected rows, up to
   * names; `pos` gives the place of each selected id.
   */
  ghost predicate SubsetOf(s: Store, keep: GffRow -> bool, t: Store, pos: map<nat, nat>)
  {
    StoreValid(s) && StoreValid(t)
    && var ids := MatchingIds(View(s), keep, |s.features|);
    |t.features| == |ids| && PosValid(ids, pos)
    && (forall k :: 0 <= k < |ids| ==>
          1 <= ids[k] <= |s.features| && RowAt(t, k) == SubsetRow(RowAt(s, ids[k] - 1), k + 1))
    && SubsetEdges(s, ids, pos, t.edges)
  }

  /** The rows of the `gff` view with the ids `ids`, in the order of `ids`. */
  function SelectedRows(s: Store, ids: seq<nat>): (rows: seq<GffRow>)
    requires StoreValid(s) && forall k :: 0 <= k < |ids| ==> 1 <= ids[k] <= |s.features|
    ensures |rows| == |ids| && forall k :: 0 <= k < |ids| ==> rows[k] == RowAt(s, ids[k] - 1)
  {
    seq(|ids|, k requires 0 <= k < |ids| => RowAt(s, ids[k] - 1))
  }

  /** The value of the record rebuilt from each row. */
  ghost function RecreatedRows(rows: seq<GffRow>): (vals: seq<RecordValue>)
    ensures |vals| == |rows| && forall k :: 0 <= k < |rows| ==> vals[k] == Recreated(rows[k])
  {
    seq(|rows|, k requires 0 <= k < |rows| => Recreated(rows[k]))
  }

  lemma RowsRecreated(s: Store, ids: seq<nat>, rows: seq<GffRow>, vals: seq<RecordValue>)
    requires StoreValid(s) && |rows| == |ids| == |vals|
    requires forall k :: 0 <= k < |ids| ==> 1 <= ids[k] <= |s.features| && rows[k] == RowAt(s, ids[k] - 1)
    requires forall k :: 0 <= k < |ids| ==> Rebuildable(rows[k]) && vals[k] == Recreated(rows[k])
    ensures RecreatedAll(s, ids, vals)
  {
  }

  /**
   * `EnsemblGffRecord(**r)` for each row `r` the query returns, in order:
   * distinct new records, or the error of the first canonical row.
   */
  method NewRecords(rows: seq<GffRow>) returns (made: Result<seq<EnsemblGffRecord>, string>)
    ensures made.Failure? <==> exists k :: 0 <= k < |rows| && !Rebuildable(rows[k])
    ensures made.Failure? ==> made.error == AttrsNone
    ensures made.Success? ==> |made.value| == |rows|
    ensures made.Success? ==> forall k :: 0 <= k < |rows| ==>
      fresh(made.value[k]) && made.value[k].featureId.None? && made.value[k].Value() == Recreated(rows[k])
    ensures made.Success? ==> forall j, k :: 0 <= j < k < |rows| ==> made.value[j] != made.value[k]
  {
    var recs: seq<EnsemblGffRecord> := [];
    var i := 0;
    while i < |rows|
      invariant i <= |rows| && |recs| == i
      invariant forall k :: 0 <= k < i ==> Rebuildable(rows[k])
      invariant forall k :: 0 <= k < i ==>
        fresh(recs[k]) && recs[k].featureId.None? && recs[k].Value() == Recreated(rows[k])
      invariant forall j, k :: 0 <= j < k < i ==> recs[j] != recs[k]
    {
      var rec := NewRecord(rows[i]);
      if rec.Failure? {
        return Failure(rec.error);
      }
      recs := recs + [rec.value];
      i := i + 1;
    }
    made := Success(recs);
  }

  /** The selected ids name rows of the store, in increasing order. */
  lemma SelectedIds(s: Store, keep: GffRow -> bool, ids: seq<nat>)
    requires StoreValid(s) && ids == MatchingIds(View(s), keep, |s.features|)
    ensures forall k :: 0 <= k < |ids| ==> 1 <= ids[k] <= |s.features|
    ensures forall j, k :: 0 <= j < k < |ids| ==> ids[j] < ids[k]
  {
    MatchingIdsSpec(View(s), keep, |s.features|);
  }

  /** `vals` holds, for each selected id, the record rebuilt from that row of the `gff` view. */
  ghost predicate RecreatedAll(s: Store, ids: seq<nat>, vals: seq<RecordValue>) {
    StoreValid(s) && |vals| == |ids|
    && forall k :: 0 <= k < |ids| ==>
      1 <= ids[k] <= |s.features| && Rebuildable(RowAt(s, ids[k] - 1)) && vals[k] == Recreated(RowAt(s, ids[k] - 1))
  }

  /**
   * The store `subset` returns, from the rebuilt records inserted into an
   * empty store and the edges of `related`: its rows are the selected rows
   * renumbered, and its edges the induced edges up to names.
   */
  lemma SubsetTables(s: Store, ids: seq<nat>, pos: map<nat, nat>, d: Related, vals: seq<RecordValue>, s0: Store, t: Store)
    requires RecreatedAll(s, ids, vals) && RelatedOk(s, ids, pos, d, s.edges)
    requires StoreValid(s0) && s0.features == [] && s0.edges == {}
    requires var s1 := InsertAll(s0, vals).0;
      t.biotypes == s1.biotypes && t.biotypeIds == s1.biotypeIds && t.features == s1.features
    requires t.edges == NewEdges(d)
    ensures StoreValid(t) && |t.features| == |ids|
    ensures forall k :: 0 <= k < |ids| ==>
      1 <= ids[k] <= |s.features| && RowAt(t, k) == SubsetRow(RowAt(s, ids[k] - 1), k + 1)
    ensures SubsetEdges(s, ids, pos, t.edges)
  {
    RebuiltStored(s, ids, vals, s0);
    RelatedEdges(s, ids, pos, d);
    SameRows(t, InsertAll(s0, vals).0);
  }

  lemma SubsetOfIntro(s: Store, keep: GffRow -> bool, ids: seq<nat>, pos: map<nat, nat>, t: Store)
    requires StoreValid(s) && ids == MatchingIds(View(s), keep, |s.features|) && PosValid(ids, pos)
    requires StoreValid(t) && |t.features| == |ids|
    requires forall k :: 0 <= k < |ids| ==>
      1 <= ids[k] <= |s.features| && RowAt(t, k) == SubsetRow(RowAt(s, ids[k] - 1), k + 1)
    requires SubsetEdges(s, ids, pos, t.edges)
    ensures SubsetOf(s, keep, t, pos)
  {
  }

  /**
   * `EnsemblGffRecord(**row)` for a row of the `gff` view. The view has no
   * attribute column, so the attributes keep their default `None`; for a
   * canonical row the constructor then evaluates `"Ensembl_canonical;" + None`,
   * which raises a `TypeError`.
   */
  method NewRecord(row: GffRow) returns (made: Result<EnsemblGffRecord, string>)
    ensures made.Failure? <==> !Rebuildable(row)
    ensures made.Failure? ==> made.error == AttrsNone
    ensures made.Success? ==> fresh(made.value) && made.value.featureId.None? && made.value.Value() == Recreated(row)
  {
    if row.isCanonical {
      return Failure(AttrsNone);
    }
    var rec := new EnsemblGffRecord(
      RecordValue(row.seqid, row.biotype, row.name, "", row.start, row.stop, row.strand, "", row.spans),
      row.isCanonical);
    made := Success(rec);
  }

  /** Records listed once each, each carrying the id of a place holding it, carry the id of their own place. */
  lemma IdsByPlace(recs: seq<EnsemblGffRecord>)
    requires forall j, k :: 0 <= j < k < |recs| ==> recs[j] != recs[k]
    requires forall k :: 0 <= k < |recs| ==>
      recs[k].featureId.Some? && 0 < recs[k].featureId.value <= |recs|
      && recs[recs[k].featureId.value - 1] == recs[k]
    ensures forall p :: 0 <= p < |recs| ==> recs[p].featureId == Some(p + 1)
  {
    forall p | 0 <= p < |recs| ensures recs[p].featureId == Some(p + 1) {
      var id := recs[p].featureId.value;
      assert recs[id - 1] == recs[p];
    }
  }

  lemma SameRows(a: Store, b: Store)
    requires StoreValid(b) && a.biotypes == b.biotypes && a.biotypeIds == b.biotypeIds && a.features == b.features
    ensures StoreValid(a) && forall k :: 0 <= k < |a.features| ==> RowAt(a, k) == RowAt(b, k)
  {
  }

  /**
   * The second loop of `subset`, over the edges in an unspecified order:
   * an edge with both ends selected adds the record of its child end to
   * the set of the record of its gene end.
   */
  method RelatedOf(s: Store, ids: seq<nat>, pos: map<nat, nat>) returns (d: Related)
    requires PosValid(ids, pos)
    requires forall k :: 0 <= k < |ids| ==> 1 <= ids[k] <= |s.features|
    ensures RelatedOk(s, ids, pos, d, s.edges)
  {
    d := Dicts.Empty();
    RelatedEmpty(s, ids, pos);
    var todo := s.edges;
    while todo != {}
      invariant todo <= s.edges
      invariant RelatedOk(s, ids, pos, d, s.edges - todo)
      decreases |todo|
    {
      var e :| e in todo;
      ghost var done := s.edges - todo;
      if e.0 in pos && e.1 in pos {
        var gp, cp := pos[e.0], pos[e.1];
        var gn, cn := s.features[e.0 - 1].stableId, s.features[e.1 - 1].stableId;
        RelatedNamesStep(s, ids, d, gn, gp, cn, cp);
        RelatedSoundStep(s, pos, d, done, e, gp, cp);
        RelatedCompleteStep(s, pos, d, done, e, gp, cp);
        d := AddRelated(d, gn, gp, cn, cp);
      } else {
        RelatedSkip(s, ids, pos, d, done, e);
      }
      assert done + {e} == s.edges - (todo - {e});
      todo := todo - {e};
    }
  }

  /**
   * The rows of `parent_to_child` (`Children`) or `child_to_parent`
   * (`Parents`) whose matched end is named `name` and that pass the
   * query's conditions, read in an unspecified order into a dict keyed by
   * name, so the last row read for a name wins.
   */
  method QueryRows(s: Store, name: string, dir: Direction) returns (out: seq<FeatureData>, ghost via: seq<(nat, nat)>)
    ensures QueryResult(s, name, dir, out, via)
  {
    var results: Dicts.Dict<string, FeatureData> := Dicts.Empty();
    ghost var from: map<string, (nat, nat)> := map[];
    ResultsEmpty(s, name, dir);
    var todo := s.edges;
    while todo != {}
      invariant todo <= s.edges
      invariant ResultsOk(s, name, dir, results, from, s.edges - todo)
      decreases |todo|
    {
      var e :| e in todo;
      QueryStep(s, name, dir, results, from, todo, e);
      if Selects(s, name, dir, e) {
        var row := DataOf(s, ReturnedEnd(e, dir));
        results := Dicts.Put(results, row.name, row);
        from := from[row.name := e];
      }
      todo := todo - {e};
    }
    ResultsValues(s, name, dir, results, from);
    out, via := Dicts.Values(results), Via(results, from);
  }
}
