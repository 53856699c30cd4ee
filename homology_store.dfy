/**
 * The SQLite store `HomologyDb` of `src/ensembl_lite/_homologydb.py`.
 *
 * The three tables are values: `relationship` is the sequence of homology
 * types (row id `i + 1` names `relTypes[i]`), `homology` the sequence of
 * relationship ids (homology id `h` has relationship `homology[h - 1]`),
 * and `member` the set of (gene id, homology id) rows, whose primary key
 * makes an inserted duplicate a no-op. The `_relationship_types` cache is
 * the map `relIds`. The view `related_groups` is the join of the three,
 * read here through `TypeOf` and `MembersOf`.
 */
module HomologyStore {
  import opened Outcomes
  import opened HomologGroups
  import opened HomologMerge

  datatype Tables = Tables(relTypes: seq<string>, relIds: map<string, nat>, homology: seq<nat>,
                           member: set<(string, nat)>)

  const EmptyTables := Tables([], map[], [], {})

  /**
   * The cache and the relationship table name each other, every homology
   * row names a stored relationship and every member row a stored homology.
   */
  ghost predicate TablesValid(t: Tables) {
    CacheValid(t) && RowsValid(t) && MembersValid(t)
  }

  ghost predicate CacheValid(t: Tables) {
    (forall i :: 0 <= i < |t.relTypes| ==> t.relTypes[i] in t.relIds && t.relIds[t.relTypes[i]] == i + 1)
    && (forall s :: s in t.relIds ==> 1 <= t.relIds[s] <= |t.relTypes| && t.relTypes[t.relIds[s] - 1] == s)
  }

  ghost predicate RowsValid(t: Tables) {
    forall k :: 0 <= k < |t.homology| ==> 1 <= t.homology[k] <= |t.relTypes|
  }

  ghost predicate MembersValid(t: Tables) {
    forall p :: p in t.member ==> 1 <= p.1 <= |t.homology|
  }

  /** `_make_relationship_type_id`: the cached id, or a new relationship row. */
  function InternType(t: Tables, rel: string): (Tables, nat) {
    if rel in t.relIds then (t, t.relIds[rel])
    else
      var id := |t.relTypes| + 1;
      (t.(relTypes := t.relTypes + [rel], relIds := t.relIds[rel := id]), id)
  }

  /**
   * Interning a type keeps the tables valid, gives an id whose row holds
   * that type, leaves every id already handed out as it was and touches
   * no other table.
   */
  lemma InternSpec(t: Tables, rel: string)
    requires TablesValid(t)
    ensures var (t', id) := InternType(t, rel);
      TablesValid(t') && 1 <= id <= |t'.relTypes| && t'.relTypes[id - 1] == rel
      && rel in t'.relIds && t'.relIds[rel] == id
      && t.relTypes <= t'.relTypes
      && (forall s :: s in t.relIds ==> s in t'.relIds && t'.relIds[s] == t.relIds[s])
      && t'.homology == t.homology && t'.member == t.member
      && (rel in t.relIds ==> t' == t)
  {
    if rel !in t.relIds {
      InternNew(t, rel);
    }
  }

  /** A type not yet cached gets the next relationship row. */
  lemma InternNew(t: Tables, rel: string)
    requires TablesValid(t) && rel !in t.relIds
    ensures TablesValid(InternType(t, rel).0)
  {
    var (t', id) := InternType(t, rel);
    assert id == |t.relTypes| + 1 && t'.relTypes == t.relTypes + [rel] && t'.relIds == t.relIds[rel := id];
    forall i | 0 <= i < |t'.relTypes|
      ensures t'.relTypes[i] in t'.relIds && t'.relIds[t'.relTypes[i]] == i + 1
    {
      if i < |t.relTypes| {
        assert t'.relTypes[i] == t.relTypes[i] != rel;
      }
    }
    forall s | s in t'.relIds ensures 1 <= t'.relIds[s] <= |t'.relTypes| && t'.relTypes[t'.relIds[s] - 1] == s {
      if s != rel {
        assert t'.relIds[s] == t.relIds[s];
      }
    }
  }

  /** The same type string always maps to the same relationship id. */
  lemma InternTwice(t: Tables, rel: string)
    requires TablesValid(t)
    ensures InternType(InternType(t, rel).0, rel) == InternType(t, rel)
  {
    InternSpec(t, rel);
  }

  /** The homology type of homology id `h`, as the view joins it. */
  function TypeOf(t: Tables, h: nat): string
    requires RowsValid(t) && 1 <= h <= |t.homology|
  {
    t.relTypes[t.homology[h - 1] - 1]
  }

  /** The gene ids of homology id `h`. */
  function MembersOf(t: Tables, h: nat): set<string> {
    set p | p in t.member && p.1 == h :: p.0
  }

  /** The homology ids of relationship `relId` that hold one of `genes`. */
  function Matching(t: Tables, relId: nat, genes: set<string>): set<nat> {
    set p | p in t.member && p.0 in genes && 1 <= p.1 <= |t.homology| && t.homology[p.1 - 1] == relId :: p.1
  }

  /**
   * `_get_homology_group_id` may answer `h`: some homology id of the
   * relationship that already holds one of the genes (the query's
   * `LIMIT 1` does not say which), or else the next fresh id.
   */
  ghost predicate Chooses(t: Tables, relId: nat, genes: set<string>, h: nat) {
    if Matching(t, relId, genes) == {} then h == |t.homology| + 1 else h in Matching(t, relId, genes)
  }

  /** One turn of `add_records`: the group's genes go in under homology id `h`. */
  function Place(t: Tables, relId: nat, genes: set<string>, h: nat): Tables {
    t.(homology := if h == |t.homology| + 1 then t.homology + [relId] else t.homology,
       member := t.member + set g | g in genes :: (g, h))
  }

  /** The groups placed one after the other, group `i` under `ids[i]`. */
  function PlaceAll(t: Tables, relId: nat, groups: seq<Group>, ids: seq<nat>): Tables
    requires |ids| == |groups|
    decreases |groups|
  {
    if groups == [] then t
    else
      var n := |groups| - 1;
      Place(PlaceAll(t, relId, groups[..n], ids[..n]), relId, groups[n].geneIds, ids[n])
  }

  /** Each of `ids` is an answer `_get_homology_group_id` may give at its turn. */
  ghost predicate ChosenAll(t: Tables, relId: nat, groups: seq<Group>, ids: seq<nat>)
    requires |ids| == |groups|
    decreases |groups|
  {
    groups == []
    || (var n := |groups| - 1;
        ChosenAll(t, relId, groups[..n], ids[..n])
        && Chooses(PlaceAll(t, relId, groups[..n], ids[..n]), relId, groups[n].geneIds, ids[n]))
  }

  /**
   * Placing a group keeps the tables valid, stores every one of its genes
   * under `h`, whose relationship is `relId`, and keeps every row there was.
   */
  lemma PlaceSpec(t: Tables, relId: nat, genes: set<string>, h: nat)
    requires TablesValid(t) && 1 <= relId <= |t.relTypes| && Chooses(t, relId, genes, h)
    ensures var t' := Place(t, relId, genes, h);
      TablesValid(t') && 1 <= h <= |t'.homology| && t'.homology[h - 1] == relId
      && t.homology <= t'.homology && t.member <= t'.member
      && (forall g :: g in genes ==> (g, h) in t'.member)
      && t'.relTypes == t.relTypes && t'.relIds == t.relIds
  {
    var t' := Place(t, relId, genes, h);
    if Matching(t, relId, genes) != {} {
      var p :| p in t.member && p.0 in genes && 1 <= p.1 <= |t.homology| && t.homology[p.1 - 1] == relId && p.1 == h;
    }
    forall p | p in t'.member ensures 1 <= p.1 <= |t'.homology| {
      if p !in t.member {
        assert p.1 == h;
      }
    }
  }

  /**
   * The `INSERT OR IGNORE`: a group every gene of which is already stored
   * under the id it is given leaves the tables as they were.
   */
  lemma PlaceDuplicate(t: Tables, relId: nat, genes: set<string>, h: nat)
    requires TablesValid(t) && genes != {} && Chooses(t, relId, genes, h)
    requires forall g :: g in genes ==> (g, h) in t.member
    ensures Place(t, relId, genes, h) == t
  {
    var g :| g in genes;
    assert (g, h) in t.member && h <= |t.homology|;
    var p :| p in t.member && p.0 in genes && 1 <= p.1 <= |t.homology| && t.homology[p.1 - 1] == relId && p.1 == h;
    assert t.member + (set g | g in genes :: (g, h)) == t.member;
  }

  /** The homology ids of type `rel` that hold `gene`: the first query of `get_related_to`. */
  function HomologiesOf(t: Tables, rel: string, gene: string): set<nat>
    requires RowsValid(t)
  {
    set p | p in t.member && p.0 == gene && 1 <= p.1 <= |t.homology| && TypeOf(t, p.1) == rel :: p.1
  }

  /**
   * `get_related_groups`: one group per homology id of type `rel` that
   * has members, with exactly those members, in the order of the ids.
   */
  function RelatedGroups(t: Tables, rel: string, n: nat): seq<Group>
    requires RowsValid(t) && n <= |t.homology|
    decreases n
  {
    if n == 0 then []
    else
      RelatedGroups(t, rel, n - 1)
      + (if TypeOf(t, n) == rel && MembersOf(t, n) != {} then [Group(rel, MembersOf(t, n))] else [])
  }

  /** A group is listed iff it is the member set, non-empty, of some homology id of the type. */
  lemma {:induction false} RelatedGroupsSpec(t: Tables, rel: string, n: nat)
    requires RowsValid(t) && n <= |t.homology|
    ensures forall x :: x in RelatedGroups(t, rel, n) <==>
      exists h :: 1 <= h <= n && TypeOf(t, h) == rel && MembersOf(t, h) != {} && x == Group(rel, MembersOf(t, h))
    decreases n
  {
    if n > 0 {
      RelatedGroupsSpec(t, rel, n - 1);
    }
  }

  /** Every gene stored under a homology id of type `rel` is in one of the listed groups. */
  lemma RelatedGroupsCover(t: Tables, rel: string, gene: string, h: nat)
    requires TablesValid(t) && (gene, h) in t.member && TypeOf(t, h) == rel
    ensures exists x :: x in RelatedGroups(t, rel, |t.homology|) && gene in x.geneIds && x.relationship == rel
  {
    RelatedGroupsSpec(t, rel, |t.homology|);
    assert gene in MembersOf(t, h);
    assert Group(rel, MembersOf(t, h)) in RelatedGroups(t, rel, |t.homology|);
  }

  /** No homology row of the store has relationship `relId`. */
  ghost predicate Fresh(t: Tables, relId: nat) {
    forall k :: 0 <= k < |t.homology| ==> t.homology[k] != relId
  }

  /**
   * `t'` is `t` with one new homology id of relationship `relId` per group,
   * in order, holding exactly that group's genes; the ids of `t` keep
   * their members.
   */
  ghost predicate StoredApart(t: Tables, t': Tables, relId: nat, groups: seq<Group>) {
    TablesValid(t') && t'.relTypes == t.relTypes && t'.relIds == t.relIds
    && |t'.homology| == |t.homology| + |groups| && t.homology <= t'.homology
    && (forall k :: |t.homology| <= k < |t'.homology| ==> t'.homology[k] == relId)
    && (forall i :: 0 <= i < |groups| ==> MembersOf(t', |t.homology| + i + 1) == groups[i].geneIds)
    && (forall h :: 1 <= h <= |t.homology| ==> MembersOf(t', h) == MembersOf(t, h))
  }

  /** Disjoint groups of a type the store does not hold each get a fresh id. */
  lemma {:induction false} PlaceApart(t: Tables, relId: nat, groups: seq<Group>, ids: seq<nat>)
    requires TablesValid(t) && 1 <= relId <= |t.relTypes| && Fresh(t, relId) && Apart(groups)
    requires |ids| == |groups| && ChosenAll(t, relId, groups, ids)
    ensures StoredApart(t, PlaceAll(t, relId, groups, ids), relId, groups)
    decreases |groups|
  {
    if groups == [] {
      assert PlaceAll(t, relId, groups, ids) == t;
      return;
    }
    var n := |groups| - 1;
    var pre := groups[..n];
    assert Apart(pre) by {
      assert forall i :: 0 <= i < n ==> pre[i] == groups[i];
    }
    PlaceApart(t, relId, pre, ids[..n]);
    var tp := PlaceAll(t, relId, pre, ids[..n]);
    NoMatch(t, tp, relId, groups);
    PlaceNew(t, tp, relId, groups, ids[n]);
  }

  /** The last group shares no gene with a stored group of the type. */
  lemma NoMatch(t: Tables, tp: Tables, relId: nat, groups: seq<Group>)
    requires |groups| > 0 && Fresh(t, relId) && Apart(groups)
    requires StoredApart(t, tp, relId, groups[..|groups| - 1])
    ensures Matching(tp, relId, groups[|groups| - 1].geneIds) == {}
  {
    var n := |groups| - 1;
    var base := |t.homology|;
    assert forall p :: p in tp.member && 1 <= p.1 <= |tp.homology| && tp.homology[p.1 - 1] == relId ==> base < p.1;
    forall p | p in tp.member && base < p.1 <= |tp.homology| ensures p.0 !in groups[n].geneIds {
      var i := p.1 - base - 1;
      assert p.0 in MembersOf(tp, base + i + 1);
      assert groups[..n][i] == groups[i];
    }
  }

  /** The last group goes in under the next id, with exactly its genes. */
  lemma PlaceNew(t: Tables, tp: Tables, relId: nat, groups: seq<Group>, h: nat)
    requires |groups| > 0 && 1 <= relId <= |t.relTypes|
    requires StoredApart(t, tp, relId, groups[..|groups| - 1])
    requires Chooses(tp, relId, groups[|groups| - 1].geneIds, h)
    requires Matching(tp, relId, groups[|groups| - 1].geneIds) == {}
    ensures StoredApart(t, Place(tp, relId, groups[|groups| - 1].geneIds, h), relId, groups)
  {
    var n := |groups| - 1;
    var genes := groups[n].geneIds;
    var t' := Place(tp, relId, genes, h);
    PlaceSpec(tp, relId, genes, h);
    assert h == |tp.homology| + 1;
    forall k | 1 <= k <= |tp.homology| ensures MembersOf(t', k) == MembersOf(tp, k) {
      assert forall q :: q in t'.member && q.1 == k ==> q in tp.member;
    }
    assert MembersOf(t', h) == genes by {
      assert forall q :: q in tp.member ==> q.1 != h;
    }
    forall i | 0 <= i < |groups| ensures MembersOf(t', |t.homology| + i + 1) == groups[i].geneIds {
      if i < n {
        assert groups[..n][i] == groups[i];
      }
    }
    assert t'.homology == tp.homology + [relId];
    assert forall k :: |t.homology| <= k < |t'.homology| ==> t'.homology[k] == relId;
    assert forall k :: 1 <= k <= |t.homology| ==> MembersOf(t', k) == MembersOf(t, k);
  }

  /** A homology id is of type `rel` exactly when its relationship is the cached id of `rel`. */
  lemma TypeOfId(t: Tables, h: nat, rel: string)
    requires TablesValid(t) && 1 <= h <= |t.homology| && rel in t.relIds
    ensures TypeOf(t, h) == rel <==> t.homology[h - 1] == t.relIds[rel]
  {
    var j := t.homology[h - 1];
    if TypeOf(t, h) == rel {
      assert t.relIds[t.relTypes[j - 1]] == j;
    }
  }

  /** A store holding no group of type `rel` holds none after interning it. */
  lemma InternFresh(t0: Tables, rel: string)
    requires TablesValid(t0) && forall h :: 1 <= h <= |t0.homology| ==> TypeOf(t0, h) != rel
    ensures var (t1, relId) := InternType(t0, rel); Fresh(t1, relId)
  {
    InternSpec(t0, rel);
    var (t1, relId) := InternType(t0, rel);
    forall k | 0 <= k < |t1.homology| ensures t1.homology[k] != relId {
      if rel in t0.relIds {
        TypeOfId(t0, k + 1, rel);
      }
    }
  }

  /** Only the stored ids past `|t.homology|` are of the type; none before it is listed. */
  lemma {:induction false} RelatedNone(t: Tables, t': Tables, rel: string, k: nat)
    requires TablesValid(t) && rel in t.relIds && Fresh(t, t.relIds[rel])
    requires TablesValid(t') && t'.relTypes == t.relTypes && t'.relIds == t.relIds && t.homology <= t'.homology
    requires k <= |t.homology|
    ensures RelatedGroups(t', rel, k) == []
    decreases k
  {
    if k > 0 {
      RelatedNone(t, t', rel, k - 1);
      TypeOfId(t', k, rel);
      assert t'.homology[k - 1] == t.homology[k - 1];
    }
  }

  lemma {:induction false} RelatedStored(t: Tables, t': Tables, rel: string, groups: seq<Group>, k: nat)
    requires TablesValid(t) && rel in t.relIds && Fresh(t, t.relIds[rel])
    requires StoredApart(t, t', t.relIds[rel], groups) && Apart(groups) && Labelled(groups, rel)
    requires k <= |groups|
    ensures RelatedGroups(t', rel, |t.homology| + k) == groups[..k]
    decreases k
  {
    if k == 0 {
      RelatedNone(t, t', rel, |t.homology|);
    } else {
      RelatedStored(t, t', rel, groups, k - 1);
      var h := |t.homology| + k;
      TypeOfId(t', h, rel);
      assert TypeOf(t', h) == rel;
      assert MembersOf(t', h) == groups[k - 1].geneIds != {};
      assert groups[..k] == groups[..k - 1] + [groups[k - 1]];
    }
  }

  /**
   * Round trip of `add_records` and `get_related_groups`: non-empty,
   * pairwise disjoint groups of a type the store does not yet hold come
   * back exactly, in the order they went in.
   */
  lemma AddThenList(t0: Tables, rel: string, groups: seq<Group>, ids: seq<nat>)
    requires TablesValid(t0) && forall h :: 1 <= h <= |t0.homology| ==> TypeOf(t0, h) != rel
    requires Apart(groups) && Labelled(groups, rel)
    requires var (t1, relId) := InternType(t0, rel); |ids| == |groups| && ChosenAll(t1, relId, groups, ids)
    ensures var (t1, relId) := InternType(t0, rel); var t' := PlaceAll(t1, relId, groups, ids);
      TablesValid(t') && RelatedGroups(t', rel, |t'.homology|) == groups
  {
    InternSpec(t0, rel);
    var (t1, relId) := InternType(t0, rel);
    InternFresh(t0, rel);
    PlaceApart(t1, relId, groups, ids);
    ListStored(t1, PlaceAll(t1, relId, groups, ids), rel, groups);
  }

  lemma ListStored(t: Tables, t': Tables, rel: string, groups: seq<Group>)
    requires TablesValid(t) && rel in t.relIds && Fresh(t, t.relIds[rel])
    requires StoredApart(t, t', t.relIds[rel], groups) && Apart(groups) && Labelled(groups, rel)
    ensures TablesValid(t') && RelatedGroups(t', rel, |t'.homology|) == groups
  {
    RelatedStored(t, t', rel, groups, |groups|);
    assert groups[..|groups|] == groups;
  }

  /** Homology id `h` is of type `rel` and holds all of `genes`. */
  ghost predicate Holds(t: Tables, rel: string, genes: set<string>, h: nat) {
    TablesValid(t) && 1 <= h <= |t.homology| && TypeOf(t, h) == rel && genes <= MembersOf(t, h)
  }

  ghost predicate HoldsAll(t: Tables, rel: string, groups: seq<Group>, ids: seq<nat>)
    requires |ids| == |groups|
  {
    forall i :: 0 <= i < |groups| ==> Holds(t, rel, groups[i].geneIds, ids[i])
  }

  /**
   * After `add_records`, each stored group lies whole in the homology id
   * it was given, of the type it was stored under; so `get_related_to`
   * finds an id for each of its genes.
   */
  lemma {:induction false} AddThenFind(t: Tables, rel: string, relId: nat, groups: seq<Group>, ids: seq<nat>)
    requires TablesValid(t) && rel in t.relIds && relId == t.relIds[rel]
    requires |ids| == |groups| && ChosenAll(t, relId, groups, ids)
    ensures TablesValid(PlaceAll(t, relId, groups, ids)) && HoldsAll(PlaceAll(t, relId, groups, ids), rel, groups, ids)
    decreases |groups|
  {
    if groups != [] {
      var n := |groups| - 1;
      AddThenFind(t, rel, relId, groups[..n], ids[..n]);
      var tp := PlaceAll(t, relId, groups[..n], ids[..n]);
      assert tp.relIds == t.relIds by {
        PlaceAllTypes(t, relId, groups[..n], ids[..n]);
      }
      FindStep(tp, rel, relId, groups, ids);
    }
  }

  lemma {:induction false} PlaceAllTypes(t: Tables, relId: nat, groups: seq<Group>, ids: seq<nat>)
    requires |ids| == |groups|
    ensures PlaceAll(t, relId, groups, ids).relTypes == t.relTypes
    ensures PlaceAll(t, relId, groups, ids).relIds == t.relIds
    decreases |groups|
  {
    if groups != [] {
      PlaceAllTypes(t, relId, groups[..|groups| - 1], ids[..|groups| - 1]);
    }
  }

  lemma FindStep(tp: Tables, rel: string, relId: nat, groups: seq<Group>, ids: seq<nat>)
    requires |groups| > 0 && |ids| == |groups| && TablesValid(tp) && rel in tp.relIds && relId == tp.relIds[rel]
    requires HoldsAll(tp, rel, groups[..|groups| - 1], ids[..|groups| - 1])
    requires Chooses(tp, relId, groups[|groups| - 1].geneIds, ids[|groups| - 1])
    ensures var t' := Place(tp, relId, groups[|groups| - 1].geneIds, ids[|groups| - 1]);
      TablesValid(t') && HoldsAll(t', rel, groups, ids)
  {
    var n := |groups| - 1;
    var t' := Place(tp, relId, groups[n].geneIds, ids[n]);
    PlaceSpec(tp, relId, groups[n].geneIds, ids[n]);
    forall i | 0 <= i < |groups| ensures Holds(t', rel, groups[i].geneIds, ids[i]) {
      if i < n {
        assert groups[..n][i] == groups[i] && ids[..n][i] == ids[i];
        assert Holds(tp, rel, groups[i].geneIds, ids[i]);
        TypeOfId(tp, ids[i], rel);
        TypeOfId(t', ids[i], rel);
        assert MembersOf(tp, ids[i]) <= MembersOf(t', ids[i]);
      } else {
        TypeOfId(t', ids[i], rel);
        assert groups[i].geneIds <= MembersOf(t', ids[i]);
      }
    }
  }

  class HomologyDb {
    var relTypes: seq<string>
    var relIds: map<string, nat>
    var homology: seq<nat>
    var member: set<(string, nat)>

    function Contents(): Tables
      reads this
    {
      Tables(relTypes, relIds, homology, member)
    }

    ghost predicate Valid()
      reads this
    {
      TablesValid(Contents())
    }

    /** A new in-memory store: empty tables and an empty cache. */
    constructor ()
      ensures Contents() == EmptyTables && Valid()
    {
      relTypes, relIds, homology, member := [], map[], [], {};
    }

    /** `_make_relationship_type_id`. */
    method MakeRelationshipTypeId(rel: string) returns (id: nat)
      requires Valid()
      modifies this`relTypes, this`relIds
      ensures (Contents(), id) == InternType(old(Contents()), rel)
      ensures Valid()
    {
      InternSpec(Contents(), rel);
      if rel in relIds {
        id := relIds[rel];
      } else {
        id := |relTypes| + 1;
        relTypes := relTypes + [rel];
        relIds := relIds[rel := id];
      }
    }

    /** `_get_homology_group_id` for the genes of a group. */
    method GetHomologyGroupId(relId: nat, genes: set<string>) returns (h: nat)
      modifies this`homology
      ensures Chooses(old(Contents()), relId, genes, h)
      ensures homology == if h == old(|homology|) + 1 then old(homology) + [relId] else old(homology)
    {
      var found := Matching(Contents(), relId, genes);
      if found == {} {
        h := |homology| + 1;
        homology := homology + [relId];
      } else {
        h :| h in found;
      }
    }

    /**
     * `add_records`: every group goes in under the id
     * `_get_homology_group_id` gives it; the first group whose label is
     * not `rel` raises `ValueError`, and the groups before it stay stored.
     */
    method AddRecords(records: seq<Group>, rel: string) returns (r: Result<(), string>, ghost ids: seq<nat>)
      requires Valid()
      modifies this
      ensures Valid()
      ensures var (t1, relId) := InternType(old(Contents()), rel);
        |ids| <= |records| && ChosenAll(t1, relId, records[..|ids|], ids)
        && Contents() == PlaceAll(t1, relId, records[..|ids|], ids)
      ensures Labelled(records[..|ids|], rel)
      ensures r.Success? <==> |ids| == |records|
      ensures r.Failure? ==> records[|ids|].relationship != rel
    {
      InternSpec(Contents(), rel);
      var relId := MakeRelationshipTypeId(rel);
      r, ids := AddGroups(records, rel, relId);
    }

    /** The loop of `add_records` over the groups, once the relationship id is known. */
    method AddGroups(records: seq<Group>, rel: string, relId: nat) returns (r: Result<(), string>, ghost ids: seq<nat>)
      requires Valid() && 1 <= relId <= |relTypes|
      modifies this`homology, this`member
      ensures Valid()
      ensures |ids| <= |records| && ChosenAll(old(Contents()), relId, records[..|ids|], ids)
      ensures Contents() == PlaceAll(old(Contents()), relId, records[..|ids|], ids)
      ensures Labelled(records[..|ids|], rel)
      ensures r.Success? <==> |ids| == |records|
      ensures r.Failure? ==> records[|ids|].relationship != rel
    {
      ghost var t1 := Contents();
      ids := [];
      for i := 0 to |records|
        invariant |ids| == i
        invariant Labelled(records[..i], rel)
        invariant ChosenAll(t1, relId, records[..i], ids) && Contents() == PlaceAll(t1, relId, records[..i], ids)
        invariant Valid()
      {
        if records[i].relationship != rel {
          return Failure("group relationship differs from relationship_type"), ids;
        }
        var h := AddGroup(relId, records[i].geneIds);
        AddStep(t1, relId, records, ids, i, h);
        LabelledSnoc(records, i, rel);
        ids := ids + [h];
      }
      assert records[..|records|] == records;
      r := Success(());
    }

    /** One turn of `add_records`: find or make the homology id, then insert the member rows. */
    method AddGroup(relId: nat, genes: set<string>) returns (h: nat)
      requires Valid() && 1 <= relId <= |relTypes|
      modifies this`homology, this`member
      ensures Valid()
      ensures Chooses(old(Contents()), relId, genes, h) && Contents() == Place(old(Contents()), relId, genes, h)
    {
      PlaceFrom(Contents(), relId, genes);
      h := GetHomologyGroupId(relId, genes);
      member := member + set g | g in genes :: (g, h);
    }

    /** `get_related_to`: the members of one homology id of type `rel` holding `gene`. */
    method GetRelatedTo(gene: string, rel: string) returns (out: seq<string>, ghost h: nat)
      requires Valid()
      ensures out == [] <==> HomologiesOf(Contents(), rel, gene) == {}
      ensures out != [] ==> h in HomologiesOf(Contents(), rel, gene) && Enumerates(out, MembersOf(Contents(), h))
      ensures out != [] ==> gene in out
    {
      var hs := HomologiesOf(Contents(), rel, gene);
      if hs == {} {
        return [], 0;
      }
      var hid :| hid in hs;
      h := hid;
      assert gene in MembersOf(Contents(), hid);
      out := Enumerate(MembersOf(Contents(), hid));
    }

    /** `get_related_groups`, in the order of the homology ids. */
    method GetRelatedGroups(rel: string) returns (out: seq<Group>)
      requires Valid()
      ensures out == RelatedGroups(Contents(), rel, |homology|)
    {
      out := [];
      for h := 1 to |homology| + 1
        invariant out == RelatedGroups(Contents(), rel, h - 1)
      {
        var genes := MembersOf(Contents(), h);
        if relTypes[homology[h - 1] - 1] == rel && genes != {} {
          out := out + [Group(rel, genes)];
        }
      }
    }
  }

  lemma PlaceFrom(t: Tables, relId: nat, genes: set<string>)
    requires TablesValid(t) && 1 <= relId <= |t.relTypes|
    ensures forall h :: Chooses(t, relId, genes, h) ==> TablesValid(Place(t, relId, genes, h))
  {
    forall h | Chooses(t, relId, genes, h) ensures TablesValid(Place(t, relId, genes, h)) {
      PlaceSpec(t, relId, genes, h);
    }
  }

  lemma LabelledSnoc(records: seq<Group>, i: nat, rel: string)
    requires i < |records| && Labelled(records[..i], rel) && records[i].relationship == rel
    ensures Labelled(records[..i + 1], rel)
  {
    assert records[..i + 1] == records[..i] + [records[i]];
  }

  /** The loop of `add_records` after one more group. */
  lemma AddStep(t1: Tables, relId: nat, records: seq<Group>, ids: seq<nat>, i: nat, h: nat)
    requires i < |records| && |ids| == i
    requires ChosenAll(t1, relId, records[..i], ids)
    requires Chooses(PlaceAll(t1, relId, records[..i], ids), relId, records[i].geneIds, h)
    ensures ChosenAll(t1, relId, records[..i + 1], ids + [h])
    ensures PlaceAll(t1, relId, records[..i + 1], ids + [h])
      == Place(PlaceAll(t1, relId, records[..i], ids), relId, records[i].geneIds, h)
  {
    assert records[..i + 1][..i] == records[..i];
    assert (ids + [h])[..i] == ids;
  }
}
