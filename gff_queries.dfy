/**
 * What the read side of `EnsemblGffDb` (`src/ensembl_lite/_genomedb.py`)
 * computes from the tables of `GffStore`: the rows a filter selects, the
 * records `subset` rebuilds from them, the `related` dict `subset` builds
 * over the edges, and the rows of the `parent_to_child` and
 * `child_to_parent` views.
 */
module GffQueries {
  import opened Outcomes
  import opened GffText
  import opened GffRecord
  import opened Dicts
  import opened GffStore

  /** Row `k` of the `gff` view: the feature with id `k + 1`. */
  function RowAt(s: Store, k: nat): GffRow
    requires StoreValid(s) && k < |s.features|
  {
    ViewRow(s.biotypes, s.features[k], k + 1)
  }

  /** The `gff` view read through `RowAt`. */
  lemma ViewAt(s: Store, k: nat)
    requires StoreValid(s) && k < |s.features|
    ensures View(s)[k] == RowAt(s, k) && View(s)[k].featureId == k + 1
  {
  }

  /** The `stableid` column of the feature with id `id`; "" where no such row exists. */
  function NameOf(s: Store, id: nat): string {
    if 1 <= id <= |s.features| then s.features[id - 1].stableId else ""
  }

  /** The ids of the first `n` rows of the `gff` view `rows` that `keep` selects, in id order. */
  function MatchingIds(rows: seq<GffRow>, keep: GffRow -> bool, n: nat): seq<nat>
    requires n <= |rows|
  {
    if n == 0 then []
    else MatchingIds(rows, keep, n - 1) + (if keep(rows[n - 1]) then [n] else [])
  }

  /**
   * The selected ids are exactly the ids of the rows `keep` accepts, each
   * once, in increasing order.
   */
  lemma MatchingIdsSpec(rows: seq<GffRow>, keep: GffRow -> bool, n: nat)
    requires n <= |rows|
    ensures var ids := MatchingIds(rows, keep, n);
      (forall i :: 0 <= i < |ids| ==> 1 <= ids[i] <= n && keep(rows[ids[i] - 1]))
      && (forall i, j :: 0 <= i < j < |ids| ==> ids[i] < ids[j])
      && (forall id :: 1 <= id <= n && keep(rows[id - 1]) ==> id in ids)
  {
    MatchingIdsSelected(rows, keep, n);
    MatchingIdsIncreasing(rows, keep, n);
    MatchingIdsComplete(rows, keep, n);
  }

  lemma {:induction false} MatchingIdsSelected(rows: seq<GffRow>, keep: GffRow -> bool, n: nat)
    requires n <= |rows|
    ensures forall i :: 0 <= i < |MatchingIds(rows, keep, n)| ==>
      1 <= MatchingIds(rows, keep, n)[i] <= n && keep(rows[MatchingIds(rows, keep, n)[i] - 1])
  {
    if n > 0 {
      MatchingIdsSelected(rows, keep, n - 1);
      var pre, ids := MatchingIds(rows, keep, n - 1), MatchingIds(rows, keep, n);
      assert ids == pre + (if keep(rows[n - 1]) then [n] else []);
      forall i | 0 <= i < |ids| ensures 1 <= ids[i] <= n && keep(rows[ids[i] - 1]) {
        if i < |pre| {
          assert ids[i] == pre[i];
        } else {
          assert ids[i] == n;
        }
      }
    }
  }

  lemma {:induction false} MatchingIdsIncreasing(rows: seq<GffRow>, keep: GffRow -> bool, n: nat)
    requires n <= |rows|
    ensures forall i, j :: 0 <= i < j < |MatchingIds(rows, keep, n)| ==>
      MatchingIds(rows, keep, n)[i] < MatchingIds(rows, keep, n)[j]
  {
    if n > 0 {
      MatchingIdsIncreasing(rows, keep, n - 1);
      MatchingIdsSelected(rows, keep, n - 1);
      var pre, ids := MatchingIds(rows, keep, n - 1), MatchingIds(rows, keep, n);
      assert ids == pre + (if keep(rows[n - 1]) then [n] else []);
      forall i, j | 0 <= i < j < |ids| ensures ids[i] < ids[j] {
        assert ids[i] == pre[i];
        if j < |pre| {
          assert ids[j] == pre[j];
        }
      }
    }
  }

  lemma {:induction false} MatchingIdsComplete(rows: seq<GffRow>, keep: GffRow -> bool, n: nat)
    requires n <= |rows|
    ensures forall id :: 1 <= id <= n && keep(rows[id - 1]) ==> id in MatchingIds(rows, keep, n)
  {
    if n > 0 {
      MatchingIdsComplete(rows, keep, n - 1);
      forall id | 1 <= id <= n && keep(rows[id - 1]) ensures id in MatchingIds(rows, keep, n) {
        MatchingIdsGrow(rows, keep, n, id);
      }
    }
  }

  /** An id selected among the first `n - 1` rows, or the `n`-th when kept, is selected among the first `n`. */
  lemma MatchingIdsGrow(rows: seq<GffRow>, keep: GffRow -> bool, n: nat, id: nat)
    requires 1 <= n <= |rows|
    requires (id < n && id in MatchingIds(rows, keep, n - 1)) || (id == n && keep(rows[n - 1]))
    ensures id in MatchingIds(rows, keep, n)
  {
    var pre, ids := MatchingIds(rows, keep, n - 1), MatchingIds(rows, keep, n);
    assert ids == pre + (if keep(rows[n - 1]) then [n] else []);
    if id < n && id in pre {
      var k :| 0 <= k < |pre| && pre[k] == id;
      assert ids[k] == id;
    } else {
      assert ids[|ids| - 1] == n;
    }
  }

  /**
   * `EnsemblGffRecord(**row)` in `subset`, when it does not raise: the
   * row's columns become the record's fields, and there is no parent and
   * no attribute text. A canonical row has no such record: the `gff` view
   * has no attribute column, so the constructor would put the canonical
   * marker in front of `None`, which raises (see `Rebuildable`).
   */
  function Recreated(row: GffRow): RecordValue {
    RecordValue(row.seqid, row.biotype, row.name, "", row.start, row.stop, row.strand, "", row.spans)
  }

  /** `EnsemblGffRecord(**row)` returns, rather than raising a `TypeError`, iff the row is not canonical. */
  predicate Rebuildable(row: GffRow) {
    !row.isCanonical
  }

  /** Some row of `s` that `keep` selects is canonical, so `subset` raises on it. */
  ghost predicate SelectsCanonical(s: Store, keep: GffRow -> bool)
    requires StoreValid(s)
  {
    exists k :: 0 <= k < |s.features| && keep(RowAt(s, k)) && !Rebuildable(RowAt(s, k))
  }

  /** Some id of `ids` names a canonical row of `s`. */
  ghost predicate CanonicalAmong(s: Store, ids: seq<nat>)
    requires StoreValid(s)
  {
    exists k :: 0 <= k < |ids| && 1 <= ids[k] <= |s.features| && !Rebuildable(RowAt(s, ids[k] - 1))
  }

  /** The selected ids reach a canonical row iff some row `keep` selects is canonical. */
  lemma CanonicalSelected(s: Store, keep: GffRow -> bool, ids: seq<nat>)
    requires StoreValid(s) && ids == MatchingIds(View(s), keep, |s.features|)
    ensures SelectsCanonical(s, keep) <==> CanonicalAmong(s, ids)
  {
    if SelectsCanonical(s, keep) {
      var i :| 0 <= i < |s.features| && keep(RowAt(s, i)) && !Rebuildable(RowAt(s, i));
      var k := SelectedId(s, keep, ids, i);
    }
    if CanonicalAmong(s, ids) {
      var k :| 0 <= k < |ids| && 1 <= ids[k] <= |s.features| && !Rebuildable(RowAt(s, ids[k] - 1));
      SelectedKept(s, keep, ids, k);
    }
  }

  /** A selected row has its id among the selected ids. */
  lemma SelectedId(s: Store, keep: GffRow -> bool, ids: seq<nat>, i: nat) returns (k: nat)
    requires StoreValid(s) && ids == MatchingIds(View(s), keep, |s.features|)
    requires i < |s.features| && keep(RowAt(s, i))
    ensures k < |ids| && ids[k] == i + 1
  {
    MatchingIdsSpec(View(s), keep, |s.features|);
    ViewAt(s, i);
    var id := i + 1;
    assert 1 <= id <= |s.features| && keep(View(s)[id - 1]);
    assert id in ids;
    k :| 0 <= k < |ids| && ids[k] == id;
  }

  /** The row of a selected id is one `keep` selects. */
  lemma SelectedKept(s: Store, keep: GffRow -> bool, ids: seq<nat>, k: nat)
    requires StoreValid(s) && ids == MatchingIds(View(s), keep, |s.features|) && k < |ids|
    ensures 1 <= ids[k] <= |s.features| && keep(RowAt(s, ids[k] - 1))
  {
    MatchingIdsSpec(View(s), keep, |s.features|);
    ViewAt(s, ids[k] - 1);
  }

  /**
   * The record rebuilt from a non-canonical row needs no coordinate
   * filling, and once stored under `id` it reads back as the row it came
   * from, with its name stripped of type prefixes once more and the new id.
   */
  lemma RecreatedStored(s: Store, k: nat, id: nat)
    requires StoreValid(s) && k < |s.features| && Rebuildable(RowAt(s, k))
    ensures var row := RowAt(s, k);
      Filled(Recreated(row)) == Some(Recreated(row))
      && StoredView(Recreated(row), id) == row.(name := StripTypedIds(row.name), featureId := id)
  {
    assert RowValid(|s.biotypes|, s.features[k]);
    assert !Contains("", CanonicalTag);
  }

  /** A row as it reads back from the store `subset` returns: name stripped once more, new id. */
  function SubsetRow(row: GffRow, id: nat): GffRow {
    row.(name := StripTypedIds(row.name), featureId := id)
  }

  /**
   * Storing the rebuilt records of selected rows, none of them canonical,
   * into an empty store cannot fail, and row `k` of the new store reads
   * back as the `k`-th selected row with its name stripped once more and
   * the id `k + 1`.
   */
  lemma RebuiltStored(s: Store, ids: seq<nat>, vals: seq<RecordValue>, s0: Store)
    requires StoreValid(s) && |vals| == |ids|
    requires forall k :: 0 <= k < |ids| ==> 1 <= ids[k] <= |s.features| && Rebuildable(RowAt(s, ids[k] - 1)) && vals[k] == Recreated(RowAt(s, ids[k] - 1))
    requires StoreValid(s0) && s0.features == [] && s0.edges == {}
    ensures InsertAll(s0, vals).1
    ensures var s1 := InsertAll(s0, vals).0;
      StoreValid(s1) && |s1.features| == |ids| && s1.edges == {}
      && forall k :: 0 <= k < |ids| ==> RowAt(s1, k) == SubsetRow(RowAt(s, ids[k] - 1), k + 1)
  {
    RecreatedFilled(s, ids, vals);
    StoredUnchanged(s0, vals);
    RebuiltRows(s, ids, vals, InsertAll(s0, vals).0);
  }

  lemma RecreatedFilled(s: Store, ids: seq<nat>, vals: seq<RecordValue>)
    requires StoreValid(s) && |vals| == |ids|
    requires forall k :: 0 <= k < |ids| ==> 1 <= ids[k] <= |s.features| && Rebuildable(RowAt(s, ids[k] - 1)) && vals[k] == Recreated(RowAt(s, ids[k] - 1))
    ensures forall k :: 0 <= k < |vals| ==> Filled(vals[k]).Some? && Filled(vals[k]).value == vals[k]
  {
    forall k | 0 <= k < |vals| ensures Filled(vals[k]).Some? && Filled(vals[k]).value == vals[k] {
      RecreatedStored(s, ids[k] - 1, k + 1);
    }
  }

  lemma RebuiltRows(s: Store, ids: seq<nat>, vals: seq<RecordValue>, s1: Store)
    requires StoreValid(s) && |vals| == |ids|
    requires forall k :: 0 <= k < |ids| ==> 1 <= ids[k] <= |s.features| && Rebuildable(RowAt(s, ids[k] - 1)) && vals[k] == Recreated(RowAt(s, ids[k] - 1))
    requires StoreValid(s1) && |s1.features| == |ids| && StoredFrom(s1, 0, vals)
    ensures forall k :: 0 <= k < |ids| ==> RowAt(s1, k) == SubsetRow(RowAt(s, ids[k] - 1), k + 1)
  {
    forall k | 0 <= k < |ids| ensures RowAt(s1, k) == SubsetRow(RowAt(s, ids[k] - 1), k + 1) {
      RebuiltRow(s, ids, vals, s1, k);
    }
  }

  lemma RebuiltRow(s: Store, ids: seq<nat>, vals: seq<RecordValue>, s1: Store, k: nat)
    requires StoreValid(s) && |vals| == |ids|
    requires forall k :: 0 <= k < |ids| ==> 1 <= ids[k] <= |s.features| && Rebuildable(RowAt(s, ids[k] - 1)) && vals[k] == Recreated(RowAt(s, ids[k] - 1))
    requires StoreValid(s1) && |s1.features| == |ids| && StoredFrom(s1, 0, vals)
    requires k < |ids|
    ensures 1 <= ids[k] <= |s.features|
    ensures RowAt(s1, k) == SubsetRow(RowAt(s, ids[k] - 1), k + 1)
  {
    RecreatedStored(s, ids[k] - 1, k + 1);
    assert StoredAs(s1, 0 + k, Filled(vals[k]).value);
  }

  /** Records that need no filling are all stored, in order, after the rows already there. */
  lemma StoredUnchanged(s0: Store, vals: seq<RecordValue>)
    requires StoreValid(s0)
    requires forall k :: 0 <= k < |vals| ==> Filled(vals[k]).Some? && Filled(vals[k]).value == vals[k]
    ensures InsertAll(s0, vals).1
    ensures var s1 := InsertAll(s0, vals).0;
      StoreValid(s1) && |s1.features| == |s0.features| + |vals| && s1.edges == s0.edges
      && StoredFrom(s1, |s0.features|, vals)
  {
    InsertAllSpec(s0, vals);
    InsertAllValid(s0, vals);
  }

  /** `pos` maps each selected id to its place in `ids`: the `feature_ids` dict's order. */
  ghost predicate PosValid(ids: seq<nat>, pos: map<nat, nat>) {
    (forall i :: 0 <= i < |ids| ==> ids[i] in pos && pos[ids[i]] == i)
    && (forall id :: id in pos ==> pos[id] < |ids| && ids[pos[id]] == id)
  }

  /** The place of each of the increasing ids `ids`. */
  function Places(ids: seq<nat>): (pos: map<nat, nat>)
    requires forall j, k :: 0 <= j < k < |ids| ==> ids[j] < ids[k]
    ensures PosValid(ids, pos)
    decreases |ids|
  {
    if ids == [] then map[]
    else
      var n := |ids| - 1;
      var pre := Places(ids[..n]);
      assert forall id :: id in pre ==> id < ids[n] by {
        forall id | id in pre ensures id < ids[n] {
          assert ids[..n][pre[id]] == id;
        }
      }
      pre[ids[n] := n]
  }

  /**
   * The `related` defaultdict of `subset`, by place among the selected
   * records: keyed by gene name (records hash and compare by name), each
   * entry holds the place of the gene record used as key and, per child
   * name, the place of the child record kept in its set.
   */
  type Related = Dict<string, (nat, map<string, nat>)>

  /** `related[feature_ids[g]].add(feature_ids[c])` for gene at place `gp` and child at place `cp`. */
  function AddRelated(d: Related, gname: string, gp: nat, cname: string, cp: nat): (r: Related)
    requires Dicts.Valid(d)
    ensures Dicts.Valid(r)
  {
    if gname in d.items then
      var (kp, children) := d.items[gname];
      if cname in children then d else Put(d, gname, (kp, children[cname := cp]))
    else Put(d, gname, (gp, map[cname := cp]))
  }

  /** An edge of `s` whose two ends were both selected. */
  ghost predicate Induced(s: Store, pos: map<nat, nat>, e: (nat, nat)) {
    e in s.edges && e.0 in pos && e.1 in pos
  }

  /** Every entry of `related` holds the places of records of the names it is keyed by. */
  ghost predicate RelatedNames(s: Store, ids: seq<nat>, d: Related) {
    Dicts.Valid(d)
    && (forall n :: n in d.items ==> d.items[n].0 < |ids| && NameOf(s, ids[d.items[n].0]) == n)
    && (forall n, m :: n in d.items && m in d.items[n].1 ==>
          d.items[n].1[m] < |ids| && NameOf(s, ids[d.items[n].1[m]]) == m)
  }

  /** Every (gene name, child name) entry comes from an induced edge in `done` with those names. */
  ghost predicate RelatedSound(s: Store, pos: map<nat, nat>, d: Related, done: set<(nat, nat)>) {
    forall n, m :: n in d.items && m in d.items[n].1 ==>
      exists e :: e in done && Induced(s, pos, e) && NameOf(s, e.0) == n && NameOf(s, e.1) == m
  }

  /** Every induced edge in `done` has its gene name and child name entered. */
  ghost predicate RelatedComplete(s: Store, pos: map<nat, nat>, d: Related, done: set<(nat, nat)>) {
    forall e :: e in done && Induced(s, pos, e) ==>
      NameOf(s, e.0) in d.items && NameOf(s, e.1) in d.items[NameOf(s, e.0)].1
  }

  /** What `related` holds once the edges in `done` have been read. */
  ghost predicate RelatedOk(s: Store, ids: seq<nat>, pos: map<nat, nat>, d: Related, done: set<(nat, nat)>) {
    RelatedNames(s, ids, d) && RelatedSound(s, pos, d, done) && RelatedComplete(s, pos, d, done)
  }

  /** Every place `related` holds is below `n`. */
  ghost predicate PlacesBelow(d: Related, n: nat) {
    forall g :: g in d.items ==>
      d.items[g].0 < n && forall c :: c in d.items[g].1 ==> d.items[g].1[c] < n
  }

  lemma NamesBelow(s: Store, ids: seq<nat>, d: Related)
    requires RelatedNames(s, ids, d)
    ensures PlacesBelow(d, |ids|)
  {
  }

  lemma RelatedEmpty(s: Store, ids: seq<nat>, pos: map<nat, nat>)
    ensures RelatedOk(s, ids, pos, Dicts.Empty(), {})
  {
  }

  /**
   * Adding to `related` keeps every entry and every child entry already
   * there, and enters the given gene name and child name.
   */
  lemma AddRelatedSpec(d: Related, gn: string, gp: nat, cn: string, cp: nat)
    requires Dicts.Valid(d)
    ensures var r := AddRelated(d, gn, gp, cn, cp);
      gn in r.items && cn in r.items[gn].1
      && (forall n :: n in d.items ==>
            n in r.items && r.items[n].0 == d.items[n].0
            && (forall m :: m in d.items[n].1 ==> m in r.items[n].1 && r.items[n].1[m] == d.items[n].1[m]))
      && (forall n :: n in r.items && n != gn ==> n in d.items && r.items[n] == d.items[n])
      && (gn !in d.items ==> r.items[gn] == (gp, map[cn := cp]))
      && (gn in d.items ==> forall m :: m in r.items[gn].1 && m != cn ==> m in d.items[gn].1)
      && (gn in d.items && cn !in d.items[gn].1 ==> r.items[gn].1[cn] == cp)
  {
  }

  lemma RelatedNamesStep(s: Store, ids: seq<nat>, d: Related, gn: string, gp: nat, cn: string, cp: nat)
    requires RelatedNames(s, ids, d)
    requires gp < |ids| && NameOf(s, ids[gp]) == gn && cp < |ids| && NameOf(s, ids[cp]) == cn
    ensures RelatedNames(s, ids, AddRelated(d, gn, gp, cn, cp))
  {
    AddRelatedSpec(d, gn, gp, cn, cp);
  }

  lemma RelatedSoundStep(s: Store, pos: map<nat, nat>, d: Related, done: set<(nat, nat)>,
                         e: (nat, nat), gp: nat, cp: nat)
    requires Dicts.Valid(d) && RelatedSound(s, pos, d, done) && Induced(s, pos, e)
    ensures RelatedSound(s, pos, AddRelated(d, NameOf(s, e.0), gp, NameOf(s, e.1), cp), done + {e})
  {
    var gn, cn := NameOf(s, e.0), NameOf(s, e.1);
    AddRelatedSpec(d, gn, gp, cn, cp);
    var r := AddRelated(d, gn, gp, cn, cp);
    forall n, m | n in r.items && m in r.items[n].1
      ensures exists x :: x in done + {e} && Induced(s, pos, x) && NameOf(s, x.0) == n && NameOf(s, x.1) == m
    {
      if n == gn && m == cn {
        assert e in done + {e};
      } else {
        assert n in d.items && m in d.items[n].1;
        var x :| x in done && Induced(s, pos, x) && NameOf(s, x.0) == n && NameOf(s, x.1) == m;
        assert x in done + {e};
      }
    }
  }

  lemma RelatedCompleteStep(s: Store, pos: map<nat, nat>, d: Related, done: set<(nat, nat)>,
                            e: (nat, nat), gp: nat, cp: nat)
    requires Dicts.Valid(d) && RelatedComplete(s, pos, d, done)
    ensures RelatedComplete(s, pos, AddRelated(d, NameOf(s, e.0), gp, NameOf(s, e.1), cp), done + {e})
  {
    AddRelatedSpec(d, NameOf(s, e.0), gp, NameOf(s, e.1), cp);
  }

  /** An edge with an end not selected leaves `related` as it was. */
  lemma RelatedSkip(s: Store, ids: seq<nat>, pos: map<nat, nat>, d: Related, done: set<(nat, nat)>,
                    e: (nat, nat))
    requires RelatedOk(s, ids, pos, d, done) && !Induced(s, pos, e)
    ensures RelatedOk(s, ids, pos, d, done + {e})
  {
    forall n, m | n in d.items && m in d.items[n].1
      ensures exists x :: x in done + {e} && Induced(s, pos, x) && NameOf(s, x.0) == n && NameOf(s, x.1) == m
    {
      var x :| x in done && Induced(s, pos, x) && NameOf(s, x.0) == n && NameOf(s, x.1) == m;
      assert x in done + {e};
    }
  }

  /** The edges `add_records` inserts for `related`: one per (gene entry, child entry). */
  ghost function NewEdges(d: Related): set<(nat, nat)> {
    set n, m | n in d.items && m in d.items[n].1 :: (d.items[n].0 + 1, d.items[n].1[m] + 1)
  }

  /**
   * Every new edge joins two selected records, the one at place `k`
   * having the new id `k + 1`, whose names are those of the ends of an
   * induced edge of the source.
   */
  ghost predicate SubsetSound(s: Store, ids: seq<nat>, pos: map<nat, nat>, edges: set<(nat, nat)>) {
    forall x :: x in edges ==>
      1 <= x.0 <= |ids| && 1 <= x.1 <= |ids|
      && exists e :: Induced(s, pos, e) && NameOf(s, e.0) == NameOf(s, ids[x.0 - 1])
                     && NameOf(s, e.1) == NameOf(s, ids[x.1 - 1])
  }

  /** Every induced edge of the source has a new edge between records of the same names. */
  ghost predicate SubsetComplete(s: Store, ids: seq<nat>, pos: map<nat, nat>, edges: set<(nat, nat)>) {
    forall e :: Induced(s, pos, e) ==>
      exists x :: x in edges && 1 <= x.0 <= |ids| && 1 <= x.1 <= |ids|
                  && NameOf(s, ids[x.0 - 1]) == NameOf(s, e.0) && NameOf(s, ids[x.1 - 1]) == NameOf(s, e.1)
  }

  /** The edges of the store `subset` returns: the induced edges, up to names. */
  ghost predicate SubsetEdges(s: Store, ids: seq<nat>, pos: map<nat, nat>, edges: set<(nat, nat)>) {
    SubsetSound(s, ids, pos, edges) && SubsetComplete(s, ids, pos, edges)
  }

  /** Once every edge is read, the inserted edges are the induced edges up to names. */
  lemma RelatedEdges(s: Store, ids: seq<nat>, pos: map<nat, nat>, d: Related)
    requires RelatedOk(s, ids, pos, d, s.edges)
    ensures SubsetEdges(s, ids, pos, NewEdges(d))
  {
    NewEdgesSound(s, ids, pos, d);
    NewEdgesComplete(s, ids, pos, d);
  }

  lemma NewEdgesSound(s: Store, ids: seq<nat>, pos: map<nat, nat>, d: Related)
    requires RelatedNames(s, ids, d) && RelatedSound(s, pos, d, s.edges)
    ensures SubsetSound(s, ids, pos, NewEdges(d))
  {
    forall x | x in NewEdges(d)
      ensures 1 <= x.0 <= |ids| && 1 <= x.1 <= |ids|
      ensures exists e :: Induced(s, pos, e) && NameOf(s, e.0) == NameOf(s, ids[x.0 - 1])
                          && NameOf(s, e.1) == NameOf(s, ids[x.1 - 1])
    {
      var e := NewEdgeSource(s, ids, pos, d, x);
    }
  }

  /** The induced edge a new edge stands for, through its (gene entry, child entry). */
  lemma NewEdgeSource(s: Store, ids: seq<nat>, pos: map<nat, nat>, d: Related, x: (nat, nat)) returns (e: (nat, nat))
    requires RelatedNames(s, ids, d) && RelatedSound(s, pos, d, s.edges) && x in NewEdges(d)
    ensures 1 <= x.0 <= |ids| && 1 <= x.1 <= |ids| && Induced(s, pos, e)
    ensures NameOf(s, e.0) == NameOf(s, ids[x.0 - 1]) && NameOf(s, e.1) == NameOf(s, ids[x.1 - 1])
  {
    var n, m := NewEdgeEntry(d, x);
    EntryNames(s, ids, d, n, m);
    e := EntryEdge(s, pos, d, n, m);
  }

  /** The induced edge a (gene entry, child entry) of `related` comes from. */
  lemma EntryEdge(s: Store, pos: map<nat, nat>, d: Related, n: string, m: string) returns (e: (nat, nat))
    requires RelatedSound(s, pos, d, s.edges) && n in d.items && m in d.items[n].1
    ensures Induced(s, pos, e) && NameOf(s, e.0) == n && NameOf(s, e.1) == m
  {
    e :| e in s.edges && Induced(s, pos, e) && NameOf(s, e.0) == n && NameOf(s, e.1) == m;
  }

  /** The (gene entry, child entry) a new edge comes from. */
  lemma NewEdgeEntry(d: Related, x: (nat, nat)) returns (n: string, m: string)
    requires x in NewEdges(d)
    ensures n in d.items && m in d.items[n].1 && x == (d.items[n].0 + 1, d.items[n].1[m] + 1)
  {
    n, m :| n in d.items && m in d.items[n].1 && x == (d.items[n].0 + 1, d.items[n].1[m] + 1);
  }

  lemma EntryNames(s: Store, ids: seq<nat>, d: Related, n: string, m: string)
    requires RelatedNames(s, ids, d) && n in d.items && m in d.items[n].1
    ensures d.items[n].0 < |ids| && NameOf(s, ids[d.items[n].0]) == n
    ensures d.items[n].1[m] < |ids| && NameOf(s, ids[d.items[n].1[m]]) == m
  {
  }

  lemma NewEdgesComplete(s: Store, ids: seq<nat>, pos: map<nat, nat>, d: Related)
    requires RelatedNames(s, ids, d) && RelatedComplete(s, pos, d, s.edges)
    ensures SubsetComplete(s, ids, pos, NewEdges(d))
  {
    forall e | Induced(s, pos, e)
      ensures exists x :: x in NewEdges(d) && 1 <= x.0 <= |ids| && 1 <= x.1 <= |ids|
                          && NameOf(s, ids[x.0 - 1]) == NameOf(s, e.0) && NameOf(s, ids[x.1 - 1]) == NameOf(s, e.1)
    {
      var x := EdgeEntry(s, ids, pos, d, e);
    }
  }

  /** The new edge an induced edge is entered as. */
  lemma EdgeEntry(s: Store, ids: seq<nat>, pos: map<nat, nat>, d: Related, e: (nat, nat)) returns (x: (nat, nat))
    requires RelatedNames(s, ids, d) && RelatedComplete(s, pos, d, s.edges) && Induced(s, pos, e)
    ensures x in NewEdges(d) && 1 <= x.0 <= |ids| && 1 <= x.1 <= |ids|
    ensures NameOf(s, ids[x.0 - 1]) == NameOf(s, e.0) && NameOf(s, ids[x.1 - 1]) == NameOf(s, e.1)
  {
    var n, m := NameOf(s, e.0), NameOf(s, e.1);
    EntryNames(s, ids, d, n, m);
    x := (d.items[n].0 + 1, d.items[n].1[m] + 1);
  }

  /** The selected records have pairwise different names. */
  ghost predicate DistinctNames(s: Store, ids: seq<nat>) {
    forall i, j :: 0 <= i < |ids| && 0 <= j < |ids| && NameOf(s, ids[i]) == NameOf(s, ids[j]) ==> i == j
  }

  lemma DistinctAt(s: Store, ids: seq<nat>, i: nat, j: nat)
    requires DistinctNames(s, ids) && i < |ids| && j < |ids| && NameOf(s, ids[i]) == NameOf(s, ids[j])
    ensures i == j
  {
  }

  /** The source edges between two selected records, renumbered by place. */
  ghost function InducedEdges(s: Store, pos: map<nat, nat>): set<(nat, nat)> {
    set e | e in s.edges && e.0 in pos && e.1 in pos :: (pos[e.0] + 1, pos[e.1] + 1)
  }

  /** Under distinct names, a new edge between the names of an induced edge is that edge renumbered. */
  lemma SamePlaces(s: Store, ids: seq<nat>, pos: map<nat, nat>, x: (nat, nat), e: (nat, nat))
    requires PosValid(ids, pos) && DistinctNames(s, ids) && Induced(s, pos, e)
    requires 1 <= x.0 <= |ids| && 1 <= x.1 <= |ids|
    requires NameOf(s, e.0) == NameOf(s, ids[x.0 - 1]) && NameOf(s, e.1) == NameOf(s, ids[x.1 - 1])
    ensures x == (pos[e.0] + 1, pos[e.1] + 1)
  {
    assert pos[e.0] < |ids| && ids[pos[e.0]] == e.0;
    assert pos[e.1] < |ids| && ids[pos[e.1]] == e.1;
    DistinctAt(s, ids, pos[e.0], x.0 - 1);
    DistinctAt(s, ids, pos[e.1], x.1 - 1);
  }

  /**
   * When the selected records have pairwise different names, the edges of
   * the subset are exactly the source edges between two selected records,
   * renumbered by place.
   */
  lemma SubsetEdgesExact(s: Store, ids: seq<nat>, pos: map<nat, nat>, edges: set<(nat, nat)>)
    requires PosValid(ids, pos) && DistinctNames(s, ids) && SubsetEdges(s, ids, pos, edges)
    ensures edges == InducedEdges(s, pos)
  {
    ExactSound(s, ids, pos, edges);
    ExactComplete(s, ids, pos, edges);
  }

  lemma ExactSound(s: Store, ids: seq<nat>, pos: map<nat, nat>, edges: set<(nat, nat)>)
    requires PosValid(ids, pos) && DistinctNames(s, ids) && SubsetSound(s, ids, pos, edges)
    ensures edges <= InducedEdges(s, pos)
  {
    forall x | x in edges ensures x in InducedEdges(s, pos) {
      var e := SoundWitness(s, ids, pos, edges, x);
      SamePlaces(s, ids, pos, x, e);
      assert e in s.edges && e.0 in pos && e.1 in pos;
    }
  }

  /** The induced edge a new edge stands for. */
  lemma SoundWitness(s: Store, ids: seq<nat>, pos: map<nat, nat>, edges: set<(nat, nat)>, x: (nat, nat))
    returns (e: (nat, nat))
    requires SubsetSound(s, ids, pos, edges) && x in edges
    ensures 1 <= x.0 <= |ids| && 1 <= x.1 <= |ids| && Induced(s, pos, e)
    ensures NameOf(s, e.0) == NameOf(s, ids[x.0 - 1]) && NameOf(s, e.1) == NameOf(s, ids[x.1 - 1])
  {
    e :| Induced(s, pos, e) && NameOf(s, e.0) == NameOf(s, ids[x.0 - 1])
         && NameOf(s, e.1) == NameOf(s, ids[x.1 - 1]);
  }

  lemma ExactComplete(s: Store, ids: seq<nat>, pos: map<nat, nat>, edges: set<(nat, nat)>)
    requires PosValid(ids, pos) && DistinctNames(s, ids) && SubsetComplete(s, ids, pos, edges)
    ensures InducedEdges(s, pos) <= edges
  {
    forall x | x in InducedEdges(s, pos) ensures x in edges {
      var e :| e in s.edges && e.0 in pos && e.1 in pos && x == (pos[e.0] + 1, pos[e.1] + 1);
      assert Induced(s, pos, e);
      var y :| y in edges && 1 <= y.0 <= |ids| && 1 <= y.1 <= |ids|
               && NameOf(s, ids[y.0 - 1]) == NameOf(s, e.0) && NameOf(s, ids[y.1 - 1]) == NameOf(s, e.1);
      SamePlaces(s, ids, pos, y, e);
    }
  }

  /** One row of `get_feature_children` or `get_feature_parent`. */
  datatype FeatureData = FeatureData(seqid: string, biotype: string, spans: seq<Span>, strand: string, name: string)

  /**
   * The columns of the feature with id `id` the two queries return (its
   * biotype text through the biotype join).
   */
  function DataOf(s: Store, id: nat): FeatureData
    requires 1 <= id <= |s.features|
  {
    var f := s.features[id - 1];
    var biotype := if 1 <= f.biotypeId <= |s.biotypes| then s.biotypes[f.biotypeId - 1] else "";
    FeatureData(f.seqid, biotype, f.spans, f.strand, f.stableId)
  }

  /**
   * `Children(cond)` reads the `parent_to_child` view: it matches on the
   * gene end of an edge, returns the related end, and keeps a row only
   * when its columns pass `cond`, the further `**kwargs` conditions of
   * `get_feature_children`. `Parents` reads `child_to_parent` the other way
   * round with no further condition, as `get_feature_parent` drops its
   * `**kwargs`.
   */
  datatype Direction = Children(cond: GffRow -> bool) | Parents

  function MatchedEnd(e: (nat, nat), dir: Direction): nat {
    if dir.Children? then e.0 else e.1
  }

  function ReturnedEnd(e: (nat, nat), dir: Direction): nat {
    if dir.Children? then e.1 else e.0
  }

  /**
   * The columns of the feature with id `id` as a row of the two views
   * shows them, for the conditions of `get_feature_children`.
   */
  function EndRow(s: Store, id: nat): GffRow
    requires 1 <= id <= |s.features|
  {
    var f := s.features[id - 1];
    var biotype := if 1 <= f.biotypeId <= |s.biotypes| then s.biotypes[f.biotypeId - 1] else "";
    GffRow(f.seqid, biotype, f.start, f.stop, f.strand, f.spans, f.stableId, f.isCanonical, id)
  }

  /** The returned end of `e` passes the query's further conditions. */
  function Passes(s: Store, dir: Direction, e: (nat, nat)): bool
    requires 1 <= ReturnedEnd(e, dir) <= |s.features|
  {
    dir.Parents? || dir.cond(EndRow(s, ReturnedEnd(e, dir)))
  }

  /**
   * Edge `e` is a row of the view the query selects: both ends exist, the
   * matched end is named `name` and the returned end passes the conditions.
   */
  ghost predicate Hit(s: Store, name: string, dir: Direction, e: (nat, nat)) {
    e in s.edges && 1 <= e.0 <= |s.features| && 1 <= e.1 <= |s.features|
    && NameOf(s, MatchedEnd(e, dir)) == name && Passes(s, dir, e)
  }

  /** `results` is keyed by the name of the row it holds. */
  ghost predicate ResultsKeyed(r: Dict<string, FeatureData>) {
    Dicts.Valid(r) && forall n :: n in r.items ==> r.items[n].name == n
  }

  /**
   * Every row in `results` is the returned end of a selected edge in
   * `done`, the one `from` records for its name.
   */
  ghost predicate ResultsSound(s: Store, name: string, dir: Direction, r: Dict<string, FeatureData>,
                               from: map<string, (nat, nat)>, done: set<(nat, nat)>) {
    forall n :: n in r.items ==>
      n in from && from[n] in done && Hit(s, name, dir, from[n])
      && DataOf(s, ReturnedEnd(from[n], dir)) == r.items[n]
  }

  /** Every selected edge in `done` has the name of its returned end in `results`. */
  ghost predicate ResultsComplete(s: Store, name: string, dir: Direction, r: Dict<string, FeatureData>,
                                  done: set<(nat, nat)>) {
    forall e :: e in done && Hit(s, name, dir, e) ==> NameOf(s, ReturnedEnd(e, dir)) in r.items
  }

  /** The `results` dict once the rows for the edges in `done` are read. */
  ghost predicate ResultsOk(s: Store, name: string, dir: Direction, r: Dict<string, FeatureData>,
                            from: map<string, (nat, nat)>, done: set<(nat, nat)>) {
    ResultsKeyed(r) && ResultsSound(s, name, dir, r, from, done)
    && ResultsComplete(s, name, dir, r, done)
  }

  /** The condition the query loop tests on an edge of the store: `Hit` with the name compared on the stored row. */
  function Selects(s: Store, name: string, dir: Direction, e: (nat, nat)): bool {
    1 <= e.0 <= |s.features| && 1 <= e.1 <= |s.features| && s.features[MatchedEnd(e, dir) - 1].stableId == name
    && Passes(s, dir, e)
  }

  /** One more edge of the store read by the query loop keeps `ResultsOk`. */
  lemma QueryStep(s: Store, name: string, dir: Direction, r: Dict<string, FeatureData>,
                  from: map<string, (nat, nat)>, todo: set<(nat, nat)>, e: (nat, nat))
    requires todo <= s.edges && e in todo && ResultsOk(s, name, dir, r, from, s.edges - todo)
    ensures Selects(s, name, dir, e) ==>
      var d := DataOf(s, ReturnedEnd(e, dir));
      ResultsOk(s, name, dir, Put(r, d.name, d), from[d.name := e], s.edges - (todo - {e}))
    ensures !Selects(s, name, dir, e) ==> ResultsOk(s, name, dir, r, from, s.edges - (todo - {e}))
  {
    var done := s.edges - todo;
    assert done + {e} == s.edges - (todo - {e});
    assert Selects(s, name, dir, e) <==> Hit(s, name, dir, e);
    ResultsStep(s, name, dir, r, from, done, e);
  }

  lemma ResultsEmpty(s: Store, name: string, dir: Direction)
    ensures ResultsOk(s, name, dir, Dicts.Empty(), map[], {})
  {
  }

  /** `results[result["name"]] = result` for the row of one more edge keeps `ResultsOk`. */
  lemma ResultsStep(s: Store, name: string, dir: Direction, r: Dict<string, FeatureData>,
                    from: map<string, (nat, nat)>, done: set<(nat, nat)>, e: (nat, nat))
    requires ResultsOk(s, name, dir, r, from, done)
    ensures Hit(s, name, dir, e) ==>
      var d := DataOf(s, ReturnedEnd(e, dir));
      ResultsOk(s, name, dir, Put(r, d.name, d), from[d.name := e], done + {e})
    ensures !Hit(s, name, dir, e) ==> ResultsOk(s, name, dir, r, from, done + {e})
  {
    if Hit(s, name, dir, e) {
      var d := DataOf(s, ReturnedEnd(e, dir));
      ResultsKeyedPut(r, d);
      ResultsCompletePut(s, name, dir, r, done, e);
      ResultsSoundPut(s, name, dir, r, from, done, e);
    } else {
      ResultsMore(s, name, dir, r, from, done, e);
    }
  }

  lemma ResultsSoundPut(s: Store, name: string, dir: Direction, r: Dict<string, FeatureData>,
                        from: map<string, (nat, nat)>, done: set<(nat, nat)>, e: (nat, nat))
    requires Dicts.Valid(r) && ResultsSound(s, name, dir, r, from, done) && Hit(s, name, dir, e)
    ensures var d := DataOf(s, ReturnedEnd(e, dir));
      ResultsSound(s, name, dir, Put(r, d.name, d), from[d.name := e], done + {e})
  {
    var d := DataOf(s, ReturnedEnd(e, dir));
    var r' := Put(r, d.name, d);
    var from' := from[d.name := e];
    forall n | n in r'.items
      ensures n in from' && from'[n] in done + {e} && Hit(s, name, dir, from'[n])
              && DataOf(s, ReturnedEnd(from'[n], dir)) == r'.items[n]
    {
      if n != d.name {
        assert n in r.items;
      }
    }
  }

  /** An edge the query does not select leaves `results` as it is. */
  lemma ResultsMore(s: Store, name: string, dir: Direction, r: Dict<string, FeatureData>,
                    from: map<string, (nat, nat)>, done: set<(nat, nat)>, e: (nat, nat))
    requires ResultsOk(s, name, dir, r, from, done) && !Hit(s, name, dir, e)
    ensures ResultsOk(s, name, dir, r, from, done + {e})
  {
    assert ResultsComplete(s, name, dir, r, done + {e});
  }

  lemma ResultsKeyedPut(r: Dict<string, FeatureData>, d: FeatureData)
    requires ResultsKeyed(r)
    ensures ResultsKeyed(Put(r, d.name, d))
  {
  }

  lemma ResultsCompletePut(s: Store, name: string, dir: Direction, r: Dict<string, FeatureData>,
                           done: set<(nat, nat)>, e: (nat, nat))
    requires Dicts.Valid(r) && ResultsComplete(s, name, dir, r, done) && Hit(s, name, dir, e)
    ensures var d := DataOf(s, ReturnedEnd(e, dir));
      ResultsComplete(s, name, dir, Put(r, d.name, d), done + {e})
  {
    NameOfData(s, ReturnedEnd(e, dir));
  }

  lemma NameOfData(s: Store, id: nat)
    requires 1 <= id <= |s.features|
    ensures DataOf(s, id).name == NameOf(s, id)
  {
  }

  /** The rows returned have pairwise different names. */
  ghost predicate OneRowPerName(out: seq<FeatureData>) {
    forall i, j :: 0 <= i < |out| && 0 <= j < |out| && out[i].name == out[j].name ==> i == j
  }

  /** Every row returned is the returned end of an edge whose matched end is named `name`. */
  ghost predicate QuerySound(s: Store, name: string, dir: Direction, out: seq<FeatureData>, via: seq<(nat, nat)>) {
    |via| == |out|
    && forall i :: 0 <= i < |out| ==> Hit(s, name, dir, via[i]) && DataOf(s, ReturnedEnd(via[i], dir)) == out[i]
  }

  /** Every edge whose matched end is named `name` has its returned end's name among the rows. */
  ghost predicate QueryComplete(s: Store, name: string, dir: Direction, out: seq<FeatureData>) {
    forall e :: Hit(s, name, dir, e) ==>
      exists i :: 0 <= i < |out| && out[i].name == NameOf(s, ReturnedEnd(e, dir))
  }

  /**
   * What `get_feature_children` and `get_feature_parent` return; `via`
   * names, row by row, the view row each returned row was read from.
   */
  ghost predicate QueryResult(s: Store, name: string, dir: Direction, out: seq<FeatureData>, via: seq<(nat, nat)>) {
    OneRowPerName(out) && QuerySound(s, name, dir, out, via) && QueryComplete(s, name, dir, out)
  }

  /** The edge each row of `results` was read from, in key order. */
  ghost function Via(r: Dict<string, FeatureData>, from: map<string, (nat, nat)>): seq<(nat, nat)> {
    seq(|r.keys|, i requires 0 <= i < |r.keys| => if r.keys[i] in from then from[r.keys[i]] else (0, 0))
  }

  /** `list(results.values())` once every edge is read. */
  lemma ResultsValues(s: Store, name: string, dir: Direction, r: Dict<string, FeatureData>,
                      from: map<string, (nat, nat)>)
    requires ResultsOk(s, name, dir, r, from, s.edges)
    ensures QueryResult(s, name, dir, Values(r), Via(r, from))
  {
    ValuesOneRow(r);
    ValuesSound(s, name, dir, r, from);
    ValuesComplete(s, name, dir, r);
  }

  lemma ValuesOneRow(r: Dict<string, FeatureData>)
    requires ResultsKeyed(r)
    ensures OneRowPerName(Values(r))
  {
    var out := Values(r);
    forall i | 0 <= i < |out| ensures out[i].name == r.keys[i] {
      assert r.keys[i] in r.items;
    }
  }

  lemma ValuesSound(s: Store, name: string, dir: Direction, r: Dict<string, FeatureData>,
                    from: map<string, (nat, nat)>)
    requires Dicts.Valid(r) && ResultsSound(s, name, dir, r, from, s.edges)
    ensures QuerySound(s, name, dir, Values(r), Via(r, from))
  {
    var out, via := Values(r), Via(r, from);
    forall i | 0 <= i < |out| ensures Hit(s, name, dir, via[i]) && DataOf(s, ReturnedEnd(via[i], dir)) == out[i] {
      assert r.keys[i] in r.items;
    }
  }

  lemma ValuesComplete(s: Store, name: string, dir: Direction, r: Dict<string, FeatureData>)
    requires ResultsKeyed(r) && ResultsComplete(s, name, dir, r, s.edges)
    ensures QueryComplete(s, name, dir, Values(r))
  {
    var out := Values(r);
    forall e | Hit(s, name, dir, e)
      ensures exists i :: 0 <= i < |out| && out[i].name == NameOf(s, ReturnedEnd(e, dir))
    {
      var i := KeyPlace(r, NameOf(s, ReturnedEnd(e, dir)));
      assert out[i].name == NameOf(s, ReturnedEnd(e, dir));
    }
  }

  /** The place of key `n` in the dict's order. */
  lemma KeyPlace<V>(r: Dict<string, V>, n: string) returns (i: nat)
    requires Dicts.Valid(r) && n in r.items
    ensures i < |r.keys| && r.keys[i] == n
  {
    i :| 0 <= i < |r.keys| && r.keys[i] == n;
  }

  /** Every feature of the store has its own `stableid`. */
  ghost predicate UniqueNames(s: Store) {
    forall a, b :: 1 <= a <= |s.features| && 1 <= b <= |s.features| && NameOf(s, a) == NameOf(s, b) ==> a == b
  }

  /**
   * When every feature has its own name, every selected edge's returned
   * end is among the rows returned, so the rows are exactly those ends.
   */
  lemma QueryResultExact(s: Store, name: string, dir: Direction, out: seq<FeatureData>, via: seq<(nat, nat)>,
                          e: (nat, nat))
    requires QueryResult(s, name, dir, out, via) && UniqueNames(s) && Hit(s, name, dir, e)
    ensures DataOf(s, ReturnedEnd(e, dir)) in out
  {
    var i := CompleteRow(s, name, dir, out, e);
    var x := via[i];
    var a, b := ReturnedEnd(x, dir), ReturnedEnd(e, dir);
    assert 1 <= a <= |s.features| && 1 <= b <= |s.features|;
    NameOfData(s, a);
    assert NameOf(s, a) == out[i].name == NameOf(s, b);
    UniqueAt(s, a, b);
    assert out[i] == DataOf(s, b);
  }

  lemma CompleteRow(s: Store, name: string, dir: Direction, out: seq<FeatureData>, e: (nat, nat)) returns (i: nat)
    requires QueryComplete(s, name, dir, out) && Hit(s, name, dir, e)
    ensures i < |out| && out[i].name == NameOf(s, ReturnedEnd(e, dir))
  {
    i :| 0 <= i < |out| && out[i].name == NameOf(s, ReturnedEnd(e, dir));
  }

  lemma UniqueAt(s: Store, a: nat, b: nat)
    requires UniqueNames(s) && 1 <= a <= |s.features| && 1 <= b <= |s.features| && NameOf(s, a) == NameOf(s, b)
    ensures a == b
  {
  }
}
