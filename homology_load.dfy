/**
 * The loader `load_homologies` of `src/ensembl_lite/_homologydb.py`: rows
 * of an Ensembl homology table whose two species are both allowed become
 * (type, gene, homolog gene) triples, which `grouped_related` clusters.
 *
 * The tab-separated parser is not modelled; a row is the five selected
 * columns, in the order of `src_cols`.
 */
module HomologyLoad {
  import opened Outcomes
  import opened HomologGroups

  datatype Row = Row(homologyType: string, species: string, geneStableId: string,
                     homologySpecies: string, homologyGeneStableId: string)

  /** `src_cols`, the header the loader expects. */
  const SrcCols: seq<string> :=
    ["homology_type", "species", "gene_stable_id", "homology_species", "homology_gene_stable_id"]

  /** `_matching_species`: both species of the row are allowed. */
  function MatchingSpecies(row: Row, allowed: set<string>): (keep: bool)
    ensures keep <==> row.species in allowed && row.homologySpecies in allowed
  {
    {row.species, row.homologySpecies} <= allowed
  }

  /** The rows the parser's row condition lets through, in order. */
  function Kept(rows: seq<Row>, allowed: set<string>): seq<Row>
    decreases |rows|
  {
    if rows == [] then []
    else
      var n := |rows| - 1;
      Kept(rows[..n], allowed) + (if MatchingSpecies(rows[n], allowed) then [rows[n]] else [])
  }

  /** A row is kept iff it is one of the rows and both its species are allowed. */
  lemma {:induction false} KeptSpec(rows: seq<Row>, allowed: set<string>)
    ensures forall row :: row in Kept(rows, allowed) <==> row in rows && MatchingSpecies(row, allowed)
    decreases |rows|
  {
    if rows != [] {
      var n := |rows| - 1;
      KeptSpec(rows[..n], allowed);
      assert rows == rows[..n] + [rows[n]];
    }
  }

  /** `(row[0], row[2], row[4])` for every row. */
  function Triples(rows: seq<Row>): (ts: seq<Triple>)
    ensures |ts| == |rows|
    ensures forall i :: 0 <= i < |rows| ==>
      ts[i] == Triple(rows[i].homologyType, rows[i].geneStableId, rows[i].homologyGeneStableId)
  {
    seq(|rows|, i requires 0 <= i < |rows| => Triple(rows[i].homologyType, rows[i].geneStableId, rows[i].homologyGeneStableId))
  }

  /** The row's two genes, when it is of type `r`. */
  ghost predicate RowHas(row: Row, r: string, x: string) {
    row.homologyType == r && (x == row.geneStableId || x == row.homologyGeneStableId)
  }

  /** The types of the triples are the types of the rows. */
  lemma {:induction false} TriplesTypes(rows: seq<Row>)
    ensures forall r :: r in RelTypes(Triples(rows)) <==> exists row :: row in rows && row.homologyType == r
    decreases |rows|
  {
    if rows != [] {
      var n := |rows| - 1;
      TriplesTypes(rows[..n]);
      assert Triples(rows)[..n] == Triples(rows[..n]);
      assert rows == rows[..n] + [rows[n]];
    }
  }

  /** The genes of type `r` of the triples are the genes of the rows of type `r`. */
  lemma {:induction false} TriplesGenes(rows: seq<Row>, r: string)
    ensures forall x :: x in Genes(Triples(rows), r) <==> exists row :: row in rows && RowHas(row, r, x)
    decreases |rows|
  {
    if rows != [] {
      var n := |rows| - 1;
      TriplesGenes(rows[..n], r);
      var ts := Triples(rows);
      assert ts[..n] == Triples(rows[..n]);
      assert ts[n] == Triple(rows[n].homologyType, rows[n].geneStableId, rows[n].homologyGeneStableId);
      assert Genes(ts, r) == Genes(ts[..n], r) + (if ts[n].relType == r then {ts[n].gene1, ts[n].gene2} else {});
      forall x ensures x in Genes(ts, r) <==> exists row :: row in rows && RowHas(row, r, x) {
        if row :| row in rows && RowHas(row, r, x) {
          if row != rows[n] {
            assert row in rows[..n];
          }
        }
        if x in Genes(ts[..n], r) {
          var row :| row in rows[..n] && RowHas(row, r, x);
          assert row in rows;
        } else if x in Genes(ts, r) {
          assert RowHas(rows[n], r, x);
        }
      }
    }
  }

  /**
   * `main`: the header must be `src_cols` (an `AssertionError` otherwise);
   * the kept rows' triples are grouped by `grouped_related`.
   */
  method LoadHomologies(header: seq<string>, rows: seq<Row>, allowed: set<string>)
    returns (r: Result<map<string, seq<Group>>, string>)
    ensures r.Failure? <==> header != SrcCols
    ensures r.Success? ==> r.value == Reduce(Fold(Triples(Kept(rows, allowed))))
  {
    if header != SrcCols {
      return Failure("header does not match src_cols");
    }
    var grouped := GroupedRelated(Triples(Kept(rows, allowed)));
    r := Success(grouped);
  }

  /** `x` is in one of the groups. */
  ghost predicate InGroups(gs: seq<Group>, x: string) {
    exists k :: 0 <= k < |gs| && x in gs[k].geneIds
  }

  /** An allowed row of type `r` names `x`. */
  ghost predicate Named(rows: seq<Row>, allowed: set<string>, r: string, x: string) {
    exists row :: row in rows && MatchingSpecies(row, allowed) && RowHas(row, r, x)
  }

  /**
   * What the loader gives: one entry per type of an allowed row; every
   * group under a type carries it; and a gene is in some group of a type
   * iff an allowed row of that type names it.
   */
  lemma LoadedSpec(rows: seq<Row>, allowed: set<string>)
    ensures var out := Reduce(Fold(Triples(Kept(rows, allowed))));
      (forall r :: r in out <==> exists row :: row in rows && MatchingSpecies(row, allowed) && row.homologyType == r)
      && (forall r :: r in out ==> Labelled(out[r], r))
      && (forall r, x :: r in out ==> (InGroups(out[r], x) <==> Named(rows, allowed, r, x)))
  {
    var kept: seq<Row> := Kept(rows, allowed);
    var data: seq<Triple> := Triples(kept);
    var out: map<string, seq<Group>> := Reduce(Fold(data));
    KeptSpec(rows, allowed);
    GroupedKeys(data);
    TriplesTypes(kept);
    forall r | r in out
      ensures Labelled(out[r], r) && forall x :: InGroups(out[r], x) <==> Named(rows, allowed, r, x)
    {
      LoadedType(rows, allowed, r);
    }
  }

  lemma LoadedType(rows: seq<Row>, allowed: set<string>, r: string)
    requires r in Reduce(Fold(Triples(Kept(rows, allowed))))
    ensures var out := Reduce(Fold(Triples(Kept(rows, allowed))));
      Labelled(out[r], r) && forall x :: InGroups(out[r], x) <==> Named(rows, allowed, r, x)
  {
    var kept: seq<Row> := Kept(rows, allowed);
    var data: seq<Triple> := Triples(kept);
    KeptSpec(rows, allowed);
    GroupedKeys(data);
    GroupedGenes(data, r);
    TriplesGenes(kept, r);
    var out := Reduce(Fold(data));
    forall x ensures InGroups(out[r], x) <==> Named(rows, allowed, r, x) {
      assert InGroups(out[r], x) <==> x in Genes(data, r);
      if Named(rows, allowed, r, x) {
        var row :| row in rows && MatchingSpecies(row, allowed) && RowHas(row, r, x);
        assert row in kept;
      }
      if x in Genes(data, r) {
        var row :| row in kept && RowHas(row, r, x);
        assert row in rows && MatchingSpecies(row, allowed);
      }
    }
  }
}
