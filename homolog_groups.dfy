/**
 * Homology groups of `src/ensembl_lite/_homologydb.py`: `homolog_group`
 * and its union, `grouped_related`, which clusters (relationship type,
 * gene, gene) triples in one pass, `merge_grouped`, which combines two such
 * clusterings, and the species filter of `load_homologies`.
 *
 * A `homolog_group` hashes by the identity of its gene set, and its set is
 * updated in place while genes keep pointing at it; the model keeps the
 * groups of `grouped_related` in an arena and lets genes point at arena
 * slots, so that two slots are two objects even when their sets are equal.
 */
module HomologGroups {
  import opened Outcomes

  /** `homolog_group`: a relationship label and a set of gene ids (`None` is the empty set). */
  datatype Group = Group(relationship: string, geneIds: set<string>)

  /** Every group of the series carries the label `r`. */
  ghost predicate Labelled(series: seq<Group>, r: string) {
    forall k :: 0 <= k < |series| ==> series[k].relationship == r
  }

  /**
   * `g1 | g2`: a `ValueError` when the labels differ, else a new group with
   * the same label holding the genes of both.
   */
  function Union(g1: Group, g2: Group): (r: Result<Group, string>)
    ensures r.Success? <==> g1.relationship == g2.relationship
    ensures r.Success? ==> r.value.relationship == g1.relationship
    ensures r.Success? ==> forall x :: x in r.value.geneIds <==> x in g1.geneIds || x in g2.geneIds
  {
    if g2.relationship != g1.relationship then
      Failure("ValueError: relationship type " + g1.relationship + " != " + g2.relationship)
    else Success(Group(g1.relationship, g1.geneIds + g2.geneIds))
  }

  /** The union is commutative and idempotent, and either side of a failed union fails the other way round. */
  lemma UnionLaws(g1: Group, g2: Group)
    ensures Union(g1, g2).Success? <==> Union(g2, g1).Success?
    ensures Union(g1, g2).Success? ==> Union(g1, g2) == Union(g2, g1)
    ensures Union(g1, g1) == Success(g1)
  {
    if g1.relationship == g2.relationship {
      assert g1.geneIds + g2.geneIds == g2.geneIds + g1.geneIds;
    }
    assert g1.geneIds + g1.geneIds == g1.geneIds;
  }

  /** One input row of `grouped_related`: (relationship type, gene id 1, gene id 2). */
  datatype Triple = Triple(relType: string, gene1: string, gene2: string)

  /**
   * The state of `grouped_related` part way: the group objects created so
   * far, and for each relationship type the slot of the group each gene was
   * last mapped to.
   */
  datatype Grouping = Grouping(arena: seq<Group>, index: map<string, map<string, nat>>)

  /** Each gene points at a group of its own type that holds it. */
  ghost predicate GroupingValid(st: Grouping) {
    forall r, g :: r in st.index && g in st.index[r] ==>
      st.index[r][g] < |st.arena| && st.arena[st.index[r][g]].relationship == r
      && g in st.arena[st.index[r][g]].geneIds
  }

  /** `grouped.get(rel_type, {})`. */
  function GenesOfType(st: Grouping, r: string): map<string, nat> {
    if r in st.index then st.index[r] else map[]
  }

  /**
   * The slot a triple goes to: the group of `gene_id_1`, else the group of
   * `gene_id_2`, else a new group at the end of the arena.
   */
  function Target(st: Grouping, t: Triple): (slot: nat)
    requires GroupingValid(st)
    ensures slot <= |st.arena|
  {
    var rel := GenesOfType(st, t.relType);
    if t.gene1 in rel then rel[t.gene1] else if t.gene2 in rel then rel[t.gene2] else |st.arena|
  }

  /** One turn of the first loop: the target group takes both genes and both genes point at it. */
  function Step(st: Grouping, t: Triple): Grouping
    requires GroupingValid(st)
  {
    var rel := GenesOfType(st, t.relType);
    var slot := Target(st, t);
    var arena := if slot == |st.arena| then st.arena + [Group(t.relType, {})] else st.arena;
    Grouping(arena[slot := Group(arena[slot].relationship, arena[slot].geneIds + {t.gene1, t.gene2})],
             st.index[t.relType := rel[t.gene1 := slot][t.gene2 := slot]])
  }

  lemma StepValid(st: Grouping, t: Triple)
    requires GroupingValid(st)
    ensures GroupingValid(Step(st, t))
  {
    var s := Step(st, t);
    var slot := Target(st, t);
    assert s.arena[slot].relationship == t.relType by {
      if slot < |st.arena| {
        var rel := GenesOfType(st, t.relType);
        assert t.relType in st.index;
        assert (t.gene1 in rel && slot == rel[t.gene1]) || (t.gene2 in rel && slot == rel[t.gene2]);
      }
    }
    forall r, g | r in s.index && g in s.index[r]
      ensures s.index[r][g] < |s.arena| && s.arena[s.index[r][g]].relationship == r
        && g in s.arena[s.index[r][g]].geneIds
    {
      if r != t.relType || (g != t.gene1 && g != t.gene2) {
        assert r in st.index && g in st.index[r] && s.index[r][g] == st.index[r][g];
        var i := st.index[r][g];
        assert s.arena[i].relationship == st.arena[i].relationship;
        assert st.arena[i].geneIds <= s.arena[i].geneIds;
      }
    }
  }

  /** The first loop of `grouped_related` over the triples, in order. */
  function Fold(data: seq<Triple>): (st: Grouping)
    ensures GroupingValid(st)
    decreases |data|
  {
    if data == [] then Grouping([], map[])
    else
      var n := |data| - 1;
      var pre := Fold(data[..n]);
      StepValid(pre, data[n]);
      Step(pre, data[n])
  }

  /** The groups at the slots `slots` among the first `n` of `arena`, in slot order. */
  function Pick(arena: seq<Group>, slots: set<nat>, n: nat): (r: seq<Group>)
    requires n <= |arena|
    ensures |r| <= n
    decreases n
  {
    if n == 0 then []
    else Pick(arena, slots, n - 1) + (if n - 1 in slots then [arena[n - 1]] else [])
  }

  lemma {:induction false} PickSpec(arena: seq<Group>, slots: set<nat>, n: nat)
    requires n <= |arena|
    ensures forall x :: x in Pick(arena, slots, n) <==> exists i :: 0 <= i < n && i in slots && arena[i] == x
    decreases n
  {
    if n > 0 {
      PickSpec(arena, slots, n - 1);
    }
  }

  /** Every slot below `n` taken gives the first `n` groups. */
  lemma {:induction false} PickAll(arena: seq<Group>, slots: set<nat>, n: nat)
    requires n <= |arena| && forall i :: 0 <= i < n ==> i in slots
    ensures Pick(arena, slots, n) == arena[..n]
    decreases n
  {
    if n > 0 {
      PickAll(arena, slots, n - 1);
      assert arena[..n] == arena[..n - 1] + [arena[n - 1]];
    }
  }

  /**
   * `tuple(set(groups.values()))`: the distinct group objects the genes of
   * one type point at; the order of a Python set is not modelled, the
   * groups are listed in creation order.
   */
  function TypeGroups(arena: seq<Group>, rel: map<string, nat>): seq<Group> {
    Pick(arena, rel.Values, |arena|)
  }

  /** The second loop of `grouped_related`: per type, its distinct groups. */
  function Reduce(st: Grouping): map<string, seq<Group>> {
    map r | r in st.index :: TypeGroups(st.arena, st.index[r])
  }

  /** `grouped_related(data)`. */
  method GroupedRelated(data: seq<Triple>) returns (reduced: map<string, seq<Group>>)
    ensures reduced == Reduce(Fold(data))
  {
    var arena: seq<Group> := [];
    var grouped: map<string, map<string, nat>> := map[];
    for i := 0 to |data|
      invariant Grouping(arena, grouped) == Fold(data[..i])
    {
      assert data[..i + 1][..i] == data[..i];
      arena, grouped := GroupTriple(arena, grouped, data[i]);
    }
    assert data[..|data|] == data;
    reduced := ReduceGroups(arena, grouped);
  }

  /** One turn of the first loop of `grouped_related`, for the triple `t`. */
  method GroupTriple(arena: seq<Group>, grouped: map<string, map<string, nat>>, t: Triple)
    returns (arena': seq<Group>, grouped': map<string, map<string, nat>>)
    requires GroupingValid(Grouping(arena, grouped))
    ensures Grouping(arena', grouped') == Step(Grouping(arena, grouped), t)
  {
    ghost var st := Grouping(arena, grouped);
    var relationship := if t.relType in grouped then grouped[t.relType] else map[];
    var slot: nat;
    arena' := arena;
    if t.gene1 in relationship {
      slot := relationship[t.gene1];
    } else if t.gene2 in relationship {
      slot := relationship[t.gene2];
    } else {
      slot := |arena|;
      arena' := arena + [Group(t.relType, {})];
    }
    assert slot == Target(st, t) && slot < |arena'|;
    arena' := arena'[slot := Group(arena'[slot].relationship, arena'[slot].geneIds + {t.gene1, t.gene2})];
    relationship := relationship[t.gene1 := slot][t.gene2 := slot];
    grouped' := grouped[t.relType := relationship];
  }

  /** The second loop of `grouped_related`, over the types in any order. */
  method ReduceGroups(arena: seq<Group>, grouped: map<string, map<string, nat>>) returns (reduced: map<string, seq<Group>>)
    ensures reduced == Reduce(Grouping(arena, grouped))
  {
    reduced := map[];
    var todo := grouped.Keys;
    while todo != {}
      invariant todo <= grouped.Keys
      invariant reduced.Keys == grouped.Keys - todo
      invariant forall r :: r in reduced ==> reduced[r] == TypeGroups(arena, grouped[r])
      decreases |todo|
    {
      var r :| r in todo;
      reduced := reduced[r := TypeGroups(arena, grouped[r])];
      todo := todo - {r};
    }
  }

  /** The relationship types of the triples. */
  function RelTypes(data: seq<Triple>): set<string>
    decreases |data|
  {
    if data == [] then {} else RelTypes(data[..|data| - 1]) + {data[|data| - 1].relType}
  }

  /** The genes of the triples of type `r`. */
  function Genes(data: seq<Triple>, r: string): set<string>
    decreases |data|
  {
    if data == [] then {}
    else
      var t := data[|data| - 1];
      Genes(data[..|data| - 1], r) + (if t.relType == r then {t.gene1, t.gene2} else {})
  }

  /** The types indexed are the types of the triples. */
  lemma {:induction false} FoldKeys(data: seq<Triple>)
    ensures Fold(data).index.Keys == RelTypes(data)
    decreases |data|
  {
    if data != [] {
      FoldKeys(data[..|data| - 1]);
    }
  }

  /** Every gene of a triple points at a group of the triple's type. */
  lemma {:induction false} FoldCovers(data: seq<Triple>)
    ensures forall r, x :: x in Genes(data, r) ==> r in Fold(data).index && x in Fold(data).index[r]
    decreases |data|
  {
    if data != [] {
      var n := |data| - 1;
      var t := data[n];
      FoldCovers(data[..n]);
      var pre, st := Fold(data[..n]), Fold(data);
      assert st == Step(pre, t);
      forall r, x | x in Genes(data, r) ensures r in st.index && x in st.index[r] {
        if x !in Genes(data[..n], r) {
          assert r == t.relType && (x == t.gene1 || x == t.gene2);
        } else {
          assert r in pre.index && x in pre.index[r];
        }
      }
    }
  }

  /** A group holds only genes of triples of its own type. */
  ghost predicate Sourced(st: Grouping, data: seq<Triple>) {
    forall i, x :: 0 <= i < |st.arena| && x in st.arena[i].geneIds ==> x in Genes(data, st.arena[i].relationship)
  }

  lemma {:induction false} FoldSources(data: seq<Triple>)
    ensures Sourced(Fold(data), data)
    decreases |data|
  {
    if data != [] {
      var n := |data| - 1;
      var t := data[n];
      var pre := Fold(data[..n]);
      FoldSources(data[..n]);
      var st := Fold(data);
      assert st == Step(pre, t);
      var slot := Target(pre, t);
      assert slot < |st.arena| && st.arena[slot].relationship == t.relType by {
        StepValid(pre, t);
        assert t.gene1 in st.index[t.relType] && st.index[t.relType][t.gene1] == slot;
      }
      forall i, x | 0 <= i < |st.arena| && x in st.arena[i].geneIds
        ensures x in Genes(data, st.arena[i].relationship)
      {
        if !(i == slot && (x == t.gene1 || x == t.gene2)) {
          assert i < |pre.arena| && x in pre.arena[i].geneIds;
          assert st.arena[i].relationship == pre.arena[i].relationship;
          assert Sourced(pre, data[..n]);
          assert x in Genes(data[..n], pre.arena[i].relationship);
        }
      }
    }
  }

  /** `grouped_related` has one key per relationship type of the input. */
  lemma GroupedKeys(data: seq<Triple>)
    ensures Reduce(Fold(data)).Keys == RelTypes(data)
  {
    FoldKeys(data);
  }

  /**
   * Every group listed under a type carries that type as its relationship,
   * and the genes of the groups of a type are exactly the genes of the
   * triples of that type.
   */
  lemma GroupedGenes(data: seq<Triple>, r: string)
    requires r in RelTypes(data)
    ensures var out := Reduce(Fold(data));
      r in out
      && (forall k :: 0 <= k < |out[r]| ==> out[r][k].relationship == r)
      && (forall x :: x in Genes(data, r) <==> exists k :: 0 <= k < |out[r]| && x in out[r][k].geneIds)
  {
    var st := Fold(data);
    FoldKeys(data);
    FoldCovers(data);
    FoldSources(data);
    var rel := st.index[r];
    var out := Reduce(st);
    assert out[r] == Pick(st.arena, rel.Values, |st.arena|);
    PickSpec(st.arena, rel.Values, |st.arena|);
    forall k | 0 <= k < |out[r]| ensures out[r][k].relationship == r {
      assert out[r][k] in out[r];
      var i :| 0 <= i < |st.arena| && i in rel.Values && st.arena[i] == out[r][k];
      var g :| g in rel && rel[g] == i;
    }
    forall x | x in Genes(data, r) ensures exists k :: 0 <= k < |out[r]| && x in out[r][k].geneIds {
      var i := rel[x];
      assert i in rel.Values;
      assert st.arena[i] in out[r];
      var k :| 0 <= k < |out[r]| && out[r][k] == st.arena[i];
    }
    forall x | exists k :: 0 <= k < |out[r]| && x in out[r][k].geneIds ensures x in Genes(data, r) {
      var k :| 0 <= k < |out[r]| && x in out[r][k].geneIds;
      assert out[r][k] in out[r];
      var i :| 0 <= i < |st.arena| && i in rel.Values && st.arena[i] == out[r][k];
      var g :| g in rel && rel[g] == i;
    }
  }

  /** (g1, g2) then (g2, g3) give the single group {g1, g2, g3}. */
  lemma ChainScenario(r: string, a: string, b: string, c: string)
    requires a != b && b != c && a != c
    ensures Reduce(Fold([Triple(r, a, b), Triple(r, b, c)])) == map[r := [Group(r, {a, b, c})]]
  {
    var t1, t2 := Triple(r, a, b), Triple(r, b, c);
    var s1 := Grouping([Group(r, {a, b})], map[r := map[a := 0, b := 0]]);
    FoldFirst(t1);
    assert [t1, t2][..1] == [t1];
    var s2 := Grouping([Group(r, {a, b, c})], map[r := map[a := 0, b := 0, c := 0]]);
    assert Target(s1, t2) == 0;
    assert Step(s1, t2).arena == s2.arena by {
      assert {a, b} + {b, c} == {a, b, c};
    }
    assert Step(s1, t2).index[r] == s2.index[r];
    assert Fold([t1, t2]) == s2;
    assert s2.index[r].Values == {0};
    assert Pick(s2.arena, {0}, 1) == [Group(r, {a, b, c})];
  }

  /** A first triple makes one group of its two genes. */
  lemma FoldFirst(t: Triple)
    ensures Fold([t]) == Grouping([Group(t.relType, {t.gene1, t.gene2})], map[t.relType := map[t.gene1 := 0, t.gene2 := 0]])
  {
    assert [t][..0] == [];
    var s0 := Grouping([], map[]);
    assert Target(s0, t) == 0;
    assert {} + {t.gene1, t.gene2} == {t.gene1, t.gene2};
  }

  /**
   * (a, b), (c, d), (b, c) give two overlapping groups, {a, b, c} and
   * {c, d}: the bridging pair joins the group of its first gene, and the
   * group of `d` keeps `c`.
   */
  lemma BridgeScenario(r: string, a: string, b: string, c: string, d: string)
    requires a != b && a != c && a != d && b != c && b != d && c != d
    ensures Reduce(Fold([Triple(r, a, b), Triple(r, c, d), Triple(r, b, c)]))
      == map[r := [Group(r, {a, b, c}), Group(r, {c, d})]]
  {
    var t1, t2, t3 := Triple(r, a, b), Triple(r, c, d), Triple(r, b, c);
    TwoApart(r, a, b, c, d);
    assert [t1, t2, t3][..2] == [t1, t2];
    BridgeStep(r, a, b, c, d);
    var s3 := Grouping([Group(r, {a, b, c}), Group(r, {c, d})], map[r := map[a := 0, b := 0, c := 0, d := 1]]);
    assert Fold([t1, t2, t3]) == s3;
    assert s3.index[r].Values == {0, 1} by {
      assert s3.index[r][a] == 0 && s3.index[r][d] == 1;
    }
    assert Pick(s3.arena, {0, 1}, 2) == [Group(r, {a, b, c}), Group(r, {c, d})];
  }

  /** The bridging pair (b, c) joins the group of `b`, and `c` now points there. */
  lemma BridgeStep(r: string, a: string, b: string, c: string, d: string)
    requires a != b && a != c && a != d && b != c && b != d && c != d
    ensures var s2 := Grouping([Group(r, {a, b}), Group(r, {c, d})], map[r := map[a := 0, b := 0, c := 1, d := 1]]);
      GroupingValid(s2)
      && Step(s2, Triple(r, b, c))
        == Grouping([Group(r, {a, b, c}), Group(r, {c, d})], map[r := map[a := 0, b := 0, c := 0, d := 1]])
  {
    var s2 := Grouping([Group(r, {a, b}), Group(r, {c, d})], map[r := map[a := 0, b := 0, c := 1, d := 1]]);
    var t3 := Triple(r, b, c);
    assert GroupingValid(s2);
    assert Target(s2, t3) == 0;
    assert Step(s2, t3).arena == [Group(r, {a, b, c}), Group(r, {c, d})] by {
      assert {a, b} + {b, c} == {a, b, c};
    }
    assert Step(s2, t3).index[r] == map[a := 0, b := 0, c := 0, d := 1];
  }

  /** Two triples with no gene in common make two groups. */
  lemma TwoApart(r: string, a: string, b: string, c: string, d: string)
    requires a != c && a != d && b != c && b != d
    ensures Fold([Triple(r, a, b), Triple(r, c, d)])
      == Grouping([Group(r, {a, b}), Group(r, {c, d})], map[r := map[a := 0, b := 0, c := 1, d := 1]])
  {
    var t1, t2 := Triple(r, a, b), Triple(r, c, d);
    var s1 := Grouping([Group(r, {a, b})], map[r := map[a := 0, b := 0]]);
    FoldFirst(t1);
    assert [t1, t2][..1] == [t1];
    var s2 := Grouping([Group(r, {a, b}), Group(r, {c, d})], map[r := map[a := 0, b := 0, c := 1, d := 1]]);
    assert Target(s1, t2) == 1;
    assert Step(s1, t2).arena == s2.arena by {
      assert {} + {c, d} == {c, d};
    }
    assert Step(s1, t2).index[r] == s2.index[r];
  }
}
