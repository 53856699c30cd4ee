/**
 * `merge_grouped` of `src/ensembl_lite/_homologydb.py` and its helpers
 * `_gene_id_to_group` and `_add_unique`: two clusterings produced by
 * `grouped_related` are combined type by type.
 *
 * Groups are told apart by identity in the source; here a group of the
 * result is named by where it came from: the `i`-th group of the first or
 * second input, or the `k`-th group made by a union. The loop over the
 * shared gene ids runs in the (unspecified) order of a Python set, so the
 * specification takes that order as a parameter and the method reports the
 * order it used.
 */
module HomologMerge {
  import opened Outcomes
  import opened HomologGroups

  /** The genes of all the groups of a series. */
  function AllGenes(series: seq<Group>): set<string>
    decreases |series|
  {
    if series == [] then {} else AllGenes(series[..|series| - 1]) + series[|series| - 1].geneIds
  }

  lemma {:induction false} GroupInAll(series: seq<Group>, i: nat)
    requires i < |series|
    ensures series[i].geneIds <= AllGenes(series)
    decreases |series|
  {
    if i < |series| - 1 {
      GroupInAll(series[..|series| - 1], i);
    }
  }

  /**
   * `_gene_id_to_group(series)`: every gene of the series, mapped to the
   * position of a group that holds it; `GeneToGroupLast` shows it is the
   * last such group (later groups overwrite).
   */
  function GeneToGroup(series: seq<Group>): (m: map<string, nat>)
    ensures Indexes(series, m)
    decreases |series|
  {
    if series == [] then map[]
    else
      var n := |series| - 1;
      var pre := GeneToGroup(series[..n]);
      var m := pre + map g | g in series[n].geneIds :: n;
      assert Indexes(series, m) by {
        forall g | g in m ensures m[g] < |series| && g in series[m[g]].geneIds {
          if g !in series[n].geneIds {
            assert m[g] == pre[g] && series[..n][pre[g]] == series[pre[g]];
          }
        }
      }
      m
  }

  /** The genes mapped are the genes of the series. */
  lemma {:induction false} GeneToGroupKeys(series: seq<Group>)
    ensures GeneToGroup(series).Keys == AllGenes(series)
    decreases |series|
  {
    if series != [] {
      GeneToGroupKeys(series[..|series| - 1]);
    }
  }

  /** No group after the one a gene is mapped to holds the gene. */
  ghost predicate LastHolder(series: seq<Group>, m: map<string, nat>) {
    forall g, i :: g in m && m[g] < i < |series| ==> g !in series[i].geneIds
  }

  lemma {:induction false} GeneToGroupLast(series: seq<Group>)
    ensures LastHolder(series, GeneToGroup(series))
    decreases |series|
  {
    if series != [] {
      var n := |series| - 1;
      var pre := GeneToGroup(series[..n]);
      GeneToGroupLast(series[..n]);
      var m := GeneToGroup(series);
      assert m == pre + map g | g in series[n].geneIds :: n;
      forall g, i | g in m && m[g] < i < |series| ensures g !in series[i].geneIds {
        assert g !in series[n].geneIds;
        assert g in pre && m[g] == pre[g];
        if i < n {
          assert LastHolder(series[..n], pre);
          assert g !in series[..n][i].geneIds;
          assert series[..n][i] == series[i];
        }
      }
    }
  }

  /** The loop of `_gene_id_to_group`. */
  method GeneIdToGroup(series: seq<Group>) returns (result: map<string, nat>)
    ensures result == GeneToGroup(series)
  {
    result := map[];
    for i := 0 to |series|
      invariant result == GeneToGroup(series[..i])
    {
      assert series[..i + 1][..i] == series[..i];
      result := result + map g | g in series[i].geneIds :: i;
    }
    assert series[..|series|] == series;
  }

  datatype Side = L | R

  /** A group of the result: an input group, or the `k`-th union made. */
  datatype Ref = Input(side: Side, pos: nat) | Merged(k: nat)

  /**
   * `_add_unique(a, b, combined)`: the genes of `a` that `b` lacks are added
   * to `combined`, each pointing at its group in `a`; other keys keep their
   * value.
   */
  function AddUnique(a: map<string, nat>, b: map<string, nat>, side: Side, combined: map<string, Ref>): (r: map<string, Ref>)
    ensures r.Keys == combined.Keys + (a.Keys - b.Keys)
    ensures forall g :: g in a && g !in b ==> r[g] == Input(side, a[g])
    ensures forall g :: g in combined && !(g in a && g !in b) ==> r[g] == combined[g]
  {
    combined + map g | g in a && g !in b :: Input(side, a[g])
  }

  /** The two inputs of one type, with their gene-to-group dictionaries. */
  datatype Inputs = Inputs(gs1: seq<Group>, gs2: seq<Group>, m1: map<string, nat>, m2: map<string, nat>)

  /** Each gene of `m` is mapped to a group of `series` that holds it. */
  ghost predicate Indexes(series: seq<Group>, m: map<string, nat>) {
    forall g :: g in m ==> m[g] < |series| && g in series[m[g]].geneIds
  }

  /** What the merge needs of `_gene_id_to_group`'s dictionaries. */
  ghost predicate Expanded(x: Inputs) {
    Indexes(x.gs1, x.m1) && Indexes(x.gs2, x.m2)
  }

  function Expand(gs1: seq<Group>, gs2: seq<Group>): (x: Inputs)
    ensures Expanded(x) && x.gs1 == gs1 && x.gs2 == gs2
  {
    Inputs(gs1, gs2, GeneToGroup(gs1), GeneToGroup(gs2))
  }

  /** `shared_ids`: genes that both inputs hold. */
  function Shared(x: Inputs): set<string> {
    x.m1.Keys * x.m2.Keys
  }

  /** Genes that only one input holds. */
  function Unique(x: Inputs): set<string> {
    (x.m1.Keys - x.m2.Keys) + (x.m2.Keys - x.m1.Keys)
  }

  /** `rel_type_group` after the two calls of `_add_unique`. */
  function Initial(x: Inputs): map<string, Ref> {
    AddUnique(x.m2, x.m1, R, AddUnique(x.m1, x.m2, L, map[]))
  }

  /** `rel_type_group`, the unions made so far, and `skip`. */
  datatype MergeState = MergeState(assign: map<string, Ref>, merged: seq<Group>, skip: set<string>)

  /**
   * One turn of the loop over the shared ids: a gene already merged is
   * skipped; otherwise its two groups are united (a `ValueError` when their
   * labels differ) and every gene of the union points at the union.
   */
  function MergeStep(x: Inputs, st: MergeState, g: string): Result<MergeState, string>
    requires Expanded(x) && g in Shared(x)
  {
    if g in st.skip then Success(st)
    else
      var u := Union(x.gs1[x.m1[g]], x.gs2[x.m2[g]]);
      if u.Failure? then Failure(u.error)
      else
        Success(MergeState(st.assign + map y | y in u.value.geneIds :: Merged(|st.merged|),
                           st.merged + [u.value], st.skip + u.value.geneIds))
  }

  ghost predicate Within(order: seq<string>, s: set<string>) {
    forall k :: 0 <= k < |order| ==> order[k] in s
  }

  /** `order` lists every element of `s` exactly once. */
  ghost predicate Enumerates(order: seq<string>, s: set<string>) {
    Within(order, s)
    && (forall i, j :: 0 <= i < j < |order| ==> order[i] != order[j])
    && (forall g :: g in s ==> g in order)
  }

  /** The loop over the shared ids, visited in `order`. */
  function MergeRun(x: Inputs, order: seq<string>): Result<MergeState, string>
    requires Expanded(x) && Within(order, Shared(x))
    decreases |order|
  {
    if order == [] then Success(MergeState(Initial(x), [], {}))
    else
      var n := |order| - 1;
      var pre := MergeRun(x, order[..n]);
      if pre.Failure? then pre else MergeStep(x, pre.value, order[n])
  }

  /** The input groups (of side `side`) some gene still points at. */
  function SideSlots(assign: map<string, Ref>, side: Side): set<nat> {
    set g | g in assign && assign[g].Input? && assign[g].side == side :: assign[g].pos
  }

  /** The unions some gene still points at. */
  function MergedSlots(assign: map<string, Ref>): set<nat> {
    set g | g in assign && assign[g].Merged? :: assign[g].k
  }

  /**
   * `tuple(set(rel_type_group.values()))`: the distinct groups genes point
   * at; the order of a Python set is not modelled, the first input's groups
   * come first, then the second's, then the unions, each in order.
   */
  function Collect(gs1: seq<Group>, gs2: seq<Group>, st: MergeState): seq<Group> {
    Pick(gs1, SideSlots(st.assign, L), |gs1|) + Pick(gs2, SideSlots(st.assign, R), |gs2|)
      + Pick(st.merged, MergedSlots(st.assign), |st.merged|)
  }

  /** The groups `merge_grouped` gives for a type both inputs hold, visiting the shared ids in `order`. */
  function MergeTypeWith(gs1: seq<Group>, gs2: seq<Group>, order: seq<string>): Result<seq<Group>, string>
    requires Within(order, Shared(Expand(gs1, gs2)))
  {
    var x := Expand(gs1, gs2);
    var run := MergeRun(x, order);
    if run.Failure? then Failure(run.error) else Success(Collect(gs1, gs2, run.value))
  }

  /** The body of `merge_grouped` for a type both inputs hold. */
  method MergeType(gs1: seq<Group>, gs2: seq<Group>) returns (r: Result<seq<Group>, string>, ghost order: seq<string>)
    ensures Within(order, Shared(Expand(gs1, gs2)))
    ensures r.Success? ==> Enumerates(order, Shared(Expand(gs1, gs2)))
    ensures r == MergeTypeWith(gs1, gs2, order)
  {
    var grp1 := GeneIdToGroup(gs1);
    var grp2 := GeneIdToGroup(gs2);
    var x := Inputs(gs1, gs2, grp1, grp2);
    var run;
    run, order := VisitShared(x);
    r := if run.Failure? then Failure(run.error) else Success(Collect(gs1, gs2, run.value));
  }

  /** The loop over `shared_ids`, in the order a Python set yields them. */
  method VisitShared(x: Inputs) returns (run: Result<MergeState, string>, ghost order: seq<string>)
    requires Expanded(x)
    ensures Within(order, Shared(x))
    ensures run.Success? ==> Enumerates(order, Shared(x))
    ensures run == MergeRun(x, order)
  {
    var st := MergeState(Initial(x), [], {});
    var ids := Enumerate(x.m1.Keys * x.m2.Keys);
    for i := 0 to |ids|
      invariant Within(ids[..i], Shared(x))
      invariant MergeRun(x, ids[..i]) == Success(st)
    {
      RunSnoc(x, ids[..i], ids[i]);
      assert ids[..i + 1] == ids[..i] + [ids[i]];
      var next := MergeStep(x, st, ids[i]);
      if next.Failure? {
        return next, ids[..i + 1];
      }
      st := next.value;
    }
    assert ids[..|ids|] == ids;
    return Success(st), ids;
  }

  /** The elements of a set, in the order iteration yields them. */
  method Enumerate(s: set<string>) returns (ids: seq<string>)
    ensures Enumerates(ids, s)
  {
    ids := [];
    var todo := s;
    ghost var done: set<string> := {};
    while todo != {}
      invariant done !! todo && done + todo == s
      invariant Enumerates(ids, done)
      decreases |todo|
    {
      var id :| id in todo;
      EnumeratesSnoc(ids, done, id);
      ids := ids + [id];
      done := done + {id};
      todo := todo - {id};
    }
  }

  lemma EnumeratesSnoc(order: seq<string>, done: set<string>, g: string)
    requires Enumerates(order, done) && g !in done
    ensures Enumerates(order + [g], done + {g})
  {
    var o := order + [g];
    forall i, j | 0 <= i < j < |o| ensures o[i] != o[j] {
      if j == |order| {
        assert o[i] == order[i] && order[i] in done;
      } else {
        assert o[i] == order[i] && o[j] == order[j];
      }
    }
    forall h | h in done + {g} ensures h in o {
      if h != g {
        var k :| 0 <= k < |order| && order[k] == h;
        assert o[k] == h;
      } else {
        assert o[|order|] == g;
      }
    }
    assert forall k :: 0 <= k < |order| ==> o[k] == order[k];
  }

  /** Visiting one more shared id is one more step of the loop. */
  lemma RunSnoc(x: Inputs, order: seq<string>, g: string)
    requires Expanded(x) && Within(order, Shared(x)) && g in Shared(x)
    ensures Within(order + [g], Shared(x))
    ensures MergeRun(x, order + [g])
      == if MergeRun(x, order).Failure? then MergeRun(x, order) else MergeStep(x, MergeRun(x, order).value, g)
  {
    assert (order + [g])[..|order|] == order;
  }

  /** The group a reference names exists. */
  ghost predicate RefOk(x: Inputs, merged: seq<Group>, ref: Ref) {
    match ref
    case Input(side, i) => if side == L then i < |x.gs1| else i < |x.gs2|
    case Merged(k) => k < |merged|
  }

  function GroupAt(x: Inputs, merged: seq<Group>, ref: Ref): Group
    requires RefOk(x, merged, ref)
  {
    match ref
    case Input(side, i) => if side == L then x.gs1[i] else x.gs2[i]
    case Merged(k) => merged[k]
  }

  /**
   * What the loop keeps: the genes mapped are the unique ones and those
   * merged so far, each gene is in the group it points at, and no union
   * holds a gene foreign to the inputs.
   */
  ghost predicate StateOk(x: Inputs, st: MergeState, order: seq<string>) {
    var all := AllGenes(x.gs1) + AllGenes(x.gs2);
    st.assign.Keys == Unique(x) + st.skip
    && st.skip <= all
    && (forall y :: y in st.assign ==> RefOk(x, st.merged, st.assign[y]) && y in GroupAt(x, st.merged, st.assign[y]).geneIds)
    && (forall k :: 0 <= k < |st.merged| ==> st.merged[k].geneIds <= all)
    && (forall k :: 0 <= k < |order| ==> order[k] in st.skip)
  }

  lemma InitialOk(x: Inputs)
    requires Expanded(x)
    ensures StateOk(x, MergeState(Initial(x), [], {}), [])
  {
    var a1 := AddUnique(x.m1, x.m2, L, map[]);
    var a := AddUnique(x.m2, x.m1, R, a1);
    assert a.Keys == Unique(x);
    forall y | y in a ensures RefOk(x, [], a[y]) && y in GroupAt(x, [], a[y]).geneIds {
      if y in x.m1 && y !in x.m2 {
        assert a[y] == a1[y] == Input(L, x.m1[y]);
      } else {
        assert a[y] == Input(R, x.m2[y]);
      }
    }
  }

  lemma StepOk(x: Inputs, st: MergeState, order: seq<string>, g: string)
    requires Expanded(x) && g in Shared(x) && StateOk(x, st, order)
    ensures MergeStep(x, st, g).Success? ==> StateOk(x, MergeStep(x, st, g).value, order + [g])
  {
    var all := AllGenes(x.gs1) + AllGenes(x.gs2);
    if g !in st.skip && MergeStep(x, st, g).Success? {
      var a, b := x.gs1[x.m1[g]], x.gs2[x.m2[g]];
      GroupInAll(x.gs1, x.m1[g]);
      GroupInAll(x.gs2, x.m2[g]);
      var u := Union(a, b).value;
      var st' := MergeStep(x, st, g).value;
      assert st'.merged == st.merged + [u];
      assert u.geneIds <= all;
      assert g in u.geneIds;
      forall y | y in st'.assign
        ensures RefOk(x, st'.merged, st'.assign[y]) && y in GroupAt(x, st'.merged, st'.assign[y]).geneIds
      {
        if y !in u.geneIds {
          assert st'.assign[y] == st.assign[y];
          assert RefOk(x, st.merged, st.assign[y]);
        }
      }
      forall k | 0 <= k < |order + [g]| ensures (order + [g])[k] in st'.skip {
        if k < |order| {
          assert (order + [g])[k] == order[k];
        }
      }
    } else if g in st.skip {
      forall k | 0 <= k < |order + [g]| ensures (order + [g])[k] in st.skip {
        if k < |order| {
          assert (order + [g])[k] == order[k];
        }
      }
    }
  }

  lemma {:induction false} RunOk(x: Inputs, order: seq<string>)
    requires Expanded(x) && Within(order, Shared(x))
    ensures MergeRun(x, order).Success? ==> StateOk(x, MergeRun(x, order).value, order)
    decreases |order|
  {
    if order == [] {
      InitialOk(x);
    } else {
      var n := |order| - 1;
      RunOk(x, order[..n]);
      assert order[..n] + [order[n]] == order;
      var pre := MergeRun(x, order[..n]);
      if pre.Success? {
        StepOk(x, pre.value, order[..n], order[n]);
      }
    }
  }

  /** A gene that points at a group puts that group in the output. */
  lemma CollectHas(x: Inputs, st: MergeState, y: string)
    requires y in st.assign && RefOk(x, st.merged, st.assign[y])
    ensures GroupAt(x, st.merged, st.assign[y]) in Collect(x.gs1, x.gs2, st)
  {
    var ref := st.assign[y];
    match ref
    case Input(side, i) =>
      PickSpec(x.gs1, SideSlots(st.assign, L), |x.gs1|);
      PickSpec(x.gs2, SideSlots(st.assign, R), |x.gs2|);
      assert i in SideSlots(st.assign, side);
    case Merged(k) =>
      PickSpec(st.merged, MergedSlots(st.assign), |st.merged|);
      assert k in MergedSlots(st.assign);
  }

  /** Every output group is an input group or a union. */
  lemma CollectFrom(x: Inputs, st: MergeState, grp: Group)
    requires grp in Collect(x.gs1, x.gs2, st)
    ensures (exists i :: 0 <= i < |x.gs1| && x.gs1[i] == grp)
      || (exists i :: 0 <= i < |x.gs2| && x.gs2[i] == grp)
      || (exists k :: 0 <= k < |st.merged| && st.merged[k] == grp)
  {
    PickSpec(x.gs1, SideSlots(st.assign, L), |x.gs1|);
    PickSpec(x.gs2, SideSlots(st.assign, R), |x.gs2|);
    PickSpec(st.merged, MergedSlots(st.assign), |st.merged|);
  }

  /** A gene of the series lies in one of its groups. */
  lemma {:induction false} InSomeGroup(series: seq<Group>, y: string)
    requires y in AllGenes(series)
    ensures exists k :: 0 <= k < |series| && y in series[k].geneIds
    decreases |series|
  {
    var n := |series| - 1;
    if y !in series[n].geneIds {
      InSomeGroup(series[..n], y);
      var k :| 0 <= k < n && y in series[..n][k].geneIds;
      assert series[..n][k] == series[k];
    }
  }

  /** Every gene mapped lies in an output group. */
  lemma CollectCovers(x: Inputs, st: MergeState, order: seq<string>)
    requires StateOk(x, st, order)
    ensures st.assign.Keys <= AllGenes(Collect(x.gs1, x.gs2, st))
  {
    var out := Collect(x.gs1, x.gs2, st);
    forall y | y in st.assign ensures y in AllGenes(out) {
      CollectHas(x, st, y);
      var k :| 0 <= k < |out| && out[k] == GroupAt(x, st.merged, st.assign[y]);
      GroupInAll(out, k);
    }
  }

  /** No output group holds a gene foreign to the inputs. */
  lemma CollectWithin(x: Inputs, st: MergeState, order: seq<string>)
    requires StateOk(x, st, order)
    ensures AllGenes(Collect(x.gs1, x.gs2, st)) <= AllGenes(x.gs1) + AllGenes(x.gs2)
  {
    var out := Collect(x.gs1, x.gs2, st);
    forall y | y in AllGenes(out) ensures y in AllGenes(x.gs1) + AllGenes(x.gs2) {
      InSomeGroup(out, y);
      var k :| 0 <= k < |out| && y in out[k].geneIds;
      assert out[k] in out;
      CollectFrom(x, st, out[k]);
      if i :| 0 <= i < |x.gs1| && x.gs1[i] == out[k] {
        GroupInAll(x.gs1, i);
      } else if i :| 0 <= i < |x.gs2| && x.gs2[i] == out[k] {
        GroupInAll(x.gs2, i);
      }
    }
  }

  /**
   * Whatever order the shared ids are visited in, the output groups hold
   * exactly the genes of the two inputs.
   */
  lemma MergeGenes(gs1: seq<Group>, gs2: seq<Group>, order: seq<string>)
    requires Enumerates(order, Shared(Expand(gs1, gs2)))
    ensures MergeTypeWith(gs1, gs2, order).Success? ==>
      AllGenes(MergeTypeWith(gs1, gs2, order).value) == AllGenes(gs1) + AllGenes(gs2)
  {
    var x := Expand(gs1, gs2);
    var run := MergeRun(x, order);
    if run.Success? {
      var st := run.value;
      RunOk(x, order);
      GeneToGroupKeys(gs1);
      GeneToGroupKeys(gs2);
      assert Shared(x) <= st.skip by {
        forall y | y in Shared(x) ensures y in st.skip {
          var k :| 0 <= k < |order| && order[k] == y;
        }
      }
      CollectCovers(x, st, order);
      CollectWithin(x, st, order);
    }
  }

  lemma {:induction false} RunLabelled(x: Inputs, order: seq<string>, r: string)
    requires Expanded(x) && Within(order, Shared(x)) && Labelled(x.gs1, r) && Labelled(x.gs2, r)
    ensures MergeRun(x, order).Success? && Labelled(MergeRun(x, order).value.merged, r)
    decreases |order|
  {
    if order != [] {
      var n := |order| - 1;
      RunLabelled(x, order[..n], r);
    }
  }

  /**
   * When every group of both inputs carries the label `r`, no union fails,
   * whatever the order, and every output group carries `r`.
   */
  lemma MergeLabelled(gs1: seq<Group>, gs2: seq<Group>, order: seq<string>, r: string)
    requires Within(order, Shared(Expand(gs1, gs2))) && Labelled(gs1, r) && Labelled(gs2, r)
    ensures MergeTypeWith(gs1, gs2, order).Success?
    ensures Labelled(MergeTypeWith(gs1, gs2, order).value, r)
  {
    var x := Expand(gs1, gs2);
    RunLabelled(x, order, r);
    var st := MergeRun(x, order).value;
    var out := Collect(gs1, gs2, st);
    forall k | 0 <= k < |out| ensures out[k].relationship == r {
      assert out[k] in out;
      CollectFrom(x, st, out[k]);
    }
  }

  /** The groups of a series are non-empty and pairwise disjoint. */
  ghost predicate Apart(series: seq<Group>) {
    (forall i :: 0 <= i < |series| ==> series[i].geneIds != {})
    && (forall i, j, g :: 0 <= i < j < |series| && g in series[i].geneIds ==> g !in series[j].geneIds)
  }

  /** Some gene points at each of the first `n` groups of side `side`. */
  ghost predicate AllSlots(n: nat, assign: map<string, Ref>, side: Side) {
    forall i :: 0 <= i < n ==> i in SideSlots(assign, side)
  }

  /** Every gene of `m` points at its own group of side `side`. */
  ghost predicate Points(m: map<string, nat>, assign: map<string, Ref>, side: Side) {
    forall g :: g in m ==> g in assign && assign[g] == Input(side, m[g])
  }

  /** In a series of disjoint groups every group is some gene's group. */
  lemma ApartSlots(series: seq<Group>, m: map<string, nat>, side: Side, assign: map<string, Ref>)
    requires Apart(series) && m == GeneToGroup(series) && Points(m, assign, side)
    ensures AllSlots(|series|, assign, side)
  {
    GeneToGroupKeys(series);
    forall i | 0 <= i < |series| ensures i in SideSlots(assign, side) {
      var g :| g in series[i].geneIds;
      GroupInAll(series, i);
      assert g in m && g in series[m[g]].geneIds;
      assert m[g] == i;
      assert assign[g] == Input(side, i);
    }
  }

  /** Without shared genes every gene keeps pointing at its own input group. */
  lemma ApartInitial(x: Inputs)
    requires Expanded(x) && Shared(x) == {}
    ensures Points(x.m1, Initial(x), L) && Points(x.m2, Initial(x), R)
  {
    var a1 := AddUnique(x.m1, x.m2, L, map[]);
    forall g | g in x.m1 ensures g in Initial(x) && Initial(x)[g] == Input(L, x.m1[g]) {
      assert g !in Shared(x);
      assert a1[g] == Input(L, x.m1[g]);
    }
    forall g | g in x.m2 ensures g in Initial(x) && Initial(x)[g] == Input(R, x.m2[g]) {
      assert g !in Shared(x);
    }
    assert Points(x.m1, Initial(x), L);
  }

  /** Every slot of both sides taken and no union made: the output is both inputs. */
  lemma CollectAll(gs1: seq<Group>, gs2: seq<Group>, st: MergeState)
    requires st.merged == []
    requires AllSlots(|gs1|, st.assign, L) && AllSlots(|gs2|, st.assign, R)
    ensures Collect(gs1, gs2, st) == gs1 + gs2
  {
    PickAll(gs1, SideSlots(st.assign, L), |gs1|);
    PickAll(gs2, SideSlots(st.assign, R), |gs2|);
    assert gs1[..|gs1|] == gs1 && gs2[..|gs2|] == gs2;
    assert Collect(gs1, gs2, st) == gs1 + gs2 + [];
  }

  /**
   * With no shared gene and disjoint groups on each side, the output is
   * exactly the groups of both inputs.
   */
  lemma MergeApart(gs1: seq<Group>, gs2: seq<Group>)
    requires Shared(Expand(gs1, gs2)) == {} && Apart(gs1) && Apart(gs2)
    ensures MergeTypeWith(gs1, gs2, []) == Success(gs1 + gs2)
  {
    var x := Expand(gs1, gs2);
    var st := MergeState(Initial(x), [], {});
    ApartSides(gs1, gs2);
    CollectAll(gs1, gs2, st);
    assert MergeRun(x, []) == Success(st);
  }

  lemma ApartSides(gs1: seq<Group>, gs2: seq<Group>)
    requires Shared(Expand(gs1, gs2)) == {} && Apart(gs1) && Apart(gs2)
    ensures AllSlots(|gs1|, Initial(Expand(gs1, gs2)), L) && AllSlots(|gs2|, Initial(Expand(gs1, gs2)), R)
  {
    var x := Expand(gs1, gs2);
    var assign := Initial(x);
    ApartInitial(x);
    assert x.m1 == GeneToGroup(gs1) && x.m2 == GeneToGroup(gs2);
    ApartSlots(gs1, x.m1, L, assign);
    ApartSlots(gs2, x.m2, R, assign);
    assert AllSlots(|gs1|, assign, L);
    assert AllSlots(|gs2|, assign, R);
  }

  /** Each group under a type of the clustering carries that type as its label. */
  ghost predicate WellLabelled(grouped: map<string, seq<Group>>) {
    forall t :: t in grouped ==> Labelled(grouped[t], t)
  }

  /** `grouped_related` labels every group with its key. */
  lemma GroupedWellLabelled(data: seq<Triple>)
    ensures WellLabelled(Reduce(Fold(data)))
  {
    var out := Reduce(Fold(data));
    GroupedKeys(data);
    forall t | t in out ensures Labelled(out[t], t) {
      GroupedGenes(data, t);
    }
  }

  /**
   * `v` is what `merge_grouped` gives for type `t`: the groups of the one
   * input that holds `t`, else the merge of both visiting the shared ids in
   * `order`.
   */
  ghost predicate TypeMerged(group1: map<string, seq<Group>>, group2: map<string, seq<Group>>,
                             t: string, order: seq<string>, v: seq<Group>)
  {
    if t in group1 && t in group2 then
      Enumerates(order, Shared(Expand(group1[t], group2[t])))
      && MergeTypeWith(group1[t], group2[t], order) == Success(v)
    else if t in group1 then v == group1[t]
    else t in group2 && v == group2[t]
  }

  /** Every type of `out` is a type of an input, merged as `TypeMerged` says. */
  ghost predicate MergedSoFar(group1: map<string, seq<Group>>, group2: map<string, seq<Group>>,
                              orders: map<string, seq<string>>, out: map<string, seq<Group>>)
  {
    forall t :: t in out ==> t in orders && TypeMerged(group1, group2, t, orders[t], out[t])
  }

  /**
   * `out` holds every type of either input; a type only one input holds is
   * passed through as it is, the others are merged.
   */
  ghost predicate MergedBy(group1: map<string, seq<Group>>, group2: map<string, seq<Group>>,
                           orders: map<string, seq<string>>, out: map<string, seq<Group>>)
  {
    out.Keys == group1.Keys + group2.Keys && MergedSoFar(group1, group2, orders, out)
  }

  lemma MergedSoFarPut(group1: map<string, seq<Group>>, group2: map<string, seq<Group>>,
                       orders: map<string, seq<string>>, out: map<string, seq<Group>>,
                       t: string, order: seq<string>, v: seq<Group>)
    requires MergedSoFar(group1, group2, orders, out) && TypeMerged(group1, group2, t, order, v)
    ensures MergedSoFar(group1, group2, orders[t := order], out[t := v])
  {
  }

  /** Once every type has been visited, the output has exactly the types of the inputs. */
  lemma MergedKeys(group1: map<string, seq<Group>>, group2: map<string, seq<Group>>,
                   orders: map<string, seq<string>>, out: map<string, seq<Group>>, types: seq<string>)
    requires MergedSoFar(group1, group2, orders, out) && Enumerates(types, group1.Keys + group2.Keys)
    requires forall k :: 0 <= k < |types| ==> types[k] in out
    ensures MergedBy(group1, group2, orders, out)
  {
    forall t | t in group1.Keys + group2.Keys ensures t in out {
      var k :| 0 <= k < |types| && types[k] == t;
    }
  }

  /** The union of two groups of type `t` failed when visiting the shared ids in `orders[t]`. */
  ghost predicate FailsAt(group1: map<string, seq<Group>>, group2: map<string, seq<Group>>,
                          orders: map<string, seq<string>>, t: string)
  {
    t in group1 && t in group2 && t in orders
    && Within(orders[t], Shared(Expand(group1[t], group2[t])))
    && MergeTypeWith(group1[t], group2[t], orders[t]).Failure?
  }

  /** One turn of the loop of `merge_grouped`, for the type `t`. */
  method MergeEntry(group1: map<string, seq<Group>>, group2: map<string, seq<Group>>, t: string)
    returns (m: Result<seq<Group>, string>, ghost order: seq<string>)
    requires t in group1 || t in group2
    ensures m.Success? ==> TypeMerged(group1, group2, t, order, m.value)
    ensures m.Failure? ==>
      t in group1 && t in group2 && Within(order, Shared(Expand(group1[t], group2[t])))
      && MergeTypeWith(group1[t], group2[t], order).Failure?
    ensures WellLabelled(group1) && WellLabelled(group2) ==> m.Success?
  {
    if t !in group1 || t !in group2 {
      return Success(if t in group1 then group1[t] else group2[t]), [];
    }
    m, order := MergeType(group1[t], group2[t]);
    if m.Failure? && WellLabelled(group1) && WellLabelled(group2) {
      MergeLabelled(group1[t], group2[t], order, t);
    }
  }

  /** `merge_grouped(group1, group2)`. */
  method MergeGrouped(group1: map<string, seq<Group>>, group2: map<string, seq<Group>>)
    returns (r: Result<map<string, seq<Group>>, string>, ghost orders: map<string, seq<string>>)
    ensures r.Success? ==> MergedBy(group1, group2, orders, r.value)
    ensures r.Failure? ==> exists t :: FailsAt(group1, group2, orders, t)
    ensures WellLabelled(group1) && WellLabelled(group2) ==> r.Success?
  {
    var joint: map<string, seq<Group>> := map[];
    orders := map[];
    var relTypes := Enumerate(group1.Keys + group2.Keys);
    for i := 0 to |relTypes|
      invariant forall k :: 0 <= k < i ==> relTypes[k] in joint
      invariant MergedSoFar(group1, group2, orders, joint)
    {
      var relType := relTypes[i];
      var m, order := MergeEntry(group1, group2, relType);
      if m.Failure? {
        orders := orders[relType := order];
        assert FailsAt(group1, group2, orders, relType);
        return Failure(m.error), orders;
      }
      MergedSoFarPut(group1, group2, orders, joint, relType, order, m.value);
      orders := orders[relType := order];
      joint := joint[relType := m.value];
    }
    MergedKeys(group1, group2, orders, joint, relTypes);
    r := Success(joint);
  }

  /**
   * The merge is not transitive, and depends on the order of the shared ids:
   * with {a, b} and {c, d} on one side and {b, c} on the other, visiting `b`
   * first gives {c, d} and {a, b, c}, visiting `c` first gives {a, b} and
   * {b, c, d}; either way one gene lies in two output groups.
   */
  lemma MergeOrderMatters(r: string, a: string, b: string, c: string, d: string)
    requires a != b && a != c && a != d && b != c && b != d && c != d
    ensures var gs1, gs2 := [Group(r, {a, b}), Group(r, {c, d})], [Group(r, {b, c})];
      Enumerates([b, c], Shared(Expand(gs1, gs2))) && Enumerates([c, b], Shared(Expand(gs1, gs2)))
      && MergeTypeWith(gs1, gs2, [b, c]) == Success([Group(r, {c, d}), Group(r, {a, b, c})])
      && MergeTypeWith(gs1, gs2, [c, b]) == Success([Group(r, {a, b}), Group(r, {b, c, d})])
  {
    ScenarioInputs(r, a, b, c, d);
    OrderB(r, a, b, c, d);
    OrderC(r, a, b, c, d);
  }

  lemma OrderB(r: string, a: string, b: string, c: string, d: string)
    requires a != b && a != c && a != d && b != c && b != d && c != d
    requires Scenario(Expand([Group(r, {a, b}), Group(r, {c, d})], [Group(r, {b, c})]), r, a, b, c, d)
    ensures var gs1, gs2 := [Group(r, {a, b}), Group(r, {c, d})], [Group(r, {b, c})];
      Enumerates([b, c], Shared(Expand(gs1, gs2)))
      && MergeTypeWith(gs1, gs2, [b, c]) == Success([Group(r, {c, d}), Group(r, {a, b, c})])
  {
    var gs1, gs2 := [Group(r, {a, b}), Group(r, {c, d})], [Group(r, {b, c})];
    var x := Expand(gs1, gs2);
    var assign := map[a := Merged(0), b := Merged(0), c := Merged(0), d := Input(L, 1)];
    AssignB(a, b, c, d, {a, b, c});
    EnumeratesPair(b, c);
    VisitFirst(x, r, a, b, c, d, b, c, Group(r, {a, b, c}), assign);
    CollectB(r, a, b, c, d);
    assert Collect(gs1, gs2, MergeState(assign, [Group(r, {a, b, c})], {a, b, c})) == [Group(r, {c, d}), Group(r, {a, b, c})];
  }

  lemma OrderC(r: string, a: string, b: string, c: string, d: string)
    requires a != b && a != c && a != d && b != c && b != d && c != d
    requires Scenario(Expand([Group(r, {a, b}), Group(r, {c, d})], [Group(r, {b, c})]), r, a, b, c, d)
    ensures var gs1, gs2 := [Group(r, {a, b}), Group(r, {c, d})], [Group(r, {b, c})];
      Enumerates([c, b], Shared(Expand(gs1, gs2)))
      && MergeTypeWith(gs1, gs2, [c, b]) == Success([Group(r, {a, b}), Group(r, {b, c, d})])
  {
    var gs1, gs2 := [Group(r, {a, b}), Group(r, {c, d})], [Group(r, {b, c})];
    var x := Expand(gs1, gs2);
    var assign := map[a := Input(L, 0), b := Merged(0), c := Merged(0), d := Merged(0)];
    AssignC(a, b, c, d, {b, c, d});
    EnumeratesPair(b, c);
    VisitFirst(x, r, a, b, c, d, c, b, Group(r, {b, c, d}), assign);
    CollectC(r, a, b, c, d);
    assert Collect(gs1, gs2, MergeState(assign, [Group(r, {b, c, d})], {b, c, d})) == [Group(r, {a, b}), Group(r, {b, c, d})];
  }

  /** The dictionaries, shared ids and first assignment of the scenario. */
  lemma ScenarioInputs(r: string, a: string, b: string, c: string, d: string)
    requires a != b && a != c && a != d && b != c && b != d && c != d
    ensures Scenario(Expand([Group(r, {a, b}), Group(r, {c, d})], [Group(r, {b, c})]), r, a, b, c, d)
  {
    var x := Expand([Group(r, {a, b}), Group(r, {c, d})], [Group(r, {b, c})]);
    TwoGroupsIndex(r, a, b, c, d);
    OneGroupIndex(r, b, c);
    ScenarioInitial(x, a, b, c, d);
  }

  lemma ScenarioInitial(x: Inputs, a: string, b: string, c: string, d: string)
    requires a != b && a != c && a != d && b != c && b != d && c != d
    requires x.m1 == map[a := 0, b := 0, c := 1, d := 1] && x.m2 == map[b := 0, c := 0]
    ensures Shared(x) == {b, c} && Initial(x) == map[a := Input(L, 0), d := Input(L, 1)]
  {
    assert Shared(x) == {b, c};
    FirstUnique(a, b, c, d);
    SecondUnique(a, b, c, d);
  }

  lemma FirstUnique(a: string, b: string, c: string, d: string)
    requires a != b && a != c && a != d && b != c && b != d && c != d
    ensures AddUnique(map[a := 0, b := 0, c := 1, d := 1], map[b := 0, c := 0], L, map[])
      == map[a := Input(L, 0), d := Input(L, 1)]
  {
    var a1 := AddUnique(map[a := 0, b := 0, c := 1, d := 1], map[b := 0, c := 0], L, map[]);
    assert map[a := 0, b := 0, c := 1, d := 1].Keys - map[b := 0, c := 0].Keys == {a, d};
    assert a1[a] == Input(L, 0) && a1[d] == Input(L, 1);
  }

  lemma SecondUnique(a: string, b: string, c: string, d: string)
    requires a != b && a != c && a != d && b != c && b != d && c != d
    ensures AddUnique(map[b := 0, c := 0], map[a := 0, b := 0, c := 1, d := 1], R, map[a := Input(L, 0), d := Input(L, 1)])
      == map[a := Input(L, 0), d := Input(L, 1)]
  {
    assert map[b := 0, c := 0].Keys - map[a := 0, b := 0, c := 1, d := 1].Keys == {};
  }

  lemma TwoGroupsIndex(r: string, a: string, b: string, c: string, d: string)
    requires a != c && a != d && b != c && b != d
    ensures GeneToGroup([Group(r, {a, b}), Group(r, {c, d})]) == map[a := 0, b := 0, c := 1, d := 1]
  {
    var gs := [Group(r, {a, b}), Group(r, {c, d})];
    assert gs[..1] == [Group(r, {a, b})];
    assert gs[..1][..0] == [];
  }

  lemma OneGroupIndex(r: string, b: string, c: string)
    ensures GeneToGroup([Group(r, {b, c})]) == map[b := 0, c := 0]
  {
    assert [Group(r, {b, c})][..0] == [];
  }

  /** The scenario's inputs, as `Expand` gives them. */
  ghost predicate Scenario(x: Inputs, r: string, a: string, b: string, c: string, d: string) {
    x.gs1 == [Group(r, {a, b}), Group(r, {c, d})] && x.gs2 == [Group(r, {b, c})]
    && x.m1 == map[a := 0, b := 0, c := 1, d := 1] && x.m2 == map[b := 0, c := 0]
    && Shared(x) == {b, c} && Initial(x) == map[a := Input(L, 0), d := Input(L, 1)]
  }

  /**
   * Visiting `first` unites its two groups into `u`, every gene of `u`
   * points at it, and `second`, being in `u`, is then skipped.
   */
  lemma VisitFirst(x: Inputs, r: string, a: string, b: string, c: string, d: string, first: string, second: string,
                   u: Group, assign: map<string, Ref>)
    requires Expanded(x) && x.gs1 == [Group(r, {a, b}), Group(r, {c, d})] && x.gs2 == [Group(r, {b, c})]
    requires x.m1 == map[a := 0, b := 0, c := 1, d := 1] && x.m2 == map[b := 0, c := 0] && Shared(x) == {b, c}
    requires a != b && a != c && a != d && b != c && b != d && c != d
    requires (first, second) == (b, c) || (first, second) == (c, b)
    requires u == if first == b then Group(r, {a, b, c}) else Group(r, {b, c, d})
    requires Initial(x) + (map y | y in u.geneIds :: Merged(0)) == assign
    ensures Within([first, second], Shared(x))
    ensures MergeRun(x, [first, second]) == Success(MergeState(assign, [u], u.geneIds))
  {
    FirstUnion(x, r, a, b, c, d, first, u);
    FirstStep(x, first, u, assign);
    assert [first, second][..1] == [first];
    RunSkip(x, [first, second]);
  }

  /** The groups the first shared id picks unite into `u`. */
  lemma FirstUnion(x: Inputs, r: string, a: string, b: string, c: string, d: string, first: string, u: Group)
    requires x.gs1 == [Group(r, {a, b}), Group(r, {c, d})] && x.gs2 == [Group(r, {b, c})]
    requires x.m1 == map[a := 0, b := 0, c := 1, d := 1] && x.m2 == map[b := 0, c := 0]
    requires a != b && a != c && a != d && b != c && b != d && c != d
    requires first == b || first == c
    requires u == if first == b then Group(r, {a, b, c}) else Group(r, {b, c, d})
    ensures first in x.m1 && first in x.m2 && x.m1[first] < |x.gs1| && x.m2[first] < |x.gs2|
    ensures Union(x.gs1[x.m1[first]], x.gs2[x.m2[first]]) == Success(u)
  {
    UnionScenario(r, a, b, c, d);
    if first == b {
      assert x.m1[first] == 0 && x.m2[first] == 0;
    } else {
      assert x.m1[first] == 1 && x.m2[first] == 0;
    }
  }

  /** The first shared id visited unites its two groups into the first union. */
  lemma FirstStep(x: Inputs, first: string, u: Group, assign: map<string, Ref>)
    requires Expanded(x) && first in Shared(x)
    requires Union(x.gs1[x.m1[first]], x.gs2[x.m2[first]]) == Success(u)
    requires Initial(x) + (map y | y in u.geneIds :: Merged(0)) == assign
    ensures MergeRun(x, [first]) == Success(MergeState(assign, [u], u.geneIds))
  {
    var st0 := MergeState(Initial(x), [], {});
    assert [first][..0] == [];
    assert MergeRun(x, [first]) == MergeStep(x, st0, first);
    StepUnites(x, st0, first, u);
    assert {} + u.geneIds == u.geneIds && [] + [u] == [u];
  }

  lemma UnionScenario(r: string, a: string, b: string, c: string, d: string)
    ensures Union(Group(r, {a, b}), Group(r, {b, c})) == Success(Group(r, {a, b, c}))
    ensures Union(Group(r, {c, d}), Group(r, {b, c})) == Success(Group(r, {b, c, d}))
  {
    assert {a, b} + {b, c} == {a, b, c};
    assert {c, d} + {b, c} == {b, c, d};
  }

  /** A shared id whose groups unite is visited by adding the union. */
  lemma StepUnites(x: Inputs, st: MergeState, g: string, u: Group)
    requires Expanded(x) && g in Shared(x) && g !in st.skip
    requires Union(x.gs1[x.m1[g]], x.gs2[x.m2[g]]) == Success(u)
    ensures MergeStep(x, st, g)
      == Success(MergeState(st.assign + (map y | y in u.geneIds :: Merged(|st.merged|)), st.merged + [u], st.skip + u.geneIds))
  {
  }

  /** An id already merged leaves the state as it is. */
  lemma RunSkip(x: Inputs, order: seq<string>)
    requires Expanded(x) && |order| > 0 && Within(order, Shared(x))
    requires Within(order[..|order| - 1], Shared(x))
    requires MergeRun(x, order[..|order| - 1]).Success? && order[|order| - 1] in MergeRun(x, order[..|order| - 1]).value.skip
    ensures MergeRun(x, order) == MergeRun(x, order[..|order| - 1])
  {
  }

  /** Two distinct ids, in either order, list the set of both. */
  lemma EnumeratesPair(b: string, c: string)
    requires b != c
    ensures Enumerates([b, c], {b, c}) && Enumerates([c, b], {b, c})
  {
    assert [b, c][0] == b && [b, c][1] == c;
    assert [c, b][0] == c && [c, b][1] == b;
  }

  lemma AssignB(a: string, b: string, c: string, d: string, genes: set<string>)
    requires a != b && a != c && a != d && b != c && b != d && c != d && genes == {a, b, c}
    ensures map[a := Input(L, 0), d := Input(L, 1)] + (map y | y in genes :: Merged(0))
      == map[a := Merged(0), b := Merged(0), c := Merged(0), d := Input(L, 1)]
  {
  }

  lemma AssignC(a: string, b: string, c: string, d: string, genes: set<string>)
    requires a != b && a != c && a != d && b != c && b != d && c != d && genes == {b, c, d}
    ensures map[a := Input(L, 0), d := Input(L, 1)] + (map y | y in genes :: Merged(0))
      == map[a := Input(L, 0), b := Merged(0), c := Merged(0), d := Merged(0)]
  {
  }

  lemma CollectB(r: string, a: string, b: string, c: string, d: string)
    requires a != b && a != c && a != d && b != c && b != d && c != d
    ensures var assign := map[a := Merged(0), b := Merged(0), c := Merged(0), d := Input(L, 1)];
      Collect([Group(r, {a, b}), Group(r, {c, d})], [Group(r, {b, c})], MergeState(assign, [Group(r, {a, b, c})], {a, b, c}))
        == [Group(r, {c, d}), Group(r, {a, b, c})]
  {
    var assign := map[a := Merged(0), b := Merged(0), c := Merged(0), d := Input(L, 1)];
    assert SideSlots(assign, L) == {1} by {
      assert assign[d] == Input(L, 1);
    }
    assert SideSlots(assign, R) == {};
    assert MergedSlots(assign) == {0} by {
      assert assign[a] == Merged(0);
    }
    var gs1, merged := [Group(r, {a, b}), Group(r, {c, d})], [Group(r, {a, b, c})];
    assert Pick(gs1, {1}, 1) == [];
    assert Pick(gs1, {1}, 2) == [gs1[1]];
    assert Pick([Group(r, {b, c})], {}, 1) == [];
    assert Pick(merged, {0}, 1) == merged;
  }

  lemma CollectC(r: string, a: string, b: string, c: string, d: string)
    requires a != b && a != c && a != d && b != c && b != d && c != d
    ensures var assign := map[a := Input(L, 0), b := Merged(0), c := Merged(0), d := Merged(0)];
      Collect([Group(r, {a, b}), Group(r, {c, d})], [Group(r, {b, c})], MergeState(assign, [Group(r, {b, c, d})], {b, c, d}))
        == [Group(r, {a, b}), Group(r, {b, c, d})]
  {
    var assign := map[a := Input(L, 0), b := Merged(0), c := Merged(0), d := Merged(0)];
    assert SideSlots(assign, L) == {0} by {
      assert assign[a] == Input(L, 0);
    }
    assert SideSlots(assign, R) == {};
    assert MergedSlots(assign) == {0} by {
      assert assign[b] == Merged(0);
    }
    var gs1, merged := [Group(r, {a, b}), Group(r, {c, d})], [Group(r, {b, c, d})];
    assert Pick(gs1, {0}, 1) == [gs1[0]];
    assert Pick(gs1, {0}, 2) == [gs1[0]];
    assert Pick([Group(r, {b, c})], {}, 1) == [];
    assert Pick(merged, {0}, 1) == merged;
  }
}
