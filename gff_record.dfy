/**
 * One feature of a GFF3 annotation file, `EnsemblGffRecord` of
 * `src/ensembl_lite/_genomedb.py`: a mutable record whose name, parent and
 * biotype are derived from its attribute text, whose spans grow while lines
 * are merged, and which receives its surrogate id when stored.
 *
 * Python's `None` for `name` and `parent_id` is written "" here: both are
 * falsy in the source, and "" is never a key once a file is normalised.
 */
module GffRecord {
  import opened Outcomes
  import opened GffText

  /** One `[start, stop]` coordinate segment. */
  datatype Span = Span(start: int, end: int)

  /** The marker `is_canonical` looks for in the attribute text. */
  const CanonicalTag: string := "Ensembl_canonical"

  /** The fields of a record at one moment. */
  datatype RecordValue = RecordValue(
    seqid: string,
    biotype: string,
    name: string,
    parentId: string,
    start: int,
    stop: int,
    strand: string,
    attrs: string,
    spans: seq<Span>)

  function Abs(x: int): int {
    if x < 0 then -x else x
  }

  /** `size`: the summed length `abs(s - e)` of the segments. */
  function SpanSize(spans: seq<Span>): (n: int)
    ensures n >= 0
    ensures forall k :: 0 <= k < |spans| ==> Abs(spans[k].start - spans[k].end) <= n
  {
    if spans == [] then 0
    else Abs(spans[0].start - spans[0].end) + SpanSize(spans[1..])
  }

  /** One segment's size is its own length. */
  lemma SpanSizeOne(s: Span)
    ensures SpanSize([s]) == Abs(s.start - s.end)
  {
    assert [s][1..] == [];
  }

  /** `size` is additive over concatenation, so it is the sum of the segment lengths. */
  lemma {:induction false} SpanSizeAppend(a: seq<Span>, b: seq<Span>)
    ensures SpanSize(a + b) == SpanSize(a) + SpanSize(b)
    decreases |a|
  {
    if a == [] {
      assert a + b == b;
    } else {
      assert (a + b)[1..] == a[1..] + b;
      SpanSizeAppend(a[1..], b);
    }
  }

  /** The field the name is read from: `ID=` when the raw text has it anywhere, else `exon_id=`. */
  function IdKey(attrs: string): string {
    if Contains(attrs, "ID=") then "ID=" else "exon_id="
  }

  /** The name `update_from_attrs` leaves. */
  function NameFromAttrs(attrs: string, name: string): string {
    match Search(TidyStableIds(attrs), IdKey(attrs))
    case Some(v) => v
    case None => name
  }

  /**
   * The name is the leftmost non-empty value of the id field in the tidied
   * attributes, up to the next ';'; the old name stays when that field has
   * no value.
   */
  lemma NameFromAttrsSpec(attrs: string, name: string)
    ensures var t, r := TidyStableIds(attrs), NameFromAttrs(attrs, name);
      (forall p :: 0 <= p < |t| ==> !ValueAt(t, IdKey(attrs), p)) ==> r == name
    ensures var t, r := TidyStableIds(attrs), NameFromAttrs(attrs, name);
      (exists p :: ValueAt(t, IdKey(attrs), p)) ==>
        r != "" && (forall k :: 0 <= k < |r| ==> r[k] != ';')
        && exists p: nat :: LeftmostValue(t, IdKey(attrs), p, r)
  {
    SearchSpec(TidyStableIds(attrs), IdKey(attrs));
  }

  /** The parent `update_from_attrs` leaves. */
  function ParentFromAttrs(attrs: string, parentId: string): string {
    match Search(TidyStableIds(attrs), "Parent=")
    case Some(v) => FirstField(v, ',')
    case None => parentId
  }

  /**
   * The parent is the first comma-separated item of the leftmost `Parent=`
   * value of the tidied attributes; the old parent stays when there is none.
   */
  lemma ParentFromAttrsSpec(attrs: string, parentId: string)
    ensures var t, r := TidyStableIds(attrs), ParentFromAttrs(attrs, parentId);
      (forall p :: 0 <= p < |t| ==> !ValueAt(t, "Parent=", p)) ==> r == parentId
    ensures var t, r := TidyStableIds(attrs), ParentFromAttrs(attrs, parentId);
      (exists p :: ValueAt(t, "Parent=", p)) ==>
        (forall k :: 0 <= k < |r| ==> r[k] != ',' && r[k] != ';')
        && exists p: nat, v: string :: LeftmostValue(t, "Parent=", p, v) && FirstItemOf(v, r)
  {
    var t := TidyStableIds(attrs);
    var r := ParentFromAttrs(attrs, parentId);
    SearchSpec(t, "Parent=");
    var found := Search(t, "Parent=");
    if found.Some? {
      var v := found.value;
      assert r == FirstField(v, ',');
      FirstItem(v, r);
      var p: nat :| LeftmostValue(t, "Parent=", p, v);
    } else {
      assert r == parentId;
    }
  }

  /** The first comma item of a value free of ';' holds neither ',' nor ';'. */
  lemma FirstItem(v: string, r: string)
    requires r == FirstField(v, ',') && forall k :: 0 <= k < |v| ==> v[k] != ';'
    ensures FirstItemOf(v, r) && forall k :: 0 <= k < |r| ==> r[k] != ',' && r[k] != ';'
  {
    forall k | 0 <= k < |r| ensures r[k] != ';' {
      assert r[k] == v[k];
    }
  }

  /** `r` is `v.split(",")[0]`: a prefix of `v` ended by a ',' or by the end of `v`. */
  predicate FirstItemOf(v: string, r: string) {
    |r| <= |v| && v[..|r|] == r && (|r| == |v| || v[|r|] == ',')
  }

  /**
   * The biotype `update_from_attrs` leaves: the part of the name before its
   * first ':', with `transcript` read as `mrna`; the old biotype when the
   * name has no ':'.
   */
  function BiotypeFromName(name: string, biotype: string): (r: string)
    ensures ':' !in name ==> r == biotype
    ensures ':' in name ==> ':' !in r
    ensures ':' in name ==>
      (r == "mrna" && |name| > 10 && name[..11] == "transcript:")
      || (|r| < |name| && name[..|r| + 1] == r + ":" && r != "transcript")
  {
    if ':' in name then
      var prefix := FirstField(name, ':');
      assert name[..|prefix| + 1] == prefix + ":";
      if prefix == "transcript" then "mrna" else prefix
    else biotype
  }

  /** The fields after `update_from_attrs`. */
  function Updated(v: RecordValue): RecordValue {
    var name := NameFromAttrs(v.attrs, v.name);
    v.(name := name,
       parentId := ParentFromAttrs(v.attrs, v.parentId),
       biotype := BiotypeFromName(name, v.biotype))
  }

  class EnsemblGffRecord {
    var seqid: string
    var biotype: string
    var name: string
    var parentId: string
    var start: int
    var stop: int
    var strand: string
    var attrs: string
    var spans: seq<Span>
    var featureId: Option<nat>

    /** `__init__`: an `is_canonical` flag becomes the canonical marker in front of the attributes. */
    constructor (v: RecordValue, isCanonical: bool)
      ensures Value() == v.(attrs := if isCanonical then CanonicalTag + ";" + v.attrs else v.attrs)
      ensures featureId == None
      ensures isCanonical ==> IsCanonical()
    {
      seqid, biotype, name, parentId := v.seqid, v.biotype, v.name, v.parentId;
      start, stop, strand, spans := v.start, v.stop, v.strand, v.spans;
      attrs := if isCanonical then CanonicalTag + ";" + v.attrs else v.attrs;
      featureId := None;
      if isCanonical {
        ContainsPrefix(CanonicalTag, ";" + v.attrs);
        assert CanonicalTag + ";" + v.attrs == CanonicalTag + (";" + v.attrs);
      }
    }

    function Value(): RecordValue
      reads this
    {
      RecordValue(seqid, biotype, name, parentId, start, stop, strand, attrs, spans)
    }

    /** `stableid`: the name without its type prefixes. */
    function StableId(): string
      reads this
    {
      StripTypedIds(name)
    }

    /** `is_canonical`: the attributes mention `Ensembl_canonical`. */
    predicate IsCanonical()
      reads this
    {
      Contains(attrs, CanonicalTag)
    }

    function Size(): int
      reads this
    {
      SpanSize(spans)
    }

    /** `update_from_attrs`: name, parent and biotype from the attribute text. */
    method UpdateFromAttrs()
      modifies this
      ensures Value() == Updated(old(Value()))
      ensures featureId == old(featureId)
    {
      var newName := NameFromAttrs(attrs, name);
      parentId := ParentFromAttrs(attrs, parentId);
      biotype := BiotypeFromName(newName, biotype);
      name := newName;
    }
  }
}
