/**
 * `custom_gff_parser` of `src/ensembl_lite/_genomedb.py`: the loop that
 * turns the parsed lines of one GFF3 file into one record per name,
 * collecting the coordinates of every line of that name and issuing
 * `unknown-N` names to lines that have none.
 *
 * The lines come in already split into fields (the text parser is not part
 * of this model); each is the `RecordValue` the record is built from.
 */
module GffParse {
  import opened Dicts
  import opened GffRecord

  function Min(a: int, b: int): int {
    if a <= b then a else b
  }

  function Max(a: int, b: int): int {
    if a >= b then a else b
  }

  function DigitChar(d: nat): char
    requires d < 10
  {
    (48 + d) as char
  }

  /** `str(n)`: the decimal digits of `n`, without leading zeros. */
  function NatToString(n: nat): (s: string)
    ensures |s| > 0 && (n >= 10 <==> |s| > 1)
    ensures forall k :: 0 <= k < |s| ==> '0' <= s[k] <= '9'
  {
    if n < 10 then [DigitChar(n)] else NatToString(n / 10) + [DigitChar(n % 10)]
  }

  /** Different numbers print differently. */
  lemma {:induction false} NatToStringInjective(a: nat, b: nat)
    requires NatToString(a) == NatToString(b)
    ensures a == b
  {
    var s := NatToString(a);
    if a >= 10 {
      assert NatToString(a / 10) == s[..|s| - 1];
      assert NatToString(b / 10) == s[..|s| - 1];
      NatToStringInjective(a / 10, b / 10);
      assert DigitChar(a % 10) == s[|s| - 1] == DigitChar(b % 10);
    }
  }

  /** The name given to the line that finds the counter at `n`. */
  function SyntheticName(n: nat): (name: string)
    ensures |name| > 8 && name[..8] == "unknown-"
  {
    "unknown-" + NatToString(n)
  }

  /** Synthetic names issued from different counter values differ. */
  lemma SyntheticNameInjective(a: nat, b: nat)
    requires a != b
    ensures SyntheticName(a) != SyntheticName(b)
  {
    if SyntheticName(a) == SyntheticName(b) {
      assert NatToString(a) == SyntheticName(a)[8..];
      assert NatToString(b) == SyntheticName(b)[8..];
      NatToStringInjective(a, b);
    }
  }

  /**
   * The loop sees each line after `update_from_attrs`; the functions below
   * take those updated lines, so a line's name is "" when it has none.
   */
  function LineName(line: RecordValue): string {
    line.name
  }

  /** Every line as `update_from_attrs` leaves it. */
  function UpdatedLines(lines: seq<RecordValue>): (us: seq<RecordValue>)
    ensures |us| == |lines|
  {
    if lines == [] then [] else UpdatedLines(lines[..|lines| - 1]) + [Updated(lines[|lines| - 1])]
  }

  /** Updating one more line appends its updated value. */
  lemma UpdatedSnoc(lines: seq<RecordValue>, i: nat)
    requires i < |lines|
    ensures UpdatedLines(lines[..i + 1]) == UpdatedLines(lines[..i]) + [Updated(lines[i])]
  {
    assert lines[..i + 1][..i] == lines[..i];
  }

  /** How many of the lines have no name of their own. */
  function AnonCount(lines: seq<RecordValue>): nat {
    if lines == [] then 0
    else AnonCount(lines[..|lines| - 1]) + (if LineName(lines[|lines| - 1]) == "" then 1 else 0)
  }

  /**
   * The name line `i` is stored under: its own, or the synthetic name for
   * the counter after the anonymous lines before it.
   */
  function ResolvedName(lines: seq<RecordValue>, n0: nat, i: nat): string
    requires i < |lines|
  {
    if LineName(lines[i]) != "" then LineName(lines[i])
    else SyntheticName(n0 + AnonCount(lines[..i]))
  }

  /** The state of the loop: the `reduced` dict and the counter. */
  datatype ParseState = ParseState(reduced: Dict<string, RecordValue>, counter: nat)

  /** One turn of the merge loop. */
  /** One more segment `[start, stop]` for a record: appended to its spans, its bounds widened. */
  function Widen(v: RecordValue, start: int, stop: int): RecordValue {
    v.(spans := v.spans + [Span(start, stop)], start := Min(v.start, start), stop := Max(v.stop, stop))
  }

  function ParseStep(st: ParseState, line: RecordValue): (r: ParseState)
    requires Valid(st.reduced)
    ensures Valid(r.reduced)
  {
    var u := line;
    var anonymous := u.name == "";
    var rec := if anonymous then u.(name := SyntheticName(st.counter)) else u;
    var counter := if anonymous then st.counter + 1 else st.counter;
    var base := if rec.name in st.reduced.items then st.reduced.items[rec.name] else rec;
    ParseState(Put(st.reduced, rec.name, Widen(base, rec.start, rec.stop)), counter)
  }

  /** Parsing one more line is one more `ParseStep`. */
  lemma ParseSnoc(lines: seq<RecordValue>, line: RecordValue, n0: nat)
    ensures ParseAll(lines + [line], n0) == ParseStep(ParseAll(lines, n0), line)
  {
    assert (lines + [line])[..|lines|] == lines;
  }

  /** The state after all of `lines`, starting from an empty dict and counter `n0`. */
  function ParseAll(lines: seq<RecordValue>, n0: nat): (r: ParseState)
    ensures Valid(r.reduced)
  {
    if lines == [] then ParseState(Empty(), n0)
    else ParseStep(ParseAll(lines[..|lines| - 1], n0), lines[|lines| - 1])
  }

  /** `[start, stop]` of every line stored under `k`, in input order. */
  function SpansNamed(lines: seq<RecordValue>, n0: nat, k: string): seq<Span> {
    if lines == [] then []
    else
      var n := |lines| - 1;
      SpansNamed(lines[..n], n0, k)
      + (if ResolvedName(lines, n0, n) == k then [Span(lines[n].start, lines[n].stop)] else [])
  }

  /** The least start of the spans (numpy's `min` over the starts). */
  function MinStart(spans: seq<Span>): (m: int)
    requires spans != []
    ensures forall i :: 0 <= i < |spans| ==> m <= spans[i].start
  {
    if |spans| == 1 then spans[0].start
    else Min(MinStart(spans[..|spans| - 1]), spans[|spans| - 1].start)
  }

  /** The greatest end of the spans. */
  function MaxEnd(spans: seq<Span>): (m: int)
    requires spans != []
    ensures forall i :: 0 <= i < |spans| ==> spans[i].end <= m
  {
    if |spans| == 1 then spans[0].end
    else Max(MaxEnd(spans[..|spans| - 1]), spans[|spans| - 1].end)
  }

  /** The least start is the start of one of the spans, and the greatest end the end of one. */
  lemma {:induction false} MinMaxAttained(spans: seq<Span>)
    requires spans != []
    ensures exists i :: 0 <= i < |spans| && MinStart(spans) == spans[i].start
    ensures exists i :: 0 <= i < |spans| && MaxEnd(spans) == spans[i].end
  {
    if |spans| > 1 {
      var pre := spans[..|spans| - 1];
      MinMaxAttained(pre);
      var i :| 0 <= i < |pre| && MinStart(pre) == pre[i].start;
      var k :| 0 <= k < |pre| && MaxEnd(pre) == pre[k].end;
      assert pre[i] == spans[i] && pre[k] == spans[k];
      var last := |spans| - 1;
      assert MinStart(spans) == spans[if MinStart(spans) == spans[last].start then last else i].start;
      assert MaxEnd(spans) == spans[if MaxEnd(spans) == spans[last].end then last else k].end;
    } else {
      assert MinStart(spans) == spans[0].start && MaxEnd(spans) == spans[0].end;
    }
  }

  /** A line's resolved name depends only on the lines before it. */
  lemma ResolvedNamePrefix(lines: seq<RecordValue>, n0: nat, n: nat, i: nat)
    requires i < n <= |lines|
    ensures ResolvedName(lines[..n], n0, i) == ResolvedName(lines, n0, i)
  {
    assert lines[..n][..i] == lines[..i];
  }

  /** The counter comes back as the incoming value plus the number of anonymous lines. */
  lemma {:induction false} ParseCounter(lines: seq<RecordValue>, n0: nat)
    ensures ParseAll(lines, n0).counter == n0 + AnonCount(lines)
  {
    if lines != [] {
      ParseCounter(lines[..|lines| - 1], n0);
    }
  }

  /** Anonymous lines of a concatenation add up. */
  lemma {:induction false} AnonCountAppend(l1: seq<RecordValue>, l2: seq<RecordValue>)
    ensures AnonCount(l1 + l2) == AnonCount(l1) + AnonCount(l2)
  {
    if l2 == [] {
      assert l1 + l2 == l1;
    } else {
      var n := |l2| - 1;
      assert (l1 + l2)[..|l1 + l2| - 1] == l1 + l2[..n];
      assert (l1 + l2)[|l1 + l2| - 1] == l2[n];
      AnonCountAppend(l1, l2[..n]);
    }
  }

  /**
   * Threading the counter: parsing two files one after the other, the
   * second starting from the counter the first returned, ends at the same
   * counter as parsing their concatenation.
   */
  lemma CounterThreading(l1: seq<RecordValue>, l2: seq<RecordValue>, n0: nat)
    ensures ParseAll(l2, ParseAll(l1, n0).counter).counter == ParseAll(l1 + l2, n0).counter
  {
    ParseCounter(l1, n0);
    ParseCounter(l2, ParseAll(l1, n0).counter);
    ParseCounter(l1 + l2, n0);
    AnonCountAppend(l1, l2);
  }

  /** The `j`-th anonymous line is named `unknown-(n0 + j)`. */
  lemma AnonymousLineName(lines: seq<RecordValue>, n0: nat, i: nat)
    requires i < |lines| && LineName(lines[i]) == ""
    ensures ResolvedName(lines, n0, i) == SyntheticName(n0 + AnonCount(lines[..i]))
    ensures AnonCount(lines[..i + 1]) == AnonCount(lines[..i]) + 1
  {
    assert lines[..i + 1][..i] == lines[..i];
  }

  /** Anonymous lines count up, so two of them never share a name. */
  lemma {:induction false} AnonCountGrows(lines: seq<RecordValue>, i: nat, j: nat)
    requires i < j <= |lines| && LineName(lines[i]) == ""
    ensures AnonCount(lines[..i]) < AnonCount(lines[..j])
  {
    if j == i + 1 {
      assert lines[..i + 1][..i] == lines[..i];
    } else {
      AnonCountGrows(lines, i, j - 1);
      assert lines[..j][..j - 1] == lines[..j - 1];
    }
  }

  /** Two anonymous lines get different names. */
  lemma AnonymousNamesDistinct(lines: seq<RecordValue>, n0: nat, i: nat, j: nat)
    requires i < j < |lines| && LineName(lines[i]) == "" && LineName(lines[j]) == ""
    ensures ResolvedName(lines, n0, i) != ResolvedName(lines, n0, j)
  {
    var a, b := AnonCount(lines[..i]), AnonCount(lines[..j]);
    AnonCountGrows(lines, i, j);
    assert ResolvedName(lines, n0, i) == SyntheticName(n0 + a);
    assert ResolvedName(lines, n0, j) == SyntheticName(n0 + b);
    SyntheticNameInjective(n0 + a, n0 + b);
  }

  /** The names the lines are stored under. */
  ghost function Names(lines: seq<RecordValue>, n0: nat): set<string> {
    set i | 0 <= i < |lines| :: ResolvedName(lines, n0, i)
  }

  /** A step adds the key of the line it reads, named or synthetic. */
  lemma StepKeys(st: ParseState, line: RecordValue)
    requires Valid(st.reduced)
    ensures ParseStep(st, line).reduced.items.Keys
         == st.reduced.items.Keys + {if line.name == "" then SyntheticName(st.counter) else line.name}
  {
  }

  /** The step that reads the last line stores it under its resolved name. */
  lemma ParseLast(lines: seq<RecordValue>, n0: nat)
    requires lines != []
    ensures var n := |lines| - 1;
      ParseAll(lines, n0) == ParseStep(ParseAll(lines[..n], n0), lines[n])
      && ResolvedName(lines, n0, n) == (if lines[n].name == "" then SyntheticName(ParseAll(lines[..n], n0).counter) else lines[n].name)
      && ParseAll(lines, n0).reduced.items.Keys
         == ParseAll(lines[..n], n0).reduced.items.Keys + {ResolvedName(lines, n0, n)}
  {
    var n := |lines| - 1;
    var pre := lines[..n];
    var st := ParseAll(pre, n0);
    ParseCounter(pre, n0);
    assert st.counter == n0 + AnonCount(pre);
    assert ResolvedName(lines, n0, n) == if lines[n].name == "" then SyntheticName(st.counter) else lines[n].name;
    assert ParseAll(lines, n0) == ParseStep(st, lines[n]);
    StepKeys(st, lines[n]);
  }

  /** One record per distinct resolved name: the keys are exactly the names of the lines. */
  lemma {:induction false} ParseKeys(lines: seq<RecordValue>, n0: nat)
    ensures ParseAll(lines, n0).reduced.items.Keys == Names(lines, n0)
  {
    if lines != [] {
      var n := |lines| - 1;
      var pre := lines[..n];
      ParseKeys(pre, n0);
      ParseLast(lines, n0);
      forall i | 0 <= i < n ensures ResolvedName(pre, n0, i) == ResolvedName(lines, n0, i) {
        ResolvedNamePrefix(lines, n0, n, i);
      }
      assert Names(lines, n0) == Names(pre, n0) + {ResolvedName(lines, n0, n)};
    }
  }

  /** A name no line resolves to collects no spans. */
  lemma {:induction false} SpansNamedEmpty(lines: seq<RecordValue>, n0: nat, k: string)
    requires forall i :: 0 <= i < |lines| ==> ResolvedName(lines, n0, i) != k
    ensures SpansNamed(lines, n0, k) == []
  {
    if lines != [] {
      var n := |lines| - 1;
      forall i | 0 <= i < n ensures ResolvedName(lines[..n], n0, i) != k {
        ResolvedNamePrefix(lines, n0, n, i);
      }
      SpansNamedEmpty(lines[..n], n0, k);
    }
  }

  /** What a step stores under each key. */
  lemma StepRecord(st: ParseState, line: RecordValue, k: string)
    requires Valid(st.reduced)
    ensures var name := if line.name == "" then SyntheticName(st.counter) else line.name;
      var after := ParseStep(st, line).reduced.items;
      var sp := Span(line.start, line.stop);
      && (k != name && k in st.reduced.items ==> after[k] == st.reduced.items[k])
      && (k == name && k in st.reduced.items ==>
            after[k] == st.reduced.items[k].(spans := st.reduced.items[k].spans + [sp],
                                               start := Min(st.reduced.items[k].start, line.start),
                                               stop := Max(st.reduced.items[k].stop, line.stop)))
      && (k == name && k !in st.reduced.items ==> after[k] == line.(name := name, spans := line.spans + [sp]))
  {
  }

  /**
   * The stored record of name `k` keeps the fields of the first line of
   * that name; its spans are that line's own spans followed by
   * `[start, stop]` of every line of that name in input order; its start
   * is the least and its stop the greatest of those lines' coordinates.
   */
  lemma {:induction false} ParseRecord(lines: seq<RecordValue>, n0: nat, k: string)
    requires k in ParseAll(lines, n0).reduced.items
    ensures SpansNamed(lines, n0, k) != []
    ensures exists j: nat :: FirstNamed(lines, n0, k, j) && ParseAll(lines, n0).reduced.items[k] == FirstRecord(lines[j], k, SpansNamed(lines, n0, k))
  {
    var n := |lines| - 1;
    var pre := lines[..n];
    ParseLast(lines, n0);
    var name := ResolvedName(lines, n0, n);
    if k != name || k in ParseAll(pre, n0).reduced.items {
      ParseRecord(pre, n0, k);
      var j: nat :| FirstNamed(pre, n0, k, j) && ParseAll(pre, n0).reduced.items[k] == FirstRecord(pre[j], k, SpansNamed(pre, n0, k));
      ParseRecordKnown(lines, n0, k, j);
    } else {
      ParseRecordNew(lines, n0, k);
    }
  }

  lemma SpansNamedLast(lines: seq<RecordValue>, n0: nat, k: string)
    requires lines != []
    ensures var n := |lines| - 1;
      SpansNamed(lines, n0, k) == SpansNamed(lines[..n], n0, k)
        + (if ResolvedName(lines, n0, n) == k then [Span(lines[n].start, lines[n].stop)] else [])
  {
  }

  /** The last line either leaves the record of `k` alone or merges into it. */
  lemma ParseRecordKnown(lines: seq<RecordValue>, n0: nat, k: string, j: nat)
    requires lines != [] && k in ParseAll(lines, n0).reduced.items
    requires var pre := lines[..|lines| - 1];
      k in ParseAll(pre, n0).reduced.items && SpansNamed(pre, n0, k) != []
      && FirstNamed(pre, n0, k, j) && ParseAll(pre, n0).reduced.items[k] == FirstRecord(pre[j], k, SpansNamed(pre, n0, k))
    ensures SpansNamed(lines, n0, k) != []
    ensures FirstNamed(lines, n0, k, j) && ParseAll(lines, n0).reduced.items[k] == FirstRecord(lines[j], k, SpansNamed(lines, n0, k))
  {
    var n := |lines| - 1;
    var pre := lines[..n];
    var st := ParseAll(pre, n0);
    var line := lines[n];
    ParseLast(lines, n0);
    SpansNamedLast(lines, n0, k);
    StepRecord(st, line, k);
    FirstNamedExtends(lines, n0, k, j);
    if k == ResolvedName(lines, n0, n) {
      var spans := SpansNamed(lines, n0, k);
      var old_ := SpansNamed(pre, n0, k);
      assert spans[..|spans| - 1] == old_;
      assert MinStart(spans) == Min(MinStart(old_), line.start);
      assert MaxEnd(spans) == Max(MaxEnd(old_), line.stop);
    } else {
      assert SpansNamed(lines, n0, k) == SpansNamed(pre, n0, k);
      assert ParseAll(lines, n0).reduced.items[k] == st.reduced.items[k];
    }
  }

  lemma ParseRecordNew(lines: seq<RecordValue>, n0: nat, k: string)
    requires lines != [] && k == ResolvedName(lines, n0, |lines| - 1)
    requires k in ParseAll(lines, n0).reduced.items
    requires k !in ParseAll(lines[..|lines| - 1], n0).reduced.items
    ensures SpansNamed(lines, n0, k) != []
    ensures exists j: nat :: FirstNamed(lines, n0, k, j) && ParseAll(lines, n0).reduced.items[k] == FirstRecord(lines[j], k, SpansNamed(lines, n0, k))
  {
    var n := |lines| - 1;
    var pre := lines[..n];
    var st := ParseAll(pre, n0);
    var line := lines[n];
    ParseLast(lines, n0);
    SpansNamedLast(lines, n0, k);
    StepRecord(st, line, k);
    ParseKeys(pre, n0);
    assert k !in Names(pre, n0);
    SpansNamedEmpty(pre, n0, k);
    forall i | 0 <= i < n ensures ResolvedName(lines, n0, i) != k {
      ResolvedNamePrefix(lines, n0, n, i);
    }
    assert FirstNamed(lines, n0, k, n);
  }

  /** Line `j` is the first line stored under `k`. */
  ghost predicate FirstNamed(lines: seq<RecordValue>, n0: nat, k: string, j: nat) {
    j < |lines| && ResolvedName(lines, n0, j) == k
    && forall i :: 0 <= i < j ==> ResolvedName(lines, n0, i) != k
  }

  /** The record built from the first line of name `k` once all the coordinates in `spans` were merged in. */
  function FirstRecord(first: RecordValue, k: string, spans: seq<Span>): RecordValue
    requires spans != []
  {
    first.(name := k, spans := first.spans + spans,
                    start := MinStart(spans), stop := MaxEnd(spans))
  }

  lemma FirstNamedExtends(lines: seq<RecordValue>, n0: nat, k: string, j: nat)
    requires |lines| > 0 && FirstNamed(lines[..|lines| - 1], n0, k, j)
    ensures FirstNamed(lines, n0, k, j) && lines[..|lines| - 1][j] == lines[j]
  {
    var n := |lines| - 1;
    forall i | 0 <= i <= j ensures ResolvedName(lines[..n], n0, i) == ResolvedName(lines, n0, i) {
      ResolvedNamePrefix(lines, n0, n, i);
    }
  }

  /**
   * Re-reading a line that was already stored under its own name adds its
   * coordinates once more to that record and creates no record; the
   * counter, the key order and every other record stay as they were.
   */
  lemma RepeatedLine(lines: seq<RecordValue>, n0: nat, j: nat)
    requires j < |lines| && LineName(lines[j]) != ""
    ensures var before := ParseAll(lines, n0);
      var after := ParseAll(lines + [lines[j]], n0);
      var k := LineName(lines[j]);
      after.counter == before.counter
      && after.reduced.keys == before.reduced.keys
      && after.reduced.items.Keys == before.reduced.items.Keys
      && after.reduced.items[k].spans == before.reduced.items[k].spans + [Span(lines[j].start, lines[j].stop)]
      && (forall m :: m in before.reduced.items && m != k ==> after.reduced.items[m] == before.reduced.items[m])
  {
    var k := LineName(lines[j]);
    ParseKeys(lines, n0);
    assert ResolvedName(lines, n0, j) == k;
    assert (lines + [lines[j]])[..|lines|] == lines;
  }

  /** A fresh record for one parsed line, after `update_from_attrs`. */
  method ReadLine(line: RecordValue) returns (record: EnsemblGffRecord)
    ensures fresh(record) && record.featureId.None? && record.Value() == Updated(line)
  {
    record := new EnsemblGffRecord(line, false);
    record.UpdateFromAttrs();
  }

  /** The records a dict of records holds. */
  ghost function Objects(d: Dict<string, EnsemblGffRecord>): set<EnsemblGffRecord> {
    d.items.Values
  }

  /** No record is stored under two names. */
  ghost predicate Injective(d: Dict<string, EnsemblGffRecord>) {
    forall k, m :: k in d.items && m in d.items && k != m ==> d.items[k] != d.items[m]
  }

  /** The stored records hold the values of `model`, under the same keys in the same order. */
  ghost predicate Holds(d: Dict<string, EnsemblGffRecord>, model: Dict<string, RecordValue>)
    reads Objects(d)
  {
    d.keys == model.keys && d.items.Keys == model.items.Keys
    && forall k :: k in d.items ==> d.items[k].Value() == model.items[k]
  }

  /** A record read without a name gets `unknown-<counter>`, and the counter moves on. */
  method NameRecord(record: EnsemblGffRecord, counter: nat) returns (counter': nat)
    modifies record
    ensures old(record.name) == "" ==>
      record.Value() == old(record.Value()).(name := SyntheticName(counter)) && counter' == counter + 1
    ensures old(record.name) != "" ==> record.Value() == old(record.Value()) && counter' == counter
    ensures record.featureId == old(record.featureId)
  {
    counter' := counter;
    if record.name == "" {
      record.name := SyntheticName(counter);
      counter' := counter + 1;
    }
  }

  /** One more line of the stored record's name: its segment is appended and the bounds widen. */
  method Extend(target: EnsemblGffRecord, start: int, stop: int)
    modifies target
    ensures target.Value() == Widen(old(target.Value()), start, stop)
    ensures target.featureId == old(target.featureId)
  {
    target.spans, target.start, target.stop :=
      target.spans + [Span(start, stop)], Min(target.start, start), Max(target.stop, stop);
  }

  /** `reduced[record.name] = record` unless that name is already stored; no record changes. */
  method Store(reduced: Dict<string, EnsemblGffRecord>, record: EnsemblGffRecord,
               ghost model: Dict<string, RecordValue>)
      returns (reduced': Dict<string, EnsemblGffRecord>, ghost model': Dict<string, RecordValue>)
    requires Valid(reduced) && Injective(reduced) && record !in Objects(reduced)
    requires Valid(model) && Holds(reduced, model)
    requires record.featureId.None? && forall k :: k in reduced.items ==> reduced.items[k].featureId.None?
    ensures Valid(reduced') && Injective(reduced')
    ensures forall k :: k in reduced'.items ==>
      reduced'.items[k] == record || (k in reduced.items && reduced'.items[k] == reduced.items[k])
    ensures record.name in reduced'.items
    ensures forall k :: k in reduced'.items ==> reduced'.items[k].featureId.None?
    ensures model' == if record.name in model.items then model else Put(model, record.name, record.Value())
    ensures Valid(model') && Holds(reduced', model')
  {
    var name := record.name;
    if name in reduced.items {
      reduced', model' := reduced, model;
    } else {
      forall k | k in reduced.items ensures reduced.items[k] != record {
        assert reduced.items[k] in Objects(reduced);
      }
      reduced', model' := Put(reduced, name, record), Put(model, name, record.Value());
      assert reduced'.keys == model'.keys && reduced'.items.Keys == model'.items.Keys;
      forall k | k in reduced'.items
        ensures reduced'.items[k].Value() == model'.items[k] && reduced'.items[k].featureId.None?
        ensures reduced'.items[k] == record || (k in reduced.items && reduced'.items[k] == reduced.items[k])
      {
        if k != name {
          assert reduced'.items[k] == reduced.items[k];
        }
      }
      forall k, m | k in reduced'.items && m in reduced'.items && k != m
        ensures reduced'.items[k] != reduced'.items[m]
      {
        if k != name && m != name {
          assert reduced'.items[k] == reduced.items[k] && reduced'.items[m] == reduced.items[m];
        }
      }
    }
  }

  /** The stored record of `name` takes one more segment; every other stored record is left alone. */
  method ExtendStored(reduced: Dict<string, EnsemblGffRecord>, name: string, start: int, stop: int,
                      ghost model: Dict<string, RecordValue>)
    requires Valid(reduced) && Injective(reduced) && name in reduced.items
    requires Valid(model) && Holds(reduced, model)
    modifies reduced.items[name]
    ensures Holds(reduced, Put(model, name, Widen(model.items[name], start, stop)))
    ensures forall k :: k in reduced.items ==> reduced.items[k].featureId == old(reduced.items[k].featureId)
  {
    var target := reduced.items[name];
    ghost var model' := Put(model, name, Widen(model.items[name], start, stop));
    assert model'.keys == model.keys && model'.items.Keys == model.items.Keys;
    Extend(target, start, stop);
    forall k | k in reduced.items
      ensures reduced.items[k].Value() == model'.items[k]
      ensures reduced.items[k].featureId == old(reduced.items[k].featureId)
    {
      if k != name {
        assert reduced.items[k] != target;
      }
    }
  }

  /** The name a line is stored under, and the counter after it. */
  function LineKey(line: RecordValue, counter: nat): string {
    if line.name == "" then SyntheticName(counter) else line.name
  }

  /** `ParseStep` split as `MergeRecord` performs it: store the named line if new, then widen. */
  lemma StepAsStoreThenWiden(model: Dict<string, RecordValue>, counter: nat, line: RecordValue)
    requires Valid(model)
    ensures var name := LineKey(line, counter);
      var stored := if name in model.items then model else Put(model, name, line.(name := name));
      ParseStep(ParseState(model, counter), line)
        == ParseState(Put(stored, name, Widen(stored.items[name], line.start, line.stop)),
                      if line.name == "" then counter + 1 else counter)
  {
  }

  /** The body of the merge loop, for one record fresh from `ReadLine`. */
  method MergeRecord(reduced: Dict<string, EnsemblGffRecord>, counter: nat, record: EnsemblGffRecord,
                     ghost model: Dict<string, RecordValue>)
      returns (reduced': Dict<string, EnsemblGffRecord>, counter': nat, ghost model': Dict<string, RecordValue>)
    requires Valid(reduced) && Injective(reduced) && record !in Objects(reduced)
    requires record.featureId.None? && forall k :: k in reduced.items ==> reduced.items[k].featureId.None?
    requires Valid(model) && Holds(reduced, model)
    modifies record, Objects(reduced)
    ensures Valid(reduced') && Injective(reduced')
    ensures forall k :: k in reduced'.items ==>
      reduced'.items[k] == record || (k in reduced.items && reduced'.items[k] == reduced.items[k])
    ensures forall k :: k in reduced'.items ==> reduced'.items[k].featureId.None?
    ensures ParseState(model', counter') == ParseStep(ParseState(model, counter), old(record.Value()))
    ensures Valid(model') && Holds(reduced', model')
  {
    ghost var line := record.Value();
    counter' := NameRecord(record, counter);
    var name, start, stop := record.name, record.start, record.stop;
    assert record.Value() == line.(name := name) && name == LineKey(line, counter);
    assert start == line.start && stop == line.stop;
    assert Holds(reduced, model) && forall k :: k in reduced.items ==> reduced.items[k].featureId.None? by {
      forall k | k in reduced.items ensures reduced.items[k] != record {
        assert reduced.items[k] in Objects(reduced);
      }
    }
    ghost var stored;
    reduced', stored := Store(reduced, record, model);
    assert stored == if name in model.items then model else Put(model, name, line.(name := name));
    if reduced'.items[name] != record {
      assert reduced.items[name] in Objects(reduced);
    }
    ExtendStored(reduced', name, start, stop, stored);
    model' := Put(stored, name, Widen(stored.items[name], start, stop));
    StepAsStoreThenWiden(model, counter, line);
  }

  /**
   * The merge loop: every line becomes a fresh record, named from its
   * attributes or from the counter; the first record of each name is
   * stored, and every line of that name adds its coordinates to it.
   */
  method CustomGffParser(lines: seq<RecordValue>, numFakeIds: nat)
      returns (reduced: Dict<string, EnsemblGffRecord>, counter: nat)
    ensures Valid(reduced) && Injective(reduced)
    ensures forall k :: k in reduced.items ==> fresh(reduced.items[k])
    ensures forall k :: k in reduced.items ==> reduced.items[k].featureId.None?
    ensures Holds(reduced, ParseAll(UpdatedLines(lines), numFakeIds).reduced)
    ensures counter == ParseAll(UpdatedLines(lines), numFakeIds).counter
  {
    ghost var model: Dict<string, RecordValue> := Empty();
    reduced, counter := Empty(), numFakeIds;
    for i := 0 to |lines|
      invariant Valid(reduced) && Injective(reduced)
      invariant forall k :: k in reduced.items ==> fresh(reduced.items[k])
      invariant forall k :: k in reduced.items ==> reduced.items[k].featureId.None?
      invariant ParseState(model, counter) == ParseAll(UpdatedLines(lines[..i]), numFakeIds)
      invariant Holds(reduced, model)
    {
      var record := ReadLine(lines[i]);
      UpdatedSnoc(lines, i);
      ParseSnoc(UpdatedLines(lines[..i]), record.Value(), numFakeIds);
      ghost var before := reduced;
      reduced, counter, model := MergeRecord(reduced, counter, record, model);
      forall k | k in reduced.items ensures fresh(reduced.items[k]) {
        if reduced.items[k] != record {
          assert k in before.items;
        }
      }
    }
    assert lines[..|lines|] == lines;
  }
}
