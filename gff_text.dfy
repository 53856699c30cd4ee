/**
 * The text rules the feature normaliser applies to GFF3 attribute fields,
 * written as scans equivalent to the regular expressions of
 * `src/ensembl_lite/_genomedb.py`:
 *   - `\b[a-z]+:` (case-insensitive), a type prefix such as `Gene:`;
 *   - `(?<=\bKEY=)[^;]+`, the value of a `KEY=value;` field.
 * Characters are classified on ASCII: `[a-z]` under IGNORECASE is an ASCII
 * letter, `\w` an ASCII letter, digit or underscore.
 */
module GffText {
  import opened Outcomes

  predicate IsLetter(c: char) {
    'a' <= c <= 'z' || 'A' <= c <= 'Z'
  }

  predicate IsWordChar(c: char) {
    IsLetter(c) || '0' <= c <= '9' || c == '_'
  }

  /** `str.lower` on one ASCII character. */
  function LowerChar(c: char): char {
    if 'A' <= c <= 'Z' then (c as int + 32) as char else c
  }

  function Lower(s: string): (r: string)
    ensures |r| == |s|
    ensures forall k :: 0 <= k < |s| ==> r[k] == LowerChar(s[k])
  {
    seq(|s|, k requires 0 <= k < |s| => LowerChar(s[k]))
  }

  /** `\b` at position `q`: a word character on exactly one side of `q`. */
  predicate WordBoundary(s: string, q: nat)
    requires q <= |s|
  {
    (q > 0 && IsWordChar(s[q - 1])) != (q < |s| && IsWordChar(s[q]))
  }

  /** The end of the run of letters that starts at `i`. */
  function LetterRunEnd(s: string, i: nat): (j: nat)
    requires i <= |s|
    ensures i <= j <= |s|
    ensures forall k :: i <= k < j ==> IsLetter(s[k])
    ensures j == |s| || !IsLetter(s[j])
    decreases |s| - i
  {
    if i < |s| && IsLetter(s[i]) then LetterRunEnd(s, i + 1) else i
  }

  /**
   * `\b[a-z]+:` matches at `i`. The letter class is greedy and ':' is not a
   * letter, so the only candidate is the whole run of letters from `i`.
   */
  predicate TypedIdAt(s: string, i: nat)
    requires i < |s|
  {
    WordBoundary(s, i) && IsLetter(s[i])
    && LetterRunEnd(s, i) < |s| && s[LetterRunEnd(s, i)] == ':'
  }

  /**
   * `re.sub(r"\b[a-z]+:", repl, s)` from position `i` on: each match is
   * replaced by `repl` of the matched text and the scan resumes after it;
   * elsewhere the scan copies one character and moves on.
   */
  function SubTypedIds(s: string, i: nat, repl: string -> string): string
    requires i <= |s|
    decreases |s| - i
  {
    if i == |s| then ""
    else if TypedIdAt(s, i) then
      var j := LetterRunEnd(s, i) + 1;
      repl(s[i..j]) + SubTypedIds(s, j, repl)
    else
      [s[i]] + SubTypedIds(s, i + 1, repl)
  }

  /** `tidy_gff3_stableids`: lower-cases every type prefix. */
  function TidyStableIds(attrs: string): string {
    SubTypedIds(attrs, 0, Lower)
  }

  /** `EnsemblGffRecord.stableid` on a name: deletes every type prefix. */
  function StripTypedIds(name: string): string {
    SubTypedIds(name, 0, m => "")
  }

  /** Position `k` lies inside some match of `\b[a-z]+:` (its ':' included). */
  ghost predicate Covered(s: string, k: nat)
    requires k < |s|
  {
    exists a :: 0 <= a <= k && TypedIdAt(s, a) && k <= LetterRunEnd(s, a)
  }

  /** No match that starts before `i` reaches position `i`: the scan can be at `i`. */
  ghost predicate ScanPoint(s: string, i: nat)
    requires i <= |s|
  {
    forall a :: 0 <= a < i && TypedIdAt(s, a) ==> LetterRunEnd(s, a) < i
  }

  lemma CoveredInMatch(s: string, i: nat, k: nat)
    requires i <= k < |s| && TypedIdAt(s, i) && k <= LetterRunEnd(s, i)
    ensures Covered(s, k)
  {
  }

  lemma NotCoveredAtScanPoint(s: string, i: nat)
    requires i < |s| && ScanPoint(s, i) && !TypedIdAt(s, i)
    ensures !Covered(s, i)
  {
    forall a | 0 <= a <= i && TypedIdAt(s, a)
      ensures LetterRunEnd(s, a) < i
    {
    }
  }

  lemma ScanPointAfterMatch(s: string, i: nat)
    requires i < |s| && ScanPoint(s, i) && TypedIdAt(s, i)
    ensures ScanPoint(s, LetterRunEnd(s, i) + 1)
  {
    var j := LetterRunEnd(s, i);
    forall a | 0 <= a < j + 1 && TypedIdAt(s, a)
      ensures LetterRunEnd(s, a) < j + 1
    {
      if i < a < j {
        assert IsLetter(s[a - 1]);
      }
    }
  }

  lemma ScanPointAfterCopy(s: string, i: nat)
    requires i < |s| && ScanPoint(s, i) && !TypedIdAt(s, i)
    ensures ScanPoint(s, i + 1)
  {
  }

  /** What `tidy_gff3_stableids` puts at position `k`. */
  ghost function TidiedAt(s: string, k: nat): char
    requires k < |s|
  {
    if Covered(s, k) then LowerChar(s[k]) else s[k]
  }

  /** From `i` on, the substitution writes exactly what `TidiedAt` says. */
  ghost predicate TidiedFrom(s: string, i: nat)
    requires i <= |s|
  {
    var out := SubTypedIds(s, i, Lower);
    |out| == |s| - i && forall k :: i <= k < |s| ==> out[k - i] == TidiedAt(s, k)
  }

  lemma TidyMatchStep(s: string, i: nat)
    requires i < |s| && TypedIdAt(s, i)
    requires TidiedFrom(s, LetterRunEnd(s, i) + 1)
    ensures TidiedFrom(s, i)
  {
    var out := SubTypedIds(s, i, Lower);
    var j := LetterRunEnd(s, i);
    var head := Lower(s[i..j + 1]);
    var rest := SubTypedIds(s, j + 1, Lower);
    assert out == head + rest;
    forall k | i <= k < |s|
      ensures out[k - i] == TidiedAt(s, k)
    {
      if k <= j {
        CoveredInMatch(s, i, k);
        assert out[k - i] == head[k - i];
      } else {
        assert out[k - i] == rest[k - (j + 1)];
      }
    }
  }

  lemma TidyCopyStep(s: string, i: nat)
    requires i < |s| && ScanPoint(s, i) && !TypedIdAt(s, i)
    requires TidiedFrom(s, i + 1)
    ensures TidiedFrom(s, i)
  {
    NotCoveredAtScanPoint(s, i);
    var out := SubTypedIds(s, i, Lower);
    var rest := SubTypedIds(s, i + 1, Lower);
    assert out == [s[i]] + rest;
    forall k | i <= k < |s|
      ensures out[k - i] == TidiedAt(s, k)
    {
      if k > i {
        assert out[k - i] == rest[k - (i + 1)];
      }
    }
  }

  lemma {:induction false} TidyFrom(s: string, i: nat)
    requires i <= |s| && ScanPoint(s, i)
    ensures TidiedFrom(s, i)
    decreases |s| - i
  {
    if i < |s| {
      if TypedIdAt(s, i) {
        ScanPointAfterMatch(s, i);
        TidyFrom(s, LetterRunEnd(s, i) + 1);
        TidyMatchStep(s, i);
      } else {
        ScanPointAfterCopy(s, i);
        TidyFrom(s, i + 1);
        TidyCopyStep(s, i);
      }
    }
  }

  /**
   * `tidy_gff3_stableids` keeps the length of its input and changes exactly
   * the characters inside a type prefix `\b[a-z]+:`, each to its lower case;
   * every other character is left as it was.
   */
  lemma TidyStableIdsSpec(s: string)
    ensures |TidyStableIds(s)| == |s|
    ensures forall k :: 0 <= k < |s| ==> TidyStableIds(s)[k] == TidiedAt(s, k)
  {
    TidyFrom(s, 0);
  }

  /** Two strings whose characters fall in the same classes position by position. */
  ghost predicate SameShape(s: string, t: string) {
    |s| == |t|
    && forall k :: 0 <= k < |s| ==>
      IsLetter(s[k]) == IsLetter(t[k]) && IsWordChar(s[k]) == IsWordChar(t[k])
      && (s[k] == ':') == (t[k] == ':')
  }

  lemma {:induction false} SameShapeRunEnd(s: string, t: string, i: nat)
    requires SameShape(s, t) && i <= |s|
    ensures LetterRunEnd(s, i) == LetterRunEnd(t, i)
    decreases |s| - i
  {
    if i < |s| && IsLetter(s[i]) {
      SameShapeRunEnd(s, t, i + 1);
    }
  }

  lemma SameShapeCovered(s: string, t: string)
    requires SameShape(s, t)
    ensures forall k :: 0 <= k < |s| ==> Covered(s, k) == Covered(t, k)
  {
    forall a | 0 <= a < |s|
      ensures LetterRunEnd(s, a) == LetterRunEnd(t, a) && TypedIdAt(s, a) == TypedIdAt(t, a)
    {
      SameShapeRunEnd(s, t, a);
    }
  }

  /** Tidying twice is tidying once. */
  lemma TidyStableIdsIdempotent(s: string)
    ensures TidyStableIds(TidyStableIds(s)) == TidyStableIds(s)
  {
    var t := TidyStableIds(s);
    TidyStableIdsSpec(s);
    TidyStableIdsSpec(t);
    assert SameShape(s, t);
    SameShapeCovered(s, t);
    forall k | 0 <= k < |t|
      ensures TidyStableIds(t)[k] == t[k]
    {
      LowerCharIdempotent(s[k]);
    }
  }

  lemma LowerCharIdempotent(c: char)
    ensures LowerChar(LowerChar(c)) == LowerChar(c)
  {
  }

  lemma {:induction false} RunEndOfLetters(s: string, i: nat, m: nat)
    requires i <= m <= |s|
    requires forall k :: i <= k < m ==> IsLetter(s[k])
    requires m == |s| || !IsLetter(s[m])
    ensures LetterRunEnd(s, i) == m
    decreases m - i
  {
    if i < m {
      RunEndOfLetters(s, i + 1, m);
    }
  }

  lemma {:induction false} NoColonCopies(s: string, i: nat, repl: string -> string)
    requires i <= |s|
    requires forall k :: i <= k < |s| ==> s[k] != ':'
    ensures SubTypedIds(s, i, repl) == s[i..]
    decreases |s| - i
  {
    if i < |s| {
      assert !TypedIdAt(s, i);
      NoColonCopies(s, i + 1, repl);
    }
  }

  /**
   * `stableid` of a name made of one type prefix and an id without ':'
   * (such as `gene:ENSG00000139618`) is that id.
   */
  lemma StripTypedPrefix(p: string, rest: string)
    requires |p| > 0 && forall k :: 0 <= k < |p| ==> IsLetter(p[k])
    requires forall k :: 0 <= k < |rest| ==> rest[k] != ':'
    ensures StripTypedIds(p + ":" + rest) == rest
  {
    var s := p + ":" + rest;
    RunEndOfLetters(s, 0, |p|);
    assert TypedIdAt(s, 0);
    NoColonCopies(s, |p| + 1, m => "");
    assert s[|p| + 1..] == rest;
  }

  /**
   * The lookbehind `(?<=\bKEY=)` holds at `p` and `[^;]+` can start there.
   */
  predicate ValueAt(s: string, key: string, p: nat) {
    |key| <= p < |s| && s[p - |key|..p] == key
    && WordBoundary(s, p - |key|)
    && s[p] != ';'
  }

  /** `v` stands at `p` and is followed by a ';' or the end of `s`. */
  predicate FieldValueAt(s: string, p: nat, v: string) {
    p + |v| <= |s| && s[p..p + |v|] == v && (p + |v| == |s| || s[p + |v|] == ';')
  }

  /** `v` is the value of the leftmost `KEY=` field, which starts at `p`. */
  ghost predicate LeftmostValue(s: string, key: string, p: nat, v: string) {
    ValueAt(s, key, p) && FieldValueAt(s, p, v) && forall q :: 0 <= q < p ==> !ValueAt(s, key, q)
  }

  /** Where the greedy `[^;]+` that starts at `p` stops. */
  function ValueEnd(s: string, p: nat): (q: nat)
    requires p <= |s|
    ensures p <= q <= |s|
    ensures q == |s| || s[q] == ';'
    ensures forall k :: p <= k < q ==> s[k] != ';'
    decreases |s| - p
  {
    if p == |s| || s[p] == ';' then p else ValueEnd(s, p + 1)
  }

  /** The leftmost position at or after `p` where the value pattern matches. */
  function SearchFrom(s: string, key: string, p: nat): (r: Option<nat>)
    requires p <= |s|
    ensures r.Some? ==> p <= r.value < |s| && ValueAt(s, key, r.value)
    ensures r.Some? ==> forall q :: p <= q < r.value ==> !ValueAt(s, key, q)
    ensures r.None? ==> forall q :: p <= q < |s| ==> !ValueAt(s, key, q)
    decreases |s| - p
  {
    if p == |s| then None
    else if ValueAt(s, key, p) then Some(p)
    else SearchFrom(s, key, p + 1)
  }

  /** `re.search(r"(?<=\bKEY=)[^;]+", s)`, the match's text or `None`. */
  function Search(s: string, key: string): Option<string> {
    match SearchFrom(s, key, 0)
    case None => None
    case Some(p) => Some(s[p..ValueEnd(s, p)])
  }

  /**
   * `Search` finds the value of the leftmost `KEY=` field, at a word
   * boundary, whose value is not empty; it finds nothing exactly when no
   * such field exists. The value is never empty, holds no ';', directly
   * follows `KEY=` and runs up to a ';' or the end.
   */
  lemma SearchSpec(s: string, key: string)
    ensures Search(s, key).None? <==> forall q :: 0 <= q < |s| ==> !ValueAt(s, key, q)
    ensures Search(s, key).Some? ==>
      var v := Search(s, key).value;
      |v| > 0 && (forall k :: 0 <= k < |v| ==> v[k] != ';') && exists p: nat :: LeftmostValue(s, key, p, v)
  {
    match SearchFrom(s, key, 0)
    case None =>
    case Some(p) =>
      var v := s[p..ValueEnd(s, p)];
      assert s[p..p + |v|] == v;
      assert LeftmostValue(s, key, p, v);
  }

  predicate OccursAt(s: string, sub: string, i: nat) {
    i + |sub| <= |s| && s[i..i + |sub|] == sub
  }

  /** Python's `sub in s`. */
  function Contains(s: string, sub: string): (b: bool)
    ensures b <==> exists i: nat :: OccursAt(s, sub, i)
  {
    if |s| < |sub| then false
    else if s[..|sub|] == sub then
      assert OccursAt(s, sub, 0);
      true
    else
      var b := Contains(s[1..], sub);
      if b then
        var i: nat :| OccursAt(s[1..], sub, i);
        assert OccursAt(s, sub, i + 1);
        true
      else
        assert forall i: nat :: OccursAt(s, sub, i) ==> i > 0 && OccursAt(s[1..], sub, i - 1);
        false
  }

  /** A string that starts with `sub` contains it. */
  lemma ContainsPrefix(sub: string, s: string)
    ensures Contains(sub + s, sub)
  {
    assert OccursAt(sub + s, sub, 0);
  }

  /** `s.split(sep)[0]`: the text before the first `sep`, or all of `s`. */
  function FirstField(s: string, sep: char): (r: string)
    ensures |r| <= |s| && r == s[..|r|]
    ensures forall k :: 0 <= k < |r| ==> r[k] != sep
    ensures |r| == |s| || s[|r|] == sep
  {
    if s == [] || s[0] == sep then ""
    else [s[0]] + FirstField(s[1..], sep)
  }
}
