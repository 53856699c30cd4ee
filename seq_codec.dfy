/**
 * `str2arr` and `arr2str` of `src/ensembl_lite/_genomedb.py`: a sequence is
 * stored as the index of each of its symbols in the moltype's extended
 * (degenerate) alphabet, through a `bytes.translate` table built by
 * `bytes.maketrans`.
 *
 * The alphabets of the moltypes are ASCII, so each symbol is one byte. The
 * text handed to `str2arr` and returned by `arr2str` is taken as its UTF-8
 * bytes, one byte per character.
 */
module SeqCodec {
  import opened Outcomes

  type Byte = x: int | 0 <= x < 256

  /** A symbol of a moltype alphabet. */
  type Ascii = x: int | 0 <= x < 128

  /** The table `bytes.translate` starts from: every byte maps to itself. */
  function Identity(): (t: seq<Byte>)
    ensures |t| == 256 && forall b :: 0 <= b < 256 ==> t[b] == b
  {
    seq(256, i requires 0 <= i < 256 => i)
  }

  /** `i` is the last place of `from` holding `from[i]`. */
  ghost predicate LastOf(from: seq<Byte>, i: nat)
    requires i < |from|
  {
    forall j :: i < j < |from| ==> from[j] != from[i]
  }

  /**
   * The table `bytes.maketrans(from, to)` builds when both have the same
   * length, by writing `to[i]` at `from[i]` in order.
   */
  function Fill(from: seq<Byte>, to: seq<Byte>): (t: seq<Byte>)
    requires |from| == |to|
    ensures |t| == 256
    decreases |from|
  {
    if from == [] then Identity()
    else
      var n := |from| - 1;
      Fill(from[..n], to[..n])[from[n] := to[n]]
  }

  /**
   * In the table, `from[i]` maps to `to[i]` where `i` is its last place in
   * `from`, a byte of `from` maps into `to`, and every other byte maps to
   * itself.
   */
  lemma FillSpec(from: seq<Byte>, to: seq<Byte>)
    requires |from| == |to|
    ensures var t := Fill(from, to);
      (forall b :: 0 <= b < 256 && b !in from ==> t[b] == b)
      && (forall i :: 0 <= i < |from| && LastOf(from, i) ==> t[from[i]] == to[i])
      && (forall b :: 0 <= b < 256 && b in from ==> t[b] in to)
  {
    FillOutside(from, to);
    FillLast(from, to);
    FillInto(from, to);
  }

  lemma {:induction false} FillOutside(from: seq<Byte>, to: seq<Byte>)
    requires |from| == |to|
    ensures forall b :: 0 <= b < 256 && b !in from ==> Fill(from, to)[b] == b
    decreases |from|
  {
    if from != [] {
      var n := |from| - 1;
      FillOutside(from[..n], to[..n]);
      forall b | 0 <= b < 256 && b !in from ensures Fill(from, to)[b] == b {
        assert b !in from[..n] && b != from[n];
      }
    }
  }

  lemma {:induction false} FillLast(from: seq<Byte>, to: seq<Byte>)
    requires |from| == |to|
    ensures forall i :: 0 <= i < |from| && LastOf(from, i) ==> Fill(from, to)[from[i]] == to[i]
    decreases |from|
  {
    if from != [] {
      var n := |from| - 1;
      var f, g := from[..n], to[..n];
      FillLast(f, g);
      forall i | 0 <= i < |from| && LastOf(from, i) ensures Fill(from, to)[from[i]] == to[i] {
        if i < n {
          assert from[i] != from[n];
          assert f[i] == from[i] && g[i] == to[i];
          assert LastOf(f, i);
        }
      }
    }
  }

  lemma {:induction false} FillInto(from: seq<Byte>, to: seq<Byte>)
    requires |from| == |to|
    ensures forall b :: 0 <= b < 256 && b in from ==> Fill(from, to)[b] in to
    decreases |from|
  {
    if from != [] {
      var n := |from| - 1;
      var f, g := from[..n], to[..n];
      FillInto(f, g);
      forall b | 0 <= b < 256 && b in from ensures Fill(from, to)[b] in to {
        if b != from[n] {
          var j :| 0 <= j < |from| && from[j] == b;
          assert j < n && f[j] == b;
          var x := Fill(f, g)[b];
          assert x in g;
          var k :| 0 <= k < n && g[k] == x;
          assert to[k] == x;
        }
      }
    }
  }

  /** `bytes.maketrans`: a `ValueError` when the two arguments differ in length. */
  function MakeTrans(from: seq<Byte>, to: seq<Byte>): (r: Result<seq<Byte>, string>)
    ensures r.Success? <==> |from| == |to|
    ensures r.Success? ==> r.value == Fill(from, to)
  {
    if |from| != |to| then Failure("ValueError: maketrans arguments must have same length")
    else Success(Fill(from, to))
  }

  /** How many bytes UTF-8 gives the character with code point `i`. */
  function Utf8Width(i: nat): nat {
    if i < 0x80 then 1 else if i < 0x800 then 2 else if i < 0x1_0000 then 3 else 4
  }

  /** The length of `"".join(chr(i) for i in range(n)).encode("utf8")`. */
  function IndexTextLength(n: nat): nat {
    if n == 0 then 0 else IndexTextLength(n - 1) + Utf8Width(n - 1)
  }

  /** The encoded index text is one byte per index exactly when no index reaches 128. */
  lemma {:induction false} IndexTextLengthExact(n: nat)
    ensures IndexTextLength(n) >= n
    ensures IndexTextLength(n) == n <==> n <= 128
    ensures n > 128 ==> IndexTextLength(n) >= 2 * n - 128
  {
    if n > 0 {
      IndexTextLengthExact(n - 1);
    }
  }

  /** The bytes of `chr(0) … chr(n - 1)`, for `n` up to 128: the bytes `0 … n - 1`. */
  function IndexText(n: nat): (t: seq<Byte>)
    requires n <= 128
    ensures |t| == n && forall i :: 0 <= i < n ==> t[i] == i
  {
    seq(n, i requires 0 <= i < n => i)
  }

  /** `data[:m]` for a truthy `m` (negative `m` counts from the end), and the whole of `data` for `m == 0`. */
  function SliceTo<T>(data: seq<T>, m: int): (r: seq<T>)
    ensures m == 0 ==> r == data
    ensures m > 0 ==> r == data[..if m < |data| then m else |data|]
    ensures m < 0 ==> r == data[..if |data| + m > 0 then |data| + m else 0]
  {
    if m == 0 then data
    else if m > 0 then (if m < |data| then data[..m] else data)
    else (if |data| + m > 0 then data[..|data| + m] else [])
  }

  /**
   * Slicing keeps a prefix of the data, as long as `max_length` allows,
   * and slicing again to a non-negative limit changes nothing.
   */
  lemma SliceToPrefix<T>(data: seq<T>, m: int)
    ensures var r := SliceTo(data, m);
      |r| <= |data| && r == data[..|r|]
      && (m > 0 ==> |r| == if m < |data| then m else |data|)
      && (m < 0 ==> |r| == if |data| + m > 0 then |data| + m else 0)
      && (m >= 0 ==> SliceTo(r, m) == r)
  {
    var r := SliceTo(data, m);
    if m > 0 && m < |data| {
      assert |r| == m;
    }
  }

  /** `bytes.translate`: every byte replaced by its table entry. */
  function Translate(t: seq<Byte>, data: seq<Byte>): (r: seq<Byte>)
    requires |t| == 256
    ensures |r| == |data| && forall i :: 0 <= i < |data| ==> r[i] == t[data[i]]
  {
    seq(|data|, i requires 0 <= i < |data| => t[data[i]])
  }

  /**
   * A configured `str2arr` or `arr2str`: the alphabet, `max_length` (0
   * standing for both `None` and 0, which the source treats alike as no
   * limit) and the translation table.
   */
  datatype Codec = Codec(alphabet: seq<Ascii>, maxLength: int, translation: seq<Byte>)

  /** The symbols of the alphabet, as bytes. */
  function Symbols(alphabet: seq<Ascii>): (s: seq<Byte>)
    ensures |s| == |alphabet| && forall i :: 0 <= i < |s| ==> s[i] == alphabet[i]
  {
    seq(|alphabet|, i requires 0 <= i < |alphabet| => alphabet[i])
  }

  /**
   * `str2arr(moltype, max_length)`: each symbol maps to its index in the
   * alphabet (the last index when a symbol repeats); an alphabet of more
   * than 128 symbols makes `maketrans` raise, as the index text is then
   * longer than the alphabet.
   */
  function NewStr2Arr(alphabet: seq<Ascii>, maxLength: int): (r: Result<Codec, string>)
    ensures r.Success? <==> |alphabet| <= 128
    ensures r.Success? ==>
      r.value.alphabet == alphabet && r.value.maxLength == maxLength
      && r.value.translation == Fill(Symbols(alphabet), IndexText(|alphabet|))
  {
    IndexTextLengthExact(|alphabet|);
    if |alphabet| > 128 then Failure("ValueError: maketrans arguments must have same length")
    else match MakeTrans(Symbols(alphabet), IndexText(|alphabet|))
      case Success(t) => Success(Codec(alphabet, maxLength, t))
      case Failure(e) => Failure(e)
  }

  /** `arr2str(moltype, max_length)`: each index maps back to its symbol. */
  function NewArr2Str(alphabet: seq<Ascii>, maxLength: int): (r: Result<Codec, string>)
    ensures r.Success? <==> |alphabet| <= 128
    ensures r.Success? ==>
      r.value.alphabet == alphabet && r.value.maxLength == maxLength
      && r.value.translation == Fill(IndexText(|alphabet|), Symbols(alphabet))
  {
    IndexTextLengthExact(|alphabet|);
    if |alphabet| > 128 then Failure("ValueError: maketrans arguments must have same length")
    else match MakeTrans(IndexText(|alphabet|), Symbols(alphabet))
      case Success(t) => Success(Codec(alphabet, maxLength, t))
      case Failure(e) => Failure(e)
  }

  /** `str2arr.main` and `arr2str.main`: truncate, then translate. */
  function Apply(c: Codec, data: seq<Byte>): (r: seq<Byte>)
    requires |c.translation| == 256
    ensures |r| == |SliceTo(data, c.maxLength)|
  {
    Translate(c.translation, SliceTo(data, c.maxLength))
  }

  /** Every data byte is a symbol of the alphabet. */
  ghost predicate Over(alphabet: seq<Ascii>, data: seq<Byte>) {
    forall i :: 0 <= i < |data| ==> data[i] in Symbols(alphabet)
  }

  /**
   * `str2arr` sends a symbol to an index of the alphabet that holds that
   * symbol, and leaves every byte outside the alphabet unchanged.
   */
  lemma EncodeSymbol(alphabet: seq<Ascii>, b: Byte)
    requires |alphabet| <= 128
    ensures var t := Fill(Symbols(alphabet), IndexText(|alphabet|));
      (b in Symbols(alphabet) ==> t[b] < |alphabet| && alphabet[t[b]] == b)
      && (b !in Symbols(alphabet) ==> t[b] == b)
  {
    var from, to := Symbols(alphabet), IndexText(|alphabet|);
    FillSpec(from, to);
    if b in from {
      var i := LastIndex(from, b);
      assert to[i] == i;
    }
  }

  /** The last place of `b` in `s`. */
  lemma LastIndex(s: seq<Byte>, b: Byte) returns (i: nat)
    requires b in s
    ensures i < |s| && s[i] == b && LastOf(s, i)
  {
    i := |s| - 1;
    while s[i] != b
      invariant 0 <= i < |s| && b in s[..i + 1]
      invariant forall j :: i < j < |s| ==> s[j] != b
      decreases i
    {
      assert s[..i + 1] == s[..i] + [s[i]];
      i := i - 1;
    }
  }

  /** `arr2str` sends each index of the alphabet to the symbol at that index. */
  lemma DecodeIndex(alphabet: seq<Ascii>, b: Byte)
    requires |alphabet| <= 128
    ensures var t := Fill(IndexText(|alphabet|), Symbols(alphabet));
      (b < |alphabet| ==> t[b] == alphabet[b]) && (b >= |alphabet| ==> t[b] == b)
  {
    var from := IndexText(|alphabet|);
    FillSpec(from, Symbols(alphabet));
    if b < |alphabet| {
      assert from[b] == b && LastOf(from, b);
    } else {
      assert b !in from;
    }
  }

  /** Every byte `str2arr` makes of a text over the alphabet is below the alphabet size. */
  lemma EncodeBound(alphabet: seq<Ascii>, maxLength: int, data: seq<Byte>)
    requires |alphabet| <= 128 && Over(alphabet, data)
    ensures var enc := Apply(NewStr2Arr(alphabet, maxLength).value, data);
      forall i :: 0 <= i < |enc| ==> enc[i] < |alphabet|
  {
    var c := NewStr2Arr(alphabet, maxLength).value;
    var d := SliceTo(data, maxLength);
    forall i | 0 <= i < |d| ensures c.translation[d[i]] < |alphabet| {
      EncodeSymbol(alphabet, d[i]);
    }
  }

  /**
   * `arr2str(str2arr(s)) == s` for a text over the alphabet, when `arr2str`
   * has no limit; with a `max_length` on `str2arr`, the round trip gives the
   * truncated text.
   */
  lemma RoundTrip(alphabet: seq<Ascii>, maxLength: int, data: seq<Byte>)
    requires |alphabet| <= 128 && Over(alphabet, data)
    ensures var enc := Apply(NewStr2Arr(alphabet, maxLength).value, data);
      Apply(NewArr2Str(alphabet, 0).value, enc) == SliceTo(data, maxLength)
  {
    var c := NewStr2Arr(alphabet, maxLength).value;
    var e := NewArr2Str(alphabet, 0).value;
    var d := SliceTo(data, maxLength);
    var enc := Apply(c, data);
    var dec := Apply(e, enc);
    assert SliceTo(enc, 0) == enc;
    forall i | 0 <= i < |d| ensures dec[i] == d[i] {
      assert d[i] in Symbols(alphabet);
      EncodeSymbol(alphabet, d[i]);
      assert enc[i] == c.translation[d[i]];
      DecodeIndex(alphabet, enc[i]);
      assert dec[i] == e.translation[enc[i]];
    }
    assert dec == d;
  }

  /** With the same non-negative `max_length` on both sides, the round trip still gives the truncated text. */
  lemma RoundTripLimited(alphabet: seq<Ascii>, maxLength: nat, data: seq<Byte>)
    requires |alphabet| <= 128 && Over(alphabet, data)
    ensures var enc := Apply(NewStr2Arr(alphabet, maxLength).value, data);
      Apply(NewArr2Str(alphabet, maxLength).value, enc) == SliceTo(data, maxLength)
  {
    var enc := Apply(NewStr2Arr(alphabet, maxLength).value, data);
    RoundTrip(alphabet, maxLength, data);
    assert SliceTo(enc, maxLength) == enc;
  }
}
