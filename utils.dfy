/**
  `splitRandom` of src/lib/utils.ts: cuts a string into consecutive chunks whose
  lengths are drawn at random between two bounds. The random draw is an arbitrary
  choice within the bounds, so every property below holds whatever `Math.random`
  returns.
 */
module Utils {

  /** The chunks, concatenated in order. */
  function Join(chunks: seq<string>): string {
    if chunks == [] then "" else Join(chunks[..|chunks| - 1]) + chunks[|chunks| - 1]
  }

  lemma JoinSnoc(chunks: seq<string>, c: string)
    ensures Join(chunks + [c]) == Join(chunks) + c
  {
    assert (chunks + [c])[..|chunks|] == chunks;
  }

  /** Every chunk has between 1 and `hi` characters, and every chunk but the last at least `lo`. */
  predicate ChunkSizes(chunks: seq<string>, lo: int, hi: int) {
    && (forall k :: 0 <= k < |chunks| ==> 1 <= |chunks[k]| <= hi)
    && (forall k :: 0 <= k < |chunks| - 1 ==> lo <= |chunks[k]|)
  }

  lemma ChunkSizesSnoc(chunks: seq<string>, c: string, lo: int, hi: int)
    requires ChunkSizes(chunks, lo, hi) && 1 <= |c| <= hi
    requires chunks != [] ==> lo <= |chunks[|chunks| - 1]|
    ensures ChunkSizes(chunks + [c], lo, hi)
  {
    assert forall k :: 0 <= k < |chunks| ==> (chunks + [c])[k] == chunks[k];
  }

  /**
    The chunk-length bounds `splitRandom` works with: `min` raised to 1 when it is
    smaller, then `max` raised to `min` when it is smaller.
   */
  function Bounds(min: int, max: int): (b: (int, int))
    ensures 1 <= b.0 <= b.1
    ensures b.0 == min || (min < 1 && b.0 == 1)
    ensures b.1 == max || (max < b.0 && b.1 == b.0)
  {
    var lo := if min < 1 then 1 else min;
    (lo, if max < lo then lo else max)
  }

  /**
    `splitRandom(str, min, max)`: the chunks concatenate back to `str`, each of them
    within the corrected bounds except that the last one may be shorter than `min`;
    the empty string gives no chunk at all.
   */
  method SplitRandom(str: string, min: int := 3, max: int := 10) returns (out: seq<string>)
    ensures Join(out) == str
    ensures ChunkSizes(out, Bounds(min, max).0, Bounds(min, max).1)
    ensures out == [] <==> str == []
  {
    var lo, hi := min, max;
    if lo < 1 {
      lo := 1;
    }
    if hi < lo {
      hi := lo;
    }
    out := [];
    var i := 0;
    while i < |str|
      invariant 0 <= i <= |str|
      invariant Join(out) == str[..i]
      invariant ChunkSizes(out, lo, hi)
      invariant out != [] && |out[|out| - 1]| < lo ==> i == |str|
      invariant out == [] <==> i == 0
      decreases |str| - i
    {
      var remaining := |str| - i;
      // `Math.floor(Math.random() * (max - min + 1)) + min`: some whole number from `min` to `max`.
      var pick :| lo <= pick <= hi;
      var len := if remaining < pick then remaining else pick;
      JoinStep(str, out, i, i + len);
      ChunkSizesSnoc(out, str[i..i + len], lo, hi);
      out := out + [str[i..i + len]];
      i := i + len;
    }
    assert str[..i] == str;
  }

  /** Appending the next chunk extends the joined prefix of `str` by that chunk. */
  lemma JoinStep(str: string, out: seq<string>, i: nat, j: nat)
    requires i <= j <= |str| && Join(out) == str[..i]
    ensures Join(out + [str[i..j]]) == str[..j]
  {
    JoinSnoc(out, str[i..j]);
    assert str[..j] == str[..i] + str[i..j];
  }

  /** Chunks of at most `hi` characters cover at most `|chunks| * hi` characters. */
  lemma {:induction false} JoinUpper(chunks: seq<string>, hi: int)
    requires forall k :: 0 <= k < |chunks| ==> |chunks[k]| <= hi
    ensures |Join(chunks)| <= |chunks| * hi
    decreases |chunks|
  {
    if chunks != [] {
      var p := chunks[..|chunks| - 1];
      assert forall k :: 0 <= k < |p| ==> p[k] == chunks[k];
      JoinUpper(p, hi);
      assert |chunks| * hi == |p| * hi + hi;
    }
  }

  /** Chunks of at least `lo` characters cover at least `|chunks| * lo` characters. */
  lemma {:induction false} JoinAtLeast(chunks: seq<string>, lo: int)
    requires forall k :: 0 <= k < |chunks| ==> lo <= |chunks[k]|
    ensures |chunks| * lo <= |Join(chunks)|
    decreases |chunks|
  {
    if chunks != [] {
      var p := chunks[..|chunks| - 1];
      assert forall k :: 0 <= k < |p| ==> p[k] == chunks[k];
      JoinAtLeast(p, lo);
      assert |chunks| * lo == |p| * lo + lo;
    }
  }

  /** With every chunk but the last at least `lo` long and the last non-empty, more than `(|chunks| - 1) * lo` characters are covered. */
  lemma JoinLower(chunks: seq<string>, lo: int, hi: int)
    requires chunks != [] && ChunkSizes(chunks, lo, hi)
    ensures (|chunks| - 1) * lo < |Join(chunks)|
  {
    var p := chunks[..|chunks| - 1];
    assert forall k :: 0 <= k < |p| ==> p[k] == chunks[k];
    JoinAtLeast(p, lo);
    assert chunks == p + [chunks[|chunks| - 1]];
    JoinSnoc(p, chunks[|chunks| - 1]);
  }

  /**
    How many chunks `splitRandom` returns: enough to cover `str` with chunks of at most
    `max` characters, and fewer than one more than `|str| / min`.
   */
  lemma SplitRandomCount(str: string, min: int, max: int, out: seq<string>)
    requires Join(out) == str && ChunkSizes(out, Bounds(min, max).0, Bounds(min, max).1)
    ensures |str| <= |out| * Bounds(min, max).1
    ensures out != [] ==> (|out| - 1) * Bounds(min, max).0 < |str|
  {
    var (lo, hi) := Bounds(min, max);
    JoinUpper(out, hi);
    if out != [] {
      JoinLower(out, lo, hi);
    }
  }
}
