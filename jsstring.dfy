/**
  The few JavaScript string built-ins the parser relies on: `trim`, `includes`,
  `replace` with a string pattern, and the regular expression `^(\d{4})$`.
  A JavaScript string is modelled as `seq<char>`.
 */
module JsString {

  /** The WhiteSpace and LineTerminator code points of ECMAScript, which `trim` strips. */
  predicate IsWhiteSpace(c: char) {
    || c == '\t' || c == '\n' || c == '\U{000B}' || c == '\U{000C}' || c == '\r' || c == ' '
    || c == '\U{00A0}' || c == '\U{1680}' || ('\U{2000}' <= c <= '\U{200A}')
    || c == '\U{2028}' || c == '\U{2029}' || c == '\U{202F}' || c == '\U{205F}'
    || c == '\U{3000}' || c == '\U{FEFF}'
  }

  /** Drops the longest prefix of white space. */
  function TrimStart(s: string): string {
    if s != [] && IsWhiteSpace(s[0]) then TrimStart(s[1..]) else s
  }

  /** Drops the longest suffix of white space. */
  function TrimEnd(s: string): string {
    if s != [] && IsWhiteSpace(s[|s| - 1]) then TrimEnd(s[..|s| - 1]) else s
  }

  /** `s.trim()`. */
  function Trim(s: string): string {
    TrimEnd(TrimStart(s))
  }

  /** `TrimStart` removes a prefix made only of white space, and no more. */
  lemma {:induction false} TrimStartSpec(s: string)
    ensures var r := TrimStart(s);
            |r| <= |s| && r == s[|s| - |r|..] && (r == [] || !IsWhiteSpace(r[0])) &&
            forall i :: 0 <= i < |s| - |r| ==> IsWhiteSpace(s[i])
    decreases |s|
  {
    if s != [] && IsWhiteSpace(s[0]) {
      TrimStartSpec(s[1..]);
      var r := TrimStart(s);
      assert r == TrimStart(s[1..]);
      forall i | 1 <= i < |s| - |r|
        ensures IsWhiteSpace(s[i])
      {
        assert s[i] == s[1..][i - 1];
      }
    }
  }

  /** `TrimEnd` removes a suffix made only of white space, and no more. */
  lemma {:induction false} TrimEndSpec(s: string)
    ensures var r := TrimEnd(s);
            |r| <= |s| && r == s[..|r|] && (r == [] || !IsWhiteSpace(r[|r| - 1])) &&
            forall i :: |r| <= i < |s| ==> IsWhiteSpace(s[i])
    decreases |s|
  {
    if s != [] && IsWhiteSpace(s[|s| - 1]) {
      var s' := s[..|s| - 1];
      TrimEndSpec(s');
      var r := TrimEnd(s);
      assert r == TrimEnd(s');
      forall i | |r| <= i < |s| - 1
        ensures IsWhiteSpace(s[i])
      {
        assert s[i] == s'[i];
      }
    }
  }

  /** `trim` gives the empty string exactly for all-white-space text, and otherwise text that neither starts nor ends with white space. */
  lemma TrimSpec(s: string)
    ensures Trim(s) == [] <==> forall i :: 0 <= i < |s| ==> IsWhiteSpace(s[i])
    ensures Trim(s) != [] ==> !IsWhiteSpace(Trim(s)[0]) && !IsWhiteSpace(Trim(s)[|Trim(s)| - 1])
  {
    var t := TrimStart(s);
    TrimStartSpec(s);
    TrimEndSpec(t);
    var r := TrimEnd(t);
    var d := |s| - |t|;
    if r != [] {
      assert r[0] == t[0];
      assert !IsWhiteSpace(s[d]) by {
        assert s[d] == t[0];
      }
    }
  }

  /** What `trim` returns is a contiguous piece of its argument. */
  lemma TrimIsSlice(s: string)
    ensures OccursAt(s, Trim(s), |s| - |TrimStart(s)|)
  {
    var t := TrimStart(s);
    TrimStartSpec(s);
    TrimEndSpec(t);
    var r := TrimEnd(t);
    var d := |s| - |t|;
    forall i | 0 <= i < |r|
      ensures s[d..d + |r|][i] == r[i]
    {
      assert r[i] == t[i] == s[d + i];
    }
  }

  /** `p` occurs in `s` at position `k`. */
  predicate OccursAt(s: string, p: string, k: int) {
    0 <= k && k + |p| <= |s| && s[k..k + |p|] == p
  }

  /** The first position at or after `from` where `p` occurs in `s`, or -1. */
  function IndexOfFrom(s: string, p: string, from: nat): int
    decreases |s| - from
  {
    if from + |p| > |s| then -1
    else if s[from..from + |p|] == p then from
    else IndexOfFrom(s, p, from + 1)
  }

  lemma {:induction false} IndexOfFromSpec(s: string, p: string, from: nat)
    ensures var r := IndexOfFrom(s, p, from);
            (r == -1 || (from <= r && OccursAt(s, p, r))) &&
            forall k :: from <= k && (r == -1 || k < r) ==> !OccursAt(s, p, k)
    decreases |s| - from
  {
    if from + |p| <= |s| && s[from..from + |p|] != p {
      IndexOfFromSpec(s, p, from + 1);
    }
  }

  /** `s.indexOf(p)`. */
  function IndexOf(s: string, p: string): int {
    IndexOfFrom(s, p, 0)
  }

  /** `indexOf` finds the first occurrence, and -1 exactly when there is none. */
  lemma IndexOfSpec(s: string, p: string)
    ensures IndexOf(s, p) == -1 <==> forall k :: !OccursAt(s, p, k)
    ensures IndexOf(s, p) != -1 ==>
              OccursAt(s, p, IndexOf(s, p)) && forall k :: 0 <= k < IndexOf(s, p) ==> !OccursAt(s, p, k)
  {
    IndexOfFromSpec(s, p, 0);
  }

  /** `s.includes(p)`. */
  predicate Includes(s: string, p: string) {
    IndexOf(s, p) != -1
  }

  /** `includes` holds exactly when `p` occurs somewhere in `s`. */
  lemma IncludesSpec(s: string, p: string)
    ensures Includes(s, p) <==> exists k :: OccursAt(s, p, k)
  {
    IndexOfSpec(s, p);
  }

  /** `s.replace(p, '')` for a string pattern: only the first occurrence of `p` is removed. */
  function RemoveFirst(s: string, p: string): string {
    var k := IndexOf(s, p);
    IndexOfSpec(s, p);
    if k == -1 then s else s[..k] + s[k + |p|..]
  }

  /** `replace` leaves `s` alone when `p` is absent, and otherwise cuts out the first occurrence. */
  lemma RemoveFirstSpec(s: string, p: string)
    ensures !Includes(s, p) ==> RemoveFirst(s, p) == s
    ensures Includes(s, p) ==> |RemoveFirst(s, p)| == |s| - |p|
    ensures forall k ::
              OccursAt(s, p, k) && (forall j :: 0 <= j < k ==> !OccursAt(s, p, j)) ==>
              RemoveFirst(s, p) == s[..k] + s[k + |p|..]
  {
    IndexOfSpec(s, p);
    var i := IndexOf(s, p);
    forall k | OccursAt(s, p, k) && (forall j :: 0 <= j < k ==> !OccursAt(s, p, j))
      ensures i == k
    {
    }
  }

  predicate IsAsciiDigit(c: char) {
    '0' <= c <= '9'
  }

  /** `s` matches `/^(\d{4})$/`: exactly four ASCII digits (without the `m` or `u` flag). */
  predicate IsFourDigits(s: string) {
    |s| == 4 && forall i :: 0 <= i < 4 ==> IsAsciiDigit(s[i])
  }

  /** Appending one space never changes what `trim` returns. */
  lemma TrimAppendSpace(s: string)
    ensures Trim(s + " ") == Trim(s)
  {
    var s' := s + " ";
    assert IsWhiteSpace(' ');
    assert s'[..|s|] == s;
    assert TrimEnd(s') == TrimEnd(s);
    TrimStartThenEnd(s, " ");
  }

  /** Trimming white space that sits past the start of the text gives the same result. */
  lemma TrimStartThenEnd(s: string, w: string)
    requires forall i :: 0 <= i < |w| ==> IsWhiteSpace(w[i])
    ensures TrimEnd(TrimStart(s + w)) == TrimEnd(TrimStart(s))
    decreases |s|
  {
    if s == [] {
      assert s + w == w;
      AllWhiteSpaceTrimsToEmpty(w);
      assert TrimStart(s) == [];
    } else if IsWhiteSpace(s[0]) {
      assert (s + w)[0] == s[0];
      assert (s + w)[1..] == s[1..] + w;
      assert TrimStart(s + w) == TrimStart(s[1..] + w);
      assert TrimStart(s) == TrimStart(s[1..]);
      TrimStartThenEnd(s[1..], w);
    } else {
      assert (s + w)[0] == s[0];
      assert TrimStart(s + w) == s + w;
      assert TrimStart(s) == s;
      TrimEndSuffix(s, w);
    }
  }

  lemma AllWhiteSpaceTrimsToEmpty(w: string)
    requires forall i :: 0 <= i < |w| ==> IsWhiteSpace(w[i])
    ensures TrimStart(w) == []
    decreases |w|
  {
    if w != [] {
      AllWhiteSpaceTrimsToEmpty(w[1..]);
    }
  }

  lemma TrimEndSuffix(s: string, w: string)
    requires forall i :: 0 <= i < |w| ==> IsWhiteSpace(w[i])
    ensures TrimEnd(s + w) == TrimEnd(s)
    decreases |w|
  {
    if w != [] {
      var w' := w[..|w| - 1];
      assert (s + w)[..|s + w| - 1] == s + w';
      TrimEndSuffix(s, w');
    } else {
      assert s + w == s;
    }
  }
}
