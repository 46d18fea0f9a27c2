/** String primitives of the .NET base library as the source uses them:
    ordinal and ordinal-ignore-case search, `ToUpperInvariant`,
    `String.Replace` (every occurrence, left to right, ordinal) and
    `String.IsNullOrWhiteSpace`. Case folding covers the ASCII letters. */
module Text {
  import opened Wrappers

  /** Upper-case mapping of one character (ASCII letters only). */
  function UpperChar(c: char): char {
    if 'a' <= c <= 'z' then (c as int - 32) as char else c
  }

  /** `ToUpperInvariant`, and the key that `OrdinalIgnoreCase` compares. */
  function Upper(s: string): (r: string)
    ensures |r| == |s|
    ensures forall i :: 0 <= i < |s| ==> r[i] == UpperChar(s[i])
  {
    seq(|s|, i requires 0 <= i < |s| => UpperChar(s[i]))
  }

  /** `StringComparer.OrdinalIgnoreCase.Equals`. */
  predicate EqualsIgnoreCase(a: string, b: string) {
    Upper(a) == Upper(b)
  }

  /** `p` occurs in `s` starting at position `k`. */
  predicate OccursAt(s: string, p: string, k: int) {
    0 <= k && k + |p| <= |s| && s[k..k + |p|] == p
  }

  lemma OccursShift(s: string, p: string, k: int)
    requires |s| > 0 && 0 <= k
    ensures OccursAt(s[1..], p, k) <==> OccursAt(s, p, k + 1)
  {
    if k + |p| <= |s[1..]| {
      assert s[1..][k..k + |p|] == s[k + 1..k + 1 + |p|];
    }
  }

  /** `String.IndexOf(p, StringComparison.Ordinal)`: the first position where
      `p` occurs. */
  function IndexOf(s: string, p: string): (r: Option<nat>)
    ensures r.Some? ==> OccursAt(s, p, r.value)
    ensures r.Some? ==> forall k :: 0 <= k < r.value ==> !OccursAt(s, p, k)
    ensures r.None? ==> forall k :: !OccursAt(s, p, k)
    decreases |s|
  {
    if |s| < |p| then None
    else if s[..|p|] == p then Some(0)
    else
      var rest := IndexOf(s[1..], p);
      assert forall k :: 0 <= k ==> (OccursAt(s[1..], p, k) <==> OccursAt(s, p, k + 1)) by {
        forall k | 0 <= k ensures OccursAt(s[1..], p, k) <==> OccursAt(s, p, k + 1) {
          OccursShift(s, p, k);
        }
      }
      assert !OccursAt(s, p, 0);
      assert forall k :: OccursAt(s, p, k) ==> k == 0 || OccursAt(s[1..], p, k - 1);
      match rest
      case None => None
      case Some(k) => Some(k + 1)
  }

  /** `s.Contains(p)` (ordinal). */
  predicate Contains(s: string, p: string) {
    IndexOf(s, p).Some?
  }

  /** `s.Contains(p, StringComparison.OrdinalIgnoreCase)`. */
  predicate ContainsIgnoreCase(s: string, p: string) {
    Contains(Upper(s), Upper(p))
  }

  /** `s.Replace(p, r)`: scans left to right and replaces every occurrence of
      `p` that does not overlap an earlier replaced one. `p` must be non-empty
      (.NET throws `ArgumentException` otherwise). */
  function ReplaceAll(s: string, p: string, r: string): string
    requires |p| > 0
    decreases |s|
  {
    if |s| < |p| then s
    else if s[..|p|] == p then r + ReplaceAll(s[|p|..], p, r)
    else [s[0]] + ReplaceAll(s[1..], p, r)
  }

  /** A text without an occurrence of `p` is left as it is. */
  lemma {:induction false} ReplaceAllNoMatch(s: string, p: string, r: string)
    requires |p| > 0
    ensures IndexOf(s, p).None? ==> ReplaceAll(s, p, r) == s
    decreases |s|
  {
    if IndexOf(s, p).None? && |s| >= |p| {
      assert !OccursAt(s, p, 0);
      assert s[..|p|] == s[0..0 + |p|];
      assert IndexOf(s[1..], p).None?;
      ReplaceAllNoMatch(s[1..], p, r);
      assert s == [s[0]] + s[1..];
    }
  }

  /** `p` occurs at `k` and nowhere before. */
  predicate FirstAt(s: string, p: string, k: nat) {
    OccursAt(s, p, k) && forall j :: 0 <= j < k ==> !OccursAt(s, p, j)
  }

  /** The occurrence-by-occurrence reading of `ReplaceAll`: the text before the
      first occurrence is copied, the occurrence becomes `r`, and replacement
      continues right after it. */
  lemma ReplaceAllAtFirst(s: string, p: string, r: string, k: nat)
    requires |p| > 0
    requires IndexOf(s, p) == Some(k)
    ensures k + |p| <= |s|
    ensures ReplaceAll(s, p, r) == s[..k] + r + ReplaceAll(s[k + |p|..], p, r)
  {
    assert FirstAt(s, p, k);
    ReplaceAllFirstAt(s, p, r, k);
    assert SplitAt(s, p, r, k) == s[..k] + r + ReplaceAll(s[k + |p|..], p, r);
  }

  /** The text before position `k`, then `r`, then the replacement of what
      follows the occurrence at `k`. */
  function SplitAt(s: string, p: string, r: string, k: nat): string
    requires |p| > 0 && k + |p| <= |s|
  {
    s[..k] + r + ReplaceAll(s[k + |p|..], p, r)
  }

  lemma {:induction false} ReplaceAllFirstAt(s: string, p: string, r: string, k: nat)
    requires |p| > 0
    requires FirstAt(s, p, k)
    ensures ReplaceAll(s, p, r) == SplitAt(s, p, r, k)
    decreases k
  {
    if k == 0 {
      MatchAtStart(s, p, r);
      assert s[..0] == [];
    } else {
      var t := s[1..];
      FirstAtShift(s, p, k);
      ReplaceAllFirstAt(t, p, r, k - 1);
      ShiftFirst(s, t, p, r, k);
    }
  }

  /** Moves the decomposition of `ReplaceAll` on `s[1..]` at `k - 1` to one of
      `s` at `k`, once the first character is known to be copied. */
  lemma ShiftFirst(s: string, t: string, p: string, r: string, k: nat)
    requires |p| > 0 && 0 < k && FirstAt(s, p, k) && t == s[1..]
    requires k - 1 + |p| <= |t|
    requires ReplaceAll(t, p, r) == SplitAt(t, p, r, k - 1)
    ensures ReplaceAll(s, p, r) == SplitAt(s, p, r, k)
  {
    NoMatchAtStart(s, p, r, k);
    var tail := ReplaceAll(s[k + |p|..], p, r);
    assert t[k - 1 + |p|..] == s[k + |p|..];
    assert t[..k - 1] == s[1..k];
    Reassemble(s, k, ReplaceAll(s, p, r), ReplaceAll(t, p, r), s[1..k], r, tail);
  }

  /** An occurrence at position 0 is replaced, and replacement continues
      right after it. */
  lemma MatchAtStart(s: string, p: string, r: string)
    requires |p| > 0 && OccursAt(s, p, 0)
    ensures ReplaceAll(s, p, r) == r + ReplaceAll(s[|p|..], p, r)
  {
    assert s[..|p|] == s[0..0 + |p|];
  }

  /** When the first occurrence is later than position 0, `ReplaceAll` copies
      the first character. */
  lemma NoMatchAtStart(s: string, p: string, r: string, k: nat)
    requires |p| > 0
    requires FirstAt(s, p, k) && k > 0
    ensures ReplaceAll(s, p, r) == [s[0]] + ReplaceAll(s[1..], p, r)
  {
    assert !OccursAt(s, p, 0);
    assert s[..|p|] == s[0..0 + |p|];
  }

  /** The first occurrence at `k > 0` is the first one of `s[1..]`, one
      position earlier. */
  lemma FirstAtShift(s: string, p: string, k: nat)
    requires FirstAt(s, p, k) && k > 0
    ensures FirstAt(s[1..], p, k - 1)
  {
    OccursShift(s, p, k - 1);
    forall j | 0 <= j < k - 1 ensures !OccursAt(s[1..], p, j) {
      OccursShift(s, p, j);
    }
  }

  lemma Reassemble(s: string, k: nat, whole: string, rest: string, head: string, r: string, tail: string)
    requires 0 < k <= |s|
    requires whole == [s[0]] + rest
    requires head == s[1..k]
    requires rest == head + r + tail
    ensures whole == s[..k] + r + tail
  {
    assert s[..k] == [s[0]] + s[1..k];
  }

  /** `s.Split(p)` (ordinal): the pieces of `s` between the occurrences of
      `p` found left to right, always at least one. */
  function Split(s: string, p: string): (pieces: seq<string>)
    requires |p| > 0
    ensures |pieces| > 0
    decreases |s|
  {
    match IndexOf(s, p)
    case None => [s]
    case Some(k) => [s[..k]] + Split(s[k + |p|..], p)
  }

  /** `String.Join(sep, pieces)`. */
  function Join(pieces: seq<string>, sep: string): string
    decreases |pieces|
  {
    if |pieces| == 0 then ""
    else if |pieces| == 1 then pieces[0]
    else pieces[0] + sep + Join(pieces[1..], sep)
  }

  lemma JoinCons(piece: string, rest: seq<string>, sep: string)
    requires |rest| > 0
    ensures Join([piece] + rest, sep) == piece + sep + Join(rest, sep)
  {
    assert ([piece] + rest)[1..] == rest;
  }

  /** The text before the first occurrence holds no occurrence. */
  lemma BeforeFirstFree(s: string, p: string, k: nat)
    requires |p| > 0 && IndexOf(s, p) == Some(k)
    ensures IndexOf(s[..k], p).None?
  {
    assert FirstAt(s, p, k);
    PrefixFree(s, p, k);
  }

  lemma PrefixFree(s: string, p: string, k: nat)
    requires |p| > 0 && k <= |s| && FirstAt(s, p, k)
    ensures forall j :: !OccursAt(s[..k], p, j)
  {
    var t := s[..k];
    forall j | 0 <= j && j + |p| <= |t| ensures !OccursAt(t, p, j) {
      assert !OccursAt(s, p, j);
      assert t[j..j + |p|] == s[j..j + |p|];
    }
  }

  /** No piece of a split holds the separator. */
  lemma {:induction false} SplitPiecesFree(s: string, p: string)
    requires |p| > 0
    ensures forall i :: 0 <= i < |Split(s, p)| ==> IndexOf(Split(s, p)[i], p).None?
    decreases |s|
  {
    match IndexOf(s, p)
    case None =>
    case Some(k) =>
      var rest := s[k + |p|..];
      SplitPiecesFree(rest, p);
      BeforeFirstFree(s, p, k);
      var pieces := Split(s, p);
      assert pieces == [s[..k]] + Split(rest, p);
      forall i | 0 <= i < |pieces| ensures IndexOf(pieces[i], p).None? {
        if i > 0 {
          assert pieces[i] == Split(rest, p)[i - 1];
        }
      }
  }

  /** Joining the pieces of a split with the separator gives the text back. */
  lemma {:induction false} JoinSplit(s: string, p: string)
    requires |p| > 0
    ensures Join(Split(s, p), p) == s
    decreases |s|
  {
    match IndexOf(s, p)
    case None =>
    case Some(k) =>
      var rest := s[k + |p|..];
      JoinSplit(rest, p);
      JoinCons(s[..k], Split(rest, p), p);
      assert s == s[..k] + s[k..k + |p|] + rest;
  }

  /** `s.Replace(p, r)` is `s` split at the occurrences of `p` and joined
      again with `r`, whatever the number of occurrences. */
  lemma {:induction false} ReplaceAllIsSplitJoin(s: string, p: string, r: string)
    requires |p| > 0
    ensures ReplaceAll(s, p, r) == Join(Split(s, p), r)
    decreases |s|
  {
    ReplaceAllNoMatch(s, p, r);
    match IndexOf(s, p)
    case None =>
    case Some(k) =>
      var rest := s[k + |p|..];
      ReplaceAllAtFirst(s, p, r, k);
      ReplaceAllIsSplitJoin(rest, p, r);
      JoinCons(s[..k], Split(rest, p), r);
  }

  /** `Char.IsWhiteSpace`: the Unicode space separators, line and paragraph
      separators, and the control characters U+0009..U+000D, U+0085. */
  predicate IsWhiteSpace(c: char) {
    || c == ' ' || ('\t' <= c <= '\r') || c == '\U{85}' || c == '\U{A0}'
    || c == '\U{1680}' || ('\U{2000}' <= c <= '\U{200A}') || c == '\U{2028}'
    || c == '\U{2029}' || c == '\U{202F}' || c == '\U{205F}' || c == '\U{3000}'
  }

  /** `String.IsNullOrWhiteSpace`. */
  predicate IsNullOrWhiteSpace(s: Option<string>) {
    s.None? || forall i :: 0 <= i < |s.value| ==> IsWhiteSpace(s.value[i])
  }
}
