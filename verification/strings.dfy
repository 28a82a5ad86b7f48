/**
 * The JavaScript string operations the components rely on:
 * `String.prototype.startsWith` and `String.prototype.split` with a
 * string separator, plus `join`, the inverse that specifies `split`.
 */
module Strings {
  import opened Wrappers

  /** `s.startsWith(prefix)`. */
  predicate StartsWith(s: string, prefix: string) {
    |prefix| <= |s| && s[..|prefix|] == prefix
  }

  /** `startsWith` compares character by character from index 0; the empty prefix always matches. */
  lemma StartsWithChars(s: string, prefix: string)
    ensures StartsWith(s, prefix) <==> |prefix| <= |s| && forall i :: 0 <= i < |prefix| ==> s[i] == prefix[i]
    ensures StartsWith(s, "")
  {
    if |prefix| <= |s| {
      assert forall i :: 0 <= i < |prefix| ==> s[..|prefix|][i] == s[i];
    }
  }

  /** `sep` occurs in `s` starting at index `j`. */
  predicate OccursAt(s: string, sep: string, j: int) {
    0 <= j && j + |sep| <= |s| && s[j..j + |sep|] == sep
  }

  /** `sep` occurs nowhere in `s`. */
  predicate Free(s: string, sep: string) {
    forall j :: 0 <= j <= |s| ==> !OccursAt(s, sep, j)
  }

  /** The first index at or after `from` where `sep` occurs in `s` (`s.indexOf(sep, from)`). */
  function IndexOfFrom(s: string, sep: string, from: nat): (r: Option<nat>)
    requires from <= |s|
    decreases |s| - from
    ensures r.Some? ==> from <= r.value && OccursAt(s, sep, r.value)
    ensures r.Some? ==> forall j :: from <= j < r.value ==> !OccursAt(s, sep, j)
    ensures r.None? ==> forall j :: from <= j ==> !OccursAt(s, sep, j)
  {
    if from + |sep| > |s| then None
    else if s[from..from + |sep|] == sep then Some(from)
    else IndexOfFrom(s, sep, from + 1)
  }

  /** `parts.join(sep)`. */
  function Join(parts: seq<string>, sep: string): string {
    if |parts| == 0 then ""
    else if |parts| == 1 then parts[0]
    else parts[0] + sep + Join(parts[1..], sep)
  }

  /**
   * `s.split(sep)` for a non-empty string separator: the pieces between
   * successive non-overlapping occurrences of `sep`, scanned left to right.
   * An input without `sep` (the empty string included) gives one piece.
   * The first piece is the text before the first separator, or all of `s`.
   */
  function Split(s: string, sep: string): (parts: seq<string>)
    requires |sep| > 0
    decreases |s|
    ensures |parts| >= 1
    ensures StartsWith(s, parts[0]) && Free(parts[0], sep)
    ensures |parts| == 1 <==> Free(s, sep)
    ensures |parts| > 1 ==> OccursAt(s, sep, |parts[0]|)
    ensures |parts| > 1 ==> forall j :: 0 <= j < |parts[0]| ==> !OccursAt(s, sep, j)
  {
    var found := IndexOfFrom(s, sep, 0);
    if found.None? then [s]
    else
      var i := found.value;
      FreeBeforeFirst(s, sep, i);
      [s[..i]] + Split(s[i + |sep|..], sep)
  }

  /** The text before the first occurrence of `sep` holds no `sep`. */
  lemma FreeBeforeFirst(s: string, sep: string, i: nat)
    requires |sep| > 0 && OccursAt(s, sep, i)
    requires forall j :: 0 <= j < i ==> !OccursAt(s, sep, j)
    ensures Free(s[..i], sep)
  {
    var head := s[..i];
    forall j | 0 <= j <= |head| && OccursAt(head, sep, j) ensures false {
      assert s[j..j + |sep|] == head[j..j + |sep|];
      assert OccursAt(s, sep, j);
    }
  }

  /** `split` and `join` on the same separator undo each other: no text is lost or added. */
  lemma {:induction false} JoinSplit(s: string, sep: string)
    requires |sep| > 0
    ensures Join(Split(s, sep), sep) == s
    decreases |s|
  {
    var found := IndexOfFrom(s, sep, 0);
    if found.Some? {
      var i := found.value;
      JoinSplit(s[i + |sep|..], sep);
      assert s == s[..i] + sep + s[i + |sep|..];
    }
  }

  /** No piece of a split holds the separator. */
  lemma {:induction false} SplitPiecesFree(s: string, sep: string)
    requires |sep| > 0
    ensures forall k :: 0 <= k < |Split(s, sep)| ==> Free(Split(s, sep)[k], sep)
    decreases |s|
  {
    var found := IndexOfFrom(s, sep, 0);
    if found.Some? {
      SplitPiecesFree(s[found.value + |sep|..], sep);
    }
  }

  /** Splitting on a separator, the tail pieces are the split of what follows the first separator. */
  lemma SplitTail(s: string, sep: string, i: nat)
    requires |sep| > 0 && OccursAt(s, sep, i)
    requires forall j :: 0 <= j < i ==> !OccursAt(s, sep, j)
    ensures Split(s, sep) == [s[..i]] + Split(s[i + |sep|..], sep)
  {
    IndexOfFromFirst(s, sep, 0, i);
    SplitAtFound(s, sep, i);
  }

  /** Once the search from the start has found `i`, the split is cut at `i`. */
  lemma SplitAtFound(s: string, sep: string, i: nat)
    requires |sep| > 0 && IndexOfFrom(s, sep, 0) == Some(i)
    ensures Split(s, sep) == [s[..i]] + Split(s[i + |sep|..], sep)
  {
  }

  /** The search from `from` finds `i` when `sep` occurs at `i` and nowhere between `from` and `i`. */
  lemma {:induction false} IndexOfFromFirst(s: string, sep: string, from: nat, i: nat)
    requires from <= i && OccursAt(s, sep, i)
    requires forall j :: from <= j < i ==> !OccursAt(s, sep, j)
    ensures IndexOfFrom(s, sep, from) == Some(i)
    decreases i - from
  {
    if from < i {
      assert !OccursAt(s, sep, from);
      IndexOfFromFirst(s, sep, from + 1, i);
    }
  }

  /** Splitting text that holds no separator gives the text back as the only piece. */
  lemma SplitFree(s: string, sep: string)
    requires |sep| > 0 && Free(s, sep)
    ensures Split(s, sep) == [s]
  {
    var r := IndexOfFrom(s, sep, 0);
    assert r.None?;
  }

  /** Text without the separator's first character holds no separator. */
  lemma FreeWithoutFirstChar(s: string, sep: string)
    requires |sep| > 0 && sep[0] !in s
    ensures Free(s, sep)
  {
    forall j | 0 <= j <= |s| && OccursAt(s, sep, j) ensures false {
    }
  }
}
