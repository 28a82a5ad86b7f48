/**
 * `generateSlugFromTitle` (src/lib/slug.ts): a post title becomes a URL slug
 * through a fixed pipeline of five string steps, each modelled by its own
 * function:
 *
 *   1. lower-case the title                                  ToLower
 *   2. remove leading and trailing whitespace                Trim
 *   3. delete every character outside `[\w\s-]`              StripDisallowed
 *   4. replace each whitespace run by one `-`                SpacesToHyphens
 *   5. replace each run of `-` by one `-`                    CollapseHyphens
 *
 * `\w` without the `u` flag is `[A-Za-z0-9_]`. `\s` and the set that
 * `trim()` strips are both ECMAScript's WhiteSpace plus LineTerminator code
 * points, so one predicate, IsSpace, serves both.
 */
module Slug {

  // ---------------------------------------------------------------------------
  // Character classes
  // ---------------------------------------------------------------------------

  predicate IsUpper(c: char) {
    'A' <= c <= 'Z'
  }

  /** `\w`: ASCII letters, digits and `_`. */
  predicate IsWord(c: char) {
    'a' <= c <= 'z' || 'A' <= c <= 'Z' || '0' <= c <= '9' || c == '_'
  }

  /** `\s`, which is also what `trim()` strips: tab, LF, VT, FF, CR, space, NBSP, the Zs code points and LS, PS, BOM. */
  predicate IsSpace(c: char) {
    var n := c as int;
    n == 0x09 || n == 0x0A || n == 0x0B || n == 0x0C || n == 0x0D || n == 0x20
    || n == 0xA0 || n == 0x1680 || (0x2000 <= n <= 0x200A)
    || n == 0x2028 || n == 0x2029 || n == 0x202F || n == 0x205F || n == 0x3000 || n == 0xFEFF
  }

  /** What step 3 keeps: `[\w\s-]`. */
  predicate IsKept(c: char) {
    IsWord(c) || IsSpace(c) || c == '-'
  }

  /** The alphabet of a slug: lower-case ASCII letters, digits, `_` and `-`. */
  predicate IsSlugChar(c: char) {
    'a' <= c <= 'z' || '0' <= c <= '9' || c == '_' || c == '-'
  }

  predicate AllSpace(s: string) {
    forall c :: c in s ==> IsSpace(c)
  }

  predicate NoSpace(s: string) {
    forall c :: c in s ==> !IsSpace(c)
  }

  /** No two adjacent `-` characters. */
  predicate NoDoubleHyphen(s: string) {
    forall i :: 0 < i < |s| ==> !(s[i - 1] == '-' && s[i] == '-')
  }

  // ---------------------------------------------------------------------------
  // The five steps
  // ---------------------------------------------------------------------------

  /** Lower-cases one character (ASCII only: `A`-`Z` become `a`-`z`). */
  function LowerChar(c: char): (d: char)
    ensures !IsUpper(d)
    ensures IsUpper(c) ==> d as int == c as int + 32 && 'a' <= d <= 'z'
    ensures !IsUpper(c) ==> d == c
    ensures IsWord(d) == IsWord(c) && IsSpace(d) == IsSpace(c) && (d == '-') == (c == '-')
  {
    if IsUpper(c) then (c as int + 32) as char else c
  }

  /** Step 1, `toLowerCase()`: same length, and no upper-case letter remains. */
  function ToLower(s: string): (r: string)
    ensures |r| == |s|
    ensures forall c :: c in r ==> !IsUpper(c)
    ensures forall i :: 0 <= i < |s| && !IsUpper(s[i]) ==> r[i] == s[i]
    ensures forall i :: 0 <= i < |s| && IsUpper(s[i]) ==> r[i] as int == s[i] as int + 32
  {
    seq(|s|, i requires 0 <= i < |s| => LowerChar(s[i]))
  }

  /** Leading whitespace removed: `r` is the longest suffix of `s` that does not start with whitespace. */
  function TrimStart(s: string): (r: string)
    ensures |r| <= |s| && r == s[|s| - |r|..]
    ensures forall k :: 0 <= k < |s| - |r| ==> IsSpace(s[k])
    ensures r == [] || !IsSpace(r[0])
  {
    if s != [] && IsSpace(s[0]) then TrimStart(s[1..]) else s
  }

  /** Trailing whitespace removed: `r` is the longest prefix of `s` that does not end with whitespace. */
  function TrimEnd(s: string): (r: string)
    ensures |r| <= |s| && r == s[..|r|]
    ensures forall k :: |r| <= k < |s| ==> IsSpace(s[k])
    ensures r == [] || !IsSpace(r[|r| - 1])
  {
    if s != [] && IsSpace(s[|s| - 1]) then TrimEnd(s[..|s| - 1]) else s
  }

  /** `r` is the slice of `s` at `i`, and everything of `s` outside that slice is whitespace. */
  predicate SliceBetweenSpaces(s: string, r: string, i: int) {
    0 <= i <= |s| - |r| && r == s[i..i + |r|]
    && (forall k :: 0 <= k < i ==> IsSpace(s[k]))
    && (forall k :: i + |r| <= k < |s| ==> IsSpace(s[k]))
  }

  /** A slice of `s` holds only characters of `s`. */
  lemma SliceChars(s: string, r: string, i: int)
    requires SliceBetweenSpaces(s, r, i)
    ensures forall c :: c in r ==> c in s
  {
    forall c | c in r ensures c in s {
      var k :| 0 <= k < |r| && r[k] == c;
      assert s[i + k] == c;
    }
  }

  /** Trimming the start and then the end leaves the slice of `s` that starts after its leading whitespace. */
  lemma TrimSlice(s: string, t: string, r: string)
    requires |t| <= |s| && t == s[|s| - |t|..] && forall k :: 0 <= k < |s| - |t| ==> IsSpace(s[k])
    requires |r| <= |t| && r == t[..|r|] && forall k :: |r| <= k < |t| ==> IsSpace(t[k])
    ensures SliceBetweenSpaces(s, r, |s| - |t|)
  {
    var i := |s| - |t|;
    assert t == s[i..];
    assert r == t[..|r|];
    assert s[i..i + |r|] == t[..|r|];
    forall k | i + |r| <= k < |s| ensures IsSpace(s[k]) {
      assert s[k] == t[k - i];
    }
  }

  /**
   * Step 2, `trim()`: `r` is the slice of `s` left after removing all leading and
   * all trailing whitespace; only whitespace is removed.
   */
  function Trim(s: string): (r: string)
    ensures exists i :: SliceBetweenSpaces(s, r, i)
    ensures r == [] || (!IsSpace(r[0]) && !IsSpace(r[|r| - 1]))
    ensures forall c :: c in r ==> c in s
  {
    var t := TrimStart(s);
    var r := TrimEnd(t);
    TrimSlice(s, t, r);
    SliceChars(s, r, |s| - |t|);
    r
  }

  /** Step 3, `replace(/[^\w\s-]/g, '')`: keeps exactly the characters of `s` in `[\w\s-]`. */
  function StripDisallowed(s: string): (r: string)
    ensures |r| <= |s|
    ensures forall c :: c in r ==> c in s && IsKept(c)
    ensures forall c :: c in s && IsKept(c) ==> c in r
  {
    if s == [] then []
    else (if IsKept(s[0]) then [s[0]] else []) + StripDisallowed(s[1..])
  }

  /**
   * Step 4, `replace(/\s+/g, '-')`: every maximal whitespace run becomes one `-`
   * (this definition emits it at the last character of the run).
   */
  function SpacesToHyphens(s: string): (r: string)
    ensures NoSpace(r)
    ensures forall c :: c in r ==> c in s || c == '-'
    ensures r == [] <==> s == []
    ensures s != [] ==> r[0] == if IsSpace(s[0]) then '-' else s[0]
  {
    if s == [] then []
    else if IsSpace(s[0]) then
      if |s| > 1 && IsSpace(s[1]) then SpacesToHyphens(s[1..]) else "-" + SpacesToHyphens(s[1..])
    else [s[0]] + SpacesToHyphens(s[1..])
  }

  /** Step 5, `replace(/-+/g, '-')`: every run of `-` becomes one `-`. */
  function CollapseHyphens(s: string): (r: string)
    ensures NoDoubleHyphen(r)
    ensures forall c :: c in r ==> c in s
    ensures r == [] <==> s == []
    ensures s != [] ==> r[0] == s[0]
  {
    if s == [] then []
    else if s[0] == '-' && |s| > 1 && s[1] == '-' then CollapseHyphens(s[1..])
    else [s[0]] + CollapseHyphens(s[1..])
  }

  /**
   * `generateSlugFromTitle`: the slug is made of lower-case ASCII letters,
   * digits, `_` and `-` only (so no whitespace), and never holds `--`.
   * Leading and trailing `-` are NOT removed.
   */
  function GenerateSlugFromTitle(title: string): (slug: string)
    ensures forall c :: c in slug ==> IsSlugChar(c)
    ensures NoSpace(slug)
    ensures NoDoubleHyphen(slug)
  {
    CollapseHyphens(SpacesToHyphens(StripDisallowed(Trim(ToLower(title)))))
  }

  // ---------------------------------------------------------------------------
  // What each replacement step does, for all inputs
  // ---------------------------------------------------------------------------

  /** Step 3 on one character: kept iff it is in `[\w\s-]`. */
  lemma StripOne(c: char)
    ensures StripDisallowed([c]) == if IsKept(c) then [c] else []
  {
    assert [c][1..] == [];
  }

  /** Step 3 works character by character: it keeps the allowed characters in order, with their repetitions. */
  lemma {:induction false} StripAppend(a: string, b: string)
    ensures StripDisallowed(a + b) == StripDisallowed(a) + StripDisallowed(b)
    decreases |a|
  {
    if a == [] {
      assert a + b == b;
    } else {
      assert (a + b)[0] == a[0];
      assert (a + b)[1..] == a[1..] + b;
      StripAppend(a[1..], b);
    }
  }

  /** Step 4 on a non-empty whitespace run: the whole run becomes one `-`. */
  lemma {:induction false} SpacesOfRun(w: string)
    requires w != [] && AllSpace(w)
    ensures SpacesToHyphens(w) == "-"
    decreases |w|
  {
    assert w[0] in w;
    if |w| > 1 {
      assert w[1] in w;
      assert forall c :: c in w[1..] ==> c in w;
      SpacesOfRun(w[1..]);
    } else {
      assert w[1..] == [];
    }
  }

  /** Step 4 works piece by piece when the cut does not split a whitespace run. */
  lemma {:induction false} SpacesAppend(a: string, b: string)
    requires a == [] || b == [] || !IsSpace(a[|a| - 1]) || !IsSpace(b[0])
    ensures SpacesToHyphens(a + b) == SpacesToHyphens(a) + SpacesToHyphens(b)
    decreases |a|
  {
    if a == [] {
      assert a + b == b;
    } else if b == [] {
      assert a + b == a;
    } else {
      assert (a + b)[0] == a[0];
      assert (a + b)[1..] == a[1..] + b;
      if |a| > 1 {
        assert (a + b)[1] == a[1];
        assert a[1..][|a[1..]| - 1] == a[|a| - 1];
      } else {
        assert (a + b)[1] == b[0];
        assert a[1..] == [];
      }
      SpacesAppend(a[1..], b);
    }
  }

  /**
   * Step 4 replaces a maximal whitespace run by exactly one `-`: with `x`
   * not ending and `y` not starting in whitespace, the run between them
   * becomes a single `-`.
   */
  lemma SpacesRunToHyphen(x: string, w: string, y: string)
    requires w != [] && AllSpace(w)
    requires x == [] || !IsSpace(x[|x| - 1])
    requires y == [] || !IsSpace(y[0])
    ensures SpacesToHyphens(x + w + y) == SpacesToHyphens(x) + "-" + SpacesToHyphens(y)
  {
    var wy := w + y;
    calc {
      SpacesToHyphens(x + w + y);
      { assert x + w + y == x + wy; }
      SpacesToHyphens(x + wy);
      { SpacesAppend(x, wy); }
      SpacesToHyphens(x) + SpacesToHyphens(wy);
      { assert w[|w| - 1] in w; SpacesAppend(w, y); SpacesOfRun(w); }
      SpacesToHyphens(x) + ("-" + SpacesToHyphens(y));
    }
  }

  /** All `-`. */
  predicate AllHyphens(s: string) {
    forall c :: c in s ==> c == '-'
  }

  /** Step 5 on a non-empty run of `-`: it keeps exactly one. */
  lemma {:induction false} CollapseOfRun(h: string)
    requires h != [] && AllHyphens(h)
    ensures CollapseHyphens(h) == "-"
    decreases |h|
  {
    assert h[0] in h;
    if |h| > 1 {
      assert h[1] in h;
      assert forall c :: c in h[1..] ==> c in h;
      CollapseOfRun(h[1..]);
    } else {
      assert h[1..] == [];
    }
  }

  /** Step 5 works piece by piece when the cut does not split a run of `-`. */
  lemma {:induction false} CollapseAppend(a: string, b: string)
    requires a == [] || b == [] || a[|a| - 1] != '-' || b[0] != '-'
    ensures CollapseHyphens(a + b) == CollapseHyphens(a) + CollapseHyphens(b)
    decreases |a|
  {
    if a == [] {
      assert a + b == b;
    } else if b == [] {
      assert a + b == a;
    } else {
      assert (a + b)[0] == a[0];
      assert (a + b)[1..] == a[1..] + b;
      if |a| > 1 {
        assert (a + b)[1] == a[1];
        assert a[1..][|a[1..]| - 1] == a[|a| - 1];
      } else {
        assert (a + b)[1] == b[0];
        assert a[1..] == [];
      }
      CollapseAppend(a[1..], b);
    }
  }

  /**
   * Step 5 replaces a maximal run of `-` by exactly one `-`: with `x` not
   * ending and `y` not starting with `-`, the run between them becomes one `-`.
   */
  lemma HyphenRunToHyphen(x: string, h: string, y: string)
    requires h != [] && AllHyphens(h)
    requires x == [] || x[|x| - 1] != '-'
    requires y == [] || y[0] != '-'
    ensures CollapseHyphens(x + h + y) == CollapseHyphens(x) + "-" + CollapseHyphens(y)
  {
    var hy := h + y;
    calc {
      CollapseHyphens(x + h + y);
      { assert x + h + y == x + hy; }
      CollapseHyphens(x + hy);
      { CollapseAppend(x, hy); }
      CollapseHyphens(x) + CollapseHyphens(hy);
      { assert h[|h| - 1] in h; CollapseAppend(h, y); CollapseOfRun(h); }
      CollapseHyphens(x) + ("-" + CollapseHyphens(y));
    }
  }

  /** A word of the slug alphabet: lower-case ASCII letters, digits and `_`, no `-`. */
  predicate IsSlugWord(u: string) {
    u != [] && forall c :: c in u ==> IsSlugChar(c) && c != '-'
  }

  /** Trimming leaves text alone that neither starts nor ends with whitespace. */
  lemma TrimEdgesFixes(s: string)
    requires s == [] || (!IsSpace(s[0]) && !IsSpace(s[|s| - 1]))
    ensures Trim(s) == s
  {
    assert TrimStart(s) == s;
    assert TrimEnd(s) == s;
  }

  /** Two slug words around whitespace: every character is kept by step 3 and none is upper-case. */
  lemma WordsAroundSpaceChars(u: string, w: string, v: string)
    requires IsSlugWord(u) && IsSlugWord(v) && AllSpace(w)
    ensures forall c :: c in u + w + v ==> IsKept(c) && !IsUpper(c)
  {
  }

  /** A slug word holds no whitespace and no `-`. */
  lemma SlugWordPlain(u: string)
    requires IsSlugWord(u)
    ensures NoSpace(u) && NoDoubleHyphen(u)
  {
    forall c | c in u ensures !IsSpace(c) {
      assert IsSlugChar(c);
    }
    forall i | 0 < i < |u| ensures u[i] != '-' {
      assert u[i] in u;
    }
  }

  /** On lower-case `[\w\s-]` text with no whitespace at either end, the first three steps change nothing. */
  lemma SlugOfCleanText(t: string)
    requires forall c :: c in t ==> IsKept(c) && !IsUpper(c)
    requires t == [] || (!IsSpace(t[0]) && !IsSpace(t[|t| - 1]))
    ensures GenerateSlugFromTitle(t) == CollapseHyphens(SpacesToHyphens(t))
  {
    ToLowerFixes(t);
    TrimEdgesFixes(t);
    StripFixes(t);
  }

  /** Two slug words separated by any whitespace run become the two words joined by one `-`. */
  lemma SlugJoinsWordsWithHyphen(u: string, w: string, v: string)
    requires IsSlugWord(u) && IsSlugWord(v)
    requires w != [] && AllSpace(w)
    ensures GenerateSlugFromTitle(u + w + v) == u + "-" + v
  {
    var t := u + w + v;
    WordsAroundSpaceChars(u, w, v);
    assert u[0] in u && v[|v| - 1] in v;
    assert t[0] == u[0] && t[|t| - 1] == v[|v| - 1];
    SlugOfCleanText(t);
    SlugWordPlain(u);
    SlugWordPlain(v);
    calc {
      CollapseHyphens(SpacesToHyphens(t));
      { SpacesRunToHyphen(u, w, v); SpacesFixes(u); SpacesFixes(v); }
      CollapseHyphens(u + "-" + v);
      { assert u[|u| - 1] in u && v[0] in v; HyphenRunToHyphen(u, "-", v); CollapseFixes(u); CollapseFixes(v); }
      u + "-" + v;
    }
  }

  // ---------------------------------------------------------------------------
  // Order preservation: the slug spells out the title's word characters
  // ---------------------------------------------------------------------------

  /** The word characters of `s`, in order. */
  function WordChars(s: string): string {
    if s == [] then [] else (if IsWord(s[0]) then [s[0]] else []) + WordChars(s[1..])
  }

  /** `s` with every `-` deleted. */
  function DropHyphens(s: string): string {
    if s == [] then [] else (if s[0] != '-' then [s[0]] else []) + DropHyphens(s[1..])
  }

  lemma {:induction false} WordCharsAppend(a: string, b: string)
    ensures WordChars(a + b) == WordChars(a) + WordChars(b)
    decreases |a|
  {
    if a != [] {
      assert (a + b)[1..] == a[1..] + b;
      WordCharsAppend(a[1..], b);
    } else {
      assert a + b == b;
    }
  }

  lemma {:induction false} WordCharsOfSpaces(w: string)
    requires AllSpace(w)
    ensures WordChars(w) == []
    decreases |w|
  {
    if w != [] {
      assert w[0] in w;
      WordCharsOfSpaces(w[1..]);
    }
  }

  /** Leading whitespace holds no word character. */
  lemma {:induction false} WordCharsTrimStart(s: string)
    ensures WordChars(TrimStart(s)) == WordChars(s)
  {
    var t := TrimStart(s);
    var w := s[..|s| - |t|];
    assert s == w + t;
    assert AllSpace(w) by {
      forall c | c in w ensures IsSpace(c) {
        var k :| 0 <= k < |w| && w[k] == c;
        assert s[k] == c;
      }
    }
    WordCharsOfSpaces(w);
    WordCharsAppend(w, t);
  }

  /** Trailing whitespace holds no word character. */
  lemma WordCharsTrimEnd(t: string)
    ensures WordChars(TrimEnd(t)) == WordChars(t)
  {
    var r := TrimEnd(t);
    assert t == r + t[|r|..];
    WordCharsOfSpaces(t[|r|..]);
    WordCharsAppend(r, t[|r|..]);
  }

  /** Trimming removes whitespace only, so it keeps every word character. */
  lemma WordCharsTrim(s: string)
    ensures WordChars(Trim(s)) == WordChars(s)
  {
    WordCharsTrimStart(s);
    WordCharsTrimEnd(TrimStart(s));
  }

  /** Step 3 keeps every word character, in order. */
  lemma {:induction false} WordCharsStrip(s: string)
    ensures WordChars(StripDisallowed(s)) == WordChars(s)
    decreases |s|
  {
    if s != [] {
      WordCharsStrip(s[1..]);
      WordCharsAppend(if IsKept(s[0]) then [s[0]] else [], StripDisallowed(s[1..]));
    }
  }

  /** On `[\w\s-]` text, step 4 only turns whitespace into `-`: deleting `-` afterwards leaves the word characters. */
  lemma {:induction false} DropHyphensSpaces(s: string)
    requires forall c :: c in s ==> IsKept(c)
    ensures DropHyphens(SpacesToHyphens(s)) == WordChars(s)
    decreases |s|
  {
    if s != [] {
      assert s[0] in s;
      assert forall c :: c in s[1..] ==> c in s;
      DropHyphensSpaces(s[1..]);
      var rest := SpacesToHyphens(s[1..]);
      if IsSpace(s[0]) {
        if |s| > 1 && IsSpace(s[1]) {
        } else {
          assert ("-" + rest)[1..] == rest;
        }
      } else {
        assert ([s[0]] + rest)[1..] == rest;
      }
    }
  }

  /** Step 5 deletes `-` characters only. */
  lemma {:induction false} DropHyphensCollapse(s: string)
    ensures DropHyphens(CollapseHyphens(s)) == DropHyphens(s)
    decreases |s|
  {
    if s != [] {
      DropHyphensCollapse(s[1..]);
      if !(s[0] == '-' && |s| > 1 && s[1] == '-') {
        assert ([s[0]] + CollapseHyphens(s[1..]))[1..] == CollapseHyphens(s[1..]);
      }
    }
  }

  /**
   * Deleting the `-` characters from the slug gives exactly the word characters
   * of the lower-cased title, in their original order.
   */
  lemma SlugSpellsWordChars(title: string)
    ensures DropHyphens(GenerateSlugFromTitle(title)) == WordChars(Trim(ToLower(title)))
    ensures DropHyphens(GenerateSlugFromTitle(title)) == WordChars(ToLower(title))
  {
    var x := Trim(ToLower(title));
    var y := StripDisallowed(x);
    DropHyphensCollapse(SpacesToHyphens(y));
    DropHyphensSpaces(y);
    WordCharsStrip(x);
    WordCharsTrim(ToLower(title));
  }

  // ---------------------------------------------------------------------------
  // Idempotence: a slug is its own slug
  // ---------------------------------------------------------------------------

  lemma ToLowerFixes(s: string)
    requires forall c :: c in s ==> !IsUpper(c)
    ensures ToLower(s) == s
  {
    assert forall i :: 0 <= i < |s| ==> s[i] in s;
  }

  lemma TrimFixes(s: string)
    requires NoSpace(s)
    ensures Trim(s) == s
  {
    if s != [] {
      assert s[0] in s && s[|s| - 1] in s;
      assert !IsSpace(s[0]) && !IsSpace(s[|s| - 1]);
    }
    assert TrimStart(s) == s;
    assert TrimEnd(s) == s;
  }

  lemma {:induction false} StripFixes(s: string)
    requires forall c :: c in s ==> IsKept(c)
    ensures StripDisallowed(s) == s
    decreases |s|
  {
    if s != [] {
      assert s[0] in s;
      assert forall c :: c in s[1..] ==> c in s;
      StripFixes(s[1..]);
    }
  }

  lemma {:induction false} SpacesFixes(s: string)
    requires NoSpace(s)
    ensures SpacesToHyphens(s) == s
    decreases |s|
  {
    if s != [] {
      assert s[0] in s;
      assert forall c :: c in s[1..] ==> c in s;
      SpacesFixes(s[1..]);
    }
  }

  lemma {:induction false} CollapseFixes(s: string)
    requires NoDoubleHyphen(s)
    ensures CollapseHyphens(s) == s
    decreases |s|
  {
    if s != [] {
      assert NoDoubleHyphen(s[1..]) by {
        forall i | 0 < i < |s| - 1 ensures !(s[1..][i - 1] == '-' && s[1..][i] == '-') {
          assert s[1..][i - 1] == s[i] && s[1..][i] == s[i + 1];
        }
      }
      CollapseFixes(s[1..]);
      if |s| > 1 {
        assert !(s[0] == '-' && s[1] == '-');
      }
    }
  }

  /** `slug(slug(t)) == slug(t)`: every step leaves a slug unchanged. */
  lemma SlugIdempotent(title: string)
    ensures GenerateSlugFromTitle(GenerateSlugFromTitle(title)) == GenerateSlugFromTitle(title)
  {
    var s := GenerateSlugFromTitle(title);
    assert forall c :: c in s ==> !IsUpper(c) && IsKept(c) by {
      forall c | c in s ensures !IsUpper(c) && IsKept(c) {
        assert IsSlugChar(c);
      }
    }
    ToLowerFixes(s);
    TrimFixes(s);
    StripFixes(s);
    SpacesFixes(s);
    CollapseFixes(s);
    calc {
      GenerateSlugFromTitle(s);
      CollapseHyphens(SpacesToHyphens(StripDisallowed(Trim(ToLower(s)))));
      { assert ToLower(s) == s; }
      CollapseHyphens(SpacesToHyphens(StripDisallowed(Trim(s))));
      { assert Trim(s) == s; }
      CollapseHyphens(SpacesToHyphens(StripDisallowed(s)));
      { assert StripDisallowed(s) == s; }
      CollapseHyphens(SpacesToHyphens(s));
      { assert SpacesToHyphens(s) == s; }
      CollapseHyphens(s);
      s;
    }
  }

  // ---------------------------------------------------------------------------
  // Surrounding whitespace has no effect
  // ---------------------------------------------------------------------------

  lemma ToLowerAppend(a: string, b: string)
    ensures ToLower(a + b) == ToLower(a) + ToLower(b)
  {
  }

  lemma TrimStartOfSpaces(w: string)
    requires AllSpace(w)
    ensures TrimStart(w) == []
  {
  }

  lemma {:induction false} TrimStartSkipsSpaces(w: string, x: string)
    requires AllSpace(w)
    ensures TrimStart(w + x) == TrimStart(x)
    decreases |w|
  {
    if w != [] {
      assert w[0] in w;
      assert (w + x)[1..] == w[1..] + x;
      TrimStartSkipsSpaces(w[1..], x);
    } else {
      assert w + x == x;
    }
  }

  lemma {:induction false} TrimStartAppend(x: string, w: string)
    ensures TrimStart(x + w) == if TrimStart(x) == [] then TrimStart(w) else TrimStart(x) + w
    decreases |x|
  {
    if x == [] {
      assert x + w == w;
    } else {
      assert (x + w)[0] == x[0];
      assert (x + w)[1..] == x[1..] + w;
      TrimStartAppend(x[1..], w);
    }
  }

  lemma {:induction false} TrimEndSkipsSpaces(x: string, w: string)
    requires AllSpace(w)
    ensures TrimEnd(x + w) == TrimEnd(x)
    decreases |w|
  {
    if w != [] {
      var w' := w[..|w| - 1];
      assert w[|w| - 1] in w;
      assert (x + w)[..|x + w| - 1] == x + w';
      TrimEndSkipsSpaces(x, w');
    } else {
      assert x + w == x;
    }
  }

  /** `trim()` ignores whitespace already at either end. */
  lemma TrimIgnoresSurroundingSpaces(w1: string, x: string, w2: string)
    requires AllSpace(w1) && AllSpace(w2)
    ensures Trim(w1 + x + w2) == Trim(x)
  {
    assert w1 + x + w2 == w1 + (x + w2);
    TrimStartSkipsSpaces(w1, x + w2);
    TrimStartAppend(x, w2);
    TrimStartOfSpaces(w2);
    var start := TrimStart(w1 + x + w2);
    if TrimStart(x) == [] {
      assert start == [];
    } else {
      assert start == TrimStart(x) + w2;
      TrimEndSkipsSpaces(TrimStart(x), w2);
    }
  }

  /** Surrounding whitespace, of any length and any kind, does not change the slug. */
  lemma SlugIgnoresSurroundingSpaces(w1: string, title: string, w2: string)
    requires AllSpace(w1) && AllSpace(w2)
    ensures GenerateSlugFromTitle(w1 + title + w2) == GenerateSlugFromTitle(title)
  {
    ToLowerAppend(w1 + title, w2);
    ToLowerAppend(w1, title);
    ToLowerFixes(w1);
    ToLowerFixes(w2);
    TrimIgnoresSurroundingSpaces(w1, ToLower(title), w2);
  }

  /** The case of one space on each side: `slug(" " + t + " ") == slug(t)`. */
  lemma SlugIgnoresPadding(title: string)
    ensures GenerateSlugFromTitle(" " + title + " ") == GenerateSlugFromTitle(title)
  {
    SlugIgnoresSurroundingSpaces(" ", title, " ");
  }

  // ---------------------------------------------------------------------------
  // When the slug is empty
  // ---------------------------------------------------------------------------

  /**
   * The slug is empty exactly when the trimmed, lower-cased title holds no
   * character of `[\w\s-]`. (A title such as "! !" keeps its inner space and
   * so gives "-", not "".)
   */
  lemma SlugEmptyIff(title: string)
    ensures GenerateSlugFromTitle(title) == [] <==> forall c :: c in Trim(ToLower(title)) ==> !IsKept(c)
  {
    var x := Trim(ToLower(title));
    if forall c :: c in x ==> !IsKept(c) {
      if StripDisallowed(x) != [] {
        assert StripDisallowed(x)[0] in StripDisallowed(x);
      }
    }
  }

  /** An empty or all-whitespace title, or one made only of characters outside `[\w\s-]`, gives the empty slug. */
  lemma EmptySlugTitles(title: string)
    requires AllSpace(title) || forall c :: c in title ==> !IsKept(c)
    ensures GenerateSlugFromTitle(title) == []
  {
    SlugEmptyIff(title);
    if AllSpace(title) {
      ToLowerFixes(title);
      TrimStartOfSpaces(title);
    } else {
      ToLowerFixes(title);
    }
  }

  // ---------------------------------------------------------------------------
  // Worked examples
  // ---------------------------------------------------------------------------

  lemma HiBangLower()
    ensures ToLower("Hi !") == "hi !"
  {
  }

  lemma HiBangTrim()
    ensures TrimStart("hi !") == "hi !" && TrimEnd("hi !") == "hi !"
  {
  }

  lemma HiBangStrip()
    ensures StripDisallowed("hi !") == "hi "
  {
    assert StripDisallowed("!") == "";
    assert StripDisallowed(" !") == " ";
    assert StripDisallowed("i !") == "i ";
  }

  lemma HiBangHyphens()
    ensures SpacesToHyphens("hi ") == "hi-"
    ensures CollapseHyphens("hi-") == "hi-"
  {
    CollapseFixes("hi-");
  }

  /** Trailing punctuation leaves a trailing `-`: the slug's edges are not cleaned of hyphens. */
  lemma TrailingHyphenExample()
    ensures GenerateSlugFromTitle("Hi !") == "hi-"
  {
    HiBangLower();
    HiBangTrim();
    HiBangStrip();
    HiBangHyphens();
  }

  lemma DashALower()
    ensures ToLower(" - A") == " - a"
  {
  }

  lemma DashATrimStart()
    ensures TrimStart(" - a") == "- a"
  {
  }

  lemma DashATrimEnd()
    ensures TrimEnd("- a") == "- a"
  {
  }

  lemma DashAStrip()
    ensures StripDisallowed("- a") == "- a"
  {
    StripFixes("- a");
  }

  lemma DashAHyphens()
    ensures SpacesToHyphens("- a") == "--a"
    ensures CollapseHyphens("--a") == "-a"
  {
  }

  /** A whitespace run next to a `-` merges with it into a single `-`, which may lead the slug. */
  lemma LeadingHyphenExample()
    ensures GenerateSlugFromTitle(" - A") == "-a"
  {
    DashALower();
    DashATrimStart();
    DashATrimEnd();
    DashAStrip();
    DashAHyphens();
  }
}
