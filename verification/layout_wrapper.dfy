/**
 * The page frame of the site (src/components/layout-wrapper.tsx): the
 * `sidebar_state` cookie that decides whether the sidebar starts open, the
 * mount gate that renders nothing until that cookie has been read, the
 * breadcrumb trail in the header, and the share button's flags.
 *
 * `LayoutWrapper` keeps its flags in React state; it is modelled as a class
 * whose fields are those flags and whose methods are the mount effect and the
 * event handlers. The cookie lookup and the breadcrumb trail are pure.
 */
module LayoutWrapper {
  import opened Wrappers
  import opened Strings

  // ---------------------------------------------------------------------------
  // The `sidebar_state` cookie
  // ---------------------------------------------------------------------------

  const SidebarCookiePrefix: string := "sidebar_state="

  /** The first row that starts with `sidebar_state=`, if any. */
  function FindSidebarRow(rows: seq<string>): (row: Option<string>)
    ensures row.Some? ==> row.value in rows && StartsWith(row.value, SidebarCookiePrefix)
    ensures row.None? <==> forall k :: 0 <= k < |rows| ==> !StartsWith(rows[k], SidebarCookiePrefix)
  {
    if rows == [] then None
    else if StartsWith(rows[0], SidebarCookiePrefix) then Some(rows[0])
    else FindSidebarRow(rows[1..])
  }

  /** Only the first row carrying the cookie is consulted; any later one is ignored. */
  lemma {:induction false} FirstSidebarRowWins(rows: seq<string>, k: nat)
    requires k < |rows| && StartsWith(rows[k], SidebarCookiePrefix)
    requires forall j :: 0 <= j < k ==> !StartsWith(rows[j], SidebarCookiePrefix)
    ensures FindSidebarRow(rows) == Some(rows[k])
    decreases k
  {
    if k > 0 {
      FirstSidebarRowWins(rows[1..], k - 1);
    }
  }

  /** For a one-character separator, occurring at `j` means holding that character at `j`. */
  lemma OccursAtChar(s: string, c: char, j: int)
    requires 0 <= j < |s|
    ensures OccursAt(s, [c], j) <==> s[j] == c
  {
    assert s[j..j + 1] == [s[j]];
  }

  /** Splitting a cookie row on `=`: the name ends at the first `=`, and the second piece is what follows up to the next `=`. */
  lemma SplitAfterName(row: string)
    requires StartsWith(row, SidebarCookiePrefix)
    ensures |Split(row, "=")| >= 2
    ensures Split(row, "=")[1] == Split(row[|SidebarCookiePrefix|..], "=")[0]
  {
    var n := |SidebarCookiePrefix| - 1;
    assert row[..|SidebarCookiePrefix|] == SidebarCookiePrefix;
    OccursAtChar(row, '=', n);
    forall j | 0 <= j < n ensures !OccursAt(row, "=", j) {
      OccursAtChar(row, '=', j);
      assert row[j] == SidebarCookiePrefix[j];
    }
    SplitTail(row, "=", n);
  }

  /** The first piece of a split on `=` holds no `=` and stops at the first `=` or at the end. */
  lemma FirstPieceStopsAtEquals(s: string)
    ensures '=' !in Split(s, "=")[0]
    ensures |Split(s, "=")[0]| == |s| || s[|Split(s, "=")[0]|] == '='
  {
    var value := Split(s, "=")[0];
    if '=' in value {
      var k :| 0 <= k < |value| && value[k] == '=';
      OccursAtChar(value, '=', k);
    }
    if |value| < |s| {
      OccursAtChar(s, '=', |value|);
    }
  }

  /**
   * The second piece of a row split on `=`, for a row that starts with
   * `sidebar_state=`: the text between the first `=` (the one ending the name)
   * and the second `=`, or the end of the row when there is no second `=`.
   */
  function CookieValue(row: string): (value: string)
    requires StartsWith(row, SidebarCookiePrefix)
    ensures StartsWith(row[|SidebarCookiePrefix|..], value)
    ensures '=' !in value
    ensures |SidebarCookiePrefix| + |value| == |row| || row[|SidebarCookiePrefix| + |value|] == '='
  {
    SplitAfterName(row);
    FirstPieceStopsAtEquals(row[|SidebarCookiePrefix|..]);
    Split(row, "=")[1]
  }

  /**
   * The mount effect's reading of `document.cookie`: split on `"; "`, take the
   * first row that starts with `sidebar_state=`, and compare its value with
   * `"true"`. `None` when no row carries the cookie.
   */
  function SidebarStateFromCookie(cookie: string): (state: Option<bool>)
    ensures state.None? ==> forall k :: 0 <= k < |Split(cookie, "; ")| ==> !StartsWith(Split(cookie, "; ")[k], SidebarCookiePrefix)
    ensures state.Some? ==> exists k :: 0 <= k < |Split(cookie, "; ")| && StartsWith(Split(cookie, "; ")[k], SidebarCookiePrefix)
  {
    var rows := Split(cookie, "; ");
    var row := FindSidebarRow(rows);
    if row.None? then None
    else Some(CookieValue(row.value) == "true")
  }

  /** A piece cut at the first `=` is `"true"` iff the text is `"true"` or starts with `"true="`. */
  lemma PieceIsTrueIff(t: string, v: string)
    requires StartsWith(t, v) && '=' !in v && (|v| == |t| || t[|v|] == '=')
    ensures v == "true" <==> t == "true" || StartsWith(t, "true=")
  {
    if t == "true" || StartsWith(t, "true=") {
      assert t[..4] == "true";
      assert forall i :: 0 <= i < 4 ==> t[i] != '=';
      assert |t| > 4 ==> t[4] == '=';
      assert |v| == 4;
    }
  }

  /** The value is exactly `"true"` iff the row is `sidebar_state=true`, possibly followed by a further `=` and anything. */
  lemma TrueValueIff(row: string)
    requires StartsWith(row, SidebarCookiePrefix)
    ensures CookieValue(row) == "true" <==>
            row == SidebarCookiePrefix + "true" || StartsWith(row, SidebarCookiePrefix + "true=")
  {
    var p := |SidebarCookiePrefix|;
    var t := row[p..];
    PieceIsTrueIff(t, CookieValue(row));
    assert row == SidebarCookiePrefix + t;
    assert StartsWith(row, SidebarCookiePrefix + "true=") <==> StartsWith(t, "true=") by {
      if StartsWith(t, "true=") {
        assert row[..p + 5] == SidebarCookiePrefix + t[..5];
      }
      if StartsWith(row, SidebarCookiePrefix + "true=") {
        assert row[..p + 5] == SidebarCookiePrefix + "true=";
        assert t[..5] == row[..p + 5][p..];
        assert (SidebarCookiePrefix + "true=")[p..] == "true=";
      }
    }
  }

  /** The sidebar state follows the first row carrying the cookie: open iff that row's value is `"true"`. */
  lemma FirstRowDecides(cookie: string, k: nat)
    requires k < |Split(cookie, "; ")|
    requires StartsWith(Split(cookie, "; ")[k], SidebarCookiePrefix)
    requires forall j :: 0 <= j < k ==> !StartsWith(Split(cookie, "; ")[j], SidebarCookiePrefix)
    ensures SidebarStateFromCookie(cookie) == Some(CookieValue(Split(cookie, "; ")[k]) == "true")
  {
    FirstSidebarRowWins(Split(cookie, "; "), k);
  }

  /** A cookie string made of the single row `sidebar_state=true` opens the sidebar. */
  lemma OpenExample()
    ensures SidebarStateFromCookie("sidebar_state=true") == Some(true)
  {
    FreeWithoutFirstChar("sidebar_state=true", "; ");
    SplitFree("sidebar_state=true", "; ");
    TrueValueIff("sidebar_state=true");
  }

  /** An empty value closes the sidebar. */
  lemma EmptyValueExample()
    ensures SidebarStateFromCookie("sidebar_state=") == Some(false)
  {
    FreeWithoutFirstChar("sidebar_state=", "; ");
    SplitFree("sidebar_state=", "; ");
  }

  /** An empty cookie string has no entry, so the sidebar keeps its default. */
  lemma EmptyCookieHasNoEntry()
    ensures SidebarStateFromCookie("") == None
  {
    SplitFree("", "; ");
  }

  // ---------------------------------------------------------------------------
  // Breadcrumbs
  // ---------------------------------------------------------------------------

  /** One breadcrumb: its `label` (written `labelText` here, since `label` is a Dafny keyword) and an optional link target. */
  datatype Crumb = Crumb(labelText: string, href: Option<string>)

  /** One element of the rendered trail. */
  datatype Piece = CrumbLink(href: string, labelText: string) | CrumbText(labelText: string) | Separator

  /** The header's left-hand label: the trail, or the site owner's name when there are no breadcrumbs. */
  datatype Header = Trail(pieces: seq<Piece>) | FallbackLabel(text: string)

  /** A crumb whose href is present and non-empty (JavaScript-truthy) is a link; any other is plain text. */
  function CrumbPiece(crumb: Crumb): (p: Piece)
    ensures p.CrumbLink? <==> crumb.href.Some? && crumb.href.value != ""
    ensures p.CrumbLink? ==> p == CrumbLink(crumb.href.value, crumb.labelText)
    ensures !p.CrumbLink? ==> p == CrumbText(crumb.labelText)
  {
    if crumb.href.Some? && crumb.href.value != "" then CrumbLink(crumb.href.value, crumb.labelText)
    else CrumbText(crumb.labelText)
  }

  /**
   * The trail rendered for the crumbs from `index` on: each crumb's piece,
   * followed by a separator when `index < breadcrumbs.length - 1`. The trail
   * alternates crumbs and separators, crumbs at even positions.
   */
  function TrailFrom(crumbs: seq<Crumb>, index: nat): (pieces: seq<Piece>)
    requires index <= |crumbs|
    decreases |crumbs| - index
    ensures index == |crumbs| ==> pieces == []
    ensures index < |crumbs| ==> |pieces| == 2 * (|crumbs| - index) - 1
    ensures forall k :: index <= k < |crumbs| ==> pieces[2 * (k - index)] == CrumbPiece(crumbs[k])
    ensures forall j :: 0 <= j < |pieces| ==> (pieces[j] == Separator <==> j % 2 == 1)
  {
    if index == |crumbs| then []
    else
      var rest := TrailFrom(crumbs, index + 1);
      var pieces := [CrumbPiece(crumbs[index])] + (if index < |crumbs| - 1 then [Separator] else []) + rest;
      assert index < |crumbs| - 1 ==> forall j :: 2 <= j < |pieces| ==> pieces[j] == rest[j - 2];
      pieces
  }

  function CountSeparators(pieces: seq<Piece>): nat {
    if pieces == [] then 0
    else (if pieces[0] == Separator then 1 else 0) + CountSeparators(pieces[1..])
  }

  /** There is a separator between consecutive crumbs and nowhere else: n crumbs give n - 1 separators. */
  lemma {:induction false} SeparatorCount(crumbs: seq<Crumb>, index: nat)
    requires index < |crumbs|
    ensures CountSeparators(TrailFrom(crumbs, index)) == |crumbs| - index - 1
    decreases |crumbs| - index
  {
    var pieces := TrailFrom(crumbs, index);
    var head := CrumbPiece(crumbs[index]);
    if index == |crumbs| - 1 {
      assert pieces == [head];
    } else {
      SeparatorCount(crumbs, index + 1);
      var rest := TrailFrom(crumbs, index + 1);
      TrailFromCons(crumbs, index);
      CountSeparatorsCons(head, [Separator] + rest);
      CountSeparatorsCons(Separator, rest);
    }
  }

  /** Before the last crumb, a trail is the crumb, a separator and the trail of the rest. */
  lemma TrailFromCons(crumbs: seq<Crumb>, index: nat)
    requires index < |crumbs| - 1
    ensures TrailFrom(crumbs, index) == [CrumbPiece(crumbs[index])] + ([Separator] + TrailFrom(crumbs, index + 1))
  {
  }

  lemma CountSeparatorsCons(p: Piece, pieces: seq<Piece>)
    ensures CountSeparators([p] + pieces) == (if p == Separator then 1 else 0) + CountSeparators(pieces)
  {
    assert ([p] + pieces)[1..] == pieces;
  }

  /**
   * The header label: the trail for a present, non-empty breadcrumb list, and
   * the fallback text otherwise.
   */
  function RenderHeader(breadcrumbs: Option<seq<Crumb>>): (h: Header)
    ensures h.FallbackLabel? <==> breadcrumbs.None? || |breadcrumbs.value| == 0
    ensures h.FallbackLabel? ==> h.text == "Yasin Kavakli"
    ensures h.Trail? ==> |h.pieces| == 2 * |breadcrumbs.value| - 1
    ensures h.Trail? ==> forall k :: 0 <= k < |breadcrumbs.value| ==> h.pieces[2 * k] == CrumbPiece(breadcrumbs.value[k])
    ensures h.Trail? ==> forall j :: 0 <= j < |h.pieces| ==> (h.pieces[j] == Separator <==> j % 2 == 1)
  {
    if breadcrumbs.Some? && |breadcrumbs.value| > 0 then Trail(TrailFrom(breadcrumbs.value, 0))
    else FallbackLabel("Yasin Kavakli")
  }

  /** A header trail never starts or ends with a separator and holds exactly one fewer separator than crumbs. */
  lemma TrailSeparators(crumbs: seq<Crumb>)
    requires |crumbs| > 0
    ensures RenderHeader(Some(crumbs)).pieces[0] != Separator
    ensures RenderHeader(Some(crumbs)).pieces[|RenderHeader(Some(crumbs)).pieces| - 1] != Separator
    ensures CountSeparators(RenderHeader(Some(crumbs)).pieces) == |crumbs| - 1
  {
    SeparatorCount(crumbs, 0);
    var pieces := RenderHeader(Some(crumbs)).pieces;
    assert pieces[2 * (|crumbs| - 1)] == CrumbPiece(crumbs[|crumbs| - 1]);
  }

  // ---------------------------------------------------------------------------
  // The component
  // ---------------------------------------------------------------------------

  /** The share button: a check mark once the link is copied, otherwise the share icon (animated while hovered). */
  datatype ShareIcon = CheckIcon | ShareArrow(animating: bool)

  datatype ShareButton = ShareButton(icon: ShareIcon, tooltipOpen: bool, tooltip: string)

  /** What the mounted wrapper renders: the controlled sidebar state, the header label and the share button. */
  datatype Page = Page(sidebarOpen: bool, header: Header, share: ShareButton)

  function ShareView(isCopied: bool, isHovered: bool, tooltipOpen: bool): (b: ShareButton)
    ensures b.icon == CheckIcon <==> isCopied
    ensures b.icon.ShareArrow? ==> b.icon.animating == isHovered
    ensures b.tooltip == if isCopied then "✓ Copied to clipboard!" else "Share this page"
    ensures b.tooltipOpen == tooltipOpen
  {
    ShareButton(if isCopied then CheckIcon else ShareArrow(isHovered), tooltipOpen,
                if isCopied then "✓ Copied to clipboard!" else "Share this page")
  }

  class LayoutWrapperComponent {
    const breadcrumbs: Option<seq<Crumb>>
    var isHovered: bool
    var isCopied: bool
    var tooltipOpen: bool
    var sidebarOpen: bool
    var mounted: bool

    /** The initial state: sidebar open, nothing copied or hovered, not yet mounted. */
    constructor (breadcrumbs: Option<seq<Crumb>>)
      ensures this.breadcrumbs == breadcrumbs
      ensures sidebarOpen && !mounted
      ensures !isHovered && !isCopied && !tooltipOpen
    {
      this.breadcrumbs := breadcrumbs;
      isHovered := false;
      isCopied := false;
      tooltipOpen := false;
      sidebarOpen := true;
      mounted := false;
    }

    /**
     * The mount effect: a `sidebar_state` entry sets the sidebar open iff its
     * value is `"true"`; without one the sidebar keeps its state. Either way the
     * component is then mounted.
     */
    method ReadSidebarCookie(cookie: string)
      modifies this
      ensures mounted
      ensures sidebarOpen == SidebarStateFromCookie(cookie).GetOr(old(sidebarOpen))
      ensures isHovered == old(isHovered) && isCopied == old(isCopied) && tooltipOpen == old(tooltipOpen)
    {
      var cookies := Split(cookie, "; ");
      var sidebarCookie := FindSidebarRow(cookies);
      if sidebarCookie.Some? {
        var value := CookieValue(sidebarCookie.value);
        sidebarOpen := value == "true";
      }
      mounted := true;
    }

    /**
     * `handleShare`: when the clipboard write succeeds, both the copied flag and
     * the tooltip are switched on; when it fails, nothing changes.
     */
    method HandleShare(clipboardWriteSucceeded: bool)
      modifies this
      ensures clipboardWriteSucceeded ==> isCopied && tooltipOpen
      ensures !clipboardWriteSucceeded ==> isCopied == old(isCopied) && tooltipOpen == old(tooltipOpen)
      ensures isHovered == old(isHovered) && sidebarOpen == old(sidebarOpen) && mounted == old(mounted)
    {
      if clipboardWriteSucceeded {
        isCopied := true;
        tooltipOpen := true;
      }
    }

    /** The callback `handleShare` schedules: it clears the copied flag and closes the tooltip. */
    method CopiedTimeout()
      modifies this
      ensures !isCopied && !tooltipOpen
      ensures isHovered == old(isHovered) && sidebarOpen == old(sidebarOpen) && mounted == old(mounted)
    {
      isCopied := false;
      tooltipOpen := false;
    }

    /** The share button's `onMouseEnter`: hovering counts only while nothing is copied. */
    method ShareMouseEnter()
      modifies this
      ensures isHovered == (old(isHovered) || !isCopied)
      ensures isCopied == old(isCopied) && tooltipOpen == old(tooltipOpen)
      ensures sidebarOpen == old(sidebarOpen) && mounted == old(mounted)
    {
      if !isCopied {
        isHovered := true;
      }
    }

    /** The share button's `onMouseLeave`. */
    method ShareMouseLeave()
      modifies this
      ensures !isHovered
      ensures isCopied == old(isCopied) && tooltipOpen == old(tooltipOpen)
      ensures sidebarOpen == old(sidebarOpen) && mounted == old(mounted)
    {
      isHovered := false;
    }

    /** The tooltip's `onOpenChange` and the sidebar's `onOpenChange`, which write straight into state. */
    method SetTooltipOpen(open: bool)
      modifies this
      ensures tooltipOpen == open
      ensures isHovered == old(isHovered) && isCopied == old(isCopied)
      ensures sidebarOpen == old(sidebarOpen) && mounted == old(mounted)
    {
      tooltipOpen := open;
    }

    method SetSidebarOpen(open: bool)
      modifies this
      ensures sidebarOpen == open
      ensures isHovered == old(isHovered) && isCopied == old(isCopied)
      ensures tooltipOpen == old(tooltipOpen) && mounted == old(mounted)
    {
      sidebarOpen := open;
    }

    /** The mount gate: nothing is rendered until the cookie has been read. */
    function Render(): (page: Option<Page>)
      reads this
      ensures page.None? <==> !mounted
      ensures page.Some? ==> page.value.sidebarOpen == sidebarOpen
      ensures page.Some? ==> page.value.header == RenderHeader(breadcrumbs)
      ensures page.Some? ==> page.value.share == ShareView(isCopied, isHovered, tooltipOpen)
    {
      if !mounted then None
      else Some(Page(sidebarOpen, RenderHeader(breadcrumbs), ShareView(isCopied, isHovered, tooltipOpen)))
    }
  }
}
