# Blog site rules in Dafny

This project models the small pieces of decision logic of a personal blog built
with Astro and React, and proves what they guarantee:

- **Slugs** (`slug.dfy`, module `Slug`). `generateSlugFromTitle` lower-cases a
  title, trims it, drops every character outside `[\w\s-]`, turns each whitespace
  run into `-` and collapses runs of `-`. Each step is a function with its own
  contract. The proved properties:
  - the slug holds only `[a-z0-9_-]` and never `--`;
  - deleting its hyphens gives the title's word characters in order;
  - `slug(slug(t)) == slug(t)`;
  - surrounding whitespace has no effect;
  - the slug is empty exactly when the trimmed title keeps no `[\w\s-]` character;
  - leading and trailing hyphens survive (`"Hi !"` gives `"hi-"`, `" - A"` gives `"-a"`).
- **String helpers** (`strings.dfy`, module `Strings`). `startsWith`, and
  JavaScript's `split` with a string separator, with the round trip
  `join(split(s)) == s`.
- **Sidebar** (`app_sidebar.dfy`, module `AppSidebar`):
  - the navigation and project tables;
  - the rule that marks the entry for the current path active;
  - what an entry renders: tooltip, link, new-tab attributes, icon animation.

  `NavItem` and `ProjectItem` keep their flags in component state, so they are
  classes whose methods are the effect and the mouse handlers.
- **Page frame** (`layout_wrapper.dfy`, module `LayoutWrapper`):
  - reading the `sidebar_state` cookie on mount;
  - the mount gate;
  - the breadcrumb trail, which alternates crumbs and separators;
  - the share button's copied, tooltip and hover flags.

  `LayoutWrapper`'s state is a class with one field per state hook.
- **Dark mode** (`theme.dfy`, module `Theme`). `updateTheme` resolves the stored
  theme and decides `isDark`. It then updates the root element's class list and
  its `data-theme` attribute, which is modelled as a class. When storage throws,
  it falls back to the system preference.

The outside world enters only as parameters:
- `window.location.pathname`;
- `document.cookie`;
- the result of `localStorage.getItem` (or the fact that it threw);
- the `prefers-color-scheme: dark` media query;
- whether the clipboard write succeeded.

## Model

| member | source | states |
|---|---|---|
| Slug.ToLower | src/lib/slug.ts:3 | the result has the same length as the input and holds no upper-case ASCII letter. Each `A`-`Z` becomes the matching `a`-`z` (its code plus 32) in the same place, and every other character is kept in place |
| Slug.Trim | src/lib/slug.ts:4 | the result is a slice of the input with only whitespace outside it. It neither starts nor ends with whitespace and introduces no character |
| Slug.StripDisallowed | src/lib/slug.ts:5 | the result keeps exactly the characters of the input that are in `[\w\s-]`, and none other |
| Slug.StripOne | src/lib/slug.ts:5 | one character is kept iff it is in `[\w\s-]`, and deleted otherwise |
| Slug.StripAppend | src/lib/slug.ts:5 | stripping a concatenation strips each part and concatenates the results, so the kept characters keep their order and their number |
| Slug.SpacesToHyphens | src/lib/slug.ts:6 | the result has no whitespace and is empty iff the input is. Its only new character is `-`, and its first character is `-` iff the input starts with whitespace or with `-` |
| Slug.SpacesOfRun | src/lib/slug.ts:6 | a non-empty run of whitespace of any kind and length becomes exactly one `-` |
| Slug.SpacesAppend | src/lib/slug.ts:6 | when the join point of two strings is not inside a whitespace run, the replacement works on each part separately |
| Slug.SpacesRunToHyphen | src/lib/slug.ts:6 | a maximal whitespace run between two parts becomes one `-`, and the parts are replaced independently |
| Slug.CollapseHyphens | src/lib/slug.ts:7 | the result never holds `--`, introduces no character, is empty iff the input is, and keeps the first character |
| Slug.CollapseOfRun | src/lib/slug.ts:7 | a non-empty run of `-` becomes exactly one `-` |
| Slug.CollapseAppend | src/lib/slug.ts:7 | when the join point of two strings is not inside a run of `-`, collapsing works on each part separately |
| Slug.HyphenRunToHyphen | src/lib/slug.ts:7 | a maximal run of `-` between two parts becomes one `-`, and the parts are collapsed independently |
| Slug.GenerateSlugFromTitle | src/lib/slug.ts:1-8 | every slug character is a lower-case ASCII letter, a digit, `_` or `-`. A slug holds no whitespace and no `--` |
| Slug.SlugSpellsWordChars | src/lib/slug.ts:1-8 | deleting the `-` from the slug gives exactly the word characters of the lower-cased title, in their original order |
| Slug.SlugJoinsWordsWithHyphen | src/lib/slug.ts:1-8 | two non-empty words of lower-case `[a-z0-9_]` characters without `-`, separated by any whitespace run, give exactly the two words joined by one `-` |
| Slug.SlugIdempotent | src/lib/slug.ts:1-8 | a slug is its own slug: `slug(slug(t)) == slug(t)` |
| Slug.TrimIgnoresSurroundingSpaces | src/lib/slug.ts:4 | whitespace already at either end does not change what `trim` returns |
| Slug.SlugIgnoresSurroundingSpaces | src/lib/slug.ts:1-8 | any whitespace, of any length and kind, before or after the title leaves the slug unchanged |
| Slug.SlugIgnoresPadding | src/lib/slug.ts:1-8 | `slug(" " + t + " ") == slug(t)` |
| Slug.SlugEmptyIff | src/lib/slug.ts:1-8 | the slug is empty iff the trimmed, lower-cased title has no character of `[\w\s-]` |
| Slug.EmptySlugTitles | src/lib/slug.ts:1-8 | an all-whitespace title, or one made only of characters outside `[\w\s-]`, gives the empty slug |
| Slug.TrailingHyphenExample | src/lib/slug.ts:5-7 | `"Hi !"` gives `"hi-"`: a trailing `-` is not removed |
| Slug.LeadingHyphenExample | src/lib/slug.ts:5-7 | `" - A"` gives `"-a"`: a leading `-` is not removed |
| Strings.StartsWithChars | src/components/app-sidebar.tsx:100 | `startsWith` holds iff the prefix is no longer than the string and agrees with it at every index from 0. The empty prefix always matches |
| Strings.IndexOfFrom | src/components/layout-wrapper.tsx:144 | the search finds the first index at or after the start where the separator occurs, and finds nothing iff it occurs nowhere from there |
| Strings.Split | src/components/layout-wrapper.tsx:144 | `split` with a non-empty separator returns at least one piece. The first piece is a separator-free prefix of the string, cut at the first occurrence when there is one, and it is the only piece iff the separator does not occur |
| Strings.JoinSplit | src/components/layout-wrapper.tsx:144 | joining the pieces of a split with the same separator gives back the string |
| Strings.SplitPiecesFree | src/components/layout-wrapper.tsx:144 | no piece of a split holds the separator |
| AppSidebar.CreateNavigation | src/components/app-sidebar.tsx:25-44 | three entries: Home at `/`, Writing at `/blog`, RSS at `/rss.xml`. Writing and RSS are disabled iff there are no posts, Home never is, and only the RSS entry is external |
| AppSidebar.CreateProjects | src/components/app-sidebar.tsx:46-77 | five entries, every one disabled and none external |
| AppSidebar.ProjectsIgnorePosts | src/components/app-sidebar.tsx:46-77 | the project table is the same with or without posts |
| AppSidebar.ActiveFor | src/components/app-sidebar.tsx:98-104 | an entry is active only if the path starts with its url. The `/` entry is active iff the path is exactly `/`, and any other entry is active whenever the path starts with its url |
| AppSidebar.HomeActiveIffRoot | src/components/app-sidebar.tsx:95-105 | the `/` entry is active iff the current path is exactly `/` |
| AppSidebar.OtherActiveIffPrefix | src/components/app-sidebar.tsx:95-105 | any entry other than `/` is active iff the current path starts with its url |
| AppSidebar.ActiveOnExtensions | src/components/app-sidebar.tsx:100 | an active non-root entry stays active on every path that extends the current one |
| AppSidebar.BlogActiveOnBlogroll | src/components/app-sidebar.tsx:100 | the `/blog` entry is active on `/blogroll`, a path that is not under it |
| AppSidebar.AtMostOneNavigationItemActive | src/components/app-sidebar.tsx:95-105 | on any path, at most one main navigation entry is active |
| AppSidebar.NavView | src/components/app-sidebar.tsx:110-147 | a disabled entry shows "title (No posts yet)", has no link, never animates and is not highlighted. An enabled one links to its url, animates iff hovered or active, and is highlighted iff active. An external entry opens with `_blank` and `noopener noreferrer`; any other keeps the caller's `target` and `rel` |
| AppSidebar.ProjectView | src/components/app-sidebar.tsx:163-196 | an entry has a new-tab link iff it is external and enabled. Otherwise it is a button whose tooltip adds "(Coming soon)" iff it is disabled. It animates iff hovered |
| AppSidebar.NavigationWithoutPosts | src/components/app-sidebar.tsx:110-128 | without posts, Writing and RSS render as still, link-less "(No posts yet)" buttons, while Home still links to `/` |
| AppSidebar.NavigationWithPosts | src/components/app-sidebar.tsx:141 | with posts, RSS links to `/rss.xml` in a new tab with `noopener noreferrer`, and Home and Writing keep the caller's `target` and `rel` |
| AppSidebar.ProjectsComingSoon | src/components/app-sidebar.tsx:182-196 | every project renders as a disabled "(Coming soon)" button without a link |
| AppSidebar.NavItemComponent.constructor | src/components/app-sidebar.tsx:92-93 | both flags start false |
| AppSidebar.NavItemComponent.SyncActive | src/components/app-sidebar.tsx:95-105 | the effect sets the active flag to the active rule for the current path and leaves the hover flag alone |
| AppSidebar.NavItemComponent.MouseEnter | src/components/app-sidebar.tsx:113-133 | entering sets the hover flag on an enabled entry and clears it on a disabled one, so a disabled entry is never hovered |
| AppSidebar.NavItemComponent.MouseLeave | src/components/app-sidebar.tsx:134 | leaving clears the hover flag |
| AppSidebar.NavItemComponent.View | src/components/app-sidebar.tsx:131-147 | the render is `NavView` of the current flags, so the icon animates only on an enabled entry that is hovered or active. A disabled entry is never hovered when it renders |
| AppSidebar.ProjectItemComponent.constructor | src/components/app-sidebar.tsx:160 | the hover flag starts false |
| AppSidebar.ProjectItemComponent.MouseEnter | src/components/app-sidebar.tsx:184 | entering sets the hover flag |
| AppSidebar.ProjectItemComponent.MouseLeave | src/components/app-sidebar.tsx:185 | leaving clears the hover flag |
| AppSidebar.ProjectItemComponent.View | src/components/app-sidebar.tsx:163-196 | the icon animates iff the entry is hovered |
| LayoutWrapper.FindSidebarRow | src/components/layout-wrapper.tsx:145 | the row found is one of the rows and starts with `sidebar_state=`. Nothing is found iff no row starts with it |
| LayoutWrapper.FirstSidebarRowWins | src/components/layout-wrapper.tsx:145 | when several rows carry the cookie, the first one is used |
| LayoutWrapper.CookieValue | src/components/layout-wrapper.tsx:147 | the value is the text after `sidebar_state=` up to the next `=` or the end of the row, and it holds no `=` |
| LayoutWrapper.SidebarStateFromCookie | src/components/layout-wrapper.tsx:144-149 | there is no decision iff no `"; "`-separated row starts with `sidebar_state=` |
| LayoutWrapper.TrueValueIff | src/components/layout-wrapper.tsx:147-148 | the value is `"true"` iff the row is `sidebar_state=true`, possibly followed by a further `=` and anything |
| LayoutWrapper.FirstRowDecides | src/components/layout-wrapper.tsx:144-149 | the first row carrying the cookie decides: the sidebar opens iff that row's value is `"true"` |
| LayoutWrapper.OpenExample | src/components/layout-wrapper.tsx:144-149 | the cookie `sidebar_state=true` opens the sidebar |
| LayoutWrapper.EmptyValueExample | src/components/layout-wrapper.tsx:144-149 | the cookie `sidebar_state=` closes it |
| LayoutWrapper.EmptyCookieHasNoEntry | src/components/layout-wrapper.tsx:144-149 | an empty cookie string gives no decision |
| LayoutWrapper.CrumbPiece | src/components/layout-wrapper.tsx:82-93 | a crumb is a link iff its href is present and non-empty; otherwise it is plain text |
| LayoutWrapper.TrailFrom | src/components/layout-wrapper.tsx:80-98 | n crumbs give 2n-1 pieces. Crumb k sits at position 2k, and a piece is a separator iff its position is odd |
| LayoutWrapper.SeparatorCount | src/components/layout-wrapper.tsx:94-96 | a trail has exactly one separator fewer than it has crumbs |
| LayoutWrapper.RenderHeader | src/components/layout-wrapper.tsx:78-102 | the header shows "Yasin Kavakli" iff the breadcrumbs are absent or empty; otherwise it shows the alternating trail |
| LayoutWrapper.TrailSeparators | src/components/layout-wrapper.tsx:94-96 | a trail neither starts nor ends with a separator and holds one separator fewer than it has crumbs |
| LayoutWrapper.ShareView | src/components/layout-wrapper.tsx:115-124 | the button shows the check mark iff the link is copied. Otherwise the share icon animates iff hovered. The tooltip reads "✓ Copied to clipboard!" when copied and "Share this page" otherwise |
| LayoutWrapper.LayoutWrapperComponent.constructor | src/components/layout-wrapper.tsx:133-139 | the sidebar starts open, and nothing is hovered, copied or mounted |
| LayoutWrapper.LayoutWrapperComponent.ReadSidebarCookie | src/components/layout-wrapper.tsx:142-151 | after the mount effect the component is mounted. The sidebar is open iff the cookie says `"true"`, or keeps its state when no row carries the cookie |
| LayoutWrapper.LayoutWrapperComponent.HandleShare | src/components/layout-wrapper.tsx:175-188 | a successful clipboard write sets both the copied flag and the open tooltip. A failed one changes nothing |
| LayoutWrapper.LayoutWrapperComponent.CopiedTimeout | src/components/layout-wrapper.tsx:181-184 | the scheduled callback clears the copied flag and closes the tooltip |
| LayoutWrapper.LayoutWrapperComponent.ShareMouseEnter | src/components/layout-wrapper.tsx:112 | hovering starts only while nothing is copied |
| LayoutWrapper.LayoutWrapperComponent.ShareMouseLeave | src/components/layout-wrapper.tsx:113 | leaving clears the hover flag |
| LayoutWrapper.LayoutWrapperComponent.SetTooltipOpen | src/components/layout-wrapper.tsx:207 | the tooltip's open-change handler writes the tooltip flag and nothing else |
| LayoutWrapper.LayoutWrapperComponent.SetSidebarOpen | src/components/layout-wrapper.tsx:196 | the sidebar's open-change handler writes the sidebar flag and nothing else |
| LayoutWrapper.LayoutWrapperComponent.Render | src/components/layout-wrapper.tsx:190-217 | nothing is rendered iff the component is not yet mounted. Once mounted, the page shows the sidebar state, the header and the share button of the current flags |
| Theme.ResolveTheme | public/assets/theme.js:3 | the theme is `"system"` iff nothing is stored, the stored item is empty, or it is `"system"`. Any other stored value is the theme |
| Theme.IsDark | public/assets/theme.js:7-8 | the theme `"dark"` is always dark, the theme `"system"` is dark iff the system prefers dark, and no other theme is dark |
| Theme.Toggle | public/assets/theme.js:10 | after a forced toggle the class is present iff forced, and no other class changes |
| Theme.Updated | public/assets/theme.js:1-19 | on a storage failure, `dark` follows the system preference and `data-theme` is untouched. Otherwise `dark` follows `isDark` and `data-theme` is the resolved theme. No other class changes |
| Theme.DarkIffStored | public/assets/theme.js:3-8 | the page is dark iff the stored item is `"dark"`, or it is missing, empty or `"system"` while the system prefers dark |
| Theme.MissingThemeIsSystem | public/assets/theme.js:3 | a missing or empty stored theme is `"system"` |
| Theme.OtherThemesLight | public/assets/theme.js:7-8 | any other non-empty stored value, such as `"light"`, is never dark, whatever the system prefers |
| Theme.UpdateIdempotent | public/assets/theme.js:10-11 | running the update twice with the same inputs gives the same element as running it once |
| Theme.LastCallDecidesClasses | public/assets/theme.js:1-19 | after two updates the class list depends only on the last one, so a system theme change is applied fully |
| Theme.FallbackMatchesMissingTheme | public/assets/theme.js:12-17 | when storage throws, the class list is what it would be with no stored theme |
| Theme.DocumentElement.ToggleClass | public/assets/theme.js:10 | the class list becomes the forced toggle of the old one, and `data-theme` is unchanged |
| Theme.DocumentElement.SetDataTheme | public/assets/theme.js:11 | `data-theme` takes the value, and the class list is unchanged |
| Theme.DocumentElement.UpdateTheme | public/assets/theme.js:1-19 | the element afterwards is `Updated` of the element before, for the storage outcome and the system preference |

## Left out

- Slug.ToLower: lower-cases ASCII `A`-`Z` only, because the full Unicode case mapping is not modelled. JavaScript's `toLowerCase` also maps non-ASCII letters, and the slug then differs. `İ` (U+0130) becomes `i` followed by a combining dot in JavaScript, so `"İstanbul"` gives `"istanbul"` there but `"stanbul"` here. The Kelvin sign (U+212A) becomes `k` in JavaScript and is deleted here. JavaScript's mapping can also change the length of the string, so the model's `|r| == |s|` holds only for this ASCII mapping.
- Theme.Root: the root element's class list is a set. The browser's `DOMTokenList` is ordered, and a forced `toggle` appends the class at its end, so that order is not modelled. No modelled decision depends on it.
- Strings are sequences of characters, not UTF-16 code units, so surrogate pairs are not modelled.
- Icons and their animation, class names and styling are left out. `animating` and `highlighted` stand for the `isAnimating` prop and the active class name.
- `asChild` does not change any modelled choice, so it is left out.
- The avatar button and its collapsed-state visibility are left out, because they depend on the sidebar provider's internal state.
- The `AppSidebar` body only maps the two tables to `NavItem` and `ProjectItem` and adds the avatar header, so it is not modelled beyond the tables.
- `NavItem` is always used without `target` and `rel` props. The model keeps them as parameters, which covers that case with `None`.
- The two-second delay before `handleShare`'s callback runs is left out, as is `console.error`. The callback itself is `CopiedTimeout`, and when it fires is up to the caller.
- `window.location.href` is not read, because the copied URL does not affect any state.
- Saving and restoring the scroll position through `sessionStorage` is left out. It is browser I/O that changes no modelled state.
- Registering `updateTheme` as the media-query change listener, and the initial call, are left out. `LastCallDecidesClasses` covers what a repeated call does.
- The rest of the repository is not part of this model: the Astro pages and content configuration, the image processing script, the RSS and Open Graph generators, and the UI library components.
