/**
 * The decision rules of the site's sidebar (src/components/app-sidebar.tsx):
 * the navigation and project tables, the rule that marks the item for the
 * current page active, and what a navigation or project entry shows
 * (tooltip, link, new-tab attributes, icon animation).
 *
 * `NavItem` and `ProjectItem` are React components whose hover and active
 * flags live in component state; they are modelled as classes whose fields
 * are those flags and whose methods are the effect and the mouse handlers.
 */
module AppSidebar {
  import opened Wrappers
  import opened Strings

  /** The icon components named in the tables; their animation code is not modelled. */
  datatype Icon = HomeIcon | FeatherIcon | RssIcon | MessageCircleIcon | LinkIcon | ScriptIcon | StackIcon | UsesIcon

  /** A table entry. An absent `disabled` or `external` property is `false`. */
  datatype Item = Item(title: string, url: string, icon: Icon, disabled: bool, external: bool)

  /** The main navigation: Home, Writing and RSS; the last two are switched off when there are no posts. */
  function CreateNavigation(hasBlogPosts: bool): (items: seq<Item>)
    ensures |items| == 3
    ensures items[0].title == "Home" && items[0].url == "/" && !items[0].disabled
    ensures items[1].title == "Writing" && items[1].url == "/blog"
    ensures items[2].title == "RSS" && items[2].url == "/rss.xml"
    ensures forall i :: 1 <= i < |items| ==> items[i].disabled == !hasBlogPosts
    ensures forall i :: 0 <= i < |items| ==> (items[i].external <==> items[i].url == "/rss.xml")
  {
    [
      Item("Home", "/", HomeIcon, false, false),
      Item("Writing", "/blog", FeatherIcon, !hasBlogPosts, false),
      Item("RSS", "/rss.xml", RssIcon, !hasBlogPosts, true)
    ]
  }

  /** The projects group: five entries, all of them switched off and none external, whatever `hasBlogPosts` is. */
  function CreateProjects(hasBlogPosts: bool): (items: seq<Item>)
    ensures |items| == 5
    ensures forall i :: 0 <= i < |items| ==> items[i].disabled && !items[i].external
  {
    [
      Item("AMA", "/ama", MessageCircleIcon, true, false),
      Item("Links", "/links", LinkIcon, true, false),
      Item("Scripts", "/scripts", ScriptIcon, true, false),
      Item("Stack", "/stack", StackIcon, true, false),
      Item("Uses", "/uses", UsesIcon, true, false)
    ]
  }

  /** The project table does not depend on whether posts exist. */
  lemma ProjectsIgnorePosts()
    ensures CreateProjects(true) == CreateProjects(false)
  {
  }

  /**
   * The effect in `NavItem`: the root item is active only on the root path;
   * any other item is active on every path that starts with its url.
   */
  function ActiveFor(url: string, currentPath: string): (active: bool)
    ensures active ==> StartsWith(currentPath, url)
    ensures url == "/" ==> (active <==> currentPath == "/")
    ensures url != "/" && StartsWith(currentPath, url) ==> active
  {
    if url == "/" && currentPath == "/" then true
    else if url != "/" && StartsWith(currentPath, url) then true
    else false
  }

  /** The per-case reading of `ActiveFor` for the `/` entry: Home is active on exactly one path, `/`. */
  lemma HomeActiveIffRoot(currentPath: string)
    ensures ActiveFor("/", currentPath) <==> currentPath == "/"
  {
  }

  /** The per-case reading of `ActiveFor` for any other entry: active exactly when the path starts with its url, a plain prefix test. */
  lemma OtherActiveIffPrefix(url: string, currentPath: string)
    requires url != "/"
    ensures ActiveFor(url, currentPath) <==> StartsWith(currentPath, url)
  {
  }

  /** Being a prefix test, an active non-root item stays active on every longer path (`/blog` on `/blogroll`). */
  lemma ActiveOnExtensions(url: string, currentPath: string, more: string)
    requires url != "/" && ActiveFor(url, currentPath)
    ensures ActiveFor(url, currentPath + more)
  {
    assert (currentPath + more)[..|url|] == currentPath[..|url|];
  }

  /** `/blog` is active on `/blogroll`, which is not under it. */
  lemma BlogActiveOnBlogroll()
    ensures ActiveFor("/blog", "/blogroll")
  {
    ActiveOnExtensions("/blog", "/blog", "roll");
  }

  /** A string that starts with `prefix` agrees with it at every index of `prefix`. */
  lemma PrefixChar(s: string, prefix: string, i: nat)
    requires i < |prefix|
    ensures StartsWith(s, prefix) ==> s[i] == prefix[i]
  {
    if StartsWith(s, prefix) {
      assert s[..|prefix|][i] == s[i];
    }
  }

  /** Whatever the path, at most one item of the main navigation is active. */
  lemma AtMostOneNavigationItemActive(hasBlogPosts: bool, currentPath: string)
    ensures forall i, j :: 0 <= i < j < 3 ==>
      !(ActiveFor(CreateNavigation(hasBlogPosts)[i].url, currentPath) && ActiveFor(CreateNavigation(hasBlogPosts)[j].url, currentPath))
  {
    var nav := CreateNavigation(hasBlogPosts);
    assert !StartsWith("/", "/blog") && !StartsWith("/", "/rss.xml");
    PrefixChar(currentPath, "/blog", 1);
    PrefixChar(currentPath, "/rss.xml", 1);
    assert forall i :: 0 <= i < 3 ==> nav[i].url in {"/", "/blog", "/rss.xml"};
  }

  /** The link an enabled entry renders; `target` and `rel` are absent when `None`. */
  datatype Anchor = Anchor(href: string, target: Option<string>, rel: Option<string>)

  /** What a `NavItem` renders. */
  datatype NavButton = NavButton(
    tooltip: string,
    disabled: bool,
    anchor: Option<Anchor>,
    animating: bool,
    highlighted: bool)

  /** What a `ProjectItem` renders. */
  datatype ProjectButton = ProjectButton(
    tooltip: string,
    disabled: bool,
    anchor: Option<Anchor>,
    animating: bool)

  /**
   * The render of `NavItem`. A disabled entry shows "<title> (No posts yet)",
   * has no link and never animates; an enabled one links to its url, opens
   * external urls in a new tab, animates while hovered or active and is
   * highlighted while active.
   */
  function NavView(item: Item, target: Option<string>, rel: Option<string>, isHovered: bool, isActive: bool): (b: NavButton)
    ensures b.disabled == item.disabled
    ensures b.disabled ==> b.tooltip == item.title + " (No posts yet)" && b.anchor == None && !b.animating && !b.highlighted
    ensures !b.disabled ==> b.tooltip == item.title && b.anchor.Some? && b.anchor.value.href == item.url
    ensures !b.disabled ==> (b.animating <==> isHovered || isActive) && b.highlighted == isActive
    ensures !b.disabled && item.external ==> b.anchor.value.target == Some("_blank") && b.anchor.value.rel == Some("noopener noreferrer")
    ensures !b.disabled && !item.external ==> b.anchor.value.target == target && b.anchor.value.rel == rel
  {
    if item.disabled then
      NavButton(item.title + " (No posts yet)", true, None, false, false)
    else
      NavButton(
        item.title, false,
        Some(Anchor(item.url,
                    if item.external then Some("_blank") else target,
                    if item.external then Some("noopener noreferrer") else rel)),
        isHovered || isActive,
        isActive)
  }

  /**
   * The render of `ProjectItem`. An external, enabled entry is a new-tab link;
   * any other entry is a button without a link whose tooltip reads
   * "<title> (Coming soon)" when it is disabled. Either animates while hovered.
   */
  function ProjectView(item: Item, isHovered: bool): (b: ProjectButton)
    ensures b.disabled == item.disabled && b.animating == isHovered
    ensures b.anchor.Some? <==> item.external && !item.disabled
    ensures b.anchor.Some? ==> b.anchor == Some(Anchor(item.url, Some("_blank"), Some("noopener noreferrer"))) && b.tooltip == item.title
    ensures b.anchor.None? ==> b.tooltip == if item.disabled then item.title + " (Coming soon)" else item.title
  {
    if item.external && !item.disabled then
      ProjectButton(item.title, false, Some(Anchor(item.url, Some("_blank"), Some("noopener noreferrer"))), isHovered)
    else
      ProjectButton(if item.disabled then item.title + " (Coming soon)" else item.title, item.disabled, None, isHovered)
  }

  /** Without posts, Writing and RSS show "(No posts yet)" and stay still; Home is always a live link. */
  lemma NavigationWithoutPosts(target: Option<string>, rel: Option<string>, isHovered: bool, isActive: bool)
    ensures forall i :: 1 <= i < 3 ==>
      var item := CreateNavigation(false)[i];
      NavView(item, target, rel, isHovered, isActive) == NavButton(item.title + " (No posts yet)", true, None, false, false)
    ensures NavView(CreateNavigation(false)[0], target, rel, isHovered, isActive).anchor == Some(Anchor("/", target, rel))
  {
  }

  /** With posts, RSS opens in a new tab without opener or referrer, and the other entries keep the caller's attributes. */
  lemma NavigationWithPosts(target: Option<string>, rel: Option<string>, isHovered: bool, isActive: bool)
    ensures NavView(CreateNavigation(true)[2], target, rel, isHovered, isActive).anchor
      == Some(Anchor("/rss.xml", Some("_blank"), Some("noopener noreferrer")))
    ensures forall i :: 0 <= i < 2 ==>
      NavView(CreateNavigation(true)[i], target, rel, isHovered, isActive).anchor
        == Some(Anchor(CreateNavigation(true)[i].url, target, rel))
  {
  }

  /** Every project, with or without posts, is a "(Coming soon)" button without a link. */
  lemma ProjectsComingSoon(hasBlogPosts: bool, isHovered: bool)
    ensures forall i :: 0 <= i < 5 ==>
      var item := CreateProjects(hasBlogPosts)[i];
      ProjectView(item, isHovered) == ProjectButton(item.title + " (Coming soon)", true, None, isHovered)
  {
  }

  /**
   * One mounted `NavItem`: its props and its two state flags. The active flag is
   * set by the effect; the hover flag by the mouse handlers, which on a disabled
   * entry only ever clear it.
   */
  class NavItemComponent {
    const item: Item
    const target: Option<string>
    const rel: Option<string>
    var isHovered: bool
    var isActive: bool

    /** A disabled entry is never hovered. */
    ghost predicate Valid()
      reads this
    {
      item.disabled ==> !isHovered
    }

    constructor (item: Item, target: Option<string>, rel: Option<string>)
      ensures Valid()
      ensures this.item == item && this.target == target && this.rel == rel
      ensures !isHovered && !isActive
    {
      this.item := item;
      this.target := target;
      this.rel := rel;
      isHovered := false;
      isActive := false;
    }

    /** The effect run on mount: compares the item's url with the current path. */
    method SyncActive(currentPath: string)
      requires Valid()
      modifies this
      ensures Valid()
      ensures isActive == ActiveFor(item.url, currentPath)
      ensures isHovered == old(isHovered)
    {
      if item.url == "/" && currentPath == "/" {
        isActive := true;
      } else if item.url != "/" && StartsWith(currentPath, item.url) {
        isActive := true;
      } else {
        isActive := false;
      }
    }

    /** `onMouseEnter`: sets the hover flag on an enabled entry, clears it on a disabled one. */
    method MouseEnter()
      requires Valid()
      modifies this
      ensures Valid()
      ensures isHovered == !item.disabled
      ensures isActive == old(isActive)
    {
      if item.disabled {
        isHovered := false;
      } else {
        isHovered := true;
      }
    }

    /** `onMouseLeave`: clears the hover flag. */
    method MouseLeave()
      requires Valid()
      modifies this
      ensures Valid()
      ensures !isHovered && isActive == old(isActive)
    {
      isHovered := false;
    }

    /** The current render. */
    function View(): (b: NavButton)
      reads this
      requires Valid()
      ensures b == NavView(item, target, rel, isHovered, isActive)
      ensures b.animating ==> !item.disabled && (isHovered || isActive)
      ensures item.disabled ==> !isHovered
    {
      NavView(item, target, rel, isHovered, isActive)
    }
  }

  /** One mounted `ProjectItem`: its entry and its hover flag. */
  class ProjectItemComponent {
    const item: Item
    var isHovered: bool

    constructor (item: Item)
      ensures this.item == item && !isHovered
    {
      this.item := item;
      isHovered := false;
    }

    method MouseEnter()
      modifies this
      ensures isHovered
    {
      isHovered := true;
    }

    method MouseLeave()
      modifies this
      ensures !isHovered
    {
      isHovered := false;
    }

    function View(): (b: ProjectButton)
      reads this
      ensures b == ProjectView(item, isHovered)
      ensures b.animating == isHovered
    {
      ProjectView(item, isHovered)
    }
  }
}
