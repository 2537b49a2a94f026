/**
 * The settings screen's tab registry: tabs are registered under their slug in
 * an insertion-ordered map (as a PHP array is: registering a slug again
 * replaces its tab but keeps its place), one of them may be the default, and
 * the screen shows the requested tab (the `tab` query parameter, given here)
 * or else the default one, with a menu of the tabs that ask to be listed.
 */
module AdminPages {
  import opened Php

  /** A settings page as the registry sees it. */
  datatype Tab = Tab(slug: string, title: string, isDefault: bool, showInMenu: bool)

  /** One link of the tab menu, marked when it is the tab being shown. */
  datatype MenuEntry = MenuEntry(slug: string, title: string, active: bool)

  /**
   * What the screen shows: the menu and the current tab; or a fatal error,
   * when there is no current tab to show (a method call on false).
   */
  datatype Screen = NoCurrentTab | Shown(menu: seq<MenuEntry>, current: Tab)

  /** The array key a slug names: PHP reads a null key as '', so null and '' name the same tab. */
  function KeyOf(slug: Option<string>): (key: string)
    ensures slug.Some? ==> key == slug.value
    ensures key == "" <==> slug.None? || slug.value == ""
  {
    match slug
    case None => ""
    case Some(s) => s
  }

  /** No slug appears twice. */
  ghost predicate Distinct(slugs: seq<string>)
  {
    forall i, j :: 0 <= i < j < |slugs| ==> slugs[i] != slugs[j]
  }

  /** The menu for the tabs under `slugs`, in that order, skipping those not shown in the menu. */
  function Menu(slugs: seq<string>, tabs: map<string, Tab>, activeSlug: string): seq<MenuEntry>
    requires forall s :: s in slugs ==> s in tabs
    decreases |slugs|
  {
    if slugs == [] then []
    else
      var slug := slugs[|slugs| - 1];
      var tab := tabs[slug];
      Menu(slugs[..|slugs| - 1], tabs, activeSlug)
        + if tab.showInMenu then [MenuEntry(slug, tab.title, slug == activeSlug)] else []
  }

  /**
   * Every entry of the menu is a listed tab, with its title, active exactly
   * when its slug is the active one; and every listed tab has an entry.
   */
  lemma {:induction false} MenuEntries(slugs: seq<string>, tabs: map<string, Tab>, activeSlug: string, e: MenuEntry)
    requires forall s :: s in slugs ==> s in tabs
    ensures e in Menu(slugs, tabs, activeSlug) <==>
              e.slug in slugs && tabs[e.slug].showInMenu && e.title == tabs[e.slug].title
              && e.active == (e.slug == activeSlug)
    decreases |slugs|
  {
    if slugs != [] {
      var front := slugs[..|slugs| - 1];
      MenuEntries(front, tabs, activeSlug, e);
      assert slugs == front + [slugs[|slugs| - 1]];
    }
  }

  /** The menu never has more entries than there are tabs. */
  lemma {:induction false} MenuLength(slugs: seq<string>, tabs: map<string, Tab>, activeSlug: string)
    requires forall s :: s in slugs ==> s in tabs
    ensures |Menu(slugs, tabs, activeSlug)| <= |slugs|
    decreases |slugs|
  {
    if slugs != [] {
      MenuLength(slugs[..|slugs| - 1], tabs, activeSlug);
    }
  }

  /** One more slug adds its entry, if it is listed, at the end. */
  lemma MenuSnoc(slugs: seq<string>, slug: string, tabs: map<string, Tab>, activeSlug: string)
    requires forall s :: s in slugs + [slug] ==> s in tabs
    ensures Menu(slugs + [slug], tabs, activeSlug)
         == Menu(slugs, tabs, activeSlug)
            + if tabs[slug].showInMenu then [MenuEntry(slug, tabs[slug].title, slug == activeSlug)] else []
  {
    assert (slugs + [slug])[..|slugs|] == slugs;
  }

  /** The menu keeps registration order: the tabs of an earlier stretch come first. */
  lemma {:induction false} MenuAppend(a: seq<string>, b: seq<string>, tabs: map<string, Tab>, activeSlug: string)
    requires forall s :: s in a + b ==> s in tabs
    ensures Menu(a + b, tabs, activeSlug) == Menu(a, tabs, activeSlug) + Menu(b, tabs, activeSlug)
    decreases |b|
  {
    if b == [] {
      assert a + b == a;
    } else {
      var front, slug := b[..|b| - 1], b[|b| - 1];
      assert b == front + [slug];
      assert a + b == (a + front) + [slug];
      MenuAppend(a, front, tabs, activeSlug);
      MenuSnoc(a + front, slug, tabs, activeSlug);
      MenuSnoc(front, slug, tabs, activeSlug);
    }
  }

  /** With distinct slugs, the menu's slugs are distinct too. */
  lemma {:induction false} MenuDistinct(slugs: seq<string>, tabs: map<string, Tab>, activeSlug: string)
    requires forall s :: s in slugs ==> s in tabs
    requires Distinct(slugs)
    ensures var m := Menu(slugs, tabs, activeSlug);
            forall i, j :: 0 <= i < j < |m| ==> m[i].slug != m[j].slug
    decreases |slugs|
  {
    if slugs != [] {
      var front := slugs[..|slugs| - 1];
      var last := slugs[|slugs| - 1];
      MenuDistinct(front, tabs, activeSlug);
      var m0 := Menu(front, tabs, activeSlug);
      forall i | 0 <= i < |m0| ensures m0[i].slug != last {
        MenuEntries(front, tabs, activeSlug, m0[i]);
        assert m0[i] in m0;
      }
    }
  }

  /** At most one menu entry is active, and one is exactly when the active tab is listed. */
  lemma OneActiveEntry(slugs: seq<string>, tabs: map<string, Tab>, activeSlug: string)
    requires forall s :: s in slugs ==> s in tabs
    requires Distinct(slugs)
    ensures var m := Menu(slugs, tabs, activeSlug);
            forall i, j :: 0 <= i < |m| && 0 <= j < |m| && m[i].active && m[j].active ==> i == j
    ensures (exists e :: e in Menu(slugs, tabs, activeSlug) && e.active) <==>
              activeSlug in slugs && tabs[activeSlug].showInMenu
  {
    var m := Menu(slugs, tabs, activeSlug);
    MenuDistinct(slugs, tabs, activeSlug);
    forall i | 0 <= i < |m| ensures m[i].active <==> m[i].slug == activeSlug {
      MenuEntries(slugs, tabs, activeSlug, m[i]);
      assert m[i] in m;
    }
    if activeSlug in slugs && tabs[activeSlug].showInMenu {
      var e := MenuEntry(activeSlug, tabs[activeSlug].title, true);
      MenuEntries(slugs, tabs, activeSlug, e);
    }
    forall e | e in m && e.active ensures activeSlug in slugs && tabs[activeSlug].showInMenu {
      MenuEntries(slugs, tabs, activeSlug, e);
    }
  }

  class Pages {
    /** The registered slugs, in the order they were first registered. */
    var order: seq<string>
    /** The tab registered under each slug. */
    var tabs: map<string, Tab>
    /** The slug of the last default tab registered; null until there is one. */
    var defaultSlug: Option<string>

    /** The map and the order hold the same slugs, once each, and each tab sits under its own slug. */
    ghost predicate Valid()
      reads this
    {
      && Distinct(order)
      && (forall s :: s in order <==> s in tabs)
      && (forall s :: s in tabs ==> tabs[s].slug == s)
    }

    constructor ()
      ensures Valid()
      ensures order == [] && tabs == map[] && defaultSlug == None
    {
      order := [];
      tabs := map[];
      defaultSlug := None;
    }

    /**
     * Registers a tab under its slug, replacing any tab registered there (in
     * its old place); a default tab becomes the default. Returns the registry.
     */
    method RegisterTab(tab: Tab) returns (registry: Pages)
      requires Valid()
      modifies this
      ensures Valid() && registry == this
      ensures tabs == old(tabs)[tab.slug := tab]
      ensures order == if tab.slug in old(tabs) then old(order) else old(order) + [tab.slug]
      ensures defaultSlug == if tab.isDefault then Some(tab.slug) else old(defaultSlug)
      ensures GetTab(Some(tab.slug)) == Some(tab)
      ensures forall s :: s != tab.slug ==> GetTab(Some(s)) == old(GetTab(Some(s)))
    {
      if tab.slug !in tabs {
        order := order + [tab.slug];
      }
      tabs := tabs[tab.slug := tab];
      if tab.isDefault {
        defaultSlug := Some(tab.slug);
      }
      registry := this;
    }

    /** The tab under a slug, or false when none is registered there. */
    function GetTab(slug: Option<string>): (r: Option<Tab>)
      reads this
      ensures r.Some? <==> KeyOf(slug) in tabs
      ensures r.Some? ==> r.value == tabs[KeyOf(slug)]
    {
      if KeyOf(slug) in tabs then Some(tabs[KeyOf(slug)]) else None
    }

    /** The requested tab if it is registered, else the default tab, else false. */
    function GetCurrentTab(requested: Option<string>): (r: Option<Tab>)
      reads this
      ensures KeyOf(requested) in tabs ==> r == Some(tabs[KeyOf(requested)])
      ensures KeyOf(requested) !in tabs && KeyOf(defaultSlug) in tabs ==> r == Some(tabs[KeyOf(defaultSlug)])
      ensures KeyOf(requested) !in tabs && KeyOf(defaultSlug) !in tabs ==> r.None?
    {
      var tab := GetTab(requested);
      if tab.None? then GetTab(defaultSlug) else tab
    }

    /**
     * The screen: the menu of listed tabs in registration order, the current
     * tab's entry marked active, and the current tab; no current tab is fatal.
     */
    method Display(requested: Option<string>) returns (screen: Screen)
      requires Valid()
      ensures GetCurrentTab(requested).None? ==> screen == NoCurrentTab
      ensures GetCurrentTab(requested).Some? ==>
                screen == Shown(Menu(order, tabs, GetCurrentTab(requested).value.slug), GetCurrentTab(requested).value)
    {
      var active := GetCurrentTab(requested);
      if active.None? {
        return NoCurrentTab;
      }
      var menu: seq<MenuEntry> := [];
      var i := 0;
      while i < |order|
        invariant 0 <= i <= |order|
        invariant menu == Menu(order[..i], tabs, active.value.slug)
      {
        var slug := order[i];
        var tab := tabs[slug];
        assert order[..i + 1][..i] == order[..i];
        i := i + 1;
        if !tab.showInMenu {
          continue;
        }
        var isActive := slug == active.value.slug;
        menu := menu + [MenuEntry(slug, tab.title, isActive)];
      }
      assert order[..i] == order;
      return Shown(menu, active.value);
    }
  }

  /** The menu the screen shows lists the shown tabs and marks only the current one, when it is listed. */
  lemma DisplayMarksCurrentTab(pages: Pages, requested: Option<string>)
    requires pages.Valid() && pages.GetCurrentTab(requested).Some?
    ensures var current := pages.GetCurrentTab(requested).value;
            var m := Menu(pages.order, pages.tabs, current.slug);
            current.slug in pages.tabs && pages.tabs[current.slug] == current
            && (forall i, j :: 0 <= i < |m| && 0 <= j < |m| && m[i].active && m[j].active ==> i == j)
            && ((exists e :: e in m && e.active) <==> current.showInMenu)
  {
    var current := pages.GetCurrentTab(requested).value;
    OneActiveEntry(pages.order, pages.tabs, current.slug);
  }
}
