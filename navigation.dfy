/**
 * The navigation controller of the current site: the mobile menu (open,
 * close, Escape), the "scrolled" style of the bar, and the highlight of the
 * nav link whose section contains the scroll position.
 */
module NavigationController {
  import opened Dom

  /** Offsets in pixels: the bar turns "scrolled" past this scroll position. */
  const ScrolledThreshold: int := 50
  /** The height of the fixed header, added to the scroll position before sections are tested. */
  const HeaderOffset: int := 100

  /** A `.nav__link` element: its `href` attribute and its classes. */
  datatype Link = Link(href: string, classes: ClassList)

  /** A `section[id]`: `offsetTop`, `offsetHeight` and `id`. */
  datatype Section = Section(top: int, height: int, id: string)

  /**
   * What the controller reads and writes. `hasHamburger` and `hasMenu` say
   * whether the optional elements exist; `ariaExpanded` is the hamburger's
   * `aria-expanded` attribute and `bodyOverflow` is `document.body.style.overflow`.
   */
  datatype NavState = NavState(
    hasHamburger: bool,
    hamburger: ClassList,
    ariaExpanded: string,
    hasMenu: bool,
    menu: ClassList,
    bodyOverflow: string,
    nav: ClassList,
    lastScroll: int,
    links: seq<Link>)

  predicate IsOpen(s: NavState)
  {
    "is-open" in s.menu
  }

  /**
   * `toggleMenu()`, bound only when the hamburger exists. Without a menu the
   * handler throws at `this.menu.classList`, after the hamburger has been toggled.
   */
  function Toggled(s: NavState): (r: NavState)
    requires s.hasHamburger
  {
    var h := Toggle(s.hamburger, "is-active");
    if !s.hasMenu then
      s.(hamburger := h)
    else
      var m := Toggle(s.menu, "is-open");
      var open := "is-open" in m;
      s.(hamburger := h, menu := m, ariaExpanded := BoolAttr(open),
         bodyOverflow := if open then "hidden" else "")
  }

  /** `closeMenu()`: every step on an optional element is skipped when it is absent. */
  function Closed(s: NavState): (r: NavState)
  {
    s.(hamburger := if s.hasHamburger then s.hamburger - {"is-active"} else s.hamburger,
       menu := if s.hasMenu then s.menu - {"is-open"} else s.menu,
       ariaExpanded := if s.hasHamburger then "false" else s.ariaExpanded,
       bodyOverflow := "")
  }

  /** The `keydown` handler. */
  function AfterKey(s: NavState, key: string): (r: NavState)
  {
    if key == "Escape" then Closed(s) else s
  }

  /** `onScroll()` at scroll position `scrollY`. */
  function AfterScroll(s: NavState, scrollY: int): (r: NavState)
  {
    s.(nav := if scrollY > ScrolledThreshold then s.nav + {"scrolled"} else s.nav - {"scrolled"},
       lastScroll := scrollY)
  }

  /**
   * The menu's elements agree with each other: the hamburger is marked
   * active, `aria-expanded` is "true" and the body cannot scroll exactly
   * when the menu is open.
   */
  predicate MenuConsistent(s: NavState)
  {
    && s.hasHamburger && s.hasMenu
    && ("is-active" in s.hamburger <==> IsOpen(s))
    && s.ariaExpanded == BoolAttr(IsOpen(s))
    && s.bodyOverflow == (if IsOpen(s) then "hidden" else "")
  }

  /**
   * `toggleMenu()` flips `is-open` and `is-active`, sets `aria-expanded` to
   * the new open state and hides the body's overflow exactly when open;
   * nothing else changes. It keeps the menu consistent, and toggling twice
   * from a consistent menu restores it.
   */
  lemma ToggleMenuFlips(s: NavState)
    requires s.hasHamburger && s.hasMenu
    ensures var r := Toggled(s);
      && (IsOpen(r) <==> !IsOpen(s))
      && ("is-active" in r.hamburger <==> "is-active" !in s.hamburger)
      && r.menu - {"is-open"} == s.menu - {"is-open"}
      && r.hamburger - {"is-active"} == s.hamburger - {"is-active"}
      && r.ariaExpanded == BoolAttr(IsOpen(r))
      && (r.bodyOverflow == "hidden" <==> IsOpen(r))
      && r.nav == s.nav && r.links == s.links && r.lastScroll == s.lastScroll
    ensures MenuConsistent(s) ==> MenuConsistent(Toggled(s)) && Toggled(Toggled(s)) == s
  {
    if MenuConsistent(s) {
      ToggleTwice(s.hamburger, "is-active");
      ToggleTwice(s.menu, "is-open");
    }
  }

  /** Without a menu, `toggleMenu()` changes only the hamburger's `is-active` before it throws. */
  lemma ToggleMenuWithoutMenu(s: NavState)
    requires s.hasHamburger && !s.hasMenu
    ensures Toggled(s) == s.(hamburger := Toggle(s.hamburger, "is-active"))
  {
  }

  /**
   * `closeMenu()` always leaves the menu closed, `aria-expanded` "false"
   * and the body's overflow cleared; it changes no other class or field, it
   * is idempotent and it keeps the menu consistent.
   */
  lemma CloseMenuCloses(s: NavState)
    ensures var r := Closed(s);
      && (r.hasMenu ==> !IsOpen(r))
      && (r.hasHamburger ==> "is-active" !in r.hamburger && r.ariaExpanded == "false")
      && r.bodyOverflow == ""
      && r.menu - {"is-open"} == s.menu - {"is-open"}
      && r.hamburger - {"is-active"} == s.hamburger - {"is-active"}
      && r.nav == s.nav && r.links == s.links && r.lastScroll == s.lastScroll
      && Closed(r) == r
    ensures s.hasHamburger && s.hasMenu ==> MenuConsistent(Closed(s))
  {
  }

  /** Escape acts as `closeMenu()`; every other key leaves everything as it was. */
  lemma EscapeCloses(s: NavState, key: string)
    ensures AfterKey(s, "Escape") == Closed(s)
    ensures key != "Escape" ==> AfterKey(s, key) == s
    ensures s.hasMenu ==> !IsOpen(AfterKey(s, "Escape"))
  {
  }

  /** After `onScroll()` the bar is "scrolled" iff `scrollY > 50`, and `lastScroll == scrollY`. */
  lemma OnScrollThreshold(s: NavState, scrollY: int)
    ensures var r := AfterScroll(s, scrollY);
      && ("scrolled" in r.nav <==> scrollY > ScrolledThreshold)
      && r.nav - {"scrolled"} == s.nav - {"scrolled"}
      && r.lastScroll == scrollY
      && r.(nav := s.nav, lastScroll := s.lastScroll) == s
  {
  }

  // ---------------------------------------------------------------------
  // Active-link selection
  // ---------------------------------------------------------------------

  /** The section's vertical extent contains the point `y`. */
  predicate Covers(sec: Section, y: int)
  {
    sec.top <= y < sec.top + sec.height
  }

  /** `document.querySelector('.nav__link[href="..."]')`: the first link with that `href`. */
  function FirstLink(links: seq<Link>, href: string): (r: Option<nat>)
    ensures r.Some? ==> r.value < |links| && links[r.value].href == href
    ensures r.Some? ==> forall j :: 0 <= j < r.value ==> links[j].href != href
    ensures r.None? ==> forall j :: 0 <= j < |links| ==> links[j].href != href
  {
    if |links| == 0 then None
    else if links[0].href == href then Some(0)
    else match FirstLink(links[1..], href)
      case None => None
      case Some(k) => Some(k + 1)
  }

  /** `links.forEach(l => l.classList.remove('active'))`. */
  function ClearActive(links: seq<Link>): (r: seq<Link>)
    ensures |r| == |links|
    ensures forall j :: 0 <= j < |r| ==>
      && r[j].href == links[j].href
      && "active" !in r[j].classes
      && r[j].classes - {"active"} == links[j].classes - {"active"}
  {
    seq(|links|, j requires 0 <= j < |links| => links[j].(classes := links[j].classes - {"active"}))
  }

  /** What a matching section does: clear every link, then mark the first one pointing at `#id`. */
  function Highlight(links: seq<Link>, id: string): (r: seq<Link>)
  {
    var cleared := ClearActive(links);
    match FirstLink(links, "#" + id)
    case None => cleared
    case Some(k) => cleared[k := cleared[k].(classes := cleared[k].classes + {"active"})]
  }

  /** The links after the `forEach` over `sections` at the tested point `y`, in document order. */
  function Sweep(links: seq<Link>, sections: seq<Section>, y: int): (r: seq<Link>)
    decreases |sections|
  {
    if |sections| == 0 then links
    else
      var before := Sweep(links, sections[..|sections| - 1], y);
      var last := sections[|sections| - 1];
      if Covers(last, y) then Highlight(before, last.id) else before
  }

  /** `setActiveLink()` on the links, at scroll position `scrollY`. */
  function ActiveLinks(links: seq<Link>, sections: seq<Section>, scrollY: int): (r: seq<Link>)
  {
    Sweep(links, sections, scrollY + HeaderOffset)
  }

  /** The last section, in document order, containing `y`. */
  function LastCovering(sections: seq<Section>, y: int): (r: Option<nat>)
    ensures r.Some? ==> r.value < |sections| && Covers(sections[r.value], y)
    ensures r.Some? ==> forall j :: r.value < j < |sections| ==> !Covers(sections[j], y)
    ensures r.None? ==> forall j :: 0 <= j < |sections| ==> !Covers(sections[j], y)
    decreases |sections|
  {
    if |sections| == 0 then None
    else if Covers(sections[|sections| - 1], y) then Some(|sections| - 1)
    else LastCovering(sections[..|sections| - 1], y)
  }

  /** Two link lists that differ at most in the "active" class. */
  predicate SameButActive(a: seq<Link>, b: seq<Link>)
  {
    && |a| == |b|
    && forall j :: 0 <= j < |a| ==> a[j].href == b[j].href && a[j].classes - {"active"} == b[j].classes - {"active"}
  }

  /** `FirstLink` depends on the `href`s alone. */
  lemma {:induction false} FirstLinkSameHrefs(a: seq<Link>, b: seq<Link>, href: string)
    requires SameButActive(a, b)
    ensures FirstLink(a, href) == FirstLink(b, href)
    decreases |a|
  {
    if |a| > 0 {
      assert a[0].href == b[0].href;
      FirstLinkSameHrefs(a[1..], b[1..], href);
    }
  }

  /**
   * After a highlight, exactly the first link pointing at `#id` carries
   * "active" (none when there is no such link); hrefs and all other classes
   * are unchanged.
   */
  lemma HighlightExclusive(links: seq<Link>, id: string)
    ensures SameButActive(Highlight(links, id), links)
    ensures forall j :: 0 <= j < |links| ==>
      ("active" in Highlight(links, id)[j].classes <==> FirstLink(links, "#" + id) == Some(j))
  {
  }

  /** A later highlight wipes out an earlier one completely. */
  lemma HighlightAbsorbs(links: seq<Link>, a: string, b: string)
    ensures Highlight(Highlight(links, a), b) == Highlight(links, b)
  {
    var once := Highlight(links, a);
    HighlightExclusive(links, a);
    FirstLinkSameHrefs(once, links, "#" + b);
    var lhs := Highlight(once, b);
    var rhs := Highlight(links, b);
    assert |lhs| == |rhs|;
    forall j | 0 <= j < |lhs|
      ensures lhs[j] == rhs[j]
    {
      assert once[j].classes - {"active"} == links[j].classes - {"active"};
    }
  }

  /** The sweep equals a single highlight of the last covering section, or nothing at all. */
  lemma {:induction false} SweepIsLastCovering(links: seq<Link>, sections: seq<Section>, y: int)
    ensures Sweep(links, sections, y) ==
      match LastCovering(sections, y)
      case None => links
      case Some(k) => Highlight(links, sections[k].id)
    decreases |sections|
  {
    if |sections| > 0 {
      var init := sections[..|sections| - 1];
      var last := sections[|sections| - 1];
      SweepIsLastCovering(links, init, y);
      if Covers(last, y) {
        match LastCovering(init, y)
        case None =>
        case Some(k) =>
          assert init[k] == sections[k];
          HighlightAbsorbs(links, sections[k].id, last.id);
      } else {
        match LastCovering(init, y)
        case None =>
        case Some(k) => assert init[k] == sections[k];
      }
    }
  }

  /**
   * `setActiveLink()`: when some section contains `scrollY + 100`, exactly
   * the first link pointing at the LAST such section (in document order)
   * is active afterwards, or none when no link points at it; when no
   * section contains it, every link is as it was. Hrefs and all other
   * classes never change.
   */
  lemma ActiveLinkSelection(links: seq<Link>, sections: seq<Section>, scrollY: int)
    ensures var r := ActiveLinks(links, sections, scrollY);
      && SameButActive(r, links)
      && match LastCovering(sections, scrollY + HeaderOffset)
         case None => r == links
         case Some(k) => forall j :: 0 <= j < |links| ==>
           ("active" in r[j].classes <==> FirstLink(links, "#" + sections[k].id) == Some(j))
  {
    SweepIsLastCovering(links, sections, scrollY + HeaderOffset);
    match LastCovering(sections, scrollY + HeaderOffset)
    case None =>
    case Some(k) => HighlightExclusive(links, sections[k].id);
  }

  /** After a `setActiveLink()` in which some section matches, at most one link is active, whatever the links held before. */
  lemma AtMostOneActive(links: seq<Link>, sections: seq<Section>, scrollY: int, i: nat, j: nat)
    requires LastCovering(sections, scrollY + HeaderOffset).Some?
    requires i < j < |links|
    ensures var r := ActiveLinks(links, sections, scrollY);
      |r| == |links| && !("active" in r[i].classes && "active" in r[j].classes)
  {
    ActiveLinkSelection(links, sections, scrollY);
  }

  /** No two links carry "active". */
  predicate AtMostOneActiveLink(links: seq<Link>)
  {
    forall i, j :: 0 <= i < j < |links| ==> !("active" in links[i].classes && "active" in links[j].classes)
  }

  /**
   * `setActiveLink()` keeps "at most one link is active": a matching section
   * leaves at most one, and when nothing matches the links are untouched.
   */
  lemma AtMostOneActiveKept(links: seq<Link>, sections: seq<Section>, scrollY: int)
    requires AtMostOneActiveLink(links)
    ensures AtMostOneActiveLink(ActiveLinks(links, sections, scrollY))
  {
    ActiveLinkSelection(links, sections, scrollY);
  }

  /** The controller object, after `init()` found the `.nav` element. */
  class Navigation {
    const hasHamburger: bool
    const hasMenu: bool
    var hamburger: ClassList
    var ariaExpanded: string
    var menu: ClassList
    var bodyOverflow: string
    var nav: ClassList
    var lastScroll: int
    var links: seq<Link>

    function State(): NavState
      reads this
    {
      NavState(hasHamburger, hamburger, ariaExpanded, hasMenu, menu, bodyOverflow, nav, lastScroll, links)
    }

    constructor (s: NavState)
      ensures State() == s
    {
      hasHamburger, hamburger, ariaExpanded := s.hasHamburger, s.hamburger, s.ariaExpanded;
      hasMenu, menu, bodyOverflow := s.hasMenu, s.menu, s.bodyOverflow;
      nav, lastScroll, links := s.nav, s.lastScroll, s.links;
    }

    /** The hamburger's click handler; `ok` is false when it throws for want of a menu. */
    method ToggleMenu() returns (ok: bool)
      requires hasHamburger
      modifies this
      ensures ok == hasMenu
      ensures State() == Toggled(old(State()))
    {
      hamburger := Toggle(hamburger, "is-active");
      if !hasMenu {
        return false;
      }
      menu := Toggle(menu, "is-open");
      var isOpen := "is-open" in menu;
      ariaExpanded := BoolAttr(isOpen);
      bodyOverflow := if isOpen then "hidden" else "";
      ok := true;
    }

    /** Bound to every nav link's click, and called on Escape. */
    method CloseMenu()
      modifies this
      ensures State() == Closed(old(State()))
    {
      if hasHamburger {
        hamburger := hamburger - {"is-active"};
      }
      if hasMenu {
        menu := menu - {"is-open"};
      }
      if hasHamburger {
        ariaExpanded := "false";
      }
      bodyOverflow := "";
    }

    method KeyDown(key: string)
      modifies this
      ensures State() == AfterKey(old(State()), key)
    {
      if key == "Escape" {
        CloseMenu();
      }
    }

    method OnScroll(scrollY: int)
      modifies this
      ensures State() == AfterScroll(old(State()), scrollY)
    {
      var currentScroll := scrollY;
      if currentScroll > ScrolledThreshold {
        nav := nav + {"scrolled"};
      } else {
        nav := nav - {"scrolled"};
      }
      lastScroll := currentScroll;
    }

    /** `setActiveLink()`; the page's sections and `window.scrollY` are passed in. */
    method SetActiveLink(sections: seq<Section>, scrollY: int)
      modifies this
      ensures links == ActiveLinks(old(links), sections, scrollY)
      ensures State() == old(State()).(links := links)
    {
      var y := scrollY + HeaderOffset;
      var i := 0;
      while i < |sections|
        invariant 0 <= i <= |sections|
        invariant links == Sweep(old(links), sections[..i], y)
        invariant State() == old(State()).(links := links)
      {
        var section := sections[i];
        var link := FirstLink(links, "#" + section.id);
        if y >= section.top && y < section.top + section.height {
          ghost var before := links;
          var j := 0;
          while j < |links|
            invariant 0 <= j <= |links| == |before|
            invariant forall m :: 0 <= m < j ==> links[m] == before[m].(classes := before[m].classes - {"active"})
            invariant forall m :: j <= m < |links| ==> links[m] == before[m]
            invariant State() == old(State()).(links := links)
          {
            links := links[j := links[j].(classes := links[j].classes - {"active"})];
            j := j + 1;
          }
          assert links == ClearActive(before);
          if link.Some? {
            links := links[link.value := links[link.value].(classes := links[link.value].classes + {"active"})];
          }
          assert links == Highlight(before, section.id);
        }
        assert sections[..i + 1][..i] == sections[..i];
        i := i + 1;
      }
      assert sections[..i] == sections;
    }

    /** The `scroll` listener: `onScroll()` followed by `setActiveLink()`. */
    method Scroll(sections: seq<Section>, scrollY: int)
      modifies this
      ensures State() == AfterScroll(old(State()), scrollY)
        .(links := ActiveLinks(old(links), sections, scrollY))
    {
      OnScroll(scrollY);
      SetActiveLink(sections, scrollY);
    }
  }
}
