/** The navigation's two controllers: `BurgerMenu`, which opens and closes
    the collapsed menu, and `ScrollSpy`, which marks the link of the section
    under the header. Event objects are reduced to what the handlers read
    (the key, whether the click was inside the navbar, the window's width,
    the scroll offset); the `debounce` around the resize handler and the
    `throttle` around the scroll handler only decide when the handlers run,
    so the handlers are modelled as they run. */
module Navigation {

  /** `CONFIG.headerHeight`. */
  const HeaderHeight: int := 80
  /** The window width from which the resize handler closes the menu. */
  const DesktopWidth: int := 768
  /** How far below the header a section counts as the current one. */
  const SpyOffset: int := 50

  /** What the menu's DOM shows: the `show` class of the collapse, its
      toggle's `aria-expanded`, the `menu-open` class of the body and the
      collapse's inline height. */
  datatype MenuLook = MenuLook(shown: bool, ariaExpanded: string, bodyLocked: bool, height: string)

  /** What `openMenu` leaves: the collapse fills the viewport below the
      header, `calc(100vh - ${CONFIG.headerHeight}px)`. */
  const OpenLook: MenuLook := MenuLook(true, "true", true, "calc(100vh - 80px)")
  /** What `closeMenu` leaves. */
  const ClosedLook: MenuLook := MenuLook(false, "false", false, "")

  /** The look that goes with a state of the menu. */
  function LookOf(open: bool): (l: MenuLook)
    ensures l.shown == open && l.bodyLocked == open
    ensures l.ariaExpanded == (if open then "true" else "false")
  {
    if open then OpenLook else ClosedLook
  }

  class BurgerMenu {
    /** Whether the page has both `.navbar-toggler` and `.navbar-collapse`,
        so that `init` ran and the handlers are attached. */
    const wired: bool
    var isOpen: bool
    /** Unknown until the first `openMenu`/`closeMenu`: the page's markup. */
    var look: MenuLook

    /** Once the menu has been opened, its look follows its state. */
    ghost predicate Valid()
      reads this
    {
      isOpen ==> look == OpenLook
    }

    constructor (wired: bool, markup: MenuLook)
      ensures Valid()
      ensures this.wired == wired && !isOpen && look == markup
    {
      this.wired := wired;
      isOpen := false;
      look := markup;
    }

    method OpenMenu()
      modifies this
      ensures Valid()
      ensures isOpen && look == LookOf(true)
    {
      isOpen := true;
      look := OpenLook;
    }

    method CloseMenu()
      modifies this
      ensures Valid()
      ensures !isOpen && look == LookOf(false)
    {
      isOpen := false;
      look := ClosedLook;
    }

    /** A click on the toggler flips the menu. */
    method OnToggleClick()
      modifies this
      ensures wired ==> isOpen == !old(isOpen) && look == LookOf(isOpen)
      ensures !wired ==> isOpen == old(isOpen) && look == old(look)
    {
      if !wired {
        return;
      }
      if isOpen {
        CloseMenu();
      } else {
        OpenMenu();
      }
    }

    /** Shared by the handlers that close an open menu and otherwise do
        nothing. */
    method CloseIfOpen(trigger: bool)
      modifies this
      ensures wired && trigger && old(isOpen) ==> !isOpen && look == LookOf(false)
      ensures !(wired && trigger && old(isOpen)) ==> isOpen == old(isOpen) && look == old(look)
    {
      if wired && trigger && isOpen {
        CloseMenu();
      }
    }

    /** A click on one of the menu's `.nav-link`s. */
    method OnLinkClick()
      modifies this
      ensures wired && old(isOpen) ==> !isOpen && look == LookOf(false)
      ensures !(wired && old(isOpen)) ==> isOpen == old(isOpen) && look == old(look)
    {
      CloseIfOpen(true);
    }

    /** A click anywhere in the document, inside the navbar or not. */
    method OnDocumentClick(insideNav: bool)
      modifies this
      ensures wired && old(isOpen) && !insideNav ==> !isOpen && look == LookOf(false)
      ensures !(wired && old(isOpen) && !insideNav) ==> isOpen == old(isOpen) && look == old(look)
    {
      CloseIfOpen(!insideNav);
    }

    /** A key press; only `Escape` closes. */
    method OnKeydown(key: string)
      modifies this
      ensures wired && old(isOpen) && key == "Escape" ==> !isOpen && look == LookOf(false)
      ensures !(wired && old(isOpen) && key == "Escape") ==> isOpen == old(isOpen) && look == old(look)
    {
      CloseIfOpen(key == "Escape");
    }

    /** The debounced resize handler: a desktop-wide window closes the menu. */
    method OnResize(innerWidth: int)
      modifies this
      ensures wired && old(isOpen) && innerWidth >= DesktopWidth ==> !isOpen && look == LookOf(false)
      ensures !(wired && old(isOpen) && innerWidth >= DesktopWidth) ==> isOpen == old(isOpen) && look == old(look)
    {
      CloseIfOpen(innerWidth >= DesktopWidth);
    }
  }

  /** A scenario: opening by the toggler and pressing Escape leaves the
      menu closed with the closed look; two toggles return to the start. */
  method ToggleThenEscape(markup: MenuLook) returns (open: bool, look: MenuLook, twice: bool)
    ensures !open && look == ClosedLook && !twice
  {
    var menu := new BurgerMenu(true, markup);
    menu.OnToggleClick();
    menu.OnKeydown("Escape");
    open, look := menu.isOpen, menu.look;
    menu.OnToggleClick();
    menu.OnToggleClick();
    twice := menu.isOpen;
  }

  /** A `section[id]` with its `offsetTop` and `offsetHeight`. */
  datatype Section = Section(id: string, top: int, height: int)

  datatype Option<T> = None | Some(value: T)

  /** Whether the scroll position lies in the section's box. */
  predicate Covers(s: Section, pos: int) {
    s.top <= pos < s.top + s.height
  }

  /** The section the spy selects at a scroll position: the last one in
      document order that covers it, as an index. */
  function LastCovering(sections: seq<Section>, pos: int): (r: Option<nat>)
    ensures r.Some? ==> r.value < |sections| && Covers(sections[r.value], pos)
    decreases |sections|
  {
    if sections == [] then None
    else if Covers(sections[|sections| - 1], pos) then Some(|sections| - 1)
    else LastCovering(sections[..|sections| - 1], pos)
  }

  /** No later section covers the position, and none covers it at all when
      the answer is `null`. */
  lemma {:induction false} LastCoveringIsLast(sections: seq<Section>, pos: int)
    ensures var r := LastCovering(sections, pos);
            forall j :: 0 <= j < |sections| && Covers(sections[j], pos) ==> r.Some? && j <= r.value
    decreases |sections|
  {
    if sections != [] && !Covers(sections[|sections| - 1], pos) {
      var init := sections[..|sections| - 1];
      LastCoveringIsLast(init, pos);
      assert forall j :: 0 <= j < |init| ==> init[j] == sections[j];
    }
  }

  /** The href of the link that belongs to a section. */
  function Anchor(id: string): string {
    "#" + id
  }

  /** Whether a link is the one the spy marks. */
  predicate Marked(sections: seq<Section>, pos: int, href: string) {
    var r := LastCovering(sections, pos);
    r.Some? && href == Anchor(sections[r.value].id)
  }

  class ScrollSpy {
    /** The page's `section[id]` elements, in document order. */
    const sections: seq<Section>
    /** The `href` of each `.nav-link[href^="#"]`. */
    const links: seq<string>
    /** Whether each link has the `active` class and `aria-current="page"`
        (the two are set and removed together). */
    var active: seq<bool>

    ghost predicate Valid()
      reads this
    {
      |active| == |links|
    }

    /** The constructor and `init`: with no section there is no scroll
        handler and no link is touched; otherwise the links are marked for
        the current offset. */
    constructor (sections: seq<Section>, links: seq<string>, markup: seq<bool>, pageYOffset: int)
      requires |markup| == |links|
      ensures Valid() && this.sections == sections && this.links == links
      ensures sections == [] ==> active == markup
      ensures sections != [] ==>
                forall k :: 0 <= k < |links| ==> (active[k] <==> Marked(sections, pageYOffset + HeaderHeight + SpyOffset, links[k]))
    {
      this.sections := sections;
      this.links := links;
      active := markup;
      new;
      if sections != [] {
        UpdateActiveLink(pageYOffset);
      }
    }

    /** The `forEach` over the sections in `updateActiveLink`. */
    method FindCurrentSection(pos: int) returns (current: Option<nat>)
      ensures current == LastCovering(sections, pos)
    {
      current := None;
      for i := 0 to |sections|
        invariant current == LastCovering(sections[..i], pos)
      {
        assert sections[..i + 1][..i] == sections[..i];
        if Covers(sections[i], pos) {
          current := Some(i);
        }
      }
      assert sections[..|sections|] == sections;
    }

    /** `updateActiveLink`: every link loses its mark, and exactly the links
        to the current section get it back. */
    method UpdateActiveLink(pageYOffset: int)
      requires Valid()
      modifies this
      ensures Valid()
      ensures forall k :: 0 <= k < |links| ==> (active[k] <==> Marked(sections, pageYOffset + HeaderHeight + SpyOffset, links[k]))
    {
      var pos := pageYOffset + HeaderHeight + SpyOffset;
      var current := FindCurrentSection(pos);
      var marks: seq<bool> := [];
      for k := 0 to |links|
        invariant |marks| == k
        invariant forall j :: 0 <= j < k ==> (marks[j] <==> Marked(sections, pos, links[j]))
      {
        var mark := current.Some? && links[k] == Anchor(sections[current.value].id);
        marks := marks + [mark];
      }
      active := marks;
    }
  }

  /** When the hrefs of the links are distinct, at most one link is marked. */
  lemma AtMostOneMarked(sections: seq<Section>, pos: int, links: seq<string>, i: nat, j: nat)
    requires i < |links| && j < |links|
    requires forall a, b :: 0 <= a < b < |links| ==> links[a] != links[b]
    requires Marked(sections, pos, links[i]) && Marked(sections, pos, links[j])
    ensures i == j
  {
  }

  /** No link is marked while the header sits above every section or below
      all of them. */
  lemma NothingMarkedOutside(sections: seq<Section>, pos: int, href: string)
    requires forall k :: 0 <= k < |sections| ==> !Covers(sections[k], pos)
    ensures !Marked(sections, pos, href)
  {
  }
}
