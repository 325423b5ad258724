/** The module state of js/convention.js that its event handlers update: the
    section the scroll spy last activated, the navigation item marked active, and
    the temporary wrapper the print preparation builds. The DOM these flags guard
    is reduced to what the guards need: the set of section ids that have a
    navigation item, and whether the application container is hidden. */
module Convention {
  import opened Text

  class Page {
    /** `activeSection`; `None` before the first activation. */
    var activeSection: Option<string>
    /** The section whose navigation item carries the `active` class. */
    var activeItem: Option<string>
    /** The section ids that have a navigation item in the sidebar. */
    var navItems: set<string>
    /** `_printWrapper !== null` */
    var printWrapper: bool
    /** `#app` is hidden for printing. */
    var appHidden: bool

    /** At most the active section's item is marked, and only if it exists. */
    predicate Valid()
      reads this
    {
      activeItem.Some? ==> activeItem == activeSection && activeItem.value in navItems
    }

    constructor(items: set<string>)
      ensures Valid()
      ensures activeSection == None && activeItem == None && navItems == items
      ensures !printWrapper && !appHidden
    {
      activeSection := None;
      activeItem := None;
      navItems := items;
      printWrapper := false;
      appHidden := false;
    }

    /** `setActiveNavItem(secId)`: nothing happens for the current section;
        otherwise it becomes current and its item, if any, is the only one
        marked. */
    method SetActiveNavItem(secId: string)
      requires Valid()
      modifies this
      ensures Valid()
      ensures old(activeSection) == Some(secId) ==> unchanged(this)
      ensures old(activeSection) != Some(secId) ==>
                && activeSection == Some(secId)
                && activeItem == (if secId in navItems then Some(secId) else None)
      ensures navItems == old(navItems) && printWrapper == old(printWrapper) && appHidden == old(appHidden)
    {
      if activeSection == Some(secId) {
        return;
      }
      activeSection := Some(secId);
      activeItem := None;
      if secId in navItems {
        activeItem := Some(secId);
      }
    }

    /** `preparePrint()`: a second call while the wrapper exists does nothing, and
        so does a call when `#app` or `#content-scroll` is missing; otherwise the
        wrapper is built and the application hidden. */
    method PreparePrint(appPresent: bool, contentPresent: bool)
      modifies this
      ensures old(printWrapper) || !appPresent || !contentPresent ==> unchanged(this)
      ensures !old(printWrapper) && appPresent && contentPresent ==> printWrapper && appHidden
      ensures activeSection == old(activeSection) && activeItem == old(activeItem) && navItems == old(navItems)
    {
      if printWrapper {
        return;
      }
      if !appPresent || !contentPresent {
        return;
      }
      printWrapper := true;
      appHidden := true;
    }

    /** `restorePrint()`: nothing to do without a wrapper; otherwise the wrapper
        goes and the application is shown again if it is there. */
    method RestorePrint(appPresent: bool)
      modifies this
      ensures !old(printWrapper) ==> unchanged(this)
      ensures old(printWrapper) ==> !printWrapper && appHidden == (old(appHidden) && !appPresent)
      ensures activeSection == old(activeSection) && activeItem == old(activeItem) && navItems == old(navItems)
    {
      if !printWrapper {
        return;
      }
      if appPresent {
        appHidden := false;
      }
      printWrapper := false;
    }

    /** The print button: prepare, print, restore. With the containers present the
        page ends as it started, however many times this is repeated. */
    method PrintCycle()
      requires !printWrapper && !appHidden
      modifies this
      ensures !printWrapper && !appHidden
      ensures activeSection == old(activeSection) && activeItem == old(activeItem) && navItems == old(navItems)
    {
      PreparePrint(true, true);
      RestorePrint(true);
    }
  }
}
