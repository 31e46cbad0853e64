/** The carousel component itself: two pieces of mutable state, updated in
    place by its event handlers. Each handler is proved to perform the
    corresponding `Carousel.Step`. */
module Products {
  import Catalogue
  import C = Carousel

  class ProductCarousel {
    /** Index of the leftmost visible card. */
    var currentIndex: int
    /** Number of cards shown side by side. */
    var visibleItems: int
    /** Length of the catalogue the carousel pages through. */
    const itemCount: nat

    /** The state as a value. */
    function View(): C.State
      reads this
    {
      C.State(currentIndex, visibleItems)
    }

    ghost predicate Valid()
      reads this
    {
      C.WellFormed(View()) && itemCount == Catalogue.ItemCount()
    }

    /** Mounts with the first card leftmost and three cards shown. */
    constructor ()
      ensures Valid()
      ensures View() == C.Initial && C.InRange(itemCount, View())
    {
      currentIndex := 0;
      visibleItems := 3;
      itemCount := |Catalogue.Products|;
    }

    /** The largest index the navigation moves to: on the six-card
        catalogue, the number of cards left over after the first page. */
    function MaxIndex(): (m: nat)
      requires Valid()
      reads this
      ensures m == 6 - visibleItems
      ensures 3 <= m <= 5
    {
      C.MaxIndex(itemCount, visibleItems)
    }

    /** Re-evaluates the breakpoint for a viewport `width` pixels wide; runs
        once at mount and on every resize. The index is not touched. */
    method HandleResize(width: int)
      requires Valid()
      modifies this`visibleItems
      ensures Valid()
      ensures View() == C.Step(itemCount, old(View()), C.Resize(width))
      ensures currentIndex == old(currentIndex)
    {
      if width < C.TabletWidth {
        visibleItems := 1;
      } else if width < C.DesktopWidth {
        visibleItems := 2;
      } else {
        visibleItems := 3;
      }
    }

    /** Moves one card forward, saturating at the bound; lands in range from
        any state, including one a resize left beyond the bound. */
    method NextSlide()
      requires Valid()
      modifies this`currentIndex
      ensures Valid()
      ensures View() == C.Step(itemCount, old(View()), C.NextClick)
      ensures C.InRange(itemCount, View())
      ensures old(currentIndex) == old(MaxIndex()) ==> View() == old(View())
    {
      currentIndex := if currentIndex + 1 <= MaxIndex() then currentIndex + 1 else MaxIndex();
    }

    /** Moves one card back, saturating at 0. */
    method PrevSlide()
      requires Valid()
      modifies this`currentIndex
      ensures Valid()
      ensures View() == C.Step(itemCount, old(View()), C.PrevClick)
      ensures old(C.InRange(itemCount, View())) ==> C.InRange(itemCount, View())
      ensures old(currentIndex) == 0 ==> View() == old(View())
    {
      currentIndex := if currentIndex - 1 >= 0 then currentIndex - 1 else 0;
    }

    /** Turns a drag released at horizontal `offset` pixels into a forward
        move, a backward move or nothing. */
    method HandleDragEnd(offset: real)
      requires Valid()
      modifies this`currentIndex
      ensures Valid()
      ensures View() == C.Step(itemCount, old(View()), C.DragRelease(offset))
      ensures old(C.InRange(itemCount, View())) ==> C.InRange(itemCount, View())
      ensures -C.DragThreshold <= offset <= C.DragThreshold ==> View() == old(View())
    {
      if offset < -C.DragThreshold {
        NextSlide();
      } else if offset > C.DragThreshold {
        PrevSlide();
      }
    }
  }
}
