# Responsive product carousel

This project models the product carousel of a tea-sourcing brand's marketing site. The carousel
pages through a fixed catalogue of six product categories. Its state is two integers: the index of
the leftmost visible card, and the number of cards shown side by side (1, 2 or 3, chosen from the
viewport width). Forward and backward moves come from buttons or from a horizontal drag. Both
directions saturate and never wrap around. The rendered values are the track shift, the card width,
the disabled flags of the two controls and the position dots. All of them are pure functions of
the two integers.

- `catalogue.dfy`, module `Catalogue`: the `ProductCategory` record and the six-entry catalogue.
- `carousel.dfy`, module `Carousel`: the rules as pure functions. These are the breakpoint table,
  the bound `MaxIndex`, the clamped moves, the drag threshold and the render values. It also holds
  a `State`/`Event` model of the handlers (`Step`, `Run`) and the lemmas about them.
- `products.dfy`, module `Products`: the component as a class. `ProductCarousel` has the two
  mutable fields, updated in place by `HandleResize`, `NextSlide`, `PrevSlide` and
  `HandleDragEnd`. Each method is proved to perform the matching `Carousel.Step`.

A resize in the code only sets the number of visible cards. It does not clamp the index to the new
bound, and the model keeps it that way. On the six-card catalogue, index 5 with one card shown is
in range. A resize to a desktop width then gives index 5 with three cards shown, but the bound is
now 3. In that state the forward control is enabled, no dot is lit and the view runs past the last
card. One forward move drops the index to 3. One backward move gives 4, which is still out of range.
A design that keeps `0 <= index <= MaxIndex` through every event would need that clamp. The range
invariant is therefore proved only for runs without a resize (`RunKeepsRange`). Separately,
`NextLandsInRange` proves that a forward move reaches the range from any well-formed state, and
`RunKeepsWellFormed` proves that every reachable state is well formed.

## Model

| member | source | states |
|---|---|---|
| `Catalogue.ItemCount` | components/Products.tsx:12-49 | the catalogue the carousel pages through holds six cards |
| `Carousel.Breakpoint` | components/Products.tsx:57-65 | a width below 768 px gives 1 card, 768 to 1023 px gives 2, 1024 px and above gives 3; the result is always one of 1, 2, 3 |
| `Carousel.BreakpointMonotone` | components/Products.tsx:57-65 | a wider viewport never shows fewer cards |
| `Carousel.MaxIndex` | components/Products.tsx:72 | the bound is the larger of 0 and item count minus visible cards: never negative, at least the difference, and 0 exactly when the catalogue fits on one page |
| `Carousel.NextIndex` | components/Products.tsx:74-76 | a forward move gives index + 1 or the bound, whichever is smaller; never above the bound |
| `Carousel.PrevIndex` | components/Products.tsx:78-80 | a backward move gives index - 1 or 0, whichever is larger; never negative |
| `Carousel.NavigationSaturates` | components/Products.tsx:74-80 | a forward move leaves the index unchanged exactly at the bound, a backward move exactly at 0; from an in-range index both stay in range; from beyond the bound a forward move returns to the bound |
| `Carousel.DragIntent` | components/Products.tsx:82-88 | a release more than 50 px left means "next", more than 50 px right means "previous", and any offset from -50 to 50 inclusive means nothing |
| `Carousel.Step` | components/Products.tsx:57-88 | clicks and drags never change the visible count; a resize sets the visible count to the breakpoint of the width and never moves the index; a drag within 50 px changes nothing |
| `Carousel.DragActsAsClick` | components/Products.tsx:82-88 | a drag released more than 50 px left does exactly what a forward click does, and one more than 50 px right exactly what a backward click does |
| `Carousel.StepProperties` | components/Products.tsx:52-88 | every event keeps the index at or above 0 and the visible count in 1..3; clicks and drags never change the visible count and keep an in-range index in range; a resize changes only the visible count |
| `Carousel.NextLandsInRange` | components/Products.tsx:72-76 | after a forward move the index is between 0 and the bound, even from an index a resize left beyond the bound |
| `Carousel.RunKeepsWellFormed` | components/Products.tsx:52-88 | every sequence of events, resizes included, keeps the index at or above 0 and the visible count in 1..3 |
| `Carousel.RunKeepsRange` | components/Products.tsx:52-88 | with no resize among the events, an index in 0..bound stays in 0..bound and the visible count does not change |
| `Carousel.MountIsInRange` | components/Products.tsx:52-67 | mounting (index 0, three cards, then the first breakpoint check) gives index 0 with the breakpoint's card count, which is in range |
| `Carousel.RepeatedNext` | components/Products.tsx:74-76 | n forward moves from an in-range index reach index + n, or stop at the bound |
| `Carousel.RepeatedPrev` | components/Products.tsx:78-80 | n backward moves from a non-negative index reach index - n, or stop at 0 |
| `Carousel.PrevDisabled` | components/Products.tsx:107 | the backward control is disabled exactly when a backward move would leave a non-negative index unchanged |
| `Carousel.NextDisabled` | components/Products.tsx:117 | the forward control is disabled exactly when a forward move would leave the index unchanged, and is enabled for an index beyond the bound |
| `Carousel.ControlsDisabledExactlyWhenIdle` | components/Products.tsx:105-117 | the backward control is disabled exactly when a backward move would change nothing (index 0); the forward control exactly when a forward move would change nothing (index equals the bound) |
| `Carousel.Dots` | components/Products.tsx:201-205 | there are bound + 1 dots, and dot k is lit exactly when k is the index |
| `Carousel.LitDots` | components/Products.tsx:199-207 | exactly one dot is lit when the index is in range, and none when a resize has left it beyond the bound |
| `Carousel.CardWidthPercent` | components/Products.tsx:143 | a card is a positive share of at most 100 % of the track, and the visible cards fill it exactly |
| `Carousel.ShiftPercent` | components/Products.tsx:132 | the track shift is 0 at the first card and never negative for a non-negative index |
| `Carousel.ShiftCountsCards` | components/Products.tsx:130-143 | the shift is exactly `index` card widths, and one index step moves the track by one card width |
| `Carousel.InRangeIffPageFits` | components/Products.tsx:128-143 | an index is within the bound exactly when it is the first page or the page it shows ends at or before the last card |
| `Carousel.SixCardBounds` | components/Products.tsx:72 | for six cards the bound is 5, 4 and 3 for 1, 2 and 3 visible cards, with 6, 5 and 4 dots |
| `Carousel.DragAtFirstCard` | components/Products.tsx:82-88 | from index 0 a release at -60 px gives index 1, and releases at +60, -40, -50 and +50 px leave index 0 |
| `Carousel.ResizeLeavesIndexBeyondBound` | components/Products.tsx:56-80 | index 5 on a phone and then a resize to desktop width gives index 5 with bound 3: the forward control is enabled, no dot is lit, forward gives 3 and backward gives 4 (still beyond the bound) |
| `Products.ProductCarousel.constructor` | components/Products.tsx:52-53 | the component starts at index 0 with three cards shown, which is in range |
| `Products.ProductCarousel.MaxIndex` | components/Products.tsx:72 | on the six-card catalogue the bound is 6 minus the visible count, so it lies between 3 and 5 |
| `Products.ProductCarousel.HandleResize` | components/Products.tsx:57-65 | sets the visible count to the breakpoint of the width and leaves the index as it is |
| `Products.ProductCarousel.NextSlide` | components/Products.tsx:74-76 | performs the forward move of the model; afterwards the index is in range from any state, and at the bound nothing changes |
| `Products.ProductCarousel.PrevSlide` | components/Products.tsx:78-80 | performs the backward move of the model; keeps an in-range index in range, and at 0 nothing changes |
| `Products.ProductCarousel.HandleDragEnd` | components/Products.tsx:82-88 | performs the drag reaction of the model; keeps an in-range index in range, and a release within 50 px changes nothing |

## Left out

- Markup and styling: the JSX and the class strings, including the conditional classes of the controls and dots. Only the boolean conditions behind them are modelled.
- Animation: the spring transition, drag elasticity and drag constraints belong to the animation library. A drag enters the model only as its released horizontal offset.
- Event plumbing: registering and removing the window resize listener is I/O. A resize is a call of `HandleResize` with the width. The width is an integer, as the browser reports it.
- Number formatting: the shift and width are written into CSS strings such as `-0%` or `-33.333333333333336%`. The model keeps them as exact reals, so it does not capture floating-point rounding of `100 / 3` or the text form.
- Framework scheduling: the handlers read the bound from the latest render, and state updates are applied one event at a time. The model applies each event to the current state.
- The other components of the page (header, hero, features, about, contact form, footer, logo) are not part of this model. They are presentational or are driven by network and timer calls.
