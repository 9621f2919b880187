# Sticky header decoration — Dafny model

A model of the sticky-header demo for Android's RecyclerView. The list adapter
(`RvAdapter`) makes every fourth row a header. The item decoration
(`StickHeaderItemDecoration`) runs once per draw pass and does four things:

- it finds the header that governs the topmost visible row;
- it lays that header out at the top of the list and caches its height in
  `mStickyHeaderHeight`;
- it scans the visible rows for the first one that straddles the header's bottom
  edge (the contact point);
- it draws the header flush at the top, or shifts it up when the row in contact is
  the next header (the hand-off).

Files:

- `adapter.dfy` (module `Adapter`) holds the row classifier, the view type and
  the backward header scan. The scan is a `while` loop proved against the
  recursive function `HeaderPositionFor`.
- `sticky_header.dfy` (module `StickyHeader`) holds the decoration. It is a
  class whose field `stickyHeaderHeight` is the cached height. `GetChildInContact`
  is a `for` loop with a `break`, proved against `ChildInContact`. `OnDrawOver`
  is proved to return `DrawDecision` of its inputs. Lemmas about `DrawDecision`
  cover the bail-out, the governing header, the hand-off and the flush cases.
- `scenarios.dfy` (module `Scenarios`) works concrete frames of the demo list
  through the decision.

How the Android views are abstracted:

- A visible row is `Child(adapterPos, top, bottom, height)`, with `adapterPos ==
  -1` standing for `NO_POSITION`.
- The header's measured height is an input.
- What gets drawn is a returned value: `Skip` (nothing this frame), or
  `DrawAt(headerPos, translation)`.

Kotlin's `%` truncates toward zero. It is written out as `KotlinRem`, and
`IsHeader` is proved to hold exactly for the multiples of four, negative positions
included.

Points where the code does something other than the obvious reading; the model
follows the code:

- The backward scan is meant to return 0 when it finds no header. The
  do-while loop always tests its first position, so a negative multiple of four
  is returned as it is (`getHeaderPositionForItem(-4) == -4`). Only the other
  negative positions fall back to 0 (`HeaderPositionForNegative`).
- Row 0 is always a header under this classifier. So for `p >= 0` the fallback 0
  is reached only as the header at row 0, and the case "no header in `[0, p]`"
  cannot happen.
- The tolerance check is meant to skip the pinned header itself. The code
  compares the header's adapter position with the row's enumeration index, and
  the model keeps that comparison. `ScenarioIndexCoincidence` shows a frame where this matters: header row 8 sits at index 4 under pinned header 4.
  It gets no tolerance, no row is in contact, and header 4 stays flush even
  though row 8's top is already underneath it.
- The tolerance is applied only while the row's top is below the list's top
  (`top > 0`), exactly as the code does.

## Model

| member | source | states |
|---|---|---|
| `Adapter.KotlinRem` | app/src/main/java/com/md/stickyheaderrecyclerview/MainActivity.kt:238 | the truncated remainder is smaller in magnitude than the divisor and takes the sign of the dividend |
| `Adapter.KotlinRemIsRemainder` | app/src/main/java/com/md/stickyheaderrecyclerview/MainActivity.kt:238 | `KotlinRem(a, b)` is the remainder of truncated division: `a == KotlinQuot(a, b) * b + KotlinRem(a, b)`, so with its bound and sign it is Kotlin's `%` |
| `Adapter.IsHeader` | app/src/main/java/com/md/stickyheaderrecyclerview/MainActivity.kt:237-239 | a row is a header exactly when its position is a multiple of four (negative positions included) |
| `Adapter.ItemViewType` | app/src/main/java/com/md/stickyheaderrecyclerview/MainActivity.kt:212-214 | the view type is HEADER or CONTENT, and HEADER exactly when `IsHeader` holds |
| `Adapter.HeaderPositionFor` | app/src/main/java/com/md/stickyheaderrecyclerview/MainActivity.kt:216-227 | the scan's result lies in `[0, p]` for `p >= 0` and is `p` or 0 for `p < 0`; `HeaderPositionIsGoverning`, `HeaderPositionClosedForm` and `HeaderPositionForNegative` carry the rest |
| `Adapter.HeaderPositionIsGoverning` | app/src/main/java/com/md/stickyheaderrecyclerview/MainActivity.kt:216-227 | for `p >= 0` the scan returns `h` with `0 <= h <= p`, `h` is a header, and no row in `(h, p]` is a header |
| `Adapter.HeaderPositionOfHeader` | app/src/main/java/com/md/stickyheaderrecyclerview/MainActivity.kt:219-222 | a header position resolves to itself, so row 0 resolves to 0 |
| `Adapter.HeaderPositionForNegative` | app/src/main/java/com/md/stickyheaderrecyclerview/MainActivity.kt:218-226 | for `p < 0` the single pass of the loop returns `p` if it is a multiple of four, else the fallback 0 |
| `Adapter.HeaderPositionClosedForm` | app/src/main/java/com/md/stickyheaderrecyclerview/MainActivity.kt:216-227 | for `p >= 0` the governing header is `p - p % 4` |
| `Adapter.GetHeaderPositionForItem` | app/src/main/java/com/md/stickyheaderrecyclerview/MainActivity.kt:216-227 | the do-while loop returns `HeaderPositionFor(p)`, which is `p - p % 4` for `p >= 0` |
| `StickyHeader.HeightTolerance` | app/src/main/java/com/md/stickyheaderrecyclerview/MainActivity.kt:84-93 | the tolerance is 0, or `stickyHeaderHeight - height` for a header row whose index differs from the current header's position; `EffectiveBottomRule` gives the whole rule |
| `StickyHeader.EffectiveBottom` | app/src/main/java/com/md/stickyheaderrecyclerview/MainActivity.kt:95-101 | a row whose top is at or above the list's top keeps its bottom; otherwise the bottom may be corrected by the height difference; `EffectiveBottomRule` says exactly when |
| `StickyHeader.InContact` | app/src/main/java/com/md/stickyheaderrecyclerview/MainActivity.kt:103-104 | a row in contact whose top is at or above the list's top has its plain bottom below the contact point |
| `StickyHeader.FirstContactFrom` | app/src/main/java/com/md/stickyheaderrecyclerview/MainActivity.kt:83-110 | a row the scan returns from index `from` on lies in range at or after `from` and is in contact with the contact point |
| `StickyHeader.ChildInContact` | app/src/main/java/com/md/stickyheaderrecyclerview/MainActivity.kt:81-112 | a returned index is in range and in contact; `ChildInContactIsLowest` proves it is the lowest such and that nothing is returned exactly when no row is in contact |
| `StickyHeader.FirstContactFromIsLowest` | app/src/main/java/com/md/stickyheaderrecyclerview/MainActivity.kt:83-110 | no row between `from` and the returned one is in contact; when nothing is returned, no row from `from` on is in contact |
| `StickyHeader.ChildInContactIsLowest` | app/src/main/java/com/md/stickyheaderrecyclerview/MainActivity.kt:81-112 | the scan returns `k` exactly when row `k` is in contact and no lower index is; it returns nothing exactly when no row is in contact |
| `StickyHeader.EffectiveBottomRule` | app/src/main/java/com/md/stickyheaderrecyclerview/MainActivity.kt:84-101 | the effective bottom differs from `bottom` only when the index differs from the header position, the row is a header and `top > 0`; it is then `bottom + (stickyHeaderHeight - height)` |
| `StickyHeader.MoveHeaderTranslation` | app/src/main/java/com/md/stickyheaderrecyclerview/MainActivity.kt:76 | for a header laid out from y = 0, the translated header's bottom lands on the incoming header's top |
| `StickyHeader.DrawDecision` | app/src/main/java/com/md/stickyheaderrecyclerview/MainActivity.kt:37-58 | a drawn header is the one governing the top row and is never moved down; `DrawSkippedIff`, `DrawnHeaderGoverns`, `HandOffTranslation` and `PinnedFlush` characterise every case |
| `StickyHeader.DrawSkippedIff` | app/src/main/java/com/md/stickyheaderrecyclerview/MainActivity.kt:39-44 | a pass draws nothing exactly when no row is visible or the top row has `NO_POSITION` |
| `StickyHeader.DrawnHeaderGoverns` | app/src/main/java/com/md/stickyheaderrecyclerview/MainActivity.kt:46-47 | for a valid top position `p` the drawn header is `p - p % 4`, a header in `[0, p]` |
| `StickyHeader.HandOffTranslation` | app/src/main/java/com/md/stickyheaderrecyclerview/MainActivity.kt:52-79 | when the lowest row in contact is a header, the translation is its top minus the measured height; the pinned header's bottom then meets that row's top, and the shift is upward |
| `StickyHeader.PinnedFlush` | app/src/main/java/com/md/stickyheaderrecyclerview/MainActivity.kt:52-72 | when no row is in contact, or the lowest one in contact is not a header, the header is drawn with translation 0 |
| `StickyHeader.TranslationNeverDownward` | app/src/main/java/com/md/stickyheaderrecyclerview/MainActivity.kt:74-79 | every drawn translation is at most 0 |
| `StickyHeader.StickHeaderItemDecoration.constructor` | app/src/main/java/com/md/stickyheaderrecyclerview/MainActivity.kt:35 | the cached header height starts at 0 |
| `StickyHeader.StickHeaderItemDecoration.FixLayoutSize` | app/src/main/java/com/md/stickyheaderrecyclerview/MainActivity.kt:139-140 | the cached height becomes the measured height, and the header is laid out from y = 0 to y = that height |
| `StickyHeader.StickHeaderItemDecoration.GetChildInContact` | app/src/main/java/com/md/stickyheaderrecyclerview/MainActivity.kt:81-112 | the loop with `break` returns the lowest-index row in contact under the cached height, or nothing exactly when no row is in contact |
| `StickyHeader.StickHeaderItemDecoration.OnDrawOver` | app/src/main/java/com/md/stickyheaderrecyclerview/MainActivity.kt:37-58 | the pass draws `DrawDecision(children, measuredHeight)`, whatever height was cached before; the cached height is unchanged on a bail-out and becomes the measured height otherwise |
| `StickyHeader.DrawTwice` | app/src/main/java/com/md/stickyheaderrecyclerview/MainActivity.kt:37-58 | two passes with the same rows and measured height draw the same result, and leave the cached height as one pass would (unchanged on a bail-out, the measured height otherwise) |
| `Scenarios.ScenarioPinnedFlush` | app/src/main/java/com/md/stickyheaderrecyclerview/MainActivity.kt:46-57 | with row 10 on top, header 8 is drawn flush because the row in contact is content row 11 |
| `Scenarios.ScenarioHandOff` | app/src/main/java/com/md/stickyheaderrecyclerview/MainActivity.kt:50-55 | with header row 12 at top 40 under a 60-pixel header, header 8 is drawn shifted by -20 |
| `Scenarios.ScenarioUnresolvable` | app/src/main/java/com/md/stickyheaderrecyclerview/MainActivity.kt:39-44 | an empty list, or a top row with `NO_POSITION`, draws nothing |
| `Scenarios.ScenarioIndexCoincidence` | app/src/main/java/com/md/stickyheaderrecyclerview/MainActivity.kt:88-93 | a header row whose index equals the pinned header's position gets no tolerance, so header 4 stays flush over header row 8 |

## Left out

- Inflating, binding and drawing the header view, and `Canvas.save`, `translate`
  and `restore`. These are framework calls. The model returns the draw decision
  (`Draw`) instead.
- `View.measure`, `MeasureSpec` and `ViewGroup.getChildMeasureSpec` in
  `fixLayoutSize`. These are framework calls. The header's measured height is an
  input. The measured width, and the width passed to `layout`, are not modelled,
  because no decision depends on them.
- `getHeaderLayout`, `bindHeaderData`, `onCreateViewHolder`, `onBindViewHolder`,
  `getItemCount` and the view holders. They only pick resource ids and set text.
- `MainActivity.onCreate`. It sets up the screen and fills the list with random
  demo data.
- The conversion of the translation to `float`. The translation stays an integer.
- 32-bit `Int` overflow. Positions and screen coordinates are far from the
  bounds, so the model uses unbounded integers. The backward scan cannot wrap
  around in any case: `Int.MIN_VALUE` is a multiple of four, so it is reported as
  a header before it is decremented.
- The header classifier is fixed to the adapter's own, `p % 4 == 0`. The
  decoration only sees it through the header-provider interface, but this one
  adapter is the interface's only implementation.
