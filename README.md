# Carrousel: selection-filtered course list

A model of the `Carrousel` web-part component, which shows course records as cards
that can be filtered by two user selections: a *pillar* (one of four buttons) and a
*level* (a drop-down). The model covers the component's state, the filter it applies
to its `data` prop, the two event handlers, and what the list area displays.

- `wrappers.dfy` (`Wrappers`): the `Option` type for record fields that may be missing.
- `filter.dfy` (`CarrouselFilter`): the record shape, the selection, the sentinel `"All"`,
  the filter predicate and `FilterData`, with lemmas. These include an exact subsequence
  characterisation, soundness and completeness, identity in the initial state,
  idempotence, distribution over concatenation, and AND-composition of the two axes.
- `view.dfy` (`CarrouselView`): the title and percentage fallbacks, one card per record,
  and the "no results" message.
- `events.dfy` (`CarrouselEvents`): the pillar-click and level-change events and the state
  transition. It also covers runs of events from the defaults and the exact set of
  reachable states.
- `component.dfy` (`CarrouselComponent`): the component as a class. It has the `data` prop,
  the mutable fields `selectedPillar` and `selectedLevel`, and the handlers
  `SelectPillar` and `SelectLevel`. A ghost history of handled events ties the fields to
  the event model.

The record type is not shown in the source. It is modelled with the five fields the
component reads: `pillar`, `levelName`, `litmosLearningPathName` (optional),
`productName` and `PercentageComplete` (optional).

The level axis uses the same sentinel value `"All"` as the pillar axis. The drop-down
option carrying that value is labelled "All Levels", but its value, and the value the
filter tests, is `"All"`. The model follows the code here, not a separate "All levels"
sentinel.

## Model

| member | source | states |
|---|---|---|
| `CarrouselFilter.FilterData` | src/webparts/carrousel/components/Carrousel.tsx:21-30 | the result is no longer than `data`, and every record in it matches both axes |
| `CarrouselFilter.FilterSubMultiset` | src/webparts/carrousel/components/Carrousel.tsx:25-29 | no record occurs in the result more often than in `data`, so the filter never duplicates or fabricates a record |
| `CarrouselFilter.FilterIsMatchingSubsequence` | src/webparts/carrousel/components/Carrousel.tsx:25-29 | the result is `data` at a strictly increasing list of positions, and a position is in that list exactly when its record matches; so records are never reordered, duplicated or fabricated, and no match is dropped |
| `CarrouselFilter.FilterMembership` | src/webparts/carrousel/components/Carrousel.tsx:25-28 | a record is in the result if and only if it is in `data` and matches both axes (soundness and completeness) |
| `CarrouselFilter.FilterKeepsAllMatching` | src/webparts/carrousel/components/Carrousel.tsx:25-29 | a list whose every record matches is returned unchanged |
| `CarrouselFilter.FilterInitialIsIdentity` | src/webparts/carrousel/components/Carrousel.tsx:15-27 | with both selections at the initial `"All"`, the filter returns `data` unchanged |
| `CarrouselFilter.FilterIdempotent` | src/webparts/carrousel/components/Carrousel.tsx:25-29 | filtering the filtered list again with the same selection gives the same list |
| `CarrouselFilter.FilterAppend` | src/webparts/carrousel/components/Carrousel.tsx:25-29 | filtering a concatenation is the concatenation of the filtered parts, because each record is judged alone and in order |
| `CarrouselFilter.FilterAxesCompose` | src/webparts/carrousel/components/Carrousel.tsx:26-28 | the axes are combined with AND: filtering on both equals filtering on the pillar only, then on the level only |
| `CarrouselFilter.FilterEmptyIff` | src/webparts/carrousel/components/Carrousel.tsx:25-29 | the result is empty exactly when no record of `data` matches |
| `CarrouselView.DisplayTitle` | src/webparts/carrousel/components/Carrousel.tsx:72 | the heading is never empty; it is the learning-path name when present and non-empty, otherwise "No Title Available" |
| `CarrouselView.DisplayPercentage` | src/webparts/carrousel/components/Carrousel.tsx:76 | the percentage shown is 0 exactly when the field is missing or zero |
| `CarrouselView.DisplayPercentageIsGetOr` | src/webparts/carrousel/components/Carrousel.tsx:76 | the shown percentage is the field's value, with 0 when the field is missing |
| `CarrouselView.CardOf` | src/webparts/carrousel/components/Carrousel.tsx:71-77 | a card shows the fallback title, the level, product and pillar as stored, and the fallback percentage |
| `CarrouselView.Render` | src/webparts/carrousel/components/Carrousel.tsx:68-82 | the "no courses match" message is shown exactly when the filtered list is empty; otherwise there is one card per filtered record, in order |
| `CarrouselView.RenderMessageIff` | src/webparts/carrousel/components/Carrousel.tsx:69-80 | the message is shown exactly when no record of `data` matches the selection |
| `CarrouselView.RenderSound` | src/webparts/carrousel/components/Carrousel.tsx:69-77 | every card shown has the selected pillar and the selected level, except on an axis at `"All"` |
| `CarrouselView.RenderInitialShowsAll` | src/webparts/carrousel/components/Carrousel.tsx:68-78 | in the initial state a non-empty `data` is shown in full, one card per record in order |
| `CarrouselEvents.Step` | src/webparts/carrousel/components/Carrousel.tsx:43-58 | a pillar click sets only the pillar and a level change sets only the level; the other field is kept (`setState` merges) |
| `CarrouselEvents.RunInvariant` | src/webparts/carrousel/components/Carrousel.tsx:15-64 | after any run of events the controls can raise, the pillar is `"All"` or one of the four buttons and the level is one of the four option values; the pillar is `"All"` exactly when no pillar button was clicked |
| `CarrouselEvents.NoReturnToAll` | src/webparts/carrousel/components/Carrousel.tsx:40-43 | once a pillar button has been clicked, no later events bring the pillar back to `"All"` |
| `CarrouselEvents.AdmissibleIsReachable` | src/webparts/carrousel/components/Carrousel.tsx:40-64 | the invariant is exact: every state it admits is reached by some run of offered events |
| `CarrouselComponent.Carrousel.constructor` | src/webparts/carrousel/components/Carrousel.tsx:12-19 | both selection fields start at `"All"`, and no event has been handled |
| `CarrouselComponent.Carrousel.SelectPillar` | src/webparts/carrousel/components/Carrousel.tsx:40-43 | sets `selectedPillar` to the clicked pillar and leaves `selectedLevel` unchanged; the state stays reachable and the pillar is no longer `"All"` |
| `CarrouselComponent.Carrousel.SelectLevel` | src/webparts/carrousel/components/Carrousel.tsx:56-64 | sets `selectedLevel` to the chosen option and leaves `selectedPillar` unchanged; the state stays reachable |
| `CarrouselComponent.Carrousel.FilterData` | src/webparts/carrousel/components/Carrousel.tsx:21-30 | the result is the module filter applied to `data` and the current fields, so the order-preserving subsequence, soundness and completeness lemmas all apply to it; every returned record matches the current fields, and every matching record of `data` is returned |
| `CarrouselComponent.Carrousel.Render` | src/webparts/carrousel/components/Carrousel.tsx:68-82 | the result is the module view for `data` and the current fields: the "No courses match your filters." message exactly when the current filtered list is empty, otherwise one card per filtered record |

## Left out

- JSX markup, the Tailwind classes and the highlighting of the active pillar button (lines 36-84): presentation only.
- React machinery: lifecycle, re-rendering, batching of `setState`, and how clicks and changes are delivered. Each handler is a synchronous state update.
- The list keys (`key={index}`, `key={pillar}`) and the `%` sign after the percentage: these are rendering details.
- The CSS and asset imports, and the `ICarrouselProps` module. `ICarrouselProps` is not part of this model; the record shape is modelled directly from the fields the component reads.
- `PercentageComplete` is modelled as an integer; the source's JavaScript number can be fractional. The `|| 0` fallback treats both the same way.
- JavaScript truthiness beyond missing, empty and zero values (such as `NaN`). Optional fields are `Option` values, and an empty title is treated as missing.
- `Carrousel.SelectPillar` and `Carrousel.SelectLevel` require a value the rendered controls can produce: one of the four pillar buttons, or one of the four option values. Those are the only callers.
- The compiled component keeps no event history. `history` is a ghost record that ties the class's fields to the event model.
- Horizontal scroll nudging and an "options expanded" drop-down flag do not appear in this component, so they are not modelled.
