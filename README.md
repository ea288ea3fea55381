# split-pane layout core, in Dafny

This project models the layout logic of the `split-pane` custom element and proves properties about it. The element lays out its child panes in a CSS grid. It puts a draggable splitter between neighbouring panes. It keeps the track sizes in a `--grid-template` style property, written as a string such as `"1fr min-content 37.5% min-content 1fr"`.

There are two pieces:

- **The track-size list `GridTemplate`** (module `GridTemplates`). It is a class with a `seq<string>` of size tokens and a splitter token. It offers positional `add`, guarded `remove`/`set`, `get`, `parse` and `build`. `remove` and `set` act only on an entry that is JavaScript-truthy, meaning in range and not the empty string (`Present`). The class appears twice in the source with identical bodies (`src/GridTemplate.ts` and `src/SplitPane.ts:12-60`). It is modelled once.
- **The element `SplitPane`** (modules `PaneLayout` and `SplitPanes`):
  - The children are a `seq<Node>` with `Node = Pane(id) | Splitter`. The shape `P (S P)*` or empty is `WellFormed`.
  - The class holds the children, the `--grid-template` slot as a string field, and the drag-session fields.
  - `removePane`, the mount-time loop of `connectedCallback` and the clamp of `resizeRAF` are methods. Each is proved against a specification function: `ChildrenAfterRemoval`, `TemplateAfterRemoval`, `Interleaved`, `Filled` and `ClampSizes`'s ensures. Lemmas then prove the invariants about those functions (shape kept, other panes kept in order, one non-empty entry per pane).

Module `JsText` models the JavaScript built-ins the list relies on:
- `trim`, only as far as "is the trimmed string empty";
- `split` with a string separator, including the empty-separator case;
- `join`.

Module `Wrappers` holds `Option` (JavaScript `null`/`undefined`) and `Outcome` (a thrown error).

Two behaviours of the source that a reader might not expect:

- `remove` and `set` test the truthiness of the entry, so they refuse an in-range entry that is the empty string just as they refuse an out-of-range index (`src/GridTemplate.ts:21`, `:33`).
- The element has no method that inserts a pane; only the children present at mount time get a splitter and a template entry; children the host appends later count as panes but get neither.

## Model

| member | source | states |
|---|---|---|
| JsText.TrimEmptyIffBlank | src/GridTemplate.ts:7 | `template.trim().length` is zero exactly when every character of `template` is white space |
| JsText.Trim | src/GridTemplate.ts:7 | `String.prototype.trim`: the string without its leading and trailing white space; the only use the source makes of it, the emptiness test, is `TrimEmptyIffBlank` |
| JsText.Split | src/GridTemplate.ts:8 | `String.prototype.split` with a string separator: the pieces between the leftmost non-overlapping occurrences, at least one piece for a non-empty separator, one piece per character for ""; its properties are `JoinSplit`, `SplitFirstPrefix`, `SplitPiecesFree`, `SplitUnmatchedHead` |
| JsText.Join | src/GridTemplate.ts:47 | `Array.prototype.join`: "" for no parts, the part itself for one, the parts with the separator between them otherwise; `JoinSplit` proves it undoes `Split` |
| JsText.JoinSplit | src/GridTemplate.ts:40-48 | joining the pieces of `s.split(sep)` with `sep` gives back `s` exactly, for every separator including the empty one |
| JsText.SplitFirstPrefix | src/GridTemplate.ts:42 | the first piece of a split by a non-empty separator is a prefix of the string |
| JsText.SplitPiecesFree | src/GridTemplate.ts:42 | no piece of a split by a non-empty separator contains the separator |
| JsText.SplitUnmatchedHead | src/GridTemplate.ts:42 | if no occurrence of the separator starts inside `head`, splitting `head + tail` only lengthens the first piece of splitting `tail` |
| GridTemplates.Present | src/GridTemplate.ts:21 | the truthiness test of `parsedTemplate[idx]` in `remove` and `set` (also :33): the index is in range and the entry is not "" |
| GridTemplates.Parsed | src/GridTemplate.ts:40-44 | what `parse` and the constructor leave: the old entries for a blank template, its pieces otherwise; `BuildParseRoundTrip` relates it to `Build` |
| GridTemplates.Inserted | src/GridTemplate.ts:12-18 | `add`: length grows by one; a negative index prepends; an index past the end appends; otherwise the value lands at `idx` with the old entries before and after it unchanged |
| GridTemplates.Removed | src/GridTemplate.ts:20-26 | `remove`: a present, non-empty entry is deleted and the entries around it close up; the list is unchanged otherwise |
| GridTemplates.Assigned | src/GridTemplate.ts:32-38 | `set`: same length; only entry `idx` can change; it takes the value exactly when it was present and non-empty; the list is unchanged otherwise |
| GridTemplates.RemoveUndoesAdd | src/GridTemplate.ts:12-26 | removing a non-empty value at the position `add` put it gives back the entries before the `add` |
| GridTemplates.Framed | src/GridTemplate.ts:46-48 | the pieces a built template splits into: one per entry, each keeping the spaces `build` put next to the splitter |
| GridTemplates.SplitBuilt | src/GridTemplate.ts:40-48 | splitting `build()` (behind an optional lead space) on a space-free splitter that occurs in no entry yields exactly the framed entries |
| GridTemplates.BuiltNotBlank | src/GridTemplate.ts:41 | for a non-blank splitter and two entries or more, the built template shows the splitter, so `parse` does not skip it |
| GridTemplates.BuildParseRoundTrip | src/GridTemplate.ts:40-48 | re-parsing `build()` with the same splitter gives one piece per entry: no entry or one entry comes back exactly, two or more come back with the separator's spaces attached |
| GridTemplates.GridTemplate.constructor | src/GridTemplate.ts:5-10 | stores the splitter (default "min-content"); the entries are the pieces of `template`, or empty if `template` is blank |
| GridTemplates.GridTemplate.Add | src/GridTemplate.ts:12-18 | the new entries are `Inserted(old, idx, value)`, with default value "1fr"; the splitter is unchanged |
| GridTemplates.GridTemplate.Remove | src/GridTemplate.ts:20-26 | returns true iff `0 <= idx < length` and the entry is non-empty; the new entries are `Removed(old, idx)` |
| GridTemplates.GridTemplate.Get | src/GridTemplate.ts:28-30 | the entry at an in-range index, or `None` otherwise |
| GridTemplates.GridTemplate.Set | src/GridTemplate.ts:32-38 | returns true iff `0 <= idx < length` and the entry is non-empty; the new entries are `Assigned(old, idx, value)`, with default value "1fr" |
| GridTemplates.GridTemplate.Parse | src/GridTemplate.ts:40-44 | a blank template leaves the entries as they are; otherwise they become its pieces split on the splitter |
| GridTemplates.GridTemplate.Build | src/GridTemplate.ts:46-48 | the entries joined with `" " + splitter + " "`; an empty list builds to "" and a single entry builds to itself |
| PaneLayout.Panes | src/SplitPane.ts:219-221 | `getAllPanes()`: the ids of the children that are not splitters, in order; `WellFormedPanes` gives their number and positions |
| PaneLayout.SplitterIndex | src/SplitPane.ts:173-176 | `indexOf` of a splitter in `querySelectorAll('.sp-splitter')`: the number of splitters before its position, at most that position; `SplitterBetweenPanes` says which panes it separates |
| PaneLayout.ChildrenAfterRemoval | src/SplitPane.ts:230-252 | the children after removing the pane at position `p`: it goes with the element before it, or else with the one after it, or alone; `RemovalSteps` ties it to the one-element removals and `RemovalKeepsShape` proves the shape kept |
| PaneLayout.Without | src/SplitPane.ts:233-252 | `element.remove()` on the child at position `p`: one child fewer, the others in order |
| PaneLayout.TemplateAfterRemoval | src/SplitPane.ts:242-248 | the template after `removePane(idx)`: `remove(idx)`, then `set(idx)` when a next pane existed, else `set(idx - 1)` when a previous one did; `TemplateRemovalKeepsConsistency` states its effect |
| PaneLayout.SplitterAfter | src/SplitPane.ts:159-160 | `insertAdjacentElement('afterend', splitter)` on the child at position `p`; `InterleaveStep` uses it for one loop turn |
| PaneLayout.MountProgress | src/SplitPane.ts:153-162 | the children after `idx` turns of the mount loop: the visited children interleaved, a splitter after the last visited one unless it is the last child, then the unvisited children; the loop invariant of `MountChildren`, with `MountProgressEnds` and `InterleaveStep` |
| PaneLayout.PaneChildren | cypress/e2e/split-pane.cy.ts:30 | the children that appending pane elements `ids` gives, one pane per id in order |
| PaneLayout.MountEstablishesLayoutConsistent | src/SplitPane.ts:148-164 | mounting panes over an empty template, or over one with a non-empty entry per pane, establishes the invariant "well-formed children and one non-empty entry per pane" that `RemovalKeepsLayoutConsistent` preserves |
| PaneLayout.Item | src/SplitPane.ts:215-217 | `NodeList.item(idx)`: the pane at `idx` for `0 <= idx < length`, `None` otherwise |
| PaneLayout.PanePosition | src/SplitPane.ts:219-221 | the child position of pane `idx`: a pane with that id, with exactly `idx` panes before it |
| PaneLayout.WellFormedPanes | src/SplitPane.ts:211-221 | in a well-formed child sequence there are `(n + 1) / 2` panes, and pane `i` sits at position `2 * i` |
| PaneLayout.SplitterBetweenPanes | src/SplitPane.ts:72-77 | in a well-formed sequence, splitter number `k` has pane `k` before it and pane `k + 1` after it: the two entries a resize step writes |
| PaneLayout.RemovalSteps | src/SplitPane.ts:230-252 | removing the previous splitter (or else the next one) and then the pane, one element at a time, gives `ChildrenAfterRemoval` |
| PaneLayout.RemovalShifts | src/SplitPane.ts:230-252 | away from a lone child, removal drops two adjacent children and shifts the later ones down by two |
| PaneLayout.RemovalKeepsOtherPanes | src/SplitPane.ts:230-252 | the panes left after removing pane `idx` are the other panes in their order |
| PaneLayout.RemovalKeepsShape | src/SplitPane.ts:230-252 | removing pane `idx` from a well-formed sequence removes it with its previous splitter (or the next one for the first pane); the result is well-formed, two children shorter (empty after removing the only pane), and holds the other panes in order |
| PaneLayout.TemplateRemovalKeepsConsistency | src/SplitPane.ts:242-250 | with non-empty entries, removing entry `idx` and resetting the bordering entry leaves one entry fewer: the boundary entry is "1fr", every other entry is kept, all are non-empty, and removing the only entry leaves a template that builds to "" |
| PaneLayout.RemovalKeepsLayoutConsistent | src/SplitPane.ts:223-252 | `removePane` on an existing pane keeps the invariant "well-formed children and one non-empty entry per pane" |
| PaneLayout.Interleaved | src/SplitPane.ts:153-162 | after the mount loop, child `i` sits at `2 * i` with a splitter after every child but the last |
| PaneLayout.MountProgressEnds | src/SplitPane.ts:153-162 | before the loop the children are untouched; after the last turn they are `Interleaved` |
| PaneLayout.InterleaveStep | src/SplitPane.ts:158-161 | one turn of the loop inserts a splitter right after the current child unless it is the last |
| PaneLayout.InterleavedWellFormed | src/SplitPane.ts:153-162 | interleaving `n` panes gives a well-formed sequence with the same panes in order and exactly `n - 1` splitters |
| PaneLayout.Filled | src/SplitPane.ts:153-156 | after the loop has visited `k` children, every template index below `k` holds a non-empty entry and the list is no shorter |
| PaneLayout.FilledKeepsEntries | src/SplitPane.ts:153-156 | the loop only inserts "1fr" entries: every old entry survives (multiset inclusion), every other value occurs as often as before, and the entries other than "1fr" keep their order |
| PaneLayout.FilledKeepsComplete | src/SplitPane.ts:153-156 | a template that already has a non-empty entry for every child is left as it is |
| PaneLayout.FilledFromEmpty | src/SplitPane.ts:153-156 | mounting `k` children over an empty template gives `k` entries "1fr" |
| PaneLayout.ClampSizes | src/SplitPane.ts:90-118 | the next pane takes what the previous one gives away; both sizes then lie in `0..bothPaneSize` and sum to `bothPaneSize`; an in-range pointer size is kept; a too small or too large one pins the panes to the ends |
| SplitPanes.SplitPane.constructor | src/SplitPane.ts:201-209 | a template seeded from `template` with splitter "min-content"; `type` and the attribute are set from the given orientation, or left `null`; no drag is active |
| SplitPanes.SplitPane.GetAllPanes | src/SplitPane.ts:219-221 | the non-splitter children; `(n + 1) / 2` of them in a well-formed sequence |
| SplitPanes.SplitPane.Length | src/SplitPane.ts:211-213 | the number of panes; in a well-formed sequence there is one splitter fewer, or none |
| SplitPanes.SplitPane.GetPane | src/SplitPane.ts:215-217 | some pane exactly for `0 <= idx < length`: the child at the position of pane `idx`, which is position `2 * idx` in a well-formed sequence |
| SplitPanes.SplitPane.Mount | src/SplitPane.ts:139-164 | `connectedCallback`: fails with the type error, changing nothing else, unless `type` is "horizontal" or "vertical"; otherwise re-parses the style property, interleaves the children, fills the template, and writes `build()` back |
| SplitPanes.SplitPane.MountChildren | src/SplitPane.ts:153-162 | the loop over the children present at mount time: the children become `Interleaved`, and the template becomes `Filled` over that many children |
| SplitPanes.SplitPane.RemovePane | src/SplitPane.ts:223-257 | returns true iff pane `idx` exists; if it does not, nothing changes; if it does, the children are `ChildrenAfterRemoval`, the template is `TemplateAfterRemoval`, and the style property is `build()` |
| SplitPanes.SplitPane.RemoveSplitterBeside | src/SplitPane.ts:230-240 | removes the element before the pane, or else the one after it (when there is one), and returns the pane's new position |
| SplitPanes.SplitPane.RemoveTrack | src/SplitPane.ts:242-250 | drops entry `idx`; resets entry `idx` when a next pane existed, else entry `idx - 1` when a previous pane existed; writes `build()` back |
| SplitPanes.SplitPane.ResizeFrame | src/SplitPane.ts:71-128 | a no-op without a current splitter; otherwise only entries `idx` and `idx + 1` can change, taking the percentage tokens of the clamped sizes; with a legal orientation those sizes lie in range and sum to the two panes' extent, an in-range pointer size is kept, one below 0 gives 0 and the whole extent, one above the extent gives the whole extent and 0; without a legal orientation both sizes are 0; the style property is `build()` |
| SplitPanes.SplitPane.PointerDown | src/SplitPane.ts:166-183 | on a splitter, records it, its index among the splitters (`(p - 1) / 2` in a well-formed sequence) and the pointer offset on the axis of the orientation; elsewhere nothing changes |
| SplitPanes.SplitPane.PointerUp | src/SplitPane.ts:185-198 | while the pointer is captured, resets the drag state to `null` / `Infinity` / 0; otherwise nothing changes |
| SplitPanes.MountedQueries | src/SplitPane.ts:211-221 | on mounted panes `ids`: `length` is their number, `getPane(i)` is pane `i` below it, and `getPane(length)` and `getPane(-1)` are `null` |
| SplitPanes.ThreePaneQueries | cypress/e2e/split-pane.cy.ts:43-46 | three mounted panes: `length` is 3, `getPane(0..2)` are the panes in order, and `getPane(3)` is `null` |

## Left out

- DOM and custom-element plumbing: `customElements.define`, the `HTMLElement`/`HTMLDivElement` subclassing, the CSS import and `style.setProperty`/`getPropertyValue`. The style slot is the string field `gridTemplateProperty`, and the `type` attribute is the field `typeAttribute`.
- `querySelectorAll` also matches deeper descendants. The model considers direct children only, and it identifies a splitter by its node kind rather than by the `sp-splitter` class.
- Frame scheduling: `resize` with its `requestAnimationFrame`/`cancelAnimationFrame` coalescing, and the `rAf` and `currentResizeEvent` fields. `ResizeFrame` receives the pointer-derived size as a parameter.
- Pointer capture, listener registration, `preventDefault`/`stopPropagation` and the `resizing` class. The handlers keep only their field updates, and capture is a boolean parameter of `PointerUp`.
- Floating-point percentages and their formatting (`${size / wholeSize * 100}%`). They are an opaque `percentage` function parameter of `ResizeFrame`.
- `Math.round` of fractional pointer offsets and element extents. The inputs of `ResizeFrame` are the already-rounded previous-pane size and integer extents. The pointer offsets of `PointerDown` and the field `cursorCorrection` are `real`, stored without rounding as in the source; the rounded difference they take part in is the input `pointerPrevSize`.
- `split("")` splits into UTF-16 code units; `Split` with the empty separator splits into Unicode scalar values, so a character outside the Basic Multilingual Plane gives one piece instead of two lone surrogates. This is reachable only through a `GridTemplate` whose splitter is "".
- The white-space set of `trim` is reduced to ASCII white space, NBSP and BOM.
- NodeList `item` converts its argument to an unsigned 32-bit index. The model treats every negative or too-large index as out of range.
- The `SplitPaneStateChangeEvent` class: nothing in the modelled code dispatches it.
- A pane-insertion method of the element: the element does not have one. Only `GridTemplate.add` is modelled.
- GridTemplates.BuildParseRoundTrip: besides "no entry contains the splitter", it also requires a non-blank splitter with no space. With a space-containing splitter such as "a a", the entries ["a", "a"] build to "a a a a", which re-parses into three pieces.
- SplitPanes.SplitPane.Mount: does not promise one entry per pane. The parsed template may hold more entries than children, and the source keeps them.
- SplitPanes.SplitPane.RemovePane: the invariant "well-formed children and one non-empty entry per pane" is not an ensures of the method. It is the lemma `PaneLayout.RemovalKeepsLayoutConsistent`, about the two functions the method's ensures name.
