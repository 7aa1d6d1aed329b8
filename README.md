# Quote block: citation visibility

A model of the editing widget of the block editor's quote block
(`QuoteEdit` in `packages/block-library/src/quote/edit.js`). The widget keeps
a local flag `withCitation` (the user asked for a citation field) beside two
persisted block attributes, `citation` and `align`. It decides from these and
from the editor's selection whether the citation field is rendered, and it
changes them through four handlers: the mount effect, the citation toolbar
button, the citation field's change handler and the alignment toolbar.

- `wrappers.dfy`: `Option`, for an attribute that may be unset.
- `quote_state.dfy` (module `QuoteState`): the state as a value, one function per
  handler, the visibility rule, the `has-text-align-*` class rule and what the
  widget renders.
- `quote_editor.dfy` (module `QuoteEditor`): class `QuoteEdit`, whose fields are
  the flag and the attributes and whose methods are the handlers, each specified
  by the matching `QuoteState` function. Three client methods replay the usual
  scenarios: adding a citation, removing one, toggling three times.
- `quote_session.dfy` (module `QuoteSession`): a widget's life as a sequence of
  events after the first render, and what holds over every such sequence.

The mount effect runs once per widget. The model makes this explicit with a
`mounted` field: a second `Init` changes nothing. An edit reaches the citation
field's handler only while the field is rendered (edit.js:87). So in a session,
an edit made under a selection that hides the field is a no-op. The class
method `EditCitation` is the handler itself and is not gated.

Over every session the model proves these facts:
- citation text implies `withCitation`, so selecting the block never hides a
  citation that was shown while the block was not selected;
- the flag is the initial "has text" flipped once per click;
- the alignment is the last one chosen;
- the citation text is the block's own, empty, or the text of some edit.

## Model

| member | source | states |
|---|---|---|
| `QuoteState.AlignClass` | packages/block-library/src/quote/edit.js:38-40 | the wrapper gets a class exactly when `align` is set, and that class starts with `has-text-align-` followed by a non-empty alignment name |
| `QuoteState.AlignOfClass` | packages/block-library/src/quote/edit.js:38-40 | a class name read back as an alignment is the class that alignment produces |
| `QuoteState.AlignClassRoundTrip` | packages/block-library/src/quote/edit.js:38-40 | the `has-text-align-<align>` class is present exactly when `align` is set, and it names that alignment |
| `QuoteState.AlignClassInjective` | packages/block-library/src/quote/edit.js:38-40 | equal classes come from equal alignments |
| `QuoteState.Initial` | packages/block-library/src/quote/edit.js:35-36 | the first render has the flag off, the effect not yet run, and the block's own citation and alignment |
| `QuoteState.AfterMount` | packages/block-library/src/quote/edit.js:48-53 | the mount effect only ever turns the flag on, does so exactly when the citation has text, does nothing once mounted, and keeps both attributes |
| `QuoteState.AfterToggle` | packages/block-library/src/quote/edit.js:73-79 | a click negates the flag, empties the citation when the flag was on, keeps it when off, and never touches `align` |
| `QuoteState.Visible` | packages/block-library/src/quote/edit.js:55-58 | while the block or a descendant is selected, the field is rendered exactly when the flag is on; otherwise exactly when the citation is non-empty |
| `QuoteState.VisibleWhenFocused` | packages/block-library/src/quote/edit.js:56-58 | while the block or a descendant is selected, visibility equals the flag whatever the text |
| `QuoteState.VisibleWhenUnfocused` | packages/block-library/src/quote/edit.js:55 | otherwise visibility is "the citation is non-empty" whatever the flag |
| `QuoteState.ToggleTwice` | packages/block-library/src/quote/edit.js:74-78 | two clicks restore the flag and everything else, except the citation, which ends up empty |
| `QuoteState.AfterEdit` | packages/block-library/src/quote/edit.js:91-95 | an edit sets the citation to exactly the new text and changes nothing else |
| `QuoteState.AfterAlign` | packages/block-library/src/quote/edit.js:65-67 | an alignment change sets `align` to exactly the new value and changes nothing else |
| `QuoteState.Render` | packages/block-library/src/quote/edit.js:37-108 | the button is pressed exactly when the flag is on; the wrapper class is there exactly when `align` is set and names it; while selected the field shows exactly when the button is pressed; otherwise it shows exactly when the text is non-empty; a shown field holds the citation and the block's alignment |
| `QuoteEditor.QuoteEdit.constructor` | packages/block-library/src/quote/edit.js:35-36 | a new widget starts with the flag off, not yet mounted, and the block's attributes |
| `QuoteEditor.QuoteEdit.Init` | packages/block-library/src/quote/edit.js:48-53 | the first call turns the flag on when the citation has text and otherwise leaves it; later calls change nothing; attributes unchanged |
| `QuoteEditor.QuoteEdit.Toggle` | packages/block-library/src/quote/edit.js:73-79 | the flag is negated; switching off empties the citation; switching on keeps it; `align` unchanged |
| `QuoteEditor.QuoteEdit.EditCitation` | packages/block-library/src/quote/edit.js:91-95 | the citation becomes the new text; flag and `align` unchanged |
| `QuoteEditor.QuoteEdit.SetAlign` | packages/block-library/src/quote/edit.js:65-67 | `align` becomes the new value; flag and citation unchanged |
| `QuoteEditor.QuoteEdit.Visible` | packages/block-library/src/quote/edit.js:55-58 | selected (the block or a descendant): the flag; not selected: the citation is non-empty |
| `QuoteEditor.QuoteEdit.ToggleActive` | packages/block-library/src/quote/edit.js:71 | the button's pressed state is the flag, the same as `QuoteState.Render` shows under every selection |
| `QuoteSession.Step` | packages/block-library/src/quote/edit.js:48-95 | one event; an edit takes effect only while `Visible` holds for its selection, because the field and its change handler are rendered only then (edit.js:87); only a click or the mount effect changes the flag, only a click or a rendered edit changes the citation, only the alignment toolbar changes `align` |
| `QuoteSession.MountRunsOnce` | packages/block-library/src/quote/edit.js:48-53 | once mounted, removing every later mount effect from a session changes nothing |
| `QuoteSession.MountSetsFlag` | packages/block-library/src/quote/edit.js:48-53 | right after mounting, the flag is on exactly when the block's citation has text, and the attributes are the block's |
| `QuoteSession.FlagParity` | packages/block-library/src/quote/edit.js:73-79 | after mounting, the flag is its starting value flipped once per click, and nothing else changes it |
| `QuoteSession.SessionFlag` | packages/block-library/src/quote/edit.js:48-79 | in a session, the flag is "the block had a citation" flipped once per click |
| `QuoteSession.AlignFollowsLastChange` | packages/block-library/src/quote/edit.js:65-67 | `align` is the last alignment chosen, or the block's own if none was |
| `QuoteSession.CitationOrigin` | packages/block-library/src/quote/edit.js:73-95 | the citation is the block's own, empty, or the text of some edit |
| `QuoteSession.StepKeepsConsistent` | packages/block-library/src/quote/edit.js:48-95 | every handler keeps "mounted, and citation text implies the flag" |
| `QuoteSession.RunKeepsConsistent` | packages/block-library/src/quote/edit.js:48-95 | so does every sequence of events |
| `QuoteSession.SessionConsistent` | packages/block-library/src/quote/edit.js:35-95 | every state of a session has "citation text implies the flag" |
| `QuoteSession.SelectingNeverHides` | packages/block-library/src/quote/edit.js:55-58 | in a session, a citation shown while the block is not selected is still shown under any selection |
| `QuoteSession.StaysHidden` | packages/block-library/src/quote/edit.js:55-95 | an empty citation with the flag off stays hidden under every selection through any events without a click |
| `QuoteSession.ToggleOffHides` | packages/block-library/src/quote/edit.js:73-79 | a click that switches the citation off leaves it empty, and it stays hidden under every selection until the next click |

## Left out

- Rendering through `BlockControls`, `AlignmentToolbar`, `ToolbarButton`, `BlockQuotation` and `RichText`: UI components whose contracts live in other packages. `QuoteState.Render` keeps only what this file decides.
- `RichText.isEmpty`: a call into another package, modelled as "the string is empty".
- The selection query `hasSelectedInnerBlock` (edit.js:44-46): the editor's store; it is an input boolean (`Focus.isAncestorOfSelected`).
- `useBlockProps`, `useInnerBlocksProps`, `mergedStyle` and merging with `className`: framework plumbing. Only the `has-text-align-*` rule is kept.
- Splitting at the end of the citation (edit.js:104-106): it creates a paragraph block through another package.
- Translated strings.
- React's scheduling and batching: the two updates of a click are one atomic step.
- `align` is modelled as the three values the alignment toolbar offers; an arbitrary string stored in the attribute is not modelled.
- QuoteEditor.QuoteEdit.Init: reads the citation when it runs, while the effect reads the value captured at the first render. The two agree whenever the effect runs before any other event, which is how every session here starts.
- QuoteSession.SessionConsistent: holds only while the attributes change through this widget. Undo or another writer can put text back while the flag is off. Such writers are not modelled.
- The toolbar controls appear only while the block is selected. Sessions do not enforce this; no lemma depends on it.
