# Figma text-layer export, modelled in Dafny

The plugin (`code.js`) takes the frames and groups the user has selected on
the current Figma page, walks each one depth first and collects one flat
record per visible text layer: its id, name, content (with every line feed
rewritten to `<br>`) and its font and spacing attributes. If nothing is
selected, or nothing was found, it posts an error message to its UI;
otherwise it hands the whole list, once, to an uploader that posts it to a
Google Sheets script.

The model has four modules:

- `Newlines` (`newlines.dfy`): the line-feed rewrite, and the
  `split("\n").join("<br>")` reference it is proved equal to.
- `Scene` (`scene.dfy`): the scene node and the exported record, with
  JavaScript's truthiness and `undefined` written out: `lineHeight` and
  `letterSpacing` give `""` when missing, `value` when it is present, and
  `undefined` for the "mixed" symbol or a value-less automatic line height.
  A "mixed" font name gives an undefined family and style.
- `Walk` (`walk.dfy`): the recursive walk, as a function (`TextLayers`) and
  as the plugin runs it (`GetTextLayersInFrame`, with its accumulator and its
  loop over the children). It also has an independent description by
  child-index paths. `Reached` is a node whose ancestors on the path are all
  visible FRAME or GROUP nodes. `Emitted` is a reached node that is itself a
  visible TEXT node. The lemmas prove that the walk returns exactly the
  emitted nodes' records, one each, in pre-order.
- `Extraction` (`extraction.dfy`): the command over the selection, a method
  with its loop, returning an `Outcome`. The outcome is `PostError(message)`
  with the plugin's literal message, or `SendToSheet(records)`. A single
  outcome value means the records are handed off at most once per run.

## Model

| member | source | states |
|---|---|---|
| `Newlines.ReplaceNewlines` | code.js:36 | the exported text holds no line feed, and is 3 characters longer per line feed replaced |
| `Newlines.Split` | code.js:36 | the reference split gives one piece more than there are line feeds, none holding a line feed |
| `Newlines.JoinSplit` | code.js:36 | joining the split pieces with a line feed gives back the original text |
| `Newlines.ReplaceIsSplitJoin` | code.js:36 | replacing every `\n` by `<br>` equals splitting at `\n` and joining with `<br>` |
| `Newlines.ReplaceKeepsSingleLine` | code.js:36 | text without a line feed is exported unchanged |
| `Newlines.ReplaceDistributes` | code.js:36 | the rewrite of a concatenation is the concatenation of the rewrites |
| `Scene.ValueOrBlank` | code.js:42-43 | `""` exactly when the attribute is missing; a number exactly when the attribute has a value, and then that value |
| `Walk.TextLayers` | code.js:25-54 | no record returned by the walk holds a line feed in its text |
| `Walk.ChildLayers` | code.js:48-50 | the accumulator over the first k children holds no line feed in any record's text |
| `Walk.GetTextLayersInFrame` | code.js:25-54 | the plugin's walk, with its accumulator and its loop over the children, returns exactly `TextLayers(node)` |
| `Walk.HiddenOrOtherYieldsNothing` | code.js:28-53 | an invisible node, or a visible node that is neither TEXT nor FRAME/GROUP, yields no record whatever its children |
| `Walk.TextNodeYieldsOneRecord` | code.js:32-46 | a visible TEXT node yields exactly one record with its id and name, rewritten text, font size, font family/style (undefined if mixed), copied alignment/case/decoration, and `ValueOrBlank` spacing |
| `Walk.ContainerConcatenatesChildren` | code.js:47-50 | a visible FRAME or GROUP yields its children's records concatenated in child order and no record of its own |
| `Walk.NotVisitedBelow` | code.js:28-53 | nothing beneath an invisible node, or beneath a node that is not FRAME/GROUP, is visited |
| `Walk.InvisibleSubtreeEmitsNothing` | code.js:28-30 | no invisible node, nor anything beneath one, is emitted |
| `Walk.WalkEnumeratesEmittedNodes` | code.js:25-54 | the i-th record is the record of the i-th emitted node; every emitted node is listed; the list is strictly increasing in pre-order |
| `Walk.RecordCountIsEmittedNodeCount` | code.js:25-54 | the number of records equals the number of distinct visible TEXT nodes reached through visible FRAME/GROUP ancestors |
| `Walk.RecordsComeFromEmittedNodes` | code.js:32-39 | every record, and so every emitted id, is that of an emitted node |
| `Walk.EmittedNodesAreRecorded` | code.js:25-54 | the record of every emitted node is among those returned |
| `Extraction.SelectionLayers` | code.js:63-69 | no accumulated record holds a line feed in its text |
| `Extraction.ExtractTextPropertiesFromFrame` | code.js:56-76 | empty selection posts "No frame selected."; an empty accumulation posts "No text layers found in the selected frame."; otherwise the accumulated records are sent, once |
| `Extraction.SelectionLayersAppend` | code.js:63-69 | the accumulation over two selections in sequence is the first's records followed by the second's |
| `Extraction.SelectionInOrder` | code.js:65-69 | the sent records are the selection items' contributions concatenated in selection order |
| `Extraction.Containers` | code.js:65-66 | only FRAME and GROUP items are kept, and never more items than were selected |
| `Extraction.ContainersKeepEachContainer` | code.js:65-66 | each FRAME or GROUP item is kept exactly as many times as it is selected; every other item is dropped |
| `Extraction.ContainersAppend` | code.js:65-66 | the filter of a concatenation is the concatenation of the filters, so the kept items stay in selection order |
| `Extraction.NonContainersSkipped` | code.js:65-69 | dropping the items that are not FRAME/GROUP from the selection changes nothing |
| `Extraction.SentRecordsComeFromSelection` | code.js:65-74 | every sent record is the record of an emitted node under a selected FRAME or GROUP |
| `Extraction.SelectionRecordsEveryEmittedNode` | code.js:65-74 | the record of every emitted node under a selected FRAME or GROUP is among the sent records |

## Left out

- `sendDataToSheet` (code.js:5-22): an HTTP POST of the JSON-serialised records to a fixed URL, with console logging. This is network I/O. The model stops at the `SendToSheet(records)` outcome.
- `figma.showUI`, `figma.ui.postMessage` and the top-level call (code.js:3, 59, 72, 78): host and UI plumbing. The posted messages are the `PostError` outcome, carrying the literal message text.
- `figma.currentPage.selection` (code.js:57): host state, passed in as the method's parameter.
- Meaning of `fontSize`, `textAlignHorizontal`, `textAlignVertical`, `textCase` and `textDecoration`: the walk copies these through unchanged. The alignment, case and decoration are opaque strings, so a "mixed" value of `textCase` or `textDecoration` is not distinguished from a string.
- Floating point: spacing and font-size values are copied, never computed on, and are modelled as `real`.
- JSON serialisation: record fields that are `undefined` (`Cell.Undefined`, `Option.None`) are kept in the model, though serialisation would drop them.
- Nodes without the attributes the walk reads: a TEXT node always carries its text attributes, and every node carries a (possibly empty) child list. The host guarantees this, so the source's behaviour on a malformed node (a thrown error) is not modelled.
