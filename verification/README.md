# Verified models of code in the Kyty tree

Five pieces of code, each modelled with its own branches, constants and error cases, and the properties
they are there for. Numbers are mathematical integers unless said otherwise.

**The skyline packer** (`imstb_rectpack.h`). `RectPack` is the code itself: node objects, the two linked
lists, the pool, the context, updated in place. A link that the code keeps as the address of a `next`
field or of `active_head` is a reference to the node that owns the field, or null for the head. `Packing`
is one step as a function on values, and the class is proved to follow it. `Skyline` reads the active list
as a height for every column; `Splicing`, `Choosing`, `Runs`, `Grounds` and `Nodes` prove what the step
means, `Outcomes` what a step promises of its answer, in terms of the columns alone, and `Calls` what holds
over any sequence of packing and set-up calls on one context. `Rects` is the array around it, sorted, packed
and put back in order.

**The undo store** (`imstb_textedit.h`). `Undo` and `UndoRuns` are the history as two stacks of edits, with
the limits of the store, and the theorems on runs. `UndoStore` says how the stacks lie in the two arrays,
and `UndoStates` is the store in place, with its moves and loops. `TextEdit` is the editor, whose class
invariant is that undo gives back the texts it should, and redo as far as the session stands; every
operation takes the session on by the steps of `UndoRuns`. `Pasting` is about what pasting and typing over
do, and the undoing of it.

**The sharpening filter** (`ffx_fsr1.h`), over the reals: `Rcas`. **The Lua quoter** (`KytyScripts.cpp`):
`LuaQuote`, with a reader by section 3.1 of the Lua 5.3 Reference Manual. **The decimal parser** (`Cli.cpp`):
`Decimal`, with unsigned 64-bit arithmetic.

Three promises turn out narrower than they are stated, and each has its exact condition here:

* A comment in the packer says that quantised widths make the nodes always suffice
  (`imstb_rectpack.h:254-259`). With the default alignment and either heuristic, they can run out exactly
  when there are fewer nodes than columns (`Nodes.NodesRunOutIff`), and a rectangle is then refused although it fits
  (`Nodes.RefusedWithRoom`).
* An undo followed by a redo is the identity exactly when the undo finds room to save what it deletes
  without discarding a redo record (`UndoRuns.RedoTakesBackIff`, `UndoRuns.RoundTripIff`). When it does
  discard some, the code re-takes its pointer at line 1286, and the slot that redo will read is another one
  than the slot filled in at 1254-1259: it has the form of the newest redo record of before (`FormOf` in
  `UndoRuns`), with the characters just saved. If that is the form that this undo needs, redo still restores
  the text; if not, the undo is called Mismatched, and `UndoRuns.MismatchedReachable` gives a family of
  short runs after which redo is handed a record out of the range of the text. If at least the number of
  characters is right (`Laid`), the store stays laid out, with that record in it; if not, the
  records that later undos discard keep inside the store exactly if that record names fewer characters than
  were saved (`UndoStates.UndoState.DiscardsInsideIff`). In any case the undo itself gives back the right
  text, and the next recorded edit restores everything (`UndoRuns.UndoPastOk`, `UndoRuns.MakeOk`). Whether a
  number of undos will meet the guards can be read off the records beforehand (`UndoRuns.FaithfulIff`,
  `UndoRuns.UndoableIfRoom`, `UndoRuns.RoundTripIfRoom`).
* In insert mode, the record of a typed text says that one character took the place of one. Undo restores
  the text exactly if one character was inserted (`Pasting.OvertypeTakenBackIff`); it does not for a
  character of two or more bytes, which the client passes as that many (`imgui_widgets.cpp:4169`).

The waste that the packer reports is another matter: its scan can report too much on lists that no run
produces (`Skyline.ProbeExactIff` says on which), but it is exact in every state that is reached
(`Calls.ReachableWaste`).

## Model

| member | source | states |
|---|---|---|
| Skyline.ProbeIsTop | source/3rdparty/imgui/imstb_rectpack.h:291-339 | the height the scan returns is the greatest column height of its window, wherever in the first segment the window starts |
| Skyline.ProbeExactIff | source/3rdparty/imgui/imstb_rectpack.h:311-338 | on any list, the reported waste is at least the area between skyline and that height; it is equal exactly if the first node starts the window, stands above 0 or covers the window, or if the last column is at 0 and no node above 0 that ends within the last columns, as many as the first round counted too many, is at or below an earlier one |
| Packing.RoundedIs | source/3rdparty/imgui/imstb_rectpack.h:353-356 | the least multiple of the alignment that holds the width is what the code's arithmetic gives |
| Packing.DefaultAlignLeast | source/3rdparty/imgui/imstb_rectpack.h:254-263 | the alignment that a context starts with is the least width of which numNodes cover the target |
| Splicing.SpliceShape | source/3rdparty/imgui/imstb_rectpack.h:464-523 | the splice leaves x strictly rising from 0 to the sentinel at the width, and active nodes gained plus nodes freed come to one |
| Splicing.SpliceHeights | source/3rdparty/imgui/imstb_rectpack.h:475-499 | after the splice each column on the raised stretch has the new top and every other column its old height; the stretch is the rectangle itself unless a right-aligned position was rounded up past the next node |
| Splicing.RaisedPast | source/3rdparty/imgui/imstb_rectpack.h:475-499 | the columns raised beyond the rectangle were level with the column at its left edge |
| Splicing.RaisedSum | source/3rdparty/imgui/imstb_rectpack.h:464-499 | the sum of the column heights grows by the area between the old skyline and the new top |
| Choosing.SlideLeft | source/3rdparty/imgui/imstb_rectpack.h:365-389 | moving any window left to the node under its left edge does not raise its height |
| Choosing.SlideToEdge | source/3rdparty/imgui/imstb_rectpack.h:393-408 | every window can slide to one with an edge at a node that is no worse: lower, or as low and wasting less, or as much and not further right |
| Choosing.BottomLeftLeast | source/3rdparty/imgui/imstb_rectpack.h:365-391 | bottom-left finds the least (y, x) over all integer positions, not only node positions |
| Choosing.BestFitLeast | source/3rdparty/imgui/imstb_rectpack.h:365-441 | best-fit finds the least (y, reported waste, x) over all left-aligned and right-aligned positions that fit vertically |
| Choosing.NoneLower | source/3rdparty/imgui/imstb_rectpack.h:347-447 | with either heuristic nothing that fits, at any integer position, is lower than what is found |
| Choosing.SearchTop | source/3rdparty/imgui/imstb_rectpack.h:347-447 | what is found is inside the target, and its y is the greatest column height of its window |
| Choosing.SearchFailsIff | source/3rdparty/imgui/imstb_rectpack.h:358-363 | the search gives a position with room exactly if some position of the target has room |
| Choosing.PackFailsIff | source/3rdparty/imgui/imstb_rectpack.h:455-462 | packing fails exactly if no node is free or the rectangle, at its rounded width, fits nowhere |
| Runs.ServeOk | source/3rdparty/imgui/imstb_rectpack.h:449-526 | every step keeps the shape, numNodes+2 nodes in all, every placed box inside, under the skyline and apart from the others, and the placed area at most the sum of the heights |
| Runs.ReconfigureOk | source/3rdparty/imgui/imstb_rectpack.h:233-263 | heuristic and alignment may be changed between calls |
| Grounds.GroundedWaste | source/3rdparty/imgui/imstb_rectpack.h:311-338 | where only the last stretch can be at height 0, every attempt, left-aligned or right-aligned, reports its exact waste |
| Grounds.GroundChoice | source/3rdparty/imgui/imstb_rectpack.h:378-386 | at height 0 the search never chooses a position away from the left edge of the stretch |
| Grounds.ServeGrounded | source/3rdparty/imgui/imstb_rectpack.h:449-526 | every step, with either heuristic and any alignment, leaves only the last stretch at height 0 |
| Grounds.LeastAreaWasted | source/3rdparty/imgui/imstb_rectpack.h:365-441 | best-fit then finds the least (y, area wasted, x) over every integer position at which the rectangle fits, not only those it tries |
| Outcomes.PackOutcome | source/3rdparty/imgui/imstb_rectpack.h:449-526 | a step refuses exactly for the reason stated, without change; or the box stands at the position that the chosen heuristic asks for, out of all integer positions at the rounded width: with bottom-left the least (y, x), with best-fit the least (y, area wasted, x) of those that fit; y is the greatest column height there, the skyline is raised to its top, and the waste grows by the area under it |
| Calls.RunSafe | source/3rdparty/imgui/imstb_rectpack.h:233-263 | after every sequence of packing and set-up calls, all placed boxes are inside the target, no two overlap, and their area is at most width times height |
| Calls.RunIsCalls | source/3rdparty/imgui/imstb_rectpack.h:558-570 | serving rectangles in a row is a sequence of calls, so what holds over these holds for the array |
| Calls.ReachableWaste | source/3rdparty/imgui/imstb_rectpack.h:311-338 | in every state such a sequence reaches, each attempt at any width reports exactly the area it would waste |
| Calls.ReachableBestFit | source/3rdparty/imgui/imstb_rectpack.h:365-441 | in every such state best-fit finds the least (y, area wasted, x) over every integer position at which the rectangle fits |
| Calls.RunConserves | source/3rdparty/imgui/imstb_rectpack.h:311-338 | over every such sequence that packs at alignment 1, with either heuristic, the sum of the heights is the area placed plus the waste reported |
| Nodes.NodesSuffice | source/3rdparty/imgui/imstb_rectpack.h:245-263 | with at least as many nodes as columns a node is free in every reachable state |
| Nodes.RoomyFailsIff | source/3rdparty/imgui/imstb_rectpack.h:455-462 | then packing fails exactly if the rectangle, at its own width, fits nowhere |
| Nodes.NodesRunOutIff | source/3rdparty/imgui/imstb_rectpack.h:254-261 | with the default alignment and either heuristic, some run uses up the free list exactly if there are fewer nodes than columns |
| Nodes.RefusedWithRoom | source/3rdparty/imgui/imstb_rectpack.h:455-462 | a unit square is then refused although position 0 has room for its rounded width |
| RectPack.FindMinY | source/3rdparty/imgui/imstb_rectpack.h:291-339 | the walk over linked nodes returns the height and waste of the scan on values |
| RectPack.SearchLeft | source/3rdparty/imgui/imstb_rectpack.h:365-389 | the first loop ends with the choice among all left-aligned attempts, and the link that leads to it |
| RectPack.SearchRight | source/3rdparty/imgui/imstb_rectpack.h:410-441 | the two-finger loop never runs off the list, makes every right-aligned attempt, and ends with the choice among them |
| RectPack.FreeCovered | source/3rdparty/imgui/imstb_rectpack.h:485-493 | the covered nodes, and no others, are pushed on the free list one after the other |
| RectPack.SpliceLists | source/3rdparty/imgui/imstb_rectpack.h:464-499 | the pointer updates leave two linked lists without a common or repeated node, the active one showing the spliced skyline |
| RectPack.Context.InitTarget | source/3rdparty/imgui/imstb_rectpack.h:265-288 | a fresh context is valid and stands for the empty target with all pool nodes free |
| RectPack.Context.SetupHeuristic | source/3rdparty/imgui/imstb_rectpack.h:233-243 | only the heuristic changes, and the context stays valid |
| RectPack.Context.SetupAllowOutOfMem | source/3rdparty/imgui/imstb_rectpack.h:245-263 | the alignment becomes 1 or the width over the nodes, rounded up, and the context stays valid |
| RectPack.Context.FindBestPos | source/3rdparty/imgui/imstb_rectpack.h:347-447 | the position, and the link to its node, are those of the search on values; with room it is the position that the chosen heuristic asks for, out of all integer positions, and without, the rectangle fits nowhere |
| RectPack.Context.PackRectangle | source/3rdparty/imgui/imstb_rectpack.h:449-526 | every call that succeeds puts the box at the position that the chosen heuristic asks for, as in `Outcomes.PackOutcome`, and every one that is refused changes nothing; the context stays valid |
| Rects.UnsortRestores | source/3rdparty/imgui/imstb_rectpack.h:550-573 | sorting by the labels brings each rectangle back to its own place, whatever the two sorts did with ties |
| Rects.PackSorted | source/3rdparty/imgui/imstb_rectpack.h:558-570 | the loop serves the rectangles in order; each gets the answer that the target gives at its turn, each box added belongs to one of them, and only x and y change |
| Rects.PackRects | source/3rdparty/imgui/imstb_rectpack.h:546-584 | slot i keeps its id, w and h; the target served the rectangles by falling height and then width; each slot has the answer given at its turn, placed, empty or refused, and each box added is that of one slot; wasPacked is 1 exactly for empty and placed ones; the answer is true exactly if all are 1 |
| Rects.RefusedIff | source/3rdparty/imgui/imstb_rectpack.h:563-569 | a slot that is not empty reports a refusal exactly if no node was free or it fitted nowhere when its turn came; otherwise its box was added |
| Rects.PackedApart | source/3rdparty/imgui/imstb_rectpack.h:546-584 | rectangles reported as placed by any calls on one context lie inside the target and have no pixel in common |
| Rects.SortDecidesNothing | source/3rdparty/imgui/imstb_rectpack.h:555-556 | any two orders by falling height and width lead to the same state of the target, so the routine does not matter |
| Undo.SplicedIs | source/3rdparty/imgui/imgui_widgets.cpp:4058-4098 | deleting and inserting characters leaves what is before, what is put in, and what is after |
| Undo.EditsAre | source/3rdparty/imgui/imgui_widgets.cpp:4058-4098 | carrying out an edit, a deletion or an insertion leaves the text before, what is put in, and the text after |
| Undo.ReverseTakesBack | source/3rdparty/imgui/imstb_textedit.h:1253-1304 | the record made for an edit takes it back, and its own record is the edit again |
| Undo.RecordedKeeps | source/3rdparty/imgui/imstb_textedit.h:1201-1243 | a new record goes behind the longest run of latest records that leaves it room; all go only for an edit too large to store |
| Undo.ShedKeeps | source/3rdparty/imgui/imstb_textedit.h:1279-1285 | no more redo records are discarded than needed, and from the oldest end |
| UndoRuns.MakeKeeps | source/3rdparty/imgui/imstb_textedit.h:1225-1243 | a recorded edit can be undone, and after it all that was kept; redo is empty |
| UndoRuns.UndoPastOk | source/3rdparty/imgui/imstb_textedit.h:1245-1311 | every undo, whatever it leaves for redo, gives back the latest text of the past and keeps the undo stack within the store and true |
| UndoRuns.UndoKeeps | source/3rdparty/imgui/imstb_textedit.h:1245-1311 | an undo gives back the latest text of the past; unless it is Mismatched, it leaves both stacks within the store and true |
| UndoRuns.RedoKeeps | source/3rdparty/imgui/imstb_textedit.h:1313-1362 | a redo inside the text finds room, gives back the next text of the future where that is known, and leaves both stacks within the store and true |
| UndoRuns.RedoPastOk | source/3rdparty/imgui/imstb_textedit.h:1313-1362 | a redo with room for its undo record keeps the undo stack true, even after a Mismatched undo |
| UndoRuns.KeptLongest | source/3rdparty/imgui/imstb_textedit.h:1270-1285 | an undo keeps the longest run of newest redo records that leaves room for what it saves, and all of them if it saves nothing |
| UndoRuns.MakeOk | source/3rdparty/imgui/imstb_textedit.h:1201-1243 | from any state whose undo stack is true, the next recorded edit makes both stacks true |
| UndoRuns.RunOk | source/3rdparty/imgui/imstb_textedit.h:1201-1362 | every run of edits, and of undos and redos where the store is laid out, keeps the past true; as long as no undo since the last edit was Mismatched, both stacks are true, and redo never takes its branch without room, as its comment claims |
| UndoRuns.UndoReplays | source/3rdparty/imgui/imstb_textedit.h:1245-1311 | m undos, of which only the last may leave the store not Laid, give back the text from m kept edits earlier |
| UndoRuns.EditsReplay | source/3rdparty/imgui/imstb_textedit.h:1201-1311 | after any run of recorded edits, m such undos give back exactly the text from m edits earlier |
| UndoRuns.RedoTakesBack | source/3rdparty/imgui/imstb_textedit.h:1245-1362 | redo takes back an undo that saved what it deleted and is not Mismatched: text and undo stack are restored, and the redo stack but for what was discarded |
| UndoRuns.RedoTakesBackIff | source/3rdparty/imgui/imstb_textedit.h:1270-1285 | undo then redo restores the whole state exactly if nothing is deleted, or the deleted characters fit below 999 and below the redo characters; unless the undo is Mismatched, it restores the text exactly if the first of these |
| UndoRuns.LossyLosesText | source/3rdparty/imgui/imstb_textedit.h:1272-1274 | after an undo without room to save, redo only deletes: it gives the text of before without the characters that were not saved |
| UndoRuns.NoRoomUndone | source/3rdparty/imgui/imstb_textedit.h:1331-1338 | undoing a redo without room changes nothing in the text |
| UndoRuns.MismatchedLosesText | source/3rdparty/imgui/imstb_textedit.h:1279-1286 | where the slot names another number of characters to delete than the undo inserted, redo does not restore the text |
| UndoRuns.RoundTrip | source/3rdparty/imgui/imstb_textedit.h:1245-1362 | m undos under those guards, then m redos, are the identity on text, records, characters and points |
| UndoRuns.RoundTripIff | source/3rdparty/imgui/imstb_textedit.h:1245-1362 | m undos, then m redos that each stay inside the text, are the identity exactly if each of the undos meets the guards |
| UndoRuns.FaithfulIff | source/3rdparty/imgui/imstb_textedit.h:1270-1285 | each of m undos meets the guards exactly if the lengths in the latest m records say so, before any is carried out |
| UndoRuns.UndoableIfRoom | source/3rdparty/imgui/imstb_textedit.h:1245-1311 | where the records have room for all but the last of m undos, the undos can follow each other |
| UndoRuns.RoundTripIfRoom | source/3rdparty/imgui/imstb_textedit.h:1245-1362 | m undos, then m redos, are the identity exactly if the records have room for all m |
| UndoRuns.MismatchedReachable | source/3rdparty/imgui/imstb_textedit.h:1279-1286 | runs of two insertions and an undo, after which the next undo leaves a redo record that is out of range of the text; the store stays laid out only if both insertions are equally long |
| UndoStore.UndoSideDrop | source/3rdparty/imgui/imstb_textedit.h:1149-1165 | when the oldest undo record goes, every surviving one still holds its own characters |
| UndoStore.RedoSideDrop | source/3rdparty/imgui/imstb_textedit.h:1171-1199 | the same for the oldest redo record at the other end |
| UndoStore.PointInsideIff | source/3rdparty/imgui/imstb_textedit.h:1171-1199 | with one record in front of the others, no number of discards takes redo_char_point out of the array, exactly if that record claims no more characters than it has |
| UndoStates.UndoState.Clear | source/3rdparty/imgui/imstb_textedit.h:1390-1395 | the cleared store holds nothing |
| UndoStates.UndoState.FlushRedo | source/3rdparty/imgui/imstb_textedit.h:1142-1146 | the redo side is empty, whatever it held |
| UndoStates.UndoState.DiscardUndo | source/3rdparty/imgui/imstb_textedit.h:1149-1165 | the oldest undo goes, all others keep their characters, and an empty stack is left alone |
| UndoStates.UndoState.DiscardRedo | source/3rdparty/imgui/imstb_textedit.h:1171-1199 | the oldest redo goes, nothing in front of the redo side changes, and the slot it leaves keeps the form of the newest record |
| UndoStates.UndoState.MakeRedoRoom | source/3rdparty/imgui/imstb_textedit.h:1278-1285 | the loop ends with room, having shed just the redo records it must; its "should never happen" return is dead |
| UndoStates.UndoState.CreateUndoRecord | source/3rdparty/imgui/imstb_textedit.h:1201-1223 | the room-making loop ends for every state and size, with the oldest records gone and room for the characters, or refuses and clears |
| UndoStates.UndoState.CreateUndo | source/3rdparty/imgui/imstb_textedit.h:1225-1243 | the record is on top of the stack, its characters to be written where the result says |
| UndoStates.UndoState.Undo | source/3rdparty/imgui/imstb_textedit.h:1245-1311 | text, cursor and undo stack are those of the step on values; the slot that redo reads has the characters saved and the place and lengths of FormOf, in front of the records kept; if Laid, the whole store stands for the step on values |
| UndoStates.UndoState.DiscardsInsideIff | source/3rdparty/imgui/imstb_textedit.h:1171-1199 | after an undo that saved characters, discarding redo records never takes redo_char_point out of the array, exactly if the slot names no more characters than were saved |
| UndoStates.UndoState.Redo | source/3rdparty/imgui/imstb_textedit.h:1313-1362 | text, cursor and both stacks are those of the step on values, its branch without room included |
| UndoStates.UndoState.MakeundoInsert | source/3rdparty/imgui/imstb_textedit.h:1364-1367 | the record of an insertion is on the stack |
| UndoStates.UndoState.MakeundoDelete | source/3rdparty/imgui/imstb_textedit.h:1369-1377 | the record of a deletion is on the stack, with the characters it deletes |
| UndoStates.UndoState.MakeundoReplace | source/3rdparty/imgui/imstb_textedit.h:1379-1387 | the record of a replacement is on the stack, with the characters it replaces |
| TextEdit.Editor.Initialize | source/3rdparty/imgui/imstb_textedit.h:1390-1411 | an initialised editor is valid, with nothing to undo or redo |
| TextEdit.Editor.Clamp | source/3rdparty/imgui/imstb_textedit.h:581-592 | cursor and each end of the selection become the lesser of themselves and the length of the text, and a selection that collapses takes the cursor along; the span they name is the same |
| TextEdit.Editor.Delete | source/3rdparty/imgui/imstb_textedit.h:595-600 | the deletion is carried out and recorded as one edit, after any undo |
| TextEdit.Editor.DeleteSelection | source/3rdparty/imgui/imstb_textedit.h:603-616 | what is between the two ends of the selection, in either direction and clamped, is deleted as one edit, what is before and after stays, and the cursor is where it was |
| TextEdit.Editor.Cut | source/3rdparty/imgui/imstb_textedit.h:711-719 | if something is selected, cut leaves what is before and after it; if not, nothing changes |
| TextEdit.Editor.Paste | source/3rdparty/imgui/imstb_textedit.h:722-736 | the text is what was before the selection or cursor, the pasted text, what was after; the cursor is at its end, and nothing is selected; without room the deletion alone remains |
| TextEdit.Editor.Type | source/3rdparty/imgui/imstb_textedit.h:743-765 | the typed text replaces the selection, or the character at the cursor in insert mode; no newline first in single-line mode |
| TextEdit.Editor.TypeOver | source/3rdparty/imgui/imstb_textedit.h:749-755 | in insert mode one character gives way to the text typed, and the record says one for one, whatever is inserted, or nothing; for one character that is the edit |
| TextEdit.Editor.Undo | source/3rdparty/imgui/imstb_textedit.h:1245-1311 | undo gives back the latest text of the past, puts the cursor behind what came back, and takes the session on by the step on values, Mismatched or not; the invariant is kept |
| TextEdit.Editor.Redo | source/3rdparty/imgui/imstb_textedit.h:1313-1362 | a redo inside the text takes text and store on by the step on values, puts the cursor behind what came back, and gives back the next text of the future where that is known; the invariant is kept unless the branch without room is taken |
| Pasting.PasteText | source/3rdparty/imgui/imstb_textedit.h:722-736 | the delete and insert that a paste records put the pasted text in the place of the selection |
| Pasting.UndoPasteOver | source/3rdparty/imgui/imstb_textedit.h:1225-1311 | two undos take back a paste over a selection of at most 999 characters, and never discard a redo record |
| Pasting.UndoPasteIff | source/3rdparty/imgui/imstb_textedit.h:1211-1216 | some number of undos gives back the text before a paste exactly if the selection fits the store |
| Pasting.OvertypeTakenBackIff | source/3rdparty/imgui/imstb_textedit.h:749-755 | undo takes back an insert-mode insertion exactly if one character was inserted, not more, and not none because it was refused |
| Rcas.LimiterIs | source/3rdparty/fidelityfx_fsr1/ffx_fsr1.h:748-758 | a lobe is within a channel's limit exactly if it meets two bounds without division |
| Rcas.LimiterByTaps | source/3rdparty/fidelityfx_fsr1/ffx_fsr1.h:741-758 | a lobe is within a channel's limit exactly if any of the five taps would keep from clipping in a ring that is as bright all round as any one tap of the ring |
| Rcas.NoiseBounds | source/3rdparty/fidelityfx_fsr1/ffx_fsr1.h:736-739 | the noise factor lies between a half and one, whatever the approximate reciprocal gives |
| Rcas.NoiseIs | source/3rdparty/fidelityfx_fsr1/ffx_fsr1.h:731-739 | with the exact reciprocal of the luma range, the share that noise removal takes, doubled, is how far the pixel stands out of the mean of its ring, as a part of that range |
| Rcas.LobeBounds | source/3rdparty/fidelityfx_fsr1/ffx_fsr1.h:756-765 | the shared lobe lies in [-3/16, 0], within all three channels' limits, and the denominator is at least 1/4 |
| Rcas.LobeStrongest | source/3rdparty/fidelityfx_fsr1/ffx_fsr1.h:756-759 | the lobe before scaling is the most negative one from -3/16 up to 0 that all three channels allow |
| Rcas.LobeScales | source/3rdparty/fidelityfx_fsr1/ffx_fsr1.h:759-763 | the shared lobe is that one times the sharpness and, with noise removal, its factor |
| Rcas.NewtonBounds | source/3rdparty/fidelityfx_fsr1/ffx_a.h:1844 | one Newton step from any seed with 0 <= seed * a <= 2 does not overshoot the reciprocal, and squares the error |
| Rcas.NeverClips | source/3rdparty/fidelityfx_fsr1/ffx_fsr1.h:736-768 | the denominator is at least 1/4 and all three outputs lie in [0, 1], for every usable pixel and sharpness, with or without noise removal, with the exact reciprocal or a Newton step |
| Rcas.FlatExact | source/3rdparty/fidelityfx_fsr1/ffx_fsr1.h:748-768 | around a flat ring the limiter lets through exactly the lobes that do not clip |
| Rcas.Moves | source/3rdparty/fidelityfx_fsr1/ffx_fsr1.h:764-768 | a pixel moves by the lobe times the sum of its distances to the four taps, over the denominator |
| Rcas.Sharpens | source/3rdparty/fidelityfx_fsr1/ffx_fsr1.h:764-768 | a pixel never moves towards the mean of its ring, and one that equals it stays |
| LuaQuote.QuoteLuaString | source/KytyScripts.cpp:75-103 | the loop builds the quoted string |
| LuaQuote.ReadEscaped | source/KytyScripts.cpp:81-99 | each character is read back from its escape, and nothing behind it is consumed, digits included |
| LuaQuote.ReadQuoted | source/KytyScripts.cpp:75-117 | reading a quoted string, whatever follows it, consumes exactly it and gives the string back |
| LuaQuote.QuotedApart | source/KytyScripts.cpp:75-103 | quoting is injective, and no quoted string is a proper beginning of another |
| LuaQuote.NoControls | source/KytyScripts.cpp:91-94 | no control character, and so no line break, is left between the quotes |
| LuaQuote.EscapeForms | source/KytyScripts.cpp:81-99 | a printable character other than quote and backslash stands for itself; these two and five controls have an escape of one letter, all other controls one of three digits |
| Decimal.ParseDecimalUnsigned | source/agent/src/Cli.cpp:219-241 | success exactly on non-empty all-digit strings of any length with a value of at most 2^64-1; the value is stored then, and nothing otherwise; no step overflows |
| Decimal.PrintedValue | source/agent/src/Cli.cpp:219-241 | the parser inverts decimal printing for every number in range, and refuses all above |
| Decimal.ParsedPrinted | source/agent/src/Cli.cpp:219-241 | printing gives back what was parsed exactly if that has no leading zero |

## Left out

- Packer: coordinates and products are mathematical integers, so overflow of `int` is not modelled; sides are not negative, the height is at most 2^30, and there is at least one node.
- Packer: `STBRP_SORT` is a routine chosen by the client; an insertion sort stands for it, and callers rely only on its result being an ordered permutation.
- Packer: `Splicing.SpliceHeights` at an alignment above 1 states the stretch that best-fit raises beyond the rectangle, rather than that there is none.
- UndoStates.UndoState.Undo: after an undo that is not Laid the store has a slot that belongs to no edit; what later redos and undos read from it is not modelled, beyond `UndoStates.UndoState.DiscardsInsideIff`.
- UndoRuns.RunOk: after an undo that is not Laid, a run has no further undo or redo before the next edit, which restores the store; what the code does with it until then is not modelled. Nor is a redo without room, which only a Mismatched undo can lead to, followed further: its record does not lead back (`UndoStates.UndoState.Redo` has the redo itself).
- Undo: the client's `INSERTCHARS` and `DELETECHARS` succeed in undo and redo; in pasting and typing its refusal is the parameter `accepts`.
- TextEdit.Editor.Undo: for the same reason undo and redo are not called on the editor after an undo that is not Laid, until the next edit.
- TextEdit.Editor.Type: after an insert-mode insertion of other than one character, only text and store are described, since the record does not lead back.
- TextEdit: mouse, keys, word moves, row layout and the preferred column are not modelled.
- Rcas.NeverClips: floating-point rounding, and rings that are all 0 or all 1 in a channel, where the reciprocal of zero is taken.
- Rcas: the bit trick behind the seed of the Newton step, the exponential that gives the sharpness, the optional input transform, the alpha path and the 16-bit versions are not modelled.
- FSR: upscaling (EASU), film grain, dither and colour conversion are not modelled.
- LuaQuote: characters are code points; their UTF-8 encoding and the escape `\u{...}`, which quoting never writes, are not modelled, nor is running the script line around the literal.
- Decimal: the rest of the command line, and printing as any particular routine does it.
