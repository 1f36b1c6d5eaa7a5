# Butialo: replicated data, balanced lists, code generation and framing

A Dafny model of the parts of the Butialo repository whose correctness is hardest to see from the code, with
proofs of what they promise:

- **groupthink**, the replicated data structures of the Butialo editor: sorted sets, a dictionary and a tree that
  converge on what their messages say, and a collaborative text buffer over a list with hidden elements. That
  list exists in a plain form and in a fast one, over an AA tree with parent pointers and annotations.
- **Lua 5.1**, as bundled: the generator's jump lists and short-circuit conditions, the bytecode checker, the table
  of references.
- The **serial framing** between computer and board, and the reading and printing of **HEX files** in the firmware
  uploader.

Objects that the program updates in place are classes with its fields; its loops are loops with invariants. Beside
each class stands the value it represents (a listing, a set of commands, a state), and what is promised over whole
runs is proved about those values and stated again on methods that drive the classes. Random draws (ids, salts),
the bytes that arrive before a timeout and the border that the length of a Lua table gives are parameters.

`dafny verify dfyconfig.toml` checks everything.

| file | module | about |
|---|---|---|
| ListSet, TreeCommands, Clock, CausalTree | ListSets, TreeCommands, Clock, CausalTrees | timelines, commands with undo, the replicated tree |
| CausalDict | CausalDicts | the replicated dictionary |
| AATree, AAMonoidTree | AATrees, AAMonoidTrees | balance as a function on values, and its update in place |
| HideList, EagerHideList, TreeHideList, HideListAgreement | HideLists, EagerHideLists, TreeHideLists, HideListAgreement | lists with hidden elements |
| StringOrder, StringShape, StringDeletion, StringConvergence, StringWalk, StringRuns, StringTyping, StringHistory, StringCounterexamples | same names | records, document order, invariants, runs and counterexamples of the text buffer |
| StringTree | StringTrees | the text buffer itself |
| Overlap | Overlaps | one-dimensional interval index |
| LuaCode, LuaExpressions, LuaForesight, LuaGenerator, LuaCounterexamples | same names | jump lists, the meaning of code with pending jumps, what is known of it from the condition alone, the generator, a condition compiled wrong |
| Bytecode, RefTable | Bytecode, RefTable | the bytecode checker, references |
| SerialFraming, HexFile | SerialFraming, HexFiles | framing, HEX files |

## Model

| member | source | states |
|---|---|---|
| ListSets.Merge | butialo/Butialo.activity/groupthink/listset.py:28-66 | one pass over two sorted sets gives a strictly ascending list that holds exactly the elements the three flags select: those only in the first, only in the second, in both |
| ListSets.KillDupes | butialo/Butialo.activity/groupthink/listset.py:80-88 | a sorted list becomes strictly ascending with the same set of elements |
| Overlaps.Overlap1D.Add | butialo/Butialo.activity/groupthink/listset.py:697-716 | recording an interval keeps every marker's set equal to the objects whose half-open interval holds the marker |
| Overlaps.Overlap1D.Query | butialo/Butialo.activity/groupthink/listset.py:731-743 | the answer is exactly the set of objects whose interval overlaps the open query, both directions, also for objects that begin left of it |
| TreeCommands.ApplyKeepsRooted | butialo/Butialo.activity/groupthink/groupthink_base.py:1569-1627 | a command keeps every node on a path to the root if and only if it does not hang the root under a known node |
| TreeCommands.MoveIsExact | butialo/Butialo.activity/groupthink/groupthink_base.py:1571-1597 | a node other than the root is moved or added if that leaves a tree, and otherwise nothing changes |
| TreeCommands.DeleteIsExact | butialo/Butialo.activity/groupthink/groupthink_base.py:1598-1616 | a deleted node takes no other with it, and the paths to the root lose just that node; deleting the root or an unknown node changes nothing |
| TreeCommands.DeleteIsUndone | butialo/Butialo.activity/groupthink/groupthink_base.py:1599-1616 | adding a deleted node back and moving its former children under it, in any order, gives back the tree before |
| TreeCommands.ClearIsUndone | butialo/Butialo.activity/groupthink/groupthink_base.py:1617-1627 | adding all nodes of a cleared tree, parents first, gives it back |
| CausalTrees.CausalTree.Step | butialo/Butialo.activity/groupthink/groupthink_base.py:1569-1627 | in place: a move is carried out exactly if it leaves a tree, a deletion takes its node out of all paths and does nothing else, a clear empties the tree; the child sets stay the inverse of the parents, and the commands returned undo it exactly |
| CausalTrees.CausalTree.AllParents | butialo/Butialo.activity/groupthink/groupthink_base.py:1629-1635 | the walk up ends and collects exactly the nodes at or above the given one, the test that forbids cycles |
| CausalTrees.CausalTree.Antestep | butialo/Butialo.activity/groupthink/groupthink_base.py:1672-1709 | roll back, merge and redo: the timeline gains exactly the elements, the commands handed to listeners lead from the old tree to the new one, which is the part of the old one before the first new element with everything from that element on redone; the whole invariant, undo records included, holds if and only if the first new element is the least of the new ones |
| CausalTrees.CausalTree.ReceiveMessage | butialo/Butialo.activity/groupthink/groupthink_base.py:1658-1670 | a message adds exactly its element and keeps the tree the replay of its timeline; it is lost if and only if the timeline is still empty |
| CausalTrees.CausalTree.AddHistory | butialo/Butialo.activity/groupthink/groupthink_base.py:1716-1721 | a merge adds exactly the peer's elements and keeps the invariant if and only if the first new one is the least, as it is for histories in timeline order |
| CausalTrees.SameCommandsSameTree | butialo/Butialo.activity/groupthink/groupthink_base.py:1503-1721 | replicas that hold the same commands have the same parents and children, however the commands came |
| CausalTrees.RunReplica | butialo/Butialo.activity/groupthink/groupthink_base.py:1503-1721 | over any run of local operations, messages and merges, with repetitions, the invariant holds and the timeline is what was issued plus what came in; only messages at the beginning, before the first command, are lost |
| CausalTrees.RunTwo | butialo/Butialo.activity/groupthink/groupthink_base.py:1503-1721 | two replicas after any two runs have the same tree if they hold the same commands |
| CausalTrees.Exchange | butialo/Butialo.activity/groupthink/groupthink_base.py:1711-1721 | two replicas that hand each other their histories have the union of their commands and the same tree |
| CausalDicts.CausalDict.ReceiveMessage | butialo/Butialo.activity/groupthink/groupthink_base.py:1243-1276 | in place, the operations of a message take effect exactly as far as their index is newer than horizon and key index |
| CausalDicts.FirstStands | butialo/Butialo.activity/groupthink/groupthink_base.py:1249-1263 | of two operations on one key in a message the first one stands |
| CausalDicts.OrderDoesNotMatter | butialo/Butialo.activity/groupthink/groupthink_base.py:1171-1179 | any two orders of the same messages, with repetitions, give the same dictionary and indices at replicas with any two first horizons below them; the horizons agree if and only if some message clears or the first ones agree |
| CausalDicts.MergeReflects | butialo/Butialo.activity/groupthink/groupthink_base.py:1284-1322 | a merge has the effect of all the peer's messages, from the later of the two first horizons on, if and only if no unknown key of the peer has the common horizon for its index |
| CausalDicts.PlainMergesWell | butialo/Butialo.activity/groupthink/groupthink_base.py:1181-1241 | messages as the dictionary itself sends them, which either clear or not, never put a key at the horizon, so that every merge is right |
| CausalDicts.CausalDict.AddHistory | butialo/Butialo.activity/groupthink/groupthink_base.py:1284-1322 | in place, the merge purges by the later horizon and takes over the peer's newer entries |
| CausalDicts.CausalDict.Update | butialo/Butialo.activity/groupthink/groupthink_base.py:1229-1241 | the method as meant, with its missing `self`: afterwards the dictionary holds all pairs, the one message sent has exactly those that are new or different, and doing it here has the effect of receiving it |
| CausalDicts.CausalDict.Pop | butialo/Butialo.activity/groupthink/groupthink_base.py:1200-1212 | returns the old value or the default; a known key goes by a deletion that has the same effect elsewhere, an unknown one changes and sends nothing |
| CausalDicts.RunReplica | butialo/Butialo.activity/groupthink/groupthink_base.py:1105-1322 | after any run of local operations, deliveries and merges the state is what all messages say together, provided their indices are distinct and above the first horizons |
| CausalDicts.RunTwo | butialo/Butialo.activity/groupthink/groupthink_base.py:1105-1322 | two fresh replicas that went through any runs and have had the same messages agree on dictionary and indices; on the horizon exactly when a message cleared or the later first horizons are the same |
| Clocks.ComparedAsNumbers | butialo/Butialo.activity/groupthink/groupthink_base.py:996-1001 | indices compare as the numbers that have the counter before the 64 random bits |
| Clocks.CausalHandler.GetIndex | butialo/Butialo.activity/groupthink/groupthink_base.py:996-1001 | a new index is higher than every index whose counter was seen before |
| AATrees.DepthIsLogarithmic | butialo/Butialo.activity/groupthink/aatree.py:557-592 | a balanced tree of n leaves is at most 2 log2(n) deep |
| AATrees.AnnIsProduct | butialo/Butialo.activity/groupthink/aatree.py:90-114 | under an associative operation every annotation is the product of the row of leaves below, whatever the shape |
| AAMonoidTrees.SkewNode | butialo/Butialo.activity/groupthink/aatree.py:489-512 | the rotation on linked nodes keeps both directions of links, annotations and the row of leaves, and is the rotation on the value |
| AAMonoidTrees.SplitNode | butialo/Butialo.activity/groupthink/aatree.py:514-544 | the same for the left rotation with its change of level |
| AAMonoidTrees.AAMonoidTree.AddLeft | butialo/Butialo.activity/groupthink/aatree.py:116-135 | the new leaf stands right before the old one in the row, nothing else moves, and links, annotations and balance hold again |
| AAMonoidTrees.AAMonoidTree.AddRight | butialo/Butialo.activity/groupthink/aatree.py:137-142 | the same right after the old leaf |
| AAMonoidTrees.AAMonoidTree.Remove | butialo/Butialo.activity/groupthink/aatree.py:152-166 | exactly that leaf leaves the row and balance holds again; it fails, with nothing changed, if and only if the leaf or its parent is the root |
| AAMonoidTrees.AAMonoidTree.ChangeAnnotation | butialo/Butialo.activity/groupthink/aatree.py:168-171 | the row changes in that annotation only, and all annotations above are right again |
| AAMonoidTrees.AAMonoidTree.GetNext | butialo/Butialo.activity/groupthink/aatree.py:173-193 | returns the nearest leaf to the right that is not skipped, and null if and only if there is none |
| EagerHideLists.EagerHideList.HideElements | butialo/Butialo.activity/groupthink/stringtree.py:155-169 | on the three coupled fields, exactly the visible elements position to position + length - 1 become invisible; an error exactly past the end; hiding none changes nothing, except at position 0, where the three fields fall out of step |
| EagerHideLists.EagerHideList.InsertSequenceAll | butialo/Butialo.activity/groupthink/stringtree.py:182-207 | the elements stand at the place given among all elements, with their visibility, and all three fields agree again |
| EagerHideLists.EagerHideList.Index | butialo/Butialo.activity/groupthink/stringtree.py:152-177 | the index of an element, visible or not, is the number of visible elements before it, and index_all its place |
| TreeHideLists.AATreeHideList.GetNode | butialo/Butialo.activity/groupthink/aatree.py:341-414 | the walk down by counts reaches the leaf of the wanted place, among the visible or among all, and fails in exactly the stated cases |
| TreeHideLists.AATreeHideList.GetItem | butialo/Butialo.activity/groupthink/aatree.py:416-422 | the i-th visible element, an error from the length on |
| TreeHideLists.AATreeHideList.GetItemAll | butialo/Butialo.activity/groupthink/aatree.py:454-460 | the i-th of all elements; at the end an error exactly while something is hidden and the end is unmarked |
| TreeHideLists.AATreeHideList.Slice | butialo/Butialo.activity/groupthink/aatree.py:423-433 | the visible elements from start to stop, bounds cut to the length; one element if the slice ends before it starts |
| TreeHideLists.AATreeHideList.Index | butialo/Butialo.activity/groupthink/aatree.py:437-442 | the walk up by counts gives the number of visible elements, or of all, before the element |
| TreeHideLists.AATreeHideList.HideElements | butialo/Butialo.activity/groupthink/aatree.py:444-452 | exactly the wanted visible elements become invisible, at least one; the exact condition under which it fails, and the one under which it marks the end instead |
| TreeHideLists.AATreeHideList.InsertSequenceLeftOf | butialo/Butialo.activity/groupthink/aatree.py:472-483 | the elements stand in their order right before the target, which has to be there |
| TreeHideLists.AATreeHideList.InsertSequenceAll | butialo/Butialo.activity/groupthink/aatree.py:469-483 | the elements stand at the place given; at the end it fails exactly while something is hidden and the end is unmarked |
| HideListAgreement.RunBoth | butialo/Butialo.activity/groupthink/stringtree.py:137-221 | any run of insertions and hidings takes the plain and the fast list to the same list of elements and visibilities |
| HideListAgreement.AskBoth | butialo/Butialo.activity/groupthink/aatree.py:409-467 | in the same state both forms give the same answers, those of the plain list: i-th visible, i-th of all, both indices, visibility, slices that do not end before they start |
| StringOrder.OrderIsUnique | butialo/Butialo.activity/groupthink/stringtree.py:467-486 | document order, siblings at a place by id and before the character, leaves one listing for a set of records |
| StringWalk.ListingIsWalk | butialo/Butialo.activity/groupthink/stringtree.py:467-499 | the listing of an exact tree is the recursive walk over the records, at each position first the texts inserted there in the order of their ids |
| StringConvergence.Converge | butialo/Butialo.activity/groupthink/stringtree.py:467-499 | two exact listings of the same records are equal, hidden elements and visibility included |
| StringConvergence.RemoteInsertion | butialo/Butialo.activity/groupthink/stringtree.py:432-440 | a text from elsewhere keeps an exact tree exact if and only if the next greater sibling has no text at its front |
| StringConvergence.RemoteDeletion | butialo/Butialo.activity/groupthink/stringtree.py:441-461 | a deletion from elsewhere keeps an exact tree exact if and only if what is still visible of it forms one run |
| StringRuns.LocalInsert | butialo/Butialo.activity/groupthink/stringtree.py:320-376 | in every reachable tree the text s becomes s[..k] + text + s[k..], the invariants hold, and an exact tree stays exact if and only if no sibling at the place has a greater id |
| StringTyping.LocalChangeIsAtGap | butialo/Butialo.activity/groupthink/stringtree.py:320-368 | the place of a local insertion is that of one of its neighbours, in a text at least as deep as both; within a text left of the right neighbour, between equally deep texts in the left one |
| StringTyping.NothingStandsThere | butialo/Butialo.activity/groupthink/stringtree.py:332-362 | in an exact tree in which nothing was deleted and no text is empty, no text stands at the place of a local insertion: the ambiguity that the choice of the deeper text is for does not arise |
| StringTyping.TypingStaysExact | butialo/Butialo.activity/groupthink/stringtree.py:320-376 | over every run in which text is only typed, wherever, the tree is exact all the time |
| StringRuns.LocalDelete | butialo/Butialo.activity/groupthink/stringtree.py:378-397 | in every reachable tree exactly the n visible characters from k on go, and an exact tree stays exact |
| StringRuns.DeletionsArrive | butialo/Butialo.activity/groupthink/stringtree.py:378-397 | a replica in the same state that is sent the deletions reaches the same state |
| StringRuns.OneEvent | butialo/Butialo.activity/groupthink/stringtree.py:320-499 | every possible step keeps the shape that local edits rely on, and keeps an exact tree exact if and only if the step is clean |
| StringRuns.RunKeepsShape | butialo/Butialo.activity/groupthink/stringtree.py:320-499 | the shape holds in every state of every run from the empty tree |
| StringRuns.InsertionsConverge | butialo/Butialo.activity/groupthink/stringtree.py:432-440 | any two parent-first orders of the same insertions, none at the front of a text other than the root, are accepted and end in the same records and full listing |
| StringRuns.CleanRunsConverge | butialo/Butialo.activity/groupthink/stringtree.py:320-499 | two clean runs that mix local edits, insertions and deletions from elsewhere in any order and end with the same changes end in the same state |
| StringTrees.SimpleStringTree.Insert | butialo/Butialo.activity/groupthink/stringtree.py:320-376 | in place over the fast list: the shown text becomes s[..k] + text + s[k..], the change returned is the one recorded, the cursor stands behind it; the change stands at the gap, in a text at least as deep as those on either side; in an exact tree without deletions no other text stands there and the tree stays exact; refused exactly when k is past the end of a text that is not empty |
| StringTrees.SimpleStringTree.Delete | butialo/Butialo.activity/groupthink/stringtree.py:378-397 | in place: the shown text loses characters k to k + n - 1, with the deletions a replica needs; refused exactly when there are not so many; what n = 0 does |
| StringTrees.SimpleStringTree.FindContigs | butialo/Butialo.activity/groupthink/stringtree.py:382-392 | the loop cuts the spots into the longest stretches of one text each, from first to last character |
| StringTrees.SimpleStringTree.EffectiveParent | butialo/Butialo.activity/groupthink/stringtree.py:467-486 | the loop finds the front of the least greater sibling at the place, or the character itself if there is none |
| StringTrees.SimpleStringTree.AddChange | butialo/Butialo.activity/groupthink/stringtree.py:432-465 | in place: the state becomes the received one, the edits returned, replayed by a listener on the text shown before, give the text shown after: none for a known change, the one insertion of its text, or deletions only; an error leaves the records as they were |
| StringTrees.SimpleStringTree.GetValue | butialo/Butialo.activity/groupthink/stringtree.py:245-249 | the text is that of the visible spots in listing order |
| StringTrees.SimpleStringTree.GetChanges | butialo/Butialo.activity/groupthink/stringtree.py:539-550 | the walk over the stack returns every change exactly once and parents first: recording them one by one from an empty tree gives just these records |
| StringHistory.HistoryRebuilds | butialo/Butialo.activity/groupthink/stringtree.py:539-550 | an exact tree of insertions, none at the front of a text other than the root, is rebuilt from its history, listing and all |
| StringTrees.RunTree | butialo/Butialo.activity/groupthink/stringtree.py:223-509 | a tree driven through any events goes through just the states that the events lead through, and its invariant holds at the end |
| StringTrees.RunTwo | butialo/Butialo.activity/groupthink/stringtree.py:320-499 | two trees after clean runs that hold the same changes list the same and show the same text |
| StringTrees.FeedTwo | butialo/Butialo.activity/groupthink/stringtree.py:432-499 | two trees fed the same insertions in any two parent-first orders, none at the front of a text other than the root, accept them all, and list the same walk |
| StringTrees.HandOn | butialo/Butialo.activity/groupthink/stringtree.py:539-550 | an empty tree fed another's history, of insertions as above, lists and shows the same |
| LuaGenerator.FuncState.Concat | libs/lua-5.1.4/src/lcode.c:185-196 | joining two jump lists in the code gives the list of both, and touches only links of the first |
| LuaGenerator.FuncState.PatchListAux | libs/lua-5.1.4/src/lcode.c:150-160 | every jump of a list is visited once: those that carry a value go to one target with it, all others to the other |
| LuaCode.ChainIsUnique | libs/lua-5.1.4/src/lcode.c:100-107 | a jump list threaded through the code has one reading, finite and without cycles |
| LuaCode.PatchAllTarget | libs/lua-5.1.4/src/lcode.c:150-160 | after a list is patched each member jumps to its own target, whatever the order |
| LuaGenerator.FuncState.Exp2Reg | libs/lua-5.1.4/src/lcode.c:390-412 | an expression with pending true and false lists ends up in the first free register with its value on every path that brings the right one |
| LuaGenerator.FuncState.CodeNot | libs/lua-5.1.4/src/lcode.c:594-626 | a constant is folded, a comparison inverted, any other value negated; swapping the lists and dropping their values negates the meaning, and what is foreseen of the operand gives what is foreseen of the result |
| LuaGenerator.FuncState.GoIfTrue | libs/lua-5.1.4/src/lcode.c:539-564 | control goes on if the operand is true and leaves by the exits otherwise; a constant false takes the waiting jumps along, and then exits that bring a value are no longer promised to be right |
| LuaGenerator.FuncState.GoIfFalse | libs/lua-5.1.4/src/lcode.c:567-591 | the same the other way round; of the constants only true and false are decided, any other is loaded and tested |
| LuaGenerator.CompileCondition | libs/lua-5.1.4/src/lcode.c:539-789 | for every condition of locals, true, false, numbers, strings, not, and, or and comparisons that is trusted, the code leaves the value of the condition in the next register, with the registers below as they were, or raises where evaluation does; it fails only for want of registers or for too long a jump |
| LuaForesight.NothingAbsorbed | libs/lua-5.1.4/src/lcode.c:547-578 | a condition is trusted unless somewhere `and` meets a known false, or `or` a known true, while a jump that brings a value may be waiting |
| LuaForesight.WithoutTruthIsTrusted | libs/lua-5.1.4/src/lcode.c:539-626 | every condition in which no true or false is written or folded is trusted |
| LuaForesight.BooleansAreTrusted | libs/lua-5.1.4/src/lcode.c:539-626 | so is every condition whose operands are all booleans, with true and false wherever they may stand |
| LuaExpressions.OperatorLaws | libs/lua-5.1.4/src/lcode.c:681-789 | what the operators mean: > and >= are < and <= with the operands exchanged, ~= is the negation of ==, `not` turns `and` into `or`, and `and` and `or` yield an operand |
| Bytecode.CheckJump | libs/lua-5.1.4/src/ldebug.c:343-362 | the loop that counts words like long SETLISTs tells exactly whether a target inside the code is an instruction or a count |
| Bytecode.ParityIsExact | libs/lua-5.1.4/src/ldebug.c:343-362 | the parity of the run of such words before a position decides it, for every code |
| Bytecode.CheckCode | libs/lua-5.1.4/src/ldebug.c:317-487 | the loop accepts if and only if every instruction that decoding reaches finds everything in its place: all registers it uses in the frame, its constants, upvalues and inner functions in their tables, its jump target an instruction, and behind it what it needs there |
| Bytecode.AcceptedMeans | libs/lua-5.1.4/src/ldebug.c:275-487 | passing all checks is the same as that, given per instruction from the registers, constants and upvalues it uses |
| Bytecode.CapturesFit | libs/lua-5.1.4/src/ldebug.c:461-473 | the registers and upvalues that a new closure captures are there |
| Bytecode.ControlStaysInside | libs/lua-5.1.4/src/ldebug.c:317-487 | in accepted code every step from an instruction leads to an instruction inside the code if and only if the skips of LOADBOOLs with C > 1 are safe as well |
| RefTable.Registry.Ref | libs/lua-5.1.4/src/lauxlib.c:481-501 | a new reference is none of the live ones, the slot given back last or else the one behind all, and gives access to the value; the table has not grown beyond the most references ever live, whichever border its length gives |
| RefTable.Registry.Unref | libs/lua-5.1.4/src/lauxlib.c:504-512 | exactly that reference stops being live and is the next to be given out; negative ones change nothing |
| RefTable.Registry.Lookup | libs/lua-5.1.4/src/lauxlib.c:481-512 | every live reference gives back the value it was made for |
| SerialFraming.SendMsg | libs/serialcomm/serialcomm.c:386-410 | the loop on a one-byte position writes the whole frame if the escaped body has at most 253 bytes, and too few bytes otherwise |
| SerialFraming.Unescape | libs/serialcomm/serialcomm.c:242-249 | in place, the write position never passes the read position, and the result is the unescaped body |
| SerialFraming.ReadMsg | libs/serialcomm/serialcomm.c:299-383 | the state machine returns what decoding byte by byte gives, with the message in the buffer and the rest unread; what it returns is the message of a whole frame that arrived, its length before and its checksum behind it |
| SerialFraming.DecodedWasSent | libs/serialcomm/serialcomm.c:299-383 | nothing is returned but the message of a whole frame with the right checksum, whatever came before it |
| SerialFraming.DamageIsNoticed | libs/serialcomm/serialcomm.c:345-376 | one damaged byte in a body changes the checksum, unless only its highest bit is damaged |
| SerialFraming.WholeFrameIsTaken | libs/serialcomm/serialcomm.c:299-383 | a frame with any body in which no new frame begins is taken in at its last byte, after a byte below 128 or while seeking |
| SerialFraming.FrameIsDecoded | libs/serialcomm/serialcomm.c:299-383 | whatever the decoder is in the middle of, a frame after a byte below 128 is decoded to its message: resynchronisation |
| SerialFraming.SendAndRead | libs/serialcomm/serialcomm.c:299-410 | what is sent is read back, whatever follows on the line |
| SerialFraming.EscapedIsSafe | libs/serialcomm/serialcomm.c:386-410 | no byte of an escaped body can be taken for the beginning of a frame |
| HexFiles.LineUndone | firmware/fsusb/rjlhex.c:60-180 | every record printed as a line is read back, checksum included |
| HexFiles.HexRawRead | firmware/fsusb/rjlhex.c:60-180 | the reader returns a record exactly for the lines that begin with it as it is printed, up to the case of the digits |
| HexFiles.AcceptedLines | firmware/fsusb/rjlhex.c:60-180 | the lines accepted as a record are exactly those that begin with it as it is printed, up to the case of the digits |
| HexFiles.CaseDoesNotMatter | firmware/fsusb/rjlhex.c:97-163 | a line is read alike whatever the case of its digits |
| HexFiles.DamageIsNoticed | firmware/fsusb/rjlhex.c:112-172 | an accepted line is refused after any one of its digits behind the length is changed |
| HexFiles.WriteRange | firmware/fsusb/main.c:222-279 | the loops print the announcement and the lines of exactly the rows that hold something |
| HexFiles.PrintedRows | firmware/fsusb/main.c:240-277 | a row is printed if and only if one of its bytes, the one at the top address aside, is not 0xff |
| HexFiles.ModifyPatch | firmware/fsusb/memimg.c:109-126 | in place, the data goes to its place if it ends inside the range, and nothing changes otherwise; exactly when it reaches the top address a byte goes past the cells, which is reported |
| HexFiles.LoadHexFile | firmware/fsusb/memimg.c:202-236 | the loop over the lines has the effect of its records up to the first one that is not well-formed, and it is reported whether any went past the cells |
| HexFiles.StopsAtBadLine | firmware/fsusb/memimg.c:202-236 | from the first line on that is not a record nothing is read |
| HexFiles.BaseIsAdded | firmware/fsusb/memimg.c:202-236 | data goes to 16 times the segment, or 65536 times the upper half, that was announced, plus its own address, and nowhere else |
| HexFiles.RoundTrip | firmware/fsusb/main.c:222-279 | every program memory, whatever its top address, is read back as printed at all addresses below the top one |
| HexFiles.ReadBackExceeds | firmware/fsusb/memimg.c:109-126 | reading back a printed memory goes past the cells if and only if its last row was printed |
| HexFiles.AnnouncementOrder | firmware/fsusb/main.c:231-235 | the announcement of the upper address half is understood if and only if its two bytes are equal |
| StringCounterexamples.OrderMattersAtTheFront | butialo/Butialo.activity/groupthink/stringtree.py:467-486 | three insertions, one at the front of a text, that end in two different texts in two parent-first orders |
| StringCounterexamples.SecondRunIsMissed | butialo/Butialo.activity/groupthink/stringtree.py:441-461 | a deletion of two characters with another between them that leaves one of the two visible, without an error |
| StringCounterexamples.LocalOrderDiffers | butialo/Butialo.activity/groupthink/stringtree.py:320-376 | a local insertion beside a deleted text that is listed in another place than elsewhere |
| StringRuns.DeletingNothing | butialo/Butialo.activity/groupthink/stringtree.py:378-397 | wherever two characters follow, delete(k, 0) takes one away here and records the deletion of two |
| CausalDicts.KeyAtHorizonIsLost | butialo/Butialo.activity/groupthink/groupthink_base.py:1284-1322 | a reachable state with a key at the horizon, which receiving the message keeps and a merge loses |
| CausalDicts.FreshHorizonsDiffer | butialo/Butialo.activity/groupthink/groupthink_base.py:1171-1179 | two fresh replicas that agree on the dictionary and not on the horizon |
| CausalTrees.UnsortedHistoryIsNotLeast | butialo/Butialo.activity/groupthink/groupthink_base.py:1672-1709 | a history out of order for which the condition of the merge fails, and the empty tree that it gives where the replay has two nodes |
| CausalTrees.RootMoveBreaksTree | butialo/Butialo.activity/groupthink/groupthink_base.py:1573-1598 | moving the root under its own child, which nothing forbids, makes a cycle |
| Bytecode.UnsafeSkipHappens | libs/lua-5.1.4/src/ldebug.c:374-381 | accepted code whose LOADBOOL skips past the end |
| LuaCounterexamples.CompileAbsorbing | libs/lua-5.1.4/src/lcode.c:390-578 | the calls the generator makes for `((1 or false) and true) or false` produce just these nine instructions |
| LuaCounterexamples.AbsorbedIsWrong | libs/lua-5.1.4/src/lcode.c:547-578 | whatever the registers hold, these instructions leave 1 where the condition is true |
| SerialFraming.EmptyIsNeverRead | libs/serialcomm/serialcomm.c:299-383 | a sent message of no bytes is not returned, whatever follows that begins no new frame |

## Findings

Where the code does not do what it is for, the model keeps the code as it is; the exact condition under which it is
right is proved, and an input for which it is wrong is given. For the Lua generator the condition is sufficient only.
At four places, listed last, the model is of what is meant instead.

- `add_change` of an insertion puts the text on the wrong side of texts at the front of the next greater sibling
  (stringtree.py:478-486). Right if and only if there are none: RemoteInsertion. Divergence: OrderMattersAtTheFront.
- `add_change` of a deletion whose visible characters form several runs keeps a position from before the last hiding
  (stringtree.py:448-457), hides other characters, or marks the end of the list without an error. Right if and only
  if they form one run: RemoteDeletion. Input: SecondRunIsMissed.
- Local `insert` lists the text last among its siblings whatever its id (stringtree.py:373-374). The text shown is
  always right; the listing if and only if no sibling there has a greater id: LocalInsert. Input: LocalOrderDiffers.
- `delete(k, 0)` hides one character and records the deletion of two: DeletingNothing. In an empty tree `insert`
  takes any position for 0. The fast list's slices that end before they start have one element, `hide(p, 0)` hides
  one, and insertion at the very end fails once something is hidden.
- `_antestep` replays from the first new element in the order given (groupthink_base.py:1672-1709), so a history out
  of order leaves commands that never ran: Antestep, UnsortedHistoryIsNotLeast. A message that meets an empty timeline
  raises IndexError and is lost: ReceiveMessage. The root can be moved under a node: RootMoveBreaksTree.
- `add_history` of a dictionary loses keys whose index is the common horizon (groupthink_base.py:1284-1322). That
  needs a message that clears and adds, which the dictionary never sends: MergeReflects, PlainMergesWell,
  KeyAtHorizonIsLost. The horizons of fresh replicas differ until something clears: OrderDoesNotMatter,
  FreshHorizonsDiffer.
- `remove` of a leaf whose parent is the root of an AA tree fails: AAMonoidTree.Remove.
- The bytecode checker does not look at the skip of a LOADBOOL with C > 1: ControlStaysInside, UnsafeSkipHappens.
- The announcement in a printed HEX file has its two bytes in the other order than the reader expects:
  AnnouncementOrder. A byte at the top address is not enough for a row to be printed, and is not read back.
- A constant that forbids control to go on leaves by a jump that takes the waiting jumps along (lcode.c:547-550 and
  575-578). One of them that brings a value then skips the load of the constant: `((1 or false) and true) or false`
  yields 1, not true. Right if the condition is trusted (CompileCondition), as it is unless this happens
  (NothingAbsorbed), without true and false (WithoutTruthIsTrusted) and among booleans (BooleansAreTrusted). The
  converse is not claimed: a jump that can never be taken does no harm, as in
  `not a and (((a or false) and true) or false)`. Input: CompileAbsorbing, AbsorbedIsWrong.
- A serial message of more than 253 escaped bytes wraps the position: SendMsg. An empty one is never returned:
  EmptyIsNeverRead.
- `ListSet.update` from nothing raises IndexError, because `kill_dupes` reads the first element.
- `hide(0, 0)` of the plain list takes its last visible element for the one before the first and leaves its three
  fields out of step: EagerHideList.HideElements.

The four places where the model is of the intent:

- `update` of a dictionary has no `self` (groupthink_base.py:1229-1241): it hands the object itself to `dict.update`
  and then reads an unbound name, so every call raises. CausalDict.Update is the method with its `self`.
- `get_history` of a handler builds the history and returns nothing (groupthink_base.py:1037-1040). The merges of
  CausalDicts and CausalTrees are of the history it builds.
- `__delitem__` and `clear` of a dictionary send an operation that is not in the shape the receiving loop takes apart
  (groupthink_base.py:1184 and 1197): no list around it, or no tuple. CausalDict.DelItem and CausalDict.ClearAll send
  the operation itself.
- `mi_make_patch` allocates one cell too few (memimg.c:47 and 57), and a byte for the top address is written past the
  block. ModifyPatch reports that and has no memory there: ReadBackExceeds.

## Left out

- D-Bus, tubes, handler acceptors, translators between D-Bus types and values, listeners and triggers, unordered and
  the other objects of groupthink_base.py; copies of handlers.
- Two equal random draws: a new id is new where it is drawn, and indices of different messages differ.
- CausalTrees.RunReplica: events that no peer running this code sends, that is histories out of order and moves of the
  root, are covered by the conditions of Antestep and Step instead.
- EagerHideLists.EagerHideList.HideElements: negative positions and lengths, which count from the end in Python.
- TreeHideLists.AATreeHideList.InsertSequenceLeftOf: elements that are already in the list; the program inserts new ones only.
- TreeHideLists.AATreeHideList.InsertSequenceAll: the same.
- HideListAgreement.AskBoth: slices that end before they start and positions past the end, where the two forms differ.
- StringRuns.InsertionsConverge: deletions; runs that mix them are under CleanRunsConverge, with the exact condition per step.
- StringHistory.HistoryRebuilds: histories with deletions, which are taken in exactly as long as each step is clean.
- Negative indices and strides other than 1 in slices; Python's negative positions in `insert` and `delete`.
- File methods of the text buffer (`read`, `seek`, `write`, `truncate` and so on), `move`, `Removal`, and `get_range`
  and `get_insert`, which are said not to work any more.
- `TreeList`, `MonoidTree.add` with a walker and `_build_subtree`.
- CausalDict: `popitem`, `setdefault` and an initial dictionary.
- ListSet and ListDict methods other than those the models above use; Overlap2D.
- Overlaps.Overlap1D.Query: `remove` and closed queries; numbers are reals, and an object is added once with a non-empty
  interval, since the code handles no others in a defined way.
- LuaGenerator.CompileCondition: nil (whose load may be merged with the one before it or left out), upvalues, globals,
  tables, calls, arithmetic and its folding, concatenation; numbers that are not integers; the limit on the number of
  constants; the parser, which is represented by the expression tree. That a condition is trusted is sufficient, not
  necessary.
- LuaGenerator.FuncState.Exp2Reg: target registers other than the first free one, which assignments to locals give.
- Bytecode.CheckCode: the tracing of one register for error messages.
- RefTable.Registry.Unref: a reference that is not live, which the manual forbids.
- SerialFraming.ReadMsg: timeouts and the sizes of the C buffers.
- HexFiles.WriteRange: ranges that do not begin at 0, which only the other memories have.
- HexFiles.RoundTrip: id, configuration and device memories, the board and verification against it; the masks that mark
  changed bytes.
