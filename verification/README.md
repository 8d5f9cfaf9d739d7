# A verified model of the SSH chat server's engines

The server is mostly input and output, but several of its engines are self-contained and make
promises about every input or every run. This project models those engines in Dafny 4.11 and proves
the promises. `dafny verify dfyconfig.toml` checks all of it.

| modules | engine |
|---|---|
| `Wrapping`, `GlyphShapes`, `WrapFilling`, `DisplayModel`, `Frames`, `Scrolling` | the display model: glyphs, wrapping, layout, anchors, frames, scrolling |
| `ClientRegistry`, `ClientCalls`, `RegistrationRaces` | the lock-free registry of clients, as a system of atomic steps, what each call comes to alone, and what overlapping calls do to one connection |
| `AllocationRegistry`, `MemoryRuntime`, `AllocationLedger`, `LedgerCalls` | the memory manager's intrusive lists, its calls over them, the table of blocks they stand for, and what each call gives |
| `UserStore`, `UserNames`, `UserTable` | the user record files, their names, and when they act as a table |
| `Utf8`, `Dbcs` | UTF-8 encoding and validation, the double-byte decoder |
| `JsonStrings`, `JsonEscapes`, `JsonWellFormed` | the two JSON string codecs, one parametrised development, what each escape stands for, and what they do to UTF-8 |
| `AnsiPlaceholders` | ANSI sequences replaced by placeholders and restored |
| `Base64Url`, `Jwt` | base64url and session tokens |
| `PollState`, `NamedPoll`, `NamedPollBoard`, `MainPoll`, `MainPollBoard`, `MainPollBallots`, `MainPollVotes` | the poll ledgers, on values and in place, what a vote means, and the ballots one name can hold |
| `RateLimiter` | the translator's request rate limiter |
| `Bytes`, `Options`, `Counting`, `Searching` | shared vocabulary |

Loops and updated objects of the source are methods and classes here; each is proved against a
function of its inputs or of the state before, and the laws are lemmas about those functions. Where
an operation can run many times, the laws are about whole histories: every interleaving of client
registry steps, every run of memory calls, every history of saves, votes, arrivals or limiter events.

What the code cannot compute by itself enters as a parameter: the clock, the conversion tables, the
keyed hash, the allocator's answers (`Grant`, `granted`, `resizable`, a null context), whether the line
store can be viewed, how far the file operations of a save get (`Disk`), and what memory holds behind
a decoded payload.

Where the code and the promise differ, the code is modelled as it is, a failing input or state is given
where one is needed to see it, and the exact condition is proved:

- Arrivals leave a scrolled screen alone exactly when some line is no older than the anchored message. An
  anchor newer than every line resolves to the last line and moves with it.
- Restoring prepared text gives the message back exactly when its plain text holds no literal token
  with the number of one of its own sequences. Other literal tokens do no harm.
- The double-byte decoder loses nothing exactly when each call's buffer holds whatever the conversion
  table can yield in one call.
- The client counter shows the occupied slots exactly when pending increments and decrements balance. It
  can wrap below zero for a moment: the unregister of a connection may overtake the increment of its own
  registration.
- A destroy empties the client registry exactly when no register past the shutdown check can still fill
  a slot as the sweep begins. Such a register can fill a slot the sweep has passed.
- A connection comes to have an owner, no slot and nobody to clear the owner exactly when a register stores
  the owner while no slot holds the connection and nobody is about to clear its owner: its slot was taken in
  between. Unless another register is just filling a slot for it, it is then never registered again.
- A connection is in two slots exactly when a register fills one while it is in another. That takes two
  registers of it between loading and storing its owner at once.
- Poll ids come round to 1 after the largest 64-bit value. A start leaves the tallies right exactly when
  no record already holds a ballot under the new id.
- Scrolling up and down by the same amount returns to the same line exactly when the screen was on the
  last page or enough lines were above.
- The record files act as a table exactly as long as no save puts in place a record with a password or valid
  at every address, which answers for every user with the same sanitized name, or a record without an address
  over one that has one. A plain save by a namesake overwrites a record of the first kind.
- A save reports failure with its record in place exactly when only the profile picture could not be stored.
- The wrapping loop passes exactly the message when no multi-byte sequence it meets runs into the terminator;
  otherwise it goes on into the memory behind.
- The API's JSON decoder keeps text well formed exactly when the literal holds no lone surrogate escape. The
  translator's always does.
- A session token names its user back exactly when the username holds no quote and the token has not expired.
- A name holds one ballot in the main poll exactly as long as it never votes with a record that has no ballot
  while another of its records has one. A voter who comes with an address does not get the record without one.

Two points of detail: a line that holds an over-wide character may also hold characters of no width
before it, so the law says exactly one visible character; and the escape scanner in
`src/display_model.c:97-109` and the one in `src/translation_helpers.c:42-58` end a control sequence at
different bytes, so each is modelled as it stands.

## Model

| member | source | states |
|---|---|---|
| Wrapping.CharWidth | src/display_model.c:92-167 | The loop reads exactly one glyph: a control sequence takes no column, ASCII one or none, a multi-byte sequence one or two by its code point, and stops at the first byte that is no continuation byte; a NUL inside a sequence does not stop it. |
| GlyphShapes.GlyphOfScalar | src/display_model.c:92-167 | The encoding of every scalar value but ESC is one glyph, whatever follows: as long as the encoding, of no column for control characters, two for the listed wide ranges, one otherwise. |
| GlyphShapes.GlyphOfUnit | src/display_model.c:92-167 | The same for every well-formed unit inside a text. |
| GlyphShapes.ControlShape | src/display_model.c:96-109 | A control sequence goes on over bytes 0x20 to 0x3F and takes the one byte behind them, unless the text ends there. |
| GlyphShapes.ControlGlyph | src/display_model.c:96-109 | A control sequence takes no column. |
| GlyphShapes.CutOffAt | src/display_model.c:155-164 | Of a multi-byte sequence only the bytes before the first that is no continuation byte are taken; a NUL there does not stop it. |
| GlyphShapes.StrayByte | src/display_model.c:118-167 | A byte that is neither ASCII nor announces a sequence is a glyph of its own, one column wide. |
| Wrapping.SeenExactly | src/display_model.c:119-167 | The cursor passes exactly the text, and stops at its terminator, if and only if it meets no multi-byte sequence that runs into the terminator. |
| Wrapping.TextFollows | src/display_model.c:234-308 | In any buffer, at every place the cursor comes by: the byte is a NUL exactly at the end of what it passes, the glyph read there is the one the specification reads, and the next place lies inside. |
| Wrapping.OneLine | src/display_model.c:251-287 | The inner loop fills the buffer and stops the cursor where the line-breaking specification says, over any memory and any glyphs found in it. |
| Wrapping.NextLine | src/display_model.c:246-295 | One pass of the outer loop yields one line with its number and swallows the newline that ended it. |
| Wrapping.AllLines | src/display_model.c:234-308 | The outer loop produces the specified lines, one after the other, until text or room runs out. |
| Wrapping.WrapLine | src/display_model.c:234-308 | The whole function, for any buffer: nothing at width or capacity 0, one empty line when nothing is passed, else the specified lines. |
| Wrapping.WrapNumbered | src/display_model.c:234-308 | Every message gives at least one and at most capacity lines, all carrying its id, numbered 0, 1, 2, ... |
| Wrapping.Progress | src/display_model.c:234-308 | Every line consumes at least one byte, so wrapping terminates. |
| Wrapping.ShortTextFits | src/display_model.c:234-308 | A text shorter than one line buffer, and no longer than the line limit, meets the fitting condition of the next two rows at every width. |
| Wrapping.WrappingConservesSeen | src/display_model.c:234-308 | For any buffer within the limits: what the cursor passes is the produced lines in order, each followed by one newline or by nothing. |
| Wrapping.WrappingConservesText | src/display_model.c:234-308 | For every text within the limits: if no sequence the cursor meets runs into the terminator, the message is the produced lines in order, each followed by one newline or by nothing; otherwise the lines hold the message and bytes behind it. |
| Wrapping.WrappedLinesFitWidth | src/display_model.c:234-308 | For complete text, measured again on its own bytes, every produced line takes at most the terminal width or holds exactly one visible glyph. |
| WrapFilling.LineFilled | src/display_model.c:254-288 | For any reading, a line ends at the end of the text, at a newline, or where its columns and those of the next glyph exceed the width. |
| WrapFilling.WrappedLinesFilled | src/display_model.c:234-308 | Every line of a wrapped message is filled so, holds no newline of its own, and is at most 4094 bytes long. |
| Wrapping.WellFormedIsComplete | src/display_model.c:92-167 | Text the UTF-8 validator accepts has only complete sequences, so the preconditions of the wrapping rows hold for it. |
| DisplayModel.LayoutOfAppend | src/display_model.c:310-383 | Full layout of a log and one more message is the full layout of the log followed by the wrapped lines of that message. |
| Scrolling.ArrivalsAreLayout | src/display_model.c:310-383 | Laying out a log and appending any number of messages one by one gives exactly the full layout of the longer log. |
| DisplayModel.LayoutGrouped | src/display_model.c:310-353 | Every line of a layout is line s of message m for one m, in log order, at the position the earlier messages leave, with its id and subline number s. |
| DisplayModel.Display.Init | src/display_model.c:201-222 | A new model has no lines and follows the tail; it succeeds exactly when storage is granted, with the capacity asked for or 64. |
| DisplayModel.Display.EnsureCapacity | src/display_model.c:172-197 | Lines are kept; it succeeds exactly when the capacity suffices or the doubled capacity neither overflows nor is refused, and then covers the need. |
| Frames.GrownExactly | src/display_model.c:172-197 | The line store grows to the first doubling of its capacity that is large enough, and is refused exactly when that one is past the largest size. |
| DisplayModel.Display.AddLines | src/display_model.c:331-348 | All lines of one message are placed behind the others, or none. |
| DisplayModel.Display.AppendMessage | src/display_model.c:355-383 | The line sequence grows by exactly the wrapped message, or stays as it was on failure; width 0 always fails. |
| DisplayModel.Display.RecomputeLayout | src/display_model.c:310-353 | The lines are the layout of the whole log on success, and of the messages before the failing one otherwise; width 0 empties the model. |
| DisplayModel.Display.RecomputeThenAppend | src/display_model.c:310-383 | A full layout followed by an appended message, when both succeed, leaves exactly the lines of the full layout of the longer log. |
| DisplayModel.Display.FindFirst | src/display_model.c:385-428 | One scan finds the first line with a property, or reports none. |
| DisplayModel.Display.ResolveAnchor | src/display_model.c:385-428 | The anchored line, else the first line of its message, else the first of a later message, else the last line; none when the store cannot be viewed. |
| DisplayModel.Display.ComputeVisible | src/display_model.c:430-500 | The frame cut out and what is remembered about it, in both modes; the last page when the anchor cannot be searched for, an empty frame and an unchanged view when the frame cannot be viewed. |
| DisplayModel.Display.ScrollUp | src/display_model.c:513-557 | Scrolling up leaves follow mode and anchors the line n above the top, or the first line; only the mode changes when the line cannot be viewed. |
| DisplayModel.Display.ScrollDown | src/display_model.c:559-603 | Scrolling down moves the anchor n lines, or follows the tail again from the last page on, or when the store cannot be viewed. |
| DisplayModel.Display.FollowTailNow | src/display_model.c:605-616 | The view is reset to follow the tail and keeps only the viewport height. |
| Frames.FrameMeans | src/display_model.c:430-500 | A frame is as long as lines and height allow, starts at the resolved anchor or ends at the tail, and its flags say exactly at which ends of the log it is. |
| Frames.RememberedMeans | src/display_model.c:430-500 | A frame with lines is remembered with its start, an empty one is forgotten; the height is kept and the view does not move. |
| Frames.ViewportMeans | src/display_model.c:13-28 | The page length scrolling goes by: the last height, or before any frame the lines to scroll, at most the whole log. |
| Frames.FollowedMeans | src/display_model.c:605-616 | Following the tail forgets the anchor and the remembered frame, but not the height. |
| Frames.UpWithoutSearch | src/display_model.c:513-557 | Scrolling up without being able to search for the anchor is scrolling up from the tail with no frame remembered. |
| Scrolling.ResolveKeeps | src/display_model.c:385-428 | As long as some line is no older than the anchored message, appended lines of other messages, or any lines when the exact anchor line exists, do not move the line an anchor resolves to; the anchored message itself may be gone. |
| Scrolling.ArrivalsDoNotMoveFrame | src/display_model.c:355-383 | In manual mode, with the anchored page inside the log and some line no older than the anchored message, any run of arrivals of other messages leaves the start, the count and the lines of the visible frame unchanged. |
| Scrolling.FrameStaysExactly | src/display_model.c:355-500 | The exact condition: such a run leaves the frame alone if and only if some line is no older than the anchored message, or the run adds no line. |
| Scrolling.RelayoutKeepsMessage | src/display_model.c:310-353 | After laying the log out again at any non-zero width, an anchor whose message is still in the log resolves to a line of that message. |
| Scrolling.ResolveMeans | src/display_model.c:385-428 | An anchor resolves to its own line, else to the first line of its message, else to the first of a later message, else to the last line. |
| Scrolling.RelayoutExactly | src/display_model.c:310-428 | After laying the log out again at any width an anchor resolves to its own subline if the message still has so many, and to the first line of the message otherwise. |
| Scrolling.LayoutDistinct | src/display_model.c:310-353 | With distinct message ids no two lines of a layout share id and subline number. |
| Scrolling.ResolveOwnKey | src/display_model.c:385-428 | An anchor taken from a line resolves to exactly that line. |
| Scrolling.PageFrames | src/display_model.c:430-557 | Page-up n times from the tail shows min(height, total) lines, starting one screen above the page before. |
| Scrolling.PagingReachesHead | src/display_model.c:430-557 | Paging up reaches the head of the log in finitely many steps. |
| Scrolling.PagingCoversEveryLine | src/display_model.c:430-557 | Every line of the log is on screen on one of those pages. |
| Scrolling.UpLandsExactly | src/display_model.c:513-557 | Scrolling up lands n lines above the top if and only if that line is inside the log. |
| Scrolling.UpDownTop | src/display_model.c:513-603 | The top line after scrolling up n and down n, from every view: n below the line scrolled up to, but not past the last page. |
| Scrolling.UpDownReturnsExactly | src/display_model.c:513-603 | From every view, scrolling up n and down n shows the same top line if and only if, in manual mode, the screen was on the last page or n lines were above it, and, following the tail, going down again reaches the last page. |
| ClientRegistry.PerformBalances | src/client.c:45-133 | Each atomic access changes counter and slots by amounts that the pending work of its own thread balances. |
| ClientRegistry.StepKeepsCounter | src/client.c:45-133 | Every atomic step of every thread keeps the counter equation. |
| ClientRegistry.StepMovesClaims | src/client.c:45-133 | A step moves a claim between a slot, the thread that took it and the detach log; only a successful register adds one. |
| ClientRegistry.StepKeepsClaims | src/client.c:45-133 | Every step keeps each registration in exactly one of those places and each connection fully accounted for. |
| ClientRegistry.RunKeepsInv | src/client.c:45-133 | The invariants hold after every interleaving of any number of threads. |
| ClientRegistry.CounterInEveryRun | src/client.c:45-133 | In every interleaving the counter is occupied slots minus pending increments plus pending decrements, as a machine word. |
| ClientRegistry.CounterExactly | src/client.c:45-133 | In every interleaving the counter equals the occupied slots if and only if the pending increments and decrements balance as machine words. |
| ClientRegistry.DetachedOnceInEveryRun | src/client.c:45-133 | In every interleaving a registration is detached at most once, and once detached is in no slot and in nobody's hands. |
| ClientRegistry.QuietStates | src/client.c:45-133 | Whenever no call is in progress the counter equals the occupied slots, and every registration is still in a slot or was detached, once each. |
| ClientRegistry.CounterCanWrap | src/client.c:87-131 | A concrete schedule in which an unregister overtakes the register it undoes and the counter is briefly the largest machine word. |
| ClientCalls.UnregisterAlone | src/client.c:106-133 | An unregister left alone gives up the lowest slot that holds the connection: the slot is free, the claim detached, the connection neither owned nor active, the count one less; with no such slot nothing changes. |
| ClientCalls.RegisterAlone | src/client.c:71-104 | A register left alone takes the lowest free slot, with owner, activity and count, unless the registry is shutting down, the connection has an owner or no slot is free; then nothing changes. |
| ClientCalls.DestroyAlone | src/client.c:45-69 | A destroy left alone shuts the registry, empties every slot and detaches every claim once, in slot order. |
| ClientRegistry.SealedDestroyEmpties | src/client.c:45-69 | A destroy that begins its sweep when no register past the shutdown check can still fill a slot leaves every slot empty, in every interleaving. |
| ClientRegistry.LateRegisterSurvives | src/client.c:45-105 | From every state where a register is past the shutdown check and its connection is not stranded there is a schedule after which the destroy is done and a slot is occupied. |
| ClientRegistry.SweepEmptiesExactly | src/client.c:45-133 | The exact condition: a destroy empties the registry in every interleaving if and only if no register can still fill a slot when its sweep begins. |
| ClientRegistry.LateRegisterExample | src/client.c:45-105 | A concrete start: one thread passes the check, another destroys, and a slot is occupied at the end. |
| RegistrationRaces.StrandsExactly | src/client.c:71-133 | The exact condition for one step: it leaves a connection with an owner, in no slot and in nobody's hands if and only if it is a store of that owner made after the slot was taken and the owner cleared. |
| RegistrationRaces.StrandedInRunExactly | src/client.c:71-133 | The same for whole runs: a run strands the connection at some point if and only if one of its steps is such a store. |
| RegistrationRaces.LosesExactly | src/client.c:71-133 | A step loses the connection for good if and only if it is such a store and no other register is filling a slot for it. |
| RegistrationRaces.LostForGood | src/client.c:71-133 | A connection with an owner, in no slot, in nobody's hands and with nobody filling a slot for it, is never in a slot again in any continuation. |
| RegistrationRaces.RegisterCanLose | src/client.c:87-131 | A concrete schedule that loses a connection so. |
| RegistrationRaces.DoubledInRunExactly | src/client.c:71-99 | A run puts a connection in two slots at some point if and only if one of its steps fills a slot for a connection that is in one already. |
| RegistrationRaces.OneSlotWithoutOverlap | src/client.c:45-133 | In every interleaving in which at most one register of a connection at a time is between loading its owner and storing it, the connection is in at most one slot. |
| RegistrationRaces.RegisterCanDouble | src/client.c:71-99 | A concrete schedule of two overlapping registers that puts a connection in two slots. |
| AllocationRegistry.Registry.Prepend | src/memory_manager.c:444-455 | Four pointer writes put a node in front of the doubly linked list, both directions consistent. |
| AllocationRegistry.Registry.Add | src/memory_manager.c:444-461 | List and map gain exactly that node; both stay well formed. |
| AllocationRegistry.Registry.Splice | src/memory_manager.c:300-312 | Constant-time removal by a node's own links leaves the list without it, both directions consistent. |
| AllocationRegistry.Registry.Remove | src/memory_manager.c:300-319 | List and map lose exactly that node; both stay well formed. |
| AllocationRegistry.Registry.Find | src/memory_manager.c:744-765 | The map lookup and the linear scan it replaces return the same node, and none only if no listed node has the address. |
| AllocationRegistry.Context.Init | src/memory_manager.c:158-171 | Whatever the memory held before, the context starts with an empty list. |
| AllocationRegistry.Context.Register | src/memory_manager.c:535-551 | The context's own list gains the node in front. |
| AllocationRegistry.Context.Remove | src/memory_manager.c:513-533 | The first node with the address is unlinked, wherever it stands; nothing changes when there is none. |
| AllocationRegistry.Context.Detach | src/memory_manager.c:794-801 | The whole list is handed over and the context is left empty. |
| MemoryRuntime.Runtime.constructor | src/memory_manager.c:270-297 | A fresh manager has the global context and no block. |
| MemoryRuntime.Runtime.Create | src/memory_manager.c:407-435 | A new context joins the list and no block changes; a refused allocation changes nothing. |
| MemoryRuntime.Runtime.Malloc | src/memory_manager.c:571-615 | Keeps registry, map and context lists holding the same nodes; on success exactly one block is added, in the current context; size 0 asks for 1; every failure changes nothing. |
| MemoryRuntime.Runtime.Copied | src/memory_manager.c:671-673 | The bytes of the new block: the common prefix of the old one, then its own. |
| MemoryRuntime.Runtime.Reinstate | src/memory_manager.c:630-667 | Taking a node out of the registry and adding it back, as a failed realloc does, restores the map and keeps the lists in step. |
| MemoryRuntime.Runtime.Realloc | src/memory_manager.c:617-712 | Null is malloc, size 0 is free, an unknown address starts a block of its own, a known block moves inside its original context with the common prefix kept; every failure changes nothing. |
| MemoryRuntime.Runtime.Free | src/memory_manager.c:744-792 | Removes exactly the named block from all three structures; unknown and null addresses change nothing. |
| MemoryRuntime.Runtime.Drain | src/memory_manager.c:803-813 | The loop takes exactly the detached nodes out of the registry, map and memory, and no other. |
| MemoryRuntime.Runtime.Reset | src/memory_manager.c:794-821 | Removes exactly the blocks of that context. |
| MemoryRuntime.Runtime.Destroy | src/memory_manager.c:463-487 | Removes exactly that context and its blocks; null and the global context change nothing. |
| MemoryRuntime.Runtime.IsValidPointer | src/memory_manager.c:1040-1065 | True exactly for the addresses of current blocks. |
| MemoryRuntime.Runtime.OwnNodes | src/memory_manager.c:535-551 | A context lists exactly the nodes of the blocks it owns. |
| MemoryRuntime.Runtime.Replay | src/memory_manager.c:407-821 | After every run of calls, creations included, the doubly linked list, the map and the context lists hold the same nodes, each once and in its own context, and the blocks are those of the ledger after that run. |
| AllocationLedger.FreeIsFinal | src/memory_manager.c:744-792 | A repeated free, or one of an address nobody holds, is a no-op. |
| LedgerCalls.MallocMeans | src/memory_manager.c:571-615 | A block of the size asked for, at least one byte, owned by the caller, exactly when the limit, the allocator and the tracking node allow; otherwise nothing. |
| LedgerCalls.ReallocMeans | src/memory_manager.c:617-712 | A known block is gone at size 0; otherwise it moves, inside its own context, to a block of the new size with the common prefix, or nothing changes. |
| LedgerCalls.ReallocOfOther | src/memory_manager.c:617-712 | Null and unknown addresses are a malloc, except that an unknown address at size 0 is nothing. |
| LedgerCalls.FreeMeans | src/memory_manager.c:744-792 | The block is gone and every other is as it was. |
| LedgerCalls.ResetMeans | src/memory_manager.c:794-821 | Exactly the blocks of the context are gone. |
| LedgerCalls.DestroyMeans | src/memory_manager.c:463-487 | So is the context, unless it is the global one, which stays with its blocks. |
| AllocationLedger.GrowThenShrink | src/memory_manager.c:617-712 | Growing a block and shrinking it back gives the same bytes in the same context. |
| AllocationLedger.BlockSurvives | src/memory_manager.c:407-821 | Over whole runs, a block keeps address, owner and bytes until a call names it or its context. |
| AllocationLedger.NoInterference | src/memory_manager.c:407-821 | However the calls of one context interleave with those of all others, what the others are left with is what their own calls alone would have given them. |
| AllocationLedger.SessionLeavesNoTrace | src/memory_manager.c:407-821 | The whole life of a session among all others: once it is created, used and destroyed, the ledger is what it would be had the session never been. |
| AllocationLedger.RunKeepsSound | src/memory_manager.c:407-821 | After every run the owner of every block still exists and no block has the null address. |
| UserStore.Store.SanitizeName | src/user_data.c:548-601 | The copying loop computes the sanitized name. |
| UserNames.SanitizedByte | src/user_data.c:548-601 | Small letters, digits, '-', '_' and '.' stay, capitals become small, white space goes, anything else becomes an underscore. |
| UserNames.SanitizedInPieces | src/user_data.c:548-601 | Names are sanitized byte by byte. |
| UserNames.SanitizedShape | src/user_data.c:548-601 | A file name is never empty, holds only clean bytes, and is kept when sanitized again. |
| UserNames.VariantNames | src/user_data.c:309-330 | The variant files are the base name and the base name with -1 to -31. |
| UserStore.Store.Scan | src/user_data.c:650-705 | The loop finds the lowest variant valid at every address, else the lowest with this user and address and the lowest free one. |
| UserStore.Store.PathFor | src/user_data.c:603-726 | The chosen file: a claim on the name, else a record valid at every address, else this key's, else when creating the first free variant. |
| UserStore.Store.Load | src/user_data.c:996-1025 | Loads the record of the chosen file, normalized for the caller. |
| UserStore.Store.Save | src/user_data.c:1075-1195 | Writes the normalized record to the chosen file and removes the other variants of that user when it is valid at every address; a failure before the rename changes nothing, one after it leaves the record in place and reports failure. |
| UserStore.Store.RemoveVariants | src/user_data.c:1027-1073 | Deletes exactly the stale variants of that user, never the file to keep. |
| UserNames.WideSaveClears | src/user_data.c:1027-1073 | Saving a record valid at every address leaves it in the base file, removes exactly that user's records from the other variants, and leaves every other file alone. |
| UserNames.WideAnswers | src/user_data.c:650-705 | The first variant with a record of the user valid at every address answers at every address. |
| UserTable.PlainLoad | src/user_data.c:603-726 | In a store of plain records, loading is a search for the key among the 32 variants. |
| UserTable.PlainSave | src/user_data.c:1075-1195 | In a store of plain records, saving writes one file: the one holding the key, else the first free one. |
| UserTable.SaveRefusedExactly | src/user_data.c:1075-1195 | A save is refused if and only if no variant holds the key and all 32 are taken. |
| UserTable.PictureAside | src/user_data.c:1184-1194 | A save reports success if and only if its record is in place and its picture is stored; for a plain record the files are the same either way. |
| UserTable.SaveThenLoad | src/user_data.c:996-1195 | Once a save has put its record in place, whatever it reports, its key loads that record, kept field by field; otherwise it leaves every file alone. |
| UserTable.SavedFieldsLoaded | src/user_data.c:922-946 | Field by field: after a save that put its record in place the load gives the saved body, name, password and validity, the address asked for, counts cut to 32 and 16, and flags as 0 or 1. |
| UserTable.SaveKeepsOthers | src/user_data.c:1075-1195 | No save, successful or not, changes what another key loads, even when the users share file names such as bob-1. |
| UserTable.FilesAreTable | src/user_data.c:996-1195 | After any history in which no save breaks the table the files behave as a map keyed by user and address: every key loads the record last put in place for it, and unsaved keys do not load. |
| UserTable.SaveKeepsOthersExactly | src/user_data.c:1075-1195 | A save leaves what every other key loads alone if and only if it puts no such record in place, nor a record without an address over one that has one. |
| UserTable.OrdinaryIsUnbroken | src/user_data.c:1075-1195 | Saves of plain records under addresses never break the table. |
| UserTable.TableLawExactly | src/user_data.c:996-1195 | For every history of saves whatever: the files answer as the table after each of them if and only if none of them breaks it. |
| UserTable.ClaimAnswersForNamesakes | src/user_data.c:603-726 | A record with a password, or valid at every address, once in place, is what every user with the same sanitized name loads. |
| UserTable.NamesakeOverwritesClaim | src/user_data.c:603-726 | A plain save by any user with the same sanitized name overwrites such a record, and the claim is gone. |
| UserTable.ClaimSurvivesExactly | src/user_data.c:603-726 | A plain save leaves such a record alone if and only if it writes nothing or its user has another sanitized name. |
| Utf8.UnitIsEncoding | src/codepage.c:621-653 | Every unit the validator accepts is the encoding of a scalar value. |
| Utf8.EncodingIsUnit | src/codepage.c:26-76 | The encoding of a scalar value is accepted as one unit whatever follows, and carries that value. |
| Utf8.WellFormedIsEncoding | src/codepage.c:621-653 | The accepted byte strings are exactly the concatenations of encodings of scalar values (section 4 of RFC 3629). |
| Utf8.DecompositionUnique | src/codepage.c:26-76 | A byte string has at most one such decomposition. |
| Utf8.EncodingKeepsOrder | src/codepage.c:26-76 | Encodings sort as the code points they encode. |
| Utf8.Validate | src/codepage.c:621-653 | The validation loop answers true if and only if the input is an encoding. |
| Dbcs.Chunk | src/codepage.c:158-184 | A converted chunk never exceeds the room given. |
| Dbcs.LeadBytes | src/codepage.c:200-212 | The lead bytes of each code page. |
| Dbcs.Context.Push | src/codepage.c:191-255 | One byte in: the specified output, and the specified pending lead byte, of which there is at most one. |
| Dbcs.SegmentsKeepStream | src/codepage.c:191-255 | The greedy segmentation covers every input byte once, in order, and only its last segment can be unfinished. |
| Dbcs.RunIsReference | src/codepage.c:191-255 | With an adequate buffer the decoder's output over any stream is the rendering of its greedy segmentation. |
| Dbcs.InadequateLoses | src/codepage.c:191-255 | With an inadequate buffer some stream is decoded wrongly. |
| Dbcs.DecoderExact | src/codepage.c:191-255 | The decoder is exact on every stream if and only if the buffer is adequate for the conversion table. |
| JsonStrings.EscapeApi | src/host/json_api.c:421-478 | The escaped text, at most six bytes for one, with no control byte. |
| JsonStrings.EscapeTranslator | src/translator.c:1091-1150 | The writing pass emits exactly what the sizing pass counted. |
| JsonEscapes.EscapedByte | src/host/json_api.c:421-478 | Of both escapers: which bytes become a backslash and the letter that means them, which a numeric escape, and which stay. |
| JsonEscapes.FitsExactly | src/host/json_api.c:278-419 | An escaped text read back into a buffer gives the text exactly when there is room for all of it. |
| JsonStrings.DecodeLoop | src/host/json_api.c:278-419 | The cursor loop yields the decoded literal, or fails on the first item that is malformed or does not fit. |
| JsonStrings.DecodeApi | src/host/json_api.c:278-419 | Decodes a literal from its opening quote; fails without one, on a malformed item, or when the text does not fit. |
| JsonStrings.DecodeTranslator | src/translator.c:870-992 | The same from after the opening quote; a buffer one longer than the input never makes it fail. |
| JsonEscapes.Hex4Exactly | src/host/json_api.c:222-236 | Four bytes are read as a number if and only if they are its hexadecimal digits, in either letter case. |
| JsonEscapes.EscapedScalar | src/host/json_api.c:364-399 | In both implementations one escape of a scalar value stands for its encoding. |
| JsonEscapes.EscapedPair | src/host/json_api.c:364-399 | Two escapes with the halves of a scalar value above U+FFFF stand for its encoding. |
| JsonEscapes.BrokenEscape | src/host/json_api.c:364-372 | A numeric escape without its four digits is refused. |
| JsonEscapes.EscapedLone | src/translator.c:870-992 | A surrogate that is not half of a pair: the API passes it through, the translator puts U+FFFD in its place. |
| JsonEscapes.HighBeforeOther | src/translator.c:870-992 | A high surrogate before the escape of anything but a low one: the API goes on with that escape, the translator drops it. |
| JsonEscapes.EscapedLetter | src/host/json_api.c:307-402 | The eight letter escapes stand for their bytes; the API refuses any other, the translator takes the letter itself. |
| JsonEscapes.PlainByte | src/host/json_api.c:407-416 | Any other byte stands for itself, but the API refuses control bytes. |
| JsonStrings.DecodeShrinks | src/translator.c:1192-1202 | A literal never decodes to more bytes than it takes. |
| JsonStrings.RoundTrip | src/host/json_api.c:278-478 | In both implementations decoding undoes escaping, wherever the text stands, and stops right after the closing quote; proved for every byte string, of which the source passes those without a NUL. |
| JsonWellFormed.DecodeKeepsWellFormed | src/translator.c:794-992 | The translator's decoder maps well-formed UTF-8 to well-formed UTF-8, surrogate pairs and lone surrogates included. |
| JsonWellFormed.ApiWellFormedExactly | src/host/json_api.c:278-419 | Of a well-formed request the API's decoder yields well-formed UTF-8 if and only if the literal holds no escape of a surrogate that is not half of a pair. |
| AnsiPlaceholders.ScanSequence | src/translation_helpers.c:42-58 | The scan ends where the escape sequence ends. |
| AnsiPlaceholders.TakenShape | src/translation_helpers.c:42-58 | A sequence taken out is ESC and one byte, or ESC, "[", bytes outside 64 to 126 and one inside, or less at the end of the text. |
| AnsiPlaceholders.PrepareText | src/translation_helpers.c:22-100 | The sanitized text and stored sequences of the specification, or failure at a limit. |
| AnsiPlaceholders.PreparesExactly | src/translation_helpers.c:22-100 | Preparing succeeds if and only if there are at most 32 sequences, each shorter than 64 bytes, and stores all of them in order. |
| AnsiPlaceholders.FindToken | src/translation_helpers.c:117-140 | The first matching token is the only one. |
| AnsiPlaceholders.RestoreText | src/translation_helpers.c:102-160 | The restored text, or failure exactly when it does not fit. |
| AnsiPlaceholders.TokensPrefixFree | src/translation_helpers.c:67-73 | No text starts with two different tokens. |
| AnsiPlaceholders.TokenText | src/translation_helpers.c:67-73 | The token is the number in decimal between "[[ANSI" and "]]". |
| AnsiPlaceholders.NoStraddling | src/translation_helpers.c:22-160 | At a plain byte the sanitized text starts with exactly the tokens the message itself starts with: no match straddles plain text and a token. |
| AnsiPlaceholders.SanitizedHasNoEscape | src/translation_helpers.c:22-100 | The sanitized text holds no escape byte. |
| AnsiPlaceholders.RestoreUndoesPrepareExactly | src/translation_helpers.c:22-160 | Restoring a prepared message gives it back if and only if its plain text holds no literal token with the number of one of its own sequences. |
| AnsiPlaceholders.LeadingTokenLost | src/translation_helpers.c:22-160 | Every message that starts with the literal token of one of its own sequences is not restored. |
| AnsiPlaceholders.LiteralTokenExample | src/translation_helpers.c:22-160 | A concrete one: the text of token 0 followed by one escape sequence. |
| Base64Url.EncodeBytes | src/utils/jwt.c:11-41 | The loop and the cut of its surplus compute the unpadded encoding. |
| Base64Url.DecodeText | src/utils/jwt.c:43-103 | The written buffer and the reported length; every guarded write stays inside the buffer. |
| Base64Url.GroupIsSound | src/utils/jwt.c:11-103 | Splitting three bytes into four characters and joining their table values undo each other, also for a short last group. |
| Base64Url.GroupIsLetters | src/utils/jwt.c:11-41 | Three bytes become the letters of their 24 bits, six at a time, in the alphabet of section 5 of RFC 4648. |
| Base64Url.ValueExactly | src/utils/jwt.c:43-103 | The decoding table is that alphabet backwards, with the largest 32-bit number for every other byte. |
| Base64Url.JoinedMeans | src/utils/jwt.c:43-103 | Four values become the three bytes of their number, cut to 24 bits. |
| Base64Url.DecodeUndoesEncode | src/utils/jwt.c:11-103 | Decoding an encoding gives the original bytes, then zeros only, and reports the original length. |
| Base64Url.EncodedAlphabet | src/utils/jwt.c:11-41 | An encoding never contains a dot or a NUL. |
| Jwt.ParseOfDecimal | src/utils/jwt.c:109-225 | Printing a number and reading it back is the identity, before any byte that is no digit. |
| Jwt.TokenParts | src/utils/jwt.c:150-163 | A token is cut at its dots into exactly the parts it was made of. |
| Jwt.CutRejoins | src/utils/jwt.c:150-163 | A token is cut into two dot-free parts and a rest that put together are the token; it cannot be cut exactly when it has fewer than two dots. |
| Jwt.TokenTexts | src/utils/jwt.c:112-118 | The header and the payload, written out as text. |
| Jwt.DecimalShape | src/utils/jwt.c:117-118 | A number is written with a sign exactly when it is negative, and without leading zeros. |
| Jwt.PayloadCut | src/utils/jwt.c:116-119 | A payload that does not fit its buffer of 256 bytes is signed as its first 255. |
| Jwt.JudgeIssued | src/utils/jwt.c:187-225 | An issued payload is accepted with its username exactly until its expiry, whatever bytes follow it in memory. |
| Jwt.SignedPayloadJudged | src/utils/jwt.c:147-225 | Verifying a signed payload judges exactly that payload and the bytes read behind it up to a NUL, whatever the keyed hash. |
| Jwt.VerifiedExactly | src/utils/jwt.c:147-225 | Verifying accepts a token if and only if it is two dot-free parts and the encoded keyed hash of them, and the decoded payload names no expiry that has passed; otherwise nothing is read out of it. |
| Jwt.IssuedTokenAccepted | src/utils/jwt.c:109-225 | Whatever bytes stand behind the decoding buffer: a token issued to a quote-free username whose payload fits is accepted with that username until it expires, and refused afterwards. |
| Jwt.IssuedTokenNamesExactly | src/utils/jwt.c:109-225 | For every username whose payload fits: its token names it back if and only if it holds no quote and the token has not expired. |
| PollState.FlipAddsOrSubtracts | src/host/json_api.c:1831-1867 | Toggling an option adds or subtracts its power of two. |
| PollState.FlipChangesOneBit | src/host/json_api.c:1831-1867 | Toggling changes that option's bit and no other, and toggling twice is the identity. |
| PollState.LowerAt | src/host/json_api.c:1836-1838 | The guarded decrement of a tally in place. |
| NamedPoll.SameNameExactly | src/host/json_api.c:1823-1827 | Two names are the same voter if and only if they differ in nothing but the case of ASCII letters. |
| NamedPoll.GuardNeverSuppresses | src/host/json_api.c:1791-1937 | Under the invariant a supported option has a positive tally, so no guard suppresses a decrement. |
| NamedPoll.ApplyKeepsInv | src/host/json_api.c:1743-1983 | Every vote, start and close keeps the invariant. |
| NamedPoll.ReachableIsBalanced | src/host/json_api.c:1743-1983 | In every reachable poll each tally counts the voters supporting that option, names are distinct ignoring case, there are at most 256 voters and no empty mask. |
| NamedPoll.MultipleMeaning | src/host/json_api.c:1791-1937 | An accepted multiple-choice vote toggles one option of that voter and changes nobody else. |
| NamedPoll.SingleMeaning | src/host/json_api.c:1791-1937 | An accepted single-choice vote makes that option the voter's only one and changes nobody else. |
| NamedPoll.RefusedMeansUnchanged | src/host/json_api.c:1791-1937 | A refused vote changes nothing. |
| NamedPoll.VoteReplies | src/host/json_api.c:1791-1937 | The reply to every vote, in terms of the poll, the voter's selection and whether the voter is listed or there is room. |
| NamedPoll.StartMeans | src/host/json_api.c:1939-1983 | A start takes effect if and only if it has two to five options and no other user's poll is running, unless an operator asks; then everything is fresh. |
| NamedPoll.CloseMeans | src/host/json_api.c:1743-1790 | A close by the owner or an operator stops the poll and keeps everything else. |
| NamedPoll.SecondVoteUndoes | src/host/json_api.c:1791-1937 | Voting the same option twice in multiple mode restores every tally. |
| NamedPollBoard.Board.Begin | src/host/json_api.c:1939-1983 | The start branch in place: a new id, zero tallies, no voters, unless another user's poll is running. |
| NamedPollBoard.Board.VoterIndex | src/host/json_api.c:1821-1828 | The scan finds the first voter with the name, ignoring case. |
| NamedPollBoard.Board.RemoveVoter | src/host/json_api.c:1839-1851 | The memmove removes exactly that voter and keeps the order of the others. |
| NamedPollBoard.Board.Withdraw | src/host/json_api.c:1835-1856 | Giving up an option lowers its tally and clears its bit, and drops the voter when it was the last one. |
| NamedPollBoard.Board.Vote | src/host/json_api.c:1791-1937 | The vote branch on arrays of tallies and voters makes the ledger's change and keeps its invariant. |
| MainPoll.FindPreference | src/host/transport/session_setup.c:2425-2462 | An exact record of user and address if there is one, else the first with the name. |
| MainPollVotes.FoundExactly | src/host/transport/session_setup.c:2425-2462 | A record is found if and only if it is the first of user and address, or, when there is none, the first with the name. |
| MainPoll.CastKeepsInv | src/host/json_api.c:1509-1594 | Every vote, including one that first creates the voter's record, keeps tallies and records in balance. |
| MainPoll.StartBalancedExactly | src/host/json_api.c:1617-1635 | Starting a poll touches no record, and leaves tallies and records in balance if and only if no record already holds a ballot under the new id. |
| MainPoll.StartKeepsInv | src/host/json_api.c:1617-1635 | Below the largest id, starting a poll voids every old ballot. |
| MainPoll.WrappedIdRevivesBallot | src/host/json_api.c:1619-1624 | A concrete state at the largest id whose next poll counts a ballot of the very first one. |
| MainPoll.ReachableIsBalanced | src/host/json_api.c:1509-1635 | After every history of up to 2^64 - 1 started polls each tally counts the records tagged with the running poll that select the option, and no record is tagged with a future id. |
| MainPollVotes.RecordUsed | src/host/transport/session_setup.c:2464-2501 | Which record a vote is cast with, and exactly when there is one. |
| MainPollVotes.VoteMeans | src/host/json_api.c:1509-1594 | A vote that is taken up changes one record, of this voter: in single mode its ballot becomes exactly that option, in multiple mode that option is toggled and no other; each tally changes by exactly the difference, and nothing else changes. |
| MainPollVotes.OtherwiseRefused | src/host/json_api.c:1509-1547 | Every other vote is refused, with its reason, and changes nothing. |
| MainPollVotes.StartMeans | src/host/json_api.c:1596-1635 | A start by an operator with two to five options begins a fresh single-choice poll; any other changes nothing, and no record is touched. |
| MainPollVotes.CloseMeans | src/host/json_api.c:1477-1507 | A close by an operator stops the poll and keeps everything else. |
| MainPollBallots.OneRecordExactly | src/host/transport/session_setup.c:2464-2501 | After every history a name has at most one record if and only if no vote of it came with an address while the record found had none and a slot was free. |
| MainPollBallots.OneBallot | src/host/json_api.c:1509-1635 | Then the name holds at most one ballot. |
| MainPollBallots.OneBallotExactly | src/host/json_api.c:1509-1635 | A name holds at most one ballot throughout a history if and only if it never votes with a record without a ballot while it holds one in another. |
| MainPollBallots.NameVotesTwice | src/host/transport/session_setup.c:2464-2501 | A concrete history in which one name, voting without an address and then with one, holds two ballots. |
| MainPollBoard.Board.EnsurePreference | src/host/transport/session_setup.c:2464-2501 | The record to vote with, created in the first free slot when needed. |
| MainPollBoard.Board.Vote | src/host/json_api.c:1509-1594 | The vote branch on arrays of tallies and records makes the specified change and keeps the balance. |
| MainPollBoard.Board.Begin | src/host/json_api.c:1617-1635 | The start branch in place: a new id and zero tallies, no record touched. |
| RateLimiter.Compare | src/translator.c:203-219 | Orders normalized times as their nanosecond counts. |
| RateLimiter.AddNs | src/translator.c:221-254 | Exact addition clamped at zero, with a normalized result for every duration. |
| RateLimiter.Diff | src/translator.c:256-281 | The distance between two times or zero, normalized. |
| RateLimiter.AddDiffInverse | src/translator.c:221-281 | Adding a non-negative duration and taking the difference undo each other, both ways. |
| RateLimiter.Limiter.Attempt | src/translator.c:434-466 | One pass grants exactly when the shared time allows it; otherwise the wait it names is positive and lasts exactly until the shared time. |
| RateLimiter.Limiter.PenaliseUntil | src/translator.c:497-508 | The shared time is raised to the deadline, never lowered. |
| RateLimiter.Limiter.Penalize | src/translator.c:510-520 | Only status 429 is penalised, by three seconds. |
| RateLimiter.NoDeadlineExceedsNext | src/translator.c:434-508 | After every run of critical sections no grant or penalty deadline exceeds the shared time. |
| RateLimiter.NextIsSomeDeadline | src/translator.c:434-508 | The shared time, once set, is the deadline of some earlier event. |
| RateLimiter.GrantedExactly | src/translator.c:434-508 | In every interleaving a request is granted if and only if it comes at least 800 ms after every earlier grant and not before any earlier penalty deadline. |

## Left out

- Sockets, the SSH library, HTTP, the crypto library, character conversion and charset detection: foreign calls, parameters here.
- Memory past the end of a message buffer: a buffer is followed by a NUL; what a cursor that runs further would find is not represented.
- Wrapping.WrappingConservesText: stated for texts within the limits; text past 4094 bytes of a line, or past 256 lines of a message, is dropped by the code and by the model.
- Wrapping.WrappedLinesFitWidth: needs complete sequences, because an incomplete one can be read differently once it stands at the end of a line.
- The byte-count overflow of a very large display capacity, and the copy made for a frame: a frame is the range it covers.
- Client connections: the owner is represented as set or not, for one manager, and no guarantee is claimed about the active flag; the check that a connection can receive messages, notification of history, the replies of the calls and freeing the manager itself are left out.
- Threads of the memory manager: each call is one step. Deferred frees, epochs, owners, the garbage collector's trees, zeroing before a free, and the allocation counter, which a reset does not decrease, are not represented.
- MemoryRuntime.Runtime.Realloc: a moved block gets a new tracking node, where the code refills the old one; which node object tracks a block is not observable through the calls.
- The list of contexts is a sequence rather than a linked list; shutdown, calloc and the thread's context stack are left out as easy.
- The text fields of a record beyond name and address, which normalization also terminates, the contents of profile pictures, backup files, locking, unreadable or damaged record files, and file names too long for their buffers: the directory is a map from names to records.
- UserTable.TableLawExactly: the keys of the table are names with addresses; what a load without an address finds is left out.
- Incoming requests and whole JSON responses: polls, votes and starts are modelled from the parsed request on, for up to five options; question texts, labels and saved state are not represented.
- Poll commands typed in a terminal session, polls restored from disk, and preference records made for other purposes than voting: they share the poll state but are other entry points.
- MainPoll.ReachableIsBalanced: stated for up to 2^64 - 1 started polls, since the id wraps after that; `MainPoll.StartBalancedExactly` says exactly what happens then.
- Jwt.IssuedTokenNamesExactly: stated for usernames whose payload fits its 256 bytes; times are unbounded integers.
- Jwt.IssuedTokenAccepted: the same.
- RateLimiter.GrantedExactly: stated for normalized clock readings; the width of seconds is not represented, nor is the sleep between attempts.
- Single-byte code pages, the encoder back to a code page, and the choice of a code page other than UTF-8.
- Display widths that depend on the locale, the chat rooms, games, file transfer, security layer and command handlers.
