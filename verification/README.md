# Verified models of six algorithms

This project models six components in Dafny 4.11 and proves what they do. Code that works in place is
modelled in place: classes with the fields the source updates, linked nodes, arrays and loops. Each method is
proved against a specification function, and the laws of the component are proved about that function.

| files | component |
|---|---|
| LExpr, LExprTrees, LExprLaws, LExprLogic, LExprLayout | the expression evaluator of the L interpreter, which evaluates directly off the token stream over five operator levels, and its short-circuit skipping |
| LBlock | the scanner that finds the end of an opened block, past strings and comments |
| LBreak | loops, `break N` and `return`, carried out with two counters and two flags |
| IncrSpec, IncrWorld, IncrSender, IncrReceiver, IncrRun | INCR selection transfers, section 2.7.2 (INCR Properties) of the ICCCM: the two-party protocol, any number of transfers interleaved, the sender's linked records, the receiver's growing buffer |
| XwmSpec, Xwm, XwmLaws | the window manager's desktops: linked clients, recency numbers, live registers for the selected desktop and saved records for the others |
| TarHeader, Tar, TarArchive, TarForeign | the ustar header codec and reader of the pax Interchange Format family in POSIX.1 (IEEE Std 1003.1), and the file type detector's own checksum |
| Scdoc, ScdocDoc, ScdocWords, ScdocLiteral, ScdocBlocks, ScdocParser | the translator from scdoc text to roff: lines, blocks, and the parser with its pushback queue |
| Readline, ReadlineLines | the command-line argument parser of the pager |
| Overstrike | the pager's in-place overstrike filter |

## How the models are built

- Operators, operand values, tests and actions of the L language are opaque: the laws hold for every
  operator table and every choice of them. `LExprLogic` asks of `and`, `or` and comparisons only what
  the interpreter's own do.
- The INCR protocol is a state machine over turns of the sender and of receivers, with the property
  slot and the events between them. `IncrWorld` shows that a run of many transfers is, seen from one of them,
  a run of the protocol. `Sender.HandleAll` runs the event loop on the linked records in step with it, and
  `Receiver.GetAppendProperty` is its reading step on the reallocated buffer; `IncrRun` runs the receiver's loop on
  what the protocol offers it.
- The window manager's state is a list of desktops, each with its list of windows and its focus stack.
  `Xwm.Wm` keeps the concrete state (links, `order`, registers, records) equal to it through every event.
- An scdoc line is read unit by unit. A unit has a source, an output, and what it shows, so that laws
  about lines are laws about sequences of units; `Decode` reads roff text without knowing the units.
- Characters are code points or bytes as in the source. Strings are the part before the first NUL.

## Where the source does not do what it looks like

Each of these is a contract with the exact condition, most with a concrete input beside it.

- A chain that mixes `and` and `or` is evaluated nested to the right (`FaithfulIffOneWord`); a skipped operand
  that opens with a parenthesis ends the skip too early (`SkipLandsIff`), and one before a comma never ends it
  there: such an argument stops at its comma if and only if nothing is skipped (`ArgumentEndsAtCommaIff`).
- A comparison tests the text of whatever token follows it, a block's body or a name too: `while 1 < 2 {order = 1}`
  skips its own body, because that begins with `or`. An expression ends where it is written to end if and only if it
  is no comparison that the text there decides (`TextDecidesIff`, `BlockIsSkipped`).
- A string that ends in an escaped backslash is not closed for the block scanner (`StringClosesIff`); a block
  whose last part is a plain string is found whole if and only if backslashes precede both its quotes or neither
  (`LastStringIff`).
- A skip also ends at a newline inside brackets unless an operator stands directly before it (`SkipReachesEndIff`).
- A destroyed window is not searched for on desktops 1 to current - 1 (`DestroyFindsIff`); a mapped one is looked
  for on the selected desktop only, and adding one that is on another lists it twice (`MapKeepsOrderIff`).
- While running, setting the mode of the selected desktop has no effect: the next save overwrites it
  (`SetDeskMode`). Before the start, when the program does it, the mode is taken (`SetFirstMode`, `Start`).
- Records of transfers are found by property alone (`FindsOwnIff`). A property can be used again, as every request
  of the program does, but a large transfer is safe only when no deletion of the last one is still on its way
  (`ReuseIsSoundIff`); otherwise a receiver may take the first chunk for the whole selection
  (`StaleDeletionTruncates`). The same befalls two windows that use one property (`SharedPropertyTruncates`): a
  deletion is answered on its own window if and only if that window's record comes first (`AnswersOwnIff`).
- Header type 0 and types above 127 do not survive encoding (`ExactRoundTripIff`); sizes near 2^32 stop
  the archive cursor (`CursorAdvancesIff`). The extractor's memory callbacks do not advance, so that chunked
  reads through them begin at the beginning each time, and serve every entry if and only if one chunk holds all
  (`MemoryServesAllIff`). Nothing in the repository reads data that way: the extractor copies it
  from the memory itself (archive-module.c:29-66).
- A text's first line becomes a control line if and only if its first dot or quote is escaped (`ControlLineIff`),
  a later one if and only if it begins with one, escaped or not (`LaterLineControlIff`). A paragraph loses the dot
  it begins with (`ParagraphShowsIff`). A literal block writes a NUL byte if and only if it has a dot that no
  backslash escapes (`LiteralBlockNulIff`).
- A quoted value does not survive a backslash before a quote, or one at its end (`ValueRoundTripIff`). A value
  without quotes is marked as one if and only if something follows it (`BareFlaggedIff`, `BareKindIff`).

## Model

| member | source | states |
|---|---|---|
| LExpr.Evaluator.ParseExprLevel | src/l/pkg/l/libl.c:7984-8110 | The double loop of the evaluator, run in place on its token cursor, gives the value and leaves the cursor where the specification says, for every operator table, `max` and input, errors included. |
| LExpr.Evaluator.ConsumeBinop | src/l/pkg/l/libl.c:7915-7982 | The skipping loop stops on the same token as its specification, or runs into the end of input exactly when that does. |
| LExpr.Evaluator.ParsePrimary | src/l/pkg/l/libl.c:6901-6922 | An operand, or a parenthesised expression with its closing parenthesis consumed; a missing one is no error. |
| LExpr.Evaluator.ParseExpression | src/l/pkg/l/libl.c:8113-8119 | A whole expression: all five levels are open. |
| LExprTrees.LevelComposes | src/l/pkg/l/libl.c:8008-8102 | Folding the operators up to one level and then the looser ones is one fold: a call with a smaller `max` takes a prefix of what a larger one takes. |
| LExprTrees.ClimbIsLevel | src/l/pkg/l/libl.c:8069-8092 | The inner loop, which climbs through tighter operators, is a call with the next tighter level. |
| LExprTrees.ParseTree | src/l/pkg/l/libl.c:7984-8110 | On any printed tree that obeys the levels, in any context of open levels, the evaluator computes the value of that tree and stops right after it, or, where the text after a comparison in it decides, at the end of the skip from there. |
| LExprTrees.ConsumeSkips | src/l/pkg/l/libl.c:7915-7982 | Skipping an operand of `and`/`or` that does not open with a parenthesis reaches the terminator of the chain, whatever brackets the operand holds. |
| LExprLaws.ParseComplete | src/l/pkg/l/libl.c:7984-8119 | A complete expression before a terminator: value and end of the tree, short-circuiting included; the end is the terminator unless a comparison at the end is decided by its text. |
| LExprLaws.Precedence | src/l/pkg/l/libl.c:7984-8119 | Without `and`/`or` in it or in the text after it, evaluation off the token stream is evaluation of the tree in which lower levels bind tighter and equal ones associate to the left. |
| LExprLaws.TextDecidesIff | src/l/pkg/l/libl.c:8041-8063 | Before any text: the cursor is left at the end of such an expression if and only if it is no comparison, or none that this text decides; else it is left where the skip from there ends, with a truth constant as the value. |
| LExprLaws.UniqueReading | src/l/pkg/l/libl.c:7984-8119 | Two trees that obey the levels and print the same are the same: a token sequence has one reading at most (shown by letting the evaluator build trees). |
| LExprLaws.SomeReading | src/l/pkg/l/libl.c:11856-11877 | Every sequence of operands, parenthesised expressions and operators of the table has a reading. |
| LExprLaws.MinimalReads | src/l/pkg/l/libl.c:11856-11877 | Minimal parentheses make any tree obey the levels and keep its value. |
| LExprLaws.PrintEvaluates | src/l/pkg/l/libl.c:7984-8119 | Any tree of table operators without `and`/`or`, printed with minimal parentheses, evaluates back to its own value. |
| LExprLogic.UniformFaithful | src/l/pkg/l/libl.c:8018-8068 | If every chain is all `and` or all `or`, and the text after it is neither, short-circuiting gives the value and the current token of evaluating everything. |
| LExprLogic.PrintEvaluatesUniform | src/l/pkg/l/libl.c:7984-8119 | A tree with `and`/`or` printed with minimal parentheses evaluates back to its own value if each chain printed is all `and` or all `or` and no operand after one opens with a parenthesis. |
| LExprLogic.ChainIsRightNested | src/l/pkg/l/libl.c:8018-8068 | The value of any chain of comparisons is that of the chain nested to the right, although the levels nest it to the left; the cursor is left at its terminator unless only the last comparison is decided, by the terminator's text. |
| LExprLogic.FaithfulIffOneWord | src/l/pkg/l/libl.c:8018-8068 | A chain keeps its meaning for all operands if and only if it is all `and` or all `or`. |
| LExprLogic.MixedIsMisread | src/l/pkg/l/libl.c:8018-8068 | Every mixed chain has operands for which the answer differs from that of its tree. |
| LExprLogic.MixedChainExample | src/l/pkg/l/libl.c:11740-11795 | `2 < 1 and 1 < 2 or 1 < 2` is true by its levels and evaluates to false. |
| LExprLogic.SkipStopsInside | src/l/pkg/l/libl.c:7921-7934 | An operand that opens with a parenthesis is left at that parenthesis' closing one, because the token after the operator is not examined. |
| LExprLogic.SkipLandsIff | src/l/pkg/l/libl.c:7915-7982 | The skip reaches the end of the expression if and only if no parenthesis follows the operator. |
| LExprLogic.ChainEndsAtTerminatorIff | src/l/pkg/l/libl.c:8018-8068 | `c and r` (or `or`) leaves the cursor at the terminator if and only if, where `c` decides, `r` does not open with a parenthesis and, where it does not, `r` is not decided by the terminator's text. |
| LExprLogic.BlockIsSkipped | src/l/pkg/l/libl.c:8049-8061 | An instance: after `1 < 2` a block that begins with a name like `order` is skipped with the line after it. |
| LExprLogic.SkipPassesComma | src/l/pkg/l/libl.c:7915-7982 | Before a comma no skip ends at the end of its expression: one that opens with no parenthesis reads on through the comma, the others stop at a parenthesis before it. |
| LExprLogic.ArgumentEndsAtCommaIff | src/l/pkg/l/libl.c:8018-8068 | An argument `c and r` (or `or`) stops at its comma if and only if `c` does not decide. |
| LExprLogic.CommaIsSkipped | src/l/pkg/l/libl.c:7915-7982 | An instance: `2 < 1 and 1` before `, 7 )` swallows the next argument. |
| LExprLayout.LaidTree | src/l/pkg/l/libl.c:7396-7399 | Newlines before operands and opening parentheses change nothing: value and stopping place of the tree they lay out, in any context of open levels, `and`/`or` included where every skip goes over its operand. |
| LExprLayout.LayoutEvaluates | src/l/pkg/l/libl.c:7984-8119 | Every layout of a tree without `and`/`or` over any number of lines is evaluated as the tree, and the cursor is left at its end. |
| LExprLayout.SkipReachesEndIff | src/l/pkg/l/libl.c:7915-7982 | Over any text of words, balanced parentheses, indices and `if … then`, newlines, blocks and semicolons: the skip reaches its end if and only if its first token opens no bracket and every newline and block in it, at any depth, stands directly after an operator; at the end of the input it fails. |
| LExprLayout.LaidSkipsIff | src/l/pkg/l/libl.c:7915-7982 | So for an operand laid out over several lines. |
| LExprLayout.StrayClosers | src/l/pkg/l/libl.c:7939-7962 | Closing tokens that match nothing: directly after an operator one is passed over, and an index bracket closes an open parenthesis when no index is open. |
| LExprLayout.UnclosedParenthesis | src/l/pkg/l/libl.c:6901-6922 | An opening parenthesis that is never closed changes nothing. |
| LExprLayout.OperandMissing | src/l/pkg/l/libl.c:8018-8025 | At the end of the input an operator is applied to the value that was in the result slot. |
| LBlock.GetOpenedBlock | src/l/pkg/l/libl.c:1005-1086 | The loop with its four flags returns the block and the text after it as its specification does, or reports an unended block. |
| LBlock.LeadsBody | src/l/pkg/l/libl.c:1042-1082 | Any body built from text, nested braces, comments and strings is passed over as a whole, at the depth it began. |
| LBlock.FindsMatchingBrace | src/l/pkg/l/libl.c:1005-1086 | The scanner stops at the brace that closes the body, for every well-formed body in which no string ends in, or follows, a backslash. |
| LBlock.BlockIsItsBody | src/l/pkg/l/libl.c:3106-3119 | The block token is exactly the body, character by character, and what follows the brace is what follows it in the text. |
| LBlock.PlainBodiesScan | src/l/pkg/l/libl.c:1062-1075 | Without backslashes outside comments that condition always holds. |
| LBlock.StringClosesIff | src/l/pkg/l/libl.c:1062-1075 | The scanner leaves a string at its closing quote if and only if the string does not end in an escaped backslash. |
| LBlock.LeadsStringIff | src/l/pkg/l/libl.c:1062-1075 | With a backslash before the string too: its closing quote leaves the scanner outside if and only if a backslash precedes both quotes or none, for content without braces, `#` and quotes of its own. |
| LBlock.LastStringIff | src/l/pkg/l/libl.c:1005-1086 | A block whose last part is such a string is found whole under exactly that condition, and otherwise has no end, when the quote does not come again. |
| LBlock.BackslashRunsOn | src/l/pkg/l/libl.c:1062-1075 | After a string that ends in an escaped backslash the block has no end, unless the same quote comes again. |
| LBreak.Interp.HandleBreak | src/l/pkg/l/libl.c:7457-7490 | `break`, `break N` and `break N if` set the counter so that it agrees with the exit they mean; outside loops, and for more loops than there are, an error. |
| LBreak.Interp.ParseStmt | src/l/pkg/l/libl.c:7492-7512 | Every statement: the returned code, counters and flags agree with how the structured semantics says it ends; unless it returns, the loop counter is the loop depth, and the break counter is zero unless a break is under way. |
| LBreak.Interp.ParseString | src/l/pkg/l/libl.c:6135-6168 | The statements of a block in order, until one does not end normally or returns. |
| LBreak.Interp.CallFunction | src/l/pkg/l/libl.c:6318-6403 | A call: the body starts with no loops around it, its return ends the call, and the loop counter comes back although a return leaves it raised. |
| LBreak.Interp.ParseWhile | src/l/pkg/l/libl.c:8637-8746 | A `while` loop under the counters agrees with its structured meaning, left by its test, a break or a return. |
| LBreak.Interp.ParseTimes | src/l/pkg/l/libl.c:9502-9593 | A loop for n times under the counters agrees with its structured meaning, breaks and returns included. |
| LBreak.Interp.ParseForever | src/l/pkg/l/libl.c:9799-9891 | An endless loop under the counters agrees with its structured meaning, breaks and returns included. |
| LBreak.Interp.EndLoop | src/l/pkg/l/libl.c:8730-8745 | At the end of a loop the flag says whether another encloses it; a break still under way goes on with one level less, and the counter is zero where it stops. |
| LBreak.NeverLeavesMore | src/l/pkg/l/libl.c:7476-7477 | No statement leaves more loops than enclose it. |
| LBreak.LeavingIsEnding | src/l/pkg/l/libl.c:8740-8745 | Leaving n loops is for the n-th enclosing loop to end normally: nothing inside it runs any more, through any blocks between. |
| LBreak.BreakLeavesExactly | src/l/pkg/l/libl.c:7457-7490 | `break N` in any nest of loops and blocks continues right after the N-th enclosing loop, and is an error if and only if there are fewer. |
| LBreak.ReturningEndsCall | src/l/pkg/l/libl.c:8707-8713 | `return` in any nest of loops and blocks is for the innermost call to end normally: nothing inside it runs any more. |
| LBreak.FramesAreContexts | src/l/pkg/l/libl.c:6140-6168 | The frames used for nests are the nests: running a statement where it stands is running it and resuming its frames. |
| LBreak.IfRunsChosen | src/l/pkg/l/libl.c:8555-8567 | In any surroundings a conditional goes on with the block its condition chooses, and with what comes after it. |
| LBreak.ContinueIterates | src/l/pkg/l/libl.c:8719-8722 | `continue` goes on with the next iteration of the innermost loop, past everything before it; outside loops it is an error, and nothing happens when its condition fails. |
| LBreak.ActGoesOn | src/l/pkg/l/libl.c:6140-6168 | An action changes the world, and what is left goes on. |
| LBreak.FailedConditions | src/l/pkg/l/libl.c:7457-7490 | `break` and `return` with a failing condition do nothing, except that a break out of too many loops is an error still. |
| LBreak.ReturnGoesOnAfterCall | src/l/pkg/l/libl.c:8707-8713 | `return` whose condition holds goes on after the innermost call. |
| LBreak.LoopsThatAreOver | src/l/pkg/l/libl.c:8689 | A loop whose test fails, or whose count is used up, ends without running its body. |
| LBreak.TimesRunsCount | src/l/pkg/l/libl.c:9526-9573 | A body without exits runs exactly as often as the loop says. |
| LBreak.WhileRunsToTest | src/l/pkg/l/libl.c:8681-8727 | A body without exits runs as often as the test holds before it fails first. |
| LBreak.MoreFuel | src/l/pkg/l/libl.c:9829-9866 | The bound on iterations never changes how a run that ends does end. |
| IncrSender.Sender.ChangeProperty | src/x/pkg/xsel/libxsel.c:891-951 | What fits is written at once and leaves the list alone; for the rest the property announces the size and one new record, of format 8, is put in front of the well-formed list. |
| IncrSender.LargeIsText | src/x/pkg/xsel/libxsel.c:998-1060 | Of the answers only text, of format 8, can be too large: timestamps and target lists, of format 32, always fit. |
| IncrSender.Sender.Add | src/x/pkg/xsel/libxsel.c:682-693 | Adding a record keeps the doubly linked list and puts the record first. |
| IncrSender.Sender.Remove | src/x/pkg/xsel/libxsel.c:697-711 | Removing a record relinks its neighbours: the list without that place, order kept. |
| IncrSender.Sender.FindTrack | src/x/pkg/xsel/libxsel.c:741-749 | The first record with the property, or none. |
| IncrSender.Sender.RunStage | src/x/pkg/xsel/libxsel.c:957-989 | One stage of a transfer: what is written and how the record moves on. |
| IncrSender.Sender.ContinueIncr | src/x/pkg/xsel/libxsel.c:1147-1160 | A stage run on the record at a place: that record moves on, or is gone when the transfer is complete; the others are untouched. |
| IncrSender.Sender.PropertyNotify | src/x/pkg/xsel/libxsel.c:1351-1360 | A deleted property advances the record found for it and no other; any other event does nothing. |
| IncrSender.Sender.TakeEvent | src/x/pkg/xsel/libxsel.c:1351-1360 | A property event handled on the linked records is the sender's turn in the world of all transfers. |
| IncrSender.Sender.TakeRequest | src/x/pkg/xsel/libxsel.c:1344-1349 | A request for text handled on the linked records is the request's turn. |
| IncrSender.Sender.HandleAll | src/x/pkg/xsel/libxsel.c:1322-1368 | Any run of requests and events, with receivers moving in between, handled on the linked records, ends in the world the specification ends in. |
| IncrReceiver.Receiver.GetAppendProperty | src/x/pkg/xsel/libxsel.c:377-415 | Reading a property of any type and format: bytes are appended with a terminating zero in an allocation above the offset, which is the reading step of the protocol; other formats add nothing; false exactly at an empty value and, with the buffer released, at one that is not text. |
| IncrReceiver.WaitIncr | src/x/pkg/xsel/libxsel.c:426-475 | Over any events, the loop passes over all that announce no new value, stops at the first value that is empty or no text, and returns the concatenation of what came before, or nothing in the second case. |
| IncrReceiver.CollectsSelection | src/x/pkg/xsel/libxsel.c:426-475 | What it collects of the writes of a complete transfer is the whole selection. |
| IncrReceiver.OnlyBytesAdd | src/x/pkg/xsel/libxsel.c:395-411 | Data in bytes adds these bytes, data of any other format nothing. |
| IncrSpec.GrowsAsNeeded | src/x/pkg/xsel/libxsel.c:396-401 | The allocation is the larger of what it was and one byte more than is held. |
| IncrRun.OffersWrites | src/x/pkg/xsel/libxsel.c:426-475 | In every run of the protocol in which the receiver finishes, the values it meets at new-value events are the sender's writes, up to the empty one. |
| IncrRun.WaitRun | src/x/pkg/xsel/libxsel.c:426-475 | The receiving loop run on the events of any such run returns the selection. |
| IncrSpec.StartInvIff | src/x/pkg/xsel/libxsel.c:891-948 | A request establishes the invariant of the protocol if and only if it is small or no deletion of an earlier transfer is still on its way. |
| IncrSpec.StaleDeletionTruncates | src/x/pkg/xsel/libxsel.c:1351-1360 | With such a deletion anywhere in the mail there is a run in which the receiver of a large selection ends with its first chunk. |
| IncrSpec.TwoStaleDeletions | src/x/pkg/xsel/libxsel.c:1351-1360 | With two of them the second chunk is appended to the first before the receiver reads either. |
| IncrSpec.ReuseIsSoundIff | src/x/pkg/xsel/libxsel.c:891-989 | In every run the receiver that finishes holds the selection, if and only if it is small or no such deletion is on its way. |
| IncrSpec.SenderKeepsInv | src/x/pkg/xsel/libxsel.c:957-989 | Every sender step keeps the invariant of sender, property slot, events and receiver. |
| IncrSpec.ReceiverKeepsInv | src/x/pkg/xsel/libxsel.c:426-475 | Every receiver step keeps it. |
| IncrSpec.NextWrite | src/x/pkg/xsel/libxsel.c:957-989 | A write continues the data where the last one ended and is at most `MaxReq` long; after the last chunk comes one empty write. |
| IncrSpec.WritesAreAnnounced | src/x/pkg/xsel/libxsel.c:957-989 | Every write is announced to both sides as a new value, and the empty one at the end as the selection besides. |
| IncrSpec.ReadsAreAnswered | src/x/pkg/xsel/libxsel.c:377-415 | Every value the receiver takes is answered by a deletion, which both sides are told of. |
| IncrSpec.NeverStuck | src/x/pkg/xsel/libxsel.c:426-475 | Until the receiver has its data, one of the two sides has something to do. |
| IncrSpec.SenderProgress | src/x/pkg/xsel/libxsel.c:957-989 | Every sender step decreases a bound on what is left to do. |
| IncrSpec.ReceiverProgress | src/x/pkg/xsel/libxsel.c:377-415 | Every receiver step decreases it. |
| IncrWorld.FindsOwnIff | src/x/pkg/xsel/libxsel.c:741-749 | Looking records up by property finds everyone's own record if and only if no two share a property. |
| IncrWorld.AnswersOwnIff | src/x/pkg/xsel/libxsel.c:1351-1360 | Of several windows that use one property, a deletion on one is answered there if and only if its record is the first for that property. |
| IncrWorld.SharedPropertyTruncates | src/x/pkg/xsel/libxsel.c:1351-1360 | For any two large selections asked for so, the deletion on the first window sends the second its first chunk too early, which it takes for the whole. |
| IncrWorld.NoInterference | src/x/pkg/xsel/libxsel.c:1351-1360 | A step of one transfer is a step of the two-party protocol for it and does not exist for any other transfer; a property may be used again once its transfer is over. |
| IncrWorld.NextInv | src/x/pkg/xsel/libxsel.c:1322-1368 | Every step of any number of transfers keeps the invariant of each of them and the list. |
| IncrWorld.Safety | src/x/pkg/xsel/libxsel.c:891-989 | After any run, buffer and unread value together are what was sent; a finished receiver has the whole selection, its allocation exceeds its offset, no write is too large. |
| IncrWorld.RunWorlds | src/x/pkg/xsel/libxsel.c:1322-1368 | Every run of the world is a sequence of worlds such as the event loop is proved against. |
| IncrWorld.ListIsUnfinished | src/x/pkg/xsel/libxsel.c:957-989 | The list holds exactly the unfinished large transfers; a finished one has made ceil(n/max) writes and one empty one, which concatenate to the data. |
| IncrWorld.TransferEnds | src/x/pkg/xsel/libxsel.c:957-989 | A transfer, on a new property or one used again, takes a bounded number of turns however the others interleave with it. |
| IncrWorld.QuiescentIsComplete | src/x/pkg/xsel/libxsel.c:1322-1368 | When nothing can move any more, every receiver has its whole selection. |
| Xwm.Wm.constructor | src/x/pkg/xwm/libxwm.c:656-670 | All desktops start empty, one more than asked for. |
| Xwm.Wm.SaveDesktop | src/x/pkg/xwm/libxwm.c:322-329 | The registers, mode and growth among them, are stored in the record of the selected desktop. |
| Xwm.Wm.SelectDesktop | src/x/pkg/xwm/libxwm.c:558-566 | The registers, mode and growth among them, are loaded from the record of another desktop; lists, orders and records stay valid. |
| Xwm.Wm.UpdateCurrent | src/x/pkg/xwm/libxwm.c:410-446 | The walk that renumbers `order` is move-to-front on the focus stack; `current` gets the focus, or the first transient if there is one. |
| Xwm.Wm.AddWindow | src/x/pkg/xwm/libxwm.c:331-408 | A new client is first in its list; the links are well formed, the orders number the new stack, and the growth is shared out. |
| Xwm.Wm.RemoveWindow | src/x/pkg/xwm/libxwm.c:448-512 | A client is unlinked and the orders above its own close up: the stack without it, its new top is `current`. |
| Xwm.Wm.NextWin | src/x/pkg/xwm/libxwm.c:672-681 | The focus goes to the next client in the list, around its end. |
| Xwm.Wm.PrevWin | src/x/pkg/xwm/libxwm.c:683-699 | The focus goes to the previous client, around its beginning. |
| Xwm.Wm.KillClient | src/x/pkg/xwm/libxwm.c:746-751 | The focused client is removed from its list and from the focus stack; with an empty list nothing happens. |
| Xwm.Wm.UnmapNotify | src/x/pkg/xwm/libxwm.c:290-300 | An unmapped window of the selected desktop is removed. |
| Xwm.Wm.ChangeDesktop | src/x/pkg/xwm/libxwm.c:753-787 | Switching desktops, with its intermediate selections, changes only which desktop is selected. |
| Xwm.Wm.SwitchThereAndBack | src/x/pkg/xwm/libxwm.c:753-787 | After switching away and back the registers, and the order and links of every client on every desktop, are what they were. |
| Xwm.Wm.SetDeskMode | src/x/pkg/xwm/libxwm.c:881-885 | While events are handled, the mode of a numbered desktop is set; for the selected one that has no lasting effect. |
| Xwm.Wm.SetFirstMode | src/x/pkg/xwm/libxwm.c:881-885 | Before the start it is set for every numbered desktop, the first too. |
| Xwm.Wm.Start | src/x/pkg/xwm/libxwm.c:907 | The start loads the first desktop's record, its mode included. |
| Xwm.Wm.SearchDesks | src/x/pkg/xwm/libxwm.c:268-284 | The search under the moving loop bound ends, and removes the window from the first visited desktop that has it. |
| Xwm.Wm.DestroyNotify | src/x/pkg/xwm/libxwm.c:261-288 | The same with the originally selected desktop selected again. |
| Xwm.Wm.MapRequest | src/x/pkg/xwm/libxwm.c:171-259 | A mapped window that is on no other desktop is added to the selected desktop unless it is listed there. |
| Xwm.Wm.MapOnDesk | src/x/pkg/xwm/libxwm.c:171-259 | A window sent to a desktop by an entry, and on no other one, is added there, and followed or not. |
| Xwm.Wm.HandleAll | src/x/pkg/xwm/libxwm.c:595-601 | Any sequence of events, run in place on registers, records and linked clients, does what the specification does, with every invariant kept. |
| XwmSpec.StepOk | src/x/pkg/xwm/libxwm.c:171-300 | Every event keeps the lists free of duplicates, the focus stacks permutations of them, and the desktops disjoint. |
| XwmSpec.MapKeepsOrderIff | src/x/pkg/xwm/libxwm.c:171-190 | Adding a mapped window keeps the desktops disjoint and free of duplicates if and only if it was on no desktop. |
| XwmSpec.NextUndoesPrev | src/x/pkg/xwm/libxwm.c:672-699 | The next-window and previous-window commands undo each other, in both orders. |
| XwmSpec.NeighboursOf | src/x/pkg/xwm/libxwm.c:672-699 | The next window is one further down the list, or the first after the last; the previous one is one further up, or the last before the first. |
| XwmSpec.VisitedAt | src/x/pkg/xwm/libxwm.c:268-269 | The loop of the search selects the desktops from the current one up, and then the first. |
| XwmSpec.GuardEnds | src/x/pkg/xwm/libxwm.c:268-269 | Its moving bound stops it right after those. |
| XwmLaws.FocusHistory | src/x/pkg/xwm/libxwm.c:331-512 | From empty desktops, after any run, `order` ranks the clients of every desktop by when each was last given the focus. |
| XwmLaws.CloseKeepsOrder | src/x/pkg/xwm/libxwm.c:448-512 | Closing the focused client focuses the most recently focused survivor; closing another leaves the focus. |
| XwmLaws.MapPlaces | src/x/pkg/xwm/libxwm.c:171-259 | A new window comes first in its list; a client gets the focus and a transient one does not; the desktop an entry names is followed or not; no other desktop changes. |
| XwmLaws.UnmapUndoesMap | src/x/pkg/xwm/libxwm.c:261-300 | Unmapping or destroying a window just mapped brings every list and stack back; unmapping does not look at transients. |
| XwmLaws.GrowthShared | src/x/pkg/xwm/libxwm.c:331-512 | With one window more the growth is scaled down, rounded down, and gone when it is not positive; with fewer than three left it is gone. |
| XwmLaws.SetModeOnly | src/x/pkg/xwm/libxwm.c:881-885 | Setting a mode changes that of the numbered desktop and nothing else, and nothing for the selected or the last one. |
| XwmLaws.RunLeavesAlone | src/x/pkg/xwm/libxwm.c:322-566 | A desktop that a run does not touch is, after any amount of switching, what it was. |
| XwmLaws.DestroyFindsIff | src/x/pkg/xwm/libxwm.c:261-288 | A destroyed window is forgotten if and only if its desktop is the first one or not below the selected one. |
| XwmLaws.DestroyMissesExample | src/x/pkg/xwm/libxwm.c:268-269 | With the third desktop selected, a window destroyed on the second stays listed. |
| Tar.ComputeChecksum | src/y/pkg/archive/microtar.c:71-82 | The summing loop over the header array, with blanks in the checksum field. |
| Tar.HeaderToRaw | src/y/pkg/archive/microtar.c:192-211 | Filling the array field by field gives the encoded header. |
| TarHeader.ChecksumBound | src/y/pkg/archive/microtar.c:71-82 | The checksum lies between 256 and 256 + 492 * 255, so six octal digits hold it. |
| TarHeader.RoundTrip | src/y/pkg/archive/microtar.c:114-211 | Decoding an encoded header succeeds and gives the header back, with its type as a signed byte, zero as a regular file. |
| TarHeader.ExactRoundTripIff | src/y/pkg/archive/microtar.c:114-211 | The header itself comes back if and only if its type is 1 to 127 or a sign-extended byte. |
| TarHeader.TypeZeroExample | src/y/pkg/archive/microtar.c:192-211 | Type 0 comes back as the character 0. |
| TarHeader.CorruptionDetected | src/y/pkg/archive/microtar.c:114-124 | Changing any one byte of an encoded header outside the checksum field is noticed. |
| TarArchive.CursorAdvancesIff | src/y/pkg/archive/microtar.c:307-319 | The cursor stays on block boundaries, and moves forward if and only if neither the rounding nor the position wraps around. |
| TarArchive.HeadersInOrder | src/y/pkg/archive/microtar.c:348-366 | At the offsets of the entries the headers are read in order, and after the last the null record. |
| TarArchive.NextInOrder | src/y/pkg/archive/microtar.c:307-319 | From each entry the cursor goes to the next one, strictly forward. |
| TarArchive.Reader.ReadHeader | src/y/pkg/archive/microtar.c:348-366 | Reads the header under the cursor and returns to it, whether or not the stream advances. |
| TarArchive.Reader.Next | src/y/pkg/archive/microtar.c:307-319 | Seeks to the next header, or reports the error of the read or seek. |
| TarArchive.Reader.List | src/y/pkg/archive/archive-module.c:91-123 | The loop of the extractor meets exactly the headers of the entries, in order; an archive without entries is refused. |
| TarArchive.Reader.Find | src/y/pkg/archive/microtar.c:322-345 | The first entry with the name, with the cursor left on it, or not found. |
| TarArchive.Reader.ReadData | src/y/pkg/archive/microtar.c:369-400 | Reads consecutive slices of the data; the read that takes the last byte puts the cursor back on the header; one that asks for more than is left wraps the remaining size around, whatever the stream delivers. |
| TarArchive.Reader.ReadChunks | src/y/pkg/archive/microtar.c:369-400 | With an advancing stream any split of the size gives the data, and through memory callbacks the beginning of the data for each chunk; the cursor is back on the header. |
| TarArchive.MemoryServesAllIff | src/y/pkg/archive/archive-module.c:70-89 | What `ReadChunks` gets through the memory callbacks is the data, whatever the data, if and only if at most one chunk is not empty. |
| TarForeign.ScanNumber | src/y/pkg/archive/microtar.c:126-139 | White space, a sign and octal digits are read as the weight of the digits by place, cut to 32 bits, or the largest number when 64 bits are too few; without digits nothing is read. |
| TarForeign.ForeignHeader | src/y/pkg/archive/microtar.c:114-190 | A header with blank-padded numbers, full name fields and a prefix is read field by field, with the prefix joined to the name, or refused for its checksum. |
| TarForeign.EmptyFields | src/y/pkg/archive/microtar.c:114-139 | A field without digits leaves what the variable held; a checksum that begins with a zero byte ends the archive. |
| TarForeign.IsTarIff | src/j/pkg/filetype/libfiletype.c:49-67 | The detector skips blanks and zeros before the digits and accepts if and only if there is a name, a zero byte after the digits, and the right sum. |
| TarForeign.SumsDiffer | src/j/pkg/filetype/libfiletype.c:40-47 | Its sum is the reader's and 256 for every byte of the checksum field that is not ASCII. |
| TarForeign.PaddedDetectorsIff | src/j/pkg/filetype/libfiletype.c:32-67 | Of padded headers the reader accepts `is_tar` accepts those, and only those, with a name, a zero byte, not a blank, after the digits, and a checksum field in ASCII. |
| TarForeign.ZeroFirst | src/j/pkg/filetype/libfiletype.c:49-54 | A checksum field that begins with a zero byte ends the archive for the reader, and is a header for the detector when its digits are right. |
| TarForeign.EncodedLayout | src/y/pkg/archive/microtar.c:192-211 | An encoded header byte by byte: each field at its place, zeros behind it, and zeros for group, magic number and prefix. |
| Tar.IsTar | src/j/pkg/filetype/libfiletype.c:32-67 | The detector's loops over the block compute its specification. |
| Tar.SumsAgree | src/j/pkg/filetype/libfiletype.c:40-47 | With ASCII in the checksum field and twelve zeros at the end both detectors add up the same. |
| Tar.DetectorsAgree | src/j/pkg/filetype/libfiletype.c:32-67 | On blocks with a checksum field of six digits, `is_tar` accepts if and only if there is a name and the archive reader accepts. |
| Tar.AcceptsEncodedIff | src/j/pkg/filetype/libfiletype.c:32-67 | `is_tar` accepts an encoded header if and only if its name is not empty. |
| ScdocParser.Parser.Getch | src/j/pkg/scdoc/libscdoc.c:35-67 | Reading takes the next pending character: pushed back ones first, last in first out, then the input. |
| ScdocParser.Parser.Pushc | src/j/pkg/scdoc/libscdoc.c:69-72 | Pushing back puts the character before what is pending; called with at most one character queued, so the queue never holds more than two. |
| ScdocParser.Parser.ParseFormat | src/j/pkg/scdoc/libscdoc.c:278-302 | Opens a font when none is open, closes the one that is, refuses to nest. |
| ScdocParser.Parser.ParseLinebreak | src/j/pkg/scdoc/libscdoc.c:304-331 | A plus, or an explicit line break; what was looked at in vain is pending again. |
| ScdocParser.Parser.ParseText | src/j/pkg/scdoc/libscdoc.c:333-432 | A line of text appends exactly the output of its units, and leaves pending what follows the line, with one character queued at most. |
| ScdocParser.Parser.ParseHeading | src/j/pkg/scdoc/libscdoc.c:434-483 | A heading of level one or two, copied to the end of its line. |
| ScdocParser.Parser.ParseIndent | src/j/pkg/scdoc/libscdoc.c:485-515 | The level of a line and the openings and closings written for it. |
| ScdocParser.Parser.ParseList | src/j/pkg/scdoc/libscdoc.c:528-589 | A list with its headers, numbers and lines. |
| ScdocParser.Parser.ParseLiteral | src/j/pkg/scdoc/libscdoc.c:591-685 | A literal block, to its closing backquotes or the end of input. |
| ScdocParser.Parser.ParseDocument | src/j/pkg/scdoc/libscdoc.c:949-1044 | All blocks of a document, through all the functions above; tables end the model. |
| Scdoc.AcceptedIffLegal | src/j/pkg/scdoc/libscdoc.c:333-432 | A line is accepted if and only if it is a sequence of units each legal where it stands, and it is read in one way only. |
| Scdoc.TextPreserved | src/j/pkg/scdoc/libscdoc.c:333-432 | For every accepted line the output shows the source with escapes resolved, markers gone, explicit breaks as their request and invalid characters dropped; its fonts alternate and end as `flags` says. |
| Scdoc.FontsAlternate | src/j/pkg/scdoc/libscdoc.c:278-302 | Font escapes of a legal line alternate between opening and closing, from and to the fonts in `flags`. |
| Scdoc.ControlLineIff | src/j/pkg/scdoc/libscdoc.c:396-413 | The first line that a text writes begins with a control character if and only if the source escapes its first dot or quote. |
| Scdoc.LaterLineControlIff | src/j/pkg/scdoc/libscdoc.c:383-413 | A line begun by an explicit break or an escaped newline begins with a control character if and only if its source begins with a dot or a quote, escaped or not. |
| Scdoc.EscapedDotExample | src/j/pkg/scdoc/libscdoc.c:349-360 | An escaped dot at the start of a line is written bare. |
| Scdoc.BreakThenDotExample | src/j/pkg/scdoc/libscdoc.c:383-406 | An instance: a dot after an explicit break is written where it begins a control line. |
| ScdocWords.UnderscoreIff | src/j/pkg/scdoc/libscdoc.c:362-377 | By the characters on both sides and the open font: exactly when an underscore opens, closes, stands for itself or is an error. |
| ScdocWords.UnderscoreAfter | src/j/pkg/scdoc/libscdoc.c:337-428 | What an underscore looks back at, by what comes before it: an explicit break or punctuation lets it mark, any other plain character decides, and a plus, an underscore, an escape or a marker is looked through. |
| ScdocWords.SnakeLine | src/j/pkg/scdoc/libscdoc.c:362-377 | A line of letters, digits and underscores that begins with one of the first two is written as it is, with no font. |
| ScdocWords.MarkedWord | src/j/pkg/scdoc/libscdoc.c:278-302 | `_word_` and `*word*` are written as the word between its font escapes, underscores inside it kept. |
| ScdocWords.NoSentenceEnds | src/j/pkg/scdoc/libscdoc.c:394-422 | Every unescaped full stop, exclamation mark, question mark and quote in the output is followed by the escape that shows nothing. |
| ScdocDoc.IndentBalanced | src/j/pkg/scdoc/libscdoc.c:485-515 | A line's level rises by one at most, and what is written moves to exactly that level. |
| ScdocDoc.ListBalanced | src/j/pkg/scdoc/libscdoc.c:528-589 | A list moves the indentation to the level it ends at. |
| ScdocDoc.LiteralBalanced | src/j/pkg/scdoc/libscdoc.c:591-685 | A literal block closes the level its opening line opened, unless the input ends inside. |
| ScdocDoc.DocumentBalanced | src/j/pkg/scdoc/libscdoc.c:949-1044 | Over any document openings minus closings is the level, no prefix closes more than is open, and only a literal block that the input ends in leaves one more. |
| ScdocDoc.DocumentOneFont | src/j/pkg/scdoc/libscdoc.c:949-1044 | After any document at most one font is open. |
| ScdocDoc.ParagraphShowsIff | src/j/pkg/scdoc/libscdoc.c:949-1044 | What a paragraph's output shows is its source, escapes resolved, if and only if it does not begin with a dot; then it shows the source without that dot. |
| ScdocDoc.LiteralBlockNulIff | src/j/pkg/scdoc/libscdoc.c:591-685 | From text without NUL a literal block writes a NUL byte if and only if it has a dot that no backslash escapes. |
| ScdocDoc.LiteralDotExample | src/j/pkg/scdoc/libscdoc.c:653-655 | An instance: a whole block of one line, a dot. |
| ScdocLiteral.LiteralShows | src/j/pkg/scdoc/libscdoc.c:591-685 | Every closed literal block shows its opening requests, the text between its fences and its closing ones: escapes resolved, backquotes that do not close and tabs beyond the level kept, a NUL after each bare dot. |
| ScdocLiteral.LiteralClosesIff | src/j/pkg/scdoc/libscdoc.c:591-685 | A literal block is closed if and only if what stands between its opening line and a closing fence has no line left of its level, no three backquotes in a row, no backquote before the fence, and no escape without a character; then it ends there. |
| ScdocLiteral.LiteralGuards | src/j/pkg/scdoc/libscdoc.c:653-660 | Between its requests a closed literal block without backslashes writes every dot and quote directly after the escape that shows nothing, so that none begins a request. |
| ScdocBlocks.HeadingWrites | src/j/pkg/scdoc/libscdoc.c:434-483 | At the left margin one sign makes a section and two a subsection, with the text of the line as it is; more, or no blank after them, is an error. |
| ScdocBlocks.IndentWrites | src/j/pkg/scdoc/libscdoc.c:485-515 | A line of n tabs and something else is at level n, which may rise by one: one opening is written for a rise, one closing for each level it falls by; more is an error. |
| ScdocBlocks.EmptyLineKeeps | src/j/pkg/scdoc/libscdoc.c:494-497 | An empty line keeps the level. |
| ScdocBlocks.InvalidIsError | src/j/pkg/scdoc/libscdoc.c:958-960 | An invalid character is an error where a block, a list line or a heading begins, and anywhere in a heading. |
| ScdocBlocks.ListWrites | src/j/pkg/scdoc/libscdoc.c:517-589 | A list of any entries is written with one header before each: bullets for dashes, the numbers 1, 2, 3 and so on for dots. |
| ScdocBlocks.ListContinues | src/j/pkg/scdoc/libscdoc.c:553-562 | A line of two blanks goes on with the entry before it, without a header. |
| ScdocBlocks.ListEnds | src/j/pkg/scdoc/libscdoc.c:579-582 | Any other line at the level of the list ends it, with the distance between paragraphs put back. |
| ScdocBlocks.DecimalReads | src/j/pkg/scdoc/libscdoc.c:521 | Numbers are written in decimal digits without leading zeros. |
| ScdocBlocks.BlankAndComment | src/j/pkg/scdoc/libscdoc.c:962-1036 | A blank line starts a paragraph, and is an error while a font is open; a comment writes nothing. |
| ScdocBlocks.OtherBeginnings | src/j/pkg/scdoc/libscdoc.c:962-1024 | Where tables begin or may not, what an invalid character in a comment does, and the signs that want a blank after them. |
| ScdocBlocks.DocumentWrites | src/j/pkg/scdoc/libscdoc.c:949-1044 | Any document of headings, lines of text, blank lines and comments is written block by block, in order and to its end. |
| Readline.Rline.ParseCommand | src/y/pkg/pager/readline.c:1338-1367 | The command word, and the first registered command with that name. |
| Readline.Rline.ReadValue | src/y/pkg/pager/readline.c:1412-1454 | The value loop with its quoting. |
| Readline.Rline.ReadOption | src/y/pkg/pager/readline.c:1393-1460 | The name of an option, its value if any, and the errors. |
| Readline.Rline.FindOption | src/y/pkg/pager/readline.c:1478-1498 | Whether the command was registered with an option that begins so. |
| Readline.Rline.ParseLine | src/y/pkg/pager/readline.c:1369-1617 | The whole loop: command and arguments in order, up to the end or the first error. |
| Readline.ValueRoundTripIff | src/y/pkg/pager/readline.c:1412-1454 | A quoted value is read back if and only if no backslash stands directly before a quote and it does not end in exactly one backslash. |
| Readline.LineRoundTrip | src/y/pkg/pager/readline.c:1369-1527 | Parsing a rendered command line recovers the command and all names and values in order. |
| ReadlineLines.KindsByName | src/y/pkg/pager/readline.c:1462-1510 | Which name gives an argument which type, with a value and without, and that no other name gives any. |
| ReadlineLines.RecognizedIff | src/y/pkg/pager/readline.c:1478-1498 | Other names are recognised if and only if a registered option of the command, past its two dashes, begins so. |
| ReadlineLines.ItemsRoundTrip | src/y/pkg/pager/readline.c:1338-1617 | A line of a command, options with quoted values, flags with one dash or two, and bare words, with any blanks, is read as the first command of that name, or none, and the meaning of each item in order. |
| ReadlineLines.BangLine | src/y/pkg/pager/readline.c:1345-1348 | A line that begins with an exclamation mark has that for its command, and all its words for arguments. |
| ReadlineLines.MissingName | src/y/pkg/pager/readline.c:1385-1390 | Dashes with nothing after them are an error. |
| ReadlineLines.MissingValue | src/y/pkg/pager/readline.c:1402-1406 | So is an equals sign with nothing after it. |
| ReadlineLines.UnclosedValue | src/y/pkg/pager/readline.c:1412-1454 | So is a quoted value that is not closed. |
| ReadlineLines.UnknownOption | src/y/pkg/pager/readline.c:1476-1501 | An option with a value that is neither typed nor registered is kept, and its error takes the place of the command. |
| Readline.BareFlaggedIff | src/y/pkg/pager/readline.c:1412-1454 | A value without quotes is read up to the blank, and marked as a value if and only if it is not at the end of the line. |
| Readline.BareKindIff | src/y/pkg/pager/readline.c:1462-1510 | An argument whose name gives it a type has the type of a value if and only if it is so marked; only then can it be reported as unknown. |
| Readline.ParseBare | src/y/pkg/pager/readline.c:1369-1527 | A whole option with such a value, at the end of a line and before more of it. |
| Readline.UnquotedAtEndExample | src/y/pkg/pager/readline.c:1414-1454 | An instance of both. |
| Overstrike.UString.Filter | src/y/pkg/pager/libpager.c:899-933 | The loop leaves a well-formed list with correct ends and counts that holds what the stack fold keeps. |
| Overstrike.UString.BypassTwo | src/y/pkg/pager/libpager.c:919-931 | The link updates around a backspace and the character before it. |
| Overstrike.StrikeKeepsSurvivors | src/y/pkg/pager/libpager.c:899-933 | The fold keeps exactly the characters that no later backspace reaches: each takes the nearest one before it that is left. |
| Overstrike.FilterKeepsSurvivors | src/y/pkg/pager/libpager.c:899-933 | The filtered line is the survivors of the line. |
| Overstrike.SurvivorsHaveNoBackspace | src/y/pkg/pager/libpager.c:899-933 | No backspace is left. |

## Left out

- Everything behind X, the terminal, the file system, signals and the clock, except the property slot, the events and the byte stream the models name.
- Memory management, maps, lists, inline conditionals and the arguments and results of functions of the L language; how loops of the other kinds (`repeat`, `foreach`, C-style `for`) read their headers.
- LExpr.Evaluator.ParsePrimary: operands and parentheses only; index brackets, closures and the chain after a closing parenthesis are not modelled.
- LExprTrees.ParseTree: a tree with `and`/`or` outside parentheses is followed by one of them or by a terminator of the skip; TextDecidesIff covers every text after the others.
- LBreak.MoreFuel: loops that never end are seen as running out of iterations for every bound; nothing is stated about infinite runs.
- LBreak.Interp.HandleBreak: the lexical part of `break N`, which skips two characters after peeking at a digit, is not modelled; a digit from 1 to 9 or none is given.
- LBreak.Interp.CallFunction: a `break` or `continue` of a function outside its own loops, which the source refuses unless the function is called from a loop, is not modelled; tail calls, `exit` and the variables of scopes neither.
- LBlock.FindsMatchingBrace: states that the right brace is found under a condition on strings; the converse is stated string by string (StringClosesIff, LastStringIff), because two unclosed strings can cancel out.
- MULTIPLE requests, notification counts and X errors of selections.
- IncrWorld.NoInterference: a request uses a property whose last transfer is over and, if it is large, has no deletion on its way; FindsOwnIff, StartInvIff and StaleDeletionTruncates say what that is needed for.
- IncrSender.Sender.TakeRequest: the same condition on requests; windows are part of the model in AnswersOwnIff and SharedPropertyTruncates only, elsewhere a property stands for its window too.
- IncrSender.Sender.HandleAll: receivers are the specification's; events of other kinds, and other selections, which the loop passes over, do not occur.
- Geometry, tiling and key bindings of the window manager; what a mode or a growth looks like.
- Xwm.Wm.MapRequest: the window is assumed to be on no other desktop and not among the transients; MapKeepsOrderIff says that this is what keeps the desktops in order.
- Xwm.Wm.MapOnDesk: the same.
- The tar writer's framing, which does not pad headers to a block; the layout of archives is given by the specification instead. Archives of 2^32 bytes or more, and names that overflow their fields.
- TarHeader.RoundTrip: numbers fit their octal fields and names are shorter than theirs; whether the prefix names a directory is a parameter, since the source asks the file system.
- TarArchive.Reader.List: on well-formed archives; on other bytes the source can go on with a header it has already handled.
- TarArchive.Reader.Find: on well-formed archives; on other bytes the source ignores errors of the step to the next entry, and may go round for ever.
- Tables, the preamble line and the date of scdoc documents; diagnostics with their line and column numbers.
- ScdocParser.Parser.ParseDocument: a document is followed to its first table.
- ScdocDoc.DocumentBalanced: counts the openings and closings the translator writes, not text that looks like one; ControlLineIff and LaterLineControlIff say when text does.
- Scdoc.AcceptedIffLegal: lines without the code point that stands for an invalid sequence (U+0080), at which reading stops or which is dropped, depending on where it stands.
- Glob expansion, `--command=` quoting, history, completion and menus of the readline; the first two appear as the point where the model stops.
- Readline.Rline.ReadOption: `--command=` ends the model; its value is not read.
- Readline.Rline.ParseLine: a word with glob characters and `--command=` end the model.
- Readline.Rline.FindOption: for an unknown command, or after an option that was not recognised, the source indexes the command table with a negative code; the model says not recognised.
- Cursor members of the pager's strings, and cursor motion.
