# Aiko Engine: a verified model of its Lisp server core

Aiko Engine is a small Lisp server for microcontrollers and Unix. Its portable core uses no allocator and no
operating system: expressions come from a fixed array, names of atoms from a 256 byte heap that is compacted on
every free, and after every message both are rolled back to a bookmark. Around that core stand a protocol state
machine with retries, a timer table, the ring buffers of the serial driver, and the framing of serial records.

This project models those parts in Dafny and proves what they are for:

- evaluating on the pool, with lists built by in-place appends and pointers shared freely, always ends, gives the value
  and the error of a pure evaluator on trees, also when the pool or the heap runs out half way, and changes no cell that
  was there except the end of the environment (`Evaluator`, `Semantics`, `PoolInvariant`);
- the heap of names follows the cells in lock step, freeing a block keeps the bytes of all others
  (`ManagedMemory`, `LinkedLists`, `ExpressionPool`), and after every message of every run both pools are back at the
  bookmark, while a name bound with `label` keeps its value for ever (`Interface`, `Session`, `Laws`);
- from end to end, a message of data is answered with itself exactly if it fits, and a name that was labelled is
  answered with its value after any other messages (`DataMessages`); what the primitives, `cond` and lambda calls give
  is stated in laws of their own (`PrimitiveLaws`), and so are the answers, byte for byte, to messages that call them
  (`Calls`, `Conditionals`, `ReplyLaws`);
- parser and emitter undo each other, exactly as far as the code lets them (`Encoding`, `RoundTrip`, `Parser`,
  `Emitter`), and which values the emitter refuses or writes past its limit is stated exactly (`EmitLimit`). The format
  is the canonical form of S-expressions of section 6.1, with the verbatim strings of section 4.1, of
  draft-rivest-sexp-00 (later RFC 9804); line feeds, sizes and broken tokens are read as `Tokens` says;
- the state machine calls the action of its last match again at fixed ticks and then gives up, in every run
  (`StateMachine`), and which message matches is stated for its bytes (`Matching`); the timer table always knows its
  earliest timer, which never fires early, and no due timer waits longer than there are timers ahead of it (`Timers`);
  the ring buffers are FIFO queues, no byte is lost between the hardware FIFO and the records handed on, and records
  end where they should (`Uart`, `Serial`).

The project is one Dafny 4.11 program: `dafny verify dfyconfig.toml`.

## How it is built

Objects the source updates in place are classes: the heap (`ManagedMemory.Mmem`), its list (`LinkedLists.List`), the
expression pool (`ExpressionPool.Lisp`), the reader (`Parser.Reader`), the state machine, the timer table, the ring
buffers and the serial port. Their methods follow the source's branches and loops, and each is specified by a pure
function or by its whole new state; the theorems are lemmas about those functions, so they hold of the methods.

A pool cell is addressed by its index. `Denotes` says which tree a pointer means; NULL, the one `nil` cell and other
empty lists are different trees, because `cond` compares pointers. A cell that a later append may still overwrite is
*locked*: the spine of the environment and every list under construction. Meanings never pass through locked
cells, so an append cannot change them. The block of heap bookkeeping embedded in a slot shares its bytes with the
cell; writing a cell that is no atom therefore havocs the block.

`Eval` is a total function: evaluation always ends. No cell is given back before the next reset, and nothing but the
head of a list is evaluated without taking a cell first, so the number of cells left, and then the tree, get smaller
with every call, through `cond`, lambdas and replaced bodies too; the methods on the pool end for the same reason. An
allocation that fails sets the error and returns NULL, and the source goes on with that; so does `Eval`, whose world
carries the error, so it says what every evaluation leaves behind when the pool or the heap runs out. Its one outcome
besides a value is `Stuck`, where the source reads or writes through NULL or the wrong member of the union.

Every message is answered, or goes wrong in one of three ways (`Interface.FaultOf`): its evaluation is stuck; it ends
without an error in NULL, and the handler writes a line end through NULL; or its value is written past the end of the
writer buffer. `Served` is the absence of these, and the theorems about runs are about all runs of served messages.

## Where the code differs from its documentation

- `ReadMe.md:52-54` lists `quote` among the primitives of McCarthy's Lisp, but arguments of primitives are evaluated
  first, so `quote` gives back the value of its argument. `Laws.QuoteEvaluates` and `Laws.QuoteName` say what it does.
- `src/common/lisp/interface.c:153` and `src/common/state/machine.c:125` warn that the reset breaks `label`. It does not:
  `label` moves the bookmark first (`Session.LabelIsForEver`). But it moves it even if its own allocations have failed.
  Then it leaves cells in the pool for ever without adding its binding; exactly when is said by `Laws.LabelBinds`, and
  `DataMessages.LabelFillsPool` shows eight messages after which a server reads no name any more.
- `lispEmit` is given what remains of its buffer, but writes closing parentheses unchecked, and what remains is a 16-bit
  number. `EmitLimit.PassedAtClose` says exactly when the limit is passed, and `EmitLimit.PassedExample` and
  `DataMessages.ReplyPassesLimit` give examples; the writer buffer, declared as 256 pointers, is larger than the limit
  of 256 bytes, and `Served` asks only that what is written stays within it.
- `src/common/state/machine.c:170` calls a period of 10000 microseconds 0.1 seconds. The model counts ticks.
- A list is read only if one more byte follows its last parenthesis (`RoundTrip.ParseEncode`); the line end that the
  senders add supplies it.

## Model

| member | source | states |
|---|---|---|
| LinkedLists.List.Remove | src/common/memory/list.c:247-271 | taking a node out leaves the others in order; a stranger changes nothing; only links of members are written |
| LinkedLists.List.Add | src/common/memory/list.c:150-167 | the list without the node, then the node |
| LinkedLists.List.Push | src/common/memory/list.c:172-182 | the node, then the list without it |
| LinkedLists.List.Pop | src/common/memory/list.c:225-235 | gives the first node and leaves the rest; an empty list gives null |
| LinkedLists.List.Chop | src/common/memory/list.c:193-213 | gives the last node and leaves what is before it |
| LinkedLists.List.Insert | src/common/memory/list.c:310-320 | the new node stands right behind the given one; with none given the node, on the list or not, is moved to the front |
| LinkedLists.List.Tail | src/common/memory/list.c:125-137 | the last node of an acyclic list, null if it is empty |
| LinkedLists.List.Length | src/common/memory/list.c:282-293 | the walk along the links meets every node once |
| LinkedLists.WithoutHasNot | src/common/memory/list.c:247-271 | on a duplicate-free list one removal removes the node altogether |
| ManagedMemory.Mmem.constructor | src/common/memory/mmem.c:158-163 | everything is available and nothing allocated |
| ManagedMemory.Mmem.Alloc | src/common/memory/mmem.c:89-114 | succeeds if and only if enough is available; then a new last block, and no other block changed; otherwise nothing changed |
| ManagedMemory.Mmem.Free | src/common/memory/mmem.c:125-147 | freeing any block leaves all others with their bytes, in order, filling the used region without gap or overlap |
| ManagedMemory.Mmem.Squeeze | src/common/memory/mmem.c:125-147 | the bytes behind the block slide down over it, the pointers of exactly the later blocks are lowered by its size, and it is unlinked |
| ManagedMemory.Mmem.Slide | src/common/memory/mmem.c:136-140 | the fix-up loop lowers the pointer of every later block and of no other |
| ManagedMemory.MoveDown | src/common/memory/mmem.c:133-134 | an overlapping move towards lower addresses keeps the bytes |
| ManagedMemory.TiledBytes | src/common/memory/mmem.c:102-107 | a block's pointer and size select exactly its own bytes, inside the used region |
| ManagedMemory.TiledApart | src/common/memory/mmem.c:102-107 | no two blocks share a byte |
| ManagedMemory.TiledRemove | src/common/memory/mmem.c:125-147 | sliding bytes and lowering pointers turns a gapless layout into a gapless layout of the remaining blocks |
| ManagedMemory.SlidBytes | src/common/memory/mmem.c:130-134 | the used region after the slide is the concatenation of the remaining blocks' bytes |
| Trees.DenotesUnique | include/lisp.h:108-135 | a pointer means at most one tree |
| Trees.DenotesKept | src/common/lisp/expression.c:129-137 | a meaning survives every change that leaves unlocked cells alone |
| Trees.ChainAppended | src/common/lisp/expression.c:129-137 | an append to a list under construction makes it the list with one more element and changes no meaning |
| Trees.ChainDenotes | src/common/lisp/expression.c:129-137 | a finished list means the list of its elements |
| ExpressionPool.Lisp.AllocateExpression | src/common/lisp/expression.c:33-50 | the next slot, or NULL and an error if fewer than `extra` would remain beyond it |
| ExpressionPool.Lisp.CreateAtom | src/common/lisp/expression.c:52-72 | a cell with a copy of the name; if cell or bytes are missing, NULL, an error, and a pool just as before |
| ExpressionPool.Lisp.CreateLambda | src/common/lisp/expression.c:74-87 | a new cell on top, or NULL and an error; nothing else changes |
| ExpressionPool.Lisp.CreateList | src/common/lisp/expression.c:89-102 | a new cell on top, or NULL and an error; nothing else changes |
| ExpressionPool.Lisp.Append | src/common/lisp/expression.c:129-137 | one new cell at the end of the list, one cdr rewritten, nothing at all changed when the pool is full |
| ExpressionPool.Lisp.Overwrite | include/lisp.h:111-133 | writing a cell that is no atom destroys the block embedded in its slot and cannot damage the heap |
| ExpressionPool.Lisp.Name | src/common/lisp/expression.c:139-148 | pointer and size of an atom's block select the name it was created with, whatever has been freed since |
| ExpressionPool.Lisp.HeapFollowsCells | src/common/lisp/expression.c:52-72 | the block list is the atom slots in index order, and places, bytes and available memory are a function of the live cells |
| ExpressionPool.Lisp.PopSlot | src/common/lisp/expression.c:335-338 | one turn of the reset frees at most one block, the last one |
| ExpressionPool.Lisp.FreeTop | src/common/lisp/expression.c:335-338 | the topmost cell's name is the last block of the heap |
| ExpressionPool.Lisp.Reset | src/common/lisp/expression.c:331-339 | the cells are those below the bookmark, unchanged, with heap and list in step |
| ExpressionPool.RewriteListCell | src/common/lisp/expression.c:129-137 | rewriting a cdr changes neither the names nor the heap's block list |
| ExpressionPool.AtomIndex | src/common/lisp/expression.c:52-72 | every atom slot owns one block of the heap, in slot order |
| PoolInvariant.KeepBuilding | src/common/lisp/expression.c:221-228 | evaluating an element leaves the list under construction and its elements' meanings alone |
| PoolInvariant.FinishList | src/common/lisp/expression.c:215-230 | a completed list means the list of its items, and everything else keeps its meaning |
| PoolInvariant.PublishedGood | src/common/lisp/primitives.c:196-215 | a binding hung on the environment with the bookmark moved above it keeps the invariant: all bindings lie below the bookmark |
| PoolInvariant.MarkMoved | src/common/lisp/primitives.c:213 | a bookmark moved without a binding keeps the invariant as well |
| PoolInvariant.GoodKept | src/common/lisp/expression.c:331-339 | changes above the bookmark, or to cells off the environment, do not touch a binding |
| Evaluator.Evaluate | src/common/lisp/expression.c:200-240 | it always ends; whenever the pure evaluator is not stuck, the returned pointer means its value, the error and both pools are as it predicts, also after a failed allocation, and no earlier cell has changed but the environment's end, and that only for a new binding |
| Evaluator.EvaluateList | src/common/lisp/expression.c:214-232 | the head is evaluated first and begins a new list; without a cell for that the expression itself is returned, with the error |
| Evaluator.EvaluateCall | src/common/lisp/expression.c:218-231 | the arguments are evaluated and appended first to last, and the list is applied; an error on the way gives NULL |
| Evaluator.EvaluateElements | src/common/lisp/expression.c:219-228 | the argument loop, with NULL elements skipped and an exit at the first error |
| Evaluator.EvaluateFunction | src/common/lisp/expression.c:182-198 | lambdas are applied to the list, primitives called with its rest, anything else is left as the list |
| Evaluator.EvaluateSymbol | src/common/lisp/expression.c:234-237 | a bound name gives its value, an unbound one itself |
| Evaluator.Find | src/common/lisp/expression.c:158-180 | the value of the first binding of the name, NULL when there is none |
| Evaluator.IsAtom | src/common/lisp/expression.c:139-148 | true exactly for the atom of that name |
| Evaluator.ListAt | src/common/lisp/expression.c:150-155 | true exactly for list cells, nil included |
| Evaluator.MakeLambda | src/common/lisp/expression.c:209-213 | a lambda cell shares parameters and body with the expression; NULL and the error if there is no cell |
| Evaluator.Interleave | src/common/lisp/primitives.c:101-136 | the association list of parameters and values in order, three cells for each, or the full pool and the error where an allocation fails |
| Evaluator.ReplaceIn | src/common/lisp/primitives.c:138-172 | a copy of the body with parameters replaced, one cell for each list cell, or what of it fits; values are shared and nothing existing changes |
| Evaluator.ReplaceSymbol | src/common/lisp/primitives.c:157-171 | the value of the first pair with that name, or the atom itself |
| Evaluator.ApplyLambdaCell | src/common/lisp/primitives.c:174-194 | applying a lambda means the evaluation of its body with the parameters replaced, and NULL after an error |
| Evaluator.CallPrimitive | src/common/lisp/primitives.c:24-223 | every primitive gives the value, takes the cells and leaves the error of its pure counterpart |
| Evaluator.Cond | src/common/lisp/primitives.c:48-69 | the first clause whose predicate is not the nil cell is evaluated, nil if there is none |
| Evaluator.Cons | src/common/lisp/primitives.c:71-88 | the second argument is copied, cell by cell, behind the first, as far as there are cells |
| Evaluator.Equal | src/common/lisp/primitives.c:90-99 | truth exactly when the second argument is an atom with the first one's name |
| Evaluator.Label | src/common/lisp/primitives.c:196-215 | a fresh copy of the name is bound at the end of the environment as far as cells and bytes allow, and the bookmark moves in any case |
| Evaluator.Publish | src/common/lisp/primitives.c:204-214 | the item is hung on the environment if there is a cell, and the bookmark moves to the end of the pool either way |
| Semantics.Eval | src/common/lisp/expression.c:200-240 | evaluation ends on every expression in every state of the pool, and gives no cell back |
| Semantics.EvalArguments | src/common/lisp/expression.c:219-228 | the loop only ever adds values behind those it has |
| Laws.EvalGrows | src/common/lisp/expression.c:200-240 | evaluation only adds bindings at the end, gives nothing back, keeps the limits, and changes bindings and names only with the bookmark |
| Laws.LookupAppend | src/common/lisp/expression.c:158-180 | bindings added at the end never hide earlier ones |
| Laws.LookupAfterLabel | src/common/lisp/primitives.c:196-215 | `label` gives an unbound name its value if it fits, and leaves every other and every bound name as it was in any case |
| Laws.LabelBinds | src/common/lisp/primitives.c:196-215 | `label` moves the bookmark without adding its binding if and only if fewer than four cells or fewer bytes than the name has are left; the cells it could get stay, as a nameless binding if only the name did not fit |
| Laws.ReplaceSubstitutes | src/common/lisp/primitives.c:138-172 | replacement is simultaneous, first-match-wins substitution, on exactly the bodies of atoms and non-empty lists that fit; one that does not fit ends with the pool full and the error, or is a write through NULL |
| Laws.PairUpZips | src/common/lisp/primitives.c:101-136 | parameters are paired with values one by one, if and only if there is a parameter, a value for each, and three cells for each pair; otherwise the pool is full or a value is missing |
| Laws.ReplaceBreaks | src/common/lisp/primitives.c:143-156 | the copy of a body is a write through NULL if and only if the first cell missing to it, or a later one, would have begun a list with more elements |
| Laws.BetaReduction | src/common/lisp/primitives.c:174-194 | an application that fits has the value of the substituted body; one that does not gives NULL and the error, but for exactly that write through NULL |
| Laws.QuoteEvaluates | src/common/lisp/primitives.c:217-223 | `quote` gives the value of its argument |
| Laws.QuoteName | src/common/lisp/primitives.c:217-223 | `quote` gives back a name if and only if it is unbound, bound to NULL or bound to itself |
| PrimitiveLaws.CarAndCdr | src/common/lisp/primitives.c:32-46 | `car` and `cdr` of a list are its two parts, of nil NULL; of anything else they read the wrong member of the union |
| PrimitiveLaws.ConsOfItems | src/common/lisp/primitives.c:71-88 | `cons` puts its first argument in front of the items of its second; without cells for all of them the list ends early, without any it is NULL |
| PrimitiveLaws.ConsLaws | src/common/lisp/primitives.c:32-88 | car of (cons x l) is x, its cdr is l, and the cons of car and cdr of a list is that list again |
| PrimitiveLaws.AtomTest | src/common/lisp/primitives.c:24-30 | truth for an atom, nil for any other expression |
| PrimitiveLaws.EqualTest | src/common/lisp/primitives.c:90-99 | truth if both are atoms of the same name, nil if only the first is an atom |
| PrimitiveLaws.CondTakes | src/common/lisp/primitives.c:48-69 | if the predicates before a clause give nil and its own does not, `cond` gives the value of that clause's result, in the world all these predicates led to, whatever clauses follow |
| PrimitiveLaws.CondEnds | src/common/lisp/primitives.c:48-69 | if all predicates give nil, so does `cond` |
| PrimitiveLaws.NullElements | src/common/lisp/expression.c:221-228 | NULL elements behind the head of a list are no arguments |
| PrimitiveLaws.LambdaExpression | src/common/lisp/expression.c:208-213 | (lambda parameters body) gives the lambda of these two, in this order, for one cell, and without one NULL and the limit error |
| PrimitiveLaws.LambdaPrimitive | src/common/lisp/primitives.c:174-194 | the primitive `lambda` applies the lambda it is called with to its other arguments |
| PrimitiveLaws.LambdaCall | src/common/lisp/expression.c:200-240 | ((lambda parameters body) arguments ...) is the value of the body with all parameters replaced at once by the values of the arguments |
| Conditionals.ListWorth | src/common/lisp/expression.c:214-231 | whatever its elements are, a list is worth what its function makes of their values, at one cell an element beyond what they take |
| Conditionals.CallWorth | src/common/lisp/expression.c:182-231 | a primitive called with any expressions is applied to just their values |
| Conditionals.CondWorth | src/common/lisp/primitives.c:48-69 | `cond` with any expressions in its clauses is worth the result of the first clause whose test is not worth nil, or nil |
| Encoding.ParseToken | src/common/lisp/parser.c:24-84 | reading a token never goes back, and every token but the end moves on, whatever the bytes are |
| Encoding.ParseList | src/common/lisp/parser.c:86-105 | it terminates on every byte string, also after an error, because the rest of the input shrinks through both recursive calls |
| RoundTrip.ParseElements | src/common/lisp/parser.c:86-105 | the elements of a list are read back up to its closing parenthesis |
| RoundTrip.ParseEncode | src/common/lisp/parser.c:24-118 | any value, written and read again before any tail, comes back without NULL elements, with empty lists as NULL and lambdas and primitives as lists, the index right behind it; a list with nothing behind it is reported as end of input |
| RoundTrip.SameAfterRoundTrip | src/common/lisp/expression.c:243-306 | a value comes back unchanged if and only if it is made of atoms and non-empty lists |
| RoundTrip.RoundTrip | src/common/lisp/parser.c:24-118 | such a value, followed by anything, is read back as itself, at its exact cost in cells and bytes |
| RoundTrip.PrefixFree | src/common/lisp/expression.c:243-306 | no encoding is the beginning of another value's |
| RoundTrip.ListTooBig | src/common/lisp/parser.c:86-118 | a list that does not fit into the pools is never read without an error |
| RoundTrip.TokenTooBig | src/common/lisp/parser.c:81-83 | a name for which there is no cell or no room is reported as such |
| RoundTrip.EncodePlain | src/common/lisp/expression.c:265-298 | a lambda or primitive is written as the list it is read back as |
| RoundTrip.TokenName | src/common/lisp/parser.c:44-83 | a written atom is one token |
| RoundTrip.ScanDecimal | src/common/lisp/parser.c:44-60 | the digit loop reads back every size below 100 |
| RoundTrip.ParseListBounds | src/common/lisp/parser.c:86-105 | n bytes of any input take at most 2n cells and n heap bytes; limits are kept and an error stays an error |
| RoundTrip.ParseBounds | src/common/lisp/parser.c:107-118 | the same for a whole message; without an error the value is well formed |
| Tokens.ParseShifts | src/common/lisp/parser.c:107-118 | what is in front of the index does not matter: the same bytes behind it give the same expression |
| Tokens.LineFeedSkipped | src/common/lisp/parser.c:31-33 | one line feed before a token is skipped |
| Tokens.SecondLineFeed | src/common/lisp/parser.c:31-60 | a second one is not, and begins no token |
| Tokens.LastLineFeed | src/common/lisp/parser.c:31-39 | a line feed as the last byte is the end of the input |
| Tokens.LineFeedMessage | src/common/lisp/parser.c:31-33 | a message with one line feed in front of it has the same fault, error, reply and next world as without, whatever it is |
| Tokens.SizedToken | src/common/lisp/parser.c:44-83 | a size counts modulo 256; a name of that many bytes is read, read over if longer than 64, or cut off by the end of the input, each with its error and index |
| Tokens.BareColon | src/common/lisp/parser.c:44-83 | a colon without a size is a name of no bytes |
| Tokens.SizeCutOff | src/common/lisp/parser.c:35-54 | an input that ends inside a size is the end of the input or a truncated token |
| Tokens.NoTokenBegins | src/common/lisp/parser.c:56-60 | any other byte with one behind it begins no token |
| Tokens.LoneClose | src/common/lisp/parser.c:107-118 | a closing parenthesis in place of a message is read as the atom that stands for it |
| Parser.Reader.GetCh | src/common/lisp/interface.c:37-46 | the next byte, or EOF again and again at the end |
| Parser.ReadSize | src/common/lisp/parser.c:44-54 | the size modulo 256 of the digits, or a truncated token |
| Parser.ReadName | src/common/lisp/parser.c:62-79 | a name is stored if it fits, and read over if it does not |
| Parser.ParseToken | src/common/lisp/parser.c:24-84 | the token, error, index and pool use of the specification, and no earlier cell changed |
| Parser.ParseList | src/common/lisp/parser.c:86-105 | the returned pointer means the tree of the specification, with the same error and pool use, for all bytes |
| Parser.Parse | src/common/lisp/parser.c:107-118 | the same for a whole expression |
| Parser.ParseMessage | src/common/lisp/interface.c:98-113 | a message is read from its start with no error pending |
| Emitter.IntegerToString | src/common/lisp/utility.c:88-117 | the decimal digits when they fit, stars when not |
| Emitter.Emit | src/common/lisp/expression.c:243-306 | there is an error if and only if the value is refused at what remains; without one the bytes are exactly the canonical encoding, with one they are a beginning of it within what remains |
| Emitter.EmitAtom | src/common/lisp/expression.c:256-264 | size, colon and name if three bytes and the name fit, else the error and nothing written |
| Emitter.EmitLambda | src/common/lisp/expression.c:265-274 | refused below ten bytes or with its parts; else head, parameters, body and the unchecked closing parenthesis |
| Emitter.EmitList | src/common/lisp/expression.c:275-292 | refused below two bytes or with its elements; else the elements between parentheses, the last one unchecked |
| Emitter.EmitPrimitive | src/common/lisp/expression.c:293-295 | thirteen bytes or the error |
| Emitter.EmitElements | src/common/lisp/expression.c:280-288 | the loop writes the elements one behind the other and none for a NULL, up to the first that is refused; what remains may have wrapped round |
| EmitLimit.RefusedWithin | src/common/lisp/expression.c:243-306 | a value is refused only by a limit within its encoding, or at its exact length if it is an atom below ten bytes |
| EmitLimit.RoomEnough | src/common/lisp/expression.c:243-306 | with one byte more than the encoding nothing is refused |
| EmitLimit.PassedAtClose | src/common/lisp/expression.c:265-292 | a limit inside the encoding is passed if and only if the first byte behind it is a closing parenthesis that no test reaches |
| EmitLimit.PassedExample | src/common/lisp/expression.c:275-292 | a list of a list of a 16-byte name and anything else is written in full where 21 bytes remain |
| Interface.HandleMessage | src/common/lisp/interface.c:116-170 | for every message without one of the three faults, those that fail in reading, evaluating or writing included, the reply, the error and the next world are exactly those of the specification, and both pools are back at the bookmark |
| Interface.ResetPool | src/common/lisp/expression.c:331-339 | from whatever an evaluation or a parse left behind, the reset returns to rest with the environment whole |
| Interface.ResetGood | src/common/lisp/expression.c:331-339 | cutting the pool at the bookmark keeps the invariant: nil, truth, the parentheses and every binding are below it |
| Interface.MeansShort | src/common/lisp/expression.c:52-72 | every name reachable in the pool is one the parser would take |
| Startup.CreatePrimitive | src/common/lisp/expression.c:104-127 | the list of a name and a primitive, or NULL with a reason |
| Startup.Initialize | src/common/lisp/expression.c:309-329 | a server starts with nine primitives, 49 cells and 43 bytes, all below the bookmark |
| Session.NextGrows | src/common/lisp/interface.c:116-170 | whatever a message is, it leaves the server at rest with all bindings it had, and exactly as it was unless the bookmark has moved |
| Session.RunKeepsBindings | src/common/lisp/interface.c:116-170 | over any number of messages a bound name keeps its value, and a run that does not move the bookmark leaks nothing |
| Session.LabelIsForEver | src/common/lisp/primitives.c:196-215 | a name bound by one message has that value after any later messages and resets |
| Session.Serve | src/common/lisp/interface.c:116-170 | the replies and the pool of a whole run are those of the pure one, and no cell below the first bookmark but the end of the environment has changed |
| Session.Start | src/common/lisp/interface.c:64-94 | the same from initialisation on |
| Session.PrimitivesStay | src/common/lisp/expression.c:309-329 | after any run of a fresh server every primitive still has its name |
| DataMessages.DataEvaluate | src/common/lisp/expression.c:200-240 | names without another value, and lists of them, evaluate to themselves, for one cell an element; with too few cells the pool ends full and with the error |
| DataMessages.DataEcho | src/common/lisp/interface.c:116-170 | a list of such data is answered with exactly its own bytes if and only if it can be read, its copy fits and it is not too long; a copy that does not fit is answered with the limit error; the server is as before in any case |
| DataMessages.PrimitiveCall | src/common/lisp/expression.c:182-240 | a primitive called with data is applied to just these data, or the pool ends full and with the error |
| DataMessages.CdrMessage | src/common/lisp/interface.c:131-147 | (cdr list), where it fits, makes the handler write through NULL if and only if the list has one element |
| DataMessages.CdrOfOne | src/common/lisp/interface.c:131-147 | the message (3:cdr(1:x)) to a fresh server does |
| DataMessages.ReplyPassesLimit | src/common/lisp/interface.c:131-147 | four names of 53 bytes in 16 to 29 nested lists, sent to a fresh server, are answered with all of their more than 256 bytes |
| DataMessages.LabelMessage | src/common/lisp/primitives.c:196-215 | a message that labels data is answered with truth and adds its binding if and only if four more cells and the bytes of the name are left; if not, the limit error, and what `label` leaves behind |
| DataMessages.LabelledIsRemembered | src/common/lisp/interface.c:116-170 | after it, and after any other messages, failing ones included, sending the name alone is answered with the value, or with the exact error if the name cannot be read or the value not written |
| DataMessages.LabelFillsPool | src/common/lisp/primitives.c:196-215 | eight messages to a fresh server, of which the last binds nothing and takes the last cells for ever |
| DataMessages.FullForEver | src/common/lisp/expression.c:33-50 | a server whose pool is full at rest answers every name with the limit error, and stays so |
| DataMessages.QuoteCar | src/common/lisp/primitives.c:217-223 | (quote car), sent to a fresh server, is answered with (9:primitive) |
| Calls.CarCall | src/common/lisp/primitives.c:32-38 | (car list), the list being data, is answered with the encoding of its first element and a line end, and leaves nothing behind |
| Calls.CdrCall | src/common/lisp/primitives.c:40-46 | (cdr list) likewise with the other elements, where there are any |
| Calls.ConsCall | src/common/lisp/primitives.c:71-88 | (cons x list) likewise with the list that begins with x |
| Calls.QuoteCall | src/common/lisp/primitives.c:217-223 | (quote x) likewise with x |
| Calls.AtomCall | src/common/lisp/primitives.c:24-30 | (atom x) is answered with the bytes 2:#t, or with (), and a line end, for names and for lists |
| Calls.EqualCall | src/common/lisp/primitives.c:90-99 | (equal name x) is answered with 2:#t exactly if x is that name, else with () |
| Calls.EmptyCall | src/common/lisp/expression.c:205-207 | () is answered with () |
| Calls.CallTooBig | src/common/lisp/expression.c:214-231 | a call whose arguments cannot be listed is answered with the limit error and leaves nothing behind |
| Calls.InitialNames | src/common/lisp/expression.c:309-329 | which primitive each of the nine names of a fresh server stands for |
| Conditionals.WorthAnswered | src/common/lisp/interface.c:131-147 | a message read as an expression of known worth is answered with the encoding of its value |
| Conditionals.CondMessage | src/common/lisp/primitives.c:48-69 | (cond (test result) ...), the clauses being data and some tests perhaps (), is answered with the result of the first clause whose test is not (), and with () if there is none |
| ReplyLaws.ValueLine | src/common/lisp/interface.c:140-147 | an answer with a value ends in carriage return and line feed exactly if its encoding has fewer than 255 bytes |
| ReplyLaws.ErrorLine | src/common/lisp/interface.c:140-143 | every answer with an error is the canonical encoding of the list (error text), and a line end |
| StateMachine.FirstMatch | src/common/state/machine.c:50-123 | the first row for the current state that matches, and none before it |
| StateMachine.MatchForm | src/common/state/machine.c:110-123 | a message that matches a row leads to that row's action on the stream of that message, with fresh counters, whatever was before |
| StateMachine.TickForm | src/common/state/machine.c:131-155 | one tick takes the closed form from k to k + 1, calls the action of the last match at 20, 39, 58, 77 and 96, and reports at 115 |
| StateMachine.ClosedForm | src/common/state/machine.c:34-155 | in every run of ticks and messages the whole condition, with the state, the action that retries call, its stream and all effects, is a function of the last matching row and the ticks since it |
| StateMachine.ClosedFormFromStart | src/common/state/machine.c:158-182 | the same from the start of the machine, whose first action counts as a match |
| StateMachine.EffectsBounded | src/common/state/machine.c:131-155 | without a match there are at most five resends, all of the action and on the stream of the last match, then one error report at tick 115, then nothing |
| StateMachine.MatchThenSilence | src/common/state/machine.c:34-155 | what a matching message and any number of ticks of silence after it do, in full |
| StateMachine.IsNumberCell | src/common/lisp/utility.c:26-48 | true unless an atom has a character that is no digit of the radix |
| StateMachine.MatchesCell | src/common/state/machine.c:54-107 | the comparison of cells decides the match on trees |
| Matching.NameTaken | src/common/state/machine.c:54-107 | which match types take a name: a symbol exactly its own, a number only digits of its radix |
| Matching.ListTaken | src/common/state/machine.c:54-107 | which match types take a list, by its first element |
| Matching.NothingTaken | src/common/state/machine.c:54-107 | which match types take a message without an expression |
| Matching.NameMessage | src/common/state/machine.c:50-123 | the bytes of a name that can be read, with anything behind them, go to the first row of the state that takes the name |
| Matching.ListMessage | src/common/state/machine.c:50-123 | the bytes of a list that can be read go to the first row of the state that takes it |
| Matching.NoMessage | src/common/state/machine.c:50-123 | bytes that give no expression go to the first row of the state that takes nothing |
| Matching.EmptyMessage | src/common/lisp/parser.c:86-118 | () is read as no expression, without an error |
| StateMachine.SamePool | src/common/lisp/expression.c:331-339 | a message that binds nothing leaves the pool as it was, cell for cell |
| StateMachine.Machine.constructor | src/common/state/machine.c:158-182 | the first action is called at once, with the counters at their start |
| StateMachine.Machine.TimerHandler | src/common/state/machine.c:131-155 | one tick of the specification |
| StateMachine.Machine.MessageHandler | src/common/state/machine.c:34-128 | one message of the specification; whatever the bytes, the pool afterwards is the pool before |
| StateMachine.Machine.Drive | src/common/state/machine.c:34-155 | any run of ticks and messages, malformed and oversized ones included, follows the specification and leaks nothing |
| Timers.First | src/unix/timer.c:43-54 | the first entry of least timeout |
| Timers.FirstUnique | src/unix/timer.c:43-54 | there is only one |
| Timers.Scheduler.NextUpdate | src/unix/timer.c:43-54 | the cached timer is the first of least timeout |
| Timers.Scheduler.Update | src/unix/timer.c:56-72 | an active timer, and no other, gets a new timeout, and the cache is right; a stranger is ignored |
| Timers.Scheduler.Add | src/unix/timer.c:74-89 | the timer is last in the table, one period ahead, and the cache is right |
| Timers.Scheduler.Delete | src/unix/timer.c:91-110 | the others stay in order without a hole, and the cache is right as long as one is left |
| Timers.Scheduler.RemoveAt | src/unix/timer.c:99-104 | the shift closes the gap and clears the last place |
| Timers.Scheduler.NextTimer | src/unix/timer.c:112-115 | the timer to fire next |
| Timers.Scheduler.Tick | src/unix/engine.c:64-75 | a turn fires the earliest timer if it is due, lets its handler change the table, and restarts it if it is still there |
| Timers.Scheduler.Handle | src/unix/engine.c:71-74 | any handler's timer calls, in order, up to the one that would overfill the table |
| Timers.HandlersSpare | src/unix/engine.c:64-75 | handlers that leave a due timer alone put nothing ahead of it, whatever they add, delete or restart |
| Timers.TurnBringsNearer | src/unix/engine.c:64-75 | a turn that fires another timer leaves strictly fewer ahead of a due one |
| Timers.BoundedWaiting | src/unix/engine.c:59-75 | a due timer fires after at most as many turns as there are timers ahead of it |
| Timers.Scheduler.Loop | src/unix/engine.c:59-75 | any number of turns on the table itself follow the specification, and every due timer that others leave alone is fired within that bound |
| Timers.AheadAtMost | src/unix/timer.c:74-89 | fewer timers are ahead than there are in the table |
| Timers.ZeroPeriodStarves | src/unix/engine.c:64-75 | a timer without a period can keep a due one waiting for ever, so positive periods are needed |
| Timers.FirstIsEarliest | src/unix/timer.c:43-54 | no timer is due before the cached one, and none before it in the table is due at the same time |
| Timers.FiresWhenDue | src/unix/engine.c:64-75 | a turn fires a timer if and only if one is due, and then the earliest |
| Timers.DueAfterPeriod | src/unix/timer.c:56-89 | a timer that is added or restarted is due after its seconds and microseconds, and no other changes |
| Timers.NotEarly | src/unix/engine.c:59-75 | over any turns that begin before a timer is due it does not fire, if handlers leave it alone |
| Timers.FiringsApart | src/unix/engine.c:64-75 | two firings of a timer that handlers leave alone are at least a period apart |
| Uart.WrapModulo | examples/esp8266/aiko_server/driver/uart.c:423-444 | the pointer arithmetic modulo the size is the step round the circle |
| Uart.Ring.Copy | examples/esp8266/aiko_server/driver/uart.c:423-444 | the block goes in at the end of the queue, in one segment or two |
| Uart.Ring.Dequeue | examples/esp8266/aiko_server/driver/uart.c:461-491 | up to the limit, the oldest bytes come out in order, and all others stay, in the three cases of the positions |
| Uart.Ring.Enqueue | examples/esp8266/aiko_server/driver/uart.c:508-517 | byte by byte, the data go in at the end of the queue |
| Uart.Ring.Insert | examples/esp8266/aiko_server/driver/uart.c:560-571 | byte by byte, the oldest bytes go out in order |
| Uart.Ring.EqualPositions | examples/esp8266/aiko_server/driver/uart.c:461-471 | equal positions mean empty or full, so with a byte of space they mean empty |
| Uart.OutputStepFits | examples/esp8266/aiko_server/driver/uart.c:529-601 | whatever waits in the ring has the FIFO-empty interrupt enabled |
| Uart.OutputConserved | examples/esp8266/aiko_server/driver/uart.c:529-601 | under every interleaving the accepted bytes are on the wire, in the FIFO or in the ring, once and in order |
| Uart.SendAllOrNothing | examples/esp8266/aiko_server/driver/uart.c:529-556 | a send grows what has been accepted by exactly its data if they fit into the ring, or if the heap has room for a new one, and by nothing otherwise |
| Uart.InterruptMoves | examples/esp8266/aiko_server/driver/uart.c:580-601 | an interrupt moves bytes in order until the ring is empty or the FIFO is full |
| Uart.ThreeRoundsDrain | examples/esp8266/aiko_server/driver/uart.c:580-601 | three interrupts put everything on the wire |
| Uart.Transmitter.constructor | examples/esp8266/aiko_server/driver/uart.c:321-324 | a ring is there if the heap has room for it |
| Uart.Transmitter.Enqueue | examples/esp8266/aiko_server/driver/uart.c:529-556 | all of the data is accepted or none of it, and the interrupt is enabled |
| Uart.Transmitter.StartBuffer | examples/esp8266/aiko_server/driver/uart.c:242-254 | as much as the FIFO has room for is moved, and the interrupt stays enabled if something is left |
| Uart.Transmitter.Run | examples/esp8266/aiko_server/driver/uart.c:529-601 | any interleaving on the ring itself follows the specification and loses no accepted byte |
| Uart.InputStepsFit | examples/esp8266/aiko_server/driver/uart.c:461-524 | the receive ring is never full, and disabled interrupts will be enabled again |
| Uart.InputConserved | examples/esp8266/aiko_server/driver/uart.c:461-524 | what is received is read in order; interrupts and the receive task lose nothing |
| Uart.TaskMoves | examples/esp8266/aiko_server/driver/uart.c:500-524 | a run of the receive task moves all of the FIFO if a byte of the ring stays free, and nothing if not |
| Uart.FlowControl | examples/esp8266/aiko_server/driver/uart.c:461-524 | the FIFO takes what there is room for, an interrupt turns itself off and asks for one run of the task, at most ten, and it is on again exactly once 128 bytes of the ring are free |
| Uart.Receiver.RunTask | examples/esp8266/aiko_server/driver/uart.c:500-524 | the whole FIFO is moved if that leaves a byte free, else nothing |
| Uart.Receiver.Dequeue | examples/esp8266/aiko_server/driver/uart.c:461-495 | the oldest bytes are delivered, and the interrupts enabled once there is room for a FIFO |
| Uart.Receiver.HandleInterrupt | examples/esp8266/aiko_server/driver/uart.c:232-241 | interrupts off, one run of the task asked for if its queue has room |
| Serial.StepFits | src/esp8266/serial.c:40-75 | every record has 1 to 128 bytes and, if there is a delimiter, has 128 or ends in it; bytes are kept back only for a delimiter that has not come, and fewer than 128 |
| Serial.CollectConserves | src/esp8266/serial.c:40-75 | a tick only moves bytes |
| Serial.LinkConserves | src/esp8266/serial.c:40-75 | in every run, records, partial record, ring and FIFO are together the bytes the hardware stored |
| Serial.RecordsAreFront | src/esp8266/serial.c:40-75 | from the start, the records are the front of what was stored, and all well formed |
| Serial.TickDelivers | src/esp8266/serial.c:40-75 | a tick that empties the ring hands on all that is collected exactly if it ends in the delimiter, fills the buffer, or there is no delimiter |
| Serial.LineDelivered | src/esp8266/serial.c:40-75 | a line that ends in the delimiter, sent to an idle port, is one record after one interrupt, one run of the task and one tick |
| Serial.ThreeTicks | src/esp8266/serial.c:40-75 | three ticks empty the ring and enable reception again |
| Serial.Port.TimerHandler | src/esp8266/serial.c:40-75 | one tick of the specification |
| Serial.Port.Run | src/esp8266/serial.c:40-75 | any interleaving of line, interrupt, task and timer on the port itself follows the specification |
| Serial.Port.constructor | src/esp8266/serial.c:77-94 | nothing collected and nothing handed on |

## Left out

- Evaluator.Evaluate: says nothing where the pure evaluator is stuck: a primitive without its arguments or with one of the wrong type, a lambda without parameters, values for them or with an empty list in its body, and the copy of a lambda's body where `Laws.ReplaceBreaks` says so. There the source reads or writes through NULL or the wrong member of the union.
- Interface.HandleMessage: `Served` excludes such messages; a value of NULL without an error, for which the source writes a line end through a NULL pointer; and values that are written past the limit and have more than 1024 bytes, the writer buffer with pointers of four bytes.
- Emitter.Emit: gives the bytes written as a sequence; the 16-bit arithmetic of what remains is modelled, that of the lengths only below 65536, which is all there is once a value is refused or fits into the writer buffer.
- Parser.ReadName: a name longer than 64 bytes is read over, as the comment in the source intends; the byte written behind the local buffer is not modelled.
- LinkedLists.List.Insert: requires the new node not to be a member when there is a predecessor; the source does not check it.
- Uart.Transmitter.Enqueue: data that create the ring must fit into it, which the source does not check; the failure of the second allocation, which it does not check either, is not modelled.
- Timers.Scheduler.Add: a full table is an assertion failure in the source, so it is a precondition; in `Handle` it ends the handler.
- Timers.Scheduler.Delete: the freed timer is not reused by a later allocation; timers are objects with identity.
- The `environment` parameter of the evaluator's functions: it always is the global environment.
- Actions of the state machine, stream handlers and timer handlers are foreign code: an action is any function of what it is called with and how often, a handler any sequence of timer calls.
- `lispExpressionToInteger`, `lispExpressionToString`, `list_copy`, `list_init`: one-line or finite facts.
- The primitives of `examples/common/aiko_server/lisp_extend.c`, the legacy Lisp, debug output, and the smaller limits of the Arduino build.
- Sockets, files, flash, Wi-Fi, select, the creation and compaction of streams, the ESP8266 timer and the delivery of one record to several streams.
- The polling writer of the serial driver (`uart_tx_one_char`), which goes past the ring straight to the hardware; interrupts in the middle of a driver function, which the source prevents by masking them or by moving the work to a task.
- Overflow of the 32 and 64 bit clock arithmetic of the timers.
