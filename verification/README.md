# RT-Thread components: models and proofs

Dafny 4.11 models of six groups of RT-Thread code, with proofs about all inputs, all runs or all
interleavings. `dafny verify dfyconfig.toml` checks everything.

| files | what they model |
|---|---|
| `Basics` | definitions all models share |
| `FinshGrammar`, `FinshReading`, `FinshLines`, `FinshParser`, `FinshNumber` | the finsh expression parser over the node table, precedence and nodes of the operators, lines with empty statements, and the conversion of hexadecimal, octal and binary numbers |
| `FinshWords`, `FinshMachine`, `FinshCompiler`, `FinshCorrect`, `FinshPlain`, `FinshLimits` | byte code, stack machine and meaning of finsh expressions as functions, compiler correctness, and which expressions it covers |
| `FinshNodes`, `FinshEmitter`, `FinshVm`, `FinshLine` | type checking, code emission and the interpreter loop on arrays, and a whole command line |
| `FinshHeapModel`, `FinshHeapProofs`, `FinshHeapResults`, `FinshHeap` | the finsh heap: first fit, split and merge on two sorted lists, and its conservative collector |
| `Rings`, `MemheapModel`, `MemheapProofs`, `MemheapResults`, `MemheapCalls`, `Memheap` | the lwp memory heap: a circular block list and a circular free list |
| `LwpMem` | the per-process list of such heaps: growth, release, reallocation across heaps |
| `DataQueueModel`, `DataQueueProofs`, `DataQueueCalls`, `DataQueue` | the blocking data queue as interleaved steps |
| `RingBuffer`, `SerialFifo` | the mirror-bit ring buffer, and the serial receive FIFO in interrupt and DMA mode |
| `I2cModel`, `I2cOutcomes`, `I2c` | the bit-banging I2C master and a receiver by UM10204 |
| `WlanCrc`, `WlanCfg` | the CRC of the WLAN configuration store, and the configuration cache |

## How the models are built

Code that changes state in place is a class or works on arrays; each of its methods is proved
against a function on values, and the theorems are about those functions. What an operation does is
in addition said from outside, without the functions and tables that model and method share. Pointers are indices or
addresses. Linked lists are maps from a header's address to the fields of the header, and the
class invariant says which sequence of blocks the links stand for. A lock or a region with
interrupts disabled is one step.

What comes from outside is a parameter: the meaning of the C operators on two longs, of `~` and of
called functions (`Host`); symbol lookup (`Lookup`); the results of the kernel's allocators
(`chunk`, `grows`, `alloc`); what an I2C slave answers (`Slave`); how a WLAN record lies in memory
(`Layout`); what the flash callbacks do (`written`, `readable`).

The main theorems:

* **finsh.** `FinshLine.ExecuteLine`: the printed form of any list of plain statements that fits the
  node table and the text segment, with harmless empty statements between, is parsed, compiled and run
  to exactly the value and memory that evaluating the tree gives, and faults exactly when that does.
  Below it stand `FinshGrammar.ParsesExactly` (the parser accepts exactly the printed expressions, with
  the right tree and the right remainder, on every token sequence), `FinshReading.Precedence` (which of
  two operators comes first), `FinshCorrect.CompilerCorrect` with `FinshPlain.PlainExactly`, and one
  refinement per method.
* **lwp_memheap.** `MemheapResults.RunInv`, `Conservation`, `FreeEverything`: over every run the
  blocks tile the pool, both lists are exact, every byte is accounted for, and freeing everything in
  any order gives the initial heap back; `HighWater`: the mark of used bytes is exactly the most that
  was ever in use. `MemheapCalls` says what each operation does to blocks and lists, and when it fails.
  The class `Memheap.Memheap` keeps every live payload.
* **lwp_mem.** A request is served by the first heap with room, or by a new one whose retry always
  succeeds; every heap between calls is in use, the page counter is the number of pages modulo 256,
  and reallocation fails exactly when neither heap nor growth can serve it and keeps the bytes of the
  block it moves and of all others.
* **finsh heap.** `FinshHeapProofs.RunInv`: the highest block is free in every reachable state, and
  this is what the stale `next` pointer of a removed block needs (`FinshHeap.InsertExactly`).
  `FinshHeapResults.AllocatedExactly`, `FreeExactly`, `CollectedExactly`: which bytes come and go.
* **Data queue.** `DataQueueProofs.NoLostWakeup`, in every interleaving and for every mark, and
  `DataQueueCalls.PushExactly`, `PopExactly`: when a call succeeds, fails or waits, and whom it wakes.
* **Buffers.** Every operation refines a bounded byte sequence; a reader that takes byte after byte
  while interrupts bring more loses nothing but what newer bytes push out (`SerialFifo.ReadConserves`,
  `ReadLossless`).
* **I2C.** `I2c.Bus.Xfer` with `I2cModel.XferAcked`, `XferBrackets`, `I2cOutcomes.MessagesPlayed`,
  `XferExactly` and `BuffersExactly`: the receiver decodes the line trace to exactly the frames of the
  transfer, whatever the slave answers, and the read buffers hold exactly what it sent.
* **WLAN.** `WlanCrc.BurstDetected`, `OddDetected`, `SelfAppend`, `CheckValue`, `WlanCfg.Cache.Save` and
  `WlanCfg.StructSaveRefresh`.

Where the code does not do what its documentation or its names promise, the model follows the code
and the exact condition is proved: operators whose leftmost leaf is a system call
(`FinshLimits.OperatorExactly`, `UnaryExactly`, `AssignmentExactly`, `AssignmentRefused`), `void*`
variables (`VariableExactly`), parenthesised expressions (`FinshGrammar.ParenRefused`), the token
lost after an empty statement (`FinshLines.LineExactly`, with the input in
`FinshGrammar.EmptyStatementSwallows`), `rt_ringbuffer_put_force` across the end of the pool
(`RingBuffer.ForcedExactly`), the page limit of a process (`LwpMem.LimitExactly`, with the input in
`LimitExceeded`), allocation sizes whose rounding wraps (`MemheapResults.AlignedCovers`), 16-bit
queue indices (`DataQueueProofs.FullTestExactly`, `SlotsExactly`), the readiness test and the
indicated length of the serial FIFO (`SerialFifo.RxFifo.Readable`, `IndicatedLen`), and 7-bit I2C
addresses of 128 and above (`I2cModel.ShortExactly`).

## Model

| member | source | states |
|---|---|---|
| `FinshGrammar.ParsesExactly` | rt-thread/components/finsh/finsh_parser.c:442-911 | on every token sequence the parser yields a tree and a remainder if and only if the sequence is the printed form of a paren-free expression, with that tree, followed by a token that ends it |
| `FinshGrammar.RoundTrip` | rt-thread/components/finsh/finsh_parser.c:430-911 | an expression printed and followed by any token that ends it at its level parses back to exactly its tree (binary operators to the left, `=` to the right, prefix tighter than infix, nested calls), and nothing after it is consumed |
| `FinshGrammar.Sound` | rt-thread/components/finsh/finsh_parser.c:442-857 | whatever a level parses is a printed expression of that level, and the parser stops only at a token that must end it |
| `FinshGrammar.TailThrough` | rt-thread/components/finsh/finsh_parser.c:467-668 | a binary level reads an expression of its level and is then in its loop with the left-folded tree |
| `FinshGrammar.PostThrough` | rt-thread/components/finsh/finsh_parser.c:758-807 | the postfix level reads `++`, `--` and calls of any nesting and is then in its loop |
| `FinshGrammar.ParamsThrough` | rt-thread/components/finsh/finsh_parser.c:784-792 | the printed arguments and the right parenthesis parse to the sibling list of the argument trees |
| `FinshGrammar.PrintedOnce` | rt-thread/components/finsh/finsh_parser.c:430-911 | two expressions with the same tokens stand for the same tree |
| `FinshReading.Precedence` | rt-thread/components/finsh/finsh_parser.c:467-668 | for all operands and operators, `a o1 b o2 c` in front of a token that ends it is read as `a o1 (b o2 c)` if and only if o2 stands strictly after o1 in the order `|`, `^`, `&`, `<< >>`, `+ -`, `* / %`, and as `(a o1 b) o2 c` otherwise; the order and the nodes are written out, not taken from the tables of the parser |
| `FinshReading.OneOperator` | rt-thread/components/finsh/finsh_parser.c:467-668 | `a o b` is read as the node of that operator over a and b |
| `FinshReading.PrefixReads` | rt-thread/components/finsh/finsh_parser.c:710-750 | a prefix operator takes the operand behind it and builds the node written out for it: none for plus, a subtraction from 0 for minus |
| `FinshReading.PostfixReads` | rt-thread/components/finsh/finsh_parser.c:758-783 | `x++` and `x--` are read as the nodes of post-increment and post-decrement over x |
| `FinshReading.CallReads` | rt-thread/components/finsh/finsh_parser.c:784-887 | a call is read as the function followed by its arguments, as many as written and in their order |
| `FinshReading.AssignReads` | rt-thread/components/finsh/finsh_parser.c:442-461 | an assignment takes the whole expression behind it, further assignments included |
| `FinshReading.LeafReads` | rt-thread/components/finsh/finsh_parser.c:814-857 | a number is its value and a name its symbol |
| `FinshReading.ArithmeticMeans` | rt-thread/components/finsh/finsh_parser.c:467-668 | a line of two operators on numbers is worth what the two operations give in that order, down to their arguments |
| `FinshGrammar.LineTrip` | rt-thread/components/finsh/finsh_parser.c:916-998 | a line of statements, each with its semicolon, parses to the sibling list of their trees in order |
| `FinshGrammar.EmptyStatementSwallows` | rt-thread/components/finsh/finsh_parser.c:972-981 | for `x; ; y;` the token after the empty statement is skipped and the statement y is lost |
| `FinshLines.LineExactly` | rt-thread/components/finsh/finsh_parser.c:916-998 | for a line of any statements with runs of empty statements anywhere: it parses to the list of all its statements if and only if it does not start with an empty statement (unless it holds nothing else) and every odd run stands at the end of the line or in front of a token whose loss changes nothing (a leading `+`, or the 0 of a leading `0 - x`) |
| `FinshLines.EmptyRun` | rt-thread/components/finsh/finsh_parser.c:412-428 | behind a statement an even run of empty statements vanishes, and an odd one takes exactly the next token with it |
| `FinshLines.LineErrors` | rt-thread/components/finsh/finsh_parser.c:412-428 | a statement that does not parse or has no semicolon makes the line an error; the end of the line and a rejected token end it with what was read |
| `FinshLines.RedundantOnly` | rt-thread/components/finsh/finsh_parser.c:467-750 | an expression that still reads as the same tree without its first token starts with a plus sign or with `0 -` before a whole operand |
| `FinshLines.ShortenedSame` | rt-thread/components/finsh/finsh_parser.c:710-750 | conversely, such an expression without that token is an expression with the same tree |
| `FinshLines.WeightOf` | rt-thread/components/finsh/finsh_parser.c:442-911 | the tokens of an expression weigh what its tree weighs: every node is paid for by its token, a minus sign by whether an operand stands before it |
| `FinshLines.LinesExtend` | rt-thread/components/finsh/finsh_parser.c:916-998 | whatever the line, the loop only adds statements behind those read, at most one for each place where a statement ends |
| `FinshGrammar.ParenRefused` | rt-thread/components/finsh/finsh_parser.c:675-697 | no expression that starts with a parenthesis is accepted, as the cast level takes every parenthesis for a cast |
| `FinshParser.Parser.NextToken` | rt-thread/components/finsh/finsh_token.c:81-87 | the next token of the remaining sequence, whether replayed or fresh |
| `FinshParser.Parser.Replay` | rt-thread/components/finsh/finsh_token.h:75 | the token taken last comes again; only a single token is ever put back |
| `FinshParser.Parser.AllocateNode` | rt-thread/components/finsh/finsh_node.c:44-61 | the first unused entry is taken and no other entry changes; null only when no entry is unused |
| `FinshParser.Parser.NewLeaf` | rt-thread/components/finsh/finsh_node.c:63-168 | a leaf in an entry that was unused, all used entries untouched |
| `FinshParser.Parser.MakeSysNode` | rt-thread/components/finsh/finsh_parser.c:897-911 | a new node over the first tree as child with the second as the child's sibling, built from entries that were unused; fails exactly when the table is full |
| `FinshParser.Parser.Proc` | rt-thread/components/finsh/finsh_parser.c:430-857 | on all inputs: without an error the tree of the parse function stands in the table, earlier entries are untouched and the parse's remainder is left; an error only if the input does not parse or needs more nodes than are unused |
| `FinshParser.Parser.ProcAssign` | rt-thread/components/finsh/finsh_parser.c:442-461 | the same for assignments, which associate to the right |
| `FinshParser.Parser.ProcBinary` | rt-thread/components/finsh/finsh_parser.c:467-668 | the same for the six binary levels and their loops |
| `FinshParser.Parser.BinaryStep` | rt-thread/components/finsh/finsh_parser.c:476-484 | one turn of such a loop: right operand and node, or the reason why the whole parse must fail |
| `FinshParser.Parser.ProcCast` | rt-thread/components/finsh/finsh_parser.c:675-697 | the same at cast level, where a left parenthesis that no type follows is an error |
| `FinshParser.Parser.ProcUnary` | rt-thread/components/finsh/finsh_parser.c:710-750 | the same for prefix operators |
| `FinshParser.Parser.PrefixNode` | rt-thread/components/finsh/finsh_parser.c:718-744 | the node of a prefix operator: none for plus, a subtraction from a new 0 for minus |
| `FinshParser.Parser.ProcPostfix` | rt-thread/components/finsh/finsh_parser.c:758-807 | the same for postfix operators and calls |
| `FinshParser.Parser.ProcParams` | rt-thread/components/finsh/finsh_parser.c:784-792 | the same for the part of a call after its left parenthesis |
| `FinshParser.Parser.ProcParamList` | rt-thread/components/finsh/finsh_parser.c:864-887 | the same for parameter lists, linked as siblings in order |
| `FinshParser.Parser.ProcPrimary` | rt-thread/components/finsh/finsh_parser.c:814-857 | the same for identifiers, numbers and parenthesised expressions |
| `FinshParser.Parser.ProcExprStatement` | rt-thread/components/finsh/finsh_parser.c:412-428 | an expression and its semicolon, or a semicolon alone that builds nothing |
| `FinshParser.Parser.HangStatement` | rt-thread/components/finsh/finsh_parser.c:939-949 | a statement becomes the root or the last sibling; the statements before it stay |
| `FinshParser.Parser.ParserRun` | rt-thread/components/finsh/finsh_parser.c:916-998 | on all token sequences: without an error the statement list of the line hangs at the root; an error only if the line does not parse or needs more nodes than there are |
| `FinshParser.AppendAt` | rt-thread/components/finsh/finsh_parser.c:876-878 | writing the sibling field of the last entry appends a tree to the list and moves its end |
| `FinshParser.Adopted` | rt-thread/components/finsh/finsh_parser.c:901-910 | allocating a parent and linking child and sibling builds exactly the tree, with the number of unused entries down by its size |
| `FinshNumber.SpecNumber` | rt-thread/components/finsh/finsh_token.c:568-617 | for digits of base 16, 8 or 2, of any number, the limbs hold the positional value modulo 2^64, and the result is the value modulo 2^32 read as signed |
| `FinshNumber.DigitIn` | rt-thread/components/finsh/finsh_token.c:604-609 | shift and carry through both limbs is multiplying by the base and adding the digit, modulo 2^64 |
| `FinshNumber.LimbShift` | rt-thread/components/finsh/finsh_token.c:606-608 | what a limb loses at the top when shifted is what the carry takes |
| `FinshNumber.DigitExactly` | rt-thread/components/finsh/finsh_token.c:594-603 | the digits are the usual ones, letters in either case |
| `FinshNumber.SignedExactly` | rt-thread/components/finsh/finsh_token.c:614-616 | the result is the signed number with the same 32 bits |
| `FinshWords.Set32` | rt-thread/components/finsh/finsh_compiler.c:39-41 | what is stored byte by byte is what is read back |
| `FinshWords.LoadAfterStore` | rt-thread/components/finsh/finsh_ops.c:375-434 | after a store its address holds the value and no other byte has changed |
| `FinshWords.LittleEndian` | rt-thread/components/finsh/finsh_ops.c:375-434 | a word is stored in the four bytes from its address on, lowest byte first, round the end of the address space; no other byte changes |
| `FinshMachine.Step` | rt-thread/components/finsh/finsh_ops.c:571-621 | every operation moves the program counter forward and keeps it inside the text, so that a run ends |
| `FinshMachine.OpcodeOrder` | rt-thread/components/finsh/finsh_ops.c:571-621 | the opcodes of the operators lie in op_table in groups of three, in its order |
| `FinshMachine.Run` | rt-thread/components/finsh/finsh_vm.c:63-71 | a run that does not fault ends at the end of the text |
| `FinshMachine.ZeroTail` | rt-thread/components/finsh/finsh_vm.c:63-71 | the zero-filled rest of the text runs through without effect |
| `FinshCorrect.CompilerCorrect` | rt-thread/components/finsh/finsh_compiler.c:903-937 | compiler correctness for statement lists: from an empty stack the run ends with one live cell, slot 0, holding the last statement's value, and with the memory evaluation leaves; it faults exactly when evaluation does |
| `FinshPlain.PlainExactly` | rt-thread/components/finsh/finsh_compiler.c:759-901 | the compiler translates an expression as it is meant exactly if, as written, operators apply to something whose leftmost operand is a number or a variable, steps apply to variables, calls have at most sixteen arguments and no `void*` variable occurs |
| `FinshPlain.LineExactly` | rt-thread/components/finsh/finsh_compiler.c:903-937 | the same for the statements of a line |
| `FinshPlain.RefusedExactly` | rt-thread/components/finsh/finsh_compiler.c:311-371 | the compiler sets an error for an expression exactly if something in it without a width is assigned to |
| `FinshPlain.LineRefused` | rt-thread/components/finsh/finsh_compiler.c:903-937 | the same for the statements of a line |
| `FinshCorrect.ListCompiles` | rt-thread/components/finsh/finsh_compiler.c:311-371 | no error is set for a well-typed statement list |
| `FinshCorrect.ValueCorrect` | rt-thread/components/finsh/finsh_compiler.c:43-757 | the code of any well-typed expression, from any stack and memory, pushes exactly its value, keeps every cell below, stays within the depth computed from the tree, and leaves memory as evaluation does |
| `FinshCorrect.TargetCorrect` | rt-thread/components/finsh/finsh_compiler.c:43-757 | in address mode the code of a variable or of `*e` pushes its address |
| `FinshCorrect.ListCorrect` | rt-thread/components/finsh/finsh_ops.c:443-569 | the arguments of a call end on the stack in source order |
| `FinshCorrect.CallCorrect` | rt-thread/components/finsh/finsh_compiler.c:285-309 | a call evaluates function and arguments in order and leaves one result |
| `FinshCorrect.AssignCorrect` | rt-thread/components/finsh/finsh_compiler.c:311-371 | an assignment, nested ones included, stores and leaves the stored value |
| `FinshCorrect.BinaryCorrect` | rt-thread/components/finsh/finsh_compiler.c:43-757 | a binary operator leaves its value computed from left and right operand in this order |
| `FinshCorrect.StatementsCorrect` | rt-thread/components/finsh/finsh_compiler.c:918-934 | every statement but the last leaves nothing on the stack, the last its value |
| `FinshCorrect.RunPreStep` | rt-thread/components/finsh/finsh_compiler.c:373-533 | `++x` and `--x` leave the new value |
| `FinshCorrect.RunPostStep` | rt-thread/components/finsh/finsh_compiler.c:535-716 | `x++` and `x--` leave the old value and store the new one |
| `FinshCorrect.TypeCheckType` | rt-thread/components/finsh/finsh_compiler.c:759-901 | type checking gives every node the type of its leftmost leaf |
| `FinshLimits.OperatorExactly` | rt-thread/components/finsh/finsh_compiler.c:759-901 | for operands that compile correctly, the code of `x op y` pushes its value if and only if the leftmost leaf of x has a width; otherwise both operands stay on the stack |
| `FinshLimits.AssignmentExactly` | rt-thread/components/finsh/finsh_compiler.c:759-901 | the code emitted for an assignment stores and pushes the value if and only if the leftmost leaf of its target has a width; without one it would leave memory untouched and address and value on the stack |
| `FinshLimits.AssignmentRefused` | rt-thread/components/finsh/finsh_compiler.c:311-371 | and for such an assignment the compiler sets an error if and only if that leaf has no width |
| `FinshLimits.OperatorCompiles` | rt-thread/components/finsh/finsh_compiler.c:52-283 | for a missing width of an operator no error is set |
| `FinshLimits.UnaryExactly` | rt-thread/components/finsh/finsh_compiler.c:266-270 | for an operand that compiles correctly, the code of `~e` or `*e` leaves its value if and only if the leftmost leaf of e has a width or the operator does not change e's value; without a width the operand stays as it is |
| `FinshLimits.VariableExactly` | rt-thread/components/finsh/finsh_compiler.c:134-196 | a variable's code pushes its value if and only if it is not a `void*` |
| `FinshLimits.CallPlusOne` | rt-thread/components/finsh/finsh_compiler.c:788-796 | `f() + 1` leaves the two operands instead of the sum |
| `FinshNodes.CheckTypes` | rt-thread/components/finsh/finsh_compiler.c:759-901 | type checking in the node table yields the checked tree in the same entries and touches no other |
| `FinshNodes.SetAttributes` | rt-thread/components/finsh/finsh_compiler.c:785-899 | what checking a node writes after its children |
| `FinshEmitter.Emitter.Compile` | rt-thread/components/finsh/finsh_compiler.c:43-757 | appends exactly the code of the tree to the text, and an error is set exactly when a node of the tree sets one |
| `FinshEmitter.Emitter.EmitOwn` | rt-thread/components/finsh/finsh_compiler.c:52-752 | appends the code of one node by its type, mode and width, and sets an error for an assignment without a width |
| `FinshEmitter.Emitter.EmitStep` | rt-thread/components/finsh/finsh_compiler.c:373-716 | load, add or subtract one, store |
| `FinshEmitter.Emitter.CompilerRun` | rt-thread/components/finsh/finsh_compiler.c:903-937 | checks types, clears the text, and writes the statements with a POP between them; the error flag says whether one of them cannot be compiled |
| `FinshEmitter.Emitter.CompileStatement` | rt-thread/components/finsh/finsh_compiler.c:920-934 | one statement, cut off from the next, and the separator after it |
| `FinshEmitter.Cut` | rt-thread/components/finsh/finsh_compiler.c:926-930 | clearing the sibling field leaves the statement and the rest of the list intact |
| `FinshVm.Vm.OpBinary` | rt-thread/components/finsh/finsh_ops.c:42-45 | the result of second and top cell replaces both |
| `FinshVm.Vm.OpComplement` | rt-thread/components/finsh/finsh_ops.c:245-250 | the complement replaces the top cell |
| `FinshVm.Vm.OpLoadConstant` | rt-thread/components/finsh/finsh_ops.c:317-325 | pushes the operand in the text |
| `FinshVm.Vm.OpLoadVariable` | rt-thread/components/finsh/finsh_ops.c:375-387 | pushes the word at the address in the text |
| `FinshVm.Vm.OpLoadIndirect` | rt-thread/components/finsh/finsh_ops.c:389-397 | the word at the address on top replaces it |
| `FinshVm.Vm.OpStore` | rt-thread/components/finsh/finsh_ops.c:424-434 | stores the top cell at the address below it, which stays on the stack |
| `FinshVm.Vm.OpPop` | rt-thread/components/finsh/finsh_ops.c:436-441 | drops the top cell |
| `FinshVm.Vm.OpCall` | rt-thread/components/finsh/finsh_ops.c:443-569 | the function below the parameters is called with the parameters in the order they were pushed, or with one 0, and its result replaces them |
| `FinshVm.Vm.Turn` | rt-thread/components/finsh/finsh_vm.c:66-70 | one turn of the loop is one step of the machine, faults included |
| `FinshVm.Vm.VmRun` | rt-thread/components/finsh/finsh_vm.c:47-72 | the loop is the run of the machine from pc 0 and an empty stack |
| `FinshVm.RunLine` | rt-thread/components/finsh/finsh_compiler.c:903-937 | compiling and running a well-typed tree leaves the last statement's value at the stack bottom and memory as evaluation does; an empty line leaves zero; after a compile error nothing is run |
| `FinshVm.LineCorrect` | rt-thread/components/finsh/finsh_vm.c:47-72 | the run of a compiled line, and of an empty one |
| `FinshLine.ExecuteLine` | rt-thread/components/finsh/finsh_parser.c:916-998 | from the printed text of any plain statement list that fits node table and text, harmless empty statements included, to the value and memory of evaluating it; a line in which something without a width is assigned to changes nothing |
| `FinshLine.StackSuffices` | rt-thread/components/finsh/finsh_compiler.c:903-937 | a well-typed list needs at most two stack cells for each of its nodes, so a line that fits the node table cannot overflow the stack |
| `FinshHeapProofs.RunInv` | rt-thread/components/finsh/finsh_heap.c:55-298 | in every reachable state the blocks tile the heap, no two neighbours are free, and the highest block is free, at the end of the free list |
| `FinshHeap.InsertExactly` | rt-thread/components/finsh/finsh_heap.c:166-200 | insertion keeps a list linked if and only if the entry is not the new last one or its stale next pointer is null |
| `FinshHeapProofs.GcExact` | rt-thread/components/finsh/finsh_heap.c:133-161 | the collector keeps, in order, exactly the allocated blocks whose data address a typed variable holds, and never makes room smaller |
| `FinshHeapProofs.AllocateExactly` | rt-thread/components/finsh/finsh_heap.c:73-95 | allocation returns null exactly when after a collection no free block has the aligned size and a header |
| `FinshHeapProofs.AllocateAdds` | rt-thread/components/finsh/finsh_heap.c:73-110 | exactly one block, of the rounded size, joins the allocated list |
| `FinshHeapProofs.AllocateFree` | rt-thread/components/finsh/finsh_heap.c:73-128 | freeing what was just allocated gives back the heap it was taken from |
| `FinshHeapResults.AllocatedExactly` | rt-thread/components/finsh/finsh_heap.c:73-110 | a request gets the next multiple of four, cut off the lowest block with room, of the heap as it is if a free block has more than that and a header, and of the collected heap otherwise, where exactly as much is enough; null comes back exactly when no block has room |
| `FinshHeapResults.FreeExactly` | rt-thread/components/finsh/finsh_heap.c:115-128 | freeing gives the one intact heap in which all other blocks, and no more, are allocated |
| `FinshHeapResults.Determined` | rt-thread/components/finsh/finsh_heap.c:115-128 | the allocated blocks alone determine the heap |
| `FinshHeapResults.CollectedExactly` | rt-thread/components/finsh/finsh_heap.c:133-161 | the collector keeps an allocated block exactly if some variable with a type points to its data |
| `FinshHeapProofs.TakeInv` | rt-thread/components/finsh/finsh_heap.c:232-246 | splitting a free block keeps the invariant |
| `FinshHeapProofs.FreeInv` | rt-thread/components/finsh/finsh_heap.c:248-298 | freeing and merging keeps the invariant |
| `FinshHeapProofs.TakeLists` | rt-thread/components/finsh/finsh_heap.c:98-105 | the taken part joins the allocated list, the rest takes its place on the free list, nothing else moves |
| `FinshHeapProofs.FreeLists` | rt-thread/components/finsh/finsh_heap.c:115-128 | freeing takes exactly one block off the allocated list and puts the merged one in its place on the free list |
| `FinshHeapProofs.FreeRoom` | rt-thread/components/finsh/finsh_heap.c:248-298 | freeing never makes the room smaller |
| `FinshHeapProofs.NothingAllocated` | rt-thread/components/finsh/finsh_heap.c:55-68 | with nothing allocated the heap is the initial one |
| `FinshHeap.MergeSides` | rt-thread/components/finsh/finsh_heap.c:266-297 | an entry of the free list touches the freed block exactly when the neighbouring block is free |
| `FinshHeap.MergedLists` | rt-thread/components/finsh/finsh_heap.c:266-297 | merging on the list is merging of neighbouring blocks |
| `FinshHeap.RemoveChain` | rt-thread/components/finsh/finsh_heap.c:205-227 | after removal the rest of the list is linked |
| `FinshHeap.Heap.constructor` | rt-thread/components/finsh/finsh_heap.c:55-68 | one free block, all bytes zero |
| `FinshHeap.Heap.Insert` | rt-thread/components/finsh/finsh_heap.c:166-200 | the entry is linked in at its place in address order |
| `FinshHeap.Heap.Remove` | rt-thread/components/finsh/finsh_heap.c:205-227 | the entry is linked out; its own pointer is cleared only at the head |
| `FinshHeap.Heap.Split` | rt-thread/components/finsh/finsh_heap.c:232-246 | header fields of both parts |
| `FinshHeap.Heap.Merge` | rt-thread/components/finsh/finsh_heap.c:248-298 | the entry and the neighbours that touch it become one, three at most |
| `FinshHeap.Heap.PrevNode` | rt-thread/components/finsh/finsh_heap.c:255-264 | the entry before, or null at the head |
| `FinshHeap.Heap.Free` | rt-thread/components/finsh/finsh_heap.c:115-128 | both lists stay exactly the blocks of either kind, and the blocks are those of the model |
| `FinshHeap.Heap.Search` | rt-thread/components/finsh/finsh_heap.c:80-91 | the first free block with enough bytes |
| `FinshHeap.Heap.Collector` | rt-thread/components/finsh/finsh_heap.c:133-161 | the walk frees as the model's collector, though it relinks the list it walks on |
| `FinshHeap.Heap.TakeBlock` | rt-thread/components/finsh/finsh_heap.c:97-107 | the block moves to the allocated list zero-filled, and the bytes of other blocks stay |
| `FinshHeap.Heap.Allocate` | rt-thread/components/finsh/finsh_heap.c:73-110 | blocks and result follow the model; the bytes handed out, the next multiple of four of the request, are zero, and the payloads of the other blocks stay |
| `MemheapResults.RunInv` | rt-thread/components/lwp/lwp_memheap.c:59-578 | after every run of allocate, free and reallocate the blocks tile the pool, no two neighbours are free, the free list holds exactly the free blocks once each, the tailer stays used, and the counters are right |
| `MemheapResults.Conservation` | rt-thread/components/lwp/lwp_memheap.c:71-72 | headers, free payload and used payload add up to the pool |
| `MemheapResults.FreeEverything` | rt-thread/components/lwp/lwp_memheap.c:481-578 | freeing the live blocks of any reachable heap in any order gives back the initial heap |
| `MemheapResults.EmptyExactly` | rt-thread/components/lwp/lwp_memheap.c:580-585 | is_empty holds exactly when nothing is allocated, and then the heap is one whole free block |
| `MemheapResults.HighWater` | rt-thread/components/lwp/lwp_memheap.c:225-233 | after any run on an initial heap max_used_size is exactly the largest number of bytes in use in any state passed through, both copies of a block that a reallocation moves included |
| `MemheapResults.StepPeak` | rt-thread/components/lwp/lwp_memheap.c:339-342 | one operation raises the mark to exactly the most it had in use |
| `MemheapResults.AllocFails` | rt-thread/components/lwp/lwp_memheap.c:146-175 | allocation fails if and only if the request is not below the free bytes or no single free block has room, and then nothing changes |
| `MemheapResults.AllocAdds` | rt-thread/components/lwp/lwp_memheap.c:130-272 | exactly one live block is added, on bytes that were free, of at least the aligned size and less than a split more |
| `MemheapResults.FreeRemoves` | rt-thread/components/lwp/lwp_memheap.c:481-578 | exactly the freed block goes |
| `MemheapResults.ResizeReplaces` | rt-thread/components/lwp/lwp_memheap.c:302-478 | resizing in place changes the size of one live block and nothing else |
| `MemheapResults.ReallocReplaces` | rt-thread/components/lwp/lwp_memheap.c:274-479 | on success one live block is replaced by one of at least the aligned new size; on failure nothing changes |
| `MemheapResults.LiveDisjoint` | rt-thread/components/lwp/lwp_memheap.c:130-272 | live payloads do not overlap and lie inside the pool, clear of all headers |
| `MemheapResults.AlignedCovers` | rt-thread/components/lwp/lwp_memheap.c:139-141 | the aligned size covers the request exactly when rounding up does not wrap |
| `MemheapCalls.AllocatedExactly` | rt-thread/components/lwp/lwp_memheap.c:130-272 | null exactly if the request, rounded up, is not below the free bytes or no free block has room; otherwise the first block with room on the free list is handed out, cut to size with the rest at the front of the list if that can hold a header and twelve bytes, and whole if not |
| `MemheapCalls.FreedExactly` | rt-thread/components/lwp/lwp_memheap.c:481-578 | a freed block becomes one free block with its free neighbours; the free list and the counter afterwards |
| `MemheapCalls.ReallocatedExactly` | rt-thread/components/lwp/lwp_memheap.c:274-479 | reallocation grows in place exactly if the next block is free and together they exceed the new size by more than twelve bytes, moves otherwise, shrinks exactly if the rest can hold a header and more than twelve bytes, and stays otherwise; blocks, free list and counter afterwards |
| `MemheapCalls.ReallocFails` | rt-thread/components/lwp/lwp_memheap.c:302-400 | null exactly if the block must grow, cannot do so in place, and no free block has room |
| `MemheapCalls.InitialExactly` | rt-thread/components/lwp/lwp_memheap.c:59-128 | the pool is rounded down to a multiple of four and is one free block in front of the tailer |
| `MemheapProofs.InitInv` | rt-thread/components/lwp/lwp_memheap.c:59-128 | the initial heap has the invariant |
| `MemheapProofs.FirstFitFinds` | rt-thread/components/lwp/lwp_memheap.c:160-171 | the search finds the first block of the free list with enough room, or there is none |
| `MemheapProofs.MergeBytes` | rt-thread/components/lwp/lwp_memheap.c:519-561 | a free moves the counter by the payload and one header for every merge |
| `MemheapProofs.FreeAtInv` | rt-thread/components/lwp/lwp_memheap.c:481-578 | freeing keeps the invariant in all four merge cases |
| `MemheapProofs.ResizeInv` | rt-thread/components/lwp/lwp_memheap.c:302-478 | growing and shrinking in place keep the invariant |
| `MemheapProofs.TakeInv` | rt-thread/components/lwp/lwp_memheap.c:176-249 | allocating, with and without a split, keeps the invariant |
| `Rings.InsertAfter` | rt-thread/components/lwp/lwp_memheap.c:200-216 | the four pointer writes of an insertion make the ring with the new node |
| `Rings.Remove` | rt-thread/components/lwp/lwp_memheap.c:207-208 | the two pointer writes of a removal make the ring without the node |
| `Memheap.Memheap.constructor` | rt-thread/components/lwp/lwp_memheap.c:59-128 | the rings, flags and counters of the initial heap |
| `Memheap.Memheap.FindFree` | rt-thread/components/lwp/lwp_memheap.c:160-171 | the first fit of the model |
| `Memheap.Memheap.Alloc` | rt-thread/components/lwp/lwp_memheap.c:130-272 | the address the model hands out, or null; every live payload stays |
| `Memheap.Memheap.TakeSplit` | rt-thread/components/lwp/lwp_memheap.c:183-226 | pointer writes and counters of a split |
| `Memheap.Memheap.TakeWhole` | rt-thread/components/lwp/lwp_memheap.c:228-246 | pointer writes and counters of a block taken whole |
| `Memheap.Memheap.Free` | rt-thread/components/lwp/lwp_memheap.c:481-578 | the blocks, free list and counters of the model after the free; every other payload stays |
| `Memheap.Memheap.Merge` | rt-thread/components/lwp/lwp_memheap.c:523-574 | merging with both neighbours, and onto the free list unless the predecessor is on it |
| `Memheap.Memheap.MergeBefore` | rt-thread/components/lwp/lwp_memheap.c:524-540 | a free predecessor takes the block in |
| `Memheap.Memheap.MergeAfter` | rt-thread/components/lwp/lwp_memheap.c:543-561 | a free successor leaves ring and free list |
| `Memheap.Memheap.Realloc` | rt-thread/components/lwp/lwp_memheap.c:274-479 | the model's reallocation; the first bytes of the block, up to the smaller size, and every other live payload stay |
| `Memheap.Memheap.Grow` | rt-thread/components/lwp/lwp_memheap.c:339-388 | the free successor makes room and starts further up |
| `Memheap.Memheap.MoveRest` | rt-thread/components/lwp/lwp_memheap.c:344-388 | the successor leaves both lists and the rest takes its place in them |
| `Memheap.Memheap.Shrink` | rt-thread/components/lwp/lwp_memheap.c:419-478 | the cut-off rest becomes a free block, merged with a free successor |
| `Memheap.Memheap.Absorb` | rt-thread/components/lwp/lwp_memheap.c:442-460 | a free successor of the rest comes off counter and lists |
| `Memheap.Memheap.MoveBlock` | rt-thread/components/lwp/lwp_memheap.c:395-403 | allocate, copy, free |
| `Memheap.Memheap.CheckRoom` | rt-thread/components/lwp/lwp_memheap.c:315-337 | whether the next block is free and has room for the growth |
| `Memheap.Memheap.HeapIsEmpty` | rt-thread/components/lwp/lwp_memheap.c:580-585 | the counter test says whether nothing is allocated |
| `LwpMem.GrowthSuffices` | rt-thread/components/lwp/lwp_mem.c:162-164 | a heap of the computed number of pages satisfies the request it was made for |
| `LwpMem.PagesExactly` | rt-thread/components/lwp/lwp_mem.c:162 | a growth takes the fewest pages that hold more than the request and its overhead |
| `LwpMem.LimitExactly` | rt-thread/components/lwp/lwp_mem.c:55-59 | the test on the 8-bit counter agrees with the page limit for every growth if and only if the heaps of the process hold fewer than 256 pages |
| `LwpMem.LimitExceeded` | rt-thread/components/lwp/lwp_mem.c:46-87 | a first request may take all 1024 pages; the counter is then 0 and a further page is not refused |
| `LwpMem.NothingAllocated` | rt-thread/components/lwp/lwp_mem.c:169-191 | with nothing allocated no heap is left and the counter is 0 |
| `LwpMem.AllLiveDisjoint` | rt-thread/components/lwp/lwp_mem.c:136-167 | live blocks anywhere in the process do not overlap |
| `LwpMem.CopyKeeps` | rt-thread/components/lwp/lwp_mem.c:220-225 | the copy spares every earlier live block |
| `LwpMem.LwpMem.MallocPage` | rt-thread/components/lwp/lwp_mem.c:46-87 | a new heap joins the list and the counter grows modulo 256, or nothing changes; with fewer than 256 pages in the heaps the outcome is that of the real page limit |
| `LwpMem.LwpMem.Malloc` | rt-thread/components/lwp/lwp_mem.c:136-167 | the first heap with room serves the request as it would alone, or else a new heap of the computed pages does; null exactly for size 0 or when no heap has room and no pages come; every heap is in use afterwards and all payloads stay |
| `LwpMem.LwpMem.Search` | rt-thread/components/lwp/lwp_mem.c:149-160 | the first heap that can serve the request does |
| `LwpMem.LwpMem.GrowAndRetry` | rt-thread/components/lwp/lwp_mem.c:162-166 | the new heap serves the request; null exactly when the growth is refused |
| `LwpMem.LwpMem.Retry` | rt-thread/components/lwp/lwp_mem.c:163-164 | the second round, after a growth for the request, never fails |
| `LwpMem.LwpMem.FreePage` | rt-thread/components/lwp/lwp_mem.c:89-106 | an empty heap leaves the list and the counter |
| `LwpMem.LwpMem.Free` | rt-thread/components/lwp/lwp_mem.c:169-191 | exactly the block goes, and its heap too when it was the last one there |
| `LwpMem.LwpMem.Realloc` | rt-thread/components/lwp/lwp_mem.c:193-236 | the heap that holds the block reallocates it if it can; otherwise a block is obtained as for any request and the old one freed; null exactly if neither heap nor growth can give the new size, and for a null pointer exactly as malloc; the first bytes and all other payloads stay, and on failure nothing changes |
| `LwpMem.LwpMem.MoveAcross` | rt-thread/components/lwp/lwp_mem.c:212-231 | allocate elsewhere, copy the smaller size, free; null exactly when the allocation is refused |
| `LwpMem.LwpMem.CopyBlock` | rt-thread/components/lwp/lwp_mem.c:220-225 | the smaller of old and new size is copied, nothing else |
| `DataQueueProofs.NoLostWakeup` | rt-thread/components/drivers/src/dataqueue.c:65-340 | in every interleaving: items come out in the order they went in, none lost or doubled, at most size held; a waiting popper with none woken means an empty queue; a waiting pusher with none woken means a queue above the mark; pushers and poppers never all sleep |
| `DataQueueProofs.ResultExactly` | rt-thread/components/drivers/src/dataqueue.c:65-253 | a push that returns success added exactly its item, a pop that returns success took exactly the oldest; any other outcome left the items alone |
| `DataQueueCalls.PushExactly` | rt-thread/components/drivers/src/dataqueue.c:65-151 | a push goes through if and only if fewer items than the size are held; then the item is the last one and the first waiting popper is made ready in place of the event; on a full queue it fails at once without a timeout and waits with one; no other thread moves |
| `DataQueueCalls.PopExactly` | rt-thread/components/drivers/src/dataqueue.c:154-253 | a pop goes through if and only if an item is held and returns the oldest; at or below the mark it reports that and makes the first waiting pusher ready; on an empty queue it fails at once without a timeout and waits with one |
| `DataQueueCalls.RefusedExactly` | rt-thread/components/drivers/src/dataqueue.c:115-119 | a call woken with an error returns that error and changes nothing else |
| `DataQueueCalls.WokenWithError` | rt-thread/components/drivers/src/dataqueue.c:282-340 | a timeout takes its thread off the list, and a reset the first one, with their own errors; nothing else moves |
| `DataQueueProofs.RunInv` | rt-thread/components/drivers/src/dataqueue.c:65-340 | the invariant of items, suspended lists and wake-ups over every run |
| `DataQueueProofs.TryPushInv` | rt-thread/components/drivers/src/dataqueue.c:80-141 | a push section keeps the invariant |
| `DataQueueProofs.TryPopInv` | rt-thread/components/drivers/src/dataqueue.c:171-240 | a pop section keeps the invariant |
| `DataQueueProofs.ResumeInv` | rt-thread/components/drivers/src/dataqueue.c:115-119 | so does the section of a woken thread |
| `DataQueueProofs.ExpireInv` | rt-thread/components/drivers/src/dataqueue.c:98-106 | so does a timeout |
| `DataQueueProofs.ResetInv` | rt-thread/components/drivers/src/dataqueue.c:282-340 | so does each step of a reset |
| `DataQueueProofs.InOut` | rt-thread/components/drivers/src/dataqueue.c:121-213 | what went in is what came out followed by what is held |
| `DataQueueProofs.FullTestExactly` | rt-thread/components/drivers/src/dataqueue.c:81 | the full test on 16-bit indices is right if and only if both counts are in the same round of 65536 or the queue is not full |
| `DataQueueProofs.EmptyTestAgrees` | rt-thread/components/drivers/src/dataqueue.c:172 | the empty test on 16-bit indices is always right |
| `DataQueueProofs.SlotsExactly` | rt-thread/components/drivers/src/dataqueue.c:121-123 | a 16-bit index always selects the slot of its count if and only if the size divides 65536 |
| `DataQueue.Queue.constructor` | rt-thread/components/drivers/src/dataqueue.c:36-62 | an empty queue |
| `DataQueue.Queue.Push` | rt-thread/components/drivers/src/dataqueue.c:65-151 | the section of the state machine, with the invariant kept; success exactly with fewer items than the size, then the item is added; otherwise refusal without and waiting with a timeout |
| `DataQueue.Queue.Pop` | rt-thread/components/drivers/src/dataqueue.c:154-253 | likewise; success exactly when an item is held, and then the oldest one |
| `DataQueue.Queue.Resumed` | rt-thread/components/drivers/src/dataqueue.c:115-119 | an error ends the call, otherwise the loop goes round |
| `DataQueue.Queue.Peak` | rt-thread/components/drivers/src/dataqueue.c:256-280 | the oldest item, or none |
| `DataQueue.Queue.Reset` | rt-thread/components/drivers/src/dataqueue.c:282-340 | every waiting thread, and no other, becomes ready with an error; both lists are empty and the items stay |
| `RingBuffer.ForcedExactly` | rt-thread/components/drivers/src/ringbuffer.c:112-160 | put_force keeps the last bytes of old and new if and only if it does not both share the reader's mirror, reach the end of the pool and exceed the room; in that case nothing is left |
| `RingBuffer.AppendedFits` | rt-thread/components/drivers/src/ringbuffer.c:79-102 | what fits is appended behind the contents, across the end of the pool or not |
| `RingBuffer.TakenFacts` | rt-thread/components/drivers/src/ringbuffer.c:184-207 | reading takes the oldest bytes and leaves the rest |
| `RingBuffer.RingBuffer.constructor` | rt-thread/components/drivers/src/ringbuffer.c:43-58 | empty, with the size rounded down to a multiple of four |
| `RingBuffer.RingBuffer.Status` | rt-thread/components/drivers/src/ringbuffer.c:31-41 | empty, full, or between |
| `RingBuffer.RingBuffer.DataLen` | rt-thread/components/drivers/src/ringbuffer.c:306-321 | the number of bytes held |
| `RingBuffer.RingBuffer.Put` | rt-thread/components/drivers/src/ringbuffer.c:63-104 | appends as many of the bytes as fit |
| `RingBuffer.RingBuffer.PutForce` | rt-thread/components/drivers/src/ringbuffer.c:112-160 | the last bytes of old and new stay, with the exception above |
| `RingBuffer.RingBuffer.Get` | rt-thread/components/drivers/src/ringbuffer.c:166-207 | hands out the oldest bytes and leaves the rest, and the rest of the caller's buffer |
| `RingBuffer.RingBuffer.PutChar` | rt-thread/components/drivers/src/ringbuffer.c:213-235 | appends one byte if there is room |
| `RingBuffer.RingBuffer.PutCharForce` | rt-thread/components/drivers/src/ringbuffer.c:243-272 | appends one byte, the oldest gives way when full |
| `RingBuffer.RingBuffer.GetChar` | rt-thread/components/drivers/src/ringbuffer.c:278-300 | hands out the oldest byte, or none |
| `RingBuffer.RingBuffer.Reset` | rt-thread/components/drivers/src/ringbuffer.c:327-335 | empty |
| `SerialFifo.StreamOver` | rt-thread/components/drivers/serial/serial.c:408-449 | when streamed bytes run over the unread ones, the window from the new put index on is the last bytes of old and new |
| `SerialFifo.StreamFits` | rt-thread/components/drivers/serial/serial.c:408-449 | streamed bytes that fit extend the window of unread ones |
| `SerialFifo.WindowDrop` | rt-thread/components/drivers/serial/serial.c:386-400 | reading drops the front of the window |
| `SerialFifo.RxFifo.RecvedLen` | rt-thread/components/drivers/serial/serial.c:345-366 | the number of unread bytes, with a get index at the very end standing for 0 |
| `SerialFifo.RxFifo.IntReceive` | rt-thread/components/drivers/serial/serial.c:1153-1167 | the last bufsz - 1 bytes stay (one for a buffer of one byte), and equal indices mean an empty FIFO |
| `SerialFifo.RxFifo.IndicatedLen` | rt-thread/components/drivers/serial/serial.c:1177-1178 | the length told to the callback is right if and only if it is not the full one-byte FIFO |
| `SerialFifo.RxFifo.IntRead` | rt-thread/components/drivers/serial/serial.c:272-318 | with any bytes arriving between the single-byte sections: the bytes handed out and the bytes left are those of the specification |
| `SerialFifo.ReadConserves` | rt-thread/components/drivers/serial/serial.c:272-318 | bytes are read in the order in which they came in, and every byte that was held or came in is read, held or was pushed out by newer ones |
| `SerialFifo.ReadLossless` | rt-thread/components/drivers/serial/serial.c:272-318 | what is read and held is everything that was held and came in, in order, if and only if nothing was pushed out |
| `SerialFifo.ReadQuiet` | rt-thread/components/drivers/serial/serial.c:272-318 | without interrupts in between, exactly the oldest bytes |
| `SerialFifo.RxFifo.Interrupts` | rt-thread/components/drivers/serial/serial.c:1145-1171 | after any number of receive interrupts the last bytes stay |
| `SerialFifo.RxFifo.TakeOne` | rt-thread/components/drivers/serial/serial.c:289-311 | one byte, in the section with interrupts disabled |
| `SerialFifo.RxFifo.DmaReceived` | rt-thread/components/drivers/serial/serial.c:1243-1252 | the last bufsz bytes of old and new stay, and a full FIFO has both indices together below bufsz |
| `SerialFifo.RxFifo.UpdatePutIndex` | rt-thread/components/drivers/serial/serial.c:408-449 | put index, get index and flag after a reception |
| `SerialFifo.RxFifo.DmaConsumed` | rt-thread/components/drivers/serial/serial.c:386-400 | the bytes read are gone; the get index may rest at bufsz |
| `SerialFifo.RxFifo.DmaRead` | rt-thread/components/drivers/serial/serial.c:454-509 | hands out exactly the oldest bytes |
| `SerialFifo.RxFifo.Readable` | rt-thread/components/drivers/serial/serial.c:195-198 | the poll test is right if and only if the get index does not rest at bufsz with the put index at 0 |
| `I2cModel.XferAcked` | rt-thread/components/drivers/i2c/i2c-bit-ops.c:381-442 | with an acknowledging slave a transfer is exactly START, all addresses and data bytes with repeated STARTs between messages, STOP; read bytes are acknowledged except the last |
| `I2cModel.XferBrackets` | rt-thread/components/drivers/i2c/i2c-bit-ops.c:381-442 | whatever the slave answers, a transfer begins with START, a STOP on the way is followed by START, and the last thing is STOP |
| `I2cModel.AddressExactly` | rt-thread/components/drivers/i2c/i2c-bit-ops.c:295-316 | the address is accepted if and only if one of retries + 1 attempts is acknowledged |
| `I2cModel.BytesExactly` | rt-thread/components/drivers/i2c/i2c-bit-ops.c:201-235 | the bytes are sent if and only if all are acknowledged or the message ignores that |
| `I2cOutcomes.AddressPlayed` | rt-thread/components/drivers/i2c/i2c-bit-ops.c:295-316 | the address byte is sent until it is acknowledged or the retries are used up, with STOP and START behind every refusal |
| `I2cOutcomes.XferExactly` | rt-thread/components/drivers/i2c/i2c-bit-ops.c:381-442 | whatever the slave answers, without retries and ignore flags: the transfer is done if and only if every address and data byte is acknowledged, and then all expected frames were on the bus; otherwise exactly those up to the first byte that is not acknowledged, and a STOP |
| `I2cOutcomes.MessagesPlayed` | rt-thread/components/drivers/i2c/i2c-bit-ops.c:394-433 | whatever the slave answers and whatever the flags say, the transfer is the plan of its messages carried out up to the first missing acknowledge that is not ignored, with the error of an address or of a data byte |
| `I2cOutcomes.BuffersExactly` | rt-thread/components/drivers/i2c/i2c-bit-ops.c:411-432 | the buffers of the read messages gone through hold, one after the other, exactly the bytes the slave sent; all other buffers are as they were |
| `I2cOutcomes.ConditionsSeen` | rt-thread/components/drivers/i2c/i2c-bit-ops.c:85-120 | on every line trace, SDA moves under a high clock exactly for the STARTs and STOPs the receiver sees |
| `I2cModel.RecvAt` | rt-thread/components/drivers/i2c/i2c-bit-ops.c:255-293 | the k-th byte read is the slave's, acknowledged unless it is the last |
| `I2cModel.BitsValue` | rt-thread/components/drivers/i2c/i2c-bit-ops.c:151-165 | a byte shifted out most significant bit first is what the receiver collects |
| `I2cModel.ShortExactly` | rt-thread/components/drivers/i2c/i2c-bit-ops.c:370-372 | the address byte names address and direction if and only if the address has seven bits |
| `I2cModel.TenBitExactly` | rt-thread/components/drivers/i2c/i2c-bit-ops.c:333-334 | the two bytes of a 10-bit address carry the prefix 11110 and the address, if and only if it has ten bits |
| `I2c.Bus.SetSda` | rt-thread/components/drivers/i2c/i2c-bit-ops.c:33-49 | one line moves, and the receiver sees it |
| `I2c.Bus.SclLow` | rt-thread/components/drivers/i2c/i2c-bit-ops.c:50 | the clock falls, and no bit or condition is seen |
| `I2c.Bus.SclHigh` | rt-thread/components/drivers/i2c/i2c-bit-ops.c:55-83 | the clock rises and the receiver samples the line |
| `I2c.Bus.Start` | rt-thread/components/drivers/i2c/i2c-bit-ops.c:85-100 | from an idle bus the receiver sees exactly a START |
| `I2c.Bus.Restart` | rt-thread/components/drivers/i2c/i2c-bit-ops.c:102-110 | between bytes the receiver sees exactly a START |
| `I2c.Bus.Stop` | rt-thread/components/drivers/i2c/i2c-bit-ops.c:112-120 | the receiver sees exactly a STOP, and the bus is idle |
| `I2c.Bus.WaitAck` | rt-thread/components/drivers/i2c/i2c-bit-ops.c:122-142 | closes a byte and returns the slave's acknowledge |
| `I2c.Bus.WriteB` | rt-thread/components/drivers/i2c/i2c-bit-ops.c:144-170 | the receiver sees exactly the byte and its acknowledge |
| `I2c.Bus.ReadB` | rt-thread/components/drivers/i2c/i2c-bit-ops.c:172-199 | returns exactly the slave's byte |
| `I2c.Bus.SendAckOrNack` | rt-thread/components/drivers/i2c/i2c-bit-ops.c:237-253 | closes a read byte with the master's acknowledge |
| `I2c.Bus.SendBytes` | rt-thread/components/drivers/i2c/i2c-bit-ops.c:201-235 | frames and count of the specification |
| `I2c.Bus.RecvBytes` | rt-thread/components/drivers/i2c/i2c-bit-ops.c:255-293 | frames and bytes of the specification |
| `I2c.Bus.SendAddress` | rt-thread/components/drivers/i2c/i2c-bit-ops.c:295-316 | frames and result of the specification, retries included |
| `I2c.Bus.BitSendAddress` | rt-thread/components/drivers/i2c/i2c-bit-ops.c:318-379 | frames and result of the address phase |
| `I2c.Bus.Transfer` | rt-thread/components/drivers/i2c/i2c-bit-ops.c:394-433 | frames, result and received bytes of one message |
| `I2c.Bus.MessageLoop` | rt-thread/components/drivers/i2c/i2c-bit-ops.c:393-437 | frames, result and buffers of all messages |
| `I2c.Bus.Xfer` | rt-thread/components/drivers/i2c/i2c-bit-ops.c:381-442 | the receiver decodes the line trace to exactly the frames of the specification; SDA moves under a high clock only for those STARTs and STOPs; the read buffers hold what the specification says; the bus is idle afterwards |
| `WlanCrc.CalCrc` | rt-thread/components/drivers/wlan/wlan_cfg.c:52-71 | the loops compute the CRC function |
| `WlanCrc.CheckValue` | rt-thread/components/drivers/wlan/wlan_cfg.c:52-71 | the CRC of the digits 1 to 9 is 0x31c3, and that of no bytes is 0 |
| `WlanCrc.CrcLinear` | rt-thread/components/drivers/wlan/wlan_cfg.c:58-69 | the CRC is linear over exclusive or for buffers of one length |
| `WlanCrc.CrcInjective` | rt-thread/components/drivers/wlan/wlan_cfg.c:58-69 | equal data keeps different registers different |
| `WlanCrc.StepZero` | rt-thread/components/drivers/wlan/wlan_cfg.c:64-67 | a bit step maps only 0 to 0 |
| `WlanCrc.AdjacentDetected` | rt-thread/components/drivers/wlan/wlan_cfg.c:52-71 | buffers that differ in one byte or two adjacent bytes, in any way, have different CRCs |
| `WlanCrc.BurstDetected` | rt-thread/components/drivers/wlan/wlan_cfg.c:52-71 | a change of any kind within sixteen consecutive bits, at any bit offset and across three bytes, changes the CRC |
| `WlanCrc.Doubled` | rt-thread/components/drivers/wlan/wlan_cfg.c:58-69 | moving three bytes up by one bit is one more turn of the register |
| `WlanCrc.SelfAppend` | rt-thread/components/drivers/wlan/wlan_cfg.c:52-71 | two bytes behind a buffer bring the CRC to 0 if and only if they are its CRC, high byte first |
| `WlanCrc.CrcParity` | rt-thread/components/drivers/wlan/wlan_cfg.c:52-71 | the CRC has the parity of the data |
| `WlanCrc.OddDetected` | rt-thread/components/drivers/wlan/wlan_cfg.c:52-71 | buffers of odd and even weight have different CRCs, so any odd number of changed bits is detected |
| `WlanCfg.SavedExactly` | rt-thread/components/drivers/wlan/wlan_cfg.c:266-306 | moving a network to the front puts it before the entries of other networks in order, cut to the maximum, and networks stay unique |
| `WlanCfg.SameNetExactly` | rt-thread/components/drivers/wlan/wlan_cfg.c:269-271 | networks are the same exactly if name and hardware address are, byte for byte |
| `WlanCfg.SameKeyExactly` | rt-thread/components/drivers/wlan/wlan_cfg.c:279-280 | and keys exactly if length and bytes are |
| `WlanCfg.SaveRefresh` | rt-thread/components/drivers/wlan/wlan_cfg.c:99-228 | for every layout that keeps records apart: saving, deleting all and refreshing restores the same list in the same order |
| `WlanCfg.StructFaithful` | rt-thread/components/drivers/wlan/wlan_cfg.c:119-122 | the layout of the C struct keeps records apart |
| `WlanCfg.StructOffsets` | rt-thread/components/drivers/wlan/wlan_dev.h:363-403 | where the fields of a record lie |
| `WlanCfg.StructSaveRefresh` | rt-thread/components/drivers/wlan/wlan_cfg.c:99-228 | so with records as the compiler lays them out, saving, deleting all and refreshing restores the list |
| `WlanCfg.MergedKeeps` | rt-thread/components/drivers/wlan/wlan_cfg.c:188-223 | refreshing keeps the entries there are, keeps networks unique, and leaves a stored network out only when the cache is full |
| `WlanCfg.MergedExactly` | rt-thread/components/drivers/wlan/wlan_cfg.c:188-223 | a refresh appends the networks that are new, in order, as many as there is room and memory for, and fails exactly if memory runs out first |
| `WlanCfg.CorruptionRejected` | rt-thread/components/drivers/wlan/wlan_cfg.c:177-186 | a package changed in one byte or two adjacent bytes is refused |
| `WlanCfg.AcceptedExactly` | rt-thread/components/drivers/wlan/wlan_cfg.c:177-186 | a package of whole records is accepted if and only if it is one that a save writes |
| `WlanCfg.PackedExactly` | rt-thread/components/drivers/wlan/wlan_cfg.c:116-122 | header fields and place of every record in the package |
| `WlanCfg.BurstRejected` | rt-thread/components/drivers/wlan/wlan_cfg.c:177-186 | a package changed within sixteen consecutive bits is refused |
| `WlanCfg.Cache.Save` | rt-thread/components/drivers/wlan/wlan_cfg.c:252-313 | a network without a name is refused; the list stays if and only if its newest entry is the network with the same key, or the network is new, there is room and the array cannot grow; otherwise the network is in front of the entries of all others, cut to the maximum, and the store is written as the flags allow; the error of each case |
| `WlanCfg.Cache.MoveToFront` | rt-thread/components/drivers/wlan/wlan_cfg.c:299-306 | the shift makes the list of the specification |
| `WlanCfg.Cache.CacheSave` | rt-thread/components/drivers/wlan/wlan_cfg.c:99-128 | the store holds header, CRC and records of the cache |
| `WlanCfg.Cache.CacheRefresh` | rt-thread/components/drivers/wlan/wlan_cfg.c:130-228 | refused for a full cache or a package that fails a check, otherwise merged |
| `WlanCfg.Cache.Merge` | rt-thread/components/drivers/wlan/wlan_cfg.c:188-223 | the loop over the records is the merge of the specification, also when memory runs out |
| `WlanCfg.Cache.DeleteAll` | rt-thread/components/drivers/wlan/wlan_cfg.c:378-388 | an empty cache, the store untouched |

## Left out

- FinshCompiler: byte and word widths, system variables, strings, casts and the null literal; the type checker gives them widths this fragment does not have.
- FinshCorrect.CompilerCorrect: signedness and undefined cases of the C operators are the parameter `Host`; the code gives every operator its C meaning on long.
- FinshVm.Vm.VmRun: an overrun of stack or text is a fault of the model; the source does not check, and finsh variables that alias the machine's own arrays are not modelled.
- FinshVm.Vm.OpCall: calls with more than 16 parameters are a fault of the model; the source writes them past the end of its 16-entry array, calls nothing and pushes 0.
- FinshVm.RunLine: needs the code to fit the text segment and the values to fit the stack, as the source checks neither; `FinshLine.StackSuffices` discharges the latter for every line that fits the node table.
- FinshLine.ExecuteLine: lines that compile without an error and are not plain, for which `FinshLimits` says what single operators do.
- FinshParser.Parser.ParserRun: stops at the first error, while the source records it and reads on before the line is given up; an error is set for the same lines, the table then differs.
- FinshParser.Parser.ProcCast: tokens that name types, so casts and declarations, are not part of the token alphabet; without them a parenthesis in this place is an error, as in the source.
- FinshGrammar.LineTrip: lines with empty statements, which are the subject of `FinshLines`.
- FinshLines.LineExactly: lines whose last statement has no semicolon, which is an error.
- The finsh lexer other than token replay and number conversion, with its reset of the position at the end of a line.
- FinshNumber.SpecNumber: hexadecimal strings with letters beyond f, which the lexer passes on.
- FinshHeap.Heap.Allocate: sizes within 11 bytes of 2^32, for which the sum in the source wraps.
- FinshHeap.Heap.Free: pointers that are not those of allocated blocks.
- Memheap.Memheap.Realloc: sizes above 2^32 - 16, for which the comparison in the source wraps.
- Memheap.Memheap.Free: the checks of magic words by assertion; callers pass payloads of live blocks.
- Names, semaphores, locks and debug output of the lwp heaps; the address range of a heap stands for the pool pointer of its blocks (`LwpMem.LwpMem.PoolOf`).
- LwpMem.LwpMem.Malloc: sizes for which the page computation wraps; the process is the current one.
- rt_lwp_mem_deinit, which frees the pages of all heaps.
- DataQueueProofs.NoLostWakeup: the scheduler and the timer are steps that may come at any time; a thread made ready keeps its error number until it runs. Indices count without bound; `FullTestExactly` and `SlotsExactly` say when 16 bits are enough.
- DataQueue.Queue.constructor: a queue of size 0, for which the index computations of the source divide by 0.
- DataQueue.Queue.Reset: run without steps of other threads in between; single reset steps interleave freely in `DataQueueModel.Step`.
- SerialFifo.RxFifo.DmaReceived: more bytes than the buffer has in one event, and buffers above 32768 bytes, for which the 16-bit sums wrap; the controller is assumed to stream into the buffer in order.
- The polled, transmitting and bufferless modes of the serial driver.
- rt_ringbuffer_create and rt_ringbuffer_destroy.
- RingBuffer.RingBuffer.PutCharForce: a pool of fewer than four bytes, for which the source writes outside it.
- I2c.Bus.Xfer: clock stretching beyond the timeout, the flag against acknowledging reads, delays, and a slave that drives the data line in bits of the master.
- WlanCfg.Cache.Save: a write callback that stores part of a package and reports failure; the store is then taken as unchanged.
- WlanCfg.StructLayout: the layout of the struct with 32-bit enumerations; `SaveRefresh` covers any other one that keeps records apart.
- WlanCfg.Cache.Search: records whose name or key length exceeds the array that holds it.
- rt_wlan_cfg_read, which copies from the caller into the cache, rt_wlan_cfg_delete_index, and the dump.
- hwtimer, pm, SPI, PWM, pins, watchdog, the rest of wlan, CMSIS, DFS, libdl and the build tools: thin layers over code that is elsewhere.
- workqueue.c: its emptiness test and its suspension are separate steps, so there is no freedom from lost wake-ups to prove.
