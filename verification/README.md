# Verified models of the SafestOS compiler, runtime and refi ledger

This project models the parts of the system whose correctness is hardest to see from the
code, and proves properties of them for every input, every run or every reachable state.

- **The CPS compiler** (`Cps*.dfy`). A byte format is parsed to trees (`CpsFormat`), printed
  back (`CpsPrinter`), with what the reader accepts stated apart (`CpsReading`), interpreted directly (`CpsSemantics`), and compiled to a graph of basic
  blocks for a small machine with 64-bit wrapping words, a byte heap and variables that start
  at zero (`CpsMachine`, `CpsGen`). Calls go to an arbitrary heap-changing oracle and are
  logged. `CpsEmit` is the compiler as it is written: a reader cursor, a block manager and one
  flat variable map updated in place, proved equal to parse-then-generate. `CpsTheorems` holds
  the main results, `CpsScope` says exactly which inputs compile, and `CpsLayout` what allocated
  objects contain.
- **The VM runtime.** `SpscQueue` interleaves producer and consumer at every atomic access;
  `Dispatch` is the dispatch loop over the ring; `Serialize` and `Capabilities` cover the
  serializer and linear tokens; `HotSwap` covers replacement of a running cell.
- **Policy.** `SymbolDispatch` is listener dispatch over arbitrary lists, `Loopback` the
  seven-listener chain and the call around it, `Grants` manifest merging, `Authority` the
  process-wide engine slot under loads, module loads and swaps, `CpsAuthority` what that
  means for compiled calls, and `LoopbackCalls` the answer to a call read off the call itself.
- **Evidence.** `Fnv` and `Attest` cover source attestation, `Ledger` the proof ledger,
  `LedgerFile` its restarts and `LedgerIds` which submissions share a row.
- **Text and wire formats.** `Markdown`, `MarkdownIntegrity`, `MarkdownAnchors`,
  `MarkdownPages` and `MarkdownTags` cover the page renderer,
  `UrlCodec` percent and form coding, `Avce` the container encoder. `Utf8` and `Bytes` are
  shared.

Integers are unbounded; 64-bit and 32-bit arithmetic is written out modulo a power of two
wherever the code wraps or truncates. Failures that the code reports as errors are results;
an assertion or panic that stops the program is the absence of a result. File contents,
backend replies, clocks, random secrets and kernel operations are parameters.

Where code and documentation differ, the model follows the code:

- A version 1 header leaves the module name empty, so the principal falls back to each
  calling function's own name, not to the first function's.
- `return f(..)` is an ordinary call followed by a return.
- `return __union_new(..)` is left to an ordinary call, while the same expression elsewhere
  is built inline; `CpsTheorems.TailFormExact` states exactly when the two readings agree.
- The AVCE magic is written little-endian, so its bytes spell `ECVA`.
- A swap that fails while building has already replaced the authorization engine.
- A net grant with a port also covers a request to its host without one.
- The label and URL of a link are escaped, yet a link form inside an http address can still cut
  that address short; `MarkdownAnchors.AnchorsExact` states exactly when.

## Model

| member | source | states |
|---|---|---|
| `CpsTheorems.MeaningPreserved` | safestos/cranelift/src/cps.rs:184-939 | For every function that compiles, every callee behaviour, argument list and starting world: the emitted block graph returns a word, heap and call trace exactly when the direct interpreter of the byte-coded body does (both directions); with `uniform`, under the evaluate-then-return reading of `return`, for bodies without a tail union. |
| `CpsTheorems.FunSim` | safestos/cranelift/src/cps.rs:993-1030 | Step-indexed simulation of a whole call: with the loop bound `fuel`, the machine reaches the interpreter's result in some number of steps, and where the bound times out it is still running after at least `fuel` steps. |
| `CpsTheorems.NeverStuck` | safestos/cranelift/src/cps.rs:941-1050 | No run of a compiled function, at any length, reads an unwritten register, runs past the end of a block or branches to a missing block. |
| `CpsTheorems.DivergencePreserved` | safestos/cranelift/src/cps.rs:754-807 | The compiled function runs for ever exactly when the interpreter times out at every loop bound. |
| `CpsTheorems.TailFormExact` | safestos/cranelift/src/cps.rs:612-678 | Emitted `return e` agrees with evaluate-then-return if and only if `e` is not a direct `__union_new` call with a size and a tag; for such a call the traces differ under every callee behaviour. |
| `CpsTheorems.UniformStmts` | safestos/cranelift/src/cps.rs:610-693 | Statement lists with no tail union have the same outcome under both readings of `return`, through any nesting and loop bound. |
| `CpsTheorems.GraphWellFormed` | safestos/cranelift/src/cps.rs:116-181 | For every input that compiles, each created block is entered exactly once, ends in its only terminator, and every branch target is a created block. |
| `CpsTheorems.GateComplete` | safestos/cranelift/src/cps.rs:6-33 | Every emitted call to a `uk_`/`uz_`/`rs_` name other than the enclosing function was allowed for the resolved principal, wherever it stands in the graph. |
| `CpsTheorems.ModuleCorrect` | safestos/cranelift/src/cps.rs:941-1050 | For every byte string that compiles and every function of its table: the body parses, its graph is well formed and gated, and it means what the bytes mean. |
| `CpsScope.FunExactly` | safestos/cranelift/src/cps.rs:184-939 | A function compiles exactly when, in emission order over one flat scope, every variable read is a parameter or let earlier, every slot read has two arguments, every record one and every union whose value is used two, and every call to a kernel name other than the function itself is allowed for the principal. |
| `CpsScope.ModuleExactly` | safestos/cranelift/src/cps.rs:941-1050 | Any byte string compiles exactly when it reads as a table and every body in it is in order. |
| `CpsScope.PrintedExactly` | safestos/cranelift/src/cps.rs:941-1050 | A printed module, padded anyhow, compiles exactly when every tree in it is in order. |
| `CpsScope.PermittedIsGranted` | safestos/cranelift/src/cps.rs:6-33 | The gate is the engine's consent for the deployment principal if that is not empty, else the module, else the calling function. |
| `CpsMachine.ComparisonsSigned` | safestos/cranelift/src/cps.rs:353-499 | The six comparisons of words are those of the signed numbers they stand for, yielding one or zero. |
| `CpsMachine.ArithmeticWraps` | safestos/cranelift/src/cps.rs:307-352 | Sums, differences, products and complements of words are those of the numbers modulo 2^64. |
| `CpsMachine.WordBytes` | safestos/cranelift/src/cps.rs:899-922 | A stored word lies least significant byte first. |
| `CpsSemantics.SlotNames` | safestos/cranelift/src/cps.rs:228-233 | The two slot reads load at the sum of their arguments and call nothing. |
| `CpsSemantics.ObjectNames` | safestos/cranelift/src/cps.rs:234-282 | Records and unions call `au_alloc` with their size, once, and nothing else. |
| `CpsSemantics.OtherNames` | safestos/cranelift/src/cps.rs:284-305 | Every other name is called as it is with all its arguments, and logged. |
| `Bytes.LittleEndian` | safestos/cranelift/src/cps.rs:80-95 | Byte i of a written number is its i-th least significant one. |
| `CpsGate.PermittedMeans` | safestos/cranelift/src/cps.rs:6-33 | The gate lets a call through exactly when it is not a kernel name, or is the caller itself, or the authorization engine allows it; the prefix cascade adds and loses nothing. |
| `CpsCorrect.StmtsSim` | safestos/cranelift/src/cps.rs:595-939 | Simulation of a statement list from any point of emission: normal exit, return and timeout of the interpreter are matched by the machine inside the final graph. |
| `CpsExprCorrect.ExprSim` | safestos/cranelift/src/cps.rs:184-592 | The straight-line code of an expression computes the interpreter's word and world and writes only registers numbered from its start. |
| `CpsWellFormed.GenStmtsWf` | safestos/cranelift/src/cps.rs:595-939 | Emitting any statement list keeps the graph invariant: entered blocks closed, pending blocks empty, the current block open unless terminated. |
| `CpsPrinter.ExprRoundTrip` | safestos/cranelift/src/cps.rs:184-592 | An expression printed anywhere in a buffer is read back as itself, with the cursor just past it. |
| `CpsPrinter.StmtsRoundTrip` | safestos/cranelift/src/cps.rs:595-939 | A printed statement list is read back as the same tree through any nesting of if, while and case, whatever bytes pad each nested body behind its return. |
| `CpsPrinter.EarlyReturnFraming` | safestos/cranelift/src/cps.rs:605-608 | A framed body that ends in a return, with any bytes behind it in the frame and any padding inside, is read as itself and the outer cursor lands just past the frame. |
| `CpsPrinter.PaddingIgnored` | safestos/cranelift/src/cps.rs:709-712 | Two printings of a function body with any two paddings, at every depth, read back as the same tree. |
| `CpsPrinter.TableRoundTrip` | safestos/cranelift/src/cps.rs:942-991 | A printed function table, in either header version and followed by any bytes, reads back as the same module name, names, parameters and bodies. |
| `CpsReading.ExprReads` | safestos/cranelift/src/cps.rs:184-608 | The reader returns an expression exactly when it lies at the cursor, with opcodes, widths and frames written out; unknown opcodes and truncated bytes are refused. |
| `CpsReading.StmtsRead` | safestos/cranelift/src/cps.rs:610-939 | A statement list is read exactly when it lies in its bytes and runs to their end or to a return, through any nesting. |
| `CpsReading.TableReads` | safestos/cranelift/src/cps.rs:942-991 | A byte string is read as a table exactly when the table lies at its start, in either header version; anything may follow. |
| `CpsReading.CompilesExactly` | safestos/cranelift/src/cps.rs:941-1050 | Any byte string compiles exactly when it holds a table whose every body holds statements in order for it. |
| `CpsLayout.RecordLayout` | safestos/cranelift/src/cps.rs:234-254 | With an allocator that returns fresh room, projecting slot 8k of a built record of up to 2^31 bytes yields field k, and no earlier byte changes. |
| `CpsLayout.UnionLayout` | safestos/cranelift/src/cps.rs:255-282 | A built union of up to 2^31 bytes yields its tag at slot 0 and field k at slot 8(k+1), and no earlier byte changes. |
| `CpsLayout.SpanLayout` | safestos/cranelift/src/cps.rs:549-589 | A byte constant of up to 2^31 bytes yields a span whose data and size slots describe exactly its bytes, and no earlier byte changes. |
| `CpsLayout.ObjectExact` | safestos/cranelift/src/cps.rs:248-253 | Records and unions of any size: at every store address the last field stored there wins, addresses recurring every 2^32 bytes; slots below 2^31 yield that winner and later slots what the memory held before; so all fields read back exactly when every slot agrees. |
| `CpsLayout.TextExact` | safestos/cranelift/src/cps.rs:571-576 | Bytes of a constant from 2^31 on are stored 2^32 lower and their own places keep what they held. |
| `CpsEmit.CpsReader.ReadU8` | safestos/cranelift/src/cps.rs:65-72 | The cursor moves as the byte reader of the format says; at the end it reports failure and stays. |
| `CpsEmit.CpsReader.PeekU8` | safestos/cranelift/src/cps.rs:73-79 | The next byte without moving, or nothing at the end. |
| `CpsEmit.CpsReader.ReadU32` | safestos/cranelift/src/cps.rs:80-87 | Four little-endian bytes as a number, or failure past the end. |
| `CpsEmit.CpsReader.ReadI64` | safestos/cranelift/src/cps.rs:88-95 | Eight little-endian bytes as a 64-bit word, or failure past the end. |
| `CpsEmit.CpsReader.ReadBytes` | safestos/cranelift/src/cps.rs:105-113 | Exactly `n` bytes, or failure past the end. |
| `CpsEmit.CpsReader.ReadString` | safestos/cranelift/src/cps.rs:96-104 | A length-framed string decoded lossily from UTF-8. |
| `CpsEmit.BlockManager.CreateBlock` | safestos/cranelift/src/cps.rs:131-136 | A new empty block is appended; nothing else changes. |
| `CpsEmit.BlockManager.SwitchToBlock` | safestos/cranelift/src/cps.rs:143-147 | Emission continues in the given block, recorded as entered, and the terminated flag is cleared. |
| `CpsEmit.BlockManager.EmitReturn` | safestos/cranelift/src/cps.rs:148-154 | A return ends the current block. |
| `CpsEmit.BlockManager.EmitJump` | safestos/cranelift/src/cps.rs:164-170 | A jump ends the current block, unless it is terminated already. |
| `CpsEmit.BlockManager.EnsureTerminated` | safestos/cranelift/src/cps.rs:171-180 | An open block gets a jump to the merge block, or returns zero when there is none. |
| `CpsEmit.EmitExpr` | safestos/cranelift/src/cps.rs:184-592 | The in-place emitter reads and emits exactly what parsing followed by generation gives: value, instructions, cursor and failure. |
| `CpsEmit.EmitApp` | safestos/cranelift/src/cps.rs:208-306 | Application in expression and tail position: arguments left to right, then the gate, then the inline forms or a call. |
| `CpsEmit.EmitBinary` | safestos/cranelift/src/cps.rs:307-522 | Both operands left to right, then the arithmetic or widened comparison. |
| `CpsEmit.EmitUnary` | safestos/cranelift/src/cps.rs:523-548 | Bitwise not and load, as generation specifies. |
| `CpsEmit.EmitText` | safestos/cranelift/src/cps.rs:556-588 | Bytes stored one by one, then the two-slot span. |
| `CpsEmit.EmitStmtList` | safestos/cranelift/src/cps.rs:595-939 | The statement loop over reader, block manager and variable map gives the same graph and failure as parsing the list and generating it; after a return nothing more is read. |
| `CpsEmit.EmitReturnStmt` | safestos/cranelift/src/cps.rs:610-693 | Return: tail application or evaluated value, then the block ends. |
| `CpsEmit.EmitIf` | safestos/cranelift/src/cps.rs:694-753 | Two framed branches sharing one variable map, joined at the merge block. |
| `CpsEmit.EmitWhile` | safestos/cranelift/src/cps.rs:754-807 | Header, body with back edge, and exit block. |
| `CpsEmit.EmitCase` | safestos/cranelift/src/cps.rs:808-876 | Comparison chain over the framed arms with a framed default. |
| `CpsEmit.EmitLet` | safestos/cranelift/src/cps.rs:877-898 | Declares the variable on first use and reuses it afterwards, in the flat map. |
| `CpsEmit.EmitStore` | safestos/cranelift/src/cps.rs:899-922 | Pointer, then value, then one 64-bit store. |
| `CpsEmit.EmitParams` | safestos/cranelift/src/cps.rs:999-1015 | The entry block with one variable declared, defined and named for each parameter. |
| `CpsEmit.CompileFunction` | safestos/cranelift/src/cps.rs:993-1044 | One function compiled in place equals its parse followed by generation and the closing return. |
| `CpsEmit.ReadTable` | safestos/cranelift/src/cps.rs:942-991 | The table read in place equals the table parser, for both magics and every malformed input. |
| `CpsEmit.CompileCps` | safestos/cranelift/src/cps.rs:941-1050 | The whole compile in place equals the specification `CompileModule`, success and failure. |
| `SpscQueue.StepKeeps` | safestos/runtime/scheduler.c:39-73 | Every atomic load, store and slot access of either thread keeps the queue invariant. |
| `SpscQueue.RunKeeps` | safestos/runtime/scheduler.c:39-73 | So does every interleaving of any number of calls. |
| `SpscQueue.QueueRefines` | safestos/runtime/scheduler.c:39-73 | Over every run of one producer and one consumer from the empty queue: entries handed out are a prefix, in order and untorn, of those enqueued; at most 255 are held; `size` stays in [-1, 256] and equals (tail - head) mod 256, and nothing is missing, whenever both are idle. |
| `SpscQueue.DequeueCompletes` | safestos/runtime/scheduler.c:58-73 | A dequeue that stands before its tail load with an entry published hands out the oldest entry within five of its own steps, in every interleaving. |
| `SpscQueue.EnqueueCompletes` | safestos/runtime/scheduler.c:39-56 | An enqueue under way with a slot free returns, its entry published, at the latest with the sixth of its own steps, in every interleaving. |
| `SpscQueue.SizeGoesNegative` | safestos/runtime/scheduler.c:51-56 | A concrete interleaving in which `size` is -1. |
| `Dispatch.Fair` | safestos/runtime/scheduler.c:78-99 | An entry with k ahead of it is exactly the (k+1)-th one run, whatever the steps enqueue. |
| `Dispatch.NeverGrows` | safestos/runtime/scheduler.c:78-99 | If each step enqueues at most one entry, occupancy never grows. |
| `Dispatch.Conserves` | safestos/runtime/scheduler.c:78-99 | What has run followed by what waits is what was there followed by exactly what the steps enqueued, in order. |
| `Dispatch.PauseQueue.Enqueue` | safestos/runtime/scheduler.c:39-56 | The call returns exactly when the ring is not full, and then the entry is last in it; on a full ring it spins and nothing changes. |
| `Dispatch.PauseQueue.Dequeue` | safestos/runtime/scheduler.c:58-73 | The oldest entry leaves the ring; nothing is returned exactly when it is empty. |
| `Dispatch.PauseQueue.Dispatch` | safestos/runtime/scheduler.c:78-99 | For steps that enqueue at most one entry, the ring in place serves the queue as specified, for any number of turns, and no enqueue ever meets a full ring. |
| `HotSwap.RunKeeps` | safestos/runtime/cell_loader.c:99-180 | Over any run of steps and swap attempts with any descriptors, the type hash never changes and required capabilities only shrink. |
| `HotSwap.SwapRefused` | safestos/runtime/cell_loader.c:99-128 | A swap is refused, changing nothing, exactly when the type hash differs or the new cell requires a capability the old one did not. |
| `HotSwap.SwapAccepted` | safestos/runtime/cell_loader.c:132-168 | The state an accepted swap leaves: migrated from the save, migrated raw when there is none, or absent; too long a save or a failing migration stops the program. |
| `HotSwap.CounterStep` | safestos/cells/counter_v2.c:31-57 | What a step, an upgrade and a downgrade do to a running counter; V2 to V1 is refused. |
| `HotSwap.CounterRuns` | safestos/cells/counter_v1.c:27-46 | Over any run of steps and swap attempts the counter never crashes and equals (V1 steps + 10 * V2 steps) mod 2^64 above its start, with bonus 100 under V2, and V2 once reached stays. |
| `HotSwap.CellTable.Load` | safestos/runtime/cell_loader.c:26-62 | A descriptor is appended without state, or refused when the table is full. |
| `HotSwap.CellTable.AllocState` | safestos/runtime/cell_loader.c:64-72 | State is allocated once; a second call returns it unchanged; a bad id changes nothing. |
| `HotSwap.CellTable.RunStep` | safestos/runtime/cell_loader.c:74-80 | One cell steps and no other changes. |
| `HotSwap.CellTable.Swap` | safestos/runtime/cell_loader.c:118-180 | The swap in place equals its specification: refusal, migration through saved bytes, raw migration, or a stopped program. |
| `Serialize.RoundTripAll` | safestos/runtime/serialize.c:27-77 | Any sequence of words, byte strings and tokens reads back equal and ends exactly at its end. |
| `Serialize.KnownItems` | safestos/runtime/serialize.c:27-69 | A word, a byte string and a token as they lie in the buffer. |
| `Serialize.SaveAndRestore` | safestos/runtime/serialize.c:12-77 | For any items and any capacity, the writes all succeed exactly when the whole fits, and then the same reads return the items and stop exactly at `size`. |
| `Serialize.PutAll` | safestos/runtime/serialize.c:27-69 | A sequence of writes succeeds exactly when the whole fits, and then appends the whole encoding. |
| `Serialize.GetAll` | safestos/runtime/serialize.c:35-77 | A sequence of reads equals decoding the shapes in order, cursor and failure included. |
| `Serialize.Serializer.PutU64` | safestos/runtime/serialize.c:27-33 | Appends eight little-endian bytes when they fit, otherwise changes nothing. |
| `Serialize.Serializer.PutBytes` | safestos/runtime/serialize.c:44-51 | Appends the length and the bytes. |
| `Serialize.Serializer.PutToken` | safestos/runtime/serialize.c:62-69 | Appends the token and zeroes the original. |
| `Serialize.Deserializer.GetU64` | safestos/runtime/serialize.c:35-42 | Reads a word, or fails past the end. |
| `Serialize.Deserializer.GetBytes` | safestos/runtime/serialize.c:53-60 | Reads a byte string of the expected length, or fails. |
| `Serialize.Deserializer.GetToken` | safestos/runtime/serialize.c:71-77 | Reads a token. |
| `Capabilities.EnvRoundTrip` | safestos/runtime/serialize.c:79-90 | A saved capability environment is restored equal. |
| `Capabilities.NewEnvironment` | safestos/runtime/capabilities.c:18-52 | Creating and forking put an environment with the asked namespace in the asked slot, a fork empties its parent, dropping clears, and no other slot changes. |
| `Capabilities.StopsExactly` | safestos/runtime/capabilities.c:27-46 | An operation stops exactly at a fork without a token or a restore of a buffer that holds no environment. |
| `Capabilities.ApplyKeeps` | safestos/runtime/capabilities.c:18-52 | Each create, fork, drop, save and restore keeps every non-zero capability id in one live place. |
| `Capabilities.Linearity` | safestos/runtime/capabilities.c:18-52 | Over any run of create, fork, drop, save and one restore per save from an empty runtime, with at most 2^64 creations, no non-zero id is held in two live places. |
| `Capabilities.LinearityExact` | safestos/runtime/capabilities.c:18-52 | 2^64 is the exact limit: every run of at most n creations keeps every id in one place if and only if n is at most 2^64. |
| `Capabilities.CounterWraps` | safestos/runtime/capabilities.c:18-25 | A run of 2^64 + 1 creations from an empty runtime that leaves id 1 in two live slots. |
| `Capabilities.CapStore.CreateEnv` | safestos/runtime/capabilities.c:18-25 | A fresh token from the counter. |
| `Capabilities.CapStore.ForkEnv` | safestos/runtime/capabilities.c:27-46 | The token moves from parent to child, also when the child is assigned back to the parent; forking a consumed parent stops the program. |
| `Capabilities.CapStore.DropEnv` | safestos/runtime/capabilities.c:48-53 | The environment is cleared. |
| `Capabilities.CapStore.SaveEnv` | safestos/runtime/serialize.c:79-83 | The environment's bytes are kept and its token is zeroed. |
| `Capabilities.CapStore.RestoreEnv` | safestos/runtime/serialize.c:85-90 | The environment is read back once from its bytes. |
| `SymbolDispatch.FirstOwnerWins` | safestos/cranelift/src/ecma.rs:1140-1145 | For any list of listeners that own or delegate, the waterfall's flow is that of the first owner. |
| `SymbolDispatch.NobodyOwns` | safestos/cranelift/src/ecma.rs:1140-1145 | If every listener delegates, the flow is `Next`. |
| `SymbolDispatch.NothingAfterOwner` | safestos/cranelift/src/ecma.rs:1140-1145 | Nothing after the first owner runs: any other tail of the list gives the same flow and the same state. |
| `SymbolDispatch.Parallel` | safestos/cranelift/src/ecma.rs:1148-1179 | For any list at all, every listener runs, and the outcome is the earliest denial, else the earliest error, else the earliest result, else delegation. |
| `SymbolDispatch.Serial` | safestos/cranelift/src/ecma.rs:1160-1169 | For any list at all, every listener runs and the outcome is the last terminal flow, or `Next` when there is none. |
| `Loopback.ChainDecides` | safestos/cranelift/src/ecma.rs:1183-1403 | The six inner listeners decide flow, kernel state, dispatches begun and budget consumed exactly by the first refusing gate. |
| `LoopbackCalls.CallAnswered` | safestos/cranelift/src/ecma.rs:1522-1670 | The reply to every call with an array body, spelled out on the call itself: the refusal of the first gate that stops it, with the symbols, codes and limits of each gate written out, or else what the kernel answers before a declared deadline; and the kernel is asked, once and in the acting identity's name, exactly when no gate stops it. |
| `LoopbackCalls.NoGrantNoCall` | safestos/cranelift/src/ecma.rs:1183-1229 | A call whose acting identity lacks the kernel grant for its symbol, or the effect it submits, or a net grant for the host it fetches, is answered 4001, reaches no kernel and consumes no budget. |
| `LoopbackCalls.GrantedIsEntitled` | safestos/cranelift/src/ecma.rs:1189-1216 | The grant gate is exactly that test on the texts of the call. |
| `LoopbackCalls.FetchHostMeans` | safestos/cranelift/src/ecma.rs:928-937 | The host a fetch is checked for is what stands between the first `://` and the next delimiter of its URL. |
| `LoopbackCalls.AuditSaysWhy` | safestos/cranelift/src/ecma.rs:1411-1438 | The audit entry carries the refusal's code, the deadline's code, the kernel's own code and message, the host of a fetch that was let through, and nothing for any other result. |
| `LoopbackCalls.AuditSaysWho` | safestos/cranelift/src/ecma.rs:1550-1624 | The entry names the module or the sub-agent with its grants and the next trace number; an unknown handle is named by its decimal text, without grants or trace. |
| `LoopbackCalls.CallNumbered` | safestos/cranelift/src/ecma.rs:1616-1624 | A call with an array body by a known actor is audited under the next trace number, and no other call takes one. |
| `LoopbackCalls.RunNumbered` | safestos/cranelift/src/ecma.rs:1017-1018 | Over any run of calls the traced entries are numbered consecutively, wrapping at 64 bits, whatever is refused in between. |
| `LoopbackCalls.NumbersDistinct` | safestos/cranelift/src/ecma.rs:1017-1018 | No trace number is used twice within 2^64 traced calls. |
| `Loopback.OneAuditPerCall` | safestos/cranelift/src/ecma.rs:1406-1440 | For every call with an array body, one audit entry is appended, tagged with the acting module or agent, true exactly when the reply is a result; caller tags end cleared. |
| `Loopback.DispatchOnlyPastGates` | safestos/cranelift/src/ecma.rs:1443-1451 | Kernel dispatch begins at most once per call, as the acting identity, and exactly when the caller is known and grant, latch, meter and posture all let it through. |
| `Loopback.DenialIsFirstGate` | safestos/cranelift/src/ecma.rs:1522-1670 | The reply to a refused call is the refusal of the first failing gate: 4001, UK-4701, UK-4601 or UK-4602, UK-4501; an unknown agent gets 4001. |
| `Loopback.BudgetOnlyPastLatch` | safestos/cranelift/src/ecma.rs:1259-1284 | Budget is consumed exactly when the symbol is metered and the call is past grant and latch, and then once. |
| `Loopback.NextNeverEscapes` | safestos/cranelift/src/ecma.rs:1286-1297 | The chain always owns the event. |
| `Loopback.DeadlineTransparent` | safestos/cranelift/src/ecma.rs:1306-1365 | A deadline that the dispatch meets changes nothing: reply and state are those of the same host without deadlines. |
| `Loopback.EgressMeans` | safestos/cranelift/src/ecma.rs:910-925 | Egress to any target under any grant set is allowed exactly when some grant names the same host and, where both name a port, the same port, names being read off the texts themselves. |
| `Loopback.SplitNames` | safestos/cranelift/src/ecma.rs:940-950 | Every text names exactly one host and at most one port, and that is what the split yields. |
| `Loopback.SplitMeans` | safestos/cranelift/src/ecma.rs:940-950 | A port is read exactly off a host, a colon and a decimal number below 2^16; any other text is all host. |
| `Loopback.PortGrantLeaks` | safestos/cranelift/src/ecma.rs:920-923 | A grant for one port also lets a request without a port through, and that is dialled on port 80. |
| `Loopback.PortGrantConfines` | safestos/cranelift/src/ecma.rs:910-967 | A grant for one port confines what it lets through to that port exactly when the request carries a port or the granted port is 80. |
| `Loopback.HostGrantCovers` | safestos/cranelift/src/ecma.rs:920-923 | A grant without a port covers every request to its host, and no other. |
| `Loopback.FetchHostBack` | safestos/cranelift/src/ecma.rs:928-937 | The host of a URL is exactly what stands between `://` and the first `/`, `?` or `#`. |
| `Loopback.RunIsAudited` | safestos/cranelift/src/ecma.rs:1522-1670 | Over any run of calls, with the kernel changing arbitrarily in between, the audit verdicts are the replies' verdicts in order, and dispatches never outnumber entries. |
| `Fnv.OneByteEditDetected` | safestos/cranelift/src/liquid_attest.rs:45-52 | Changing one byte at any position changes the FNV-1a hash, from any starting state. |
| `Fnv.StepInjective` | safestos/cranelift/src/liquid_attest.rs:45-52 | Each hash step is injective on 64-bit states. |
| `Fnv.MultiplicationUndone` | safestos/cranelift/src/liquid_attest.rs:45-52 | Multiplying by the FNV prime modulo 2^64 is undone by 0xce965057aff6957b. |
| `Fnv.Fnv1a` | safestos/cranelift/src/liquid_attest.rs:45-52 | The hashing loop equals the fold of steps. |
| `Fnv.KnownHashes` | safestos/cranelift/src/liquid_attest.rs:45-52 | The published FNV-1a values of the empty string and of one letter. |
| `Attest.SortCanonical` | safestos/cranelift/src/liquid_attest.rs:128-141 | Sorting gives one order for every listing of distinct names. |
| `Attest.DigestIgnoresOrder` | safestos/cranelift/src/liquid_attest.rs:128-161 | The source digest does not depend on directory listing order. |
| `Attest.EditChangesDigest` | safestos/cranelift/src/liquid_attest.rs:147-161 | A one-byte edit of one file whose name is a non-empty base and `.aui` or `.aum` gives a different digest, never the same and never none. |
| `Attest.EditRefused` | safestos/cranelift/src/liquid_attest.rs:174-223 | Once `liquid.ok` matches the sources, any one-byte edit of an `.aui` or `.aum` file is accepted if and only if the mode is off. |
| `Attest.OthersIgnored` | safestos/cranelift/src/liquid_attest.rs:128-141 | A file of any other name never changes the digest, edited, renamed among such names or removed. |
| `Attest.SourceNames` | safestos/cranelift/src/liquid_attest.rs:132-136 | The covered files are exactly those named by a non-empty base and `.aui` or `.aum`. |
| `Attest.DigestOfFrames` | safestos/cranelift/src/liquid_attest.rs:147-161 | Readable sources in name order hash as name, zero, contents, zero, file after file. |
| `Attest.LeqMeans` | safestos/cranelift/src/liquid_attest.rs:139-140 | Names are ordered byte by byte. |
| `Attest.StaleObligations` | safestos/cranelift/src/liquid_attest.rs:244-261 | A readable `.mlw` file that does not hash to the recorded value is refused in both checking modes. |
| `Attest.AcceptedMeans` | safestos/cranelift/src/liquid_attest.rs:174-282 | The gate accepts exactly with checking off, with checking optional and no readable sidecar, or with verdict `proved`, the recorded source digest and every readable `.mlw` file hashing to the recorded value. |
| `Attest.UndecidableExactly` | safestos/cranelift/src/liquid_attest.rs:147-161 | A directory has no digest exactly when some `.aui` or `.aum` file is unreadable or has a name that is the UTF-8 form of no string. |
| `Attest.SourcesDigest` | safestos/cranelift/src/liquid_attest.rs:147-161 | The accumulating loop equals the digest, including unreadable files and names that are not UTF-8. |
| `Attest.VerifyModule` | safestos/cranelift/src/liquid_attest.rs:174-282 | The decision cascade accepts exactly when the attestation gate says so, and a digest that does not match is refused with its own error. |
| `MarkdownIntegrity.OnlyOwnTags` | refi/src/content.rs:184-280 | For every page body, each `<` of the rendered page begins one of the renderer's own literal tags, an anchor's being `<a href="h`. |
| `MarkdownIntegrity.InlineTagged` | refi/src/content.rs:224-280 | No cut made by the link or marker passes falls inside an emitted literal. |
| `MarkdownIntegrity.ListsWellNested` | refi/src/content.rs:184-221 | For every page body, `<ul>` and `</ul>` alternate, every item stands inside a list, and the page ends with its list closed. |
| `MarkdownTags.PageNests` | refi/src/content.rs:184-280 | On every page, strong, code, headings, paragraphs, lists and items each close with their own tag, properly nested, and none stays open. |
| `MarkdownTags.BoldSpan` | refi/src/content.rs:247-271 | Text between two double stars becomes `<strong>` text, whatever follows. |
| `MarkdownTags.CodeSpan` | refi/src/content.rs:247-271 | Text between two backticks becomes `<code>` text, whatever follows. |
| `MarkdownTags.LoneMarker` | refi/src/content.rs:272-276 | A marker without a partner stays as it is. |
| `MarkdownTags.LinkMarkup` | refi/src/content.rs:227-241 | A link with an http or https address becomes an anchor with that address and caption; with any other it leaves its caption. |
| `MarkdownTags.LinePrefixes` | refi/src/content.rs:190-204 | One, two and three marks give a second, third and fourth level heading, and a dash a list item. |
| `MarkdownTags.PageLines` | refi/src/content.rs:184-224 | Line by line with tags written out: each heading prefix, a paragraph, a blank line, whatever white space ends the line, then the rest of the page. |
| `MarkdownTags.ListLines` | refi/src/content.rs:184-224 | The first item opens a list, further items are added inside, and the first line that is no item, or the end, closes it. |
| `MarkdownTags.TrimMeans` | refi/src/content.rs:188 | Trailing characters with the Unicode property White_Space are dropped, and nothing else. |
| `MarkdownTags.LinesSplit` | refi/src/content.rs:187-188 | A page is split at every newline. |
| `MarkdownTags.EscapeBack` | refi/src/util.rs:71-84 | Escaping loses nothing: reading the five entities back gives the text. |
| `MarkdownAnchors.AnchorsExact` | refi/src/content.rs:224-243 | For every escaped text, every `<a href="` of the link pass is followed by a quote-free address and the rest of the tag exactly when no turn of the loop cuts from inside an address to a caption end inside it, or emits an anchor there. |
| `MarkdownAnchors.IntactReads` | refi/src/content.rs:224-280 | Over any text of whole tags, every anchor is whole exactly when a left-to-right reading of anchors ends outside every address. |
| `MarkdownAnchors.GuardedAnchors` | refi/src/content.rs:224-243 | It holds for every text in which no `[` stands between a `](` or `)(` and the next `)`. |
| `MarkdownPages.PageAnchors` | refi/src/content.rs:184-280 | On every page, every anchor is a quote-free address followed by the rest of its tag, through links, markers and line elements, exactly when no line has such a turn. |
| `MarkdownPages.OneLinePage` | refi/src/content.rs:207-210 | A page of one plain paragraph line breaks exactly when the link pass of that line does. |
| `MarkdownPages.BrokenPage` | refi/src/content.rs:184-214 | A page on which an anchor breaks. |
| `MarkdownPages.GuardedPage` | refi/src/content.rs:184-280 | In particular on every page whose lines meet the condition on brackets and parentheses. |
| `MarkdownPages.SpansWalk` | refi/src/content.rs:247-280 | The marker pass keeps every anchor as it was, whole or broken: no span opens or closes inside its literals. |
| `MarkdownPages.NestedAddressBreaks` | refi/src/content.rs:227-241 | A family of inputs on which an anchor breaks: a link form inside an http address leaves the address without its closing quote. |
| `MarkdownPages.BrokenLine` | refi/src/content.rs:227-241 | The shortest of them, `[](http://[](u))`. |
| `MarkdownPages.JoinedCaptionBreaks` | refi/src/content.rs:237-240 | A family that shows why `)(` is in the condition: a dropped link form joins its caption to the next parenthesis. |
| `Markdown.LinkLoopFalls` | refi/src/content.rs:227-241 | Each turn of the link loop strictly lowers the number of `[`, so it ends. |
| `Markdown.FindIsFirst` | refi/src/content.rs:227-231 | The search used for every cut returns the first occurrence. |
| `Markdown.Inline` | refi/src/content.rs:224-243 | The link loop in place equals its specification, followed by the marker pass. |
| `Markdown.BoldAndCode` | refi/src/content.rs:247-280 | The marker loop equals its specification, balanced and unbalanced markers alike. |
| `Markdown.RenderMarkdown` | refi/src/content.rs:184-214 | The line loop equals the specification the integrity results are about. |
| `Markdown.EscapeHtml` | refi/src/util.rs:71-84 | The escaping loop equals the per-character escape. |
| `Ledger.MintableForever` | refi/src/proofs.rs:274-363 | From an empty store, over any run of publish and refresh with arbitrary backend replies and file errors: ids stay distinct, a published row is found unchanged ever after, and what can be minted stays mintable with the same DOI. |
| `Ledger.StepExtends` | refi/src/proofs.rs:274-363 | Each publish and each refresh keeps ids distinct, keeps published rows as they are, and loses no id. |
| `LedgerIds.KnownRowIsOwn` | refi/src/proofs.rs:217-219 | Over any run, with a hash that never collides, the row returned or replaced for a submission was made by one whose title, mm0 and mm1 join to the same string, and is of the very same texts exactly when title and mm0 of the two hold as many newlines. |
| `LedgerIds.SharedId` | refi/src/proofs.rs:217-219 | Two submissions share an id exactly when their three texts, joined by newlines, are one string. |
| `LedgerIds.SharedIdExactly` | refi/src/proofs.rs:217-219 | Submissions that share an id are the same texts exactly when title and mm0 hold as many newlines. |
| `LedgerIds.SharedIdHappens` | refi/src/proofs.rs:217-219 | Two different developments with one id under every hash. |
| `Ledger.RefreshedRow` | refi/src/proofs.rs:325-357 | What each answer makes of the row it is about, field by field, and that no other field changes. |
| `Ledger.ReplyStates` | refi/src/proofs.rs:366-423 | Which backend replies make a published, rejected, queued or failed row, and which fields of submission and reply it carries. |
| `Ledger.AskedExactly` | refi/src/proofs.rs:300-324 | The backend is asked about exactly the queued and the verified rows that carry a proof id. |
| `Ledger.RefreshSparesSettled` | refi/src/proofs.rs:300-363 | A refresh leaves every row that was not pending exactly as it was, in its place, whatever the backend answers. |
| `Ledger.StrandedExactly` | refi/src/proofs.rs:300-363 | Over any run from an empty store, a row ends published without a DOI, never to be minted, exactly when at some refresh it had no DOI and was reported published without one. |
| `Ledger.StrandingHappens` | refi/src/proofs.rs:300-363 | A run of one submission and one refresh that strands a row, for every submission. |
| `Ledger.StepStrands` | refi/src/proofs.rs:274-363 | Each step strands a row exactly when it is such a refresh; publishing never does, and nothing undoes it. |
| `Ledger.Store.Put` | refi/src/proofs.rs:205-208 | The row goes first and replaces any row with its id. |
| `Ledger.Store.Publish` | refi/src/proofs.rs:274-296 | Publishing in place equals its specification: known, not configured, backend error, stored, and stored but not saved. |
| `Ledger.Store.Refresh` | refi/src/proofs.rs:300-363 | The loop over the pending snapshot equals asking in order and folding each answer in; a failed write is reported with the rows kept. |
| `Ledger.Store.Counts` | refi/src/proofs.rs:257-270 | The three counts are the numbers of published, pending and failed rows and sum to all rows. |
| `Ledger.Store.Save` | refi/src/proofs.rs:195-198 | The file is replaced as a whole, or left as it was when writing fails. |
| `Ledger.Store.Load` | refi/src/proofs.rs:175-193 | A restart finds what the file holds. |
| `LedgerFile.RestartExact` | refi/src/proofs.rs:175-198 | Over any run with failed writes and restarts, a restart brings back exactly the rows of the last successful save. |
| `LedgerFile.SurvivesExactly` | refi/src/proofs.rs:274-363 | After any such run, a published row survives every continuation exactly when it has been written to the file. |
| `LedgerFile.FailedSaveLoses` | refi/src/proofs.rs:293-294 | A mintable row whose write failed, gone after a restart. |
| `Ledger.Fold` | refi/src/proofs.rs:325-357 | The field-by-field update equals one merge of the reply, touched exactly when something changed. |
| `UrlCodec.UrlRoundTrip` | refi/src/util.rs:87-149 | Decoding an encoded string gives the string back, for every string. |
| `UrlCodec.EncodedSpelled` | refi/src/util.rs:138-149 | Unreserved characters stand for themselves, and every byte of any other character is a percent sign with two upper-case digits. |
| `UrlCodec.PercentMeans` | refi/src/util.rs:97-110 | Two hexadecimal digits of either case give their byte, a plus sign and a digit give the digit, and otherwise the percent sign stands for itself. |
| `UrlCodec.LatePercent` | refi/src/util.rs:97-115 | A percent sign with fewer than two bytes behind it stands for itself. |
| `UrlCodec.FormFront` | refi/src/util.rs:118-128 | Any form by its first field: empty fields are skipped, a field without an equals sign has an empty value, and otherwise the first equals sign divides it. |
| `Utf8.LossyExactly` | safestos/cranelift/src/cps.rs:92-104 | Lossy decoding of any bytes: a character whose bytes stand at the front is decoded, and anything else gives U+FFFD for its longest beginning of a character, or for one byte. |
| `Utf8.DecodeEncode` | safestos/cranelift/src/cps.rs:92-104 | Decoding the UTF-8 bytes of any string gives the string back. |
| `UrlCodec.FormRoundTrip` | refi/src/mm0.rs:94-100 | Parsing the body of any list of encoded pairs recovers exactly those pairs, in order. |
| `UrlCodec.DecodeAbortsIff` | refi/src/util.rs:87-115 | Decoding aborts exactly when the byte three past some `%` continues a character; every `%` is visited, so no other input aborts. |
| `UrlCodec.NoPercentDecodes` | refi/src/util.rs:91-96 | Without percent signs, decoding turns plus signs into spaces and changes nothing else. |
| `UrlCodec.AbortExample` | refi/src/util.rs:98-105 | An input on which it does: `%`, one ASCII letter, one accented letter. |
| `UrlCodec.UrlEncode` | refi/src/util.rs:138-149 | The encoding loop equals the per-byte coding. |
| `UrlCodec.UrlDecode` | refi/src/util.rs:87-115 | The decoding loop equals the cursor-by-cursor specification, including where the slice aborts. |
| `Avce.AvceRoundTrip` | safestos/cranelift/src/capture.rs:118-167 | A full-consumption decoder of the documented layout recovers every capture whose lengths and counts fit in 32 bits. |
| `Avce.UniquelyDecodable` | safestos/cranelift/src/capture.rs:118-167 | Different such captures never share an encoding. |
| `Avce.HeaderBytes` | safestos/cranelift/src/capture.rs:136-138 | The six bytes every container begins with. |
| `Avce.KnownCapture` | safestos/cranelift/src/capture.rs:135-167 | The order of the parts of a container, in bytes. |
| `Avce.KnownFunc` | safestos/cranelift/src/capture.rs:141-160 | The order of the parts of a function, in bytes. |
| `Avce.KnownReloc` | safestos/cranelift/src/capture.rs:147-159 | The order and width of the fields of a relocation, in bytes. |
| `Avce.EncodeAvce` | safestos/cranelift/src/capture.rs:135-167 | The appending loops equal the layout specification. |
| `Grants.LoadsDecide` | safestos/cranelift/src/auth.rs:48-112 | Grants, effects and known names of the merged engine are exactly those of the accepted manifests. |
| `Grants.PostureIsMaximum` | safestos/cranelift/src/auth.rs:100-106 | The merged liquid posture is the strictest any accepted manifest asked for. |
| `Grants.PostureText` | safestos/cranelift/src/auth.rs:100-106 | The posture is required exactly when some manifest says `required`, and optional exactly when none does and some says `optional`. |
| `Grants.AcceptedText` | safestos/cranelift/src/auth.rs:190-200 | A manifest is accepted exactly when its posture is absent, `off`, `optional` or `required`. |
| `Grants.QualifiersMerge` | safestos/cranelift/src/auth.rs:107-111 | The merged qualifiers are those of the accepted manifests, each once. |
| `Grants.LoadOrderIrrelevant` | safestos/cranelift/src/auth.rs:86-112 | Loading the same manifests in any order gives the same tables and posture. |
| `Grants.Merge` | safestos/cranelift/src/auth.rs:86-112 | Merging entry by entry, in whatever order the map yields, equals the union of tables. |
| `Authority.ChecksDecide` | safestos/cranelift/src/auth.rs:298-350 | Over any run of manifest loads, checks, module loads and swaps, Call is allowed exactly when a deciding manifest of that name lists the symbol under kernel or zenodo: any accepted one if the loader wrote the engine last, the module's own if a module load or swap did, none before that. |
| `Authority.OtherChecksDecide` | safestos/cranelift/src/auth.rs:138-162 | Effect is decided by the same manifests over any run, and no other action is ever allowed. |
| `Authority.RunWrites` | safestos/cranelift/src/auth.rs:329-350 | Over any such run, the merged engine is that of all accepted loads, and engine slot and principal are those of the last writer. |
| `Authority.LoadRestores` | safestos/cranelift/src/auth.rs:343-346 | After any run, the next accepted load allows a call exactly when some manifest ever loaded lists it, whatever swaps and module loads had taken away. |
| `Authority.SwapUndoneByLoad` | safestos/cranelift/src/module.rs:591-592 | A run in which a grant removed by a swap returns when an unrelated manifest is loaded. |
| `Authority.GrantsNeverGrow` | safestos/cranelift/src/module.rs:524-631 | Over any run of swap attempts, loads and checks, the kernel, fs, effects and net grants of every loaded module stay subsets of those it was loaded with. |
| `Authority.SwapGate` | safestos/cranelift/src/module.rs:524-631 | A swap goes through exactly when nothing escalates, the files are in order and the code builds; a refused one leaves the whole state as it was except when the build fails, and then engine and principal are already the new ones. |
| `Authority.FailedBuildLosesGrant` | safestos/cranelift/src/module.rs:589-619 | A refused swap after which a call that was allowed no longer is. |
| `Authority.SwapCalls` | safestos/cranelift/src/module.rs:545-592 | The engine a swap installs allows no new effect, and no new call exactly when the new `zenodo` list stays inside the old callables, which the subset checks do not read. |
| `Authority.ZenodoSwapGains` | safestos/cranelift/src/module.rs:545-592 | A swap that goes through and allows a call that was not allowed before. |
| `Authority.CheckSubset` | safestos/cranelift/src/module.rs:545-553 | The check loop reports the first grant the old manifest does not hold. |
| `Authority.Process.LoadManifest` | safestos/cranelift/src/auth.rs:329-350 | An accepted manifest is merged, installed and made principal; any other changes nothing. |
| `Authority.Process.Check` | safestos/cranelift/src/auth.rs:298-321 | The answer of the installed engine; with none installed, deny-all is installed. |
| `Authority.Process.LoadModule` | safestos/cranelift/src/module.rs:365-433 | A module's engine and name are installed before its code is read and built; it is entered only if that succeeds. |
| `Authority.Process.Swap` | safestos/cranelift/src/module.rs:524-631 | The check loops and replacement in place equal the specification, with the first escalating grant reported. |
| `CpsAuthority.CompiledCallsAreListed` | safestos/cranelift/src/cps.rs:6-33 | After any run of loads, checks, module loads and swaps, every kernel call in a module that compiles, other than to the function itself, is listed by a deciding manifest for the compiling principal, which is the last writer's name unless that is empty. |
| `CpsAuthority.LoadedCallsAreListed` | safestos/cranelift/src/module.rs:365-433 | After any run of loads, checks, module loads and swaps, every kernel call in the compiled code of every loaded module, other than to the function itself, is listed by that module's own current manifest. |

## Left out

- Cranelift: code generation, the IR verifier, signature and arity checks and symbol claiming; the model accepts every body the emitter accepts, which is a superset.
- Texts of error messages, and which of several errors a malformed module gives first.
- Calls between compiled functions: a callee is an oracle that always returns, so the theorems are per function and a callee that diverges is not modelled.
- A bound on stack depth: the emitter makes ordinary calls.
- CpsLayout.RecordLayout: at most 2^31 bytes, because offsets are cut to 32 bits; `CpsLayout.ObjectExact` states what objects of any size read back, given memory on both sides.
- CpsLayout.UnionLayout: the same bound.
- CpsLayout.SpanLayout: the same bound, for the bytes of the constant; `CpsLayout.TextExact` covers longer ones.
- CpsTheorems.MeaningPreserved: with `uniform`, excludes bodies with a tail union; wherever one is evaluated the two readings differ, by `CpsTheorems.TailFormExact`, and one that is never reached does no harm.
- CpsPrinter.TableRoundTrip: lengths and counts must fit the 32-bit fields they are written in.
- SpscQueue.QueueRefines: one producer and one consumer only, and sequentially consistent accesses; the code has no compare-and-swap for more.
- Dispatch.PauseQueue.Enqueue: the spin on a full ring is a result, since on one thread nothing can end it; waiting for room is in `SpscQueue`.
- Dispatch.PauseQueue.Dispatch: any finite number of turns of the endless loop, each step's enqueues happening when it returns.
- Capabilities.Linearity: at most 2^64 creations, which `Capabilities.LinearityExact` shows to be the limit.
- Serialize.RoundTripAll: byte strings shorter than 2^64, so `size_t` overflow is not modelled.
- HotSwap.CellTable.Load: `dlopen` and symbol lookup; loading starts from a descriptor. Freeing old states is not modelled.
- Attest.EditRefused: starts from a parsed `liquid.ok`; the line format of the sidecar is not modelled, nor are edits of more than one byte, which a 64-bit hash cannot all detect.
- Attest.DigestIgnoresOrder: names in one directory are distinct, as a file system guarantees.
- MarkdownTags.PageNests: anchors are read apart, since a link and a marked span may overlap.
- Loopback.DenialIsFirstGate: message texts are left out; the code and name of each refusal are kept.
- Loopback.DeadlineTransparent: after a missed deadline the worker runs on; what it does later is any later kernel state.
- Avce.EncodeAvce: starts from the sorted function list and import table; `defined` and `imports` are collect-and-sort views.
- Authority.GrantsNeverGrow: runs without a module load, which may bring any grants; `observers`, `resources` and `zenodo` are not compared by the code, and `Authority.SwapCalls` says what that means for calls.
- Authority.Process.LoadModule: the choice of runtime archetype is part of whether the code builds.
- Ledger.MintableForever: the hash that addresses rows is an arbitrary function, so collisions are not excluded, which `LedgerIds` adds; runs without a restart, which `LedgerFile.SurvivesExactly` adds.
- Ledger.Store.Load: the file holds rows; its JSON text and version number are not modelled.
- CpsAuthority.LoadedCallsAreListed: modules of compiled code; a module served by a sidecar process is not modelled.
- TOML and JSON parsing, Cedar, SHA-256, Ed25519 and Arctic signatures: library or cryptographic code.
- Settlement in `refi/src/engine.rs`, the site, the page store, accounts, rate limiting, regions, editor grammar and drivers: unseen dependencies or easy members.
- Sockets, HTTP, workerd processes, sandboxing and file input and output.
