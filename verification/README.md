# Benchmarks for trusted execution: the verified parts

This project models the parts of a benchmark suite for Intel SGX and WebAssembly runtimes that have real state, bit-level tricks or arithmetic behind them, and proves what they promise.

| file | what it models |
|---|---|
| `PollSystem.dfy`, `Connections.dfy`, `EventTable.dfy`, `TlsServer.dfy` | the TLS poll server: the kernel's descriptors, the doubly-linked active list and the deferred free list as heap objects, the slot table, and the event loop |
| `TlsCalls.dfy`, `TlsClient.dfy` | how both TLS programs read the library's answers; the round-robin TLS client with its slot array |
| `SecureAlign.dfy` | secret-aware alignment, computed at compile time with rotations and masks |
| `Prng.dfy`, `Polynomials.dfy`, `LfsrPowers.dfy`, `LfsrPeriod.dfy`, `PrngOutput.dfy` | the random generator (Galois LFSR and LCG), with the exact period of its state and of the numbers it returns |
| `NumberName.dfy`, `Swizzle.dfy`, `VerificationHash.dfy`, `SquareRoot.dfy`, `Sudoku.dfy` | algorithms of speedtest1: English number names in a bounded buffer, bit-reversed keys, an RC4-like hash, a Newton square root, the recursive Sudoku query |
| `FutexEvent.dfy` | the futex-based event, as interleaved atomic steps of one waiter and any number of wakers |
| `KeyManager.dfy` | key rotation and the metadata key of protected files |
| `Arithmetic.dfy` | powers of two, quotients and remainders |

Code that updates state is modelled by methods over classes, arrays and fields; each is proved against a specification function or predicate, and the properties are proved about that; where a function follows the code's own branches, a law that does not use it (such as `Lawful` of both TLS programs) says what the result must be. What the environment answers (TLS calls, accept, random bytes, calls that can fail) is an argument of the method that depends on it, or an arbitrary value where nothing depends on it.

How the server's safety argument goes: a freed connection's slot keeps its pointer. The slot is harmless because its descriptor is closed after the pass, so that the next poll reports it as invalid and without input; it is then released before the listener, which has the last slot, can accept a connection that might get the same descriptor. `Table.Consistent`, `Table.Spare` and `Table.Handled` say this slot by slot, and one lemma for each way to handle a slot keeps it.

How the period of the LFSR is proved: a step multiplies a polynomial over two elements by the indeterminate (`Polynomials.StepTimes`), so 2^32 steps are computed by 32 squarings. For each prime 2^h + 1 that divides 2^32 - 1 two powers of the indeterminate differ by a polynomial for which `LfsrPeriod` gives an inverse, so no state but 0 has a cycle that the prime does not divide. That the returned numbers have the same period (`PrngOutput.OutputPeriod`): if they repeat after n calls, the change of the LFSR part over n calls equals that of the LCG part, so it has both periods and is constant; the LFSR step leaves only 0 alone, so neither part changes. The tables in `LfsrPowers.dfy` are the values of these powers; every entry is a proved product.

Where the code and what it says about itself differ, the model follows the code:

- The server answers with a full table, and exits, when more concurrent connections are allowed (option N) than connections are to be made (option n): the table has one slot for each of the latter, and nothing relates the two options (10 connections to make and the default of 15 at a time are enough). `EventTable.SlotAvailable` and `EventTable.TooManyConnectionsFillTable` give the exact condition.
- The client's `cnt` is described as the number of active connections, but is only ever decremented: it is always the negative of the connections closed (part of `TlsClient.SSLConnCtx.Accounts`).
- A client run limited by connections never ends once a TLS object could not be created, because the attempt counts as created and never as closed: `TlsClient.SSLConnCtx.Run` ends only without such a failure.
- An untimed wait on the event may end without a token (`FutexEvent.UntimedWaitCanEndEarly`): exactly when it finds the counter at 0 while a FUTEX_WAKE for an earlier wait is still under way, or when a signal can interrupt it (`FutexEvent.UntimedWaitIsSafeExactly`). Tokens are conserved for timed waits.
- The usage limit of a session master key can be exceeded after the 32-bit counter has wrapped round, which takes more than four thousand million failures in a row (`KeyManager.MasterKeyLimits`).
- A metadata sealing key whose random id happens to be zero cannot be restored (`KeyManager.ProtectedFile.GenerateAndRestore`).
- Secret-aware alignment protects the secret bytes only if the alignment asked for is a multiple of the type's own: otherwise the compiler moves the type behind its padding (`SecureAlign.WeakerAlignmentFails`, with the exact condition in `SecureAlign.GuaranteeHolds`). The default alignment is the type's own.
- An alignment of 16, 32 or 64 that is asked for is not kept for a padded type of at most half that size (`SecureAlign.SmallStructureLosesAlignment`, with the exact condition in `SecureAlign.PaddedStructureStaysAligned`).
- A cached slice of all, or all but one, of the filled elements fails (`Prng.CachedSliceIsFilled`, `Prng.LongSlicesFail`).

## Model

| member | source | states |
|---|---|---|
| TlsServer.Server.Run | benchmarks/tls/native/server-tls-poll-perf.c:1201-1281 | The server goes on until as many connections have been handled as the run is for, unless it is cut off or gives up with a full table, which happens only when more connections are allowed than there are slots; at the end, whatever the clients and the kernel do, every accepted connection has been closed and freed, each exactly once and in the legal order (opened, used, closed, freed) |
| TlsServer.Server.EventLoop | benchmarks/tls/native/server-tls-poll-perf.c:1206-1271 | The run is a sequence of passes from the first table to the last; each begins with fewer connections handled than the run is for, and the loop ends only when that many are handled (or that many bytes moved), the program gives up, or it is cut off; every poll finds the invariant of the slot table intact, and a listener that is on while another connection is allowed |
| TlsServer.Server.Pass | benchmarks/tls/native/server-tls-poll-perf.c:1208-1270 | One pass is poll's answer, a step for each slot in order and the end of the pass; it keeps the table's invariant and never leaves the server deaf: with fewer than the allowed connections the listener is on, unless it was closed after an error. It ends the program only when a connection is allowed and no slot is left |
| TlsServer.Server.HandleSlots | benchmarks/tls/native/server-tls-poll-perf.c:1212-1261 | In one pass the connections that make a step are exactly those that poll reported as readable, each once, in the order of their slots |
| TlsServer.Server.HandleSlot | benchmarks/tls/native/server-tls-poll-perf.c:1213-1260 | The five ways to handle a slot, each with the whole table it leaves; a slot is served only for a connection that is still on the active list |
| TlsServer.Server.AcceptClient | benchmarks/tls/native/server-tls-poll-perf.c:1231-1255 | A new connection gets the first free slot, with its descriptor and a request for input, or nothing is accepted; the listener goes off exactly when the last allowed connection has come |
| TlsServer.Server.AssignSlot | benchmarks/tls/native/server-tls-poll-perf.c:1239-1247 | The first free slot gets the new connection, its descriptor and a request for input, and every other slot is as before; there is none only when more connections are allowed than there are slots |
| TlsServer.Server.AllocateEventSlot | benchmarks/tls/native/server-tls-poll-perf.c:1000-1012 | The loop finds the first slot without a descriptor, or reports -1 when every slot has one |
| TlsServer.Server.ReleaseClient | benchmarks/tls/native/server-tls-poll-perf.c:1224-1229 | An error on a client empties its slot and switches the listener on; the table's invariant holds for the next slot |
| TlsServer.Server.CloseListener | benchmarks/tls/native/server-tls-poll-perf.c:1218-1223 | An error on the listener closes its socket and disables its slot for good; no connection is affected |
| TlsServer.Server.ServeClient | benchmarks/tls/native/server-tls-poll-perf.c:1256-1260 | The connection in a readable slot is on the active list, makes exactly one step, and is moved to the free list at most |
| TlsServer.Server.EndPass | benchmarks/tls/native/server-tls-poll-perf.c:1263-1270 | Closed connections are freed after the pass and the listener is switched on again when a connection is allowed |
| TlsServer.Server.Shutdown | benchmarks/tls/native/server-tls-poll-perf.c:1275-1281 | At the end no connection is active or waits to be freed, as many were freed as were handled, and exactly the listener and the descriptors of the connections have been closed |
| EventTable.ServedSlotIsActive | benchmarks/tls/native/server-tls-poll-perf.c:1256-1259 | A slot reported as readable with a connection behind it belongs to the active list: a pointer to a freed connection is never followed |
| EventTable.EmptySlotIsListener | benchmarks/tls/native/server-tls-poll-perf.c:1218-1235 | A slot with an answer and no connection is the listener's, and its socket is open |
| EventTable.SlotAvailable | benchmarks/tls/native/server-tls-poll-perf.c:1239-1244 | If 1 <= numConns <= maxConns a slot is free whenever the listener is ready, in every reachable table |
| EventTable.TooManyConnectionsFillTable | benchmarks/tls/native/server-tls-poll-perf.c:1206-1271 | The promise ends there: with numConns > maxConns the loop's own passes lead from its start to the end of the program, when as many clients as there are slots arrive one after the other and then one more |
| EventTable.AcceptIsPass | benchmarks/tls/native/server-tls-poll-perf.c:1208-1270 | Accepting one connection, with nothing else to do, is a pass of the loop: poll's answer, a step for every slot, and the end of the pass |
| EventTable.AfterPoll | benchmarks/tls/native/server-tls-poll-perf.c:1208-1209 | What poll answers about closed descriptors makes every stale slot due for release in this pass, before the listener's turn |
| EventTable.ReadableSlots | benchmarks/tls/native/server-tls-poll-perf.c:1208-1245 | At every poll the slots that poll may report as readable are exactly those of the active connections and, while it is on, the listener's: every such slot asks for input, in every reachable table |
| EventTable.AfterRelease | benchmarks/tls/native/server-tls-poll-perf.c:1224-1229 | Releasing a slot keeps the invariant that the occupied slots leave room for what the listener may accept |
| EventTable.AfterClose | benchmarks/tls/native/server-tls-poll-perf.c:543-579 | Closing a connection whose slot still points to it keeps the invariant |
| EventTable.AfterAccept | benchmarks/tls/native/server-tls-poll-perf.c:1239-1254 | Accepting into the first free slot keeps the invariant, including the bound on slots of active connections |
| EventTable.AfterPass | benchmarks/tls/native/server-tls-poll-perf.c:1263-1270 | Freeing the closed connections makes their slots stale, with closed descriptors, and leaves every other slot's connection on the active list |
| EventTable.FirstFreeIsFree | benchmarks/tls/native/server-tls-poll-perf.c:1000-1012 | The slot found has no descriptor, and no slot is found only if none is without one |
| EventTable.OneSlotEach | benchmarks/tls/native/server-tls-poll-perf.c:1239-1247 | No two slots hold the same live connection |
| Connections.LifeInOrder | benchmarks/tls/native/server-tls-poll-perf.c:543-600 | In a legal log a freed connection was accepted before, closed in between, used only between the two, and freed only once |
| Connections.SSLConnCtx.Close | benchmarks/tls/native/server-tls-poll-perf.c:543-579 | The connection leaves the doubly-linked list, whatever its place in it, and becomes the head of the free list; a second close changes nothing |
| Connections.SSLConnCtx.Unlink | benchmarks/tls/native/server-tls-poll-perf.c:564-570 | The list pointers stay those of a doubly-linked list of the other connections in their order |
| Connections.SSLConnCtx.FreeSSLConn | benchmarks/tls/native/server-tls-poll-perf.c:585-600 | Each closed connection's descriptor is closed and the connection freed, once, and nothing else |
| Connections.SSLConnCtx.Free | benchmarks/tls/native/server-tls-poll-perf.c:526-536 | The loop ends and leaves no active connection, because none on the list is closed yet; exactly the descriptors of the connections are closed |
| Connections.SSLConnCtx.Accept | benchmarks/tls/native/server-tls-poll-perf.c:624-671 | A connection is accepted exactly if the limit is not reached and no call fails; it becomes the head of the active list with a descriptor that no other connection has |
| Connections.SSLConnCtx.LinkFirst | benchmarks/tls/native/server-tls-poll-perf.c:657-668 | A new connection in front keeps the doubly-linked list and counts once |
| Connections.SSLConnCtx.ReadWrite | benchmarks/tls/native/server-tls-poll-perf.c:679-749 | The exact new state and byte totals for what the TLS calls answer, by the function and by the law that does not use it; the connection is closed exactly when its step fails |
| Connections.SSLConnCtx.Serve | benchmarks/tls/native/server-tls-poll-perf.c:679-749 | The state machine of handshake, read and write obeys a law in terms of what the TLS calls answer: which answers fail, which leave the state, how many bytes each total grows by, and that a finished read is followed by a write in the same step |
| Connections.SSLConnCtx.StepsAreLawful | benchmarks/tls/native/server-tls-poll-perf.c:679-749 | The step as a function of the answers obeys the law in every state, for all answers, totals and limits |
| Connections.SSLConnCtx.ReadFallsThrough | benchmarks/tls/native/server-tls-poll-perf.c:699-743 | Without a limit, a read that moves bytes without an error is followed by a write at once: the total grows by exactly what the second call moves, and the connection reads next exactly if that write was full or had no error |
| Connections.SSLConnCtx.WritingIsPutOff | benchmarks/tls/native/server-tls-poll-perf.c:699-743 | A step from reading ends in writing only if the write has to wait or the limit for writing is used up |
| Connections.SSLConnCtx.StepsAreOrderly | benchmarks/tls/native/server-tls-poll-perf.c:679-749 | A step never leaves CLOSED or enters it, moves no data before the handshake is over, and never takes a total beyond the byte limit |
| Connections.SSLConnCtx.SslWrite | benchmarks/tls/native/server-tls-poll-perf.c:372-405 | The count of bytes written and the result code, a full write being a success whatever the error says |
| Connections.SSLConnCtx.SslRead | benchmarks/tls/native/server-tls-poll-perf.c:416-446 | The count of bytes read and the result code |
| TlsCalls.LimitHolds | benchmarks/tls/native/server-tls-poll-perf.c:704-706 | Asking for no more than what is left of the limit keeps the total within it |
| TlsClient.SSLConnCtx.Run | benchmarks/tls/client/client-tls-perf.c:972-1023 | The slots have their turns one after another and round again, none once the run is over; the run ends only when it is over, is cut off, or a connection is to be started and the server cannot be reached. When it is over, a run limited by connections has closed exactly that many, every slot is unused and no TLS object could not be created; a run limited by bytes has read and written exactly that many |
| TlsClient.SSLConnCtx.Visit | benchmarks/tls/client/client-tls-perf.c:972-1022 | One turn: the slot is made ready and makes one lawful step, the counts of created, closed and resumed connections change accordingly, and no other slot changes; it fails exactly if a connection is to be started and the server cannot be reached |
| TlsClient.SSLConnCtx.Prepare | benchmarks/tls/client/client-tls-perf.c:975-998 | A closing slot is closed, and a slot that is then unused gets a connection exactly while fewer than the maximum were created: every field of the slot, every count, and when it fails |
| TlsClient.SSLConnCtx.Close | benchmarks/tls/client/client-tls-perf.c:449-466 | The slot is unused again, holds no TLS object and counts as one connection |
| TlsClient.SSLConnCtx.Connect | benchmarks/tls/client/client-tls-perf.c:489-505 | A slot holds a TLS object afterwards exactly if one could be created; the attempt counts as created either way |
| TlsClient.SSLConnCtx.ReadWrite | benchmarks/tls/client/client-tls-perf.c:546-625 | The exact next state, remembered result and totals of a slot for what the wait and the TLS call answer, by the function and by the law that does not use it |
| TlsClient.Config.StepsAreLawful | benchmarks/tls/client/client-tls-perf.c:546-625 | The step obeys a law in terms of the answers in every state: which fail, which leave the state, how many bytes each total grows by, what is remembered, and that a wait that finds data is followed by the read at once |
| TlsClient.Config.StepsAreOrderly | benchmarks/tls/client/client-tls-perf.c:546-625 | A slot connects, writes, waits and reads in this order; a failing step closes it and keeps the last result; totals stay within the limit |
| TlsClient.BusyUpdate | benchmarks/tls/client/client-tls-perf.c:449-505 | Changing one slot changes the number of slots in use by that slot alone |
| TlsClient.NoneBusy | benchmarks/tls/client/client-tls-perf.c:972-1023 | No slot counts as in use exactly if all are in the initial state |
| SecureAlign.SecretBytesAvoidForbiddenPositions | benchmarks/linux-sgx/common/inc/sgx_secure_align.h:97-150 | For any list of secret ranges inside a type, any power of two asked for as alignment that the type's own alignment divides, and any base address that the computed alignment allows, the type follows its padding at once and no secret byte has an address that is 0 or 4 to 7 modulo 64 |
| SecureAlign.GuaranteeHolds | benchmarks/linux-sgx/common/inc/sgx_secure_align.h:120-150 | For every alignment asked for and every alignment of the type: all secret bytes of all types and ranges are protected at every allowed address exactly if the former is a multiple of the latter, or the latter is above 64, where a smaller one asked for is rejected by the language |
| SecureAlign.WeakerAlignmentFails | benchmarks/linux-sgx/common/inc/sgx_secure_align.h:120-147 | A type, with two secret bytes and a weaker alignment asked for, that the code accepts and does not protect |
| SecureAlign.NaturalAlignmentIsSafe | benchmarks/linux-sgx/common/inc/sgx_secure_align.h:149-150 | With the type's own alignment, the default, the secret bytes are protected and the type is aligned, without a further condition |
| SecureAlign.PaddedStructureStaysAligned | benchmarks/linux-sgx/common/inc/sgx_secure_align.h:103-139 | The type behind its padding has the alignment asked for at every allowed address exactly if that is at most 8, above 64, or less than twice the size of the padding and the type |
| SecureAlign.SmallStructureLosesAlignment | benchmarks/linux-sgx/common/inc/sgx_secure_align.h:103-139 | A type of 24 bytes for which 64 is asked and 32 computed |
| SecureAlign.AlignmentOfBlock | benchmarks/linux-sgx/common/inc/sgx_secure_align.h:103-112 | The computed alignment is a power of two, and at least the one asked for under exactly that condition |
| SecureAlign.CalcLspcRefinesSearch | benchmarks/linux-sgx/common/inc/sgx_secure_align.h:94-101 | The form with rotations, a mask and a count of leading zeros computes what a search through the paddings 0 to 63 computes |
| SecureAlign.CalcLspcIsLeast | benchmarks/linux-sgx/common/inc/sgx_secure_align.h:94-101 | The answer is the least viable padding, -1 exactly if there is none, and -2 exactly if the alignment is not a power of two |
| SecureAlign.SecretBmpBit | benchmarks/linux-sgx/common/inc/sgx_secure_align.h:61-76 | A bit of the bitmap is set exactly if some range covers that byte of the line, wrapping around included |
| SecureAlign.RepresentableExactly | benchmarks/linux-sgx/common/inc/sgx_secure_align.h:61-76 | The constant of a range, shifted as a signed 64-bit number, exists exactly if 2^L is below 2^63 |
| SecureAlign.PowerOfTwoTest | benchmarks/linux-sgx/common/inc/sgx_secure_align.h:97-99 | al & (al - 1) is 0 exactly for the powers of two |
| SecureAlign.RolBit | benchmarks/linux-sgx/common/inc/sgx_secure_align.h:41-51 | Every bit of a rotation to the left, for every count, zero included |
| SecureAlign.RorBit | benchmarks/linux-sgx/common/inc/sgx_secure_align.h:53-57 | Every bit of a rotation to the right, made of a rotation to the left by the negated count |
| SecureAlign.AlignmaskBit | benchmarks/linux-sgx/common/inc/sgx_secure_align.h:78-84 | The mask keeps exactly the offsets that are multiples of the alignment |
| SecureAlign.CountLzbMeaning | benchmarks/linux-sgx/common/inc/sgx_secure_align.h:86-92 | The recursion counts the leading zeros, and answers -1 exactly for zero |
| SecureAlign.BlockedBit | benchmarks/linux-sgx/common/inc/sgx_secure_align.h:99-100 | The rotated and joined bitmaps mark exactly the offsets that move a secret byte to position 0 or 4 to 7 |
| SecureAlign.ExcludedMeaning | benchmarks/linux-sgx/common/inc/sgx_secure_align.h:99-100 | An offset is unmarked exactly if no secret byte moves to a forbidden position |
| SecureAlign.NarrowAlgnBounds | benchmarks/linux-sgx/common/inc/sgx_secure_align.h:103-112 | The alignment found is 8, 16, 32 or 64, and no smaller than the structure unless it is 64 |
| SecureAlign.BlockPosition | benchmarks/linux-sgx/common/inc/sgx_secure_align.h:103-112 | An aligned block no larger than its alignment never wraps a byte onto a forbidden position |
| LfsrPeriod.GeneratorPeriod | benchmarks/sqlite/benchmark/src/random.c:25-29 | The generator's state comes back exactly after the multiples of 2^32 (2^32 - 1) calls, whenever its LFSR part is not 0 |
| PrngOutput.OutputPeriod | benchmarks/sqlite/benchmark/src/random.c:25-29 | The numbers returned repeat after n calls, for good, exactly if n is a multiple of 2^32 (2^32 - 1), whenever the LFSR part is not 0 |
| PrngOutput.OutputReveals | benchmarks/sqlite/benchmark/src/random.c:28 | The number returned and the LFSR part determine the LCG part |
| PrngOutput.OutputBit | benchmarks/sqlite/benchmark/src/random.c:28 | Each bit of the number returned is the exclusive or of the corresponding bits of the two parts |
| PrngOutput.BitsBit | benchmarks/sqlite/benchmark/src/random.c:28 | The word of an unsigned number has bit j set exactly if the number divided by 2^j is odd |
| PrngOutput.FirstOutput | benchmarks/sqlite/benchmark/src/random.c:9-29 | The state after the first call, and the number 0x642b99e5 that it returns |
| LfsrPeriod.LfsrHasFullPeriod | benchmarks/sqlite/benchmark/src/random.c:26 | The LFSR runs through all 2^32 - 1 states other than 0 before it repeats one |
| LfsrPeriod.NoStateRepeats | benchmarks/sqlite/benchmark/src/random.c:25-29 | No two of 2^32 (2^32 - 1) consecutive states are equal |
| LfsrPeriod.PrimeDivides | benchmarks/sqlite/benchmark/src/random.c:26 | Every cycle length is a multiple of each prime factor of 2^32 - 1 |
| Polynomials.StepTimes | benchmarks/sqlite/benchmark/src/random.c:26 | A step of the LFSR multiplies a polynomial over two elements by the indeterminate, reduced by the mask 0xd0000001 |
| Polynomials.StepsAreProduct | benchmarks/sqlite/benchmark/src/random.c:26 | n steps multiply by the polynomial that n steps make of 1 |
| Polynomials.Associates | benchmarks/sqlite/benchmark/src/random.c:26 | The multiplication of states that the period rests on is associative |
| Polynomials.ProductIsTimes | benchmarks/sqlite/benchmark/src/random.c:26 | The multiplication eight terms at a time computes the one that is defined term by term |
| LfsrPowers.SquareIsPower | benchmarks/sqlite/benchmark/src/random.c:26 | Squaring the indeterminate k times gives the state after 2^k steps |
| LfsrPowers.SquaresTo32 | benchmarks/sqlite/benchmark/src/random.c:26 | The state after 2^32 steps is the state after one step |
| Prng.LcgPeriod | benchmarks/sqlite/benchmark/src/random.c:27 | The LCG modulo 2^32 returns to where it was exactly after the multiples of 2^32 steps, from every seed |
| Prng.LcgClosedForm | benchmarks/sqlite/benchmark/src/random.c:27 | n steps of the LCG in closed form |
| Prng.GeometricMultiple | benchmarks/sqlite/benchmark/src/random.c:27 | 1 + a + ... + a^(n-1) is divisible by exactly the powers of two that divide n, when a = 1 modulo 4 |
| Prng.StatesDoNotRepeat | benchmarks/speedtest1/benchmark/src/speedtest1.c:277-281 | Two equal states of a run, from any seed, lie a multiple of 2^32 calls apart |
| Prng.LfsrBackUndoes | benchmarks/sqlite/benchmark/src/random.c:26 | The LFSR step is undone by a reverse step |
| Prng.LfsrUndoesBack | benchmarks/sqlite/benchmark/src/random.c:26 | Every state is reached by an LFSR step |
| Prng.LfsrAvoidsZero | benchmarks/sqlite/benchmark/src/random.c:26 | The LFSR reaches 0 only from 0 |
| Prng.Generator.GetNext | benchmarks/sqlite/benchmark/src/random.c:25-29 | One call advances both parts by a step and returns their exclusive or, whose bits and period PrngOutput gives |
| Prng.Generator.Init | benchmarks/sqlite/benchmark/src/random.c:9-19 | The cache's first part holds the generator's outputs in order, the rest is untouched |
| Prng.CachedSliceIsFilled | benchmarks/sqlite/benchmark/src/random.c:36-44 | A cached slice lies in the filled part for every random number exactly for the lengths 0 to 262142, the number of filled elements less 2 |
| Prng.LongSlicesFail | benchmarks/sqlite/benchmark/src/random.c:31-44 | Concrete lengths that fail: one divides by zero, one reaches past the filled part |
| NumberName.NumberName | benchmarks/speedtest1/benchmark/src/speedtest1.c:312-363 | For every buffer size from 1 on the buffer receives the longest part of the name that fits, with a NUL behind it; the length of that part is returned and nothing else is written |
| NumberName.ParseName | benchmarks/speedtest1/benchmark/src/speedtest1.c:304-311 | A parser with a vocabulary of its own, which accepts the words in no other order, reads every number back from its name |
| NumberName.NamesAreDistinct | benchmarks/speedtest1/benchmark/src/speedtest1.c:304-311 | Different numbers have different names |
| NumberName.WordsValue | benchmarks/speedtest1/benchmark/src/speedtest1.c:312-363 | The words of a name are accepted by that parser, in their order, and are worth the number |
| NumberName.WrongOrderIsRefused | benchmarks/speedtest1/benchmark/src/speedtest1.c:318-357 | Tens come before ones and larger units before smaller ones: names with words exchanged are refused |
| NumberName.WriteUnit | benchmarks/speedtest1/benchmark/src/speedtest1.c:321-341 | A unit is preceded by its count, named by a recursive call into the rest of the buffer, and separated by a blank unless the buffer is empty or full |
| NumberName.WriteHundred | benchmarks/speedtest1/benchmark/src/speedtest1.c:342-347 | The hundreds continue what is in the buffer |
| NumberName.WriteSmall | benchmarks/speedtest1/benchmark/src/speedtest1.c:348-357 | The tens and ones continue what is in the buffer |
| NumberName.Snprintf | benchmarks/speedtest1/benchmark/src/speedtest1.c:343 | As much of a text as fits, and a NUL behind it |
| NumberName.SplitJoin | benchmarks/speedtest1/benchmark/src/speedtest1.c:304-363 | Joined words are split again at the blanks |
| Swizzle.Swizzle | benchmarks/speedtest1/benchmark/src/speedtest1.c:286-294 | With k the least number such that the limit is below 2^k, the result has k bits, and bit j of it is bit k - 1 - j of the argument; no bit is lost at the width of 32 bits |
| Swizzle.ReversedBit | benchmarks/speedtest1/benchmark/src/speedtest1.c:286-294 | Bit j of the result is bit k - 1 - j of the argument |
| Swizzle.SwizzleTwice | benchmarks/speedtest1/benchmark/src/speedtest1.c:283-294 | Swizzling twice with the same limit gives the argument back, for every argument up to the limit |
| Swizzle.SwizzlePermutes | benchmarks/speedtest1/benchmark/src/speedtest1.c:283-294 | Within a limit of ones swizzling is a permutation of 0 to the limit, and only 0 becomes 0 |
| Swizzle.SameKey | benchmarks/speedtest1/benchmark/src/speedtest1.c:286-294 | Two numbers get the same key exactly if they agree modulo the power of two above the limit |
| Swizzle.RoundupAllOnes | benchmarks/speedtest1/benchmark/src/speedtest1.c:296-302 | The result is the least number of the form 2^k - 1, k >= 1, that is no less than the argument, and the shift never overflows |
| Swizzle.Keys | benchmarks/speedtest1/benchmark/src/speedtest1.c:740-758 | The keys of the rows 1 to sz are pairwise distinct and positive, so that the inserts into a unique column succeed |
| Swizzle.KeysRepeatExactly | benchmarks/speedtest1/benchmark/src/speedtest1.c:1062-1069 | Within a limit of ones two of the rows 1 to sz get the same key exactly if the limit is at least two less than sz |
| Swizzle.ReplaceMask | benchmarks/speedtest1/benchmark/src/speedtest1.c:1060-1069 | The limit that the tests with REPLACE compute for a third of the rows lets keys repeat exactly from three rows on |
| VerificationHash.Hash.HashInit | benchmarks/speedtest1/benchmark/src/speedtest1.c:135-140 | The table starts as the identity permutation |
| VerificationHash.Hash.HashUpdate | benchmarks/speedtest1/benchmark/src/speedtest1.c:146-165 | The table, updated in place, and both indices are those of the content hashed byte by byte, one byte being spelled out: the sums modulo 256 and the exchange; the table stays a permutation |
| VerificationHash.Hash.HashFinal | benchmarks/speedtest1/benchmark/src/speedtest1.c:170-184 | Each of the 32 bytes of the result is the element at the sum of the two elements that its step exchanges; the table after the final phase, which stays a permutation; the stored indices do not change |
| VerificationHash.PiecesDoNotMatter | benchmarks/speedtest1/benchmark/src/speedtest1.c:142-165 | However the content is cut into calls, the state is that of one call with all of it |
| VerificationHash.UpdateAppend | benchmarks/speedtest1/benchmark/src/speedtest1.c:142-165 | Updating with a and then with b is updating with a + b |
| VerificationHash.UpdateIsReversible | benchmarks/speedtest1/benchmark/src/speedtest1.c:146-165 | An update by known content is undone by the reverse steps, and every state is reached by one |
| VerificationHash.OneByteMatters | benchmarks/speedtest1/benchmark/src/speedtest1.c:146-165 | A single different byte leaves a different state, whatever precedes and follows it |
| VerificationHash.SqueezeIsReversible | benchmarks/speedtest1/benchmark/src/speedtest1.c:175-183 | A step of the final phase loses nothing of the state |
| VerificationHash.SqueezeIs | benchmarks/speedtest1/benchmark/src/speedtest1.c:175-183 | A step of the final phase in plain terms: both indices, the exchange and the byte |
| VerificationHash.UpdatePermutes | benchmarks/speedtest1/benchmark/src/speedtest1.c:146-165 | Every update keeps the table a permutation of 0 to 255 |
| VerificationHash.SqueezePermutes | benchmarks/speedtest1/benchmark/src/speedtest1.c:170-184 | Every step of the final phase keeps the table a permutation of 0 to 255 |
| SquareRoot.EstSquareRoot | benchmarks/speedtest1/benchmark/src/speedtest1.c:620-631 | For x >= 2 the result is that of ten Newton steps from half the argument; it is no less than the root and at most a 1024th of the first error above it, or one above it when x + 1 is a square; leaving the loop early gives exactly the root; no step overflows an int |
| SquareRoot.Step | benchmarks/speedtest1/benchmark/src/speedtest1.c:625-629 | A Newton step from above never falls below the root and halves the distance to it |
| SquareRoot.NoOverflow | benchmarks/speedtest1/benchmark/src/speedtest1.c:626 | The sum of a step fits into an int |
| Sudoku.AnswerIsExact | benchmarks/speedtest1/benchmark/src/speedtest1.c:1242-1267 | For every board of 81 cells the query's answer contains each completion exactly once and nothing else, a completion giving every blank a digit that differs from all in its row, column and box |
| Sudoku.TableKeeps | benchmarks/speedtest1/benchmark/src/speedtest1.c:1249-1267 | Whatever rows the recursion has still to expand, a full board occurs in the rest of the answer once for each of them that it completes |
| Sudoku.ExpandKeeps | benchmarks/speedtest1/benchmark/src/speedtest1.c:1252-1265 | Every way to complete a board goes on through exactly one of the rows made from it |
| Sudoku.FillFirstBlank | benchmarks/speedtest1/benchmark/src/speedtest1.c:1252-1265 | A digit in the first blank that the query allows leaves exactly the completions with that digit there |
| Sudoku.ClashIsPeer | benchmarks/speedtest1/benchmark/src/speedtest1.c:1257-1265 | The NOT EXISTS clause rejects a digit exactly if it is in the cell's row, column or box |
| Sudoku.RowCells | benchmarks/speedtest1/benchmark/src/speedtest1.c:1260 | The first index formula runs through exactly the cells of the row |
| Sudoku.ColumnCells | benchmarks/speedtest1/benchmark/src/speedtest1.c:1261 | The second index formula runs through exactly the cells of the column |
| Sudoku.BoxOfCell | benchmarks/speedtest1/benchmark/src/speedtest1.c:1262-1264 | The third index formula stays in the box |
| Sudoku.CellOfBox | benchmarks/speedtest1/benchmark/src/speedtest1.c:1262-1264 | The third index formula reaches every cell of the box |
| Sudoku.StepWeight | benchmarks/speedtest1/benchmark/src/speedtest1.c:1249-1266 | The recursion ends: each step makes the queue lighter, a board weighing ten times as much for each blank |
| FutexEvent.NoLostWakeup | benchmarks/linux-sgx/common/src/se_event.c:49-95 | In every interleaving, a waiter that sleeps while the counter is not -1 is about to be woken: some waker is between its fetch-and-add and its FUTEX_WAKE, which ends the sleep |
| FutexEvent.SleepsOnlyWhenAllUsed | benchmarks/linux-sgx/common/src/se_event.c:49-95 | Asleep with no waker under way, every wake-up that was posted has been used by a completed wait |
| FutexEvent.UntimedWaitIsSafeExactly | benchmarks/linux-sgx/common/src/se_event.c:49-58 | An untimed wait of an idle waiter never takes a token that is not there, however it, the wakers and signals go on, exactly if the counter is positive when it begins, or no FUTEX_WAKE is still under way and no signal can interrupt it |
| FutexEvent.CarefulWaitsConserveTokens | benchmarks/linux-sgx/common/src/se_event.c:49-95 | In any run of timed and untimed waits in which every untimed one begins under that condition and no signal arrives, the counter is never negative while the waiter is idle and equals the wake-ups less the completed waits that were not reset |
| FutexEvent.TimedWaitsConserveTokens | benchmarks/linux-sgx/common/src/se_event.c:63-95 | With timed waits only, the counter is not negative whenever the waiter is idle, and equals the wake-ups less the completed waits that were not reset, despite late FUTEX_WAKEs |
| FutexEvent.TimedWaitsStaySolvent | benchmarks/linux-sgx/common/src/se_event.c:63-95 | With timed waits only no run is ever overdrawn |
| FutexEvent.UntimedWaitCanEndEarly | benchmarks/linux-sgx/common/src/se_event.c:49-58 | A run in which a late FUTEX_WAKE ends an untimed wait that takes nothing |
| FutexEvent.Accounting | benchmarks/linux-sgx/common/src/se_event.c:49-95 | The counter is always the wake-ups and resets less the waits begun |
| FutexEvent.NoWakeWithoutWaiter | benchmarks/linux-sgx/common/src/se_event.c:86-95 | A run in which every wake-up finds the counter at 0 never has a FUTEX_WAKE under way |
| FutexEvent.WakeAdds | benchmarks/linux-sgx/common/src/se_event.c:86-95 | One wake-up adds one token, and is followed by a FUTEX_WAKE exactly if the counter was not 0 |
| KeyManager.MasterKeyLimits | benchmarks/linux-sgx/sdk/protected_fs/sgx_tprotected_fs/file_crypto.cpp:179-210 | Over any sequence of derivations with any failures, the first session master key serves at most 65537 and every other at most 65538 of them, exactly as long as no call follows one that wrapped the 32-bit counter round |
| KeyManager.WrapTakesManyFailures | benchmarks/linux-sgx/sdk/protected_fs/sgx_tprotected_fs/file_crypto.cpp:194-202 | The counter wraps round only after more than four thousand million failures in a row to make a new key |
| KeyManager.LimitsReached | benchmarks/linux-sgx/sdk/protected_fs/sgx_tprotected_fs/file_crypto.cpp:194-210 | Both limits are reached when nothing fails |
| KeyManager.ProtectedFile.DeriveRandomNodeKey | benchmarks/linux-sgx/sdk/protected_fs/sgx_tprotected_fs/file_crypto.cpp:194-210 | The node's key is derived from the session master key, which is replaced exactly when its counter is above 65536; the counter with its wrap-around, the keys and the error for every outcome |
| KeyManager.ProtectedFile.InitSessionMasterKey | benchmarks/linux-sgx/sdk/protected_fs/sgx_tprotected_fs/file_crypto.cpp:179-191 | A new master key resets the usage counter; a failure leaves the old key and the counter |
| KeyManager.ProtectedFile.GenerateSecureBlob | benchmarks/linux-sgx/sdk/protected_fs/sgx_tprotected_fs/file_crypto.cpp:57-111 | The derivation's input fields (counter 1, label, node number, 16 random bytes, length 128), the three ways to fail and their error codes |
| KeyManager.NodeInputsDiffer | benchmarks/linux-sgx/sdk/protected_fs/sgx_tprotected_fs/file_crypto.cpp:38-111 | Derivations with the same input are for the same label, the same node number and the same random bytes |
| KeyManager.PurposesDiffer | benchmarks/linux-sgx/sdk/protected_fs/sgx_tprotected_fs/file_crypto.cpp:30-175 | Master keys, node keys and metadata keys never have the same derivation input, and every label fits |
| KeyManager.ProtectedFile.GenerateFromUserKdk | benchmarks/linux-sgx/sdk/protected_fs/sgx_tprotected_fs/file_crypto.cpp:114-175 | The derivation from the user's key with 32 fresh or stored bytes, which are stored only when a fresh key was made |
| KeyManager.ProtectedFile.GenerateRandomMetaDataKey | benchmarks/linux-sgx/sdk/protected_fs/sgx_tprotected_fs/file_crypto.cpp:213-261 | A success gives the key derived from the fresh bytes, or sealed to the report's version numbers, and stores what is needed to make it again; a failure leaves key, stored id and version numbers unchanged |
| KeyManager.ProtectedFile.RestoreCurrentMetaDataKey | benchmarks/linux-sgx/sdk/protected_fs/sgx_tprotected_fs/file_crypto.cpp:264-314 | The key that the stored metadata stands for, or the imported one; refused exactly for a zero key id in sealing mode or a failing call |
| KeyManager.ProtectedFile.GenerateAndRestore | benchmarks/linux-sgx/sdk/protected_fs/sgx_tprotected_fs/file_crypto.cpp:213-314 | A generated metadata key is recovered even if the report's version numbers changed in between, in both modes, except for a sealing key whose random id is zero |

## Left out

- TlsServer.Server.Run: the run is cut off after a given number of passes, so that it states what holds for every finite prefix; that a run ends depends on the clients and is not claimed.
- TlsServer.Server.EventLoop: cut off in the same way.
- TlsClient.SSLConnCtx.Run: cut off after a given number of turns; that a run ends depends on the server and is not claimed.
- NumberName.ParseName: states the round trip for numbers below 10^12, which includes every 32-bit unsigned number; no unsigned argument of the code is larger.
- NumberName.NamesAreDistinct: for the same numbers.
- FutexEvent: one waiter per event, as the run-time system uses it; the counter's wrap-around after 2^31 calls and the null handle are not modelled; the steps are a state machine over values, because the threads interleave between the atomic instructions.
- TlsServer: the TLS object of a connection is not modelled beyond what its calls answer; wolfSSL, sockets, certificates, timing and the printed statistics are left out.
- TlsServer: a descriptor that is accepted before a TLS object cannot be created is never closed by the code; the model keeps it open and says no more about it.
- TlsServer: a server limited by bytes has no client slots; when the first client is accepted it ends with a full table, as the model does (`TlsServer.Server.AssignSlot` finds no slot among none).
- TlsClient: at least one slot is required, because the code divides by the number of slots; asynchronous cryptography is left out.
- TlsCalls.Allowance: the code takes the minimum as unsigned words; the totals never exceed the limit, so that no negative number is converted.
- Counters: the int counters of both TLS programs are unbounded in the model; 2^31 connections or bytes are out of their range.
- SecureAlign: words are sequences of 64 bits; the rotation's shifts, masks and the wrapping negation of the count are modelled, the member's offset follows the rule that it is the padding rounded up to the member's alignment, and an alignment weaker than the member's is rejected; the C++ types are not modelled.
- KeyManager: a failing cryptographic call is taken to leave its output unchanged; the message authentication code and the key derivation of the processor are uninterpreted functions; the byte layout of the derivation's input is a record of its fields.
- KeyManager: clearing of buffers and the measuring calls are left out.
- Sudoku: boards have exactly 81 cells and rows are taken from the queue first in, first out, which is the order of SQLite; the variant with a VALUES list of digits is the same recursion.
- NumberName.Snprintf: only the two forms that the code uses, a text and a text with a suffix, as the text they produce.
- VerificationHash: the copy of the content to a file is left out; the unsigned characters are numbers below 256 with sums modulo 256.
- Prng: the result of the division by zero that LongSlicesFail reports is undefined and has no value in the model.
- The SQL workloads of speedtest1 other than the Sudoku query, the floating-point functions, and the thin wrappers around locks, maps and digests: easy members or calls into foreign code.
