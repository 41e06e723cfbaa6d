# Verification models for the Gaius browser port

Dafny models of the parts of the repository whose correctness depends on order, arithmetic or
failure, with proofs of what those parts promise. `dafny verify dfyconfig.toml` checks all of it.

| file | what it models |
|---|---|
| `RuntimeLease.dfy` | the localStorage lease by which at most one tab runs the client: any number of tabs, one record, one clock |
| `ServerPump.dfy`, `PumpRuns.dfy` | the integrated-server input pump: requests, thread callbacks, microtasks and retry timers, and what it promises over whole runs |
| `Bits.dfy`, `Gf256.dfy`, `GfInverse.dfy`, `Fips197.dfy` | GF(2^8) and AES-128 as FIPS 197 writes them |
| `AesTables.dfy`, `Cfb8.dfy`, `BrowserAesCfb8.dfy` | the table-driven cipher and its CFB8 stream |
| `PulsePaths.dfy` | the memoised search for paths around a scheduler pulse |
| `LinkModel.dfy`, `ClassHierarchy.dfy`, `LookupOrder.dfy`, `LinkResolver.dfy` | class loading, the JVMS lookup rules and which member they find, and the cached member resolver with its shared visited set |
| `BitFields.dfy`, `PackedStorage.dfy`, `BitStorage.dfy`, `WasmBitUnpacker.dfy` | fixed-width values packed in longs: one field in Java's arithmetic, and the bulk unpacker as C and as Wasm |
| `IndexShift.dfy`, `Repack.dfy` | the two hot-path loops, each as C and as hand-emitted Wasm |
| `Leb128.dfy` | the LEB128 writers of the Wasm generator |
| `NearestFour.dfy`, `Aquifer.dfy`, `StaleEntries.dfy`, `AquiferGrid.dfy`, `AquiferScan.dfy` | the aquifer scan without and with its cache of decoded centers, the grid cells it looks at, and what an outdated cache entry does |
| `FileSystem.dfy`, `PublishPlan.dfy`, `Publish.dfy` | the two-file publication with rollback, over a disk on which any operation may fail |
| `Marker.dfy` | the chunked search for a byte marker |
| `VarInt.dfy`, `Framing.dfy`, `Packets.dfy`, `StreamCuts.dfy` | VarInts, length-prefixed frames and packets of the smoke client, and when the cuts of the stream matter |
| `Common.dfy` | an option type, concatenation and two small functions on numbers |

The lemma or method that a row of the table below names carries the statement in its contract.
Methods that change state are proved equal to a function or a step of a state machine, and the
properties are proved about that.

## Where the code does not keep its promise

Each is stated with its exact condition.

- Lease. Two tabs can hold it unless the time from a tab's read to its write is under 80 ms **and** that time
  plus the age a living tab's record can reach is under 10 s (`RuntimeLease.ExclusiveExactly`): the age is judged
  after the record was read, so two separate bounds of 80 ms and 10 s are not enough. A window keeps its flag after
  a release, so a later call in it returns true at once; that answer is right exactly when some acquisition of the
  window has neither finished its release nor died (`RuntimeLease.EarlyReturnExactly`), and a run in which it is
  wrong while another window holds the lease exists (`RuntimeLease.FlagOutlivesLease`).
- AES stream. The range check of `update` adds ints that wrap, so a range whose end overflows passes it; bytes are then
  transformed up to the end of a buffer before Java faults (`AesCfb8Stream.RangeCheckExact`, and
  `AesCfb8Stream.RangeOverflows` for one such call). Within one array, the
  original bytes are transformed for every content of the array exactly when the write position is not inside the
  range ahead of the read position (`Cfb8.SharedExactly`).
- Aquifer. For an index outside the cache array JavaScript goes on with distance 0 where the JVM throws; the two agree
  exactly when every index lies inside the array unless an unfilled slot comes before it (`Aquifer.CachedAgrees`), and
  over an empty array they never do (`Aquifer.EmptyDiffers`). A decoded center that is left over from
  an earlier value of its slot is seen right for every call exactly when the slot is unfilled or still has that center
  (`StaleEntries.EntryExactly`); for an arbitrary center the distances only tell coordinates apart modulo 2^31
  (`StaleEntries.SeenRightExactly`).
- Publication. `_backup_path` leaves an empty file behind exactly when closing or removing the file it just made raises
  (`Publish.BackupPath`). After a rollback and cleanup that work, the commit rule holds unless the replacement of the
  manifest was interrupted after it took effect (`Publish.CommitRuleExactly`, and `PublishPlan.CutExactly` for when that
  is); every job that changes two existing files has such a run (`Publish.InterruptedRun`).
- Marker. An empty marker is not found in an empty file (`Marker.ContainsMarker`).
- Framing. On a negative frame length the receiving loop makes no progress exactly when the length is -5 or reaches back
  past the start of the buffer (`Framing.StallsExactly`). How a stream is cut into messages changes its frames exactly
  when the first length that points back past the start of its buffer has further bytes behind it and points back by
  less than there are bytes in the buffer (`StreamCuts.CutsMatterExactly`).

## Model

| member | source | states |
|---|---|---|
| RuntimeLease.ExclusiveExactly | port/scripts/postprocess-index-html.py:1980-2012 | over every run of any number of tabs at most one holds the lease if and only if read-to-write gap < 80 ms and gap + record age < 10 s |
| RuntimeLease.ReachableInv | port/scripts/postprocess-index-html.py:1980-2012 | every reachable state keeps the invariant on times, record, readers and the current race |
| RuntimeLease.LastWriterWins | port/scripts/postprocess-index-html.py:1998-2001 | in every reachable state a re-read succeeds for the last racer that wrote and fails for every other |
| RuntimeLease.RaceHasWinner | port/scripts/postprocess-index-html.py:1998-2012 | once no tab is settling, the last racer that wrote has won or has died |
| RuntimeLease.ReleaseRemovesOwn | port/scripts/postprocess-index-html.py:2003-2007 | in every reachable state release finds its own record, removes it and leaves nobody holding the lease |
| RuntimeLease.ReleaseSparesOthers | port/scripts/postprocess-index-html.py:2003-2007 | whatever the timing, release goes on to the removal exactly when the record it reads carries its id |
| RuntimeLease.RecordChanges | port/scripts/postprocess-index-html.py:1990-2007 | only claims, heartbeats and removals change the record, the first two to the writer's id and time stamp |
| RuntimeLease.RefusesExactly | port/scripts/postprocess-index-html.py:1994-1997 | for every record of another call, stamp and time, the check refuses exactly when the record is less than 10 s old |
| RuntimeLease.Acquire | port/scripts/postprocess-index-html.py:1994-2012 | from any reachable state without a live call, a call in an unflagged window that meets no record or one of 10 s or more holds the lease 80 ms later |
| RuntimeLease.LeaseComesFree | port/scripts/postprocess-index-html.py:1994-2012 | so whatever record dead calls have left, the lease can be had as soon as that record is 10 s old |
| RuntimeLease.SlowWriter | port/scripts/postprocess-index-html.py:1994-1999 | with a gap of 80 ms or more two tabs come to hold the lease |
| RuntimeLease.LateDecision | port/scripts/postprocess-index-html.py:1994-1998 | with gap + record age of 10 s or more two tabs come to hold the lease even though each bound alone is met |
| RuntimeLease.EarlyReturnExactly | port/scripts/postprocess-index-html.py:1945-1947 | under tight timing, in every reachable state a call that finds its window flag set is right to return true if and only if some acquisition of that window has neither died nor finished its release; each flagged call owns the record if and only if it has not |
| RuntimeLease.ReachableFlags | port/scripts/postprocess-index-html.py:2003-2009 | whatever the timing, a call that set its window flag holds until it dies or finishes its release, and only such calls hold |
| RuntimeLease.FlagOutlivesLease | port/scripts/postprocess-index-html.py:1945-1947 | a run after which a call in a released window returns true at once while a call in another window holds the lease |
| RuntimeLease.LeaseClient.Start | port/scripts/postprocess-index-html.py:1945-1994 | a call returns true at once exactly when its window flag is set (the Return step), and reads the record otherwise (the Read step) |
| RuntimeLease.LeaseClient.CheckCurrent | port/scripts/postprocess-index-html.py:1994-1997 | the check of the record is the Decide step of the state machine |
| RuntimeLease.LeaseClient.WriteLease | port/scripts/postprocess-index-html.py:1990-1998 | the claim is the Write step |
| RuntimeLease.LeaseClient.CheckClaimed | port/scripts/postprocess-index-html.py:2000-2012 | the re-read is the Verify step and sets the window flag only on success |
| RuntimeLease.LeaseClient.Heartbeat | port/scripts/postprocess-index-html.py:2002 | a heartbeat is the Beat step |
| RuntimeLease.LeaseClient.StopAndReadOwned | port/scripts/postprocess-index-html.py:2003-2006 | the first half of release is the ReleaseRead step |
| RuntimeLease.LeaseClient.RemoveOwned | port/scripts/postprocess-index-html.py:2006 | the second half is the ReleaseRemove step |
| PumpRuns.RunInv | port/scripts/postprocess-teavm-js.py:88-182 | in every state of every run at most one of running, dispatch and timer is set; dispatch or timer implies pending; pending implies one of the three; a timer has the delay 1, 2, 4 or 8 of its retry; failures = retries scheduled + exhaustions |
| PumpRuns.RequestsCounted | port/scripts/postprocess-teavm-js.py:88-116 | the counters of requests and coalesced requests count every request of the run and every one that found the pump busy, those from inside a start included |
| PumpRuns.EveryRequestAnswered | port/scripts/postprocess-teavm-js.py:106-182 | no wake-up is lost: at every point after a request a start or an exhaustion has come since, or the pump is busy and pending; a busy pump is pending right after it |
| PumpRuns.InnerRequestsAnswered | port/scripts/postprocess-teavm-js.py:106-182 | the same for requests from inside a start, which that start itself does not answer |
| PumpRuns.RunHistory | port/scripts/postprocess-teavm-js.py:88-182 | starts = successes + failures + running; every request is served, waiting or dropped by an exhaustion, and waits only while pending; all told from the events and the counters |
| PumpRuns.AtMostFiveFailures | port/scripts/postprocess-teavm-js.py:118-150 | a burst has at most five failing starts, with delays a prefix of 1, 2, 4, 8, and after the fifth the pump is idle, however many requests coalesce |
| PumpRuns.GivesUpAfterFive | port/scripts/postprocess-teavm-js.py:128-150 | an exhaustion comes only at the fifth failing start of a burst, after all four retries |
| PumpRuns.QuietEventsRunOut | port/scripts/postprocess-teavm-js.py:138-182 | without new requests at most eleven more events happen |
| PumpRuns.BusyHasEvent | port/scripts/postprocess-teavm-js.py:138-182 | a busy pump always has an event to wait for |
| PumpRuns.IdleOwesNothing | port/scripts/postprocess-teavm-js.py:106-182 | when the pump is idle every request was followed by a start or dropped by an exhaustion |
| PumpRuns.IdleRequestStarts | port/scripts/postprocess-teavm-js.py:106-182 | a request that finds the pump idle, after an exhaustion too, starts at once and opens a fresh burst |
| ServerPump.Pump.RequestPump | port/scripts/postprocess-teavm-js.py:88-116 | a call of the exported function is the Request step |
| ServerPump.Pump.RunPump | port/scripts/postprocess-teavm-js.py:151-180 | run is the start step with everything its starter does |
| ServerPump.Pump.FailPump | port/scripts/postprocess-teavm-js.py:118-150 | fail is the failure step |
| ServerPump.Pump.OnResult | port/scripts/postprocess-teavm-js.py:161-175 | the callback is the Callback step |
| ServerPump.Pump.OnTimer | port/scripts/postprocess-teavm-js.py:139-142 | the retry timer is the Timer step |
| ServerPump.Pump.OnMicrotask | port/scripts/postprocess-teavm-js.py:170-173 | the queued dispatch is the Microtask step |
| Gf256.MulComm | port/src/main/java/dev/gaius/browser/BrowserAesCfb8.java:176-188 | multiplication modulo x^8+x^4+x^3+x+1 is commutative |
| Gf256.MulAssoc | port/src/main/java/dev/gaius/browser/BrowserAesCfb8.java:176-188 | it is associative |
| Gf256.MulAdd | port/src/main/java/dev/gaius/browser/BrowserAesCfb8.java:176-188 | it distributes over xor |
| Gf256.ReduceCongruent | port/src/main/java/dev/gaius/browser/BrowserAesCfb8.java:190-196 | reduction by repeated xtime gives a byte congruent to the polynomial |
| Gf256.MulTwo | port/src/main/java/dev/gaius/browser/BrowserAesCfb8.java:26-27 | xtime is the product with 2, and xtime xor identity the product with 3 |
| GfInverse.PowOrder | port/src/main/java/dev/gaius/browser/BrowserAesCfb8.java:18 | v^255 = 1 for every nonzero byte |
| GfInverse.PowInverse | port/src/main/java/dev/gaius/browser/BrowserAesCfb8.java:18 | v^254 is the multiplicative inverse of every nonzero byte |
| AesTables.GfMultiply | port/src/main/java/dev/gaius/browser/BrowserAesCfb8.java:176-188 | the shift-and-add loop computes the polynomial product modulo the field polynomial |
| AesTables.GfPow | port/src/main/java/dev/gaius/browser/BrowserAesCfb8.java:162-174 | square-and-multiply computes the e-fold product for every e >= 0, and 1 for negative e |
| AesTables.SubstitutedIsSbox | port/src/main/java/dev/gaius/browser/BrowserAesCfb8.java:18-25 | the xor of rotations of the inverse and 0x63 is the S-box of FIPS 197 section 5.1.1 |
| AesTables.SubstitutedIsAffine | port/src/main/java/dev/gaius/browser/BrowserAesCfb8.java:19-24 | rotations by 1 to 4 are the affine map bit by bit |
| AesTables.Tables.constructor | port/src/main/java/dev/gaius/browser/BrowserAesCfb8.java:16-34 | the static block fills all five tables with the S-box and its column products |
| AesTables.TableColumn | port/src/main/java/dev/gaius/browser/BrowserAesCfb8.java:101-105 | the xor of four table words and a key word is MixColumns and AddRoundKey of one column |
| AesCfb8Stream.BrowserAesCfb8.ExpandKey | port/src/main/java/dev/gaius/browser/BrowserAesCfb8.java:129-142 | the 44 round key words are those of FIPS 197 section 5.2 |
| AesCfb8Stream.BrowserAesCfb8.RoundWords | port/src/main/java/dev/gaius/browser/BrowserAesCfb8.java:99-125 | the body of the round loop is one full round of section 5.1 |
| AesCfb8Stream.BrowserAesCfb8.EncryptFirstFeedbackByte | port/src/main/java/dev/gaius/browser/BrowserAesCfb8.java:94-127 | the result is byte 0 of the section 5.1 cipher of the register |
| AesCfb8Stream.BrowserAesCfb8.MaskIsFips197 | port/src/main/java/dev/gaius/browser/BrowserAesCfb8.java:94-142 | for every key and register the stream's mask is byte 0 of AES-128 with the standard S-box and key schedule |
| AesCfb8Stream.BrowserAesCfb8.constructor | port/src/main/java/dev/gaius/browser/BrowserAesCfb8.java:54-56 | a new object holds a copy of the IV and the schedule of the key |
| AesCfb8Stream.BrowserAesCfb8.Create | port/src/main/java/dev/gaius/browser/BrowserAesCfb8.java:44-57 | mode, key and IV are refused in that order, and only when they are bad |
| AesCfb8Stream.BrowserAesCfb8.Update | port/src/main/java/dev/gaius/browser/BrowserAesCfb8.java:72-88 | null buffers, the range check, partial progress on an overflowing range, and otherwise the CFB8 transform of the range, also within one array |
| AesCfb8Stream.BrowserAesCfb8.UpdateAll | port/src/main/java/dev/gaius/browser/BrowserAesCfb8.java:63-70 | a new array with the whole input transformed; null reads as empty |
| AesCfb8Stream.BrowserAesCfb8.ProgressIsOutput | port/src/main/java/dev/gaius/browser/BrowserAesCfb8.java:72-88 | what update does to a range that fits and is not written ahead of itself is the CFB8 output of the original bytes, with everything else kept |
| AesCfb8Stream.BrowserAesCfb8.UpdateEach | port/src/main/java/dev/gaius/browser/BrowserAesCfb8.java:63-70 | successive calls on one object give the outputs and the register of the sequence of calls |
| AesCfb8Stream.Exchange | port/src/main/java/dev/gaius/browser/BrowserAesCfb8.java:44-70 | an encrypting and a decrypting object with one key and IV: the plaintext comes back however either side cuts its calls |
| AesCfb8Stream.BrowserAesCfb8.UpdateByte | port/src/main/java/dev/gaius/browser/BrowserAesCfb8.java:81-85 | one segment: mask, xor, shift of the register by the ciphertext byte |
| AesCfb8Stream.RangeCheckExact | port/src/main/java/dev/gaius/browser/BrowserAesCfb8.java:76-79 | the check accepts exactly the ranges that fit and those whose end overflows an int |
| AesCfb8Stream.RangeOverflows | port/src/main/java/dev/gaius/browser/BrowserAesCfb8.java:76-81 | a call on 100 bytes that the check accepts and that handles 99 bytes before it faults |
| Cfb8.EncryptIsCfb | port/src/main/java/dev/gaius/browser/BrowserAesCfb8.java:80-86 | encryption satisfies the CFB equations of NIST SP 800-38A section 6.3 with s = 8 |
| Cfb8.CfbUnique | port/src/main/java/dev/gaius/browser/BrowserAesCfb8.java:80-86 | those equations have one solution |
| Cfb8.DecryptEncrypt | port/src/main/java/dev/gaius/browser/BrowserAesCfb8.java:80-86 | decryption undoes encryption and leaves the same register |
| Cfb8.CallsAreOneCall | port/src/main/java/dev/gaius/browser/BrowserAesCfb8.java:63-88 | any sequence of calls is one call on the whole input |
| Cfb8.RoundTrip | port/src/main/java/dev/gaius/browser/BrowserAesCfb8.java:63-88 | however both sides cut their data into calls, the plaintext comes back and the registers end equal |
| Cfb8.RunIsOutput | port/src/main/java/dev/gaius/browser/BrowserAesCfb8.java:80-86 | within one array the same bytes come out when the write position is not ahead of the read position |
| Cfb8.SharedExactly | port/src/main/java/dev/gaius/browser/BrowserAesCfb8.java:80-86 | for every mask, mode, register, buffer length and range: in place the loop transforms the original bytes of every buffer if and only if it writes at or behind the read position or past the whole range |
| PulsePaths.PathSearch.EveryPathHitsPulse | port/scripts/fixtures/GaiusChunkLayerBytecodeVerifier.java:172-191 | terminates on every code; true exactly on the least set of instructions from which every path meets a pulse; every memo entry right whatever was active |
| PulsePaths.PathSearch.AllSuccessorsHit | port/scripts/fixtures/GaiusChunkLayerBytecodeVerifier.java:180-187 | the loop over successors, with its early exit and the empty case |
| PulsePaths.EscapesExactly | port/scripts/fixtures/GaiusChunkLayerBytecodeVerifier.java:172-191 | an instruction is in the least set exactly when no pulse-free path from it ends or closes a cycle |
| PulsePaths.SuccessorsFollow | port/scripts/fixtures/GaiusChunkLayerBytecodeVerifier.java:114-135 | the successor list holds exactly the instructions control can go to next: a conditional jump to its target and the next instruction, goto and jsr to the target, a switch to its default and every label, an exit nowhere, anything else to the next, each skipping labels, lines and frames |
| PulsePaths.ListSuccessors | port/scripts/fixtures/GaiusChunkLayerBytecodeVerifier.java:114-135 | the loop builds the successor list |
| LinkModel.CandidatesMapBack | port/scripts/link-gap/LinkGapScanner.java:321-348 | a candidate name maps back to its JDK name exactly when it is a threeten name or the JDK name does not end in a slash |
| LinkModel.MappedIsCandidate | port/scripts/link-gap/LinkGapScanner.java:321-348 | every other name is kept, and a name that is mapped is a candidate for the name it is mapped to |
| LinkModel.CandidatesOf | port/scripts/link-gap/LinkGapScanner.java:321-332 | the candidates of java/p/X are org/threeten/bp/ names for java/time first, then org/teavm/classlib/java/p/TX |
| LinkModel.ReadOrder | port/scripts/link-gap/LinkGapScanner.java:199-227 | the first candidate that any root has decides, then the first root that has it, subjects before class path before library; TeaVM takes no JDK package under its own name and nothing else from the library |
| LinkModel.LoadIsRead | port/scripts/link-gap/LinkGapScanner.java:191-236 | a loaded class is what was read under the name asked for; array names load Object, and only TeaVM's Object loses its superclass |
| ClassHierarchy.PlainFinds | port/scripts/link-gap/LinkGapScanner.java:294-312 | where nothing above the class forms a cycle the plain superinterface search finds a method exactly when some superinterface offers one |
| ClassHierarchy.SearchFinds | port/scripts/link-gap/LinkGapScanner.java:294-312 | where the superclass chains above the class end, cycles of interfaces included, the search with one shared visited set finds a method exactly when some superinterface offers one |
| ClassHierarchy.SearchIsPlain | port/scripts/link-gap/LinkGapScanner.java:294-312 | where nothing above the class forms a cycle the visited set never changes which member is found |
| ClassHierarchy.FieldFinds | port/scripts/link-gap/LinkGapScanner.java:257-268 | field lookup (JVMS 5.4.3.2) finds a field exactly when some supertype declares it |
| LookupOrder.FieldIsFirst | port/scripts/link-gap/LinkGapScanner.java:257-268 | the field found is the one at the first way up in lexicographic order (interfaces as listed, then superclass) that ends at a declaring class |
| LookupOrder.SearchIsFirst | port/scripts/link-gap/LinkGapScanner.java:294-312 | likewise the superinterface method found is the one at the first way up that ends at an interface declaring it neither private nor static |
| LookupOrder.FirstUnique | port/scripts/link-gap/LinkGapScanner.java:257-312 | these conditions fix the answer |
| LookupOrder.ClassMethodIsNearest | port/scripts/link-gap/LinkGapScanner.java:270-278 | class method lookup (JVMS 5.4.3.3): the nearest class of the superclass chain that declares the method, or is MethodHandle or VarHandle with a native varargs method of the name, decides; a superinterface only when none does; nothing exactly when neither exists |
| LookupOrder.ClassMethodIsFirst | port/scripts/link-gap/LinkGapScanner.java:270-278 | and then it is the first superinterface method |
| LookupOrder.InterfaceMethodOrder | port/scripts/link-gap/LinkGapScanner.java:280-292 | interface method lookup (JVMS 5.4.3.4): the interface's own method, or else a public instance method of Object, or else one of a superinterface; nothing exactly when there is none of these |
| LookupOrder.InterfaceMethodIsFirst | port/scripts/link-gap/LinkGapScanner.java:280-292 | and then it is the first superinterface method |
| LinkResolver.Resolver.Info | port/scripts/link-gap/LinkGapScanner.java:191-236 | the two caches never change an answer |
| LinkResolver.Resolver.MissingSupertype | port/scripts/link-gap/LinkGapScanner.java:239-255 | null exactly when every transitive supertype loads; otherwise the name of one that does not |
| LinkResolver.Resolver.FindField | port/scripts/link-gap/LinkGapScanner.java:257-268 | equals the plain field lookup |
| LinkResolver.Resolver.FindClassMethod | port/scripts/link-gap/LinkGapScanner.java:270-278 | equals the class method lookup; interfaces may form cycles |
| LinkResolver.Resolver.FindInterfaceMethod | port/scripts/link-gap/LinkGapScanner.java:280-292 | equals the interface method lookup; interfaces may form cycles |
| LinkResolver.Resolver.FindSuperinterfaceMethod | port/scripts/link-gap/LinkGapScanner.java:294-312 | ends wherever the superclass chains above the owner end, with the member and the visited set of the search |
| LinkResolver.Resolver.SearchInterfaces | port/scripts/link-gap/LinkGapScanner.java:298-309 | the inner loop gives the member and the visited set of the search over the direct interfaces |
| BitFields.MaskedUpdate | port/scripts/worldgen-seed-parity/shims/dev/gaius/browser/BrowserBitStorage.java:25 | clearing with the inverted mask and or-ing the value replaces exactly that field |
| BitFields.OtherField | port/scripts/worldgen-seed-parity/shims/dev/gaius/browser/BrowserBitStorage.java:25 | a field beside it keeps its value |
| BitStorage.Get | port/scripts/worldgen-seed-parity/shims/dev/gaius/browser/BrowserBitStorage.java:12-17 | for all int arguments: division by zero, index fault, or the field at the wrapped shift, with the sign repeated above its long, cut to an int |
| BitStorage.GetAndSet | port/scripts/worldgen-seed-parity/shims/dev/gaius/browser/BrowserBitStorage.java:19-27 | for all int arguments: answers as get does and replaces exactly that field, cut off at the top of its long, by the low digits of the value |
| BitStorage.LayoutSlots | port/scripts/worldgen-seed-parity/shims/dev/gaius/browser/BrowserBitStorage.java:12-27 | for slot numbers in the storage layout get reads the slot, getAndSet replaces it by the truncated value and leaves every other slot alone, and both fault past the end |
| BitStorage.ReadFits | port/scripts/worldgen-seed-parity/shims/dev/gaius/browser/BrowserBitStorage.java:12-17 | where the values of a long fit into it, a slot number reads its slot, a small negative one a field counted from the top of the first long, any other faults |
| PackedStorage.BitUnpacker.Unpack | port/wasm/hotpath/gaius_hotpath.c:299-335 | accepts exactly the stated sizes and layouts and writes slot i to output i for every i, tail cell included, and nothing else |
| WasmBitUnpacker.WasmModule.Unpack | port/scripts/generate-wasm-hotpath.py:369-458 | the emitted unpacker meets the contract of the C version over one linear memory and writes nothing outside its output elements |
| IndexShift.AdditionsAgree | port/scripts/generate-wasm-hotpath.py:185-194 | the wrapping 32-bit addition with a comparison is the 64-bit sum with a range check, for every index and base down to -2^31 |
| IndexShift.NoTruncation | port/wasm/hotpath/gaius_hotpath.c:228-252 | the chosen output type holds every shifted index |
| IndexShift.NarrowestType | port/wasm/hotpath/gaius_hotpath.c:228-233 | the output type is the narrowest one no narrower than the input's that holds the greatest index |
| IndexShift.MinMaxAttained | port/wasm/hotpath/gaius_hotpath.c:211-226 | the tracked extremes are the least and greatest shifted index |
| IndexShift.CModule.ShiftIndices | port/wasm/hotpath/gaius_hotpath.c:203-259 | accepts exactly valid calls; on success type, bytes, extremes and output elements; on failure nothing but scratch changes |
| IndexShift.WasmModule.ShiftIndices | port/scripts/generate-wasm-hotpath.py:146-271 | the same contract over one linear memory |
| IndexShift.SameInput | port/scripts/generate-wasm-hotpath.py:167-183 | equal input bytes give both versions the same acceptance and the same shifted values |
| IndexShift.SameOutput | port/scripts/generate-wasm-hotpath.py:227-257 | equal shifted values and type give both versions the same output bytes |
| Repack.CModule.RepackInterleaved | port/wasm/hotpath/gaius_hotpath.c:262-296 | returns 1 exactly when the limits hold and every layout fits at the last vertex; the output holds the copies in order; on failure the copies before the first misfit stay |
| Repack.WasmModule.RepackInterleaved | port/scripts/generate-wasm-hotpath.py:274-366 | the same contract over one linear memory, and nothing outside the output region changes |
| Repack.LastCopyWins | port/wasm/hotpath/gaius_hotpath.c:275-292 | a covered byte holds the value of the last (vertex, layout) copy over it |
| Repack.UncoveredKept | port/wasm/hotpath/gaius_hotpath.c:275-292 | an uncovered byte keeps its value |
| Repack.LastVertexDecides | port/wasm/hotpath/gaius_hotpath.c:278-286 | checking every copy is checking the copies of the last vertex |
| Repack.StopsAgree | port/wasm/hotpath/gaius_hotpath.c:278-286 | two failing calls on the same data stop at the same copy with the same output |
| Repack.NoOverflow | port/wasm/hotpath/gaius_hotpath.c:281-286 | no 64-bit sum wraps for any 32-bit operands |
| Repack.DivisionTest | port/scripts/generate-wasm-hotpath.py:283-292 | the Wasm test by division agrees with the 64-bit product test |
| Repack.CModule.CopyBytes | port/wasm/hotpath/gaius_hotpath.c:159-200 | copies exactly the given bytes for every count |
| Leb128.Uleb | port/scripts/generate-wasm-hotpath.py:41-50 | every natural number reads back, from the shortest encoding |
| Leb128.Sleb | port/scripts/generate-wasm-hotpath.py:53-62 | every integer reads back, from the shortest encoding |
| Leb128.UnsignedShortest | port/scripts/generate-wasm-hotpath.py:41-50 | no shorter bytes read as the same number |
| Leb128.SignedShortest | port/scripts/generate-wasm-hotpath.py:53-62 | the same for signed numbers |
| Leb128.PrefixFree | port/scripts/generate-wasm-hotpath.py:41-62 | nothing that reads as a number is a proper prefix of another that does |
| Leb128.I32Const | port/scripts/generate-wasm-hotpath.py:88-91 | a 32-bit pattern is emitted as its signed value in at most five operand bytes |
| NearestFour.NearestFourOfAll | port/scripts/worldgen-seed-parity/shims/dev/gaius/browser/BrowserAquifer.java:21-71 | for any list of at least four candidates the slots end as the first four of its sorted permutation, later-scanned first among equals |
| NearestFour.OrderedUnique | port/scripts/worldgen-seed-parity/shims/dev/gaius/browser/BrowserAquifer.java:44-70 | the sorted permutation is unique |
| NearestFour.Nearest.Offer | port/scripts/worldgen-seed-parity/shims/dev/gaius/browser/BrowserAquifer.java:44-70 | the if-chain over eight variables is an insertion into the sorted slots |
| Aquifer.DecodingsAgree | port/src/main/java/dev/gaius/browser/BrowserAquifer.java:76-83 | BigInt shifts with asIntN decode every long as Java's shifts do, into two's complement fields that lose nothing |
| Aquifer.DistancesAgree | port/src/main/java/dev/gaius/browser/BrowserAquifer.java:87-91 | wrapping once and wrapping after each addition give the same distance |
| Aquifer.ScanResult | port/scripts/worldgen-seed-parity/shims/dev/gaius/browser/BrowserAquifer.java:29-83 | a scan that gets through returns the nearest four; any other stops at the first index that is outside or unfilled |
| Aquifer.CachedAgrees | port/src/main/java/dev/gaius/browser/BrowserAquifer.java:24-127 | with a sound cache both scans agree if and only if every index lies inside the array wherever all earlier ones meet filled slots |
| Aquifer.OutsideExactly | port/scripts/worldgen-seed-parity/shims/dev/gaius/browser/BrowserAquifer.java:29-41 | the plain scan faults if and only if some index leaves the array before an unfilled slot ends the scan |
| Aquifer.EmptyDiffers | port/src/main/java/dev/gaius/browser/BrowserAquifer.java:67-91 | every call over an empty array makes the two differ |
| Aquifer.StaysSound | port/src/main/java/dev/gaius/browser/BrowserAquifer.java:73-83 | a call keeps the cache sound, also when it returns false part-way |
| Aquifer.RunsAgree | port/src/main/java/dev/gaius/browser/BrowserAquifer.java:29-83 | over any run whose changes only fill unfilled slots the cached answers that equal the plain ones are exactly those of calls that stay inside the array |
| Aquifer.NewCacheAgrees | port/src/main/java/dev/gaius/browser/BrowserAquifer.java:29-83 | the same from a new cache |
| Aquifer.StaleCache | port/src/main/java/dev/gaius/browser/BrowserAquifer.java:76-86 | a whole scan over such a stale entry: after a change between two filled values at different distances the cached answer differs |
| AquiferGrid.Start | port/scripts/worldgen-seed-parity/shims/dev/gaius/browser/BrowserAquifer.java:18-20 | every block has exactly one cell to start from, that of the point five blocks back in x and z and one up in y, in cells of 16 by 12 by 16 |
| AquiferGrid.ScansAround | port/scripts/worldgen-seed-parity/shims/dev/gaius/browser/BrowserAquifer.java:18-36 | for every call, the index scanned at each place is the row-major number, wrapped to 32 bits, of one of the two by three by two cells around the block, x slowest and z fastest |
| AquiferGrid.ScansEachOnce | port/scripts/worldgen-seed-parity/shims/dev/gaius/browser/BrowserAquifer.java:18-36 | where these cells lie in the grid nothing wraps: the twelve slots are exactly theirs and distinct |
| AquiferGrid.ReadyExactly | port/scripts/worldgen-seed-parity/shims/dev/gaius/browser/BrowserAquifer.java:37-40 | inside the grid the answer is not ready exactly when one of the twelve cells is unfilled |
| AquiferGrid.NearestInGrid | port/scripts/worldgen-seed-parity/shims/dev/gaius/browser/BrowserAquifer.java:18-83 | inside the grid, over filled cells, the answer is the first four of the twelve centers sorted by distance, the later-scanned first among equals |
| AquiferGrid.DistanceIsSquared | port/scripts/worldgen-seed-parity/shims/dev/gaius/browser/BrowserAquifer.java:44-47 | the 32-bit distance is the squared distance wrapped once, for every center and block |
| AquiferGrid.GridAgrees | port/src/main/java/dev/gaius/browser/BrowserAquifer.java:46-67 | inside the grid the plain and the cached scan agree for every sound cache |
| StaleEntries.SeenRightExactly | port/src/main/java/dev/gaius/browser/BrowserAquifer.java:73-91 | one entry with any center at all: every call sees the slot as the plain scan does if and only if the entry is not ready, the slot is unfilled, or the centers differ by multiples of 2^31 |
| StaleEntries.EntryExactly | port/src/main/java/dev/gaius/browser/BrowserAquifer.java:73-91 | one entry that was decoded from some value: the same if and only if it is not ready, the slot is unfilled, or it is the center of the slot |
| StaleEntries.StaysDecoded | port/src/main/java/dev/gaius/browser/BrowserAquifer.java:73-83 | calls leave only decoded entries in the cache, whatever the array holds meanwhile |
| AquiferScan.JvmAquifer.SelectNearest | port/scripts/worldgen-seed-parity/shims/dev/gaius/browser/BrowserAquifer.java:12-85 | the nested loops compute the plain answer and write it to the output only on success |
| AquiferScan.BrowserAquifer.SelectNearest | port/src/main/java/dev/gaius/browser/BrowserAquifer.java:24-127 | the cached loops compute the cached answer, leave the cache as stated and touch no other cache |
| Publish.PublishPortablePair | port/scripts/build-portable-html.py:162-218 | for every pattern of failures: where the try ends is decided by the failures alone; an exception is raised exactly when the try ends with one or the cleanup fails; when nothing raises after the try the files are exactly the outcome (both new, or as before but for an interrupted replacement or a leaked backup file); a try that gets through leaves both new whatever the cleanup does; the commit rule then holds if and only if the replacement of the manifest was not interrupted or one of the two contents was there before; one failing operation never spoils the rollback; at every point, rollbacks that fail included, a changed manifest stands beside the new HTML unless the replacement of the manifest was interrupted |
| Publish.CommitRuleExactly | port/scripts/build-portable-html.py:187-218 | for every pattern of failures, the outcome meets the commit rule if and only if the replacement of the manifest was not interrupted, or the manifest had that content before, or the HTML had |
| PublishPlan.CutExactly | port/scripts/build-portable-html.py:176-191 | after preparations that work, the replacement of the manifest is cut off if and only if the two operations before it work and it is interrupted itself, that of the HTML if and only if it is interrupted |
| Publish.InterruptedRun | port/scripts/build-portable-html.py:183-206 | for all contents that differ: with both files there and an interrupt of the nineteenth operation as the only failure, the run ends with the new manifest beside the old HTML |
| Publish.PrepareText | port/scripts/build-portable-html.py:99-122 | a complete temporary file, or none when the removal works |
| Publish.BackupPath | port/scripts/build-portable-html.py:125-148 | a second name with the old contents, or none when the removal works; an empty file is left behind exactly when closing or removing the file made by mkstemp raises |
| Publish.Rollback | port/scripts/build-portable-html.py:192-206 | manifest before HTML, both as before when no operation raises, the commit rule throughout |
| Publish.Cleanup | port/scripts/build-portable-html.py:207-218 | raises exactly when an operation does, and otherwise removes the remaining temporary and backup files and neither published file |
| Marker.ContainsMarker | port/scripts/build-portable-html.py:409-416 | for every division into non-empty chunks the answer is whether the marker occurs in the file, but for an empty marker in an empty file |
| VarInt.RoundTrip | port/web/smoke/singleplayer-worker-smoke.js:740-768 | every 32-bit integer decodes from its encoding, whatever follows, in at most five bytes |
| VarInt.EncodedBytes | port/web/smoke/singleplayer-worker-smoke.js:740-752 | byte k of an encoding holds bits 7k to 7k + 6 and is marked unless it is the last; there are only as many bytes as the number needs |
| VarInt.DecodesExactly | port/web/smoke/singleplayer-worker-smoke.js:754-768 | a value comes from the bytes up to the first unmarked one of the first five, low groups first; without one, more bytes are needed or five marked ones are too many |
| VarInt.TruncatedNeverDecodes | port/web/smoke/singleplayer-worker-smoke.js:754-768 | no proper prefix of an encoding decodes to a value |
| VarInt.DecodePrefix | port/web/smoke/singleplayer-worker-smoke.js:754-768 | a decoded value or a rejection never changes when more bytes arrive |
| VarInt.EncodeVarInt | port/web/smoke/singleplayer-worker-smoke.js:740-752 | the loop writes the groups of the unsigned value |
| VarInt.DecodeVarInt | port/web/smoke/singleplayer-worker-smoke.js:754-768 | undefined, an exception or the signed value with its length |
| Framing.DrainSplit | port/web/smoke/singleplayer-worker-smoke.js:456-510 | draining early and going on with what is left is draining late, as long as no length in the first part points back past the start of its buffer |
| Framing.ChunksDoNotMatter | port/web/smoke/singleplayer-worker-smoke.js:436-510 | frames, rest and how draining ends are those of the whole stream, however it is cut, unless a length that points back past the start of its buffer has more bytes behind it and in the buffer |
| StreamCuts.CutsMatterExactly | port/web/smoke/singleplayer-worker-smoke.js:436-510 | every way to cut a stream has the outcome of the whole stream if and only if that is so |
| Framing.DrainCutWire | port/web/smoke/singleplayer-worker-smoke.js:490-510 | of a stream cut anywhere, the whole frames come out in order and a proper prefix of the next is kept |
| Framing.BodyRoundTrip | port/web/smoke/singleplayer-worker-smoke.js:512-529 | a packet that can be encoded parses back, with and without compression in force |
| Packets.InflatesExactly | port/web/smoke/singleplayer-worker-smoke.js:512-528 | behind a data length other than 0 a packet is parsed exactly when the inflated bytes have that length and hold its id and payload |
| Packets.CompressedRoundTrip | port/web/smoke/singleplayer-worker-smoke.js:512-529 | a compressed packet comes back, for any compressor that the inflater undoes on it |
| Packets.AfterExactly | port/web/smoke/singleplayer-worker-smoke.js:530-555 | during login message 0, a bad message 2 and a bad message 3 end it, 3 sets the threshold and 2 finishes; no other message changes anything |
| Packets.ThresholdAccepted | port/web/smoke/singleplayer-worker-smoke.js:533-539 | message 3 with an encoded threshold of 0 or more is accepted and turns compression on |
| Packets.BodyBytes | port/web/smoke/singleplayer-worker-smoke.js:705-716 | in a list of messages each is plain while no threshold is set, and stands behind a zero byte once a message 3 of the login has set one |
| Framing.EndToEnd | port/web/smoke/singleplayer-worker-smoke.js:436-545 | a list of messages that may turn compression on, encoded, framed and cut into any chunks, is processed as the same list |
| Framing.StallsExactly | port/web/smoke/singleplayer-worker-smoke.js:497-503 | on a negative length the source's loop keeps the buffer exactly for -5 and for lengths that reach past the buffer |
| Framing.NegativeFrames | port/web/smoke/singleplayer-worker-smoke.js:497-503 | what frame and what rest a negative length gives, with ends before the buffer counted from its end |
| Framing.CutExactly | port/web/smoke/singleplayer-worker-smoke.js:456-510 | after a five-byte length a cut never matters, whatever follows, if and only if the frame does not end before the start of the buffer |
| Framing.FrameReader.DrainFrames | port/web/smoke/singleplayer-worker-smoke.js:490-510 | hands over the frames at the front of the buffer and keeps the rest, for negative lengths as slice cuts them, up to the point where the source goes round for ever |
| Framing.FrameReader.OnMessages | port/web/smoke/singleplayer-worker-smoke.js:436-458 | any sequence of messages is handled one after the other, and with the outcome of the whole stream under that condition |

## Assumptions

- Lease: the gap from a tab's read to its write and the age a living tab's record can reach are parameters; the second is at
  least 3080 ms, since a holder settles for 80 ms and rewrites its record every 3000 ms. Ids are fresh.
- Pump: the thread starter throws or calls back exactly once; one stats object.
- Publication: the two paths differ (the caller checks that, port/scripts/build-portable-html.py:1114-1116), mkstemp settles
  on a name that is not taken and never on a name of the two files, and no other process touches the directory.
- Link scanner: method lookup assumes that the superclass chains above the owner end, given as a rank on its supertypes; on a
  cyclic chain the source's loops do not end. Field lookup keeps no visited set, so it assumes that nothing above the owner
  forms a cycle.
- A sender's frames are shorter than 2^31 bytes.

## Left out

- RuntimeLease: the Web Locks branch, `allowMultipleTabs` and the catch-all that returns true are not modelled; they rest on the browser or bypass the protocol on purpose.
- RuntimeLease.ExclusiveExactly: assumes that a record may become at least 3080 ms old, because a holder's first heartbeat comes no earlier.
- ServerPump: the error text and a missing or replaced stats object are not modelled; a missing `setTimeout` makes the retry timer a microtask, which fires the same event.
- AES words are unsigned 32-bit patterns, and an `or` of disjoint byte fields is written as their sum; `feedbackForTesting` and `getOutputSize` are omitted.
- PulsePaths: exception-handler edges are no successors in the source either; the callers of the search are omitted.
- LinkResolver: class file parsing, archives, the running JDK and `teavmJdkDescriptor` are not modelled; a root is a finite map from names to classes.
- LinkResolver.Resolver.FindSuperinterfaceMethod: assumes that the superclass chains above the owner end, as do FindClassMethod and FindInterfaceMethod, because on a cyclic chain the source does not return unless it finds the member first.
- LinkResolver.Resolver.FindField: assumes that nothing above the owner forms a cycle, because the source recurses without a visited set and does not return on a cycle unless it finds the field first.
- LinkResolver: the source picks the first superinterface method in search order, not the maximally specific one of JVMS 5.4.3.3; the model follows the source.
- BitStorage: longs are unsigned patterns; the arithmetic shift is written out on them. The JavaScript body with two 32-bit words is not modelled.
- IndexShift and Repack: the module's section and opcode encoding is not modelled beyond the LEB128 operands.
- AquiferScan: the unwrapping of TeaVM array objects and the weak references of the cache map are not modelled; typed-array flags are booleans.
- Publish.PublishPortablePair: says nothing about the files other than the commit rule when the rollback or the cleanup of a publication that failed raises as well, because the source then stops wherever it is.
- Publish: fsync durability, file modes and hashing are not modelled; interrupts are modelled only right after a replacement, and at any other operation count as its failure.
- Framing.FrameReader.DrainFrames: where a length gives the buffer back unchanged the source's loop never ends, queueing the same frame again and again; the model leaves the loop there and takes no further message.
- Framing: zlib inflation is a parameter; `send`, `flushSends` and what processFrame does after a packet is parsed in later phases are not modelled, apart from login and compression.
- The floating-point helpers, boot art, launcher pages, relay, static server, build scripts and quick-check modules are not modelled.
