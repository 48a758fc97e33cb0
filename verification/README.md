# Verified model of the bcmdhd driver kernel

A Dafny model of the self-contained algorithms and state machines of the bcmdhd Wi-Fi driver, with proofs of what
they promise. `dafny verify dfyconfig.toml` checks the whole project.

Machine words are natural numbers below a power of two; `Bits.dfy` defines the C operators on them bit by bit, and
every place where the driver's widths matter (wrap-around, narrowing, carries) is written out. Buffers the driver
changes in place are arrays, its records are classes, and each method is proved against a function or predicate on
values about which the main results are then stated for all inputs and all runs. Pointers into a buffer or a record
array are offsets or indices.

| file | what it models |
|---|---|
| `Bits.dfy`, `Wrappers.dfy` | machine words, optional values |
| `IdMap.dfy`, `IdAllocator.dfy` | the two-level bitmap id allocator |
| `ReciprocalDivision.dfy`, `SquareRoot.dfy` | 64-bit division by a reciprocal, digit-by-digit square root |
| `BitField.dfy`, `BitRange.dfy` | bit fields across octets, circular bit ranges by octet and by word |
| `Checksum.dfy` | the Internet checksum in both byte orders |
| `Nvram.dfy` | the in-place NVRAM text compactor |
| `SequenceLog.dfy` | the run-length log of sequence numbers |
| `ObjectTracer.dfy` | the tracer's record array on two circular doubly linked lists |
| `TlvSearch.dfy`, `Xtlv.dfy` | element search with an advancing cursor, the xtlv packer and unpacker |
| `Radiotap.dfy` | the radiotap field parser with a saved position |
| `PacketChain.dfy` | cutting a packet chain into CMD53 commands |
| `BackplaneWindow.dfy` | the cached backplane address window |
| `SdioHost.dfy`, `HostInterleavings.dfy` | request lock, interrupt mask and retuning, under every interleaving |

Where the code and the text around it differ, or a promise has an edge, the model follows the code:

- `div_1K` and `div_1M` are not exact for every 64-bit dividend. `Div1KResult` and `Div1MResult` give the exact
  condition, `Div1KExactBelow` and `Div1MExactBelow` the safe ranges (above 2^60 and 2^63), and `Div1KOffByOne` and
  `Div1MOffByOne` a wrong quotient each.
- The comment above `process_nvram_vars` promises two closing NULs. The code does not always write them:
  `ClosingNuls` says exactly when, by the number of characters and lines kept, `ClosingNulsOfPlainText` does so for
  texts without NULs, and `NoClosingNul` is a text that gets none.
- `bcm_mwbmap_init` admits 65536 items, but `total` is 16 bits wide. Such a map only drains: `FullMapDrains`.
- `setbits` never masks its value. `OutsideKeptExactly` says when the excess bits change something outside the field.
- Beyond `maxbit` the wrapped case of the bit-range routines calls itself with its own arguments for ever;
  `TerminatesExactly` gives the calls that return, which are those `MarkRange` accepts.
- `sbwad` uses 0 both for "window 0" and for "unknown". `SetWindowReaches` and `AccessReaches` say exactly when a
  transfer reaches its address, and `ZeroWindowMiss` is a run in which one does not.
- The xtlv packer never writes big-endian fields although the readers accept them. `FrontReads` says, for every
  element and every mix of options, exactly when the readers return what was packed. A big-endian 16-bit length
  behind an 8-bit identifier is read one byte past the header, and past the buffer if the header ends there; that
  byte of memory is a parameter of the model (`ReadsPastHeader`).
- `bcm_object_trace_upd` can make one object active twice: `DuplicateReached` is a run in which it does, and
  `RunDistinctExactly` tells the runs in which no object ever is.
- A chain that ends in an empty packet can yield a CMD53 command of zero blocks. `RequestPacketChain` says exactly
  when and how many commands there are; `EmptyPacket` is such a chain.
- The interrupt handler, the timer and the tasklet that record retune requests read the tuning and the data state
  and write later, with nothing that keeps other processors out. `EdgesExactly` says exactly which schedules keep to
  the intended edges of the tuning state. A request can be lost: `RunLosesExactly` says exactly where a schedule loses
  one, namely at the end of a tuning during which a recorder that had read IDLE wrote, and `RequestLost` is such a
  schedule. The lock and mask results hold on all schedules.

## Model

| member | source | states |
|---|---|---|
| IdMap.RunRefines | src/bcmutils.c:1694-2080 | after any run of legal calls from initialisation the first-level bits, the per-word counts and the total count agree, the count is the number of free ids, and the free ids are those of an allocator keeping a plain set and handing out its least element |
| IdMap.StepRefines | src/bcmutils.c:1781-1980 | one alloc, force or free keeps the three views consistent and is the set operation on the free ids |
| IdMap.TakeKeeps | src/bcmutils.c:1818-1857 | taking a free id keeps bitmap, counts and first level in agreement |
| IdMap.ReleaseKeeps | src/bcmutils.c:1922-1981 | returning an id in use does too |
| IdMap.InitConsistent | src/bcmutils.c:1720-1759 | the initial map is consistent and exactly the ids below the item count are free, for every count up to 65536 |
| IdMap.FullMapDrains | src/bcmutils.c:1694-1981 | with 65536 items `total` is 0: no id ever passes the assertions of force and free, and after k calls exactly the first k ids are gone |
| IdAllocator.SearchPicks | src/bcmutils.c:1788-1849 | the first non-empty first-level word leads to a free id |
| IdAllocator.SearchIsLeast | src/bcmutils.c:1788-1849 | no smaller id is free |
| IdAllocator.SearchFails | src/bcmutils.c:1861-1863 | with an empty first level nothing is free and the free count is 0 |
| IdAllocator.AllocIsStep | src/bcmutils.c:1781-1864 | what alloc does is the allocation step of the run model |
| IdAllocator.NegativeAnd | src/bcmutils.c:1798-1801 | a word ANDed with its two's complement keeps exactly its lowest set bit |
| IdAllocator.CountLeadingZeros | src/include/bcmutils.h:1077-1085 | the shift loop counts the leading zeros of a 32-bit word |
| IdAllocator.Mwbmap.constructor | src/bcmutils.c:1694-1763 | initialisation builds the initial map, for every count the assertion admits |
| IdAllocator.Mwbmap.Alloc | src/bcmutils.c:1781-1864 | returns the smallest free id and marks only it used; the invalid index only when nothing is free, changing nothing |
| IdAllocator.Mwbmap.Force | src/bcmutils.c:1868-1919 | marks exactly the given free id used at both levels |
| IdAllocator.Mwbmap.Free | src/bcmutils.c:1922-1981 | marks exactly the given id free at both levels |
| IdAllocator.Mwbmap.Audit | src/bcmutils.c:2049-2080 | on any map of the right shape, true exactly if every marked word has free ids and their right count and the counts add up to the free count |
| IdAllocator.AuditPasses | src/bcmutils.c:2049-2080 | every assertion of the audit holds in a consistent map |
| ReciprocalDivision.Div1KResult | src/bcmutils.c:6411-6451 | for every 64-bit dividend the result is the quotient by 1000, or one more exactly when the reciprocal's overshoot reaches the next multiple |
| ReciprocalDivision.Div1MResult | src/bcmutils.c:6460-6500 | the same for 1000000 |
| ReciprocalDivision.Div1KExactBelow | src/bcmutils.c:6411-6451 | exact for every dividend below a bound above 2^60 |
| ReciprocalDivision.Div1MExactBelow | src/bcmutils.c:6460-6500 | exact for every dividend below a bound above 2^63 |
| ReciprocalDivision.NoWrap1K | src/bcmutils.c:6429-6448 | with the 65-bit carry handled as in the code, nothing is lost: the result is one shifted product |
| ReciprocalDivision.NoWrap1M | src/bcmutils.c:6478-6497 | the same for 1000000 |
| ReciprocalDivision.Div1KOffByOne | src/bcmutils.c:6411-6451 | a dividend whose quotient comes out one too large |
| ReciprocalDivision.Div1MOffByOne | src/bcmutils.c:6460-6500 | a dividend whose quotient comes out one too large |
| SquareRoot.SqrtInt | src/bcmutils.c:5564-5583 | the result is the integer nearest to the square root, with every intermediate a 32-bit word |
| SquareRoot.NearestIsUnique | src/bcmutils.c:5564-5583 | at most one integer is nearest, so that contract fixes the result |
| SquareRoot.Halves | src/bcmutils.c:5579-5580 | nearest means within one half of the real root |
| SquareRoot.LoopStep | src/bcmutils.c:5569-5577 | one digit: the OR adds, nothing overflows, and remainder and partial root stay in step |
| BitField.SetBits | src/bcmutils.c:5595-5644 | the field takes the low bits of any 32-bit value, excess bits are OR-ed into the rest of the last octet, and every other bit is kept, for 1 to 32 bits at any offset |
| BitField.GetBits | src/bcmutils.c:5646-5694 | returns the number stored in the field |
| BitField.GetAfterSet | src/bcmutils.c:5595-5694 | reading after writing returns the low bits of the value, so a value that fits comes back whole |
| BitField.OutsideKeptExactly | src/bcmutils.c:5595-5644 | a write keeps every bit outside the field exactly when its excess bits meet only set bits; a value that fits has none |
| BitField.OtherFieldKept | src/bcmutils.c:5595-5694 | a write that spills nothing keeps every field it does not overlap |
| BitField.WriteBack | src/bcmutils.c:5595-5694 | writing back what was read changes nothing |
| BitField.WrittenUnique | src/bcmutils.c:5595-5644 | the effect of a write is determined by its arguments |
| BitRange.MarkRange | src/bcmutils.c:5157-5209 | `set_bitrange` and `clr_bitrange` change exactly the circular range, on every call that returns |
| BitRange.MarkRangeU32 | src/bcmutils.c:5217-5305 | the word versions do the same on words |
| BitRange.TerminatesExactly | src/bcmutils.c:5157-5305 | a call returns exactly when its range does not wrap or starts at or below `maxbit` |
| BitRange.WordsMatchOctets | src/bcmutils.c:5211-5305 | on the little-endian view the word version's result is the octet version's result |
| BitRange.Wrapped | src/bcmutils.c:5178-5181 | the two recursive calls of the wrapped case together mark the circle |
| BitRange.Join | src/bcmutils.c:5164-5173 | marking two adjoining ranges in either order marks their union |
| Checksum.BcmIpCksum | src/bcmutils.c:5323-5342 | the complement of the folded big-endian word sum, 32-bit wrap included |
| Checksum.Ipv4HdrCksum | src/bcmutils.c:5400-5465 | the complement of the folded host-order sum that skips the checksum field |
| Checksum.TwoFoldsSuffice | src/bcmutils.c:5435-5438 | two folds bring every 32-bit sum to its one's complement form |
| Checksum.HdrCksumIsSwapped | src/bcmutils.c:5323-5465 | the host-order header checksum is the byte swap of the big-endian one over the header with the field zeroed, for every header of 20 to 131074 bytes |
| Checksum.StoredHeaderVerifies | src/bcmutils.c:5440-5465 | a header that carries the computed checksum checks out as zero |
| Checksum.IpCksumMeans | src/bcmutils.c:5323-5342 | the checksum is the one 16-bit number that brings the buffer, read as one big-endian number, and the initial sum to a multiple of 65535, with 65535 only for all zeros |
| Nvram.ProcessNvramVars | src/bcmutils.c:5075-5123 | in place, the buffer becomes the filtered text padded with NULs, nothing beyond the length changes, and the returned length is the next multiple of 4 if that fits and otherwise the length of the text |
| Nvram.Compact | src/bcmutils.c:5090-5111 | the copying loop yields the character machine's output, reading every character before it can be overwritten |
| Nvram.ScanIsVars | src/bcmutils.c:5068-5073 | the character machine is the line-by-line filter: carriage returns, comments and empty lines go, newlines become NULs |
| Nvram.VarsArePlain | src/bcmutils.c:5068-5073 | no carriage return, newline or comment mark survives |
| Nvram.VarsAreKept | src/bcmutils.c:5068-5111 | the result consists of exactly the kept positions in order: plain characters outside comments, and the newline of each line that keeps one, as a NUL |
| Nvram.ClosingNuls | src/bcmutils.c:5068-5123 | for every text, the bytes returned end in two NULs exactly under the stated condition on the number of characters and lines kept, the space for padding and the last two kept |
| Nvram.ClosingNulsOfPlainText | src/bcmutils.c:5068-5123 | without NULs in the text: exactly if the length is padded and, if by one byte only, the last character kept is a newline |
| Nvram.NoBlankLine | src/bcmutils.c:5103-5107 | two kept positions in a row are never both newlines |
| Nvram.RunningTwice | src/bcmutils.c:5075-5123 | a second call on the returned length changes neither bytes nor length |
| Nvram.NoClosingNul | src/bcmutils.c:5068-5073 | a text that gets no closing NUL, against the comment |
| SequenceLog.Log.LogSeq | src/bcmutils.c:6259-6291 | while no slot has been reused, the log reads back as exactly the numbers logged; a number that continues the open run takes no slot and changes no entry |
| SequenceLog.LogAll | src/bcmutils.c:6237-6291 | for every sequence of 12-bit numbers the slots taken are one for each run and one more for each finished run of several numbers, and if those are fewer than 10000 the log reads back as exactly that sequence |
| SequenceLog.RunTakesOneSlot | src/bcmutils.c:6259-6291 | a run of consecutive numbers takes one slot however long it is |
| SequenceLog.ExpandConcat | src/bcmutils.c:6262-6285 | a closed log followed by more entries reads back piece by piece |
| SequenceLog.ExpandPair | src/bcmutils.c:6274-6280 | closing a run in the next slot adds that run |
| ObjectTracer.UnlinkRing | src/bcmutils.c:3369-3383 | unlinking any record of a circular list leaves the circular list of the others |
| ObjectTracer.InsertRing | src/bcmutils.c:3385-3406 | inserting at either end leaves a circular list with the record there |
| ObjectTracer.Tracer.constructor | src/bcmutils.c:3342-3357 | initially all records are on the free list in array order |
| ObjectTracer.Tracer.RmList | src/bcmutils.c:3369-3383 | removes the record, updates head and tail, and touches no other list or payload |
| ObjectTracer.Tracer.AddList | src/bcmutils.c:3385-3406 | adds the record at the chosen end and touches no other list or payload |
| ObjectTracer.Tracer.FindActive | src/bcmutils.c:3438-3452 | the backward walk ends within one lap, at the last match |
| ObjectTracer.Tracer.TraceAdd | src/bcmutils.c:3436-3490 | moves the first free record to the active tail with the object, its flag cleared and for a packet the next serial number, unless the object is active or no record is free; the two lists stay disjoint, well formed and complete, and the count is the active length |
| ObjectTracer.Tracer.TraceRemove | src/bcmutils.c:3492-3516 | moves the last active record that carries the object to the free tail, with the same invariant |
| ObjectTracer.Tracer.TraceUpd | src/bcmutils.c:3549-3576 | the last matching record carries the new object and moves to the tail, every other payload is kept, with the same invariant |
| ObjectTracer.Tracer.TraceChk | src/bcmutils.c:3578-3600 | moves the last active record with the object, and if asked the serial number, to the tail, with the same invariant |
| ObjectTracer.StepMoves | src/bcmutils.c:3436-3600 | with distinct objects a removal takes out exactly the object, an update or a search takes it out and puts the new or the same one at the end, and all others stay in order |
| ObjectTracer.RemoveTakesLast | src/bcmutils.c:3500-3506 | on any list a removal takes out one occurrence of the object and keeps all others in order |
| ObjectTracer.RunDistinct | src/bcmutils.c:3429-3546 | without updates no run traces an object twice or more objects than records |
| ObjectTracer.UpdateDistinct | src/bcmutils.c:3549-3576 | an update keeps the objects distinct exactly when the new one is not already traced under another record |
| ObjectTracer.RunDistinctExactly | src/bcmutils.c:3429-3576 | at every point of a run, updates included, the objects are distinct exactly when every update so far was to an object not traced under another record |
| ObjectTracer.DuplicateReached | src/bcmutils.c:3549-3576 | two additions and an update make one object active twice |
| TlvSearch.FindIe | src/bcmutils.c:2623-2650 | returns the first element with matching tag, OUI and type on the plain left-to-right walk that stops at the first element that does not fit, and terminates |
| TlvSearch.ParseTlvs | src/bcmutils.c:4256-4292 | returns the first element of the walk that answers to the key, extended identifiers included |
| TlvSearch.AdvanceTo | src/bcmutils.c:4156-4199 | moves to the element if it fits in the buffer and clears the buffer otherwise |
| TlvSearch.AdvancePast | src/bcmutils.c:4219-4249 | moves past the element if another one that fits follows and clears the buffer otherwise |
| TlvSearch.WalkFrom | src/bcmutils.c:4269-4289 | the walk from one of its elements meets exactly the remaining ones |
| TlvSearch.WalkMeetsAll | src/bcmutils.c:4269-4289 | the walk over a list written element by element meets every one of them, whatever follows |
| Xtlv.RoundTrip | src/bcmxtlv.c:509-572 | packing with enough space and unpacking the packed bytes succeeds, restores every payload and leaves the rest of memory alone, for every mix of options under which the readers return what was packed |
| Xtlv.UnpackPacked | src/bcmxtlv.c:534-572 | the same on values, from any descriptor on |
| Xtlv.PackFromMem | src/bcmxtlv.c:509-528 | succeeds exactly when the descriptors fit, writes their elements in order, without alignment exactly their bytes one after the other and with it padded to words with padding untouched, and writes nothing else |
| Xtlv.PackEntry | src/bcmxtlv.c:394-417 | refuses an element that does not fit and otherwise advances by its padded size, with or without data, identifiers cut to their field |
| Xtlv.PackXtlv | src/bcmxtlv.c:209-252 | writes the header, and the data if there is any, in each of the four header forms |
| Xtlv.UnpackToMem | src/bcmxtlv.c:534-572 | status, memory and length left are those of unpacking element by element, for every mix of options, malformed buffers included |
| Xtlv.UnpackUnlisted | src/bcmxtlv.c:546-569 | on any buffer an element of an unlisted type is skipped; bytes left over that are no element give an error |
| Xtlv.UnpackListed | src/bcmxtlv.c:546-569 | on any buffer an element of a listed type is stored in the first descriptor of that type, or rejected if its length is another |
| Xtlv.ValidExactly | src/bcmxtlv.c:50-80 | a buffer that starts with a header is a valid element exactly when the whole padded element is there |
| Xtlv.FrontReads | src/bcmxtlv.c:81-115 | for every element and mix of options the readers return the identifier and length packed exactly when each fits its field and survives a big-endian reading |
| Xtlv.FrontElement | src/bcmxtlv.c:81-115 | the front of the buffer is then valid and its data and its rest are those packed |
| Xtlv.ReadsPastHeader | src/bcmxtlv.c:81-101 | a big-endian 16-bit length behind an 8-bit identifier takes its low byte from after the header |
| Xtlv.BigEndianMisread | src/bcmxtlv.c:81-115 | an element whose identifier and length come back wrong |
| Radiotap.Parser.FindField | src/bcmwifi_radiotap.c:89-146 | from any saved position the answer is the layout's, and the position saved is past the field searched for or at the first field that cannot be placed |
| Radiotap.FindAll | src/bcmwifi_radiotap.c:82-146 | every answer in a sequence of searches, in any order and with repeats, is that of a freshly reset parser |
| Radiotap.PositionIsSound | src/bcmwifi_radiotap.c:115-136 | a field found lies inside the field area, aligned, after the fields before it |
| Radiotap.PositionsAreOrdered | src/bcmwifi_radiotap.c:108-140 | fields found do not overlap and come in index order |
| Radiotap.FoundExactly | src/bcmwifi_radiotap.c:108-136 | a field is found exactly when it is present, it and all present fields before it have parse information, and laid out without regard to the end they all end within the area |
| Radiotap.FullLayout | src/bcmwifi_radiotap.c:31-65 | where every field of the table ends when all with parse information are present |
| PacketChain.RequestPacketChain | src/bcmsdh_sdmmc.c:1279-1382 | on success the commands' segments concatenate to the chain's bytes in order, the number of commands is exact, and one has zero blocks exactly when the chain ends in an empty packet and its bytes fill whole requests; every command is sound, within the host's block count, request and segment sizes and 511 blocks, and all but the last are as large as those allow; each failure is one of misalignment, a full list or a bus error, with misalignment only for chains that cannot be sent and a full list never if packets and whole segments together are at most 64; an aligned chain of that kind on a working bus is sent |
| PacketChain.SendNext | src/bcmsdh_sdmmc.c:1290-1372 | one round: what is sent and what is left make up the chain, addresses advance, and the position moves forward |
| PacketChain.Gather | src/bcmsdh_sdmmc.c:1303-1341 | one scatter-gather list within segment, request and entry limits, taking the next bytes of the chain, and terminating |
| PacketChain.SendStep | src/bcmsdh_sdmmc.c:1343-1367 | a gathered list of whole blocks becomes a command within every limit |
| PacketChain.MaxReqIsLargest | src/bcmsdh_sdmmc.c:1280-1281 | the request size is the largest within the host's block count, 511 blocks and the host's request size |
| PacketChain.AddressesAdvance | src/bcmsdh_sdmmc.c:1355-1362 | the address field is the start address for a FIFO and otherwise advances by the bytes of all commands before; direction, function and FIFO bits are the caller's |
| PacketChain.ZeroBlocksExactly | src/bcmsdh_sdmmc.c:1290-1346 | the count of commands and the zero-block condition, from what the loops keep |
| PacketChain.EmptyPacket | src/bcmsdh_sdmmc.c:1290-1346 | a chain of one empty packet becomes one command of zero blocks |
| PacketChain.ArgDecodes | src/bcmsdh_sdmmc.c:1355-1360 | every field of the command argument reads back |
| PacketChain.BlockCountSurvives | src/bcmsdh_sdmmc.c:1360 | at most 511 blocks lose nothing in the 9-bit count |
| BackplaneWindow.RunReaches | src/bcmsdh.c:506-706 | over every run with arbitrary write failures the cache stays honest and every transfer outside the zero window reaches exactly its address |
| BackplaneWindow.AccessReaches | src/bcmsdh.c:539-706 | a transfer reaches its address, with exactly one exception |
| BackplaneWindow.SetWindowKeeps | src/bcmsdh.c:506-537 | a non-zero cached window is the device's window after every outcome of the three writes |
| BackplaneWindow.SetWindowReaches | src/bcmsdh.c:506-537 | exactly when a successful call leaves the device at the window asked for |
| BackplaneWindow.SetWindowExactly | src/bcmsdh.c:506-537 | a call fails exactly when it has to write and one register takes no write, and what it leaves in each case |
| BackplaneWindow.SetWindowOnce | src/bcmsdh.c:512-513 | once a call has succeeded, calls for the same window neither write nor fail |
| BackplaneWindow.HealthyRunReaches | src/bcmsdh.c:506-706 | over every run in which the registers can be written every access not refused becomes one transfer, and every transfer reaches its address, the zero window included |
| BackplaneWindow.ZeroWindowMiss | src/bcmsdh.c:506-537 | a run in which an access to the zero window goes elsewhere |
| BackplaneWindow.BytesSpellWindow | src/bcmsdh.c:514-522 | the three register bytes spell the window of the address |
| BackplaneWindow.Bcmsdh.SetSbaddrWindow | src/bcmsdh.c:506-537 | on success the cache, and the device if it was written, have the window asked for; on failure the cache is invalid; a call for the cached window does nothing unless forced |
| BackplaneWindow.Bcmsdh.ReadReg | src/bcmsdh.c:539-588 | one transfer if the window was set, `regfail` clear exactly when one was issued, the bus answered and the size is 1, 2 or 4, the word cut to the size asked for |
| BackplaneWindow.Bcmsdh.WriteReg | src/bcmsdh.c:591-624 | one transfer if the window was set, success exactly when one was issued and the bus answered, `regfail` its opposite |
| BackplaneWindow.Bcmsdh.Buffer | src/bcmsdh.c:632-706 | buffer accesses, success exactly when a transfer was issued and the bus answered, never forced and leaving `regfail` alone |
| BackplaneWindow.Bcmsdh.Write | src/bcmsdh.c:373-401 | up to three attempts at a configuration write |
| HostInterleavings.AlwaysSafe | src/bcmsdstd_linux.c:305-400 | at every point of every schedule of any number of threads and of the three recorders, each read and write its own step: lock count 0 or 1 and one owner, the client bit set exactly when enabled and the lock free, the assertion in `sdstd_devintr_on` not failed, tuning only under the lock and with no data moving |
| HostInterleavings.ClearedOnlyByTuning | src/bcmsdstd_linux.c:244-293 | a recorded retune request is cleared only by the end of a tuning, which was entered after it unless a thread was already tuning; whether that tuning worked does not matter |
| HostInterleavings.StepTuneEdge | src/bcmsdstd.c:2801-2879 | the tuning state follows its edges (START and START_AFTER_DAT the only ways out of IDLE, tuning only from a recorded request, back to IDLE only from ONGOING) exactly at the steps that are neither an overtaken write nor the end of a tuning that was written over |
| HostInterleavings.EdgesExactly | src/bcmsdstd.c:2801-2879 | every step of a schedule follows the edges exactly when no recorder in it is overtaken |
| HostInterleavings.PromptKeepsEdges | src/bcmsdstd.c:2839-2859 | on such a schedule ONGOING also means that a thread is tuning, and a request is on record only while none is |
| HostInterleavings.RunLosesExactly | src/bcmsdstd_linux.c:210-277 | a schedule that starts with no thread tuning loses a request at a position exactly when a tuning ends there during which a recorder that had read IDLE wrote |
| HostInterleavings.LosesExactly | src/bcmsdstd_linux.c:244-277 | the same for one given tuning, from its entry to its end |
| HostInterleavings.TuningStep | src/bcmsdstd_linux.c:210-224 | while a thread tunes, only such a write puts a request on record and only the end of the tuning takes it off |
| HostInterleavings.RequestLost | src/bcmsdstd_linux.c:90-107 | a schedule in which the end of a tuning clears a request recorded while it ran |
| HostInterleavings.RequestServes | src/bcmsdstd.c:1193-1221 | if a request is on record, tuning is required and enabled and START_AFTER_DAT is not replaced by a late START, then a whole word or buffer request after it does not end before a tuning does, one entered after the request was on record unless a thread was already tuning |
| HostInterleavings.AloneServes | src/bcmsdstd.c:1121-1221 | a request that runs by itself through the steps leaves lock and tuning state as the request methods promise |
| HostInterleavings.SetInterruptsWorks | src/bcmsdstd_linux.c:306-338 | in every safe state enabling interrupts takes effect at once exactly if the lock is free |
| HostInterleavings.RecordsUninterrupted | src/bcmsdstd_linux.c:90-242 | handler, timer or tasklet uninterrupted record a request from IDLE only, by the data state |
| HostInterleavings.StepKeepsLock | src/bcmsdstd.c:1916-1945 | every step keeps owner, lock count, client interrupt and interrupt mask in agreement |
| HostInterleavings.StepKeepsTune | src/bcmsdstd.c:1121-1221 | every step of every request, interrupt, timer and tasklet keeps tuning and data state tied to the owner's position |
| HostInterleavings.NoWaitForTuning | src/bcmsdstd.c:2808-2822 | the branch that waits for an ongoing tuning before the data is never taken |
| SdioHost.LockRoundTrip | src/bcmsdstd_linux.c:342-399 | taking and releasing the lock gives the whole state back, interrupt mask included |
| SdioHost.SetWhileLocked | src/bcmsdstd_linux.c:306-399 | enabling or disabling interrupts under the lock has, once it is released, the effect of doing so with the lock free |
| SdioHost.RecordAlone | src/bcmsdstd.c:2839-2859 | a recorder that nothing interrupts is never overtaken and records from IDLE only, by the data state |
| SdioHost.RecordTwice | src/bcmsdstd_linux.c:90-224 | requests by handler, timer or tasklet before a tuning ends count once |
| SdioHost.Sdioh.SdstdLock | src/bcmsdstd_linux.c:342-374 | keeps the agreement of lock, client interrupt and mask, moving only the client bit |
| SdioHost.Sdioh.SdstdUnlock | src/bcmsdstd_linux.c:377-399 | the same, and the assertion on the lock count holds |
| SdioHost.Sdioh.SdiohInterruptSet | src/bcmsdstd_linux.c:306-338 | the same, whether or not the lock is held |
| SdioHost.Sdioh.RequestWord | src/bcmsdstd.c:1193-1221 | gives lock and mask back, leaves no retune request on record while requests are served, and serves one from before and one from during the data once each |
| SdioHost.Sdioh.RequestByte | src/bcmsdstd.c:1121-1191 | gives lock and mask back, leaves a request on record exactly if a write found START or a command could not be issued with START_AFTER_DAT due, and tunes exactly for each request it takes off |

## Left out

- IdAllocator: the dongle build, which counts bits at run time instead of keeping `wd_count`, the queries `bcm_mwbmap_isfree` and `bcm_mwbmap_free_cnt`, and the debug dump.
- BitRange: bit maps of 2^32 or more bits, for which the source's unsigned loop counters would wrap.
- SequenceLog: reading the log back once a slot has been reused; the uncompressed build and its packet arrays.
- ObjectTracer: caller names, line numbers and messages, the walk over the free list in `bcm_object_trace_chk` (it only chooses a message), `bcm_object_feature_set` and `bcm_object_feature_get` (the same walk and move), and the build that merges records of the same object.
- TlvSearch: `bcm_find_vendor_ie` and the other searches built on the same walk.
- Xtlv: the callback and `bcm_xtlv_put_*` variants.
- Radiotap: `wl_rtapParseInit` and the rate decoding; the parser starts from a presence bitmap and a field area length.
- PacketChain: packets are assumed shorter than 2^31 bytes, so that the source's mixed signed and unsigned comparisons are the plain ones; the copy-mode branch and the bus calls, whose outcome is a parameter.
- BackplaneWindow: `bcmsdh_rwdata` and direct writes to the window registers, which bypass the cache; only the first address of a buffer transfer is followed.
- HostInterleavings: a recorder reads the tuning state once, where the handler's and the timer's test is written as three comparisons; the first tuning during clock set-up, the tuning iovar, direct writes to `intmask`, and the clock and power registers.
- HostInterleavings.AlwaysSafe: safety only; that a waiting thread ever gets the lock is not stated.
- SdioHost: the chunking loop of `sdioh_request_buffer`, whose locking and tuning are those of `RequestWord`.
- Register I/O, PCI, DMA, voltage and clock bring-up, channel tables, event tables, the Bloom filter and the id16 stack allocator.
