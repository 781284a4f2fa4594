# Proofs about the rasdaman array database

A Dafny 4.11 model of the parts of rasdaman in which an algorithm has to be right rather than just present, with
proofs of what these parts promise. `dafny verify dfyconfig.toml` checks everything.

| file | what it models |
|---|---|
| `Boxes.dfy` | boxes, points and the row-major numbering of cells that everything below relies on |
| `TileTransfer.dfy`, `TileAssembly.dfy` | the status-driven transfer of an MDD collection in tiles and blocks, server cursor and client loops, and the line-wise copy of tiles into the MDD |
| `TransferFaults.dfy` | the same transfer over a network that loses calls and replies, and after an aborted one |
| `AliveSignal.dfy` | the retry loop of remote calls and the interleaving of the main thread with the alarm handler |
| `PagedFile.dfy` | the memory file system of the converters, against a flat file |
| `OpDispatch.dfy` | type inference and choice of function objects for binary operations over nested structs |
| `Condense.dfy`, `CondenseStruct.dfy`, `StructLayout.dfy`, `CondenseFields.dfy` | MAX, MIN and SUM with null values, and their use on the fields of structs from the constructed accumulator on |
| `InducedCondense.dfy` | the odometer loop of the general condenser and the references of its intermediate results |
| `ComplexOps.dfy` | multiplying and dividing complex cells with null values |
| `CsvText.dfy` | writing arrays as CSV or JSON text and reading them |
| `Grib.dfy`, `GribPlane.dfy` | decoding GRIB messages into an array |
| `Gdal.dfy`, `GdalDecode.dfy` | the GDAL converter: splitting an array into bands, choosing bands, and putting them together |
| `Dem.dfy` | digital elevation models: export, import and coordinate arithmetic |
| `CommandLine.dfy`, `CommandEvents.dfy` | the command-line parser, and what a command line says apart from its state |

Code that updates state is a class or a method over arrays, proved equal to a specification function of the old
state; what the code promises is then proved about that function. Code that only decides is a function.

Where the code departs from its evident intent, the model follows the code, one lemma says exactly when the code is
right, and another gives a concrete input for which it is not:

| departure | exactly when it is right | input |
|---|---|---|
| `cell_point` multiplies the extents in 32 bits | `CodedPointIff` | `CodedPointExample` |
| a tile in several blocks that outgrows its first buffer leaves the temporary tile with a freed one | `ReceiveTile`, `GetMDDCore` | `ExpandedTileInBlocks` |
| the count of outstanding bytes survives an aborted transfer | `StaleCountIff` for a tile, `CollectionRightIffClean` for a transfer | `StaleCountExample` |
| a call whose reply is lost is made again, although the server has moved on | `DeliveredIffUndisturbed` | `LostBlockExample` |
| a retry loop that gives up throws with `rpcActive` still set | `ActiveWhenStuck` | `GaveUpExample` |
| an inferred result type does not guarantee a complete function object | `DispatchExact` | `ComplexScalarExample`, `MaxOfComplexFieldExample`, `EqualOfComplexFieldExample` |
| the result for cells that are all null depends on their order | `OrderIrrelevantIff` | `AllNullDependsOnOrder` |
| a null 0 makes the scalar forms of complex operators differ from the general ones | `ScalarMultIff`, `ScalarDivIff` | `NullZeroExample` |
| a skipped GRIB message is not counted, which loses all later ones | `NoneLostIffNoGap` | `LostMessageExample` |
| a GRIB subset is misplaced if it reaches out of a message's x/y range, and overruns the message's buffer if it has more cells | `SoundIff`, `MessageSoundIff` | `MisfitWrong`, `OverrunExample` |
| the GDAL pixel offset is a 32-bit integer | `OffsetsExactIff`, `EncodingRightIff` | `OffsetWrapExample` |
| requested GDAL band ids are appended a second time | `WantedIffAll` | any request with ids |
| the GDAL band id indexes the fields of the result type | `RightIffPlaced`, `RequestRightIff` | `ShortBufferExample`, `ShortTileExample`, `NoFieldExample` |
| a short option's attached value may be `-` or `--`, a separate one may not | `InlineValue` | `InlineSignExample` |

The element condensers inside a struct condenser have no null values, because setting them is not virtual and
reaches only the outer object; `CondenseStruct` follows that.

## Model

| member | source | states |
|---|---|---|
| Boxes.OffsetBound | raslib/minterval.cc:896-932 | the row-major number of a point of the box is below the cell count |
| Boxes.OffsetOfPointAt | raslib/minterval.cc:937-963 | every number below the cell count is the number of the point it is decoded to, and that point is in the box |
| Boxes.PointAtOffset | raslib/minterval.cc:896-963 | every point of the box is decoded from its own number: the two functions are inverse bijections, for any rank |
| Boxes.PointAtLine | raslib/minterval.cc:937-963 | consecutive numbers from the start of a last-axis line are the consecutive points of that line |
| Boxes.CellOffset | raslib/minterval.cc:896-932 | the Horner loop of `cell_offset` fails exactly outside the box and otherwise gives the row-major number |
| Boxes.CellPoint | raslib/minterval.cc:937-963 | the two loops of `cell_point`, with their 32-bit product, do what `CodedPoint` says for every box and offset: refuse it, divide by zero, or give a point |
| Boxes.CodedPointIff | raslib/minterval.cc:940-960 | in a box of fewer than 2^32 cells every offset is decoded to the point with that number; in a larger one every offset divides by zero |
| Boxes.CodedPointExample | raslib/minterval.cc:940-960 | one axis of 2^32 positions, whose first cell is not decoded |
| TileAssembly.PasteLines | clientcomm/rpcclientcomm.cc:3191-3201 | the line-wise memcpy changes the MDD memory to exactly the cells of the tile laid over what was there, every copy in bounds; it divides by zero, having copied nothing, exactly for a tile of 2^32 cells or more |
| TileAssembly.PasteCells | clientcomm/rpcclientcomm.cc:3203-3205 | the cell-by-cell loop kept in the comment computes the same memory and fails for the same tiles: the optimised copy refines it |
| TileAssembly.AssembledByte | clientcomm/rpcclientcomm.cc:3160-3208 | after all tiles, a byte is that of the last tile that covers its cell |
| TileAssembly.UncoveredIsZero | clientcomm/rpcclientcomm.cc:3172-3185 | cells no tile covers are zero |
| TileAssembly.ArrivalOrderIrrelevant | clientcomm/rpcclientcomm.cc:3022-3213 | pairwise disjoint tiles give the same MDD memory in every order of arrival |
| TileAssembly.CutAt | servercomm/servercomm2.cc:3058-3095 | the tile cut for a box holds, cell by cell in the order of the box, the array's bytes |
| TileAssembly.CutThenAssemble | clientcomm/rpcclientcomm.cc:3160-3208 | cutting an array into any set of tiles that covers its domain, overlapping or not, and assembling them gives the array back |
| TileAssembly.SingleTileShortcut | clientcomm/rpcclientcomm.cc:3160-3169 | taking over the memory of a single tile as large as the MDD gives the contents the copy would have given |
| TileTransfer.ServerComm.GetNextMDD | servercomm/servercomm2.cc:3001-3230 | status 0, 1 or 2 and the cursor for every state of the transfer collection |
| TileTransfer.ServerComm.GetNextTile | servercomm/servercomm2.cc:3689-3898 | for a cursor at a fresh or a begun tile: which bytes the block holds for any count, those from outside the tile included (`BlockRange`), and that the status (3 block left, 2 tile left, 1 MDD left, 0 done) says where the cursor is afterwards |
| TileTransfer.ServerComm.ReleaseTransferStructures | servercomm/servercomm.cc:1053-1100 | drops collection and tiles; the count of outstanding bytes survives |
| TileTransfer.ServerComm.EndTransfer | servercomm/servercomm2.cc:3901-3954 | drops collection and tiles |
| TileTransfer.StaleCountIff | servercomm/servercomm2.cc:3752-3786 | a count of outstanding bytes left over from an aborted transfer, whatever its size, does no harm to the first block of a fresh tile exactly if it is 0, the tile fits the transfer buffer, or the tile has that size |
| TileTransfer.StaleCountExample | servercomm/servercomm2.cc:3755-3772 | a fresh tile of ten bytes that starts with its last three after a count of 3, and outside of its memory after a count of 11 |
| TileTransfer.CleanIff | servercomm/servercomm2.cc:3752-3786 | the condition on count and tiles under which a transfer may start: the first tile that looks at the count is sent from its first block on |
| TileTransfer.ConcatArrayData | clientcomm/rpcclientcomm.cc:3221-3247 | appends in both branches: earlier bytes kept, level within capacity, buffer replaced exactly if it was too small and then a sixteenth larger than needed |
| TileTransfer.ReceiveBlocks | clientcomm/rpcclientcomm.cc:3094-3138 | the block loop consumes exactly the outstanding blocks of the tile, and the buffer ends as the concatenation of all of them |
| TileTransfer.ReceiveTile | clientcomm/rpcclientcomm.cc:3069-3157 | a tile in one block or many arrives as sent; the array given to the temporary tile is still the buffer exactly if the tile fits the first buffer or comes in one block |
| TileTransfer.InsertTile | clientcomm/rpcclientcomm.cc:3158-3208 | after each tile the MDD memory holds the tiles received so far over zeroes, through the shortcut or the copy; it fails exactly if the copy is taken for a tile of 2^32 cells or more |
| TileTransfer.GetMDDCore | clientcomm/rpcclientcomm.cc:2981-3219 | delivers the assembled cells exactly if every tile is usable, and then consumes exactly the tiles of the MDD and returns whether MDDs are left; otherwise it has read a freed buffer or divided by zero |
| TileTransfer.GetMDDCollection | clientcomm/rpcclientcomm.cc:2692-2783 | for every start with a clean count: one array per MDD in order, each holding its cells; success exactly for a non-empty collection in which every MDD has tiles and all are usable, otherwise the MDDs before the first that is not |
| TileTransfer.PaddingIgnored | clientcomm/rpcclientcomm.cc:3074-3076 | bytes behind a tile's cells, which compression may leave, do not reach the MDD |
| TileTransfer.ArrayDelivered | clientcomm/rpcclientcomm.cc:2692-2783 | an array held by the server in uncompressed tiles that cover its domain is what the client holds after the transfer, for every transfer buffer size, exactly if the tiles have fewer than 2^32 cells or the array is a single tile |
| TileTransfer.ExpandedTileInBlocks | clientcomm/rpcclientcomm.cc:3083-3085 | receiving a tile that is larger than its cells and comes in two blocks leaves the temporary tile with another array than the one that holds its bytes |
| TransferFaults.CallWithRetry | clientcomm/rpcclientcomm.cc:3034-3051 | the retry loop against the server: each executed attempt takes one reply of the server, whether it arrives or not, and the outcome is a reply, a refusal or giving up, as `CallServer` says |
| TransferFaults.FetchTiles | clientcomm/rpcclientcomm.cc:3022-3157 | the loops over tiles and blocks with their retry loops, over any network, collect what `Client` says from the replies the server has for the MDD |
| TransferFaults.NextReply | servercomm/servercomm2.cc:3752-3897 | the server's replies for the rest of an MDD are its next block with its status, and the replies for what is behind |
| TransferFaults.AllReceived | clientcomm/rpcclientcomm.cc:3022-3140 | a client that gets every reply has the tiles |
| TransferFaults.ClientReceives | clientcomm/rpcclientcomm.cc:3022-3140 | a client gets every reply, or ends with fewer bytes than were sent, or with an exception |
| TransferFaults.DeliveredIffUndisturbed | clientcomm/rpcclientcomm.cc:3022-3140 | over any network the client ends with the tiles of the MDD exactly if no call that the server has executed loses its reply and no retry loop gives up |
| TransferFaults.LostBlockExample | clientcomm/rpcclientcomm.cc:3110-3128 | two tiles in three blocks: the second reply is lost, and the client ends with one wrong tile and no error |
| TransferFaults.StaleTileIff | servercomm/servercomm2.cc:3752-3786 | a whole tile arrives as it is exactly if the left-over count is 0 or the tile's size or the tile fits the buffer, whatever lies in front of it in memory |
| TransferFaults.CollectionRightIffClean | servercomm/servercomm2.cc:3689-3898 | after an aborted transfer, all tiles of the next collection arrive as they are exactly if the left-over count is clean |
| AliveSignal.CallWithRetry | clientcomm/rpcclientcomm.cc:221-240 | a call succeeds exactly if one of the first maxRetry + 1 attempts is answered, and stops at the first such one; otherwise it gives up after maxRetry + 2 attempts, even if the last was answered |
| AliveSignal.InvStep | clientcomm/rpcclientcomm.cc:3250-3306 | one inductive invariant is kept by every step of the main thread and of the handler |
| AliveSignal.InvRun | clientcomm/rpcclientcomm.cc:3250-3306 | the invariant holds after every run, for every interleaving |
| AliveSignal.OneCallInFlight | clientcomm/rpcclientcomm.cc:3257-3290 | the main thread's call and the handler's alive call are never in flight together |
| AliveSignal.CounterUndisturbed | clientcomm/rpcclientcomm.cc:184-184 | during a retry loop of the main thread the shared counter is the number of its attempts and no handler step changes it |
| AliveSignal.LoopsEnd | clientcomm/rpcclientcomm.cc:221-240 | in every interleaving, what the main thread's retry loop has been answered says where it is: it is done exactly behind its first answered attempt within the limit, and gives up behind max + 2 attempts, as `CallWithRetry` says of such answers |
| AliveSignal.HandlerLoop | clientcomm/rpcclientcomm.cc:3257-3290 | the handler's call may be answered at each of its first max + 1 attempts and at no later one, the shared counter being its own |
| AliveSignal.NoneInvented | clientcomm/rpcclientcomm.cc:3250-3306 | in every run there are at most as many alive calls, started or still owed, as alarms |
| AliveSignal.IdleMeansSent | clientcomm/rpcclientcomm.cc:3427-3439 | an idle main thread has an alive signal pending only if its last call gave up |
| AliveSignal.ActiveWhenStuck | clientcomm/rpcclientcomm.cc:232-236 | outside all calls `rpcActive` is set exactly if the last call of the main thread gave up |
| AliveSignal.SilentWhileStuck | clientcomm/rpcclientcomm.cc:232-236 | after a call has given up, `rpcActive` stays set and alarms only mark the signal pending |
| AliveSignal.PendingUntilSent | clientcomm/rpcclientcomm.cc:3250-3290 | in every run a pending signal stays pending or on its way out until an alive call is started |
| AliveSignal.NeverLost | clientcomm/rpcclientcomm.cc:3250-3290 | if a signal is pending at some time of a run and the main thread is idle later without having given up, an alive call was started in between |
| AliveSignal.GaveUpExample | clientcomm/rpcclientcomm.cc:232-236 | a run that ends idle with a signal pending |
| PagedFile.RunSpec | conversion/memfs.cc:171-283 | after any run of newfile, write, seek and read: 0 <= pos <= high, and a byte is specified exactly if some write since the last newfile covered it, with the value of the last such write |
| PagedFile.ReadAfterRun | conversion/memfs.cc:186-216 | a read after any run returns the bytes last written and stops at the end of the file; bytes of a gap are free |
| PagedFile.Append | conversion/memfs.cc:249-283 | after any run, seeking to the end and writing appends: all earlier bytes stay and the file grows by exactly the data |
| PagedFile.WriteAt | conversion/memfs.cc:249-283 | seeking to a position from the start and writing puts the bytes there and changes no other |
| PagedFile.WriteSkipWrite | conversion/memfs.cc:249-283 | between two writes a relative seek skips exactly its offset, back or forth |
| PagedFile.WriteThenReadBack | conversion/memfs.cc:186-283 | going back over what was written and reading as much gives it back |
| PagedFile.WriteThenReadAll | conversion/memfs.cc:149-283 | a new file, written and read from its start, gives the data, whatever the file held before |
| PagedFile.ReadTwice | conversion/memfs.cc:186-216 | two reads in sequence deliver what one read of both sizes does, and stop at the same place |
| PagedFile.SeekClamped | conversion/memfs.cc:249-283 | when a seek ends at the start, in each mode; an unknown mode moves nothing, and no seek changes a byte |
| PagedFile.EndIsFarthest | conversion/memfs.cc:171-283 | the end of the file is the farthest position since it was last reset |
| PagedFile.OverwriteAt | conversion/memfs.cc:232-245 | a write changes exactly the bytes from pos to pos + size |
| PagedFile.TwiceAsLarge | conversion/memfs.cc:72-81 | a power of two below another is at most half of it, so that a grown table is at least twice as large |
| PagedFile.GrownSize | conversion/memfs.cc:69-81 | shifting the index out bit by bit gives a power of two above the index and at most twice the index |
| PagedFile.MemFS.constructor | conversion/memfs.cc:122-146 | an empty file with one block in a table of 16 |
| PagedFile.MemFS.GrowTable | conversion/memfs.cc:69-103 | the table holds the index, keeps all blocks, at least doubles when it grows; with the invariant, pointer copies over a whole run stay below the table size |
| PagedFile.MemFS.Ensure | conversion/memfs.cc:57-118 | all blocks up to the offset's are allocated, the allocated ones are a prefix of the table, and the file is unchanged |
| PagedFile.MemFS.Reset | conversion/memfs.cc:171-183 | position and end are reset |
| PagedFile.MemFS.WriteFile | conversion/memfs.cc:219-251 | the paged file does what the flat file does, across any number of block borders |
| PagedFile.MemFS.ReadFile | conversion/memfs.cc:186-216 | reads as the flat file allows, returns the length of the flat file's read, and leaves the rest of the caller's buffer alone |
| PagedFile.MemFS.SeekFile | conversion/memfs.cc:254-283 | seeks as the flat file does: negative targets become 0, targets past the end extend the file by an unspecified gap |
| PagedFile.MemFS.KillFs | conversion/memfs.cc:150-167 | every allocated block is freed, and none twice |
| OpDispatch.AtomicSound | catalogmgr/ops.cc:239-641 | an applicable operation on atomic types has a result type and a function object for it |
| OpDispatch.ResultTypeIffApplicable | catalogmgr/ops.cc:816-1226 | a result type is inferred exactly for applicable operations, at any nesting of structs |
| OpDispatch.ApplicableSwap | catalogmgr/ops.cc:816-955 | applicability with an atomic operand does not depend on its side |
| OpDispatch.CompatibleDepth | relcatalogif/structtypecommon.cc:490-528 | compatible types are nested equally deep, which bounds the mutual recursion |
| OpDispatch.SameTypeComplete | catalogmgr/ops.cc:3876-3929 | for two operands of one type every arithmetic, bit and logic operation has a non-null element object at every depth |
| OpDispatch.ScalarRightComplete | catalogmgr/ops.cc:4011-4038 | a struct with a numerical scalar on the right: result type inferred, element objects non-null at every depth |
| OpDispatch.ScalarLeftComplete | catalogmgr/ops.cc:4067-4094 | the same with the scalar on the left |
| OpDispatch.ComplexScalarComplete | catalogmgr/ops.cc:4011-4094 | with a complex scalar the element objects are non-null exactly if all leaves of the struct are complex |
| OpDispatch.ComparisonComplete | catalogmgr/ops.cc:4123-4205 | comparing structs for equality has no null element object exactly if all leaves are numerical; ordering two types exactly if they are numerical atoms |
| OpDispatch.MinMaxComplete | catalogmgr/ops.cc:3902-3913 | MIN and MAX of structs are complete exactly if every field is a numerical atom |
| OpDispatch.ApplicableIffMeaningful | catalogmgr/ops.cc:816-955 | which operations apply, told on the types alone (`Meaningful`): numbers are compared, integers combined by logic, integer division needs a LONG, ULONG or CHAR operand, structs go by elements |
| OpDispatch.StrongestTypeLaws | catalogmgr/ops.cc:1186-1225 | the strongest of two types does not depend on their order, is signed exactly if one of them is, and is the stronger of two of equal signedness; of the unsigned operands only USHORT counts beside a signed one |
| OpDispatch.ResultTypeInferred | catalogmgr/ops.cc:961-1226 | the inferred type, at any nesting: by elements for a numerical scalar, the struct itself with a struct or a complex scalar, DOUBLE for dividing integers, BOOL for comparing |
| OpDispatch.OneFamilyFits | catalogmgr/ops.cc:243-565 | at most one family of function objects suits an operation and its types |
| OpDispatch.PrimitivePerforms | catalogmgr/ops.cc:243-565 | a primitive object carries the operation asked for, in the family that suits result and operand types |
| OpDispatch.BuiltPerforms | catalogmgr/ops.cc:239-641 | whatever object is built performs the operation asked for on the elements in the same place, at any depth; MIN and MAX of structs compare by < and = |
| OpDispatch.DispatchExact | catalogmgr/ops.cc:239-1258 | the whole dispatch: a result type is inferred exactly for operands the operation is defined on, and is the right one; an object is then built that performs the operation, and has no null part at any depth exactly under `Buildable`, which the caller can check on the types |
| OpDispatch.ComplexScalarExample | catalogmgr/ops.cc:4011-4038 | a struct of chars plus a complex number: typed, but outside `Buildable` |
| OpDispatch.MaxOfComplexFieldExample | catalogmgr/ops.cc:3902-3913 | the maximum of structs with a complex field: typed, but outside `Buildable` |
| OpDispatch.EqualOfComplexFieldExample | catalogmgr/ops.cc:4136-4145 | comparing structs with a complex field for equality: typed, but outside `Buildable`, and the built object has a null part |
| Condense.CondenseOp.constructor | catalogmgr/ops.cc:3279-3287 | the neutral value, nothing seen |
| Condense.CondenseOp.IsNullOnly | raslib/minterval.icc:143-156 | a loop over the null intervals decides whether a value is null |
| Condense.CondenseOp.IsNull | catalogmgr/nullvalues.hh:115-133 | the same, counting |
| Condense.CondenseOp.Accumulate | catalogmgr/ops.cc:3296-3699 | one cell changes accumulator, flags and null count as the step function says, for MAX, MIN and SUM, signed and unsigned |
| Condense.CondenseOp.AccumulateAll | catalogmgr/ops.cc:3296-3322 | feeding cells one by one is a run of the step function |
| Condense.RunMeaning | catalogmgr/ops.cc:3296-3699 | after any non-empty sequence: the accumulator is max, min or sum mod 2^32 of the non-null cells, or the first cell if all are null; `nullAccu` says which; the null count is exact |
| Condense.NullExample | raslib/minterval.icc:143-156 | a value is null if any of several intervals has it, bounds included |
| Condense.OrderIrrelevant | catalogmgr/ops.cc:3296-3699 | once a cell is not null, every permutation leaves the same accumulator, flags and count |
| Condense.OrderIrrelevantIff | catalogmgr/ops.cc:3296-3699 | every permutation leaves the same result exactly if some cell is not null or all cells are equal |
| Condense.AllNullDependsOnOrder | catalogmgr/ops.cc:3305-3313 | two orders of null cells with different results |
| Condense.CondensedUnique | catalogmgr/ops.cc:3607-3699 | two condensed values of permuted sequences are equal, also for sums mod 2^32 |
| CondenseStruct.ElementsApart | relcatalogif/structtypecommon.cc:280-363 | aligned elements of any nested struct follow one another without overlap |
| CondenseStruct.ElementInside | relcatalogif/structtypecommon.cc:530-553 | every element ends inside the struct |
| CondenseStruct.Accumulate | catalogmgr/ops.cc:3844-3854 | the recursive element loop on the shared accumulator is the leaf condensers one after another, for leaves of any size and any leaf condenser |
| CondenseStruct.SlotsApart | catalogmgr/ops.cc:3765-3831 | all leaf condensers of a nested struct work on disjoint ranges inside result and operand, whose leaves may differ in size and sign |
| CondenseStruct.LeafStepsAt | catalogmgr/ops.cc:3844-3854 | after one struct cell each leaf holds its own combination, whatever the other leaves did |
| CondenseStruct.FieldsIndependent | catalogmgr/ops.cc:3765-3866 | condensing nested structs cell by cell leaves in each field what a condenser of that field alone computes over the column, for any leaf sizes, leaf condensers, padding and initial accumulator |
| StructLayout.Placed | relcatalogif/structtypecommon.cc:280-363 | every element behind the first lies on the first of its boundaries behind the element before it; a nested struct's boundary is the largest of its elements' behind its first |
| StructLayout.LeafPlaced | relcatalogif/structtypecommon.cc:318-345 | an atomic element behind the first: four or more bytes on a multiple of 4, two bytes on an even offset, one byte directly behind |
| StructLayout.BoundaryUnique | relcatalogif/structtypecommon.cc:311-330 | the boundary of a type is determined |
| StructLayout.SizePlaced | relcatalogif/structtypecommon.cc:530-553 | the size is the first multiple of 4, 2 or 1 behind the last element, by whether a struct or four-byte element, or a two-byte element, is among them |
| StructLayout.CharLongExample | relcatalogif/structtypecommon.cc:318-330 | a char and a long: the long at offset 4, eight bytes in all |
| CondenseFields.LoadExample | relcatalogif/shorttype.C:126-131 | integers from their lowest byte on, in two's complement |
| CondenseFields.NewAccu | catalogmgr/ops.cc:3776-3803 | the constructors' accumulator holds each leaf's start value at its place, at any nesting |
| CondenseFields.SlotsStarted | catalogmgr/ops.cc:3797-3803 | those places are where the element condensers keep their results |
| CondenseFields.FieldsFromConstructor | catalogmgr/ops.cc:3765-3866 | from the constructed accumulator on, each field is its column condensed from its own start value |
| CondenseFields.CondenseCells | catalogmgr/ops.cc:3765-3866 | construction and all cells: every field of the accumulator is its column condensed |
| CondenseFields.LoadStored | relcatalogif/shorttype.C:126-144 | an integer of one, two or four bytes, signed or not, that is in the range of its type is read back from its bytes |
| CondenseFields.ResultShape | catalogmgr/ops.cc:1076-1131 | the result type of condensing a struct has its structure |
| CondenseFields.IntegerRun | catalogmgr/ops.cc:3607-3699 | a leaf condenser of integers of one, two or four bytes over any column, a wider result for SUM included, holds the maximum, the minimum or the sum mod 2^32 of the column |
| CondenseFields.StructOfIntegers | catalogmgr/ops.cc:3765-3866 | MAX, MIN and SUM of structs of such integers of any mix and nesting: each field holds maximum, minimum or sum mod 2^32 of its column |
| CondenseFields.PaddedExample | catalogmgr/ops.cc:3765-3831 | a struct with padding between and behind its fields |
| InducedCondense.Advance | catalogmgr/algebraops.cc:278-293 | the carry loop moves to the point with the next row-major number, or reports the end exactly after the last point |
| InducedCondense.QLInducedCondenseOp.constructor | catalogmgr/algebraops.cc:185-210 | no accumulated value |
| InducedCondense.QLInducedCondenseOp.Apply | catalogmgr/algebraops.cc:213-251 | a point that satisfies the condition is folded in; every replaced or consumed intermediate MDD is released, and released once |
| InducedCondense.QLInducedCondenseOp.Execute | catalogmgr/algebraops.cc:259-299 | the loop terminates and returns the left fold of the operation over the points that satisfy the condition, in row-major order, for any rank; only the result keeps a reference |
| InducedCondense.NoResultIffNoPoint | catalogmgr/algebraops.cc:232-250 | NULL exactly if no point satisfies the condition |
| InducedCondense.FoldedPoints | catalogmgr/algebraops.cc:213-299 | what is folded is the list of the accepted points in row-major order |
| InducedCondense.EveryPointOnce | catalogmgr/algebraops.cc:274-293 | the visited points are exactly those of the box, each once |
| ComplexOps.QuotientTimes | catalogmgr/ops.cc:5229-5258 | the quotient times the divisor is the dividend, for every non-zero divisor |
| ComplexOps.DivThenMult | catalogmgr/ops.cc:5173-5366 | DIV then MULT by the same non-zero number gives the operand back exactly if the operand is null itself, or neither the divisor nor the quotient is, that is unless MULT takes its null branch for a value that was not null before |
| ComplexOps.DivThenMultNoNulls | catalogmgr/ops.cc:5173-5366 | without null values they undo each other for every non-zero divisor |
| ComplexOps.ScalarMultIff | catalogmgr/ops.cc:5280-5366 | the FIRST and SECOND forms of MULT equal the general form with imaginary part 0 on all operands exactly if 0 is not a null value |
| ComplexOps.ScalarDivIff | catalogmgr/ops.cc:5173-5262 | the same for DIV |
| ComplexOps.NullRangesExample | raslib/minterval.icc:143-156 | a number is null if either part lies in one of the intervals, bounds included |
| ComplexOps.NullZeroExample | catalogmgr/ops.cc:5280-5366 | with 0 as null value the two forms of a product differ |
| CsvText.ReadPrinted | conversion/csv.cc:465-473 | a printed 16- or 32-bit number is read back, and reading stops behind it |
| CsvText.Bounds | conversion/csv.cc:465-473 | the ranges of the four integer types |
| CsvText.ReadAny | conversion/csv.cc:465-473 | a number of any size is read as it is if the type has it; otherwise the nearest bound is stored and the read fails, but an unsigned type takes a negative number modulo its count |
| CsvText.ReadNothing | conversion/csv.cc:465-473 | without a digit zero is stored and the read fails |
| CsvText.ValueBegins | conversion/csv.cc:324-332 | a value begins at every visible character but delimiters, quotes and the comma |
| CsvText.TextExample | conversion/csv.cc:534-588 | two rows of two cells, in both formats |
| CsvText.PrintedScanned | conversion/csv.cc:213-229 | the decoder reads the text of any array section as its cells in printing order and goes on behind it |
| CsvText.DecodeText | conversion/csv.cc:451-481 | every text written from an array decodes to the printed cells, their number being right |
| CsvText.CellAt | conversion/csv.cc:213-229 | the printed cell with row-major number x is the cell at the dot product of x with the offsets, and that index is inside the array |
| CsvText.RowMajorDot | conversion/csv.cc:551-558 | stepping by the computed offsets is the row-major numbering, for any rank |
| CsvText.OuterInnerRoundTrip | conversion/csv.cc:534-604 | order outer_inner: writing an array of any rank and reading it gives the array, in CSV and in JSON |
| CsvText.InnerOuterTransposes | conversion/csv.cc:559-562 | order inner_outer: what is read is the array with its axes reversed |
| CsvText.TextNesting | conversion/json.cc:40-50 | the delimiters of a written array, brackets in JSON and braces in CSV, balance, and every number stands at depth rank (one less for CSV from rank two on) |
| CsvText.Converter.PrintArray | conversion/csv.cc:213-229 | the recursive loop appends the text of the section and nothing else; all reads are in bounds |
| CsvText.Converter.RowMajorOffsets | conversion/csv.cc:551-558 | the offsets filled back to front |
| CsvText.Converter.ConvertTo | conversion/csv.cc:534-588 | the whole text, with the outer pair of a lone axis or of JSON |
| CsvText.ConstructPrimitive | conversion/csv.cc:451-481 | succeeds exactly if the text has enough values up to the first that cannot be converted, and then the destination holds them |
| GribPlane.TransposedAt | conversion/convertor.hh:173-182 | transposing moves a point from its row-wise to its column-wise number |
| GribPlane.Transpose | conversion/convertor.hh:173-182 | the index loop writes the transposed array to its place and nothing else |
| GribPlane.PackedAt | conversion/grib.cc:409-421 | packing puts a point of the subset at its row-wise number in the subset |
| GribPlane.CopyLines | conversion/grib.cc:407-421 | the line-wise copy writes the packed subset and nothing else; all reads are inside the message |
| GribPlane.DecodeSubset | conversion/grib.cc:399-424 | packing, transposing into the message buffer and copying back leaves the slice `SliceAfter` describes; it overruns the message buffer exactly if the subset has more cells than the message |
| GribPlane.DecodeSlice | conversion/grib.cc:179-187 | both branches leave the slice `SliceAfter` describes and no other cell changes, or overrun the message buffer exactly if `BufferHolds` is false |
| GribPlane.SliceRightIffFits | conversion/grib.cc:179-187 | where the buffers are ignored, the slice gets the message's values and keeps its other cells, for all messages and contents, exactly if the subset starts inside the message and also ends there or is a single line |
| GribPlane.SoundIff | conversion/grib.cc:179-187 | decoding a slice stays inside its buffers and is right, for all messages and contents, exactly if the subset so fits and has no more cells than the message |
| GribPlane.OverrunExample | conversion/grib.cc:422-422 | a line of ten cells from a message of four: every cell would be right, but the transposition overruns the message buffer |
| GribPlane.MisfitWrong | conversion/grib.cc:179-187 | for every other subset a message and a cell that goes wrong |
| Grib.ComputeBoundingBox | conversion/grib.cc:280-323 | fails exactly unless all domains are slices of one rank with equal x/y bounds that are not slices; otherwise the least box with all of them |
| Grib.BoundingBoxUnordered | conversion/grib.cc:280-323 | neither failure nor box depends on the iteration order of the hash map |
| Grib.CheckDomainExamples | conversion/grib.cc:426-445 | which domains are well formed, by example at ranks 0 to 4 |
| Grib.AcceptableExamples | conversion/grib.cc:280-323 | which sets of domains are accepted, by example |
| Grib.IntersectionCommon | conversion/grib.cc:166-180 | the intersection has the points both boxes have, its x/y part is the meeting of their planes, and boxes intersect exactly if they share a point |
| Grib.GetSliceOffset | conversion/grib.cc:242-256 | the mixed-radix loop gives eight times the area times the row-major number of the slice |
| Grib.CellNumber | conversion/grib.cc:242-256 | the number of a target cell is its slice's start plus its column-wise number in the slice |
| Grib.SlicesApart | conversion/grib.cc:242-256 | slices lie inside the target, and different slices in disjoint ranges |
| Grib.PlacedCell | conversion/grib.cc:166-187 | for every subset: a target cell outside the message's slice is left alone, one inside is right exactly if it is right in the slice |
| Grib.MessageDecoded | conversion/grib.cc:166-187 | with no subset or one that fits, the cells of the message's domain hold its values and all others are as before |
| Grib.MessageSoundIff | conversion/grib.cc:166-187 | decoding a message that meets the subset overruns nothing and is right, for all its values and all contents of the target, exactly if the subset fits its x/y range and has no more cells per slice |
| Grib.DecodeMessage | conversion/grib.cc:163-192 | for every subset the loop body leaves the target `AfterMessage` describes, or overruns the message buffer exactly if `Overruns` holds |
| Grib.DecodeMessages | conversion/grib.cc:152-200 | for every file and subset: the first message of the wrong size or with an overrun ends the loop, otherwise the target is what the decoded messages make of zeroes |
| Grib.FineIff | conversion/grib.cc:359-397 | the loop comes through exactly if all messages that are looked at have the right size and none overruns its buffer |
| Grib.AllDecoded | conversion/grib.cc:152-200 | with no subset or one that fits, each target cell holds the value of the last decoded message that has it, and 0 without one |
| Grib.ConvertFrom | conversion/grib.cc:116-203 | the four outcomes for every file, set of domains and subset, and on success the domain and all cells |
| Grib.NoneLostIffNoGap | conversion/grib.cc:158-165 | every specified message of the file is decoded exactly if no id is missing below a specified one, because a skipped message is not counted |
| Grib.LostMessageExample | conversion/grib.cc:161-165 | with only message 2 specified nothing is decoded |
| Grib.OnlyMessage | conversion/grib.cc:152-199 | where domains do not overlap, a cell holds the value of its only message |
| Gdal.OffsetsExactIff | conversion/gdal.cc:233-247 | the 32-bit pixel offset is right for every pixel exactly if the last one is below 2^32 |
| Gdal.EncodingRightIff | conversion/gdal.cc:220-275 | every band holds the array's cells, for all arrays, exactly if the last pixel offset is below 2^32, boolean or not |
| Gdal.OffsetWrapExample | conversion/gdal.cc:245-246 | two bands of 65536 x 65536 pixels, whose last pixel is read from another place |
| Gdal.EncodedCell | conversion/gdal.cc:241-247 | pixel n of an array stands in each band at its row-wise place |
| Gdal.EncodeBand | conversion/gdal.cc:241-262 | the loops fill the band with the transposed, de-interleaved cells; booleans become 0 and 255 |
| Gdal.EncodeImage | conversion/gdal.cc:220-275 | all bands through one buffer |
| GdalDecode.GetBandIds | conversion/gdal.cc:513-540 | all bands, or the requested ones twice, or an error for an id out of range |
| GdalDecode.WantedIffAll | conversion/gdal.cc:527-537 | a pixel is the bytes of the bands asked for exactly if none were named |
| GdalDecode.PixelBytesAppend | conversion/gdal.cc:527-537 | a list given twice gives every pixel its bytes twice |
| GdalDecode.DecodeBand | conversion/gdal.cc:499-511 | the cells of a band go to their place in each pixel and no other byte changes |
| GdalDecode.DecodeImage | conversion/gdal.cc:346-405 | for every list of bands, data set and initial memory: the tile after all bands, or the first band without a field, with too small a buffer, or beyond the end of the tile |
| GdalDecode.RightIffPlaced | conversion/gdal.cc:365-396 | a list is decoded rightly from all data sets exactly if every band but the last finds a field of its own size, and the last finds one and fits the buffer |
| GdalDecode.RequestRightIff | conversion/gdal.cc:365-396 | for the lists a request leads to, that is exactly if every band finds a field of its own size, which the caller can check on the band types |
| GdalDecode.AllBandsRight | conversion/gdal.cc:365-396 | all bands in order are decoded rightly, whatever their types |
| GdalDecode.ConvertFrom | conversion/gdal.cc:306-344 | a request to the end: the errors, and the requested bands' bytes, twice if named, whenever the fields match |
| GdalDecode.ShortBufferExample | conversion/gdal.cc:427-445 | bands of 1 and 8 bytes requested in reverse overrun the band buffer |
| GdalDecode.ShortTileExample | conversion/gdal.cc:393-395 | bands of 8 and 1 bytes requested in reverse overrun the tile, with every buffer large enough |
| GdalDecode.NoFieldExample | conversion/convutil.cc:262-275 | the third of three equal bands alone finds no field |
| GdalDecode.TilePixel | conversion/gdal.cc:363-396 | pixel n of a rightly decoded tile, as a whole |
| GdalDecode.OneFieldPerByte | conversion/gdal.cc:363-396 | every byte of a pixel belongs to exactly one listed band, so that it is written once |
| GdalDecode.EncodeDecode | conversion/gdal.cc:220-511 | encoding an array and decoding all bands gives the array's bytes back, for any size, band count and cell size; booleans as 0 and 255 |
| GdalDecode.EncodeThenDecode | conversion/gdal.cc:220-540 | `encodeImage` followed by `decodeImage` with no bands requested: the same bytes, booleans as 0 and 255, as long as the last pixel offset is below 2^32 (`EncodingRightIff`) |
| Dem.CellOrder | conversion/dem.cc:533-541 | the truncated coordinate is monotone, rising or falling with the signs of resolution and flip |
| Dem.CellRange | conversion/dem.cc:533-541 | a coordinate belongs to the position it is less than 0.999999 behind or at most 0.000001 in front of |
| Dem.CellOfWorld | conversion/dem.cc:533-541 | a non-negative position is found again from its coordinate, with either flip |
| Dem.DomainTight | conversion/dem.cc:640-660 | the computed domain contains the point of every row, and no smaller box does |
| Dem.DomainExists | conversion/dem.cc:640-660 | the interval bounds are in order exactly if the resolution is positive or all rows fall into one position |
| Dem.ParsedWritten | conversion/dem.cc:554-583 | writing and parsing rows keeps exactly those that are not NULL, with 0 and FLT_MIN told apart |
| Dem.RoundTrip | conversion/dem.cc:376-583 | export then import with positive resolutions is the identity on the least box with all non-NULL cells, for all four flips |
| Dem.ExportThenImport | conversion/dem.cc:585-881 | `convertTo` followed by `convertFrom` with the same options: it succeeds exactly for an array within the limits that is not all NULL, and gives the array back on the least box with its values |
| Dem.ImportAccepts | conversion/dem.cc:270-373 | what was exported is within the limits, and empty exactly if all cells are NULL |
| Dem.LimitsDecide | conversion/dem.cc:237-268 | the four comparisons of the extremes with the options accept exactly the row sets that lie inside the limits row by row |
| Dem.Converter.ReadFromSrcStream | conversion/dem.cc:270-373 | rows, attained extremes, and acceptance exactly for rows inside the limits |
| Dem.Converter.WriteFromDestStream | conversion/dem.cc:513-552 | each cell gets the height of the last row that falls on it, NULL without one; every row falls inside |
| Dem.Converter.ConvertFrom | conversion/dem.cc:585-668 | succeeds exactly for a non-empty set of rows inside the limits whose domain is not reversed; domain and cells as specified |
| Dem.Converter.ReadToSrcStream | conversion/dem.cc:376-510 | one row per cell, x fastest, if the array's corners are within the limits |
| Dem.Converter.WriteToDestStream | conversion/dem.cc:554-583 | the lines of the rows that are not NULL |
| Dem.Converter.ConvertTo | conversion/dem.cc:720-800 | fails exactly outside the limits or for an array that is all NULL |
| CommandLine.CommandLineParser.constructor | commline/cmlparser.cc:558-572 | no parameter awaits a value |
| CommandLine.CommandLineParser.GetParameter | commline/cmlparser.cc:710-722 | the first parameter with the short name |
| CommandLine.CommandLineParser.ShortNameParameter | commline/cmlparser.cc:762-790 | the loop over a cluster, including its state when it fails |
| CommandLine.CommandLineParser.ProcessCommandLine | commline/cmlparser.cc:675-706 | the loop over the tokens, including its state when it fails; afterwards only a value-taking parameter can await a value |
| CommandLine.CommandLineParser.PopValue | commline/cmlparser.cc:490-499 | the oldest value first |
| CommandLine.ClusterValid | commline/cmlparser.cc:762-790 | a cluster leaves only a value-taking parameter awaiting a value |
| CommandLine.TokenValid | commline/cmlparser.cc:738-790 | so does every token |
| CommandLine.FlagsSeparate | commline/cmlparser.cc:762-790 | flags in front of a cluster act as tokens of their own, failures included |
| CommandLine.InlineValue | commline/cmlparser.cc:773-787 | an attached and a separate value have the same outcome exactly for values other than - and -- |
| CommandLine.InlineSignExample | commline/cmlparser.cc:686-689 | the value - of an option is taken attached and refused as a token of its own |
| CommandLine.ClusterEqualsSeparateTokens | commline/cmlparser.cc:675-790 | a cluster of flags ending in an option with its value, and the separate tokens, lead to the same parameters or the same failure of the whole command line |
| CommandEvents.ProcessMeaning | commline/cmlparser.cc:675-790 | a whole command line: a parameter is present afterwards exactly if it was or is named, by either name, with the values it had and those given; the failure is that of the first token that cannot be read, unless a flag is named that is present already |
| CommandEvents.ApplyMeaning | commline/cmlparser.cc:376-392 | naming parameters and giving values goes through exactly if no flag is named that is present or was named |
| CommandEvents.EitherName | commline/cmlparser.cc:738-790 | where a short and a long name belong to one parameter, a command line that begins with either fails alike or leaves the same parameters, but for the record of which name was used |
| CommandEvents.FlagTwice | commline/cmlparser.cc:376-392 | a flag that was named before, by either name, is refused, whatever follows |
| CommandEvents.LineExample | commline/cmlparser.cc:738-790 | a long option with its value and a cluster with a flag and an attached value |
| CommandLine.RepeatedOptionQueues | commline/cmlparser.cc:483-499 | the values of a repeated option queue up in the order given, behind the earlier ones |

## Left out

- ServerComm.GetNextTile: tiles are sent in their stored encoding; re-encoding for transfer and the timers are not modelled.
- GetMDDCore: what the code does after reading a freed buffer or dividing by zero has no defined result and is one outcome.
- GetMDDCollection: a transfer starts with a count that is `Clean`; for any other `CollectionRightIffClean` says that a tile arrives wrong, and what the client makes of bytes from outside the tile is not modelled.
- FetchTiles: the bytes of the tiles only; laying them into the MDD is in `GetMDDCore`, without losses.
- InvRun: a run ends where the handler's own alive call gives up, since an exception that leaves a signal handler has no defined result; so do `IdleMeansSent` and `NeverLost`.
- WriteFile: positions stay within 32 bits, and allocating blocks always succeeds; a failed allocation leaves `mamHighest` stale in the code.
- SeekFile: as `WriteFile`.
- Memory-mapped and chunk variants of the file system (`conversion/memfs.cc:286-456`).
- DispatchExact: OVERLAY, BIT and complex construction, and operands of class, set or MDD type, are not modelled; nor is assignment, whose IDENTITY always exists.
- RunMeaning: 32-bit integers only; the float, complex and 8- and 16-bit condensers follow the same scheme with other neutral values.
- FieldsIndependent: the leaf condensers are arbitrary functions of operand and result bytes; spelled out are those of integers of one, two and four bytes (`IntegerRun`).
- DivThenMult: exact reals; rounding, infinities and division by zero are not modelled.
- OuterInnerRoundTrip: 16- and 32-bit integers; CHAR and OCTET values are parsed as single characters by the code, floating-point text loses digits, and struct cells are not modelled.
- ConvertTo: the text as a sequence of characters; copying it to the result buffer is not modelled.
- DecodeSubset: the iterator is the loop over lines that it amounts to; on the slice axes, which have one position, it only overflows.
- ConvertFrom: the GRIB library's messages and the parsed format parameters are inputs, in `Grib`; the parsed lines and options are inputs, in `Dem`.
- Grib.DecodeMessages: an overrun of the message buffer is an outcome; what it overwrites is not modelled.
- DecodeImage: the pixels that the GDAL library reads for the requested window are inputs, with bands of the real types; overruns are outcomes, and what they overwrite is not modelled.
- EncodeImage: the library's driver, metadata and colour options are not modelled.
- RoundTrip: exact reals and exact text; the six decimals of the written coordinates are not modelled.
- ExportThenImport: as `RoundTrip`, with positive resolutions; `DomainExists` says when import accepts negative ones.
- EncodeThenDecode: for pictures within the bound of `EncodingRightIff`.
- ProcessCommandLine: messages of exceptions are reduced to their kind; help output and parsing values as numbers are not modelled.
- Sockets, XDR, the rasmgr exchange, databases and storage, logging, and the remaining converters.
