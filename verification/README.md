# kg-cpp: the byte queue, the framers, slices, the module registry, the scheduler and the cipher

A model in Dafny of the parts of the kg-cpp headers that carry state or arithmetic, with proofs of
what they promise. `dafny verify dfyconfig.toml` checks all of it.

## What is modelled

**The byte queue** (`Sequences`, `Bytes`, `Fragmentation`, `Segments`, `Skipping`, `Buffer`, `QueueRuns`).
A `Fragmentation` is a block with a read offset; a `Buffer` is a list of them and one drained fragment
kept for reuse. Both are classes over arrays, and the ownership of the blocks is part of the invariant,
so reusing a fragment cannot touch unread bytes. A buffer is shown to be a plain byte queue over any run
of calls. A destination pointer is an array and a position in it; a source pointer is the string of bytes
it points at, which is enough because nothing hands out a buffer's own blocks.

**The framers** (`Framing`, `EchoServer`, `ServerRuns`, `EchoClient`, `ClientRuns`).
A message is a byte string whose length is the reader callback's answer for its header; `Framing` says how
a stream splits into messages, and that it does so in one way only. The server and the client remember a half-parsed length between
chunks; both are shown to do what looking at the whole stream would do. The server hands over at most one
message a chunk and its pace is stated exactly. Either callback may be missing. The reader is a function of
the header bytes; the message callback is a function of everything delivered so far, so it may keep state.

**Slices** (`Copying`, `Slices`, `SliceRuns`). A slice is a value that names a window on an array in the heap; appends
and copies write into arrays that other slices may share. `std::copy` is the loop from front to back, and
its effect on overlapping windows is given exactly; it counts its assignments, so that the cost of a chain
of appends is the cost of the copies the code makes.

**The module registry** (`Duktape`, `SearchPath`, `Registry`, `RegistryRuns`, `LoaderRuns`, `Modules`, `ModuleRuns`). `Duktape` holds the engine
operations used, with the stack effects of the engine; objects are identities into a heap of tables.
`Modules` is the C++ written against them; `SearchPath` is about the environment variable a loader
is looked for in; `Registry` says what it amounts to on the registry as a value;
`RegistryRuns` and `LoaderRuns` are about runs, of imports and of who frees the loaders; `ModuleRuns` replays
any run on the C++, from `init` to the finaliser. Loaders and the environment are parameters, and a loader's
answer may change from call to call. A module may import others while it is being loaded, itself included:
what it imports next and what comes of it depend on the results of its imports so far. The engine bounds how
many native calls run inside one another.

**The scheduler** (`Scheduler`) and **the cipher** (`Passes`, `Cipher`, `CipherWindows`). The client counts may change in any
way between two calls of the scheduler. The salts are arbitrary bytes. `Passes` is about loops that map one
window of an array to another with a key read along; the cipher's two loops are such passes, and their source
and destination may lie anywhere, in one array or two.

## Where the code departs from its documentation

The model follows the code.

- `buffer.hpp:251-270`: the skipping `copy_to` goes on skipping in every later fragment the bytes it
  skipped in the one where the skip ended. `SkipLosesByte` is an input where a byte is lost, and
  `SkipPromise` says for which fragment sizes the documented result is delivered.
- `buffer.hpp:342`: the comparison of sizes never lets a drained fragment replace one already kept
  (`Popped`).
- `echo_server.hpp:243-257`: one chunk hands over one message even if it completes several, and the next
  message waits for the next chunk. `MessageLeftBehind` is an input, `CaughtUp` the exact condition.
- `echo_server.hpp:160`: the reader's answer 0 is refused too, with a header of no bytes.
  `EmptyMessageRefused` is the input, and `RefusedHeaders` says there is no other.
- `echo_client.hpp:201`: bytes given to the client to parse are not used; as many bytes of its receive block
  are parsed in their place (`ReaderMessage`). `BytesGivenLost` is an input, `BytesGiven` the exact condition.
- `echo_client.hpp:229-244`: the refused length stays remembered after a framing error, so the next read may
  report the error again, hang, or return bytes that are no message. `AfterBadHeader` says which when.
- `echo_client.hpp:289-293`: without a reader a read takes a chunk and returns a slice without its bytes
  (`Read`).
- `slice_impl.hpp:254-255`: appending one element in place writes the cell numbered by the size, without
  the position of the window. `AppendOneOverwrites` is an input where a slice overwrites its own element,
  `AppendOnePromise` says that only windows at the start of their array are safe, and `AppendOneShows` which
  contents hide the mistake.
- `slice_impl.hpp:309-310`: appending in place from the same array reads cells already written if the
  destination starts inside the source window. `CopyFaithful` is the exact condition. The C++ standard
  leaves `std::copy` undefined there; the model takes the order front to back.
- `module.hpp:113`: registering over a loader of the same type does free that loader. `RegisteredTwice` is
  an input where the loader registered is the one freed, `RegisterLive` the exact condition.
- `module.hpp:352-355`: an import returns a loader's error value as if it were the module, and does not
  keep it. `ErrorPassedOn` says exactly when, and in `ErrorThenModule` two imports in a row return different
  values; `RepeatedStable` and `RepeatedKept` say when they do not.
- `module.hpp:336-349`: a module that is imported again while it is being loaded is loaded twice, and the one
  loaded last replaces the other. `ImportedTwice` is an input, `EnclosingWins` the exact condition.
- `module.hpp:72-99`: set up a second time in one context, the framework throws and leaves no registry; the
  loaders of the first one are never freed. The engine counts references (`duk_config.h:2892`), so overwriting
  the registry runs its finaliser, which finds and removes the new registry (`Init`).
- `k3xsx_salt.hpp:66-106`: source and destination in one array. `SealsFaithfully` and `OpensFaithfully` say
  for which windows the result is right; `InPlaceLosesByte` is an input where it is not.
- `basic_server.hpp:401-403`: the scan starts from the count of the current service but from position 0,
  so a busy service 0 may be taken. `SwitchToBusy` is an input, `LeastLoaded` the exact condition.

## Model

| member | source | states |
|---|---|---|
| Fragmentations.Fragmentation.constructor | include/kg/bytes/fragmentation.hpp:52-67 | a new block of the capacity asked for, empty, apart from every existing one |
| Fragmentations.Fragmentation.Reinit | include/kg/bytes/fragmentation.hpp:96-99 | the block is empty again and keeps its capacity |
| Fragmentations.Fragmentation.GetFree | include/kg/bytes/fragmentation.hpp:133-136 | the room behind the unread bytes |
| Fragmentations.Fragmentation.Write | include/kg/bytes/fragmentation.hpp:146-158 | the unread bytes grow by as much of the input as fits |
| Fragmentations.Fragmentation.Read | include/kg/bytes/fragmentation.hpp:171-184 | the first bytes move to the destination, which changes nowhere else, and the offset passes them |
| Fragmentations.Fragmentation.CopyTo | include/kg/bytes/fragmentation.hpp:197-207 | the first bytes are copied and the block stays as it is |
| Fragmentations.Fragmentation.CopyToSkipping | include/kg/bytes/fragmentation.hpp:222-239 | the bytes behind the first `skip` are copied, nothing if there are none |
| Buffers.Buffer.constructor | include/kg/bytes/buffer.hpp:50-52 | an empty queue that keeps no fragment |
| Buffers.Buffer.Reset | include/kg/bytes/buffer.hpp:61-75 | the queue is empty; which fragment is kept, even one that still holds data |
| Buffers.Buffer.ResetCache | include/kg/bytes/buffer.hpp:79-82 | no fragment is kept and the queue stays as it is |
| Buffers.Buffer.Size | include/kg/bytes/buffer.hpp:87-95 | the number of unread bytes |
| Buffers.Buffer.Write | include/kg/bytes/buffer.hpp:105-176 | all bytes are appended; ownership and shape hold again; a fragment is added exactly when one is wanted: the kept one if it is large enough, and else a new one of the size wanted |
| Buffers.Buffer.CreateFragmentation | include/kg/bytes/buffer.hpp:183-206 | an empty fragment that is not in the list: the kept one if large enough, else a new one; the queue is untouched |
| Buffers.Buffer.CopyTo | include/kg/bytes/buffer.hpp:219-236 | the first bytes of the queue, across fragments, are copied and nothing else changes |
| Buffers.Buffer.CopyToSkipping | include/kg/bytes/buffer.hpp:248-286 | what the skipping copy delivers, over any shape of the queue |
| Buffers.Buffer.Read | include/kg/bytes/buffer.hpp:296-316 | the first bytes leave the queue in order; which fragments leave the list and which one is kept |
| Buffers.Buffer.GetReadFragmentation | include/kg/bytes/buffer.hpp:321-336 | the first fragment with bytes to read, without loss of bytes |
| Buffers.Buffer.CacheFragmentation | include/kg/bytes/buffer.hpp:340-346 | a fragment is kept if none is or the kept one holds less |
| Buffers.Buffer.RemoveNoReadFragmentation | include/kg/bytes/buffer.hpp:351-363 | no drained fragment stays in the list |
| Buffers.Buffer.FragmentBound | include/kg/bytes/buffer.hpp:105-206 | the list is empty exactly when the queue is, and with k fragments, k at least 2, the queue holds at least (k-2) capacities and 2 bytes |
| Segments.ShapeBound | include/kg/bytes/buffer.hpp:105-206 | the same bound for any list in the shape the operations keep |
| Segments.WantedLeast | include/kg/bytes/buffer.hpp:105-176 | a fragment is wanted exactly when the bytes do not fit into the back one, and the size wanted is the least that takes what is left and, but for the first fragment, is no less than the reference capacity |
| Segments.AppendTwice | include/kg/bytes/buffer.hpp:147-175 | filling the back fragment and opening a new one keeps the shape and appends the bytes |
| Segments.DrainFront | include/kg/bytes/fragmentation.hpp:171-184 | reading from the front fragment takes a prefix of the whole |
| Skipping.SkippedFormula | include/kg/bytes/buffer.hpp:248-286 | a skip ending k bytes into fragment j leaves every fragment from j on without its first k bytes |
| Skipping.SkippedAll | include/kg/bytes/buffer.hpp:248-286 | a skip beyond the end delivers nothing |
| Skipping.SkipPromise | include/kg/bytes/buffer.hpp:237-286 | the documented result is delivered for all bytes exactly when the skip is 0 or passes the end, or ends in the last fragment or in one that holds all that is asked for |
| Skipping.FaithfulCopies | include/kg/bytes/buffer.hpp:237-286 | under that condition the copy is the contents behind the skip |
| Skipping.UnfaithfulWitness | include/kg/bytes/buffer.hpp:251-270 | outside it there are bytes for which it is not |
| Skipping.SkipLosesByte | include/kg/bytes/buffer.hpp:251-270 | two fragments where skipping one byte loses another |
| QueueRuns.FirstInFirstOut | include/kg/bytes/buffer.hpp:105-176 | without a reset, bytes held before and written are bytes handed out and held after, in order |
| QueueRuns.Replay | include/kg/bytes/buffer.hpp:61-316 | any run of write, read and reset on a buffer is the run on a plain queue |
| Framing.Format.LookMeans | include/kg/net/echo_server.hpp:215-247 | what the verdict on the bytes in hand says of messages, a message being as long as the reader answers for its header: a whole message is in front, or every continuation of the right length is one, or none ever will be |
| Framing.Format.Decompose | include/kg/net/echo_server.hpp:215-257 | messages, each as long as its own header says, and rest make up the stream, and no message starts the rest |
| Framing.Format.FramesUnique | include/kg/net/echo_server.hpp:215-257 | no other list of messages does |
| Framing.Format.FramesOfConcat | include/kg/net/echo_server.hpp:215-257 | messages at the front of a stream are its first messages |
| Framing.Format.FramesExtend | include/kg/net/echo_server.hpp:215-257 | later bytes never change messages already complete |
| Framing.Format.LookExtends | include/kg/net/echo_server.hpp:215-247 | a verdict on a complete header is final |
| Framing.Format.AfterJoins | include/kg/net/echo_server.hpp:248-257 | the first d messages and what follows them make up the stream |
| EchoServers.EchoServer.constructor | include/kg/net/echo_server.hpp:57-72 | a negative header size counts as none |
| EchoServers.EchoServer.ForwardReaded | include/kg/net/echo_server.hpp:192-264 | what a chunk does without callbacks and without a reader, buffer and length untouched, and with both: as `Receive`, which looks at the pending bytes afresh |
| EchoServers.EchoServer.Unpack | include/kg/net/echo_server.hpp:207-263 | the framing step with its remembered length does what looking afresh does, and remembers the reader's answer for the header in front |
| EchoServers.EchoServer.ReadHeader | include/kg/net/echo_server.hpp:215-241 | the length of the message in front is the reader's answer for its header, once that is there; waiting and refusal are told apart |
| EchoServers.EchoServer.ReadBody | include/kg/net/echo_server.hpp:243-257 | a whole message leaves the buffer and goes to the callback, an incomplete one stays |
| EchoServers.EchoServer.CoroutineRead | include/kg/net/basic_server.hpp:434-498 | the read loop over any chunks and with either callback missing, ending at the first refusal |
| EchoServers.ServeClosed | include/kg/net/basic_server.hpp:469-475 | after a refusal no chunk is looked at |
| ServerRuns.OpenRun | include/kg/net/echo_server.hpp:192-264 | an open run has handed over exactly the first `Pace` messages of the stream, and these with the bytes held are all bytes received |
| ServerRuns.Refusal | include/kg/net/echo_server.hpp:236-254 | a chunk is refused exactly when the first message not handed over has a complete header that announces too little, or the callback refuses the message handed over |
| ServerRuns.RefusedHeaders | include/kg/net/echo_server.hpp:237-240 | a complete header is refused as documented, and beyond that exactly for a message of no bytes |
| ServerRuns.EmptyMessageRefused | include/kg/net/echo_server.hpp:237-240 | the documentation lets the empty message pass, and it ends the connection |
| ServerRuns.DeliveredPrefix | include/kg/net/echo_server.hpp:192-264 | open or refused, what was handed over is a prefix of the stream's messages |
| ServerRuns.RefusedRun | include/kg/net/echo_server.hpp:236-254 | what a refused run has handed over and holds: all messages complete at the first chunk refused, or those up to the one its callback refused |
| ServerRuns.DeliveredWhole | include/kg/net/echo_server.hpp:233-249 | every message handed over is as long as the reader says of its own header |
| ServerRuns.FrontOfStream | include/kg/net/echo_server.hpp:192-264 | open or refused, what was handed over and what is held make up the front of the stream, and all of it while open |
| ServerRuns.ChunkingIrrelevant | include/kg/net/echo_server.hpp:192-264 | two ways to cut a stream deliver prefixes of one another, and servers equally far are in the same state |
| ServerRuns.PaceClosedForm | include/kg/net/echo_server.hpp:243-257 | the pace is the least, over all earlier moments, of what was complete then plus one message a chunk since |
| ServerRuns.CaughtUp | include/kg/net/echo_server.hpp:243-257 | everything complete is handed over exactly when no stretch of chunks up to the end completed more messages than it has chunks |
| ServerRuns.MessageLeftBehind | include/kg/net/echo_server.hpp:243-257 | a chunk with two messages leaves the second behind |
| EchoClients.EchoClient.ReaderMessage | include/kg/net/echo_client.hpp:195-252 | in every state, with and without a reader and bytes given: what is returned or thrown, what is remembered, and the bytes left |
| EchoClients.EchoClient.ReadHeader | include/kg/net/echo_client.hpp:209-233 | the length is learned once the header is there; a refused one stays remembered |
| EchoClients.EchoClient.ReadBody | include/kg/net/echo_client.hpp:235-245 | a message of the length remembered leaves the buffer when it is whole; a negative length is never reached |
| EchoClients.EchoClient.ReadSome | include/kg/net/echo_client.hpp:287-287 | one chunk comes into the front of the receive block |
| EchoClients.EchoClient.Read | include/kg/net/echo_client.hpp:277-308 | in every state: chunks are taken until the bytes in hand decide, and the loop ends; without a reader a chunk is lost |
| EchoClients.BytesGiven | include/kg/net/echo_client.hpp:199-205 | bytes given to parse are parsed, in every state, exactly if the receive block starts with the very same bytes |
| EchoClients.BytesGivenLost | include/kg/net/echo_client.hpp:199-205 | a client given the message 7 returns 0 |
| EchoClients.RememberedIsFresh | include/kg/net/echo_client.hpp:209-244 | a length remembered before a framing error makes no difference: a read does what looking at the bytes afresh does |
| EchoClients.AfterBadHeader | include/kg/net/echo_client.hpp:229-244 | what the read after a framing error does, by the reader's answer, and exactly when it reports the error again |
| ClientRuns.FetchTakesLeast | include/kg/net/echo_client.hpp:277-308 | a read takes the fewest chunks that decide |
| ClientRuns.FetchMessage | include/kg/net/echo_client.hpp:277-308 | a read returns the stream's next message exactly if there is one, and reports a framing error exactly when the next header is bad |
| ClientRuns.ReadsReturnFrames | include/kg/net/echo_client.hpp:277-308 | n reads return the first n messages of the stream, whatever the chunks |
| ClientRuns.ReadsReturnWhole | include/kg/net/echo_client.hpp:225-245 | every message returned is as long as the reader says of its own header |
| ClientRuns.ReadMany | include/kg/net/echo_client.hpp:277-308 | n reads of a client return the first n messages of its stream, each as long as its own header says |
| ClientRuns.LastRead | include/kg/net/echo_client.hpp:229-232 | after the last message the next read reports the framing error or the end, and no byte is lost |
| ClientRuns.ReadsTakeLeast | include/kg/net/echo_client.hpp:279-306 | the chunks taken for n messages are the fewest whose bytes complete n messages |
| ClientRuns.ChunkingIrrelevant | include/kg/net/echo_client.hpp:277-308 | two ways to cut a stream give the same messages, read for read |
| Slices.Slice.At | include/kg/slice_impl.hpp:424-432 | the element shown at an index, and the range error exactly beyond the size |
| Slices.Slice.RangeFrom | include/kg/slice_impl.hpp:171-186 | fails exactly beyond the size, and otherwise yields a window within the array |
| Slices.Slice.Range | include/kg/slice_impl.hpp:203-227 | fails exactly beyond the capacity, and otherwise yields a window within the array |
| Slices.RangeComposes | include/kg/slice_impl.hpp:203-227 | a sub-slice of a sub-slice is the sub-slice with the positions added, errors included |
| Slices.RangeFromComposes | include/kg/slice_impl.hpp:171-186 | the same for sub-slices to the end |
| Slices.RangeShows | include/kg/slice_impl.hpp:171-227 | within the size a sub-slice shows the part of the view it names |
| Slices.RangeCells | include/kg/slice_impl.hpp:203-227 | which cells a sub-slice shows for every two positions, an end beyond the capacity standing for the capacity, and where it may grow |
| Slices.EqualIsSame | include/kg/slice_impl.hpp:151-158 | slices found equal have equal capacity although it is not compared |
| Slices.Make | include/kg/slice_impl.hpp:92-106 | size and capacity of a new slice |
| Slices.GrownRule | include/kg/slice_impl.hpp:258-331 | what does not fit doubles the capacity if that is enough, and else gets just the room needed |
| Slices.AppendOne | include/kg/slice_impl.hpp:242-280 | which cell changes in place, exactly when the new slice shows the element there, and concatenation in new memory |
| Slices.AppendOneShows | include/kg/slice_impl.hpp:254-255 | the exact condition for that, cell by cell |
| Slices.AppendOnePromise | include/kg/slice_impl.hpp:254-255 | the element appended is shown whatever the cells hold exactly for windows that start their array |
| Slices.AppendOneOverwrites | include/kg/slice_impl.hpp:242-256 | a slice in the middle of its array overwrites its own element |
| Slices.AppendArray | include/kg/slice_impl.hpp:296-341 | the cells written and no others, and the elements moved; concatenation in new memory always, and in place unless the copy overruns |
| Slices.Reallocate | include/kg/slice_impl.hpp:313-339 | the larger array shows the old view and the new elements, and no existing array changes |
| Slices.AppendSlice | include/kg/slice_impl.hpp:355-362 | the result shows both old views even when they share an array, unless the copy overruns; cells outside the appended stretch keep their value |
| Slices.CopyFromArray | include/kg/slice_impl.hpp:374-387 | the smaller length is copied, and no other cell changes |
| Slices.CopyFrom | include/kg/slice_impl.hpp:398-405 | the prefix becomes the old prefix of the source unless the copy overruns |
| SliceRuns.AppendItem | include/kg/slice_impl.hpp:242-362 | appending an element, an array, a slice or a part of itself to a slice that starts its array shows both |
| SliceRuns.AppendAll | include/kg/slice_impl.hpp:242-362 | a chain of appends from the empty slice shows everything appended, and the elements its copies moved to larger arrays are at most the final capacity, which is below twice the size |
| SliceRuns.AmortizedGrowth | include/kg/slice_impl.hpp:258-339 | the bound for any list of lengths appended |
| SliceRuns.OneAppend | include/kg/slice_impl.hpp:313-339 | appended to the empty slice n elements get room for n, and none is moved |
| SliceRuns.OneByOne | include/kg/slice_impl.hpp:258-280 | appended one by one n elements end in an array of the least power of two that holds them, and one less than that have been moved |
| Copying.Copy | include/kg/slice_impl.hpp:310-310 | the loop front to back, on separate arrays and on one, and the assignments it makes |
| Copying.ShiftedCell | include/kg/slice_impl.hpp:310-310 | each cell after an overlapping copy: the stretch between the two starts repeats |
| Copying.CopyFaithful | include/kg/slice_impl.hpp:309-310 | the copy delivers the source for all contents exactly when the destination does not start strictly inside the source |
| SearchPaths.TrimTakesBlanks | include/kg/scripts/duktape-extras/module.hpp:324-324 | trimming takes off all blanks at both ends, and nothing else |
| SearchPaths.TrimOnly | include/kg/scripts/duktape-extras/module.hpp:336-336 | what stands between blanks comes out, whatever the blanks |
| SearchPaths.SplitGlued | include/kg/scripts/duktape-extras/module.hpp:330-335 | the pieces hold no separator, and with separators between them are the path |
| SearchPaths.SplitOnly | include/kg/scripts/duktape-extras/module.hpp:330-335 | no other pieces do |
| SearchPaths.PathPlaces | include/kg/scripts/duktape-extras/module.hpp:323-337 | a path of any pieces names those that are not blank, trimmed and in order; trimming it as a whole makes no difference |
| Registry.Imported | include/kg/scripts/duktape-extras/module.hpp:187-311 | an import, with all imports inside it, changes nothing but by adding modules to libraries, and replaces none that was kept before it |
| RegistryRuns.SearchFirst | include/kg/scripts/duktape-extras/module.hpp:316-362 | the search ends at the first place not blank whose answer is not undefined; without one every place has been asked |
| RegistryRuns.PlacesOfPath | include/kg/scripts/duktape-extras/module.hpp:318-339 | the places a loader is asked at, in terms of the environment: those its path names, none without a path |
| RegistryRuns.TryReturns | include/kg/scripts/duktape-extras/module.hpp:223-256 | what a type offers: the module it keeps, or the first answer of its loader over the search path, kept exactly if it is a module |
| RegistryRuns.TypedReturns | include/kg/scripts/duktape-extras/module.hpp:213-260 | exactly when a typed import returns what, and when it throws which error; what it keeps and how often the loader is asked |
| RegistryRuns.ImportReturns | include/kg/scripts/duktape-extras/module.hpp:187-311 | exactly when `kg_import`, with a type or without, returns what and throws which error |
| RegistryRuns.OutcomeUnique | include/kg/scripts/duktape-extras/module.hpp:187-311 | there is no other outcome |
| RegistryRuns.NestedReturns | include/kg/scripts/duktape-extras/module.hpp:187-311 | the same for an import inside a loader call |
| RegistryRuns.RegisteredAsks | include/kg/scripts/duktape-extras/module.hpp:121-154 | a loader registered is the one its type asks from then on, for every module anew; other types, and the order, stay |
| RegistryRuns.ErrorPassedOn | include/kg/scripts/duktape-extras/module.hpp:352-355 | an import returns a value that is not kept exactly when the first answer over the search path is an error and no import inside kept that very value |
| RegistryRuns.KeptIsFree | include/kg/scripts/duktape-extras/module.hpp:230-234 | an import that returned is repeated without a loader call exactly when what it returned is kept |
| RegistryRuns.ErrorThenModule | include/kg/scripts/duktape-extras/module.hpp:352-355 | two imports in a row return an error value and then a module |
| RegistryRuns.UntypedErrorThenModule | include/kg/scripts/duktape-extras/module.hpp:352-355 | so do two imports without a type |
| RegistryRuns.LoadedInTurn | include/kg/scripts/duktape-extras/modules/loader.hpp:59-68 | a loader call is a chain of imports, each decided by the results so far, and an answer made from all of them |
| RegistryRuns.NestedStays | include/kg/scripts/duktape-extras/module.hpp:340-349 | what an import inside a loader call kept is kept when that call ends |
| RegistryRuns.EnclosingWins | include/kg/scripts/duktape-extras/module.hpp:340-349 | and when the enclosing import ends, exactly unless that one keeps another module under the same type and name |
| RegistryRuns.ImportedTwice | include/kg/scripts/duktape-extras/module.hpp:340-349 | a module that imports itself gets a module that is replaced at once |
| RegistryRuns.CachedStays | include/kg/scripts/duktape-extras/module.hpp:187-362 | a loaded module stays over any run until its type is registered again |
| RegistryRuns.ImportMemoised | include/kg/scripts/duktape-extras/module.hpp:230-234 | a later import returns the identical value without a loader call |
| RegistryRuns.UntypedReturns | include/kg/scripts/duktape-extras/module.hpp:263-307 | an untyped import returns what the first type in enumeration order offers that offers the module; it throws, changing nothing, exactly when none does |
| RegistryRuns.UntypedKeeps | include/kg/scripts/duktape-extras/module.hpp:263-305 | what it returns is kept under that type exactly if it was kept before or is no error value |
| RegistryRuns.UntypedMemoised | include/kg/scripts/duktape-extras/module.hpp:275-279 | what it kept is what every later typed import of that type returns, without a loader call |
| RegistryRuns.UntypedStays | include/kg/scripts/duktape-extras/module.hpp:263-305 | it stays kept, by a type of the same rank, over any run that does not register the type again |
| RegistryRuns.KeptReturned | include/kg/scripts/duktape-extras/module.hpp:275-279 | a kept module is what an untyped import returns exactly unless a type before its own offers something else |
| RegistryRuns.UntypedIdempotent | include/kg/scripts/duktape-extras/module.hpp:263-305 | with stable loaders that import nothing themselves an untyped import repeated returns the same and changes nothing more |
| LoaderRuns.RegisteredOwes | include/kg/scripts/duktape-extras/module.hpp:121-154 | registering frees the loader replaced and owes the new one |
| LoaderRuns.Ownership | include/kg/scripts/duktape-extras/module.hpp:116-186 | over any run, what was freed and what the finaliser would free grow by what is registered |
| LoaderRuns.FreedAsRegistered | include/kg/scripts/duktape-extras/module.hpp:116-186 | from init to the finaliser a loader is freed as often as it was registered with a function for that |
| LoaderRuns.RegisterLive | include/kg/scripts/duktape-extras/module.hpp:121-154 | registering leaves no freed loader in the registry exactly when the loader was not freed before and is not the one replaced |
| LoaderRuns.NoFreedLoader | include/kg/scripts/duktape-extras/module.hpp:116-311 | over any run in which no loader is registered twice no freed loader can be reached |
| LoaderRuns.FreedNotCalled | include/kg/scripts/duktape-extras/module.hpp:187-311 | then what freed loaders would do makes no difference to an import nor to the imports inside it |
| LoaderRuns.RegisteredTwice | include/kg/scripts/duktape-extras/module.hpp:121-154 | a loader registered twice in a row is freed and still in the registry |
| Modules.PutType | include/kg/scripts/duktape-extras/module.hpp:138-154 | the objects built amount to the type registered, and no other type changes |
| Modules.PutLib | include/kg/scripts/duktape-extras/module.hpp:342-349 | keeping a module changes the libraries of its type only |
| Modules.Module.Init | include/kg/scripts/duktape-extras/module.hpp:72-99 | succeeds exactly where no registry is yet, with the finaliser attached, the loaders of the library registered and the stack as found; otherwise it throws, and no registry is left and no loader freed; of the other globals exactly `kg_import` is set |
| Modules.Module.Install | include/kg/scripts/duktape-extras/module.hpp:74-91 | an empty registry with its finaliser exactly where there was none, and else none; the import function in any case |
| Modules.Module.StoreRegistry | include/kg/scripts/duktape-extras/module.hpp:76-82 | an empty registry with its finaliser is stored, and no other global changes |
| Modules.Module.DefineImport | include/kg/scripts/duktape-extras/module.hpp:85-88 | the import function is stored under its name, and no other global changes |
| Modules.Module.RegisterDefaults | include/kg/scripts/duktape-extras/module.hpp:94-97 | the loaders of the library are registered in order |
| Modules.Module.RegisterLoader | include/kg/scripts/duktape-extras/module.hpp:116-158 | the type is registered, the loader replaced is freed, and the stack and the other globals are as found |
| Modules.Module.NativeDestory | include/kg/scripts/duktape-extras/module.hpp:160-186 | every loader with a function for that is freed, in enumeration order, the registry is gone, and the stack and the other globals, the import function among them, are as found |
| Modules.Module.NativeImport | include/kg/scripts/duktape-extras/module.hpp:187-311 | the argument errors, and else the typed or untyped import on the registry as a value, imports inside included; the value returned is on top of the stack, and of the objects there before only libraries have changed |
| Modules.Module.CallImport | include/kg/scripts/duktape-extras/module.hpp:85-88 | a call from a script leaves the stack and the globals as found |
| Modules.Module.ModuleImport | include/kg/scripts/duktape-extras/modules/loader.hpp:59-68 | a loader call leaves one value on the stack, whatever was imported meanwhile |
| Modules.Module.ImportTyped | include/kg/scripts/duktape-extras/module.hpp:213-260 | the typed import, with its errors |
| Modules.Module.ImportFrom | include/kg/scripts/duktape-extras/module.hpp:223-256 | what a type offers, and what is left on the stack above it in each case |
| Modules.Module.AskLoader | include/kg/scripts/duktape-extras/module.hpp:237-256 | the same once the libraries do not hold the module |
| Modules.Module.ImportUntyped | include/kg/scripts/duktape-extras/module.hpp:261-308 | the loop over the types, with registry and enumeration back on the stack after every turn |
| Modules.Module.TryType | include/kg/scripts/duktape-extras/module.hpp:267-303 | every path that goes on restores the stack below the type |
| Modules.Module.ImportPkg | include/kg/scripts/duktape-extras/module.hpp:316-362 | the answer searched for is on the stack, kept if it was a success; without one the stack is as found |
| Modules.Module.ImportPath | include/kg/scripts/duktape-extras/module.hpp:339-356 | the same for one place |
| ModuleRuns.Call | include/kg/scripts/duktape-extras/module.hpp:116-311 | a registration or an import called from a script does what it does on the registry as a value; an import has the outcome described |
| ModuleRuns.Replay | include/kg/scripts/duktape-extras/module.hpp:116-311 | any run of registrations and imports does, result by result |
| ModuleRuns.RepeatedStable | include/kg/scripts/duktape-extras/module.hpp:187-311 | with stable loaders that import nothing themselves any import made n times returns n times the same |
| ModuleRuns.RepeatedKept | include/kg/scripts/duktape-extras/module.hpp:230-234 | with any loaders, imports of a type do once the module is kept |
| ModuleRuns.ReplayToEnd | include/kg/scripts/duktape-extras/module.hpp:116-311 | any run and then the finaliser |
| ModuleRuns.Session | include/kg/scripts/duktape-extras/module.hpp:72-311 | from `init` to the finaliser every loader is freed as often as it was registered with a function for that, the registry is gone, the stack is as found and the import function is still there |
| Scheduler.BasicServer.constructor | include/kg/net/basic_server.hpp:227-238 | the first block starts at service 0; a block of 0 counts as 10 |
| Scheduler.BasicServer.GetService | include/kg/net/basic_server.hpp:393-415 | within a block the service stays; at its end the first least loaded of the services 1.. is taken if it has fewer clients than the current one, else service 0 |
| Scheduler.SwitchUnique | include/kg/net/basic_server.hpp:401-412 | the counts settle the choice |
| Scheduler.Replay | include/kg/net/basic_server.hpp:393-415 | any run of calls on a server, with the counts set anew before each, is such a run and returns the services at its positions |
| Scheduler.RunInBlocks | include/kg/net/basic_server.hpp:393-415 | over any run calls come in blocks of exactly `poll`, the first returning service 0 |
| Scheduler.LeastLoaded | include/kg/net/basic_server.hpp:401-412 | the exact condition for the choice to be a least loaded service |
| Scheduler.LeastLoadedFromZero | include/kg/net/basic_server.hpp:401-412 | from service 0 it always is |
| Scheduler.SwitchToBusy | include/kg/net/basic_server.hpp:401-403 | counts where an idle service is left for a busy one |
| Cipher.SwapBitsReverses | include/kg/crypto/k3xsx_salt.hpp:138-141 | the four exchanges reverse the byte |
| Cipher.ShlLoopBits | include/kg/crypto/k3xsx_salt.hpp:221-233 | a rotation moves every bit up by the count, round the byte |
| Cipher.EncryptedByte | include/kg/crypto/k3xsx_salt.hpp:131-148 | the three steps on bytes, the carry of salt plus base salt not mattering |
| Cipher.EncryptedBits | include/kg/crypto/k3xsx_salt.hpp:131-148 | every bit of an encrypted byte, in terms of one bit of the byte and of the salts |
| Cipher.ByteRoundTrip | include/kg/crypto/k3xsx_salt.hpp:131-172 | encryption and decryption of a byte undo each other for all salts |
| Cipher.RoundTrip | include/kg/crypto/k3xsx_salt.hpp:66-106 | every message comes back, and every cipher text long enough is the one of its message |
| Cipher.K3xsxSalt.Encryption | include/kg/crypto/k3xsx_salt.hpp:66-77 | from any window to any window: the salts and the encrypted bytes are where they belong and nothing else changes, unless a cell read was written before; the exact array in every case |
| Cipher.K3xsxSalt.Decryption | include/kg/crypto/k3xsx_salt.hpp:87-106 | fails exactly below three bytes, and otherwise the same for the message |
| Cipher.EncryptedClean | include/kg/crypto/k3xsx_salt.hpp:66-77 | encryption that reads no cell it has written delivers the encrypted message |
| Cipher.DecryptedClean | include/kg/crypto/k3xsx_salt.hpp:87-106 | decryption that reads no cell it has written delivers the message |
| CipherWindows.SealsFaithfully | include/kg/crypto/k3xsx_salt.hpp:66-77 | within one array encryption is right for all contents exactly when the message lies before the salts or behind them |
| CipherWindows.OpensFaithfully | include/kg/crypto/k3xsx_salt.hpp:87-106 | within one array decryption is right for all contents exactly for at most one byte, onto the message itself, behind it, or with its last byte at most on the first salt |
| CipherWindows.InPlace | include/kg/crypto/k3xsx_salt.hpp:66-106 | at the same place exactly the empty message is encrypted rightly and at most one byte decrypted; between a message and the salts in front of it both always work |
| CipherWindows.InPlaceLosesByte | include/kg/crypto/k3xsx_salt.hpp:87-106 | a message of two bytes decrypted wrongly at the same place |
| Passes.PassedClean | include/kg/crypto/k3xsx_salt.hpp:72-76 | a loop that reads no cell it has written makes every element of the arrays as they were, and changes nothing else |

## Left out

- Sockets, coroutines, timers, threads and locking, address parsing and error categories: input and output.
- Allocation failure, and the error returns and exceptions that follow from it; sizes do not overflow, and `_capacity` is not negative.
- The fragment's `reset`, which frees its block: only the destructor calls it.
- Fragmentations.Fragmentation.Write: the bytes to write are a string, so a source inside the same block is not modelled; no block is reachable from outside.
- The session object passed to the callbacks, and the callbacks for connecting and closing.
- EchoClients.EchoClient.ReaderMessage: no more bytes are given to parse than the receive block has; the original reads beyond the block then.
- EchoClients.EchoClient.Read: the elements of the unfilled slice are arbitrary; the model returns its length.
- Slices.Make: the elements of a new array are arbitrary; the model does not run constructors.
- Copying.Copy: front to back; the C++ standard leaves a copy undefined when the destination starts inside the source.
- Modules.Module.NativeImport: values inherited from prototypes are not found; the registry and its types are tables that scripts have not replaced, and no loader is registered while another loads.
- RegistryRuns.UntypedIdempotent: for loaders that import nothing while they load; what the imports inside a failed one leave behind may change what the next one comes to.
- Duktape.Context.Next: no property is deleted during an enumeration; enumeration order is the order of insertion, so names that look like numbers are not put first.
- The loaders for script and native modules: their answers are parameters, and the search path is split at a colon.
- Cipher.K3xsxSalt.Encryption: the salts drawn are a parameter.
- Modules.Module.Init: scripts do not keep the registry object, so overwriting it is its end; and the property of its name in the global object is the framework's own.
