# Verification of gbuf

A Dafny model of the containers and stream adapters of gbuf, a generic (type-parameterised) version of
Go's `bytes.Buffer`, `bufio`, `container/heap`, `container/ring` and `container/list`, with a drop-oldest ring
buffer of its own. Each structure has a simple meaning as a sequence that is hidden behind cursors, capacities
or pointers; the project proves that every operation keeps to that meaning, and then what the meaning promises.

| file | content |
|---|---|
| Streams.dfy | sources and sinks: scripts of chunks, empty reads and errors; what a reading loop sees of a script |
| Lines.dfy | the line split of a sequence, that it is lossless and unique, and that it undoes writing lines out |
| Scanner.dfy | the scanner's pull loop over a sliding, growing buffer |
| Reader.dfy | the buffered reader and its delimiter-based operations |
| Conservation.dfy | runs over any mix of reader operations |
| Agreement.dfy | the scanner's tokens are the lines that ReadLine gives, and those that a writer was given |
| Writer.dfy | the buffered writer |
| Buffer.dfy | the growable buffer, and what its growth policy costs over whole runs |
| Heap.dfy | the heap routines, their effect and their number of comparisons |
| RingBuffer.dfy, RingFilter.dfy | the drop-oldest ring buffer, and the filter that runs in lockstep with it |
| Ring.dfy | circular lists: linking, unlinking, walking |
| List.dfy | the sentinel list as a sequence under edits |

`dafny verify dfyconfig.toml` checks the whole project.

## How things are modelled

- **Objects.** Every structure whose methods change its fields is a class with those fields. `Valid()` ties them to
  ghost contents (`held`, `contents`, `elems`), or a function gives the abstract state (`St()`). Methods state
  the new contents as a function of the old ones; the theorems about those functions are lemmas. Go's panics are
  preconditions; error returns are results.
- **Sources** hold a finite script. Each step is a chunk of any size with or without an error; a chunk larger than
  the room offered is handed out over several reads; there may be runs of empty reads, and items after an error.
  `Streams.Deliver` is the segment of the stream up to the first stop, whatever the chunks. A source for the
  scanner may also end by returning an impossible count. **Sinks** answer each call with full acceptance, or
  partial acceptance with or without an error.
- **Ring** methods take the ring as a ghost sequence of its elements from the receiver on. The zero value, whose
  pointers are still nil, counts as a ring of one, and is initialised where the code does so.
- **Views.** Slices into a buffer are returned as bounds, since the next read may overwrite them.
- **Excluded item.** gbufio/scanner.go:289 compares `*zero` with nil, which is not possible for a type parameter
  constrained by `comparable`. The model follows the declaration at gbufio/scanner.go:32, "Ignored if nil": an optional item.

## Where the code departs from its documentation

The model follows the code. Where contents are concerned, the lemmas named here say exactly when the two agree.

- `RingBuffer.Write` of at least Cap items reports Cap, not `len(p)`, and puts the items at the front of the array
  whatever the write cursor is, so they come out rotated: `RingBuffers.LongWriteRotates`,
  `RingBuffers.WriteKeepsLastIff`. (The test case with the output "lyear" in ringbuffer_test.go:80-86 pins this down.)
- `RingBuffer.ReadFrom` does not count or keep the items that come along with an error; in a full ring they take the
  place of the oldest, and the cursors may be left unsound: `RingBuffers.LastRoundDecides`,
  `RingBuffers.StreamKeepsLast`, `RingBuffers.FailedRoundIsSoundIff`, `RingBuffers.FailedRoundLeaves`.
- `RingBuffer.WriteTo` offers stale items when the ring is empty (`RingBuffers.OfferedIsContentsIff`), and empties a
  full ring when the sink takes nothing, even without an error (`RingBuffers.SentNothing`,
  `RingBuffers.DrainedKeepsRest`). `ReadItem` hands out a stale item when the ring is empty
  (`RingBuffers.ReadItemTakesOldest`). `Read` reports nothing, not EOF, when the ring is empty.
- `RingFilter.ReadFrom` keeps the write cursor in place when the process function refuses a chunk; the ring may then
  be marked full with unequal cursors: `RingFilters.RefusedIsSoundIff`, `RingFilters.RefusedLeaves`.
- `Reader.Discard` does not look at an error that is pending while the buffer is empty before it reads on:
  `Readers.DiscardedPastLooksIff`.
- `Reader.WriteTo` reads on past errors that come along with items, and past a pending one:
  `Readers.DrainIsDeliverIff`, `Readers.DrainedIsAheadIff`.
- Elements that survive an `Init` of their list still name that list, so the list operations do not leave it alone when
  they are given such a stray element, as the documentation says they do for elements of other lists. A stray element
  may take the place of the list's element that has the same neighbours (its twin), which is then lost. The contracts
  say exactly when the list is that of the elements they name afterwards; otherwise its pointers or length are those of
  no list, or of a list of other elements. `Lists.RemoveAfterInit` is an example.
- `Ring.Unlink(n)` with n a multiple of the length removes nothing but still returns the next element.
- An unterminated last line that exactly fills the scanner's largest buffer is delivered only if the stop comes along
  with its last item: `Scanners.FullUnterminatedLine`.
- Scanning does not stop for good at a line that is too long: the next `Scan` hands out the full buffer as a token.
  After any other failure it does stop: `Scanners.ScanOn`.
- The heap's documentation asks for the invariant before Push, Pop, Remove and Fix; what these routines do is modelled
  without it, and what it brings is an implication in the contracts.

## Model

| member | source | states |
|---|---|---|
| Streams.AnswerWithinSegment | gbufio/scanner.go:203-231 | One read, whatever its size and outcome, never changes what a reading loop is going to see of the stream: the cut the source makes does not show |
| Streams.DeliverConserves | gbufio/scanner.go:203-231 | The segment up to the first stop and what follows it are together every item of the stream |
| Lines.SplitIsLossless | gbufio/scanner.go:301-315 | The delimited lines and the rest, put together, are the input; every line ends in its only delimiter, and the rest has none |
| Lines.SplitIsUnique | gbufio/scanner.go:301-315 | There is no other way to cut an input into delimited lines and a rest without delimiter |
| Lines.ExcludedIsDropped | gbufio/scanner.go:288-293 | One trailing item is dropped, exactly if it is the excluded one |
| Lines.MarkedLinesComeBack | gbufio/scanner.go:288-315 | Lines without delimiter, written out with the excluded item and the delimiter after each, are split back into just those lines |
| Lines.PlainLinesComeBackIff | gbufio/scanner.go:288-315 | Written out with the delimiter alone they come back if and only if none of them ends in the excluded item |
| Lines.LastLineComesBack | gbufio/scanner.go:311-313 | A last line without delimiter comes back as well, but for an excluded item at its end |
| Scanners.ScannedByLines | gbufio/scanner.go:134-234 | The outcome of a whole scan, defined token by token, is the list of leading lines that fit the limit and then either ErrTooLong or the last unterminated line and the stop |
| Scanners.ChunkingIsInvisible | gbufio/scanner.go:134-234 | If every line fits, a scan of any script gives exactly the lines of its items and its stop: chunk sizes, empty reads and the kind of ending do not matter |
| Scanners.OverlongLineStops | gbufio/scanner.go:183-191 | If a delimited line does not fit, exactly the lines before it are delivered, then ErrTooLong |
| Scanners.FullUnterminatedLine | gbufio/scanner.go:183-191 | An unterminated line of exactly the limit is delivered if and only if the stop came with its last item |
| Scanners.StopBeforeFull | gbufio/scanner.go:134-234 | For items that cannot fill the buffer it does not matter whether the stop comes along with the last one |
| Scanners.ReadChangesNothing | gbufio/scanner.go:203-231 | A read into free room, with any answer, leaves the coming tokens and the final error as they are |
| Scanners.FullIsTooLong | gbufio/scanner.go:183-191 | A full buffer of the largest size without delimiter and without a stop means ErrTooLong, whatever the source still holds |
| Scanners.NextToken | gbufio/scanner.go:144-180 | What ScanLines finds in the buffered data is the first of the coming tokens; if it finds none then there is no delimiter, or at a stop no token at all |
| Scanners.Scanner.SetErr | gbufio/scanner.go:251-255 | The first error sticks, except that EOF is replaced |
| Scanners.Scanner.Advance | gbufio/scanner.go:237-248 | A legal advance takes exactly n items off the held data; an illegal one changes nothing and sets the error for a negative or for an excessive count, unless one has stuck |
| Scanners.Scanner.Buffer | gbufio/scanner.go:266-273 | Replaces the buffer before the first Scan and fixes the largest size it can reach |
| Scanners.Scanner.ReadOnce | gbufio/scanner.go:204-222 | One read, with bad counts, errors and empty answers, keeps the coming outcome |
| Scanners.Scanner.Refill | gbufio/scanner.go:203-231 | The read loop ends with items or an error and keeps the coming outcome |
| Scanners.Scanner.Shift | gbufio/scanner.go:173-177 | Slides exactly if the buffer is full to its end or more than half of it is free in front; that keeps the held data and frees the front of a full buffer |
| Scanners.Scanner.Enlarge | gbufio/scanner.go:193-201 | Resizing keeps the held data and doubles the buffer, or begins at 4096, within the limit |
| Scanners.Scanner.MakeRoom | gbufio/scanner.go:171-202 | There is room for a read afterwards, or the coming outcome was ErrTooLong without a token |
| Scanners.Scanner.Split | gbufio/scanner.go:140-160 | The split function's answer on the held data is the first coming token, and the advance is legal; without a token nothing is taken |
| Scanners.Scanner.TakeToken | gbufio/scanner.go:140-170 | A token taken is the first of the coming ones; none taken at a stop means that none are left |
| Scanners.Scanner.Scan | gbufio/scanner.go:134-234 | Every call ends; it takes the first token off the coming outcome, without reading if a delimiter is held, and fails exactly when there is none, with that outcome's error; then there is no token (unless the largest size is 0 and one was left), and nothing is held but a too long line that fills the buffer |
| Scanners.ScanAll | gbufio/scanner.go:134-234 | Calling Scan until it fails gives all coming tokens in order and ends in the outcome's error |
| Scanners.ScanOn | gbufio/scanner.go:134-234 | After a failed Scan the next one fails with the same error if and only if nothing is held; after a too long line it hands out the full buffer as a token, and ErrTooLong is all that is left |
| Scanners.HeldAtStop | gbufio/scanner.go:301-315 | Data without a delimiter are one more token at a known stop, unless they are empty |
| Scanners.ScanStream | gbufio/scanner.go:134-234 | For any source, initial buffer and limit, the tokens and the final error are a function of the delivered items, and the pure line split if the lines fit |
| Readers.FillKeepsAhead | gbufio/reader.go:88-116 | Filling the buffer does not change the items ahead, the stop or what comes after it |
| Readers.FillConserves | gbufio/reader.go:100-115 | The reads of one fill lose no item, and bring one unless they meet an error |
| Readers.DrainIsDeliverIff | gbufio/reader.go:292-331 | Draining gives the items, the stop and the continuation of reading to the first stop if and only if that stop comes without items, or is EOF with nothing after it |
| Readers.DrainedIsAheadIff | gbufio/reader.go:292-331 | The same for a reader that holds items and perhaps a pending error, which WriteTo reads past |
| Readers.DiscardConserves | gbufio/reader.go:164-193 | In every case Discard takes exactly the reported number of items off what is unread |
| Readers.AheadConserves | gbufio/reader.go:88-122 | What lies ahead and what comes after its stop is everything unread |
| Readers.SliceIsFragment | gbufio/reader_comparable.go:60-99 | A ReadSlice result is a fragment of the stream: through the first delimiter, a full buffer without one, or all up to the stop |
| Readers.ThroughIsAhead | gbufio/reader_comparable.go:159-182 | With a source that never returns ErrBufferFull itself, reading on through full buffers sees exactly the stream up to its first stop |
| Readers.LineCloses | gbufio/reader_comparable.go:134-149 | A last fragment is handed out without the delimiter and without one excluded item before it |
| Readers.LinePushesBack | gbufio/reader_comparable.go:119-131 | Pushing an excluded item back puts it in front of what lies ahead and loses nothing |
| Readers.FragmentsComplete | gbufio/reader_comparable.go:159-202 | Fragments without delimiter followed by a last one are the line, through the first delimiter of the whole, or everything with the stop |
| Readers.PrefixReassembles | gbufio/reader_comparable.go:117-150 | A ReadLine prefix extends what has been read of the line, and leaves no excluded item that the delimiter follows |
| Readers.LastReassembles | gbufio/reader_comparable.go:117-150 | Prefixes and the last fragment join to the line without delimiter and excluded item, also where that pair straddles the buffer |
| Readers.SliceProgress | gbufio/reader_comparable.go:159-182 | A full-buffer fragment uses up buffer or stream, so that reading on ends |
| Readers.Reader.FillBuffer | gbufio/reader.go:88-116 | Slides, then appends exactly what one fill finds; only called on a buffer that is not full |
| Readers.Reader.Peek | gbufio/reader.go:131-157 | Shows the next n items, or those that fit or exist, with the right error, and takes nothing but that error; the source is not read further than it must be |
| Readers.Reader.Discard | gbufio/reader.go:164-193 | Skips n items; short only with an error, and then after all items ahead; up to the number held it succeeds without reading the source, and otherwise it does not read beyond the fill with the last of them; if an error is pending and nothing is held, what a single fill brings is skipped in any case |
| Readers.DiscardedPastLooksIff | gbufio/reader.go:174-192 | In that case it stops right at the pending error if and only if that is EOF and the source has ended |
| Readers.Reader.Read | gbufio/reader.go:202-247 | What p receives and what is unread afterwards is what was unread; at most one read of the source, of the stated size, with the stated error; for an empty p none, and a pending error is taken if nothing is held |
| Readers.Reader.ReadItem | gbufio/reader.go:251-262 | The first item ahead, or the stop if there is none; nothing is read as long as items are held |
| Readers.Reader.WriteTo | gbufio/reader.go:292-331 | What the sink received is exactly what the reader lost; the error is the refusal of the last sink call, and no call before it was refused, or else everything held was passed on and the error is the source's; a sink that keeps to its contract and refuses nothing gets the held items and the drained stream, which is what lies ahead, with its stop, if and only if that ends cleanly |
| Readers.Reader.ReadSlice | gbufio/reader_comparable.go:60-99 | The cut, the error and what lies ahead afterwards are those of the stream alone, whatever the chunks; no error exactly if the slice ends in the delimiter; the source is not read on once the delimiter is held |
| Readers.Reader.ReadLine | gbufio/reader_comparable.go:117-150 | A prefix with more to come, or the end of the line, and never both a line and an error; it is as much as ReadSlice finds, without its line end, and called a prefix exactly if that is a full buffer |
| Readers.PrefixFillsBuffer | gbufio/reader_comparable.go:117-131 | If the source does not return ErrBufferFull itself, isPrefix is set if and only if the line with its delimiter does not fit, and the prefix has the length of the buffer, or one item less, which is the excluded one |
| Readers.LineThatFits | gbufio/reader_comparable.go:134-149 | A delimited line that fits the buffer is handed out whole, not as a prefix, without its line end |
| Readers.Reader.PushBack | gbufio/reader_comparable.go:119-131 | Just an excluded item at the end of a prefix is pushed back; the rewind is always possible and keeps the rest of the line |
| Readers.Reader.CollectFragments | gbufio/reader_comparable.go:159-182 | The full buffers, copied before they are overwritten, and the last fragment are together the line, and their lengths add up |
| Readers.Reader.ReadItems | gbufio/reader_comparable.go:191-202 | Exactly the items through the first delimiter, or all with the stop, whatever the buffer and chunks; an error if and only if they do not end in the delimiter |
| Readers.Assemble | gbufio/reader_comparable.go:193-201 | The copies fill one new buffer with the pieces in order |
| Readers.ReadWholeLine | gbufio/reader_comparable.go:117-150 | Joining fragments while isPrefix is set gives the whole line, for any buffer of at least two items |
| Conservation.SliceConserves | gbufio/reader_comparable.go:60-99 | A slice and what is unread afterwards is what was unread |
| Conservation.TakenIsGone | gbufio/reader.go:164-262 | Items taken off what lies ahead are taken off what is unread, and nothing else is |
| Conservation.UseOnce | gbufio/reader.go:131-262 | What one call of Read, ReadItem or ReadSlice returns to its client, followed by what is unread, is what was unread; Discard skips as many items as it reports, and Peek takes none |
| Conservation.UseAll | gbufio/reader.go:131-262 | Over any run of these calls the client is given the stream as it is, except for what it has skipped, and the rest is unread |
| Conservation.GivenInPlace | gbufio/reader.go:131-262 | In such a run, the items of every call are those of the stream from where the calls before it have got to, and what is unread is the stream from where all of them have got to |
| Agreement.PatienceDoesNotMatter | gbufio/scanner.go:223-229 | Readers and scanners that wait for different numbers of empty reads see the same stream, unless one gives up |
| Agreement.LineRead | gbufio/reader_comparable.go:117-150 | Each line read is the next line of the split, and the stop is reported only when none is left |
| Agreement.ReadAllLines | gbufio/reader_comparable.go:117-150 | On a stream of delimited lines, reading whole lines until an error gives the line split and the stop |
| Agreement.ScanAndReadLines | gbufio/scanner.go:134-234 | On a stream of delimited lines that fit the scanner, the scanner's tokens are the lines that ReadLine gives, and both report the stream's stop, for all sizes of buffers and chunks |
| Agreement.WriteAndReadBack | gbufio/scanner.go:134-234 | Lines written through a buffered writer, each with the excluded item and the delimiter after it, come back from the scanner and from ReadLine as they were, followed by EOF, for all sizes of buffers that the lines fit |
| Writers.Writer.Flush | gbufio/writer.go:77-98 | Received and buffered items stay, together, those accepted; after a short write the rest stays buffered in order and the error sticks; with a sticky error nothing reaches the sink |
| Writers.Writer.Write | gbufio/writer.go:118-139 | Exactly the reported prefix of p is accepted, short only with an error; the error is the refusal of the last sink call, or a flush that fell short, and no call before it was refused; how much each call is offered, and what stays buffered, is a function of the counts and the sink's answers; after an error nothing reaches the sink and that error is returned |
| Writers.PushedAll | gbufio/writer.go:118-139 | With a sink that takes everything a Write succeeds, and how much of it stays buffered depends on the counts alone |
| Writers.Writer.WriteItem | gbufio/writer.go:143-155 | The item is accepted exactly if no error is returned; only a full buffer is flushed for it, and the error is what that flush met; a sticky error stops everything |
| Writers.Writer.ReadFrom | gbufio/writer.go:159-203 | Accepts the source's items up to its first stop, or up to a flush that fails, and reports their number; the buffer is flushed whenever it is full and more is to be read, or at EOF, and nothing else can set the sticky error; in every case what was accepted and what the source still holds add up; a sticky error reads nothing |
| Buffers.GrownIsPaid | buffer.go:86-123 | A reorganisation is paid for by twice the room asked for and the credit it uses up |
| Buffers.AmortisedGrowth | buffer.go:86-123 | Over any run, the items moved by growing are at most twice the items written and room reserved, plus the initial length |
| Buffers.ReservedRoomSuffices | buffer.go:125-137 | After Grow(n), writes of up to n items in all move nothing and stay in the same array |
| Buffers.StepCapacity | buffer.go:97-120 | One operation never shrinks the capacity, and a new one is 64 or at most four times what has to be held |
| Buffers.CapacityBound | buffer.go:97-120 | Over any run, the capacity stays within the largest of its start, 64, and four times the peak of unread and incoming items |
| Buffers.RoundRan | buffer.go:163-187 | One round of ReadFrom continues a run by making room for 512 items and writing those that were read |
| Buffers.GrowSlice | buffer.go:190-215 | The copy holds the same items and has the stated capacity |
| Buffers.Buffer.TryGrowByReslice | buffer.go:74-81 | Reslices exactly if the spare capacity is enough |
| Buffers.Buffer.MakeRoom | buffer.go:86-123 | Keeps the unread items, makes room for n more after them, takes the branch and moves the items that the growth policy says |
| Buffers.Buffer.Grow | buffer.go:130-137 | Keeps the contents and leaves room for n items without another allocation; the last read can still be undone unless it emptied the buffer, and brings its item back if nothing was moved |
| Buffers.Buffer.Write | buffer.go:142-151 | Appends p |
| Buffers.Buffer.WriteItem | buffer.go:253-263 | Appends one item |
| Buffers.Buffer.Read | buffer.go:270-290 | Takes the oldest items off, as many as wanted and available; EOF exactly if there are none and some are wanted |
| Buffers.Buffer.Next | buffer.go:298-314 | Takes the next n items off, or all there are, and shows them |
| Buffers.Buffer.ReadItem | buffer.go:318-332 | Takes the oldest item off, or reports EOF |
| Buffers.Buffer.UnreadItem | buffer.go:339-352 | Puts the last item read back in front, exactly after a successful read |
| Buffers.Buffer.Search | buffer.go:369-385 | Finds the first item that satisfies the predicate, or reports that there is none |
| Buffers.Buffer.ReadItems | buffer.go:359-366 | Takes the items through the first match off and returns them; EOF exactly if nothing matches |
| Buffers.Buffer.Truncate | buffer.go:47-60 | Keeps the first n unread items |
| Buffers.Buffer.Reset | buffer.go:65-69 | Empties the buffer and keeps its array |
| Buffers.Buffer.ReadFrom | buffer.go:163-187 | Appends the source's items up to its first error, and reports their number and any error but EOF; a read before it cannot be undone any more; to the array it is a run of growing by 512 and writing what was read, to which the bounds on moves and capacity apply |
| Buffers.Buffer.WriteTo | buffer.go:221-249 | What the sink takes leaves the buffer, what it leaves stays, and a short write is an error |
| Heaps.HeapMeans | heap.go:82-119 | The invariant by parents is the documented one: no child is less than its parent |
| Heaps.DownRepairs | heap.go:94-119 | Sifting down repairs a heap whose one item may be too large for its place |
| Heaps.UpRepairs | heap.go:82-92 | Sifting up repairs a heap whose one item may be too small for its place |
| Heaps.Log2IsFloorLog | heap.go:40-55 | The bounds speak of the floor of the binary logarithm |
| Heaps.DepthPlusHeight | heap.go:82-119 | Depth and height of a node are together at most the height of the heap |
| Heaps.SumHeightsIsLinear | heap.go:31-37 | The heights of all nodes add up to less than n |
| Heaps.HeapifyIsLinearAndCorrect | heap.go:31-37 | For every input Init makes a heap of the same items, with fewer than 2n comparisons and fewer than n swaps (none of either for an empty input) |
| Heaps.HeapifyKeepsHeaps | heap.go:31-37 | On a heap, Init changes nothing |
| Heaps.PushRepairs | heap.go:41-44 | Push makes a heap with one item more, with at most floor(log2 n) comparisons, n counted afterwards |
| Heaps.DownElseUpRepairs | heap.go:59-80 | Down, else up, restores a heap around one arbitrary item |
| Heaps.FixRepairs | heap.go:76-80 | After any change of one item Fix restores the heap, replaces just that item, and makes at most 2 floor(log2 n) comparisons |
| Heaps.RemoveRepairs | heap.go:59-71 | Remove takes out exactly the item at the index and leaves a heap |
| Heaps.PopIsRemoveFirst | heap.go:46-55 | Pop and Remove(h, 0) give the same state, the same item and the same comparisons |
| Heaps.PopRepairs | heap.go:49-55 | Pop takes out a minimum and leaves a heap, with at most 2 floor(log2 (n-1)) comparisons |
| Heaps.FixIsRemoveThenPush | heap.go:73-80 | Changing an item and calling Fix gives a heap of the same items as Remove and then Push |
| Heaps.RunKeepsHeap | heap.go:31-80 | Over any run of Push, Pop, Remove and Fix the heap is kept and the items are those put in less those taken out |
| Heaps.PopAllSorts | heap.go:49-55 | Popping everything off a heap gives its items in order |
| Heaps.HeapRunSorts | heap.go:31-80 | After Init and any run, popping everything gives a sorted permutation of the contents |
| Heaps.Init | heap.go:31-37 | The loop computes what the lemmas speak of, with its costs, and so makes a heap |
| Heaps.Push | heap.go:41-44 | The routine computes what the lemmas speak of, and keeps a heap |
| Heaps.Pop | heap.go:49-55 | The routine returns a minimum and takes just that item out |
| Heaps.Remove | heap.go:59-71 | The routine returns the item at the index and takes just that one out |
| Heaps.Fix | heap.go:76-80 | The routine computes what the lemmas speak of, comparison by comparison; if there was a heap before the client changed item i, there is one again, with the changed items and within the bound |
| Heaps.SiftUp | heap.go:82-92 | The loop computes the recursive sift, comparison by comparison |
| Heaps.SiftDown | heap.go:94-119 | The loop computes the recursive sift, comparison by comparison, and tells whether it moved anything |
| RingBuffers.WriteKeepsLast | ringbuffer.go:25-73 | A write of fewer than Cap items leaves the last Cap of (contents ++ p), through all branches |
| RingBuffers.WritesKeepLast | ringbuffer.go:25-95 | Any number of such writes leaves the last Cap of everything written |
| RingBuffers.LongWriteRotates | ringbuffer.go:81-95 | A longer write leaves its last Cap items rotated left by the write cursor |
| RingBuffers.WriteKeepsLastIff | ringbuffer.go:75-95 | Write keeps the last Cap items, whatever they are, if and only if fewer than Cap are written or the write cursor is at the front |
| RingBuffers.WriteItemIsWrite | ringbuffer.go:100-113 | Writing one item and writing a slice of one leave the same state |
| RingBuffers.ReadTakesOldest | ringbuffer.go:119-148 | A read leaves the contents without the oldest items |
| RingBuffers.ReadItemTakesOldest | ringbuffer.go:373-379 | ReadItem takes the oldest item if there is one; off an empty ring it makes Cap - 1 stale items readable |
| RingBuffers.RunKeepsSound | ringbuffer.go:25-148 | In every run, cursors stay in range and full means equal cursors |
| RingBuffers.RunRefinesQueue | ringbuffer.go:25-148 | In every run that reads single items only when there are some, the ring is a drop-oldest queue, long writes included |
| RingBuffers.StreamedIsWritten | ringbuffer.go:220-254 | A round of ReadFrom without an error is a Write that never rotates |
| RingBuffers.StreamKeepsLast | ringbuffer.go:214-257 | From a source whose first error comes without items, ReadFrom leaves the last Cap of (contents ++ stream); as long as all that fits, it does so if and only if the error comes without items |
| RingBuffers.LastRoundDecides | ringbuffer.go:214-257 | For every stream and ring: up to the round with the error the last Cap items are kept; if the ring was not full by then, the final contents are the last Cap of everything if and only if the error came without items; a full ring holds the newest items and then what is left of the others |
| RingBuffers.FlowEnds | ringbuffer.go:214-257 | Every ReadFrom consists of rounds that keep the last Cap items and one last round that brings the error |
| RingBuffers.FailedRoundIsSoundIff | ringbuffer.go:229-241 | The round with the error leaves a sound state if and only if its items did not run over the read cursor |
| RingBuffers.FailedRoundKeepsItemsIff | ringbuffer.go:229-241 | Unless the ring is full, a failed round keeps what it read if and only if it read nothing |
| RingBuffers.FailedRoundLeaves | ringbuffer.go:225-241 | What a failed round leaves of a ring that is not full: its contents as they were, or, if the items read run over the read cursor, a ring that counts as full, and which items its slots hold |
| RingBuffers.FailedRoundWhenFull | ringbuffer.go:229-241 | In a full ring, a failed round puts the newest items where the oldest belong |
| RingBuffers.OfferedIsContentsIff | ringbuffer.go:263-308 | What WriteTo offers is the contents if and only if there are any |
| RingBuffers.DrainedKeepsRest | ringbuffer.go:263-308 | After a partial WriteTo just what went out is gone, except that a full ring is emptied if nothing went out |
| RingBuffers.SentAll | ringbuffer.go:263-308 | When everything offered by a ring that is not empty has gone out, the sink has got exactly its contents and it is empty |
| RingBuffers.SentNothing | ringbuffer.go:263-308 | When nothing has gone out of a ring with equal cursors, the ring is empty, although it may have been full |
| RingBuffers.RingBuffer.Len | ringbuffer.go:173-179 | The number of unread items |
| RingBuffers.RingBuffer.Write | ringbuffer.go:25-95 | The four write paths compute the state the lemmas speak of, and the count reported |
| RingBuffers.RingBuffer.WriteItem | ringbuffer.go:100-113 | Leaves the last Cap of (contents ++ item) |
| RingBuffers.RingBuffer.Read | ringbuffer.go:119-148 | p receives the oldest items in order, as many as fit or exist, and they are gone afterwards |
| RingBuffers.RingBuffer.ReadItem | ringbuffer.go:373-379 | Returns the oldest item if there is one, and what is left follows it |
| RingBuffers.RingBuffer.ReadFrom | ringbuffer.go:214-257 | Counts the items of all rounds but the one with the error, and ends in the state that LastRoundDecides speaks of; if the error comes without items that is the last Cap of everything, all of it counted; the state is sound if and only if the last items did not run over the read cursor |
| RingBuffers.RingBuffer.WriteTo | ringbuffer.go:263-308 | The sink receives a prefix of what is offered and the ring loses just that, in one call or two, and the number of items and the error are those of these calls; a sink that takes all gets exactly the contents of a ring that is not empty, and leaves it empty; a sink that takes nothing of a full ring leaves it empty as well |
| RingFilters.RingFilter.Write | ringfilter.go:24-111 | The state of a ring buffer's Write, and the process function receives all of p, in one call, whose error is returned |
| RingFilters.RingFilter.WriteItem | ringfilter.go:116-132 | The state of a ring buffer's WriteItem, and the process function receives the item in one call, whose error is returned |
| RingFilters.RingFilter.ReadFrom | ringfilter.go:222-270 | The process function receives exactly the items counted, in order, one call for every round without an error; while it accepts them the ring ends as a ring buffer's ReadFrom does; its first refusal is the error that is returned, and ends in the state before that round with the refused items in the array; either way the state is sound if and only if the last items did not run over the read cursor |
| RingFilters.PumpedAllAnswers | ringfilter.go:222-270 | The answers of the process function are used up to its first refusal; without one the ring ends as with the ring buffer's ReadFrom |
| RingFilters.RefusedIsSoundIff | ringfilter.go:254-262 | A refusal leaves a sound state if and only if the refused items did not run over the read cursor |
| RingFilters.RefusedLeaves | ringfilter.go:249-262 | Then the contents are those before the round, except that refused items which fill the ring up, or are read by a full one, come in front |
| RingFilters.RunBoth | ringfilter.go:24-132 | Under the same writes a filter and a buffer go through the same states even if the process function fails, and that function is given all items in order |
| Rings.SameOrDisjoint | ring.go:3-11 | Two rings are the same one seen from different elements, or share no element |
| Rings.CutMakesCircles | ring.go:94-109 | Within one ring the four pointer writes leave two rings, with next and prev inverse to each other |
| Rings.JoiningMakesCircle | ring.go:94-109 | Between two rings they leave one |
| Rings.MergeAndCut | ring.go:94-119 | Cutting out a ring that was taken in, or taking in one that was cut out, gives back what there was |
| Rings.LinkConserves | ring.go:94-109 | Link neither loses nor duplicates an element |
| Rings.LinkUndoesLink | ring.go:76-109 | Linking with the result of a Link gives both rings back, in every case of aliasing |
| Rings.Ring.Next | ring.go:21-27 | The next element of the circle; the zero value becomes a circle of one |
| Rings.Ring.Prev | ring.go:30-36 | The last element of the circle; the zero value becomes a circle of one |
| Rings.Ring.Move | ring.go:40-57 | The element n mod Len steps on, also for negative n |
| Rings.Ring.Link | ring.go:94-109 | With an s of the same ring: the ring r, s, … and the ring of the elements between; with an s of another ring: s and its followers right after r; with nil nothing changes. The result is the old next element |
| Rings.Ring.Unlink | ring.go:113-119 | For n > 0 exactly the next n mod Len elements are taken out, in order, and form a ring; otherwise nothing happens |
| Rings.LinkTwice | ring.go:76-109 | r.Link(r.Link(s)) restores all pointers and returns s |
| Rings.NewRing | ring.go:60-74 | A ring of n new zero values, or nil |
| Rings.Len | ring.go:123-133 | The number of elements; 0 for nil |
| Rings.Do | ring.go:137-145 | f is called on every value once, in order from r on |
| Lists.RemoveUndoesInsert | list.go:86-110 | Removing an inserted element gives the list back |
| Lists.InsertUndoesRemove | list.go:86-110 | Inserting a removed element again gives the list back |
| Lists.MoveIsOneEdit | list.go:113-125 | A move brings one element to its place, keeps the order of the others, and can be undone |
| Lists.HookedIsInserted | list.go:86-95 | The four pointer writes of an insertion leave the ring of the edited sequence |
| Lists.UnhookedIsRemoved | list.go:103-110 | The two pointer writes of a removal leave the ring of the edited sequence |
| Lists.List.Hook | list.go:86-95 | e comes between its node and what followed that; hooking in after a node inserts there; after another element it leaves the ring alone if and only if what follows that one is not in the ring |
| Lists.List.Unhook | list.go:103-110 | Bypassing an element removes the node with its neighbours; an element that is not in the ring leaves it alone if and only if its neighbours are not in the ring, or next to each other there |
| Lists.Element.Next | list.go:20-26 | The next element of the sequence, nil after the last one and outside of any list; a stray element follows its own pointer |
| Lists.Element.Prev | list.go:29-35 | The element before, nil before the first one and outside of any list; a stray element follows its own pointer |
| Lists.List.LazyInit | list.go:79-83 | The zero value becomes an empty list; any other list stays as it is |
| Lists.List.Init | list.go:45-51 | Empties the list; every element it had becomes a stray one, which still names the list as its own |
| Lists.List.InsertElement | list.go:86-95 | Inserts e after a node of the ring, sets its owner and counts it; after any other element it only counts it, and leaves the ring alone if and only if what follows that one is not in the ring |
| Lists.List.RemoveElement | list.go:103-110 | Removes just e, or the element with its neighbours, clears its pointers and owner |
| Lists.List.MoveElement | list.go:113-125 | One edit of the sequence: e, or the element with its neighbours, gives up its place for e after another; moving after itself changes nothing; outside of the ring, it leaves the ring alone if and only if none of its pointers changes |
| Lists.List.MoveNextTo | list.go:113-125 | For any two elements, in the ring or not: in the ring e, or else its twin, gives up its place and e takes the one after the other; this leaves the list of the named elements if and only if both are in the ring and the other is not the twin, or neither is and the pointers that are written in the ring keep their values, or they are the same |
| Lists.List.MemberMoves | list.go:113-125 | Moving an element of the list after a node of the ring is always one edit |
| Lists.List.StrayMovesToBack | list.go:188-194 | A stray element can be moved to the back if and only if it has a twin that is not the last element |
| Lists.List.Front | list.go:61-67 | The first element, or nil |
| Lists.List.Back | list.go:70-76 | The last element, or nil |
| Lists.List.Remove | list.go:130-138 | Removes e if it is in this list, clears its pointers and owner, and returns its value; nothing if it is foreign; a stray e removes its twin, and if it has none the list is not that of its elements any more, and the ring is left alone if and only if none of its pointers changes |
| Lists.RemoveAfterInit | list.go:45-51 | After PushBack and Init, Remove of the element gives the list a length of -1 |
| Lists.List.PushFront | list.go:141-144 | A new element with the value comes first |
| Lists.List.PushBack | list.go:147-150 | A new element with the value comes last |
| Lists.List.InsertBefore | list.go:155-161 | A new element right before the mark; nothing if the mark is foreign; with a stray mark, after whatever was before it, and this is a list with one element more if and only if that is in the ring |
| Lists.List.InsertAfter | list.go:166-172 | A new element right after the mark; nothing if the mark is foreign; the list is that of its elements afterwards if and only if the mark was not stray |
| Lists.List.MoveToFront | list.go:177-183 | e is moved to the front; nothing if it is foreign; a stray e comes to the front in exchange for its twin, and if it has none it is the first all the same, and the list is not that of its elements any more |
| Lists.List.MoveToBack | list.go:188-194 | e is moved to the back; nothing if it is foreign; a stray e comes to the back in exchange for its twin, and if it has none, or that is the last one, the list is not that of its elements any more |
| Lists.List.MoveBefore | list.go:199-205 | e is moved right before the mark; nothing if either is foreign or they are the same; with stray elements it is a move after what was before the mark, and the elements and the exact condition are those of MoveNextTo |
| Lists.List.MoveAfter | list.go:210-216 | e is moved right after the mark; nothing if either is foreign or they are the same; with stray elements the elements and the exact condition are those of MoveNextTo |
| Lists.List.PushBackList | list.go:220-226 | The values become vals ++ other's vals, also if other is the list itself; the old elements stay in front |
| Lists.List.PushFrontList | list.go:230-236 | The values become other's vals ++ vals, also if other is the list itself; the old elements stay at the back |

## Left out

- Machine integers, overflow guards, the panics for oversized buffers, and the rounding of allocations to size classes: integers are unbounded, and a new array has the requested size.
- Concurrency of `Buffer.isReading`: the atomic flag is a plain boolean.
- Infinite streams: a source's script is finite, so that the unlimited read loops of `Buffer.ReadFrom` and the rings end.
- Impossible counts: only the scanner, which checks for them, is modelled with sources that return them; elsewhere they are panics or `ErrRingBufferNegativeRead`.
- Sources that use the unfilled part of the slice they are given as scratch space.
- Config options, constructors that reuse an existing reader or writer (gbufio/reader_comparable.go:28-49 among them), `Reset` of gbufio types, and the shortcuts to `WriterTo` and `ReaderFrom`.
- Reader and ComparableReader are one class; embedding has no behaviour of its own.
- Split functions other than `ScanLines`, with `ErrFinalToken`, the `done` flag and the panic after too many empty tokens.
- `gbufio.Reader.UnreadItem` and the `lastItem` it needs: the nil test at gbufio/reader.go:270 is inverted, so its success path would dereference nil.
- `Buffer.UnreadItem` after a `ReadItems` that returned no items: the flag that allows it is set all the same (buffer.go:390), and the contract says no more than that some earlier item comes back.
- Ring buffer `Value`, `Next`, `UnreadItem`, `Seek`, `ReadItems`, `Truncate` and `Reset`, and the filter's copies of them and of Read and WriteTo: they return the whole array when it is not full, use signed remainders, or scan from slot 0.
- Sharing of memory between a written slice and a buffer: slices written are values.
- `Lists.List.PushBackList`: requires that two lists do not share a sentinel, which embedding guarantees in the source.
- `Readers.Reader.WriteTo`: requires a sink that, after the first offer, takes some of each or returns an error, unless the unread items cannot fill the buffer; the source panics at filling a full buffer. A sink that takes nothing only while the buffer happens not to be full is not told apart from one that does so when it is.
- `RingBuffers.RingBuffer.WriteTo`: requires, unless the read cursor is before the write cursor, a sink that takes all items up to the end of the array, or returns an error, or takes none of them while the cursors are equal; the source panics in all other cases, when it goes on with a slice that ends before it begins.
- peek.go, peek_buffer.go, items.go, reader.go, errors.go and errs/: thin wrappers.
