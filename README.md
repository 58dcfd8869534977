# circbuf: a verified model of an overwrite-on-full byte buffer

This project models `circbuf.Buffer`: a circular byte buffer with a fixed capacity.
Any number of bytes can be written to it. It keeps only the most recent `size` of them and overwrites the oldest when full. It also counts every byte ever written.

The model has three modules:

- `History` (history.dfy) is the abstract meaning.
  - Each buffer carries the stream of every byte ever written, called its history.
  - `Suffix(h, size)` is the window that a buffer of capacity `size` retains: the last `size` bytes of `h`.
  - `Concat` and `Retain` describe a run of writes.
  - The lemmas show three facts about that window:
    - discarded bytes never come back;
    - a write longer than the capacity only matters through its own last `size` bytes;
    - the retained window does not depend on how the bytes were split into writes.
- `Circbuf` (circbuf.dfy) is the buffer itself, a class that updates its state in place.
  - Storage is an `array<bv8>` of `size` bytes.
  - `writeCursor` is the slot the next byte goes to.
  - `written` is an unbounded counter of all bytes written.
  - `history` is a ghost field.
  - The class invariant `Valid()`, through `Holds`, says two things. First, storage read from the cursor and wrapping round the end of the array ends with `Suffix(history, size)`. Second, before the first wrap the cursor equals the number of bytes written.
  - `Write` drops all but the last `size` bytes of its input. It copies the rest in from the cursor one byte at a time (`CopyIn`), wrapping to slot 0 at the end of storage. It then moves the cursor on modulo `size`.
  - `Bytes` reads out the retained content in three cases: full with the cursor at 0, wrapped, and not yet full.
  - `Get` reads one byte of the retained content by its logical position.
- `CircbufTest` (circbuf_test.dfy) turns each test of the package into a method. Each method drives a buffer and returns what the test inspects; its postconditions are the test's assertions.

The implementation file `circbuf.go` is not part of this model. The behaviour modelled is the one pinned down by the assertions in `circbuf_test.go` and by the calls in `benchmark_test.go`. It has the usual shape of this buffer:

- the input is truncated to its last `size` bytes;
- the kept bytes are copied in at the cursor with wraparound;
- the cursor moves on by the number of bytes copied, modulo `size`;
- the counter grows by the full input length.

## Model

| member | source | states |
|---|---|---|
| Circbuf.NewBuffer | circbuf_test.go:19-22 | A positive size gives a fresh, valid, empty buffer of exactly that capacity. A size that is not positive gives the error `SizeNotPositive` and no buffer. |
| Circbuf.Buffer.constructor | circbuf_test.go:19 | The new buffer is valid: its history and counter are empty, its cursor is at slot 0, and its zero-filled storage has `size` bytes. |
| Circbuf.Buffer.Write | circbuf_test.go:26-31 | Every write succeeds and reports the full input length, however much old data it overwrites. The history grows by exactly the input and the counter by its length. The cursor moves on by min(length, size) modulo size. The invariant is kept: the rotated storage still ends with the last `size` bytes of the whole history. |
| Circbuf.CopyIn | circbuf_test.go:90-96 | Copying bytes in from a slot, going on at slot 0 when the end is reached, yields exactly the storage `Overlay` describes. The returned slot is the one just past the last byte copied. |
| Circbuf.HoldsOverlay | circbuf_test.go:141-150 | If storage holds a history, then after copying up to `size` bytes in from the cursor it holds that history extended by those bytes, with the cursor just past them. |
| Circbuf.HoldsStore | benchmark_test.go:70 | If storage holds a history, then after storing one byte at the cursor and advancing it, storage holds the history extended by that byte. |
| Circbuf.HoldsTail | circbuf_test.go:90-101 | Holding the history extended by the last `size` bytes of a write is holding it extended by the whole write. This is why truncating an over-long write loses nothing observable. |
| Circbuf.RotateStore | benchmark_test.go:70 | Storing at the cursor and advancing it drops the oldest byte of the rotated view and appends the new byte as the newest. |
| Circbuf.SlotAfterIsMod | circbuf_test.go:141-150 | Stepping `k` slots from slot `c` and wrapping at most once lands on `(c + k) % size`, the cursor arithmetic of the buffer. |
| Circbuf.Buffer.WriteByte | benchmark_test.go:70 | Writing one byte always succeeds. It extends the history by that byte, adds one to the counter, advances the cursor by one modulo size and keeps the invariant. |
| Circbuf.Buffer.TotalWritten | circbuf_test.go:152-154 | Returns the length of the whole history, every byte ever written, not capped by the capacity. |
| Circbuf.Buffer.Bytes | circbuf_test.go:34-36 | Returns the last min(total, size) bytes of the history, oldest first, in each of its three storage cases. |
| Circbuf.Buffer.Get | benchmark_test.go:109-120 | For a position inside the retained content (below min(size, total written)), returns the byte at that position of `Bytes()`. For every other position, including negative ones, returns `IndexOutOfRange`. |
| History.SuffixOfAppend | circbuf_test.go:112-126 | Appending to the retained window gives the same window as appending to the whole history: discarded bytes never come back. |
| History.SuffixOfTail | circbuf_test.go:82-102 | Of a single write, only its own last `size` bytes matter for the window. |
| History.SuffixSplit | circbuf_test.go:156-159 | When the last write fits into the window, the window is that write preceded by the matching tail of what came before. |
| History.SuffixWithin | circbuf_test.go:156-159 | When the last write alone fills the window, nothing written before it is retained. |
| History.RetainIsSuffix | circbuf_test.go:141-159 | Writing chunk after chunk from any retained window gives the last `size` bytes of the history followed by the concatenation of the chunks. |
| History.ChunkingIrrelevant | circbuf_test.go:104-126 | Two runs of writes with the same bytes in the same order retain the same window, whatever the split. |
| History.ConcatSingles | circbuf_test.go:112-120 | Writing a sequence one byte at a time writes exactly that sequence. |
| History.TotalLengthIsConcatLength | circbuf_test.go:141-154 | The sum of the write lengths is the length of everything written. |
| CircbufTest.WriteOnce | circbuf_test.go:24-36 | One write into a fresh buffer of any positive size reports `Ok(len)`, and `Bytes()` is the last `size` bytes of the input. |
| CircbufTest.ShortWrite | circbuf_test.go:18-37 | With capacity 1024, writing "hello world" reports 11, and `Bytes()` is "hello world". |
| CircbufTest.FullWrite | circbuf_test.go:39-58 | With a capacity equal to the input length, `Bytes()` is the whole input "hello world". |
| CircbufTest.LongWrite | circbuf_test.go:60-80 | With capacity 6, writing "hello world" reports 11, and `Bytes()` is " world". |
| CircbufTest.HugeWrite | circbuf_test.go:82-102 | With capacity 3, writing "hello world" reports 11, and `Bytes()` is "rld". |
| CircbufTest.WriteAll | circbuf_test.go:141-159 | Writing a list of inputs in turn has these results: each write reports its input's length, the running total equals the sum of the lengths, `TotalWritten()` is the length of the concatenation, and `Bytes()` is its last `size` bytes. |
| CircbufTest.ManySmall | circbuf_test.go:104-126 | Eleven one-byte writes into capacity 3 each report 1, and `Bytes()` is "rld", the same as one eleven-byte write. |
| CircbufTest.MultiPartWindow | circbuf_test.go:156-159 | The last 16 bytes of the three inputs are "t\n" followed by "my cool input\n", and the three inputs total 41 bytes. |
| CircbufTest.MultiPart | circbuf_test.go:128-160 | Three writes into capacity 16 report 12, 15 and 14. The running total and `TotalWritten()` are both 41, above the capacity, and `Bytes()` is "t\nmy cool input\n". |

## Left out

- Circbuf.NewBuffer: the implementation of `NewBuffer` is not part of this model, so its refusal of a non-positive size is modelled as the `SizeNotPositive` error. The error's message is not modelled.
- Circbuf.Buffer.Get: what an implementation does with a negative position is not pinned down by the sources. The model refuses it, like any other position outside the retained content.
- `Reset` and `Size` are not used by the tests, so they are not modelled.
- The `io.Writer` conformance test (circbuf_test.go:9-16) is left out. It is a check of Go's type system, and `Write` returning a count together with a success result stands in for it.
- The benchmarks' timing are left out: `b.N`, `b.SetBytes`, `b.ResetTimer`, and the floating-point write size at benchmark_test.go:102. Only the operations they call are modelled.
- Go's error values are reduced to the `Error` datatype. `Write` and `WriteByte` never fail in the model, as the tests require.
- The counter, the size and positions are unbounded integers. The wrap-around of Go's `int64` after 2^63 bytes written is not modelled.
- `Bytes` is modelled as returning a value. The model does not capture that an implementation may hand back the internal storage itself, which a later write would then change under the caller.
- `Write` copies the kept bytes one by one in a loop. An implementation may use two bulk copies, one up to the end of storage and one from slot 0. Both give the storage that `Overlay` describes.
- Concurrent use of one buffer is not modelled. The buffer has no locking, and the model is sequential.
