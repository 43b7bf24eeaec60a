# AutoComp: a verified model

AutoComp is a file server and client that compress what they send, choosing a compressor for every chunk. This
project models its central algorithms and protocols in Dafny and proves what they are for:

* **The FPC codec** (`Words`, `Bits`, `FpcPredictor`, `FpcFormat`, `FpcRoundTrip`, `FpcBounds`, `FpcLearning`,
  `FpcForesight`, `FpcEncoder`, `FpcDecoder`, `FpcBlocks`, `FpcCompressor`, `FpcStream`). Two predictors, 4-bit codes packed two to a byte,
  residuals of 0, 1, 2, 3, 5, 6, 7 or 8 bytes spliced into 64-bit words, blocks with 24-bit headers that the
  decoder reads one block ahead. The stream format is a pure function `Encode` with a pure reader `Parse`; the
  loops over arrays, of the compressor in memory and of the stream program, are proved against them. Every
  stream reads back, encoder and decoder stay in lockstep, and every access stays in its array. What the
  predictors learn is proved as well: what each hash takes in and forgets, that a prediction is what followed
  the same hash the last time, and which inputs therefore compress.
* **Queues, pools and streams** (`SynchronousQueue`, `ThreadPool`, `NestedPool`, `NestedShutdown`,
  `AsynchronousBuffer`, `SynchronizedFile`). Step systems in which every thread may take its next step at any
  time. Proved are conservation, order, exactly-once execution, exactly which calls let a pool drain, exactly
  when the server can deadlock, and exactly from which states its shutdown ends.
* **A transfer** (`TcpSocket`, `FileProcessor`, `Client`, `ClientLoops`, `Transfer`, `FpcTransfer`). From files
  to chunks, to messages, to frames on a byte stream, to entries of the decompression queue, to files again. The
  loops are methods tied to pure descriptions of what is sent and what is made of it, and the threads together
  are a step system.
* **Supporting algorithms** (`DirectoryExplorer`, `DecisionTree`, `Bytecounting`, `AutoComp`, `Buffer`).

`dafny verify dfyconfig.toml` checks everything.

## What was found

* FPC does not keep every input. It drops the last `size % 8` bytes, and what it makes of fewer than eight bytes
  is refused by the decoder in memory, although the stream program accepts it. It is lossless exactly for inputs
  of at least eight bytes whose size is a multiple of eight (`LosslessExactly`), and a transfer with FPC saves
  all files exactly when all file sizes are multiples of eight (`FpcTransferExactly`). A file that ends in fewer
  than eight bytes behind its full chunks is saved without them and with its last full chunk twice
  (`ShortEndRepeats`).
* A request without files, with an empty file or with one that cannot be opened never ends well for the client
  (`CompletesExactly`), although the server takes it for served.
* A request job waits for a transmission job in the same pool, and jobs are announced without the pool's mutex,
  so that a worker can block on a queue that is not empty. The server can stop for good with one request fewer
  in flight than there are workers, and cannot with two fewer (`DeadlockFreeExactly`).
* The server's shutdown may never return. It always does exactly when, as the flag is set, no request is queued
  or preparing and not every worker waits for a transmission in the queue (`ShutdownEndsExactly`).
* A pool whose workers have all left has run every task exactly when none was submitted behind a shutdown; any
  sequence of calls with a late one can lose a task (`DrainsExactly`).
* Destroying an asynchronous buffer does not write what is in its put area. The file is complete exactly when
  the characters put since the last flush are a multiple of the area's size (`CompleteExactly`); the
  synchronized file, which flushes after every line, loses nothing.
* Bandwidth level 58 does not occur in training, whose highest level is 28. Which trees treat both alike for all
  loads is decided by walking the tree with both at once (`ActsAsTrainedExactly`).

## How to read the model

Byte sequences are `seq<bv8>` and FPC values `bv64`, so wrap-around, shifts and masks are those of the program.
A shift by 64 in the encoder is applied to zero and in the decoder its result is discarded; here both give zero.
Sizes that the program holds in an `int` are required to be below 2^31 where it matters. A thread that waits on
a condition is modelled as able to go on when the condition holds, except in `NestedPool`, where checking,
blocking, announcing and waking are steps of their own. Elsewhere a lost wake-up does no harm: the flag that
ends the waiting is set under the mutex and announced after it. The codec of a transfer is any function from
file number, chunk number and data to an outcome, so one theorem covers every way of choosing compressors; the
client's decompressors are any function that undoes the choices. A failed decompression leaves in front of the
scratch buffer what it had written, which is nothing for FPC on what it refuses.

## Model

| member | source | states |
|---|---|---|
| Words.OrDisjoint | src/compression/fpc_compressor.cpp:153-158 | OR-ing a word that is zero below byte `k` into one that is zero from byte `k` on puts their bytes side by side |
| Words.SplitResidual | src/compression/fpc_compressor.cpp:153-158 | a residual shifted into the current word and its rest shifted into the next one are, byte for byte, the two parts of the residual |
| Words.AppendResidual | src/compression/fpc_compressor.cpp:153-158 | the two word stores append all eight bytes of the residual at any alignment, leave what was written before alone, and leave the rest of the second word zero |
| Words.SpliceWords | src/compression/fpc_compressor.cpp:349-357 | the decoder's two shifted words join into the eight bytes at any alignment |
| Words.ReadUnaligned | src/compression/fpc_compressor.cpp:349-357 | the decoder's two aligned loads give the eight bytes at the position |
| Words.MaskedWord | src/compression/fpc_compressor.cpp:359-361 | the mask of a length code keeps exactly the residual's low bytes |
| Words.LengthCodeIsLeast | src/compression/fpc_compressor.cpp:130-151 | the length code is the least one whose 0, 1, 2, 3, 5, 6, 7 or 8 bytes hold the residual |
| Words.LengthCodeMonotone | src/compression/fpc_compressor.cpp:126-151 | a residual that is not larger as an unsigned number never needs more bytes |
| Words.FromLowFits | src/compression/fpc_compressor.cpp:160-160 | a residual is determined by the bytes its length keeps |
| FpcEncoder.PickLengthCode | src/compression/fpc_compressor.cpp:130-151 | the cascade of tests finds that least code |
| FpcPredictor.HashesStayInTable | src/compression/fpc_compressor.cpp:113-123 | both hashes stay inside their tables for every value |
| FpcPredictor.LockstepValue | src/compression/fpc_compressor.cpp:112-129 | after every value the decoder, which keeps its second prediction as `lastval + pred2` and overwrites `pred1`, again agrees with the encoder, and it gets the value back |
| FpcPredictor.LockstepStart | src/compression/fpc_compressor.cpp:306-321 | a fresh decoder agrees with a fresh encoder |
| FpcPredictor.ResidualIsShortest | src/compression/fpc_compressor.cpp:126-129 | the residual kept costs no more than either candidate |
| FpcPredictor.PairParts | src/compression/fpc_compressor.cpp:212-212 | the two 4-bit codes of a byte come out as they went in |
| FpcPredictor.NibbleParts | src/compression/fpc_compressor.cpp:161-180 | a 4-bit code holds the predictor chosen and the length of the residual |
| FpcFormat.Header24Value | src/compression/fpc_compressor.cpp:219-224 | a 24-bit little-endian header field reads back below 2^24 |
| FpcEncoder.Tables.Encode | src/compression/fpc_compressor.cpp:112-123 | one value updates tables, hashes and predictions as the abstract step does and gives both candidate residuals |
| FpcEncoder.Tables.Decode | src/compression/fpc_compressor.cpp:363-376 | the decoder's update, which overwrites `pred1`, and the value it gets |
| FpcEncoder.StoreInBuffer | src/compression/fpc_compressor.cpp:61-61 | the furthest store of a block ends inside the block buffer |
| FpcEncoder.EncodeValue | src/compression/fpc_compressor.cpp:112-161 | one value appends exactly its residual bytes and gives its 4-bit code |
| FpcEncoder.EncodeNext | src/compression/fpc_compressor.cpp:112-161 | the value at an index of a block extends the written payload by its residual, keeps the predictors in step, and stores only inside the buffer |
| FpcEncoder.PutCode | src/compression/fpc_compressor.cpp:212-212 | storing a code byte leaves the payload as it is |
| FpcEncoder.EncodePair | src/compression/fpc_compressor.cpp:112-212 | one turn of the loop writes the residuals of two values and their common code byte |
| FpcEncoder.EncodeValues | src/compression/fpc_compressor.cpp:108-213 | the loop writes the payload and all code bytes of a block, whatever is in the slot behind an odd one |
| FpcEncoder.EncodeBlockInto | src/compression/fpc_compressor.cpp:108-224 | the block buffer then holds exactly the encoded block, the payload of an odd block without its padding value |
| FpcDecoder.LoadInBuffer | src/compression/fpc_compressor.cpp:285-285 | every word a decoder loads lies inside its block buffer |
| FpcDecoder.CursorBound | src/compression/fpc_compressor.cpp:345-391 | a decoder's position after `k` values is at most `8 * k` bytes behind the codes |
| FpcDecoder.DecodeValue | src/compression/fpc_compressor.cpp:349-378 | one value: its residual spliced and masked out of two words, then the prediction undone |
| FpcDecoder.DecodeNext | src/compression/fpc_compressor.cpp:349-378 | the loop body gives the value that the format reads, and moves past its residual |
| FpcDecoder.DecodePair | src/compression/fpc_compressor.cpp:346-410 | one turn of the loop decodes the two values of a code byte, or the last one and its padding |
| FpcDecoder.DecodeSecond | src/compression/fpc_compressor.cpp:380-409 | the second value of a pair, or the padding of an odd block, which only moves the position |
| FpcDecoder.DecodeBlock | src/compression/fpc_compressor.cpp:345-410 | a block decodes to the values of the format, and the position ends where the next header would be |
| FpcDecoder.DecodeAndLookAhead | src/compression/fpc_compressor.cpp:430-439 | after a block the loop goes on with the header behind it exactly when the format does |
| FpcRoundTrip.CodesAt | src/compression/fpc_compressor.cpp:212-212 | a reader finds the 4-bit code of every value where the encoder put it |
| FpcRoundTrip.ReadOneBack | src/compression/fpc_compressor.cpp:349-376 | from the bytes and the code of a residual the decoder gets the value, in step with the encoder |
| FpcRoundTrip.BodyResidual | src/compression/fpc_compressor.cpp:160-211 | the residual of every value stands in the block where the lengths before it say |
| FpcRoundTrip.ReadValueBack | src/compression/fpc_compressor.cpp:349-376 | from any point of a block the reader gets the next value and is again in step |
| FpcRoundTrip.ReadBlockBack | src/compression/fpc_compressor.cpp:345-410 | reading any number of values of a block gives those values, with predictors in lockstep and the position at the next residual |
| FpcRoundTrip.BlockChaining | src/compression/fpc_compressor.cpp:430-439 | after a block that is not the last the reader stands exactly at the next header; after the last one, odd or even, no header fits any more |
| FpcRoundTrip.EncodedBlockParts | src/compression/fpc_compressor.cpp:219-241 | an encoded block announces its number of values and its length truthfully, below 2^24 |
| FpcRoundTrip.ReadBlocksBack | src/compression/fpc_compressor.cpp:330-441 | reading all blocks gives all values, predictors being carried across blocks |
| FpcRoundTrip.ParseEncoded | src/compression/fpc_compressor.cpp:272-458 | the stream of any input with a whole word reads back to its words, at every level |
| FpcRoundTrip.RoundTrip | src/compression/fpc_compressor.cpp:49-458 | decoding an encoded input gives it without its last `size % 8` bytes; inputs of fewer than eight bytes encode to the level byte alone, which the decoder refuses |
| FpcRoundTrip.LosslessExactly | src/compression/fpc_compressor.cpp:49-458 | the round trip is exact if and only if the size is at least eight and a multiple of eight |
| FpcBlocks.BlockFilled | src/compression/fpc_compressor.cpp:97-105 | bytes read for a block hold as many of the values ahead as fit; bytes that make no whole value come only at the end, and are lost |
| FpcBlocks.EncodingGoesOn | src/compression/fpc_compressor.cpp:107-252 | with a block written, with any padding, the stream is what has been written and what the other values will add |
| FpcBlocks.DecodingGoesOn | src/compression/fpc_compressor.cpp:330-441 | with a block decoded, all values are those decoded so far and those of the rest of the stream |
| FpcBounds.ChoosingIsBest | src/compression/fpc_compressor.cpp:126-129 | over any sequence the residual bytes total no more than with the first or with the second predictor alone |
| FpcBounds.BlocksFit | src/compression/fpc_compressor.cpp:219-241 | an encoding is no longer than 6 + ceil(n / 2) + 8n bytes for each block of n values |
| FpcBounds.ChunkNeverRunsOut | src/compression/file_processor.cpp:69-81 | a chunk of any whole number of kilobytes always fits the buffer of 1.1 times its size |
| FpcBounds.HardValuesCost | src/compression/fpc_compressor.cpp:130-160 | for every state of the predictors there are values that all cost eight bytes |
| FpcBounds.BufferIsTight | src/compression/fpc_compressor.cpp:61-61 | from every state some block makes the last store end at the last byte of the buffer |
| FpcLearning.SameHash | src/compression/fpc_compressor.cpp:114-114 | two values lead the first hash on to the same one if and only if their upper 16 bits agree where the table's mask lets them through |
| FpcLearning.SameDHash | src/compression/fpc_compressor.cpp:122-122 | two strides lead the second hash on to the same one if and only if their upper 24 bits agree there |
| FpcLearning.HashIsLinear | src/compression/fpc_compressor.cpp:114-114 | the first hash of an exclusive or is the exclusive or of the hashes |
| FpcLearning.DHashIsLinear | src/compression/fpc_compressor.cpp:122-122 | so is the second |
| FpcLearning.HashParts | src/compression/fpc_compressor.cpp:114-122 | what a hash takes from a value alone, and what it keeps of itself: shifted by six bits or by two |
| FpcLearning.HashForgets | src/compression/fpc_compressor.cpp:114-114 | the first hash depends on no more than the last level / 6 values, rounded up |
| FpcLearning.DHashForgets | src/compression/fpc_compressor.cpp:122-122 | the second depends on no more than the last level / 2 strides, rounded up |
| FpcLearning.TableSize | src/compression/fpc_compressor.cpp:82-92 | a table has two to the level entries, at every level |
| FpcLearning.IndexInjective | src/compression/fpc_compressor.cpp:113-121 | different hashes are different places of a table |
| FpcForesight.HashNext | src/compression/fpc_compressor.cpp:114-114 | over a whole input the first hash goes on value by value |
| FpcForesight.DHashNext | src/compression/fpc_compressor.cpp:117-122 | and the second stride by stride, the first value being the first stride |
| FpcForesight.ForeseesFirst | src/compression/fpc_compressor.cpp:113-115 | the first predictor foresees the value that followed the same hash the last time |
| FpcForesight.UnseenFirst | src/compression/fpc_compressor.cpp:84-90 | and zero behind a hash never met before |
| FpcForesight.ForeseesSecond | src/compression/fpc_compressor.cpp:117-123 | the second predictor foresees the last value plus the stride that followed the same hash the last time |
| FpcForesight.UnseenSecond | src/compression/fpc_compressor.cpp:84-94 | and the last value again behind a hash never met before |
| FpcForesight.WindowHash | src/compression/fpc_compressor.cpp:114-114 | anywhere in an input the first hash is a function of the last level / 6 values, rounded up |
| FpcForesight.WindowDHash | src/compression/fpc_compressor.cpp:122-122 | and the second of the last level / 2 strides, rounded up |
| FpcForesight.TurnsForeseen | src/compression/fpc_compressor.cpp:112-115 | of two values in turn the first predictor foresees each one, from the warm-up on, if and only if they are the same or their upper bits differ within the mask |
| FpcForesight.TurnsCost | src/compression/fpc_compressor.cpp:112-131 | so the first predictor costs nothing after the warm-up when the hash tells two values in turn apart, and at least a byte a value when it cannot, at every level |
| FpcForesight.StrideForeseen | src/compression/fpc_compressor.cpp:117-123 | of values a constant stride apart the second predictor foresees each one, from the warm-up on, at every level |
| FpcForesight.StrideCost | src/compression/fpc_compressor.cpp:117-131 | so the second predictor costs nothing after the warm-up there |
| FpcForesight.TurnsCompress | src/compression/fpc_compressor.cpp:49-268 | a stream of two values in turn, however long, holds no more residual bytes than its first level / 6 values, rounded up, and two |
| FpcForesight.StrideCompresses | src/compression/fpc_compressor.cpp:49-268 | a stream of values a constant stride apart holds no more than its first level / 2 values, rounded up, and two |
| FpcForesight.EncodedLength | src/compression/fpc_compressor.cpp:219-241 | a stream starts with its level and has six bytes for each block begun, half a byte for each value and the residual bytes, however many blocks there are |
| FpcForesight.ResidualIsLeast | src/compression/fpc_compressor.cpp:126-129 | the residual is the smaller of the two differences as unsigned numbers, the first when they are equal |
| FpcForesight.CodeIs | src/compression/fpc_compressor.cpp:161-161 | a 4-bit code is the length code, and eight more for the second predictor |
| FpcForesight.CodeByteIs | src/compression/fpc_compressor.cpp:212-212 | a code byte has the code of the earlier value in its upper half |
| FpcCompressor.Input.Read | src/compression/fpc_compressor.cpp:97-104 | as many bytes as wanted, or all that are left, come to the front of the array, and the position moves only while bytes are left |
| FpcCompressor.Output.Write | src/compression/fpc_compressor.cpp:227-241 | the bytes are copied behind what has been written, or nothing is when they do not fit |
| FpcCompressor.FPCCompressor.CompressBlock | src/compression/fpc_compressor.cpp:107-241 | one turn of the encoding loop writes the next block of the stream, or finds that the stream does not fit |
| FpcCompressor.FPCCompressor.DecompressBlock | src/compression/fpc_compressor.cpp:330-439 | one turn of the decoding loop writes the values of a block and has read the header behind it, or finds that not all values fit |
| FpcCompressor.FPCCompressor.Compress | src/compression/fpc_compressor.cpp:49-268 | the output is exactly the encoded stream when it fits and an error when not; success if and only if it fits |
| FpcCompressor.FPCCompressor.Decompress | src/compression/fpc_compressor.cpp:272-458 | the output is the bytes of the values read; too short an input and too small an output are the errors reported |
| FpcCompressor.CompressThenDecompress | src/compression/fpc_compressor.cpp:49-458 | with room on both sides, what one object compressed another of any level decompresses to the whole words of the input |
| FpcStreams.Stream.Read | external/fpc/fpc.c:181-181 | as many bytes as wanted, or all that are left |
| FpcStreams.Compress | external/fpc/fpc.c:17-145 | the stream program writes exactly the encoded stream of all its input |
| FpcStreams.Decompress | external/fpc/fpc.c:147-260 | it writes exactly what a stream holds, nothing for a level byte alone, and stops without writing when there is no whole header |
| FpcStreams.CompressThenDecompress | external/fpc/fpc.c:17-260 | both runs one after the other give the whole words of any input back, of the shortest ones too |
| Buffers.Buffer.SetData | src/utils/buffer.cpp:85-95 | the bytes become the contents, or nothing changes when they do not fit |
| Buffers.Buffer.SetSize | src/utils/buffer.cpp:130-137 | a size above the capacity is refused |
| Buffers.Buffer.Resize | src/utils/buffer.cpp:140-148 | a new capacity keeps the contents; one that would cut into them changes nothing |
| Buffers.Buffer.Swap | src/utils/buffer.cpp:151-156 | two buffers exchange everything, each staying consistent |
| SynchronousQueues.SynchronousQueue.IsEmpty | include/utils/synchronous_queue.hpp:37-42 | true exactly when nothing is queued |
| SynchronousQueues.SynchronousQueue.GetSize | include/utils/synchronous_queue.hpp:44-49 | the number of entries queued |
| SynchronousQueues.SynchronousQueue.Push | include/utils/synchronous_queue.hpp:51-61 | an entry goes to the back |
| SynchronousQueues.SynchronousQueue.Pop | include/utils/synchronous_queue.hpp:63-75 | the front entry is taken; an empty queue gives none and is unchanged |
| SynchronousQueues.SynchronousQueue.Clear | include/utils/synchronous_queue.hpp:77-83 | nothing is left |
| SynchronousQueues.FirstInFirstOut | include/utils/synchronous_queue.hpp:51-75 | over any pushes and pops, what came out and what is left are what was there and what came in, in order |
| ThreadPool.ThreadPool.Run | include/utils/thread_pool.hpp:62-88 | a new task goes to the back of the queue, whether or not the pool is shutting down |
| ThreadPool.ThreadPool.Dequeue | src/utils/thread_pool.cpp:54-63 | a worker that need not wait takes the oldest task, if there is one |
| ThreadPool.ThreadPool.Decide | src/utils/thread_pool.cpp:64-64 | it will end exactly if the queue is empty and the pool shutting down |
| ThreadPool.ThreadPool.Work | src/utils/thread_pool.cpp:67-69 | it runs what it holds, and goes on or ends as decided |
| ThreadPool.ThreadPool.DrainBy | src/utils/thread_pool.cpp:48-71 | after shutdown the loop of a single worker runs all that is queued, in order, and ends |
| ThreadPool.ThreadPool.ShutDown | src/utils/thread_pool.cpp:31-45 | shutting an idle pool down runs all that is queued, in order, and ends all workers |
| ThreadPool.StepKeepsInv | src/utils/thread_pool.cpp:48-71 | every step keeps order, exactly-once hand-out, and that workers stop only when shutting down with nothing left |
| ThreadPool.NothingRunsTwice | src/utils/thread_pool.cpp:48-71 | in every run tasks are taken in the order submitted and none runs more often than submitted |
| ThreadPool.PoolDrains | src/utils/thread_pool.cpp:31-71 | when all workers are gone and nothing was submitted after the flag, the queue is empty and every task has run exactly once |
| ThreadPool.SomeWorkerGoesOn | src/utils/thread_pool.cpp:54-70 | after shutdown, while a worker is left, one can take a step |
| ThreadPool.ShutdownEnds | src/utils/thread_pool.cpp:31-45 | after shutdown the workers take a bounded number of steps and are stuck only when all are gone, so joining returns |
| ThreadPool.DrainsExactly | src/utils/thread_pool.cpp:31-71 | for any calls of the pool's user, every run that makes them and ends all workers has run every task if and only if no task is submitted behind a shutdown |
| ThreadPool.LateTaskIsLost | include/utils/thread_pool.hpp:81-84 | with any number of workers, a run leaves a single task submitted after shutdown unexecuted |
| NestedPool.StepKeepsInv | src/network/server/server.cpp:314-321 | every step keeps each request in one place, none forgotten, and a request behind every transmission |
| NestedPool.KeepsFewSleep | include/utils/thread_pool.hpp:81-84 | in every step, at most one worker is asleep, or as many look or will be woken as jobs are queued: an announcement is lost only to the one worker about to block |
| NestedPool.SomeWorkerGoesOn | src/network/server/server.cpp:404-409 | with two requests fewer allowed than workers, any state with work left lets the server go on, lost announcements included |
| NestedPool.RequestsEnd | src/network/server/server.cpp:404-411 | when requests stop coming, a bounded number of steps is left, and where none can be taken every request has been answered |
| NestedPool.DeadlockReachable | src/network/server/server.cpp:316-321 | with one request fewer than workers, or as many, there is a run after which all workers wait for queued transmissions but for one that is blocked |
| NestedPool.DeadlockFreeExactly | src/network/server/server.cpp:193-197 | no reachable state is stuck with work left if and only if the requests in flight are at least two fewer than the workers, or there are none |
| NestedShutdown.ClosingIsBounded | src/utils/thread_pool.cpp:48-71 | after the flag every run has a bounded number of steps |
| NestedShutdown.GoodAlwaysEnds | src/utils/thread_pool.cpp:54-70 | with nothing to submit and a worker that does not wait for what is queued, a run that can go no further has ended all workers |
| NestedShutdown.SubmitsTooLate | src/network/server/server.cpp:314-321 | with a request queued or preparing there is a run that stops with a worker left |
| NestedShutdown.ShutdownEndsExactly | src/network/server/server.cpp:118-141 | from any state a running server can be in, shutting down always ends if and only if no request is queued or preparing and not every worker waits for a queued transmission |
| AsynchronousBuffers.AsynchronousBuffer.Sputc | src/io/asynchronous_buffer.cpp:37-38 | one character goes into the put area, or over its reserved place and on to the queue |
| AsynchronousBuffers.AsynchronousBuffer.Overflow | src/io/asynchronous_buffer.cpp:60-70 | the character that does not fit is stored in the reserved place and the whole area queued |
| AsynchronousBuffers.AsynchronousBuffer.SyncArea | src/io/asynchronous_buffer.cpp:72-87 | the used part of the put area is queued; nothing is when it is empty |
| AsynchronousBuffers.AsynchronousBuffer.WorkerTakes | src/io/asynchronous_buffer.cpp:95-109 | the worker's critical section takes the oldest chunk and decides whether to end |
| AsynchronousBuffers.AsynchronousBuffer.Write | src/io/asynchronous_buffer.cpp:60-70 | a text is put character by character, as so many steps of the stream |
| AsynchronousBuffers.AsynchronousBuffer.Destroy | src/io/asynchronous_buffer.cpp:47-58 | the destructor returns with the worker gone, from wherever it was, and the file lacking exactly the put area |
| AsynchronousBuffers.StepKeepsInv | src/io/asynchronous_buffer.cpp:60-118 | every step keeps file, chunk in hand, queue and put area together equal to what was written, and the worker ends only when nothing can come |
| AsynchronousBuffers.NothingLost | src/io/asynchronous_buffer.cpp:60-118 | in every interleaving those four together are the characters put, in order, and the file is a prefix of them |
| AsynchronousBuffers.CompleteExactly | src/io/asynchronous_buffer.cpp:47-58 | once the worker is gone the file is complete if and only if the characters put since the last sync fill the area a whole number of times, and otherwise lacks exactly those in the area |
| AsynchronousBuffers.UnsyncedIsLost | src/io/asynchronous_buffer.cpp:47-58 | a run that puts one character and destroys the stream leaves the file empty |
| AsynchronousBuffers.WorkerEnds | src/io/asynchronous_buffer.cpp:89-118 | after closing the worker takes a bounded number of steps and is stopped by nothing but its end |
| SynchronizedFiles.StepKeepsInv | src/io/synchronized_file.cpp:44-49 | every step of any writer or the worker keeps the lines whole and the put area empty between lines |
| SynchronizedFiles.LinesWholeInOrder | src/io/synchronized_file.cpp:38-49 | in every interleaving the file is a prefix of the lines in the order in which their writers got the mutex, and after destruction it is all of them |
| SynchronizedFiles.FileGivesData | src/io/synchronized_file.cpp:44-49 | after destruction, cutting the file at its newlines gives the data of every line in order, when no data hold a newline of their own |
| SynchronizedFiles.SynchronizedFile.Write | src/io/synchronized_file.cpp:44-49 | the data and one newline are added whole, as the last line, and flushed |
| SynchronizedFiles.SynchronizedFile.Destroy | src/io/synchronized_file.cpp:38-41 | the file then holds all lines |
| DirectoryExplorers.ReadEntry | src/io/directory_explorer.cpp:126-141 | reading an entry leaves its outcome followed by what was ahead, a subdirectory going to the end of the queue, and less work |
| DirectoryExplorers.DirectoryExplorer.Open | src/io/directory_explorer.cpp:29-69 | succeeds if and only if the path exists, can be opened and gives no failure before its first file; then all files of the search remain |
| DirectoryExplorers.DirectoryExplorer.HasNextFile | src/io/directory_explorer.cpp:79-82 | true exactly when a file remains |
| DirectoryExplorers.DirectoryExplorer.GetNextFileName | src/io/directory_explorer.cpp:86-99 | hands out the first remaining file; a failure loses and repeats none |
| DirectoryExplorers.DirectoryExplorer.FindNextFile | src/io/directory_explorer.cpp:124-172 | goes on by exactly one outcome of the search, or finds that there is none |
| DirectoryExplorers.DirectoryExplorer.OpenNextDirectory | src/io/directory_explorer.cpp:142-170 | passes over directories that cannot be opened without changing what is ahead |
| DirectoryExplorers.Explore | src/io/directory_explorer.cpp:29-99 | asking while there is a next file, and again after failures, gives exactly the files of the search and reports each failure once: those that a chain of openable folders leads to, none of them "." or "..", and no others |
| DirectoryExplorers.WithinLevel | src/io/directory_explorer.cpp:124-172 | in mid-level, the queue gives the rest of the level, then the levels below |
| DirectoryExplorers.SearchIsByLevels | src/io/directory_explorer.cpp:124-172 | the search is level by level, each in listing order |
| DirectoryExplorers.SearchReaches | src/io/directory_explorer.cpp:124-172 | a path is handed out, or reported, if and only if it is that of a file, or of a name that cannot be examined, at the end of a chain of openable folders, none of them "." or "..", joined by slashes |
| DirectoryExplorers.SearchIsComplete | src/io/directory_explorer.cpp:124-172 | the search meets what a plain recursive walk meets, each file as often |
| DirectoryExplorers.NoFileTwice | src/io/directory_explorer.cpp:124-172 | when the names in every listing differ and contain no slash, no file is handed out twice |
| DirectoryExplorers.TopDown | src/io/directory_explorer.cpp:124-172 | when names contain no slash, no file is handed out before one whose path has fewer slashes |
| DirectoryExplorers.FolderOfFiles | src/io/directory_explorer.cpp:124-136 | a folder that lists only files gives exactly their paths, in the order listed |
| TcpSockets.SizeRoundTrip | src/network/socket/tcp_socket.cpp:306-325 | the four length bytes give the length modulo 2^32 |
| TcpSockets.FrameIs | src/network/socket/tcp_socket.cpp:244-325 | on the wire a message is behind four bytes that spell its length with the most significant byte first |
| TcpSockets.FramingRoundTrip | src/network/socket/tcp_socket.cpp:244-303 | a framed message comes back with what follows it untouched if and only if its length is from 1 to 2^32 - 1 |
| TcpSockets.LaterBytesDoNotMatter | src/network/socket/tcp_socket.cpp:291-303 | a message already complete is received the same whatever arrives later |
| TcpSockets.TCPSocket.SendBytes | src/network/socket/tcp_socket.cpp:328-351 | over any partial writes exactly the bytes are sent; after an error a prefix of them |
| TcpSockets.TCPSocket.Send | src/network/socket/tcp_socket.cpp:244-254 | the message's frame is appended to the stream |
| TcpSockets.TCPSocket.ReceiveBytes | src/network/socket/tcp_socket.cpp:356-393 | over any partial reads the wanted bytes fill the front of the buffer; an error when the stream ends first or nothing is wanted |
| TcpSockets.TCPSocket.ReceiveMessageSize | src/network/socket/tcp_socket.cpp:315-325 | the size is that of the first four bytes of the stream |
| TcpSockets.TCPSocket.Receive | src/network/socket/tcp_socket.cpp:291-303 | the buffer gets the first message, growing exactly when it is too small, and the stream loses exactly its frame |
| TcpSockets.TCPSocket.ReceiveAll | src/network/socket/tcp_socket.cpp:291-303 | a list of sent messages is received in order with nothing left over |
| TcpSockets.SendThenReceive | src/network/socket/tcp_socket.cpp:229-303 | messages sent over an empty connection all come out at the other end |
| FileProcessors.ChunksAreContent | src/compression/file_processor.cpp:73-77 | the chunks together are the file, none is empty, and none but the last falls short |
| FileProcessors.ChunkAt | src/compression/file_processor.cpp:73-77 | chunk `k` is the content from `k` chunk sizes on, up to one chunk size of it |
| FileProcessors.FileMessageAt | src/network/server/server.cpp:344-390 | the messages of a file one by one: its name, size and chunk size; then for each chunk its number from zero, whether it is the last, and the compressor's bytes if it packed them within 1.1 times the chunk size, or the chunk itself as a copy |
| FileProcessors.FileProcessor.OpenNextFile | src/compression/file_processor.cpp:24-47 | the next file is opened at its start, or its name reported when it cannot be |
| FileProcessors.FileProcessor.Read | src/compression/file_processor.cpp:73-77 | as many bytes as wanted, or all that are left with the end noticed |
| FileProcessors.FileProcessor.GetNextChunk | src/compression/file_processor.cpp:54-92 | the buffer gets the next chunk, as the compressor packed it when that fits, and as it is when it does not, when copying was chosen or when the compressor failed; an error exactly when there is no chunk |
| FileProcessors.SendChunk | src/network/server/server.cpp:362-390 | one chunk behind its header, the flag set exactly on the last one, and the buffer moved away |
| FileProcessors.SendChunks | src/network/server/server.cpp:362-390 | all chunks of the open file |
| FileProcessors.ProcessRequest | src/network/server/server.cpp:329-391 | the queue gets exactly the messages of all files |
| FileProcessors.FlagsExactly | src/network/server/server.cpp:344-382 | in the messages of any request exactly the last chunk of each file and exactly the last file, if it can be opened, are flagged |
| FileProcessors.Transmit | src/network/server/server.cpp:447-479 | the transmission loop sends all messages of the queue in order and ends |
| Clients.CompletesExactly | src/network/client/client.cpp:183-263 | the client reads every message and finishes with the last if and only if there is a file and all files open and are not empty |
| Clients.ChunkArrives | src/network/client/client.cpp:332-385 | any chunk whose packing can be undone is written whole, and a full one leaves room for the next |
| Clients.ChunksArrive | src/network/client/client.cpp:332-385 | the chunks of a file, however each was packed, leave it saved and counted as complete |
| Clients.FilesArrive | src/network/client/client.cpp:285-394 | the files saved are the files sent, in order, for every choice of compressors that can be undone |
| Clients.AllRestored | src/network/client/client.cpp:332-352 | with decompressors that give back whatever the compressors packed, every chunk of every request can be undone |
| Clients.FilesRoomy | src/network/client/client.cpp:326-350 | whenever a chunk is handled the scratch buffer can hold a whole one, even after copied chunks swapped theirs in |
| Clients.BaseIsName | src/network/client/client.cpp:304-309 | the name a file is saved under has no slash and is the last part of the path sent, at its start or behind a slash and with nothing but slashes after it; a path without any part gives "." or "/" |
| Clients.BaseOfJoined | src/network/client/client.cpp:304-309 | a file found in a directory is saved under the name listed there |
| Clients.AllHeldExactly | src/network/client/client.cpp:304-315 | the destination holds every file saved if and only if no two have the same name, without directories, and different contents |
| ClientLoops.ReceiveChunk | src/network/client/client.cpp:220-257 | a header and a body give one entry; anything else ends the session |
| ClientLoops.RequestFile | src/network/client/client.cpp:183-263 | the loops queue exactly the entries of the messages and end without an error exactly when the parser does |
| ClientLoops.Writer.Unpack | src/network/client/client.cpp:334-350 | a chunk is decompressed into the scratch buffer or swapped in; after an error the buffer keeps its size, with what was written by then in front |
| ClientLoops.Writer.HandleEntry | src/network/client/client.cpp:301-392 | one entry starts a file, under the last part of its path, or adds a chunk to it, closing it after the last |
| ClientLoops.Writer.Decompress | src/network/client/client.cpp:285-394 | all entries of the queue are handled in order |
| ClientLoops.Transfer | src/network/server/server.cpp:329-391 | server and client one after the other: success if and only if the request can be transferred, and then all files are saved whole, in order, each under the last part of its path |
| Transfers.StepKeepsInv | src/network/server/server.cpp:447-462 | no step of any thread changes what the client will have saved in the end |
| Transfers.StuckIsDone | src/network/client/client.cpp:285-394 | where no step is possible all threads have ended and the outcome is reached |
| Transfers.RunsAreBounded | src/network/server/server.cpp:447-479 | every run ends |
| Transfers.TransferIsExact | src/network/server/server.cpp:329-479 | in every interleaving the files saved so far are a prefix of the files requested, each whole, steps are bounded, and a run that ends has saved them all |
| Transfers.FinishesOnlyIfTransferable | src/network/client/client.cpp:183-268 | in no interleaving does the client finish without an error unless the request has files and all open and are not empty |
| FpcTransfers.FpcChunk | src/compression/file_processor.cpp:79-90 | a chunk packed by FPC fits, and what comes back is its whole words, or an error if it has none |
| FpcTransfers.FinalChunk | src/network/client/client.cpp:334-352 | for a last chunk the client writes its whole words, or what is in the scratch buffer if it has none |
| FpcTransfers.ShortEndRepeats | src/network/client/client.cpp:334-352 | a file that ends in fewer than eight bytes behind full chunks is saved without them and with its last full chunk once more; a shorter one is saved empty |
| FpcTransfers.FileKeepsWords | src/network/client/client.cpp:285-394 | what a file is saved as when its chunks all go through FPC, which is the file if and only if its size is a multiple of eight |
| FpcTransfers.FpcTransferExactly | src/network/client/client.cpp:285-394 | with FPC throughout, the files saved are the files sent if and only if every size is a multiple of eight |
| DecisionTrees.DecisionTree.Classify | src/utils/decision_tree.cpp:70-89 | every way through the node table from its first node, to the left child exactly at or below the threshold and to the right one otherwise, until both children are the same, ends at the choice answered, and there is such a way; a point of the wrong dimension is refused |
| DecisionTrees.WayDecides | src/utils/decision_tree.cpp:82-88 | the tree that the nodes stand for answers what stands at the end of the way through them |
| DecisionTrees.WayExists | src/utils/decision_tree.cpp:82-88 | from every node a way leads to a leaf, for every point |
| DecisionTrees.ExactlyOneRule | src/utils/decision_tree.cpp:82-88 | of the rules read off the leaves exactly one applies to any point, and it gives the answer |
| DecisionTrees.SameSidesSameAnswer | src/utils/decision_tree.cpp:82-88 | points on the same side of every threshold get the same answer |
| DecisionTrees.Saturates | src/utils/decision_tree.cpp:82-88 | raising a coordinate past no threshold changes no answer |
| DecisionTrees.SameInBoxExactly | src/utils/decision_tree.cpp:82-88 | walking two trees at once, each with its own value of one feature, decides whether any point of a box is answered differently |
| Bytecountings.CountOccurrences | include/utils/functions.hpp:23-30 | the histogram counts every byte value |
| Bytecountings.Bytecounting | include/utils/functions.hpp:20-42 | the result is the number of byte values that occur at least as often as in evenly spread data |
| Bytecountings.OccurrencesArePlaces | include/utils/functions.hpp:23-30 | the histogram has the number of places at which a value stands |
| Bytecountings.CountIsValues | include/utils/functions.hpp:32-41 | the count is the number of byte values that stand at a 256th of the places or more, rounded down |
| Bytecountings.CountIsPositive | include/utils/functions.hpp:32-41 | the count is from 1 to 256 for all data |
| Bytecountings.FullExactly | include/utils/functions.hpp:35-39 | the count is full if and only if every value reaches the threshold |
| Bytecountings.ShortDataCountsFull | include/utils/functions.hpp:32-41 | less than 256 bytes count 256 |
| AutoComps.GetBytecounting | include/compression/autocomp_compressor.hpp:307-325 | the whole number nearest to a third of the sum of the counts of a tenth of the chunk at a tenth, at nine twentieths and at four fifths of it |
| AutoComps.OnlyPlacesMatter | include/compression/autocomp_compressor.hpp:307-325 | chunks of one size that agree in the three places have the same sample |
| AutoComps.EachPlaceMatters | include/compression/autocomp_compressor.hpp:307-325 | for each place there are chunks that differ in two bytes there, and nowhere else, with different samples |
| AutoComps.SampleRange | include/compression/autocomp_compressor.hpp:307-325 | a sample is from 1 to 256 for all chunks, and every place sampled lies inside the chunk |
| AutoComps.SmallChunksArePoor | include/compression/autocomp_compressor.hpp:179-182 | a sampled chunk of less than 2560 bytes is sent as it is |
| AutoComps.ClassifierSeesLowCounts | include/compression/autocomp_compressor.hpp:166-189 | in every run the count the classifier is asked about is at most 100 |
| AutoComps.DuringPause | include/compression/autocomp_compressor.hpp:166-189 | what the counters hold until the pause after a sample is full |
| AutoComps.PauseExactly | include/compression/autocomp_compressor.hpp:166-189 | the next chunk sampled is the first before which the chunks since the last sample have at least 512 KiB, less than one chunk too much; it is judged by its own count, and until then all are copied or all treated alike by the count of that sample |
| AutoComps.AutoCompCompressor.Compress | include/compression/autocomp_compressor.hpp:157-263 | which counter moves by how much in each of the four cases, and the decision: to copy, the fast compressor while the send buffer is nearly empty, or what the way through the node table ends at if it is one of the compressors made |
| AutoComps.AutoCompCompressor.constructor | include/compression/autocomp_compressor.hpp:119-154 | the compressors made are exactly snappy, zlib 0 to 9, and LZO, bzip2 and LZMA 1 to 9 |
| AutoComps.LevelsAre | include/compression/autocomp_compressor.hpp:266-294 | the point asked about: tenths of the load, fives of the bandwidth below 100, hundreds below 1000 from 20 on, 58 above, and tens of the count, in this order |
| AutoComps.BandwidthLevelMonotone | include/compression/autocomp_compressor.hpp:274-285 | on real numbers, levels rise with the bandwidth and stay within training's 29 exactly below 1000 |
| AutoComps.ActsAsTrained | include/compression/autocomp_compressor.hpp:274-285 | level 58 acts like training's level 28 in every tree without a bandwidth threshold from 28 up to 58 |
| AutoComps.ActsAsTrainedExactly | include/compression/autocomp_compressor.hpp:240-285 | level 58 acts like training's level 28 for every load and every count the classifier is asked about if and only if walking the tree with both at once finds no difference |
| AutoComps.OneTestTellsApart | src/tools/classification/parse_performance_data.py:35-42 | a single bandwidth test tells the two levels apart if and only if its threshold is in between |

## Left out

- FpcCompressor.FPCCompressor.Decompress: requires that a stream of seven bytes or more can be read; on others the program stops at assertions or reads what an earlier block left in its buffer.
- FpcEncoder.EncodePair: the programs repeat the code for the second value of a pair; here both halves share one method, as the program in memory and the stream program share the block methods.
- FpcCompressor.CompressThenDecompress: sizes are below 2^31, because the program keeps them in an `int`.
- ThreadPool.ShutdownEnds: a worker goes on when its condition holds; a wake-up lost because tasks are queued outside the mutex only delays it, since the flag is set under the mutex and announced to all.
- NestedPool.DeadlockFreeExactly: network errors, which end a transmission early, are not modelled; nor is a wake-up without a reason counted on, though it may happen.
- NestedShutdown.ShutdownEndsExactly: starts when all workers have been woken; a worker that is still being woken only takes its next step later.
- AsynchronousBuffers.AsynchronousBuffer.WorkerStores: the file's own buffering below the stream is not modelled.
- AutoComps.BandwidthLevelMonotone: is about real numbers; in single precision a bandwidth just below 1000 can round up to level 29.
- Transfers.TransferIsExact: messages are records and not frames on a socket, sizes and positions are unbounded, and no I/O fails during the transfer.
- ClientLoops.ReceiveChunk: a message that is not a chunk body in its place ends the session here; the program takes any bytes for the body.
- ClientLoops.Writer.HandleEntry: names are not cut at 1000 characters, and stand for files in the destination directory, whose own name is not put in front; pre-compression would add an extension.
- ClientLoops.Writer.Unpack: data that turn out too long for the scratch buffer are taken to be refused before anything is written; with chunks that can be undone this does not happen.
- AutoComps.AutoCompCompressor.Compress: decides what to do with a chunk; the compressors themselves, the performance log and the measuring of loads are left out, and the counters, which are static in the program, belong to the object.
- DecisionTrees.DecisionTree.Classify: requires nodes whose children come later and exist; the parsing of the tree file, which does not check this, is left out. Thresholds are reals.
- FileProcessors.FileProcessor.GetNextChunk: 1.1 times the chunk size is computed on integers.
- AutoComps.Sample: positions and lengths are computed on integers instead of floats.
- DirectoryExplorers.DirectoryExplorer.Open: the file system is a finite tree that does not change, so links in a circle are left out.
- NestedPool, NestedShutdown and Transfers are step systems on values and not classes, because their point is the interleaving of threads; the loops of the single threads are methods elsewhere.
- zlib, snappy, LZO, bzip2 and LZMA: foreign libraries; they appear as any codec that can be undone.
- Pre-compression of whole files and the training mode of the server.
- Requests that fail before their transmission starts.
- Protobuf encoding, sockets beyond the two loops, logging, configuration, command-line tools and scripts.
- Compressors with a fixed or rotating choice, level checks and exception classes: none of them holds more than one test or one counter.
