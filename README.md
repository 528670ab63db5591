# TempoTest audio staging core, modelled in Dafny

TempoTest feeds live or decoded audio to a beat tracker and to a waveform view. Under
its GTK, miniaudio and pthread wiring sit three sequential components, and this project
models each one with its locks removed:

- **`CircularBuffer`** (`circular_buffer.dfy`, from `circular_buffer.c`). This is the
  overwrite-oldest ring of recent samples that the waveform view reads. The class keeps
  the C struct's `buffer` array and its `head`/`tail` indices. The datatype `Ring` is
  the value of those fields. `Push` is one iteration of the write loop, and `WriteAll`
  is one whole call to `writeToCircularBuffer`. `Window` holds the valid samples, oldest
  first. The main result is `Tracks`: whatever was written before, the window is the
  last `size - 1` values of the whole write history.
- **`AudioQueue`** (`audio_queue.dfy`, from `audio_queue.c`). This is the bounded FIFO of
  sample chunks (`AudioFrame`) between the audio callback and the analysis thread. The
  class keeps the `frames` array and `head`/`tail`, plus a ghost `contents` sequence that
  holds the abstract FIFO. The two `pthread_cond_wait` loops become preconditions:
  enqueue needs a queue that is not full, and dequeue needs one that is not empty.
- **`Wave`** (`wave.dfy`, from `wave.c`). This is the WAV reader. The file is a
  `WaveFile`: a byte sequence plus a read cursor, where `Fread` succeeds exactly when the
  requested bytes remain.
  - `Open` is `wave_open`. It reads the 44-byte canonical header one field after
    another and derives `num_samples`.
  - `Read` is `wave_read`: a loop over frames with a loop over channels inside it. It is
    proved equal to the pure decoder `DecodeFrames`.

Two helper modules support these:
- `ModArith` holds `Min`/`Max` and facts about `%`.
- `CInt` gives the C integer semantics that the decoder needs. A C `int` is a 32-bit
  pattern. `|`, `&` and `<<` work bit by bit. `char` is signed, as with gcc on x86. That
  last point is what makes the high byte of a 16- or 32-bit sample sign-extend.

Samples are `real`. The sample division `(float) v / high_limit` is exact real division.
A `float *` of frame data that is `NULL` is the empty sequence.

The model follows the code as written:
- `wave_open` reads the RIFF/WAVE/fmt/data markers (wave.c:36, 46, 48 and 90) but never compares
  them with anything, and it reads a fixed 44-byte layout, so a longer fmt chunk is not skipped.
- wave.h:48 and wave.h:52 declare `int` results for `wave_open` and `wave_read`, but wave.c
  defines `wave_open` as `void` and `wave_read` as returning the sample rows. The model
  follows wave.c.
- wave.h:54 declares `wave_resample`, but no file implements it, so the reader has no
  resampling.
- `num_samples` (wave.c:99) keeps both `- 8` adjustments, computed in 32-bit unsigned
  arithmetic.
- The ring buffer has `size` slots but holds at most `size - 1` samples, because a write
  that catches `tail` pushes it on (circular_buffer.c:25-28).
- wave.c:117 says the samples lie "between -1 and 1", but the division by `high_limit`
  (wave.c:187) gives -32768/32767 for the most negative 16-bit value, which is below -1.
  The model computes that quotient as written.

## Model

| member | source | states |
|---|---|---|
| `CircularBuffer.Available` | circular_buffer.c:35 | The valid-sample count `(head - tail + size) % size` lies in `[0, size - 1]` |
| `CircularBuffer.AvailableAtBound` | circular_buffer.c:25-28 | The count reaches `size - 1` exactly when `head` sits one slot behind `tail` |
| `CircularBuffer.Push` | circular_buffer.c:24-28 | One loop iteration keeps `head` and `tail` in range and raises the valid count by one, up to `size - 1`; its effect on the samples is `PushWindow` |
| `CircularBuffer.WriteAll` | circular_buffer.c:23-29 | A write of `k` values raises the valid count to `min(old count + k, size - 1)`; its effect on the samples is `WriteAllWindow` |
| `CircularBuffer.PushWindow` | circular_buffer.c:24-28 | One stored value joins the window at the newest end, and the oldest value drops out once `size - 1` are held |
| `CircularBuffer.WriteAllWindow` | circular_buffer.c:23-29 | After a write, the window is the last `size - 1` values of old window plus written data, in write order |
| `CircularBuffer.WriteAllHead` | circular_buffer.c:23-25 | A write of `k` values moves `head` forward by `k` modulo `size` |
| `CircularBuffer.WriteAllStores` | circular_buffer.c:23-25 | Value `i` of the last `size` written lands in slot `(old head + i) % size` |
| `CircularBuffer.WriteAllUntouched` | circular_buffer.c:23-29 | Slots farther ahead of `head` than the number of values written keep their sample |
| `CircularBuffer.WriteKeepsHistory` | circular_buffer.c:21-31 | If the window was the capped history `h`, then after writing `xs` it is the capped history `h + xs` |
| `CircularBuffer.ReadKeepsHistory` | circular_buffer.c:35-45 | For any write history `h`, the count is `min(|h|, size - 1)` and the last `m` window values are the last `m` of `h` |
| `CircularBuffer.CircularBuffer.constructor` | circular_buffer.c:5-13 | `createCircularBuffer`: all slots 0, `head = tail = 0`, empty window (tracks the empty history) |
| `CircularBuffer.CircularBuffer.Write` | circular_buffer.c:21-31 | The new state is `WriteAll` of the old state and the first `count` values (none if `count <= 0`) |
| `CircularBuffer.CircularBuffer.Put` | circular_buffer.c:24-28 | One loop iteration: store at `head`, advance it, and push `tail` on when `head` catches it |
| `CircularBuffer.CircularBuffer.Read` | circular_buffer.c:33-46 | Returns `min(count, available)` and fills `data[0..toRead)` with the newest `toRead` window values, oldest first; the buffer state and the rest of `data` do not change |
| `CircularBuffer.CircularBuffer.GetAvailable` | circular_buffer.c:48-53 | Returns the same count that `Read` uses as its bound, which is the window length |
| `CircularBuffer.CircularBuffer.Clear` | circular_buffer.c:55-61 | Every slot 0, `head = tail = 0`, and the window is empty |
| `CircularBuffer.ReadTwice` | circular_buffer.c:33-46 | Two reads with no write between them return the same count and the same samples |
| `AudioQueue.Count` | audio_queue.c:27-28 | The resident count `(tail - head + capacity) % capacity` lies in `[0, capacity - 1]` |
| `AudioQueue.Full` | audio_queue.c:27-28 | `(tail + 1) % capacity == head` holds exactly when `capacity - 1` frames are resident |
| `AudioQueue.EmptyIffCount` | audio_queue.c:49-51 | `head == tail` holds exactly when no frame is resident |
| `AudioQueue.Enqueued` | audio_queue.c:36-40 | Filling slot `tail` and stepping `tail` keeps both indices in range and the capacity; its effect on the FIFO is `EnqueueAppends` |
| `AudioQueue.Dequeued` | audio_queue.c:53-54 | Stepping `head` keeps both indices in range and leaves every slot as it was; its effect on the FIFO is `DequeueRemovesFront` |
| `AudioQueue.Cleared` | audio_queue.c:66-75 | The clear keeps the capacity and leaves valid indices; what it does to each slot is `ClearEmpties` |
| `AudioQueue.EnqueueAppends` | audio_queue.c:36-40 | Filling slot `tail` and advancing `tail` raises the count by 1 and appends the frame to the resident sequence |
| `AudioQueue.DequeueRemovesFront` | audio_queue.c:53-54 | On a non-empty queue, `frames[head]` is the front frame; advancing `head` lowers the count by 1 and drops that frame |
| `AudioQueue.ClearEmpties` | audio_queue.c:66-75 | After a clear nothing is resident; resident slots are blanked (NULL, 0) and every other slot keeps its frame |
| `AudioQueue.AudioQueue.constructor` | audio_queue.c:4-12 | `createAudioQueue`: every slot blank, `head = tail = 0`, empty FIFO |
| `AudioQueue.AudioQueue.Enqueue` | audio_queue.c:24-44 | On a queue that is not full, slot `tail` gets a copy of `data[0..frameCount)` and `frameCount`, `tail` advances, and the FIFO gains that frame at the back |
| `AudioQueue.AudioQueue.Dequeue` | audio_queue.c:46-60 | On a non-empty queue, returns the FIFO's front frame and removes it; only `head` changes |
| `AudioQueue.AudioQueue.Clear` | audio_queue.c:62-79 | The walk from `head` to `tail` blanks exactly the resident slots, then `head = tail = 0` and the FIFO is empty |
| `AudioQueue.FifoOrder` | audio_queue.c:24-60 | Two enqueues followed by two dequeues return the frames in the order they were enqueued |
| `CInt.LowByte` | wave.c:173 | `c & 0x00ff` on a signed `char` promoted to `int` gives back the byte that was read |
| `CInt.ShlChar8` | wave.c:179 | `c << 8` on a signed `char` keeps the sign extension in the high bits |
| `CInt.ShlChar24` | wave.c:176 | `c << 24` on a signed `char` puts the byte's own bits at positions 24 to 31 |
| `CInt.OrBytes` | wave.c:41-44 | OR-ing four bytes shifted by 0, 8, 16 and 24 bits is their little-endian sum |
| `Wave.Field16` | wave.c:60 | The OR of the low byte and the high byte shifted by 8 is a value in `[0, 2^16)`, stored unchanged in its `unsigned int` field |
| `Wave.Field32` | wave.c:41-44 | The four-byte OR expression is a value in `[0, 2^32)`, so it fits its `unsigned int` field without wrapping |
| `Wave.Field16Value` | wave.c:58-60 | A 2-byte header field is `b0 + 256 * b1` |
| `Wave.Field32Value` | wave.c:38-44 | A 4-byte header field is `b0 + 256 * b1 + 65536 * b2 + 16777216 * b3` |
| `Wave.Field32Encode` | wave.c:94-97 | Decoding the little-endian bytes of any unsigned 32-bit value gives the value back |
| `Wave.Field32Decode` | wave.c:94-97 | Re-encoding a decoded 4-byte field gives the same 4 bytes back |
| `Wave.ParseHeader` | wave.c:36-97 | The header fields are produced exactly when at least 44 bytes are there; the four markers are accepted unchecked |
| `Wave.ParseHeaderFields` | wave.c:36-97 | Each field is the little-endian value at its fixed offset, in header order; markers are raw bytes `0..4`, `8..12`, `12..16`, `36..40` |
| `Wave.NumSamples` | wave.c:99 | `num_samples` exists exactly when the 32-bit product `channels * bits_per_sample` is non-zero, and it fits in 32 bits |
| `Wave.NumSamplesValue` | wave.c:99 | For a non-zero divisor `d` and `8 <= data_size` with `8 * (data_size - 8)` below 2^32, `num_samples` is `q - 8` for the quotient `q = 8 * (data_size - 8) / d` when `q >= 8`, and wraps to `2^32 - (8 - q)` otherwise |
| `Wave.NumSamplesStereo16` | wave.c:99 | For 16-bit stereo data of `f` whole frames, `num_samples` is `f - 10`: both `- 8`s cost frames |
| `Wave.NumSamplesEmptyData` | wave.c:99 | With `data_size = 0` (16-bit stereo) the unsigned subtraction wraps and `num_samples` is `0x7FFFFF6` |
| `Wave.OpenWave` | wave.c:18-101 | Opening succeeds exactly when the header is complete and `num_samples` is defined |
| `Wave.WaveFile.constructor` | wave.c:30 | `fopen`: the file's bytes, with the read cursor at the start |
| `Wave.WaveFile.Fread` | wave.c:163-164 | `fread(buf, n, 1, f) == 1` exactly when `n > 0` bytes remain; a short read still consumes the rest |
| `Wave.Open` | wave.c:18-101 | The thirteen sequential reads give `OpenWave` of the file's bytes, and the cursor ends after the header |
| `Wave.ReadTag` | wave.c:36 | A 4-byte marker read at its offset returns the raw bytes there |
| `Wave.ReadU32` | wave.c:38-44 | A 4-byte field read at its offset is decoded from the bytes there |
| `Wave.ReadU16` | wave.c:58-60 | A 2-byte field read at its offset is decoded from the bytes there |
| `Wave.HighLimit` | wave.c:142-155 | `high_limit` is non-zero exactly for 8, 16 and 32 bits |
| `Wave.HighLimitFullScale` | wave.c:142-155 | For a supported depth, `high_limit` is `2^(bits-1) - 1` (127, 32767, 2147483647) |
| `Wave.Scale` | wave.c:187 | A sample times `high_limit` is the channel value; a zero limit gives an infinity or NaN by sign |
| `Wave.Channel8` | wave.c:182-183 | The 8-bit expression `(c & 0x00ff) - 128` lies in `[-128, 127]` |
| `Wave.Channel16` | wave.c:178-179 | The 16-bit expression stored into `int` lies in `[-32768, 32767]` |
| `Wave.Channel32` | wave.c:172-176 | The 32-bit expression stored into `int` lies in `[-2^31, 2^31 - 1]` |
| `Wave.Channel8Value` | wave.c:181-184 | An 8-bit value is `byte - 128`, in `[-128, 127]`, so byte 128 decodes to 0 |
| `Wave.Channel16Value` | wave.c:178-179 | A 16-bit value is `b0 + 256 * (signed b1)`, in `[-32768, 32767]` |
| `Wave.Channel32Value` | wave.c:172-177 | A 32-bit value is signed little-endian two's complement, in `[-2^31, 2^31 - 1]` |
| `Wave.Channel16Encode` | wave.c:178-179 | Decoding the little-endian bytes of any signed 16-bit value gives the value back |
| `Wave.Channel32Encode` | wave.c:172-177 | Decoding the little-endian bytes of any signed 32-bit value gives the value back |
| `Wave.FrameSize` | wave.c:126 | `size_of_each_sample`, the unsigned product over 8, lies in `[0, 2^29)` |
| `Wave.ChannelWidth` | wave.c:132 | `bytes_in_each_channel` is non-negative, and one field per channel fits in the frame |
| `Wave.SizeIsCorrect` | wave.c:133-135 | `size_is_correct` holds exactly when the frame size is a multiple of the channel count |
| `Wave.DecodeFrame` | wave.c:167-193 | One decoded frame has one sample per channel; `SampleAt` gives each sample |
| `Wave.Frames` | wave.c:157-198 | The frame loop yields at most `n` rows, each of `channels` samples; `FramesCount` and `FramesAt` give how many and which |
| `Wave.DecodeFrames` | wave.c:133-198 | `wave_read` decodes at most `num_samples` rows, each of `channels` samples, and none when the size check fails |
| `Wave.Widths` | wave.c:126-155 | For 8/16/32-bit PCM a frame is `w * channels` bytes and splits evenly, with `w` bytes per channel |
| `Wave.FramesCount` | wave.c:157-198 | The decoder yields `min(n, |data| / frame size)` frames: all requested, or up to the first short read |
| `Wave.FramesAt` | wave.c:157-198 | Frame `k` is decoded from bytes `k * size` to `(k + 1) * size`, so frames come in file order |
| `Wave.SampleAt` | wave.c:167-188 | Sample `c` of frame `k` is the channel field at byte `k * size + c * width`, scaled |
| `Wave.DecodedSample` | wave.c:126-198 | For 8/16/32-bit PCM, sample `c` of frame `k` is the channel value at its interleaved offset divided by the full scale |
| `Wave.ConsumedFrames` | wave.c:157-198 | The cursor moves past exactly the decoded frames, or to end of file when a short read stopped the loop |
| `Wave.Read` | wave.c:119-209 | `wave_read` returns `num_samples` rows; the first `decoded` rows are `DecodeFrames` of the bytes after the cursor (none if the frame size does not split by channel), and the cursor moves by the bytes consumed |
| `Wave.ReadFrames` | wave.c:157-200 | The frame loop writes `Frames` of the remaining bytes into rows `0..decoded)`, leaves the other rows alone, and stops at the first failed read |
| `Wave.ReadRow` | wave.c:163-164 | One frame read succeeds exactly when a whole, non-empty frame remains; the row is that frame decoded |
| `Wave.ReadStop` | wave.c:195-198 | A failed read ends decoding with the rows read so far, and all remaining bytes have been taken |
| `Wave.ReadFrame` | wave.c:167-193 | The channel loop, with `offset += bytes_in_each_channel`, produces `DecodeFrame` of the frame's bytes |
| `Wave.ReadChannel` | wave.c:172-184 | The width chain decodes a 1-, 2- or 4-byte field to its value; any other width leaves `data_in_channel` unchanged |

## Left out

- CircularBuffer.CircularBuffer.constructor: `size` is an unbounded integer. In C,
  `head - tail + size` (circular_buffer.c:35, 50) overflows `int` once `size` exceeds
  2^30, which the model does not capture. The only caller (main.c:583) creates `44100 * 2` slots.
- CircularBuffer.CircularBuffer.Read: in C, a negative `count` near `INT_MIN` makes
  `head - toRead + size` (circular_buffer.c:38) overflow `int`. The model computes it
  exactly.
- The mutexes and condition variables in both buffers are left out. So are blocking,
  backpressure and wake-ups. The waits in `enqueueAudioFrame`/`dequeueAudioFrame`
  become the preconditions "not full" and "not empty".
- The shutdown sentinel and thread join (main.c) are left out. They rely on threads and
  on `malloc(0)` returning NULL.
- `malloc`, `calloc` and `free` are left out, along with ownership. Frames are values.
  So the model does not capture the leak when `enqueueAudioFrame` overwrites a slot whose
  frame was already handed out. Nor does it capture the hazard that `destroyAudioQueue`
  (audio_queue.c:17-19) would double free a frame that a consumer had already freed. The
  only consumer in main.c does not free what it dequeues.
- `destroyCircularBuffer`, `destroyAudioQueue` and `wave_close` only release storage and
  file handles, so they are not modelled.
- `fopen`/`malloc` failures followed by `exit(1)` are not modelled. The file is given as
  its bytes.
- The diagnostic `printf`s in `wave_read` ("value out of range", "Error in size of
  sample", end of file) are not modelled.
- Wave.ParseHeader: a file shorter than 44 bytes gives `ShortHeader`. In C, an `fread`
  at end of file stores nothing, so the reused `buffer4`/`buffer2` (wave.c:20-21) keep
  stale contents, or indeterminate ones after a partly read element. Header fields that
  no read reaches stay uninitialised. For a file of 36-40 bytes, for example, `data_size`
  (wave.c:92-97) is the byterate bytes that wave.c:73 left in `buffer4`. The model does
  not reproduce those stale or indeterminate values.
- Wave.OpenWave: for the same short files it gives `ShortHeader`, while C goes on to
  compute `num_samples` (wave.c:99) from stale or indeterminate buffer contents.
- Wave.Open: it returns `OpenWave` of the bytes, so a file shorter than 44 bytes gives
  `ShortHeader`, where C carries on with stale or indeterminate buffer contents.
- Wave.Open: a zero `channels * bits_per_sample` is an integer division by zero in C.
  The model returns `DivisionByZero` there.
- Wave.Read: it requires `channels >= 1`, because C divides by `channels`. A successful
  open guarantees this.
- Wave.Read: rows after the last decoded frame are left uninitialised in C. The model
  gives them the empty row.
- Wave.Scale: `float` rounding is not modelled. Samples are exact reals, and nothing
  bounds them to `[-1, 1]` (for example, -32768/32767 < -1).
- `wave_init` and `wave_resample` are declared in wave.h but not implemented, so they
  are not modelled. main.c and test.c are UI, device I/O and calls into the external
  beat tracker, so they are not modelled either.
