# pyhdiff: a verified model of the streaming bridge and the envelope

pyhdiff drives the streaming zstd library through bounded buffers and wraps payloads in a 96-byte
envelope. This project models the code that does so and proves what it promises over whole runs.

- `Script`, `Codec`: the decoder as a deterministic script of micro-steps (read a byte, emit a byte,
  end of frame, fault), and the contracts of the opaque contexts. A context is an arbitrary state
  machine; how much one call does is left open, so every statement holds for every choice the
  library makes, call by call. Safety and termination assume only that a call stays inside its
  buffers. Completeness also assumes progress: a call that can do something does something. For
  streams of several frames it assumes that completing a frame, which needs no buffer, is never left
  to the next call (`Prompt`), an assumption about zstd, which is not part of this model.
  One input may have many codings, and which one an encoder sends may depend on how it was fed. That
  an encoding succeeds also takes an encoder that does not fail when fed what was pledged
  (`Encoding.Infallible`, `Bridge.Reliable`).
- `Buffers`, `Streams`: the heap, `Growable` with junk cells in its tail, and the positional output
  stream. Which allocations are refused, and which writes a sink turns down, are parameters.
- `FrameDecoding`, `HardBound`, `DeferredEnds`, `Windows`: `frame_decompress`. `WindowLimit`: the
  window limits of all three decoders.
- `SingleFrame`: `zstd_apply`. `DecoderPlugin`: the open / decompress_part / close decoder.
- `Termination`: bounds on the number of decoder calls of all decode loops.
- `Encoding`, `EncoderPlugin`, `Options`: the encoder loops and the parameters. `HdiffStreams`:
  `hdiff_apply` around the patch call, and the round trip of the two plugins.
- `Bridge`, `Native`: the C entry points, ownership, and the CPython layer.
- `Envelope`, `Delta`, `EndToEnd`: the header, `encode_delta` and `apply`, and the composition.
- `StoredCodec`: a small tag-based codec that meets all assumptions of the round trips at once
  (`ContractsCanBeMet`) and whose payloads are there (`StoredPayload`); `Codec` gives, for every
  script, decoders that meet the decoder contracts.

Each loop has a specification function with the same branches; the method on buffers and arrays is
proved equal to it, and the properties are proved of the function. Exceptions are results, and the
destructors that unwinding runs are calls.

## Findings

- `bridge.h` (lines 73-75) and the README promise the limit status as soon as the output would exceed
  the bound. The code checks for a zstd error of the probing call first. When a fault follows the
  first excess byte in its frame before another byte is due, a decoder that does all it can per call
  reports the fault instead. `HardBound.ExcessIsReported` shows that for progressing, prompt decoders
  this is the only exception, and `HardBound.MaskedStreamExists` gives a stream and its status.
- `frame_decompress` takes a call that completes a frame without reading or writing for a lack of
  progress when more input follows. `DeferredEnds.ProgressAloneAcceptsOneFrame` shows that with
  decoders that may do so only single frames are safe, and `DeferredEnds.DeferredEndIsRefused` gives a
  stream of two frames that one decoder gets through and the other does not.

## Model

| member | source | states |
|---|---|---|
| `Script.OneFrameUnique` | src/native/bridge.h:64-65 | A payload that is one frame has one content |
| `Script.FramesEnd` | src/native/bridge.cpp:509-522 | The end of a stream of frames is the end of its run: every reachable state leads to it, and a stuck state is it |
| `Script.FramesUnique` | src/native/bridge.h:73-76 | A stream of frames has one content |
| `Script.FramesAreConcatenations` | src/native/bridge.h:73-76 | The streams accepted frame after frame by a run are exactly the nonempty concatenations of single frames, with the contents joined in order (sections 3.1 and 3.1.2 of RFC 8878) |
| `Codec.CallAdvances` | src/native/bridge.cpp:470-475 | One call on any slice with any room moves the run on the whole stream; an error is a fault of the script |
| `Codec.CallIdle` | src/native/bridge.cpp:295-295 | A call without any sign of progress has left the decoder where it was |
| `Codec.RetryingIsIdle` | src/native/bridge.cpp:473-475 | A progressing decoder does something exactly when its script can, and once it did nothing it does nothing however often it is called with the same buffers, so a loop that went on would never end |
| `Buffers.GrowthIsAmortised` | src/native/bridge.cpp:105-133 | Over any run of requests the capacities moved sum to at most 3 times the final capacity, the capacity stays within max(reserve, R + R/2) for the largest request R, and every request is met |
| `Buffers.Heap.Realloc` | src/native/bridge.cpp:127-134 | Growing keeps every old cell, makes the rest junk and replaces the block; a refusal changes nothing |
| `Buffers.Growable.GrowTo` | src/native/bridge.cpp:127-134 | A larger block with the same contents, or bad_alloc and no change |
| `Buffers.Growable.Spare` | src/native/bridge.cpp:105-109 | Room for the minimum with the contents kept; capacity and cost change as one growth step says |
| `Buffers.Growable.Resize` | src/native/bridge.cpp:111-115 | Kept contents stay, and cells claimed within the capacity are the ones that were in the block |
| `Buffers.Growable.Fill` | src/native/bridge.cpp:514-518 | Bytes decoded into the spare cells follow the contents, which do not change |
| `Buffers.Growable.Append` | src/native/bridge.cpp:116-119 | The contents followed by the bytes, or bad_alloc with the contents unchanged |
| `Buffers.Growable.Release` | src/native/bridge.cpp:120-124 | Exactly one block leaves, holding the contents, also when they are empty; only then can it fail, owning nothing |
| `Streams.FileIsWhatWasWritten` | src/native/bridge.cpp:169-192 | After any accepted writes a position is inside the file exactly when a write covered it, and holds what the latest such write put there |
| `Streams.WritesCompose` | src/native/bridge.cpp:234-238 | Consecutive positional writes are one write of the concatenation |
| `Streams.OverwriteIsWriteAt` | src/native/bridge.cpp:183-188 | Claiming an unwritten tail and copying over it leaves the written file, whatever the tail held |
| `Streams.Output.Put` | src/native/bridge.cpp:175-190 | Refused past the limit or past the end, otherwise the file with the bytes written at the position; refused writes leave it as it was |
| `FrameDecoding.LoopIsSound` | src/native/bridge.cpp:500-525 | With any decoder of the script, progressing or not, success means a stream of frames with that content within the bound |
| `FrameDecoding.TurnIsJustified` | src/native/bridge.cpp:500-524 | Every turn of the loop stops with a justified status or leaves no frame boundary at the end of the input and no frame end pending |
| `FrameDecoding.LoopIsJustified` | src/native/bridge.cpp:500-525 | Limit means more content than the bound, invalid a stream that ends inside a frame, a zstd error a malformed frame no later than the probe byte |
| `FrameDecoding.FramesHaveNoFault` | src/native/bridge.cpp:508-511 | A stream of frames is neither truncated nor malformed and exceeds a bound only by its content |
| `FrameDecoding.DecodeIsExact` | src/native/bridge.cpp:480-526 | Within the size limits, success exactly for nonempty streams of complete frames with at most max_output bytes, returning their content in order whatever size is claimed; a longer stream of frames is refused with the limit status |
| `FrameDecoding.OneTurn` | src/native/bridge.cpp:501-523 | One turn on the real buffer leaves the rest of the loop with the same outcome and the size and peak request within the bound |
| `FrameDecoding.Body` | src/native/bridge.cpp:497-525 | The loop on the buffer computes the specified outcome, capacity at most max_output + max_output/2; on failure nothing stays allocated |
| `FrameDecoding.FrameDecompress` | src/native/bridge.cpp:480-526 | The same with the limits, the context and the configured window |
| `HardBound.OfferStaysInside` | src/native/bridge.cpp:514-516 | No call is offered storage past the bound or past the capacity, except the one-byte probe; every call is offered some |
| `HardBound.LoopIsBounded` | src/native/bridge.cpp:497-525 | For every decoder that respects its buffers, capacity stays within max_output + max_output/2 and output within max_output |
| `HardBound.ExcessIsReported` | src/native/bridge.h:73-77 | Too much content is reported as such unless a fault follows the first excess byte in its frame before another byte; a decoder that does all it can per call reports the limit exactly when no such fault does |
| `HardBound.MaskedStreamExists` | src/native/bridge.cpp:501-508 | A concrete stream that exceeds the bound and for which the zstd error is returned instead of the limit |
| `DeferredEnds.ProgressAloneAcceptsOneFrame` | src/native/bridge.cpp:509-523 | Streams that every progressing decoder gets through are exactly those of a single frame within the bound, since a frame end with a call of its own in mid-stream is taken for no progress |
| `DeferredEnds.DeferredEndIsRefused` | src/native/bridge.cpp:509-523 | A concrete stream of two frames that a decoder doing all it can per call gets through and that is refused as invalid with one that gives each frame end a call of its own |
| `Windows.SearchWindow` | src/native/bridge.cpp:488-490 | The least exponent from 10 up that reaches max_output, stopping at 30 |
| `Windows.WindowIsExact` | src/native/bridge.cpp:486-492 | The configured exponent is the least in 23..30 reaching max_output, and its power is max(8 MiB, max_output rounded up to a power of two) |
| `Windows.WindowIsMonotone` | src/native/bridge.cpp:488-490 | A larger bound never narrows the window |
| `WindowLimit.LimitedFrames` | src/native/bridge.cpp:491-492 | A decoder with a window limit accepts exactly the streams of frames, and the single frames, all of whose windows fit it |
| `WindowLimit.DecompressAdmits` | src/native/bridge.cpp:486-492 | With decoders that enforce whatever window log they are configured with, accepted streams are exactly those within the bound whose windows are at most max(8 MiB, the bound rounded up) |
| `WindowLimit.SessionAdmits` | src/native/bridge.cpp:271-272 | With such decoders the diff data is read exactly if it is one frame of the recorded size with windows of at most 8 MiB |
| `WindowLimit.ApplyAdmits` | src/native/bridge.h:64-66 | With such decoders zstd_apply gives exactly the content of one frame with a window of at most 2^30 and nothing after it, behind an admissible header |
| `SingleFrame.LoopIsSound` | src/native/bridge.cpp:464-477 | With any decoder of the script, success means one frame, nothing behind it, exactly the stated size |
| `SingleFrame.DecodeIsExact` | src/native/bridge.cpp:448-478 | Success means sizes within the limits, a complete header of a standard frame with a window of at most 2^30 and no other content size, and one frame of the stated size with nothing behind it; with a progressing decoder every such payload succeeds, however work is split over the windows |
| `SingleFrame.DecodeReturns` | src/native/bridge.h:64-66 | With a progressing decoder a content is returned exactly if the payload is the frame of it behind an admissible header |
| `SingleFrame.HeaderIsChecked` | src/native/bridge.cpp:450-457 | Sizes over the limits are refused with the limit status, an unreadable header with its zstd error, an unfinished or skippable one as invalid, a window above 2^30 with the limit status, another content size as invalid |
| `SingleFrame.MismatchIsRefused` | src/native/bridge.cpp:472-477 | A frame with anything behind it or with another size than stated is refused: with the limit status if it has more content than the destination, as invalid otherwise |
| `SingleFrame.DecodeIsJustified` | src/native/bridge.cpp:459-477 | Behind an admissible header limit means a first frame with more content than the destination, invalid one that is cut short, too small or followed by anything, a zstd error one malformed no later than the probe byte |
| `SingleFrame.FaultIsReported` | src/native/bridge.cpp:448-478 | A payload cut short or malformed inside its first frame, within the stated size, is refused as invalid or with the zstd error of exactly that fault |
| `SingleFrame.Body` | src/native/bridge.cpp:462-477 | The loop on the destination computes that result and on success the destination is fully written with the content |
| `SingleFrame.ZstdApply` | src/native/bridge.cpp:448-478 | The same with the checks and the context, which is freed on every path |
| `DecoderPlugin.RefillConserves` | src/native/bridge.cpp:320-329 | Refilling neither loses, skips nor repeats a byte of the range |
| `DecoderPlugin.CallOn` | src/native/bridge.cpp:287-295 | A call anywhere inside the frame moves one run over the whole range, wherever the refill boundaries fall |
| `DecoderPlugin.PartsOn` | src/native/bridge.cpp:281-299 | Any sequence of parts delivers consecutive output of one run |
| `DecoderPlugin.SessionIsExact` | src/native/bridge.cpp:251-330 | A session of open, any parts and close succeeds exactly when the range is one frame of the stated size and the parts add up to it; they then join to its content |
| `DecoderPlugin.SessionReturns` | src/native/bridge.cpp:251-330 | With parts that add up to the size, a session returns a content exactly when the range is the frame of that content |
| `DecoderPlugin.SessionsAgree` | src/native/bridge.cpp:281-318 | Two sessions with different slicing and different library behaviour deliver the same bytes |
| `DecoderPlugin.SessionReportsFault` | src/native/bridge.cpp:281-318 | A range cut short or malformed inside its frame, within the stated size, fails with the status of exactly that fault, however it is pulled |
| `DecoderPlugin.SessionOnHead` | src/native/bridge.cpp:251-330 | On a range that begins with a complete frame a session delivers its content if that is all of the range, of the stated size, and the parts add up to it, and is invalid otherwise |
| `DecoderPlugin.Decompress.OpenStream` | src/native/bridge.cpp:263-280 | The state after open, or a refusal; the former context is freed |
| `DecoderPlugin.Decompress.RefillBuffer` | src/native/bridge.cpp:320-329 | The buffer step on the object is the one on the value and keeps the amount of unread input |
| `DecoderPlugin.Decompress.DecompressPart` | src/native/bridge.cpp:281-299 | The part on the object is the one on the value; it writes its slice of the destination and nothing else |
| `DecoderPlugin.Decompress.CloseStream` | src/native/bridge.cpp:300-318 | Close on the object is close on the value |
| `Termination.FrameCallsAreBounded` | src/native/bridge.cpp:500-524 | At most one decoder call per byte of input and of bound, and one more, for every decoder within its buffers |
| `Termination.ApplyCallsAreBounded` | src/native/bridge.cpp:464-476 | At most one call per byte of payload and of destination, and one more |
| `Termination.PartCallsAreBounded` | src/native/bridge.cpp:287-296 | At most one call per unread byte and per byte still wanted |
| `Termination.CloseCallsAreBounded` | src/native/bridge.cpp:305-316 | At most one call per unread byte, and one more |
| `Encoding.Advance` | src/native/bridge.cpp:427-444 | Every turn of the encoder loops keeps what was fed equal to the target so far and lowers unread target plus unsent output |
| `Encoding.EncodeIsLossless` | src/native/bridge.cpp:427-445 | Calls are offered consecutive unread parts of the target, the end directive exactly with its end; the parts taken join to the target, and the output is everything emitted, a coding of the target within the limit, for every chunk size |
| `Encoding.EncodeIsConcluded` | src/native/bridge.cpp:436-443 | All calls are answered by the encoder one after the other; the first error ends the run with its own status, and without one the run ends when all is sent, or with the limit status once more than the limit has been sent |
| `Encoding.EncodeIsExact` | src/native/bridge.cpp:440-445 | With an encoder that does not fail, success exactly when all it sends fits the limit, and then with all of that, otherwise the limit status |
| `Encoding.EncodeChunk` | src/native/bridge.cpp:430-442 | The inner loop ends with the chunk taken, or the frame complete, and the buffer holding what was sent |
| `Encoding.Body` | src/native/bridge.cpp:427-445 | Both loops on the buffer compute the specified result; on failure nothing stays allocated |
| `EncoderPlugin.CompressionIsExact` | src/native/bridge.cpp:219-243 | A length is returned only if the whole run of the encoder was written and no write turned down, an error only if the run ends in it, and it is given up only at a write that the sink turned down, with all before it written |
| `EncoderPlugin.CompressionIsWritten` | src/native/bridge.cpp:229-241 | With a sink that takes every write, an encoder that does not fail and room for its bound, the whole frame is written and its length returned |
| `EncoderPlugin.PluginChunk` | src/native/bridge.cpp:229-239 | The inner loop of the plugin keeps the sink equal to what was sent and ends as the run does |
| `EncoderPlugin.Compress` | src/native/bridge.cpp:219-243 | The plugin leaves in the sink what it has taken, from position 0 over what was there, ends as the run does unless memory was refused, and frees its own memory; if nothing is refused and nothing fails, the whole frame is in the sink and its length comes back |
| `HdiffStreams.ApplyIsExact` | src/native/bridge.cpp:347-374 | Success means sizes within the limits, diff information that agrees with the inputs and describes all of the payload, and a patch that succeeds on exactly what the payload carries behind its header: the whole rest, plain or as one frame of the recorded size, pulled in any parts that add up to it; what the patch refuses is invalid |
| `HdiffStreams.HeaderIsChecked` | src/native/bridge.cpp:347-363 | Sizes over the limits are refused with the limit status, a payload without diff information or for other sizes as invalid, step or data sizes over the limits with the limit status, an unknown compression or a range that is not the rest of the payload as invalid |
| `HdiffStreams.MisfitIsReported` | src/native/bridge.cpp:347-374 | A compressed payload that holds a frame of another size, or anything behind a frame, is invalid |
| `HdiffStreams.FaultIsReported` | src/native/bridge.cpp:347-374 | A compressed payload cut short or malformed inside its frame is refused with the status of exactly that fault, however it is pulled |
| `HdiffStreams.PluginsRoundTrip` | src/native/bridge.cpp:201-330 | What the compressor plugin reports as written the decoder plugin reads back, from any place in a payload, in any parts, for any chunk sizes; it is written whenever the encoder does not fail, the sink takes every write and the limit covers the bound |
| `Options.BitLength` | src/native/bridge.cpp:397-398 | The bit length of the target size |
| `Options.Resolve` | src/native/bridge.cpp:394-418 | For every accepted option tuple: an automatic window behind a base is the least from 10 up exceeding the target and never the upper clamp; automatic long-distance matching turns on when the target outgrows the chain log that zstd gives; the hash log is unset only with bucket and rate, otherwise in 6..30, at least the bucket log, and the rate below the adjusted window |
| `Options.ResolvedIsUnique` | src/native/bridge.cpp:394-418 | The options, the sizes and the answers of zstd determine the parameters |
| `Options.AcceptsIsExact` | src/native/bridge.cpp:545-560 | The accepted option tuples: levels 1 to 22, automatic or ranged values, tuning of long-distance matching only where it is turned on, and no bucket larger than its table |
| `Bridge.PayloadIsCoding` | src/native/bridge.cpp:381-446 | A payload is a coding of the target and within the limit |
| `Bridge.PayloadIsExact` | src/native/bridge.cpp:427-446 | With a library that does not fail, the payload is all that the encoder sends if that is within the limit, and otherwise there is the limit status |
| `Bridge.AcceptedWindowsAreAdmitted` | src/native/bridge.cpp:545-564 | Every window that accepted options lead to is within the decoder's limit of 2^30 |
| `Bridge.ApplyInvertsEncode` | src/native/bridge.cpp:381-478 | Applying an encoded payload to its base gives the target, for every base, target and accepted options; with a library that does not fail there is a payload exactly when what it sends is within the payload limit |
| `Bridge.CompressedWindowsAreAdmitted` | src/native/bridge.cpp:486-492 | A frame whose content fits the bound has a window that decompress admits |
| `Bridge.DecompressInvertsCompress` | src/native/bridge.cpp:621-640 | Decompressing a compressed frame gives the data back for every bound that admits it, whatever level and window; with a library that does not fail there is a frame exactly when it is within the frame limit |
| `Bridge.ZstdEncode` | src/native/bridge.cpp:381-446 | Limits, context and parameters around the loops, the parameters being those that zstd gives for the level and the sizes; the context is freed on every path |
| `Bridge.PhdZstdEncode` | src/native/bridge.cpp:605-615 | Success hands over one live block with the payload for the parameters that zstd gives for the level and the sizes, failure a null block of size 0 and nothing left allocated; a failure is due to the options, the sizes, refused memory or the run of the encoder |
| `Bridge.PhdZstdCompress` | src/native/bridge.cpp:621-633 | The same for frames without a base, with the same reasons for failure |
| `Bridge.PhdZstdDecompress` | src/native/bridge.cpp:634-640 | The same for decompression, for every decoder within its buffers |
| `Bridge.PhdZstdApply` | src/native/bridge.cpp:569-584 | Fills the caller's buffer or fails; allocates nothing that outlives the call |
| `Native.View.TailView` | src/pyhdiff/_native.c:32-43 | Accepted exactly for offsets inside the object; the view is everything from the offset on |
| `Native.Finish` | src/pyhdiff/_native.c:47-55 | The block is copied and freed once, also when the bytes object cannot be made |
| `Native.EncodeToBytes` | src/pyhdiff/_native.c:75-92 | The bytes are the payload for the parameters that zstd gives for the level and the sizes, or the failure is due to the options, the sizes, refused memory or the run of the encoder; nothing stays allocated |
| `Native.ApplyToBytes` | src/pyhdiff/_native.c:105-138 | Decodes exactly blob[offset..] into an object of the stated size, or reports why not |
| `Native.EncodeThenApply` | src/pyhdiff/_native.c:75-138 | Encoding and applying from inside an envelope gives the target unless memory runs out, and leaves nothing allocated; with a library that does not fail, accepted options and inputs within the limits, it gives the target if memory lasts and the payload is within its limit, and the limit status otherwise |
| `Envelope.ParsePrint` | src/pyhdiff/__init__.py:72-73 | An integer of its width is printed most significant byte first, and parsing gives it back |
| `Envelope.PrintParse` | src/pyhdiff/__init__.py:72-73 | Bytes are parsed most significant first, and printing gives them back |
| `Envelope.BigEndianIsPrint` | src/pyhdiff/__init__.py:3-3 | There is one way to print an integer in a width most significant byte first, and it is the one in use |
| `Envelope.UnpackPack` | src/pyhdiff/__init__.py:232-244 | Each field of a packed header is at its offset, and unpacking gives all nine back |
| `Envelope.PackUnpack` | src/pyhdiff/__init__.py:284-286 | Each field is unpacked from its offset, and packing gives the first 96 bytes back |
| `Envelope.SealLayout` | src/pyhdiff/__init__.py:3-15 | Every byte of a sealed envelope: magic, version 1, codec id, two zeros, the lengths of base, target and payload in 8 bytes each most significant first, the two hashes, the payload |
| `Envelope.InspectInvertsEnvelope` | src/pyhdiff/__init__.py:232-297 | Inspecting a sealed envelope gives the fields it was made from, with the payload behind byte 96 |
| `Envelope.InspectIsExact` | src/pyhdiff/__init__.py:276-297 | A blob is accepted with a header exactly when each field is at its documented offset and the recorded number of bytes follows |
| `Envelope.InspectFindsDefect` | src/pyhdiff/__init__.py:280-296 | Anything else is refused for the first of size, magic, version, codec, reserved bytes and payload length that is wrong |
| `Delta.ApplyInvertsEncode` | src/pyhdiff/__init__.py:247-319 | For both codecs, apply of an encoded delta gives the target when it is within the caller's limit, and refuses it as too large otherwise |
| `Delta.EncodeIsExact` | src/pyhdiff/__init__.py:247-267 | Inputs over the limit are refused, a failure of the codec is passed on, and otherwise the payload follows a header that names the codec, the lengths and the hashes |
| `Delta.ApplyIsExact` | src/pyhdiff/__init__.py:300-319 | On a well-formed envelope, in this order: another base length is a base mismatch, a target over either limit too large, another base hash a base mismatch, a codec failure is passed on, bytes with another hash than recorded are an integrity failure, and anything else is returned |
| `Delta.ApplyRefusesOthers` | src/pyhdiff/__init__.py:307-308 | What is not a well-formed envelope is refused as such, and nothing else is |
| `Delta.ApplyIsFaithful` | src/pyhdiff/__init__.py:300-319 | Whatever the codec and the payload, a value returned for an envelope of (base0, target0) is target0 or a hash collision with it, on a base that is base0 or a collision with it, decoded from blob[96:] |
| `Delta.DecodesOnlyTheRecordedBase` | src/pyhdiff/__init__.py:309-316 | The codec is consulted only about a base of the recorded length and hash, with blob[96:] and the recorded size; any other base is refused |
| `EndToEnd.BridgeRoundTrips` | src/native/bridge.cpp:605-620 | The bridge functions keep the round trip that the pipeline relies on, and with a library that does not fail refuse nothing but sizes over the limits |
| `EndToEnd.ZstdDeltaRoundTrips` | src/pyhdiff/__init__.py:247-319 | encode_delta then apply gives the target, through the envelope and both loops, for every base, target and accepted profile; with a library that does not fail encode_delta fails exactly for inputs or payloads over the limits |
| `EndToEnd.ZstdDeltasAlwaysApply` | src/pyhdiff/__init__.py:247-319 | With a library that does not fail and whose output bound is within the payload limit, every base and target up to the raw limit encode, and apply gives the target |

## Left out

- The inside of zstd, of HDiffPatch and of SHA-256: contracts over an arbitrary state machine, an arbitrary codec function, and an uninterpreted hash.
- `hdiff_encode`, which is the opaque diff call on the modelled streams and plugin.
- HdiffStreams.ApplyIsExact: takes the patch call as a function of the base and of the diff data and assumes that it opens the range it is given, pulls it in parts and closes it; how the patch writes the destination, and a refusal by the patch itself before all parts are pulled, are not modelled.
- Delta.ApplyInvertsEncode: takes the round trip of the HDiffPatch codec as an assumption; for zstd it is proved, in EndToEnd.
- Buffers.Heap.Realloc: a grown block is always a new one, where realloc may extend in place; nobody keeps the old address.
- The null address checks of `inputs` and of the option structures: inputs are values here.
- EndToEnd.ZstdDeltaRoundTrips: is about runs without allocation failure; Native.EncodeThenApply covers refused allocations.
- `hdiff_options`: single comparisons.
- Setting parameters, pledging the size and referencing the prefix: one configuring function for each context, assumed to succeed.
- The cancellation callback and other entry points that exist only in fault-injection builds.
- Argument parsing, reference counts, the interpreter lock, the mapping of statuses to Python exceptions, and the thin wrappers in raw.py.
- Machine integers: sizes are unbounded here; all sums the loops form stay far below 2^64 under the proved limits, and envelope lengths are bounded by 2^64 where they are packed.
- Build, packaging, benchmarks, golden files, compression ratio and timing.
