# A Dafny model of the device's camera, audio and telephony code

This project models the parts of a phone's hardware support code that keep state by
hand: the writer and the reader of the camera's JPEG streams, the routing and locking
of the audio device, the bookkeeping of telephony requests, and the string and
parameter conversions between them. It proves, for all inputs, what that code is
meant for, and where the code does not do it, under exactly which condition.

- **Camera streams** (`hidl/libhwjpeg`). `Tiff`, `IfdWriter`, `Exif` and `AppMarker` write
  Exif directories and application segments into memory; `JpegEncoder` assembles whole
  streams; `JpegStream` says what a finished stream is. `TiffReader` and `ReadBack` are an
  independent reader, and `ExifValues` says what it finds under each tag. `StreamParser` is the decoder's search for
  the frame header, `HeaderParse` what it makes of streams written by ITU-T T.81.
  `DebugUpdate`, `DebugOutcome`, `DebugRuns` and `ExifUpdate` change finished streams in place.
- **Audio** (`audio/audio_hw.c`). `AudioRouting` is the reference counting of sound devices and
  the routing of usecases; `EchoReference` the ownership of the echo reference; `Capture` the
  buffer between the driver and the reader; `LockOrder` all interleavings of the calls'
  mutex operations.
- **Telephony** (`libvndsecril-client`). `RilClient`: tokens, request history and handlers.
- **Conversions** (`libshims`). `Utf8to16` and `Utf16to8` convert strings, `CameraParameters` and
  `CameraSizes` print and read parameters and lists of sizes.

Code that changes state in place is written as classes and methods over arrays; each method is
proved against a function of the old state, and the theorems are about these functions.
Memory is an array of bytes whose indices stand for addresses. Fixed widths, wrap-around and the
host's little-endian order are written out. `dafny verify dfyconfig.toml` verifies everything.

## Model

| member | source | states |
|---|---|---|
| IfdWriter.CIFDWriter.constructor | hidl/libhwjpeg/IFDWriter.h:111-126 | opening a directory of n entries stores the count and puts the value cursor behind the entries |
| IfdWriter.CIFDWriter.WriteASCII | hidl/libhwjpeg/IFDWriter.h:184-200 | memory and both cursors become those of the directory with one more text entry, inline up to four bytes, always ended by a zero |
| IfdWriter.CIFDWriter.WriteCString | hidl/libhwjpeg/IFDWriter.h:202-223 | the same for a text cut or padded with zeros to a fixed length, whatever the string's length |
| IfdWriter.CIFDWriter.WriteRational | hidl/libhwjpeg/IFDWriter.h:225-255 | the same for any number of rationals or signed rationals, always behind the directory; without values the entry holds the offset where they would be |
| IfdWriter.CIFDWriter.WriteUndef | hidl/libhwjpeg/IFDWriter.h:257-270 | the same for undefined bytes |
| IfdWriter.CIFDWriter.EndSubIFD | hidl/libhwjpeg/IFDWriter.h:272-288 | a directory written where the pointer leads makes one entry of the outer directory |
| IfdWriter.CIFDWriter.Finish | hidl/libhwjpeg/IFDWriter.h:290-299 | the directory ends with the chain pointer; `left` is the number of entries announced and not written |
| Tiff.PutIfdLaid | hidl/libhwjpeg/IFDWriter.h:77-303 | writing any tree of fields lays out exactly this tree: no store of a later entry, value or directory damages an earlier one |
| TiffReader.ReadIfdLaid | hidl/libhwjpeg/IFDWriter.h:77-303 | an independent reader that follows the offsets finds exactly the fields laid out, in stretches that tile the directory's bytes |
| TiffReader.TilesDisjoint | hidl/libhwjpeg/IFDWriter.h:77-303 | stretches that tile do not overlap: no two entries or values share a byte |
| AppMarker.WriteExifIfd | hidl/libhwjpeg/AppMarkerWriter.cpp:366-420 | the announced number of entries is the number written, the tag counter ends at zero, and the directory's size is the counted one |
| AppMarker.WriteGpsIfd | hidl/libhwjpeg/AppMarkerWriter.cpp:422-453 | the same for the GPS directory |
| AppMarker.CAppMarkerWriter.PrepareAppWriter | hidl/libhwjpeg/AppMarkerWriter.cpp:76-278 | the counts taken in advance are those of the directories that will be written, and the size in advance is theirs; a small thumbnail or a refused debug record leaves the previous debug record |
| AppMarker.AcceptedExactly | hidl/libhwjpeg/AppMarkerWriter.cpp:237-260 | a debug record is accepted if and only if it has at most six segments, APP4 to APP9, of 1 to 65433 bytes |
| AppMarker.CAppMarkerWriter.WriteAPP1 | hidl/libhwjpeg/AppMarkerWriter.cpp:328-484 | APP1 with its length, directories and chain, and the place where the thumbnail's length goes |
| AppMarker.CAppMarkerWriter.UpdateAPP1 | hidl/libhwjpeg/AppMarkerWriter.cpp:328-484 | the update stores header, count, entries and values, but not length, chain and 1st directory |
| AppMarker.CAppMarkerWriter.WriteAPPX | hidl/libhwjpeg/AppMarkerWriter.cpp:305-326 | all debug segments one behind the other, or only their heads |
| AppMarker.CAppMarkerWriter.WriteAPP11 | hidl/libhwjpeg/AppMarkerWriter.cpp:281-303 | what follows APP11 but for its last bytes starts at an aligned address |
| AppMarker.CAppMarkerWriter.Write | hidl/libhwjpeg/AppMarkerWriter.h:117-123 | all segments in their places, and the main stream's start aligned |
| AppMarker.CAppMarkerWriter.CalculateAPPSize | hidl/libhwjpeg/AppMarkerWriter.h:97-113 | the total of the segments, whether the thumbnail's place is reserved or not |
| JpegStream.WrittenSegments | hidl/libhwjpeg/AppMarkerWriter.h:117-123 | what the writer stores is segments a reader can find: each with marker, length and contents, none damaged by the others |
| JpegEncoder.RemoveTrailingDummies | hidl/libhwjpeg/ExynosJpegEncoderForCamera.cpp:199-218 | the cut is behind the last EOI of the bytes given; zero exactly when there is none behind the first byte |
| JpegEncoder.ThumbnailCompressor.CompressThumbnailOnly | hidl/libhwjpeg/ExynosJpegEncoderForCamera.cpp:705-777 | stream, length and what the hardware has left are those of the search over qualities, for any outputs; the search ends |
| JpegEncoder.SearchedExactly | hidl/libhwjpeg/ExynosJpegEncoderForCamera.cpp:705-777 | a stream is found if and only if some attempt, all before it having been too long and its quality at least 20, gives one with an EOI within the limit; it is that one |
| JpegEncoder.ObtainedExactly | hidl/libhwjpeg/ExynosJpegEncoderForCamera.cpp:434-525 | a first thumbnail stream that fits is embedded as it is; one that does not is replaced by what a second search finds; it fails if and only if that search finds nothing |
| JpegEncoder.ObtainedFrom | hidl/libhwjpeg/ExynosJpegEncoderForCamera.cpp:434-525 | a stream that is embedded was given by the hardware |
| JpegEncoder.ExynosJpegEncoderForCamera.ProcessExif | hidl/libhwjpeg/ExynosJpegEncoderForCamera.cpp:228-293 | succeeds if and only if the sizes are those set and the buffer is longer than the segments and the shortest stream, counted with the previous call's APP11; then segments in place with room for a stream, main stream at a multiple of 16 unless the hardware needs no alignment, and then without padding; thumbnail place reserved for large buffers only, previous debug record kept when the new one is refused |
| JpegEncoder.ExynosJpegEncoderForCamera.FinishCompression | hidl/libhwjpeg/ExynosJpegEncoderForCamera.cpp:434-525 | exactly which thumbnail stream is embedded, and when the call fails: the first does not fit and no other is found; otherwise an assembled stream, SOI first, with this thumbnail and the main stream cut behind its last EOI, its length the returned one |
| JpegEncoder.ExynosJpegEncoderForCamera.Encode | hidl/libhwjpeg/ExynosJpegEncoderForCamera.cpp:333-432 | exactly when a call fails and which thumbnail stream it embeds, as a function of record, buffer, and what the hardware gives; every successful call leaves the assembled stream of these, within APP1's and the buffer's size, with the main stream stored at a multiple of 16 where the hardware asks for it, and determines every byte of the buffer |
| JpegEncoder.ExynosJpegEncoderForCamera.EmbedsBySource | hidl/libhwjpeg/ExynosJpegEncoderForCamera.cpp:449-476 | mode by mode which stream is embedded: none when scaling fails, the one compressed back to back, or the one the search finds |
| ReadBack.DirectoriesReadBack | hidl/libhwjpeg/AppMarkerWriter.cpp:328-484 | reading APP1's directories gives the record's fields and nothing else |
| ReadBack.StreamReadBack | hidl/libhwjpeg/ExynosJpegEncoderForCamera.cpp:434-525 | reading an assembled stream from its TIFF header on gives back all fields and the thumbnail stream, and APP1's length leads to the next segment, after any embedding |
| ExifValues.AttributesReadBack | hidl/libhwjpeg/AppMarkerWriter.cpp:328-484 | for every tag of the 0th, Exif, interoperability, GPS and 1st directories: a reader of the finished stream finds there the attribute the tag stands for, in its type, byte order and order of parts; optional tags exactly when there is something; no other tag and none twice; the thumbnail stream where the 1st directory says |
| ExifValues.UpdatedAttributes | hidl/libhwjpeg/AppMarkerWriter.cpp:609-642 | the same after an update in place with a record that fits, with the old attributes in the 1st directory |
| ExifValues.NeverSorted | hidl/libhwjpeg/AppMarkerWriter.cpp:357-453 | of no record are the 0th, Exif and GPS directories in ascending order of tags |
| StreamParser.CJpegStreamParser.Parse | hidl/libhwjpeg/libhwjpeg-exynos.cpp:90-166 | the loop computes the verdict of the recursive parser, over-reads included |
| StreamParser.CJpegStreamParser.ParseFrame | hidl/libhwjpeg/libhwjpeg-exynos.cpp:168-218 | a frame is accepted exactly for acceptable bytes, and the fields are those of the header |
| HeaderParse.HeaderParsed | hidl/libhwjpeg/libhwjpeg-exynos.cpp:90-218 | for every stream written by ITU-T T.81 with SOI, any segments to pass over (DHT, DQT, DRI, COM, APPn and others), a baseline header of three components and anything behind: width, height and both sampling factors are those of the header, or it is rejected when the hardware does not support them |
| HeaderParse.OtherRejected | hidl/libhwjpeg/libhwjpeg-exynos.cpp:113-163 | behind such segments any other frame header, DAC, DNL or EOI is rejected |
| HeaderParse.AssembledHeaderParsed | hidl/libhwjpeg/libhwjpeg-exynos.cpp:90-218 | the same for such a stream assembled behind segments |
| HeaderParse.HalfWidthColour | hidl/libhwjpeg/libhwjpeg-exynos.cpp:209-215 | a 4:2:2 header: horizontal factor 2, vertical 1 |
| StreamParser.OverReadExactly | hidl/libhwjpeg/libhwjpeg-exynos.cpp:101-163 | for every byte string: the parser reads behind the end if and only if there are fewer than two bytes, or what is left behind the complete segments is cut off in one of the listed ways, given two bytes of slack for each segment skipped |
| StreamParser.OverReadWitness | hidl/libhwjpeg/libhwjpeg-exynos.cpp:113-163 | one empty segment and nothing behind it is enough |
| StreamParser.CompleteParses | hidl/libhwjpeg/libhwjpeg-exynos.cpp:90-166 | a stream that is complete up to its frame header is never read behind its end |
| StreamParser.AssembledParses | hidl/libhwjpeg/libhwjpeg-exynos.cpp:90-166 | an assembled stream is parsed as its main stream alone, when that is complete up to its frame header |
| StreamParser.AssembledExactly | hidl/libhwjpeg/libhwjpeg-exynos.cpp:90-166 | for every main stream: a frame found alone is found assembled; and the assembled stream alone is accepted exactly when the main stream ends inside its frame header by no more bytes than the segments hide |
| StreamParser.TruncationHidden | hidl/libhwjpeg/libhwjpeg-exynos.cpp:140-163 | behind any segments: a main stream, complete up to an EOI for the encoder, that is rejected alone and accepted assembled |
| StreamParser.TruncationWitness | hidl/libhwjpeg/libhwjpeg-exynos.cpp:140-163 | such an assembled stream, byte by byte |
| DebugUpdate.UpdateDebugData | hidl/libhwjpeg/AppMarkerWriter.cpp:535-605 | the loop in place computes outcome and memory of the recursive update: accesses behind the stream, and the loop condition's look at one byte behind it, are outcomes of their own |
| DebugUpdate.ReservedThenFilled | hidl/libhwjpeg/AppMarkerWriter.cpp:305-326 | reserving the debug segments and filling them afterwards is writing them |
| DebugUpdate.AssembledUpdated | hidl/libhwjpeg/AppMarkerWriter.cpp:535-605 | on a finished stream with reserved segments, bytes of the same sizes are all stored: the result is the stream assembled with these bytes, and nothing else changes |
| DebugUpdate.UpdatedIsDirect | hidl/libhwjpeg/AppMarkerWriter.cpp:535-605 | it is byte for byte any stream with the same bytes that was written directly and agrees outside the payloads |
| DebugUpdate.UnacceptableIgnored | hidl/libhwjpeg/AppMarkerWriter.cpp:510-533 | with one unacceptable segment success is reported and nothing is stored |
| DebugRuns.ReservedRunUpdated | hidl/libhwjpeg/ExynosJpegEncoderForCamera.cpp:333-432 | whole runs: encoding with reserved segments and then updating gives exactly the memory of encoding with the bytes, whether the segments were moved for the thumbnail stream or not |
| DebugRuns.EncodeBothWays | hidl/libhwjpeg/ExynosJpegEncoderForCamera.cpp:333-432 | the same for two encoders that are called: exactly when both streams come out, and then the updated one equals the direct one byte for byte |
| DebugOutcome.OverflowExactly | hidl/libhwjpeg/AppMarkerWriter.cpp:563-602 | for every memory and record: an access behind the stream with which the loop goes on happens if and only if all complete segments have room, bytes are still to be stored, and the stream breaks off inside a length field or a matching segment |
| DebugOutcome.OverflowWitness | hidl/libhwjpeg/AppMarkerWriter.cpp:563-602 | an accepted record and a stream of 20 bytes with which it happens |
| DebugOutcome.LooksBehindExactly | hidl/libhwjpeg/AppMarkerWriter.cpp:563 | for every memory and record: the loop condition reads the byte behind the stream, and nothing more happens there, if and only if the loop comes to the stream's end or skips beyond it |
| DebugOutcome.LooksBehindWitness | hidl/libhwjpeg/AppMarkerWriter.cpp:563 | a stream of one complete segment with which it does |
| DebugOutcome.UpdatedExactly | hidl/libhwjpeg/AppMarkerWriter.cpp:535-605 | exactly when success is reported, with or without a look behind the stream, and exactly which segments have then been stored |
| DebugOutcome.NothingToFill | hidl/libhwjpeg/AppMarkerWriter.cpp:563-605 | a stream without any segment: success, and nothing stored |
| ExifUpdate.UpdateExif | hidl/libhwjpeg/AppMarkerWriter.cpp:609-642 | exactly when it is refused, when it would write behind the stream, and what it stores otherwise |
| ExifUpdate.UpdatedElsewhere | hidl/libhwjpeg/AppMarkerWriter.cpp:609-642 | the update leaves length, chain and everything behind the 0th directory alone and lays out the new fields |
| ExifUpdate.UpdatedAsFresh | hidl/libhwjpeg/AppMarkerWriter.cpp:328-484 | every byte the update touches is the one a fresh write gives, over whatever memory, but for bytes no write stores |
| ExifUpdate.StreamPatched | hidl/libhwjpeg/AppMarkerWriter.cpp:609-642 | for records of one layout, updating a finished stream gives the finished stream of the new record if and only if both agree on what the 1st directory holds |
| ExifUpdate.BehindUntouched | hidl/libhwjpeg/AppMarkerWriter.cpp:609-642 | with any record whose directory is not longer, all behind the old 0th directory stays |
| ExifUpdate.PatchedReadBack | hidl/libhwjpeg/AppMarkerWriter.cpp:609-642 | with as many entries besides, a reader finds the new 0th directory, the old 1st one, and the thumbnail stream |
| ExifUpdate.LongerOverwrites | hidl/libhwjpeg/AppMarkerWriter.cpp:609-642 | a directory longer by up to four bytes clears the number of entries of the 1st directory, for any finished stream with a thumbnail and any record without GPS data |
| ExifUpdate.OverwriteWitness | hidl/libhwjpeg/AppMarkerWriter.cpp:609-642 | such a stream and such a record: one more letter in the maker's name |
| ExifUpdate.OutOfBoundsWitness | hidl/libhwjpeg/AppMarkerWriter.cpp:609-642 | a stream that passes the checks and is too short for any record |
| AudioRouting.AudioDevice.EnableSndDevice | audio/audio_hw.c:847-900 | one more use of each part of the device |
| AudioRouting.AudioDevice.DisableSndDevice | audio/audio_hw.c:903-951 | one use less of each part; a part without uses is a fault |
| AudioRouting.AudioDevice.CheckAndRouteUsecases | audio/audio_hw.c:953-1012 | exactly the other usecases of the same type on another device move over, the counts stay the uses, no fault |
| AudioRouting.AudioDevice.SelectDevices | audio/audio_hw.c:1014-1127 | the list becomes the one selected, the invariant holds, no count is ever lowered below zero; fails exactly for an unknown usecase; what is selected is stated by the five rows that follow |
| AudioRouting.SelectedPlayback | audio/audio_hw.c:1045-1072 | playback ends on the call's output device, and without one on the device picked for its stream; all playback follows a change |
| AudioRouting.SelectedCall | audio/audio_hw.c:1055-1059 | the call ends on the devices picked for its stream; playback and capture follow |
| AudioRouting.SelectedCapture | audio/audio_hw.c:1045-1082 | capture ends on the call's input device, and without one on the device picked for the primary output's devices exactly for an active voice communication, for none otherwise |
| AudioRouting.InputTakenAlong | audio/audio_hw.c:1063-1071 | a playback stream of the primary output takes a voice communication input along |
| AudioRouting.StartedOn | audio/audio_hw.c:2301-2340 | a stream that starts ends up on these devices |
| AudioRouting.CallStartedOn | audio/audio_hw.c:2417-2459 | and so does the call, with all others |
| AudioRouting.ReroutedOn | audio/audio_hw.c:2625-2736 | and a playback stream whose devices change |
| AudioRouting.AudioDevice.EnableOutputPath | audio/audio_hw.c:2301-2340 | a start of playback is one step of the state machine and keeps the invariant |
| AudioRouting.AudioDevice.DisableOutputPath | audio/audio_hw.c:2282-2299 | a stop gives back exactly what the usecase held |
| AudioRouting.AudioDevice.StartInputStream | audio/audio_hw.c:2023-2073 | the same for capture |
| AudioRouting.AudioDevice.StopInputStream | audio/audio_hw.c:1990-2021 | the same for capture |
| AudioRouting.AudioDevice.StartVoiceCall | audio/audio_hw.c:2417-2459 | the start of a call moves all usecases to the call's devices |
| AudioRouting.AudioDevice.StopVoiceCall | audio/audio_hw.c:2390-2415 | its end gives its devices back |
| AudioRouting.AudioDevice.SetRouting | audio/audio_hw.c:2625-2736 | other devices for one stream: one step, invariant kept |
| AudioRouting.AudioDevice.NothingCounted | audio/audio_hw.c:847-951 | without usecases every count is zero: no use is leaked |
| AudioRouting.UsesMean | audio/audio_hw.c:847-951 | the counts are the numbers of usecases on each device, those on the combined device counted for speaker and headphones |
| AudioRouting.SelectedGood | audio/audio_hw.c:1014-1127 | selecting keeps all usecases of one type on one device, the call's during a call |
| AudioRouting.RunGood | audio/audio_hw.c:1014-1127 | so does every run of starts, stops and changes, under any policy for picking devices |
| AudioRouting.PlaybackTogether | audio/audio_hw.c:953-1012 | any two playback usecases with a device share it |
| EchoReference.AudioDevice.PutEchoReference | audio/audio_hw.c:1314-1339 | one step; safe after it exactly when the counter has not come round or nothing is let go |
| EchoReference.AudioDevice.GetEchoReference | audio/audio_hw.c:1341-1368 | the same for getting a reference |
| EchoReference.AudioDevice.SyncEchoReference | audio/audio_hw.c:2926-2942 | the running stream takes over the device's reference and releases what only it held |
| EchoReference.AudioDevice.DoOutStandby | audio/audio_hw.c:2562-2592 | the same for standby; safe after it under the same condition |
| EchoReference.AudioDevice.StartOutputStream | audio/audio_hw.c:2342-2387 | a start shares the device's reference |
| EchoReference.EventGives | audio/audio_hw.c:1314-1368 | who has which reference after each event: a new one for a running stream only, the device's for the stream that writes or starts |
| EchoReference.StepSafeExactly | audio/audio_hw.c:1314-1368 | from a safe state an event is safe if and only if the generation counter has not come round, or it lets go of nothing |
| EchoReference.RunSafe | audio/audio_hw.c:1314-1368 | in such runs every reference is released once, and exactly when nobody holds it |
| EchoReference.RunSafeExactly | audio/audio_hw.c:1314-1368 | a whole run is safe if and only if this holds at each of its events |
| EchoReference.CounterComesRound | audio/audio_hw.c:1314-1368 | a run in which the counter does come round and a reference is lost |
| Capture.StreamIn.GetNextBuffer | audio/audio_hw.c:1861-1909 | the driver is called exactly when nothing is left, its status is the result; the buffer handed out is the next unread frames, and a failing driver leaves the position alone |
| Capture.StreamIn.ReadFrames | audio/audio_hw.c:1927-1973 | how many frames are copied, how often the driver is called and what stays buffered, as a function of what the driver returns; the frames are those that follow, and it fails exactly when they are not all there |
| Capture.FailsExactly | audio/audio_hw.c:1927-1973 | a read fails if and only if one of the calls of the driver it needs does |
| Capture.FailedRead | audio/audio_hw.c:1927-1973 | a failing read has taken, and lost, exactly what was buffered and every period before the failing call |
| Capture.StreamIn.ReadAll | audio/audio_hw.c:1927-1973 | reads of any sizes, one after the other, give one contiguous stretch of what was captured, and all succeed exactly when each of them is good |
| Capture.StreamIn.ReadOn | audio/audio_hw.c:1927-1973 | reads that go on after failures: what each of them gives |
| Capture.ContiguousExactly | audio/audio_hw.c:1927-1973 | what they give is contiguous if and only if no failing read in front of a good one has taken anything |
| Capture.GapWitness | audio/audio_hw.c:1927-1973 | two reads with which it is not |
| LockOrder.CallTakes | audio/audio_hw.c:2595-3526 | every modelled call, on every branch and in both builds, takes mutexes in the documented order and gives back all but those stated; all are given back by every call but the write of an offloaded stream |
| LockOrder.CallGuarded | audio/audio_hw.h:415-420 | a call asks for a stream's mutex behind its pre-lock, and works on the device with the mutex of one of its streams held, for an input stream with lock_inputs too |
| LockOrder.CallLocks | audio/audio_hw.c:2595-3526 | exactly the calls that stop, start or change something take the device's mutex, and each call takes those of its streams |
| LockOrder.NoCyclicWait | audio/audio_hw.h:415-420 | in no state of any interleaving of any number of threads, whose calls give back all mutexes, do threads wait for each other in a circle |
| LockOrder.NoDeadlock | audio/audio_hw.h:415-420 | in every such state all threads are done or one can go on |
| LockOrder.AllReleased | audio/audio_hw.h:415-420 | a thread that is done holds no mutex |
| LockOrder.KeptBlocks | audio/compress_offload.c:259-296 | every call that keeps a mutex has a run in which another call waits for ever |
| Utf8to16.Strlen8to16 | libshims/libcutils/strdup8to16.cpp:69-100 | the loop counts what the recursive length says |
| Utf8to16.GetUtf32FromUtf8 | libshims/libcutils/strdup8to16.cpp:113-141 | one character or one replacement is taken, and never a byte behind the terminator |
| Utf8to16.Strcpy8to16 | libshims/libcutils/strdup8to16.cpp:152-178 | exactly the decoded units are stored, in front of an untouched rest |
| Utf8to16.SpellingDecoded | libshims/libcutils/strdup8to16.cpp:113-178 | bytes that spell a code point by RFC 3629 section 3 decode to it: one unit, or a high and a low surrogate that make it up; U+FFFD behind the last one |
| Utf8to16.MalformedDecoded | libshims/libcutils/strdup8to16.cpp:113-178 | a tail byte alone, or a lead with too few tails, decodes to U+FFFD, and the next character starts behind it |
| Utf8to16.SpelledOrMalformed | libshims/libcutils/strdup8to16.cpp:113-141 | every string starts with the one or the other |
| Utf8to16.DecodedLength | libshims/libcutils/strdup8to16.cpp:69-178 | for every string the units written are at most those counted, and as many if and only if all four-byte sequences are in order |
| Utf8to16.Strdup8to16 | libshims/libcutils/strdup8to16.cpp:44-68 | the buffer suffices; null on overflow; exactly when a failed allocation is written through |
| Utf16to8.Strnlen16to8 | libshims/libcutils/strdup16to8.cpp:29-94 | the exact size, saturated at SIZE_MAX - 1 on every overflow of size_t |
| Utf16to8.Strncpy16to8 | libshims/libcutils/strdup16to8.cpp:109-138 | the encoding and a terminator, nothing behind it |
| Utf16to8.UnitSpelled | libshims/libcutils/strdup16to8.cpp:109-138 | each unit is spelled by RFC 3629 in the fewest bytes, zero in two |
| Utf16to8.Strndup16to8 | libshims/libcutils/strdup16to8.cpp:146-168 | a buffer of exactly the encoding and its terminator; null exactly on overflow or a failed allocation |
| Utf16to8.RoundTrip | libshims/libcutils/strdup16to8.cpp:109-138 | decoding the encoding gives every sequence of units back, zeros and lone surrogates included |
| Utf16to8.ThereAndBack | libshims/libcutils/strdup8to16.cpp:44-68 | through both functions: the same units, in a buffer of exactly their number |
| RilClient.RilClientPrv.AllocateToken | libvndsecril-client/secril-client.cpp:1761-1778 | the lowest free bit, or none when all are taken |
| RilClient.RilClientPrv.RecordReqHistory | libvndsecril-client/secril-client.cpp:1797-1815 | the first free slot takes the request; refused exactly when there is none |
| RilClient.RilClientPrv.ClearReqHistory | libvndsecril-client/secril-client.cpp:1817-1827 | the first slot with the token is freed |
| RilClient.RilClientPrv.FindReqHandler | libvndsecril-client/secril-client.cpp:1843-1865 | the handler registered for the token's request, and that request |
| RilClient.RilClientPrv.RegisterRequestCompleteHandler | libvndsecril-client/secril-client.cpp:283-328 | the two loops do one update of the handler table and keep the client's invariant |
| RilClient.RegisteredMap | libvndsecril-client/secril-client.cpp:283-328 | the table is a map of bounded size: other requests keep their handlers, refused exactly when full and new |
| RilClient.RilClientPrv.SendOemRequestHookRaw | libvndsecril-client/secril-client.cpp:1298-1386 | the result as if-and-only-ifs over connection, tokens and transmission; pool and history change exactly for a request that was sent and has a handler; all other outcomes leave no trace |
| RilClient.RilClientPrv.GetMute | libvndsecril-client/secril-client.cpp:938-971 | result, connection, handlers, pool and history, on every path; a failed request leaves no handler, and the client-wide removal flag set |
| RilClient.RilClientPrv.ProcessSolicited | libvndsecril-client/secril-client.cpp:1643-1719 | what is called, which request's handler is removed, and what is freed, for any token; the invariant holds after it exactly for tokens of one bit and tokens not issued |
| RilClient.RecordNeverFails | libvndsecril-client/secril-client.cpp:1797-1815 | while a token is left a slot is free |
| RilClient.AnsweredExactly | libvndsecril-client/secril-client.cpp:1786-1794 | pool and history stay consistent if and only if the token is a single bit or not issued |
| RilClient.AnsweredFreesOne | libvndsecril-client/secril-client.cpp:1643-1719 | an issued token frees one slot and one bit |
| RilClient.AnsweredCalls | libvndsecril-client/secril-client.cpp:1843-1865 | the handler called for an issued token is the one registered for the request it was issued for |
| RilClient.RecordedThenFreed | libvndsecril-client/secril-client.cpp:1298-1386 | recording a request and giving it up is the identity |
| CameraParameters.Parameters.Flatten | libshims/libcamera_metadata_helper/CameraParameters.cpp:187-205 | the text that reads back as the map |
| CameraParameters.Parameters.Unflatten | libshims/libcamera_metadata_helper/CameraParameters.cpp:207-238 | the loop reads what the recursive reader reads, from any text; the result can be printed |
| CameraParameters.Parameters.Set | libshims/libcamera_metadata_helper/CameraParameters.cpp:240-254 | separators are refused, so every map that was set can be printed |
| CameraParameters.RoundTrip | libshims/libcamera_metadata_helper/CameraParameters.cpp:187-238 | reading a printed map gives it back |
| CameraParameters.SameText | libshims/libcamera_metadata_helper/CameraParameters.cpp:187-238 | two maps are equal if and only if their texts are |
| CameraParameters.TextOfMap | libshims/libcamera_metadata_helper/CameraParameters.cpp:187-205 | keys in order, with "=" and ";" |
| CameraParameters.PreviewSizeKept | libshims/libcamera_metadata_helper/CameraParameters.cpp:187-362 | a size that was set is the size got, also through the text |
| CameraSizes.ParseSizesList | libshims/libcamera_metadata_helper/CameraParameters.cpp:322-347 | the loop computes the recursive list reader, for any text |
| CameraSizes.SizesRead | libshims/libcamera_metadata_helper/CameraParameters.cpp:299-347 | every printed list of sizes, negative and extreme numbers included, is read back |
| CameraSizes.SizesBeforeGarbage | libshims/libcamera_metadata_helper/CameraParameters.cpp:322-347 | of a list that goes on with something else, the part in front is kept |
| CameraSizes.PrintedRead | libshims/libcamera_metadata_helper/CameraParameters.cpp:299-320 | every 32-bit number printed is read back by strtol, up to the first other character |
| CameraSizes.TextOfSizes | libshims/libcamera_metadata_helper/CameraParameters.cpp:299-354 | width, "x", height, and commas between sizes |
| CameraSizes.DecimalDigits | libshims/libcamera_metadata_helper/CameraParameters.cpp:349-354 | every digit of a printed number is that of its power of ten |

## Findings

Where the code does not do what it is meant for; each has a member above that states it exactly.

- The stream parser counts the bytes left without the markers, so it believes in two bytes more for every
  segment it skips, and reads behind the end of short streams; its error message reads two bytes of any stream
  (`hidl/libhwjpeg/libhwjpeg-exynos.cpp:101-103` and `113-163`, `StreamParser.OverReadExactly`). For the same
  reason a frame header that is cut off is rejected alone and accepted behind segments
  (`StreamParser.AssembledExactly`, `StreamParser.TruncationWitness`).
- `UpdateDebugData` checks the room inside a segment but not inside the stream: it can write and read behind
  the end (`hidl/libhwjpeg/AppMarkerWriter.cpp:563-602`, `DebugOutcome.OverflowExactly`). Its loop condition reads
  a byte before it looks at the bytes left, so a stream whose segments are all complete up to its last byte is
  read one byte too far (`hidl/libhwjpeg/AppMarkerWriter.cpp:563`, `DebugOutcome.LooksBehindExactly`). It also
  reports success when it has stored only some payloads, or none (`hidl/libhwjpeg/AppMarkerWriter.cpp:510-605`,
  `DebugOutcome.UpdatedExactly`, `DebugUpdate.UnacceptableIgnored`).
- `UpdateExif` compares the stream with the old APP1's length only (`hidl/libhwjpeg/AppMarkerWriter.cpp:609-642`):
  a new record whose directory is longer is written over what follows, which can cost the 1st directory its entries
  (`ExifUpdate.LongerOverwrites`), or behind the stream (`ExifUpdate.UpdateExif`, `ExifUpdate.OutOfBoundsWitness`);
  one that is not longer does no such damage (`ExifUpdate.BehindUntouched`). The 1st directory keeps the old record's
  size, compression and orientation (`ExifUpdate.StreamPatched`).
- A debug record that is refused leaves the previous call's record in force: the stream contains segments
  the caller did not ask for (`hidl/libhwjpeg/AppMarkerWriter.cpp:237-278`,
  `AppMarker.CAppMarkerWriter.PrepareAppWriter`, `JpegEncoder.ExynosJpegEncoderForCamera.Encode`).
- `CIFDWriter::Finish` asserts that the tag counter is not zero; it is zero at every call
  (`hidl/libhwjpeg/IFDWriter.h:290-291`, `AppMarker.WriteExifIfd`, `AppMarker.WriteGpsIfd` and their like, `left == 0`).
- TIFF 6.0 section 2 wants the entries of a directory in ascending order of their tags; those of the 0th, Exif and GPS
  directories never are (`hidl/libhwjpeg/AppMarkerWriter.cpp:357-453`, `ExifValues.NeverSorted`).
- The size of APP11 is not initialised (`hidl/libhwjpeg/AppMarkerWriter.h:51`), and the encoder's check of the
  buffer counts the one the previous call has left (`hidl/libhwjpeg/ExynosJpegEncoderForCamera.cpp:265`,
  `JpegEncoder.ExynosJpegEncoderForCamera.ProcessExif`).
- `FinishCompression` checks the room before it moves the main stream; the check never fails
  (`hidl/libhwjpeg/ExynosJpegEncoderForCamera.cpp:482-488`). A main stream without EOI gives a stream that ends with
  its segments, and its length as success (`hidl/libhwjpeg/ExynosJpegEncoderForCamera.cpp:199-218`).
- The echo reference's generation is 32 bits wide: when it comes round to the running stream's generation, a reference
  can be lost (`audio/audio_hw.c:1314-1368`, `EchoReference.CounterComesRound`).
- A read that fails after some periods loses the frames already copied (`audio/audio_hw.c:1927-1973`,
  `Capture.FailedRead`), and the next good read leaves a gap (`Capture.ContiguousExactly`, `Capture.GapWitness`).
- The write of an offloaded stream returns early (`audio/audio_hw.c:2922-2924`): when its start is to force an input
  stream into standby, the input is not forced and `lock_inputs` stays locked; when a flushed stream's output path
  cannot be enabled, the stream's own mutex stays locked (`audio/compress_offload.c:268-276`). Another call then waits
  for ever (`LockOrder.CallTakes`, `LockOrder.KeptBlocks`). Calls that give all back cannot block each other
  (`LockOrder.NoDeadlock`).
- `strdup8to16` writes through a failed allocation (`libshims/libcutils/strdup8to16.cpp:57-59`,
  `Utf8to16.Strdup8to16`).
- A response whose token has several bits frees tokens of other requests and none of their slots
  (`libvndsecril-client/secril-client.cpp:1786-1794`, `RilClient.AnsweredExactly`). `GetMute` sets a flag of the whole
  client (`libvndsecril-client/secril-client.cpp:955`), so the next response that finds a handler loses it, whichever
  request it answers (`libvndsecril-client/secril-client.cpp:1700-1703`, `RilClient.RilClientPrv.ProcessSolicited`).

## Left out

- JpegEncoder.ExynosJpegEncoderForCamera.Encode: only records whose APP1 fits into a segment and whose thumbnail is at least 16 by 16; with a smaller one the source goes on after the writer has given up, with an APP1 length of zero.
- JpegEncoder.ExynosJpegEncoderForCamera.ProcessExif: the same restriction.
- IfdWriter.CIFDWriter.WriteLong: for one value, as in all its calls.
- AudioRouting.AudioDevice.SelectDevices: when the voice call is the first in the list the source reads the source field of a playback stream as if it were a capture stream; the model takes the answer to be no. It matters only when the call itself has no device.
- AudioRouting.AudioDevice.EnableOutputPath: compress-offload, the hardware's mixer paths, the amplifier and the effects are not modelled, and each usecase id is active once.
- Capture.StreamIn.ReadFrames: the driver's PCM list is one device, and the resampler is not modelled.
- LockOrder.CallTakes: one step per mutex operation; data races are not modelled, nor are the compress-offload thread and its condition variables.
- RilClient.RilClientPrv.ProcessSolicited: parcels, sockets and wake locks are not modelled, nor handlers that call the client again. RegisterUnsolicitedHandler works like RegisterRequestCompleteHandler on a second table.
- RilClient.RilClientPrv.AllocateToken: a 32-bit word is the set of its bits.
- Utf8to16.Strcpy8to16: strcpylen8to16, which differs in its loop condition only; null arguments.
- IFDWriter.h's CancelSubIFD is never called; big-endian hosts are not modelled.
- ThumbnailCompressor and the main compressor are oracles: any streams. V4L2, ION buffers, SetQuality and the thumbnail scaler are left out.
- Threads of the encoder: the thumbnail is compressed in sequence.
- CameraParameters: the other typed getters and setters work like the preview size's.
