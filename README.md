# Desk AI voice device — a Dafny model

The device is an ESP32-S3 desk companion with a round touch screen, a microphone and a
speaker. It works like this:

- A double tap on its idle face starts listening.
- A further tap stops the recording. The device then uploads the 16-bit PCM to a companion
  Flask server and shows a "thinking" face for at least 300 ms.
- The server transcribes the speech, asks a language model for an answer and synthesises it.
- The server answers with one line of compact JSON (`ok`, `user_text`, `reply_text`,
  `sample_rate`), a line feed, and the reply's raw PCM.
- The device splits that body, keeps the two texts (at most 191 bytes each) and the PCM, and
  plays the PCM back while the reply text is shown. When playback ends it returns to idle.
- Besides this flow:
  - a TCA9554 I/O expander on the I2C bus drives a few board lines;
  - three Python scripts turn PNG pictures into LVGL C arrays (RGB565 or ARGB8888).

The model follows the source's own shape:

| module | file | what it holds |
|---|---|---|
| `Bytes` | `cstring.dfy` | bytes, NUL-terminated strings, and the C library routines the firmware relies on: `strlen`, `strstr`, `sscanf("%u")` and `"%lu"` rendering |
| `Backend` | `backend.dfy` | `main/backend.c` |
| `Audio` | `audio.dfy` | `main/audio.c` |
| `DeviceStates` | `device_state.dfy` | the state enum of `main/state.h` |
| `State` | `state.dfy` | `main/state.c`, and the tap dispatch of `screen_clicked_cb` in `main/ui.c` |
| `Ui` | `ui.dfy` | the state-to-screen mapping of `ui_update`, the petting overlay and its timer in `main/ui.c` |
| `Exio` | `exio.dfy` | `main/EXIO/TCA9554PWR.c` |
| `Server` | `server.dfy` | the pure parts of `backend_server.py` |
| `Protocol` | `protocol.dfy` | the upload exchange end to end |
| `ImageText` | `image_text.dfy` | what the three converters share |
| `ConvertImage`, `ConvertSmile`, `ConvertHeart` | `convert_image.dfy`, `convert_smile.dfy`, `convert_heart.dfy` | one per converter script |

**The firmware's mutable modules are classes:**

- `Backend.Exchange` holds:
  - the 256 KiB body buffer as an `array<byte>`;
  - the two 192-byte text slots as arrays;
  - the reply PCM as a byte offset into the body plus a sample count. The offset may be odd.
- `Backend.ResponseLog` is the 256-byte accumulator of `on_client_data`.
- `Audio.Recorder` holds:
  - the capture buffer;
  - the stop flag and the done bit;
  - the recorded count;
  - the argument of the reply-playback task.
- `State.Device` holds the current state, the two text copies, the last tap time, the screen,
  and an effect log.
- `Exio.Tca9554` holds the four device registers as an `array<bv8>`.

**How the loops are proved:** each loop is a method with invariants and is proved against a
pure function. Those functions carry the lemmas:

- `Backend.Receive` for the body read loop;
- `Audio.CaptureFrom` for the capture loop;
- `Audio.PlayFrom` for the playback loops;
- `ImageText.ArrayText` and `ConvertHeart.HeartLayout` for the text the converters write.

**What is an input:**

- Wi-Fi, allocation, task creation and I2C outcomes are boolean parameters.
- The HTTP client's reads, the microphone's reads and the speaker's writes are sequences of
  results, which the loops consume one by one.
- Time is a parameter in microseconds.
- The recogniser, language model and synthesiser results are parameters of the server model.

The copy loop in `main/backend.c` starts one byte past the opening quote, so a reply "hi"
is shown as "i" (see Findings). `Backend.Parse`, and everything built on it, models the code
as written.

## Model

| member | source | states |
|---|---|---|
| Bytes.StrLen | main/backend.c:281 | strlen: the length is the index of the first NUL (or the whole buffer), and every byte before it is non-NUL |
| Bytes.StrLenUnique | main/backend.c:117 | the first NUL is the only index that can be the string's length, so writing a NUL at the split index cuts the text there |
| Bytes.CStrOfPrefix | main/backend.c:117-125 | the C string of a buffer equals the C string of any prefix that reaches a NUL |
| Bytes.Find | main/backend.c:126-127 | strstr: the result is the first index where the needle occurs; None means the needle occurs nowhere |
| Bytes.ScanUnsigned | main/backend.c:139 | sscanf "%u" either fails or yields a value below 2^32 |
| Bytes.ScanSigned | main/backend.c:139 | after white space and an optional sign, "%u" yields the digits' value when it fits and no minus precedes it, 2^32 minus it under a minus sign, and 2^32 - 1 whatever the sign when it does not fit |
| Bytes.ScanWithoutDigits | main/backend.c:139 | with no digit after the white space and the optional sign, "%u" matches nothing and the default rate stays |
| Bytes.Decimal | main/backend.c:290 | "%lu" rendering is non-empty, all digits, and its digits denote the number |
| Bytes.ScanDecimal | main/backend.c:139 | sscanf "%u" reads back exactly the number "%lu" wrote, whatever non-digit follows |
| Backend.TerminatorFrom | main/backend.c:109 | the scan stops at the first LF or CR before the limit, or at the limit when none occurs |
| Backend.PcmStart | main/backend.c:111-116 | the PCM offset never exceeds the body length |
| Backend.NulIndex | main/backend.c:117-124 | the terminating NUL is always written inside the 256 KiB buffer |
| Backend.JsonTextBounds | main/backend.c:105-125 | the JSON text is the C string before the written NUL; with a line break, it ends at the break and the PCM starts after it |
| Backend.Unescape | main/backend.c:146-160 | the copy holds at most the room left and never contains a NUL |
| Backend.UnescapeQuoted | main/backend.c:148-159 | a value whose quotes are written as \" and that ends in an unescaped quote is copied back exactly, cut to the room |
| Backend.UserTextStart | main/backend.c:144-164 | the copy starts at most one byte past the JSON text: at user_text's key plus 14, or at text's key plus 9 when user_text is absent |
| Backend.ReplyTextStart | main/backend.c:181-183 | the copy starts at most one byte past the JSON text, at reply_text's key plus 15 |
| Backend.AnnouncedRate | main/backend.c:134-143 | the announced sample rate is a 32-bit value: 16000 unless "sample_rate": is found and scans |
| Backend.ParseSplitsBody | main/backend.c:105-143 | reply PCM exists iff a line break was found in the window and bytes follow it; the PCM lies after the JSON, and its samples fit in the body; without PCM there are 0 samples at 16000 Hz |
| Backend.Receive | main/backend.c:348-362 | the read loop only appends, and never holds more than 256 KiB |
| Backend.ReceiveWhole | main/backend.c:348-355 | with only non-empty reads, the loop keeps every byte in order and stops once the buffer is full |
| Backend.SixEmptyReadsEndBody | main/backend.c:356-361 | six consecutive empty reads end the body whatever its length |
| Backend.FiveEmptyReadsTolerated | main/backend.c:356-359 | a short non-empty body survives five consecutive empty reads, using up the retries |
| Backend.EmptyReadEndsUnlessShort | main/backend.c:356-361 | an empty read ends the body when nothing has arrived yet or 512 bytes or more have |
| Backend.UploadUrl | main/backend.c:280-286 | the upload URL fits the 128-byte buffer with its NUL |
| Backend.DefaultUploadUrl | main/backend.c:280-286 | the configured base URL becomes http://192.168.4.1:5000/upload |
| Backend.Bounded | main/backend.c:224-229 | the copy is a prefix shorter than the buffer, and is the whole string when it fits |
| Backend.CopyCString | main/backend.c:219-230 | a NULL or 0-size buffer is untouched; otherwise the buffer holds the bounded string with a NUL, and nothing past the NUL changes |
| Backend.CopyJsonString | main/backend.c:145-160 | the slot holds the extracted value as a C string of fewer than 192 bytes |
| Backend.ByteAt | main/backend.c:149 | reading past the buffer sees a NUL |
| Backend.SplitBody | main/backend.c:103-125 | the NUL is written in place at the split and the PCM offset is returned |
| Backend.Exchange.constructor | main/backend.c:87-95 | no body buffer, no PCM, empty texts |
| Backend.Exchange.ParseUploadResponseBody | main/backend.c:98-204 | an empty or missing body changes nothing; otherwise the body is NUL-terminated in place, ok is the substring test, and on success the PCM, rate and texts are taken from Parse; on failure they are untouched |
| Backend.Exchange.SetReplyAudio | main/backend.c:132-143 | PCM and samples are set only when bytes follow the split; the rate is announced only with PCM, otherwise 16000 |
| Backend.Exchange.StoreTexts | main/backend.c:144-201 | each text slot is overwritten with the extracted value when its key is found, and is otherwise untouched |
| Backend.Exchange.ReadBody | main/backend.c:344-362 | the bytes read are Receive's result, and the buffer past them is untouched |
| Backend.Exchange.ClearReply | main/backend.c:292-298 | PCM, rate, texts, ok and body length are all reset |
| Backend.Exchange.SendPcm | main/backend.c:254-380 | no Wi-Fi, no PCM, 0 samples or a failed allocation return false with nothing changed; otherwise the reply is cleared, the request goes to UploadUrl with the rate header and 2·samples bytes, and the result is transport ok and parse ok, with the reply fields from Parse |
| Backend.Exchange.Upload | main/backend.c:280-379 | the request is made iff the client initialises; a transport failure leaves the reply cleared and returns false |
| Backend.Exchange.ReceiveAndParse | main/backend.c:320-379 | a fetch-headers error counts only when the status is not 200; an empty body fails; otherwise ok and the reply fields are Parse's |
| Backend.Exchange.GetReplyAudio | main/backend.c:206-217 | returns the stored PCM offset, count and rate; the PCM lies inside the body |
| Backend.Exchange.GetReplyText | main/backend.c:219-230 | copies at most size−1 bytes of user_text with a NUL; a NULL or 0-size buffer is untouched |
| Backend.Exchange.GetReplyReplyText | main/backend.c:232-243 | the same for reply_text |
| Backend.ResponseLog.constructor | main/backend.c:27-28 | the accumulator starts empty |
| Backend.ResponseLog.OnEvent | main/backend.c:25-53 | connect empties it, data appends what fits in 255 bytes, finish logs the text and empties it, and other events change nothing |
| Audio.CaptureFrom | main/audio.c:97-113 | capture only extends what was recorded and never exceeds 480000 samples |
| Audio.CaptureEndsOnlyAtCapOrHonouredStop | main/audio.c:99 | capture ends on a read error, at the cap, or at a stop once 9600 samples are in |
| Audio.EarlyStopIgnored | main/audio.c:99 | a capture shorter than 9600 samples can only have ended on a read error |
| Audio.FullReadsFillBuffer | main/audio.c:97-113 | full error-free reads with no stop fill the buffer to exactly 480000 samples |
| Audio.PlayFrom | main/audio.c:204-218 | playback writes chunks of at most 2048 bytes inside the buffer, and reaches the end unless a write fails |
| Audio.FullWritesPlayAll | main/audio.c:204-218 | with full writes, playback issues ⌈n/2048⌉ requests, each at the next 2048-byte offset, and writes everything |
| Audio.Recorder.constructor | main/audio.c:33-36 | no buffer, no event group, count 0, stop flag clear |
| Audio.Recorder.StartListening | main/audio.c:339-369 | clears the stop flag first; allocates only when there is no buffer; on success clears the done bit and count before spawning; on failure leaves them untouched |
| Audio.Recorder.StopListening | main/audio.c:325-328 | the stop flag is set |
| Audio.Recorder.RecordTask | main/audio.c:38-145 | the done bit is set on every path; with a buffer and channel, the count and the buffer's prefix are CaptureFrom's samples, the rest is untouched |
| Audio.Recorder.WaitRecordDone | main/audio.c:330-337 | returns whether the done bit was set (false without an event group) and consumes it |
| Audio.Recorder.PlayRecorded | main/audio.c:371-381 | a task is spawned only with an event group |
| Audio.Recorder.PlayTask | main/audio.c:147-224 | plays iff the recording is done, non-empty and the channel opens; the writes are PlayFrom over 2·samples bytes |
| Audio.Recorder.PlayPcm | main/audio.c:310-323 | no task for a missing PCM, 0 samples or 0 rate; otherwise the argument is stored and the task spawned |
| Audio.Recorder.PlayPcmTask | main/audio.c:233-308 | plays iff the argument is valid and the channel opens; the writes are PlayFrom over 2·samples bytes |
| Audio.Recorder.GetRecordedPcm | main/audio.c:383-391 | only the requested outputs are written |
| Audio.WriteChunks | main/audio.c:204-218 | the write loop produces exactly PlayFrom's playback |
| DeviceStates.Code | main/state.h:3-9 | states are numbered 0 to 4 |
| DeviceStates.CodeInjective | main/state.h:3-9 | two states share a number iff they are the same state |
| State.SetStateEffectsSpec | main/state.c:82-109 | a same-state call has no effects; a real transition notifies the screen exactly once and first; LISTENING starts capture; THINKING spawns one upload; SPEAKING plays iff the reply is playable |
| State.DwellBounds | main/state.c:51-56 | there is no wait iff 300 ms have elapsed; otherwise the wait brings the total to between 299 and 300 ms |
| State.CDiv | main/state.c:54 | C integer division truncates toward zero: for a non-negative dividend q·b ≤ a < q·b + b with q ≥ 0, for a negative one q·b - b < a ≤ q·b with q ≤ 0 |
| State.DoubleClickWindow | main/ui.c:260-274 | a tap is a double tap iff 1 ms ≤ now − last < 500 ms |
| State.Device.constructor | main/state.c:12-17 | the device starts IDLE with empty texts |
| State.Device.Init | main/state.c:76-80 | the state becomes IDLE |
| State.Device.SetState | main/state.c:82-109 | the state becomes the target; the log grows by SetStateEffects; the screen is updated only on a real transition |
| State.Device.PlayDone | main/state.c:24-33 | whatever was played, the device goes IDLE, with set_state's effects, and the screen shows IDLE unless it already was IDLE |
| State.Device.ThinkingTask | main/state.c:35-74 | with no recording the device goes IDLE without uploading; otherwise it uploads, waits the dwell, and then either stores both texts (bounded to 191 bytes) and goes SPEAKING, or clears them and goes IDLE; on every exit the screen is redrawn for the new state (with the new reply text) unless the state did not change |
| State.Device.ScreenClicked | main/ui.c:202-300 | in IDLE, a press or release only moves the petting overlay, and a tap records its time and enters LISTENING iff it is a double tap; in LISTENING a tap stops capture, waits at most 2000 ms and enters THINKING; THINKING ignores taps; SPEAKING goes IDLE; RECORDED goes THINKING; each such transition redraws the screen for the new state; other events outside IDLE, and unknown events in IDLE, change nothing |
| State.Device.PettingTimerFired | main/ui.c:179-200 | the screen becomes PettingTimeout of the current state |
| State.Device.GetState | main/state.c:111-114 | returns the current state |
| State.Device.GetLastUserText | main/state.c:116-119 | returns the stored user text: NUL-free and shorter than 192 bytes |
| State.Device.GetLastReplyText | main/state.c:121-124 | returns the stored reply text: NUL-free and shorter than 192 bytes |
| Ui.InitialScreen | main/ui.c:325-367 | after setup the idle face, smile, hand, heart and reply label are hidden, and no timer runs |
| Ui.StateColor | main/ui.c:380-405 | every state colour is a 24-bit RGB value |
| Ui.ReplyLabelText | main/ui.c:447-453 | the label is never empty: the reply text, or "(no reply)" when the text is empty |
| Ui.UiUpdate | main/ui.c:373-458 | without a screen nothing changes; the idle face shows iff IDLE or THINKING; the smile shows iff SPEAKING or LISTENING; outside IDLE the hand, heart and timer are gone; the reply label shows iff SPEAKING |
| Ui.PettingPress | main/ui.c:208-233 | a press shows the hand centred on the touch point, the heart and the smile, and hides the idle face |
| Ui.PettingRelease | main/ui.c:236-257 | a release hides the hand and heart and arms the timer, keeping the face |
| Ui.PettingTimeout | main/ui.c:179-200 | the timer is always gone; the idle face comes back only if the screen is ready and the state is still IDLE |
| Ui.OverlaysInvariant | main/ui.c:179-458 | the hand, heart and petting timer exist only in IDLE, across every screen update |
| Exio.BitOf | main/EXIO/TCA9554PWR.c:47 | a pin's bit is 0 or 1 |
| Exio.BitsDetermineRegister | main/EXIO/TCA9554PWR.c:44-48 | two register values are equal iff all eight pin bits agree |
| Exio.MaskValues | main/EXIO/TCA9554PWR.c:60 | the mask of pin p is 2^(p−1) |
| Exio.BitOfMask | main/EXIO/TCA9554PWR.c:47 | a pin's bit is 1 iff the register's masked value is non-zero |
| Exio.MasksDisjoint | main/EXIO/TCA9554PWR.c:60-62 | each mask has exactly one bit set, and different pins' masks do not overlap |
| Exio.WithBitSpec | main/EXIO/TCA9554PWR.c:55-65 | setting or clearing a pin gives that pin the requested level and leaves the other seven unchanged |
| Exio.ToggleBitSpec | main/EXIO/TCA9554PWR.c:72-77 | toggling flips exactly that pin; toggling twice restores the register |
| Exio.RegisterRead | main/EXIO/TCA9554PWR.c:6-15 | with no device or a failed transfer the read yields 0 |
| Exio.FailedReadClearsOthers | main/EXIO/TCA9554PWR.c:55-65 | after a failed read, the set writes back only the one pin, clearing the other seven |
| Exio.Tca9554.constructor | main/EXIO/TCA9554PWR.c:4 | no device attached; the registers hold the given values |
| Exio.Tca9554.ReadReg | main/EXIO/TCA9554PWR.c:6-15 | returns the register, or 0 without a device or on a failed read |
| Exio.Tca9554.WriteReg | main/EXIO/TCA9554PWR.c:17-25 | the register changes only with a device and a successful write; no other register changes |
| Exio.Tca9554.ModeExio | main/EXIO/TCA9554PWR.c:27-37 | the configuration register becomes what was read, with the pin cleared for 0 and set otherwise |
| Exio.Tca9554.ModeExios | main/EXIO/TCA9554PWR.c:39-42 | the configuration register is written verbatim |
| Exio.Tca9554.ReadExio | main/EXIO/TCA9554PWR.c:44-48 | returns the pin's bit of the input register: 0 or 1 |
| Exio.Tca9554.ReadExios | main/EXIO/TCA9554PWR.c:50-53 | returns the input register as read |
| Exio.Tca9554.SetExio | main/EXIO/TCA9554PWR.c:55-65 | the output register becomes what was read with the pin set to the level |
| Exio.Tca9554.SetExios | main/EXIO/TCA9554PWR.c:67-70 | the output register is written verbatim |
| Exio.Tca9554.SetToggle | main/EXIO/TCA9554PWR.c:72-77 | the output register becomes what was read with the pin flipped |
| Exio.Tca9554.Init | main/EXIO/TCA9554PWR.c:79-83 | configuration becomes the pin state and output becomes 0, each when written; input and polarity are untouched |
| Exio.Tca9554.ExioInit | main/EXIO/TCA9554PWR.c:85-107 | a NULL bus gives INVALID_ARG and a failed add returns its error, both with nothing changed; otherwise the device is attached and configuration and output are zeroed |
| Server.LittleEndian | backend_server.py:30 | struct "<I"/"<H" packing has exactly n bytes |
| Server.LittleEndianRoundTrip | backend_server.py:30 | little-endian packing is undone by reading the bytes back |
| Server.U32RoundTrip | backend_server.py:30 | a packed u32 reads back as the value |
| Server.U16RoundTrip | backend_server.py:32 | a packed u16 reads back as the value |
| Server.WavHeader | backend_server.py:24-37 | there is a header iff every field fits its struct width, and it is 44 bytes long |
| Server.RiffHeaderLayout | backend_server.py:29-31 | "RIFF", the RIFF size, "WAVE" |
| Server.FmtChunkLayout | backend_server.py:32-33 | "fmt ", 16, PCM tag 1, channels, rate, byte rate, block align, 16 bits |
| Server.DataHeaderLayout | backend_server.py:34-35 | "data" and the data size |
| Server.HeaderFields | backend_server.py:28-36 | each of the 13 header fields reads back at its offset |
| Server.WavHeaderLayout | backend_server.py:24-37 | RIFF size = 36 + data size, byte rate = rate·channels·2, block align = channels·2, data size = samples·channels·2, format tag 1, 16 bits |
| Server.HexValue | backend_server.py:240 | a lower-case hex digit's value is below 16 and renders back as that digit |
| Server.EscapeByte | backend_server.py:240 | an escaped byte contains no control character |
| Server.JsonEscapeNoControl | backend_server.py:240 | json.dumps output of a string holds no control byte, so no LF or CR |
| Server.UnescapeEscapedByte | backend_server.py:240 | decoding an escaped byte gives the byte back before the rest |
| Server.JsonEscapeRoundTrip | backend_server.py:240 | JSON string escaping is undone by unescaping |
| Server.JsonStringNoControl | backend_server.py:240 | a quoted JSON string holds no control byte |
| Server.ReplyJsonNoControl | backend_server.py:234-241 | the compact reply JSON holds no control byte, so its first line feed is the separator |
| Server.FloorDiv | backend_server.py:210 | Python's // rounds toward negative infinity |
| Server.HandleUploadSpec | backend_server.py:199-248 | the format header plays no part; unparsable headers or 0 channels raise; the 400 reply happens iff there are 0 whole samples; a reply body is the JSON, one LF and the PCM, with Content-Length equal to its size; the WAV file is the 44-byte header and the raw bytes |
| Server.FirstLineBreak | backend_server.py:244 | in JSON ++ LF ++ PCM the first LF ends the JSON |
| Server.MonoSampleCount | backend_server.py:210 | with one channel the server counts exactly the device's samples, and the header's data size covers them |
| Server.AsciiLower | backend_server.py:186 | lower-casing keeps the length and maps each character |
| Server.AnyPhraseInSpec | backend_server.py:187 | the any() scan is true iff some listed phrase occurs in the text |
| Server.SttFilterSpec | backend_server.py:154-189 | the filter empties exactly the texts that contain a listed phrase, ignoring case, and is idempotent |
| Protocol.DeviceSplitsFramedBody | main/backend.c:105-133 | a JSON with no LF, CR or NUL, shorter than 4096 bytes, framed as JSON ++ LF ++ PCM, is split into exactly that JSON and that PCM with |pcm|/2 samples |
| Protocol.ServerReplyParses | backend_server.py:234-246 | the server's reply, received whole and shorter than the window, parses as a success carrying the PCM after the JSON |
| Protocol.ControlFreeHasNoBreak | main/backend.c:109 | JSON without control bytes has no byte the splitter or strlen stops at |
| Protocol.OkJsonParses | main/backend.c:105-133 | a framed JSON that passes the substring test parses as a success with the PCM after it |
| Protocol.ReplyJsonIsOk | main/backend.c:126-127 | every reply the server builds passes the device's substring test |
| Protocol.OkTrueInOpening | main/backend.c:126 | the reply's opening {"ok":true, holds "ok" and "true" |
| Protocol.ReplyKeyInMiddle | main/backend.c:127 | the reply's middle holds "reply_text" |
| Protocol.LongJsonLosesPcm | main/backend.c:105-116 | a JSON of 4096 bytes or more leaves no line break in the window, so the reply PCM is lost |
| Protocol.ReplyKeyLength | main/backend.c:146-183 | the keys are 13, 8 and 14 bytes long, and each copy starts one byte further |
| Protocol.IntendedReplyText | main/backend.c:181-201 | the corrected copy exists iff the key is found |
| Protocol.IntendedUserText | main/backend.c:144-165 | the corrected transcript copy exists iff "user_text" or the fallback "text" is found |
| Protocol.ValueCopy | main/backend.c:146-159 | after any key, an escaped value is copied back whole from the byte after the key, and without its first byte from one byte further |
| Protocol.UserTextCopy | main/backend.c:144-160 | for an escaped transcript under "user_text", the corrected copy gives it back whole (up to 191 bytes), while the copy as written loses the first byte |
| Protocol.FallbackTextCopy | main/backend.c:161-165 | the same under the fallback key "text" when "user_text" is absent |
| Protocol.ReplyTextCopy | main/backend.c:181-197 | for an escaped value, the corrected copy gives it back whole (up to 191 bytes), while the copy as written loses the first byte |
| Protocol.ExampleReplyText | main/backend.c:183 | on {"ok":true,"reply_text":"hi",…} the device keeps "i", while the corrected copy keeps "hi" |
| Protocol.ExampleKeyFirstAt11 | main/backend.c:181 | in the example, strstr finds the reply key at offset 11 |
| ImageText.FlattenLength | convert_image.py:20-26 | a width × height grid flattens to width·height pixels |
| ImageText.FlattenAt | convert_image.py:20-26 | pixel (x, y) lands at index y·width + x |
| ImageText.PackedGrid | convert_image.py:21-26 | packing keeps the grid's shape |
| ImageText.PackPixels | convert_image.py:20-26 | the nested loops append the packed pixels row by row |
| ImageText.PackedRowMajor | convert_smile_image.py:23-29 | the pixel list has width·height entries, and entry y·width + x is pixel (x, y) packed |
| ImageText.PackedBounded | convert_image.py:25 | a bound on the packing bounds every list entry |
| ImageText.Argb8888 | convert_smile_image.py:28 | ARGB8888 packing fits 32 bits |
| ImageText.ArgbRoundTrip | convert_smile_image.py:28 | shift-and-mask recovers each channel, and every 32-bit word is some pixel's packing |
| ImageText.Hex | convert_smile_image.py:44 | a fixed-width hex rendering has exactly the requested digits |
| ImageText.HexRoundTrip | convert_smile_image.py:44 | the hex digits read back as the value, in either case |
| ImageText.HexLiteral | convert_image.py:41 | a literal is "0x" followed by the digits |
| ImageText.ChunksSpec | convert_image.py:39-40 | the chunks concatenate back to the list; all but the last hold exactly k values, and the last holds 1 to k |
| ImageText.Tokens | convert_image.py:41 | each value becomes its literal |
| ImageText.ArrayTextIsLinesOfChunks | convert_image.py:39-42 | the emitted text is one indented line per chunk, each ending ",\n" |
| ImageText.EmitArray | convert_image.py:39-42 | the loop writes exactly the lines-of-chunks text |
| ImageText.BytesPerPixel | convert_image.py:29 | every format has a positive pixel size |
| ImageText.DescriptorCoversRows | convert_image.py:29-60 | the data size equals stride × height |
| ConvertImage.Rgb565 | convert_image.py:25 | RGB565 packing fits 16 bits |
| ConvertImage.Rgb565Fields | convert_image.py:25 | bits 15–11, 10–5 and 4–0 hold r>>3, g>>2 and b>>3 |
| ConvertImage.Rgb565SameIff | convert_image.py:25 | two pixels pack equally iff their truncated channels agree |
| ConvertImage.Pixels565 | convert_image.py:20-26 | every packed value fits four hex digits |
| ConvertImage.Convert | convert_image.py:17-60 | width·height values, written 16 per line as 0xXXXX, with stride 2·width and data size 2·count |
| ConvertSmile.PixelsArgb | convert_smile_image.py:23-29 | every packed value fits eight hex digits |
| ConvertSmile.Convert | convert_smile_image.py:20-63 | width·height values, written 8 per line as 0xXXXXXXXX, with stride 4·width and data size 4·count |
| ConvertHeart.CentreOffset | convert_heart_image.py:32 | the offset keeps the thumbnail inside the canvas, with margins that differ by at most one pixel |
| ConvertHeart.Paste | convert_heart_image.py:29-33 | the canvas is target × target |
| ConvertHeart.PasteSpec | convert_heart_image.py:29-33 | every thumbnail pixel lands at its offset position, and every other canvas pixel is transparent |
| ConvertHeart.Token | convert_heart_image.py:55-56 | each literal is 10 characters: 0x and eight lower-case hex digits |
| ConvertHeart.GroupFrom | convert_heart_image.py:58-62 | within a group of eight, the literals are joined by ", " |
| ConvertHeart.RowGroups | convert_heart_image.py:52-62 | a row is its groups of eight joined by ", " plus a new indented line, ending in ", " except on the last row |
| ConvertHeart.RowLoopIsLayout | convert_heart_image.py:51-65 | one pass of the outer loop writes RowLayout |
| ConvertHeart.EmitRow | convert_heart_image.py:52-62 | the inner loop writes exactly the row text |
| ConvertHeart.EmitPixels | convert_heart_image.py:50-65 | the nested loops write exactly the grouped layout, with no separator after the last pixel and no line break after the last row |
| ConvertHeart.Convert | convert_heart_image.py:23-81 | 80·80 pixels, the grouped layout of the pasted canvas, and stride × height equal to the data size |

## Left out

- Logging is not modelled: `ESP_LOGx` and Python `print`. The `record_task` statistics and the playback duration in `audio_play_done_callback` only feed logs.
- Real concurrency is not modelled: FreeRTOS tasks, event-group waiting and `vTaskDelay`. Tasks are methods called in sequence, the done bit is a field, and a wait or delay is an entry in the effect log.
- Hardware set-up is not modelled: I2S channel creation and configuration, and the HTTP client's internals. One boolean stands for all the channel set-up steps, and the client is an oracle of read results.
- `display_init`, the drawing in `ui_init`, and the LVGL, LCD, touch and QSPI drivers are not modelled. The screen is an abstract record, and `ready` stands for the LVGL object NULL checks.
- The Wi-Fi code and the boot task (`main/wifi.c`, `main/desk_ai.c`) are not part of this model. Wi-Fi is a boolean input.
- `backend_send_fake_data` is not modelled. It is one HTTP POST of a fixed body whose response only reaches the log through `on_client_data`, and `on_client_data` is modelled.
- The server's `/chat` endpoint, the Whisper, chat and speech calls, Flask routing, the WAV file write and its uuid/date file name are not modelled. The three service results are parameters.
- The PIL steps of the converters are not modelled: opening, resizing, thumbnailing and mode conversion. The model starts from the pixel grid, and the thumbnail fitting the canvas is a precondition of `ConvertHeart.Convert`.
- The fixed comment lines, the `#include` line and the fixed descriptor lines of the generated C files are not modelled, nor the closing text or the converters' console output. Each `Convert` returns the variable parts: the count, the array body and the descriptor's numbers.
- Backend.ParseUploadResponseBody: `size_t` and `uint32_t` wrap-around is not modelled. No value in the modelled paths comes near it: the body is at most 256 KiB and the sample count is at most 480000.
- Audio.Recorder.RecordTask: the microphone oracle delivers whole 16-bit samples. The source's `bytes_read / 2` floor on an odd byte count, and a driver that returns more than requested, are clamped to the request.
- Audio.PlayFrom: a write that reports 0 bytes with `ESP_OK` would make the source loop forever. In the model every write result is consumed, and an exhausted oracle counts as an error.
- Bytes.ScanUnsigned: only the behaviour of `%u` on the digits that follow the key is modelled. Locale-specific white space is not.
- Audio.CaptureFrom: an exhausted microphone oracle counts as a read error and ends the capture. In the source, a driver that kept returning `ESP_OK` with 0 bytes would make the loop at `main/audio.c:97-113` spin forever; the model cannot express that.
- Backend.ByteAt: the unescape walk in the source can read past the end of the body buffer, which is undefined behaviour in C. The model reads a NUL there.
- Server.JsonUnescape: decodes only the escapes JSON escaping produces: the short escapes and `\u00XX`. Server.AsciiLower folds only ASCII letters, while Python's `lower()` also folds other alphabets.
- Server.HandleUpload: every Python exception is one `ServerError` outcome; Flask's 500 page is not modelled.
- Backend.UploadUrl: its contract states only that the URL fits its buffer. The replacement of a trailing "/chat" is proved only for the configured URL, in Backend.DefaultUploadUrl.
- Exio: pins outside 1..8 are not modelled; the source's shift by `Pin - 1` is undefined or meaningless for them.
- State.Device.SetState: `main/state.c` calls `audio_play_pcm` with a callback, but the function in `main/audio.c` takes three arguments and never calls back. The end of playback is therefore the separate event `State.Device.PlayDone`.

## Findings

| source | as written | input that shows it | evidently intended | confidence | as-written member | corrected member |
|---|---|---|---|---|---|---|
| main/backend.c:146,164,183 | the value copy starts at the key's address plus 14, 9 and 15, but the keys `"user_text":"`, `"text":"` and `"reply_text":"` are 13, 8 and 14 bytes long | `{"ok":true,"reply_text":"hi","sample_rate":16000}` keeps the reply text "i" | start the copy right after the key's opening quote, at plus 13, 8 and 14 | not executed | Protocol.ExampleReplyText | Protocol.IntendedReplyText, Protocol.IntendedUserText |

- Protocol.ReplyTextCopy, Protocol.UserTextCopy and Protocol.FallbackTextCopy prove the intended copy for every escaped value under each of the three keys: it gives back the whole value, up to 191 bytes, where the copy as written drops the first byte.
- The device model (`Backend.Parse` and what uses it) keeps the copy as written, because that is what the firmware puts on the screen.
