# soc-lm32 serial bootloader, monitors and host tools in Dafny

This project models the serial bootloader protocol of the soc-lm32 system
on chip, on both sides of the link, together with the small firmware
utilities around it.

- **Host side** (`tools/uploader/lm32client.py`). The `LM32Serial` link
  class frames the `u` (upload), `d` (download) and `g` (jump) commands
  with big-endian 32-bit words. It also sends and receives in whole blocks
  and probes for the bootloader's prompt.
  - The S-record upload decodes `s3` and `s7` lines.
  - The `lac` command arms the logic analyser core and turns its samples
    into value change dump lines.
  - `Miniterm`, the interactive terminal, has a writer that dispatches
    keys (menu prefix, exit key, mode toggles and cycles, port settings)
    and a reader that shows received bytes in one of four display modes.
- **First-stage bootloader** (`firmware/boot0-serial/main.c`, with the
  UART and hexadecimal printing helpers of `soc-hw.c`):
  - `read_uint32` reads a word.
  - The command loop stores uploads into memory, sends downloads back,
    jumps, and runs the pattern test.
  - Any other byte prints the prompt that the host's probe looks for.
- **SD test firmware** (`firmware/sd-test/main.c` and `spike_hw.c`):
  - `memset`, `memcpy` and `memcmp`.
  - The RAM test `memtest`.
  - The interrupt table and its dispatcher.
  - `readint` and `writeint`, which read and write hexadecimal digits.
  - The `uartmode` monitor loop, whose `u` command takes a hexadecimal
    record with an 8-bit checksum.
- **Memory test firmware** (`firmware/memtest/main.c`): it fills 4 KiB
  with `0x41424142` and dumps it over the UART.

## How the model is built

- Values on the link are byte sequences (`uint8` is `0..255`). Device
  memory is an `array<uint8>` of 2^32 bytes inside the `Soc.Soc` class.
  That class also holds the bytes the UART has received (`rx`, read from
  `pos` on) and the bytes it has sent (`tx`).
- The processor is big-endian, so `*p = w` stores the most significant
  byte of `w` first.
- A C loop is a `method` whose `while` loop keeps the C loop's variables.
  Each such method is proved against a function on values, for example:
  - `Boot0.Dispatch` against `Boot0.Decode` and `Boot0.Execute`;
  - `SpikeHw.WriteInt` against `SpikeHw.HexDigits`.

  The lemmas about those functions state what the source promises.
- 32-bit arithmetic is written out. Examples:
  - `start + size` wraps modulo 2^32 (`Soc.Span`);
  - `val <<= 4` loses its top bits;
  - `size -= 5` wraps below zero.
- The host's `LM32Serial` is a class that holds:
  - the bytes written (`tx`);
  - the bytes the device will send (`rx`);
  - the progress dots printed (`ticks`).
- `Miniterm` is a class with the fields of the Python object. Its writer
  and reader are methods proved against the transition functions
  `Terminal.KeyStep`/`Terminal.WriterRun` and
  `Terminal.Display`/`Terminal.Shown`.
- A blocking read (`uart_getchar`, `serial.read`) requires that the byte
  has already been received. Where a whole run is described, running out
  of input is an explicit outcome (`Blocked`).
- A jump is a terminal outcome that carries the address.
- The end-to-end lemmas in `EndToEnd` join the two sides: the bytes the
  host writes are the bytes the device loop reads, and the reverse.
- The same `uart_putint8`/`uart_puthex8`/`uart_puthex32` code appears in
  two places: `firmware/boot0-serial/soc-hw.c:71-88` and
  `firmware/sd-test/spike_hw.c:170-187`. It is modelled once, in `Soc`.
  The same holds for `uart_putstr` (`soc-hw.c:61-68`,
  `spike_hw.c:129-136`) and for `read_uint32`
  (`firmware/boot0-serial/main.c:10-20`, `firmware/memtest/main.c:9-19`).

## Model

| member | source | states |
|---|---|---|
| Bytes.Be32 | tools/uploader/lm32client.py:340-344 | `put_uint32` writes exactly four bytes; which four is stated by `Bytes.Be32RoundTrip` and `Bytes.Be32Inverse` |
| Bytes.Be32RoundTrip | firmware/boot0-serial/main.c:10-20 | decoding the four bytes big-endian gives the word modulo 2^32 |
| Bytes.Be32Word | firmware/boot0-serial/main.c:10-20 | a word below 2^32 survives encoding and decoding unchanged |
| Bytes.Be32Inverse | firmware/boot0-serial/main.c:10-20 | decoding four bytes and encoding the value again gives the same four bytes |
| Bytes.Be32ValueIsBeValue | firmware/boot0-serial/main.c:14-17 | the four-byte value equals the byte-at-a-time shift-and-add value |
| Bytes.BeValueSnoc | firmware/boot0-serial/main.c:15-16 | one byte more shifts the value up by eight bits and adds the byte |
| Bytes.BeValueBound | firmware/boot0-serial/main.c:14-17 | the value of `n` bytes is below 256^n |
| Soc.Soc.constructor | firmware/boot0-serial/soc-hw.c:49-59 | a board with the given 2^32-byte memory whose UART will receive `incoming`, with nothing read and nothing sent yet |
| Soc.Soc.GetChar | firmware/boot0-serial/soc-hw.c:49-53 | `uart_getchar` returns the next received byte and advances the read position by one |
| Soc.Soc.PutChar | firmware/boot0-serial/soc-hw.c:55-59 | `uart_putchar` appends exactly that byte to what the UART sent |
| Soc.Soc.PutStr | firmware/boot0-serial/soc-hw.c:61-68 | `uart_putstr` sends exactly the characters before the first NUL, in order |
| Soc.Soc.PutText | firmware/sd-test/spike_hw.c:129-136 | `uart_putstr` on a literal without NUL sends the whole literal |
| Soc.Soc.ReadUint32 | firmware/boot0-serial/main.c:10-20 | `read_uint32` consumes exactly four received bytes and returns their big-endian value |
| Soc.Soc.StoreWord | firmware/memtest/main.c:35 | a 32-bit store writes the four big-endian bytes of the word at `p..p+3` and nothing else |
| Soc.ShiftInByte | firmware/memtest/main.c:13-16 | `val <<= 8; val += b` with fewer than four bytes accumulated loses nothing to the 32-bit wrap |
| Soc.SpanMeaning | firmware/boot0-serial/main.c:40 | the loop `p < start + size` in 32 bits moves `size` bytes when `start + size` fits, and none when it wraps |
| Soc.StoreAt | firmware/boot0-serial/main.c:40-42 | after a store of `d` at `a`, address `k` holds `d[k - a]` inside the range and its old byte outside |
| Soc.StoreEach | firmware/boot0-serial/main.c:40-42 | memory agreeing with that description at every address is the stored memory |
| Soc.StoreRegion | firmware/boot0-serial/main.c:40-42 | reading the written range back gives the data written |
| Soc.StoreNothing | firmware/boot0-serial/main.c:40-42 | storing nothing leaves memory unchanged |
| Soc.StoreStore | firmware/boot0-serial/main.c:40-42 | storing `d1` and then `d2` right after it is storing `d1 + d2` |
| Soc.StoreNext | firmware/boot0-serial/main.c:40-42 | one byte more after the written range extends the store by that byte |
| Soc.CStrText | firmware/boot0-serial/soc-hw.c:61-68 | a literal without NUL, terminated by one, is what `uart_putstr` sends of it |
| Soc.PutInt8IsHexDigit | firmware/boot0-serial/soc-hw.c:71-74 | `uart_putint8(c)` for `c < 16` sends `'0' + c` below ten and `'A' + c - 10` above, an upper-case hexadecimal digit of value `c` |
| Soc.PutHex8 | firmware/boot0-serial/soc-hw.c:76-80 | `uart_puthex8` sends exactly two characters, with a signed or an unsigned `char` |
| Soc.PutHex32 | firmware/boot0-serial/soc-hw.c:82-88 | `uart_puthex32` sends exactly eight characters |
| Soc.PutHex8RoundTrip | firmware/boot0-serial/soc-hw.c:76-80 | with an unsigned `char`, or a byte below 0x80, the two digits read back as the byte, high digit first |
| Soc.PutHex8SignedCharGarbles | firmware/boot0-serial/soc-hw.c:76-80 | with a signed `char`, 0x80 is sent as `/0` rather than `80` |
| Soc.PutHex32RoundTrip | firmware/boot0-serial/soc-hw.c:82-88 | with an unsigned `char`, each of the eight characters is a hexadecimal digit, and read two by two, most significant byte first, they give the word modulo 2^32 |
| Soc.PutHex32Digit | firmware/sd-test/spike_hw.c:181-187 | digit `k` of `uart_puthex32` is digit `k % 2` of byte `k / 2`, most significant byte first |
| Pattern.Image | firmware/memtest/main.c:32-37 | the written region is exactly `TEST_SIZE` (0x1000) bytes long |
| Pattern.ImageIsText | firmware/memtest/main.c:23 | on the big-endian processor the image is the text `ABAB` repeated once per word, 1024 times |
| Pattern.ImageAt | firmware/memtest/main.c:32-37 | byte `k` of the image is byte `k % 4` of `TEST_PATTERN`, for every `k` below 0x1000 |
| Pattern.WritePattern | firmware/memtest/main.c:32-37 | the first loop stores `TEST_PATTERN` into exactly 1024 consecutive words from `0x40000000` and changes no other memory |
| Pattern.Dump | firmware/memtest/main.c:40-45 | the second loop sends the 0x1000 bytes from `0x40000000` in ascending address order and changes no memory |
| Pattern.Run | firmware/memtest/main.c:31-46 | the whole test: the region holds the image, and the UART sends the two messages, the image and `\r\ndone!\r\n` |
| Pattern.TranscriptShowsText | firmware/memtest/main.c:32-46 | between the two banners, dumped byte `k` is character `k % 4` of "ABAB": the test shows 0x1000 characters of "ABAB..." whatever memory held before |
| Boot0.Decode | firmware/boot0-serial/main.c:36-138 | a command never reads more bytes than were received, and an upload's payload has exactly the length the store loop covers |
| Boot0.DecodeUploadOf | firmware/boot0-serial/main.c:37-43 | an upload reads its start and size words and then exactly the bytes it stores |
| Boot0.DecodeDownloadOf | firmware/boot0-serial/main.c:44-50 | a download reads exactly its start and size words |
| Boot0.DecodeGoOf | firmware/boot0-serial/main.c:51-54 | a jump reads exactly one address word |
| Boot0.Execute | firmware/boot0-serial/main.c:36-138 | every request keeps memory 2^32 bytes long; what each request stores and sends is stated by `Boot0.DoUpload`, `Boot0.DoDownload` and the `EndToEnd` lemmas |
| Boot0.Run | firmware/boot0-serial/main.c:33-143 | the loop's run keeps memory 2^32 bytes long |
| Boot0.RunUnfold | firmware/boot0-serial/main.c:33-143 | one pass of the loop: a jump stops the run with its address, any other command's effect is followed by the loop on the bytes after it |
| Boot0.ListenStep | firmware/boot0-serial/main.c:141 | a command byte received while waiting is executed and the device waits again on the bytes that follow its operands |
| Boot0.DoUpload | firmware/boot0-serial/main.c:37-43 | the `u` branch consumes the two words and the payload, stores exactly the payload from `start` on, and changes no other memory |
| Boot0.DoDownload | firmware/boot0-serial/main.c:44-50 | the `d` branch consumes the two words, sends memory `start..start+size-1` in ascending order, and changes no memory |
| Boot0.Dispatch | firmware/boot0-serial/main.c:36-139 | one pass of the `switch` consumes, stores and sends exactly what `Decode` and `Execute` say, and gives the jump address for `g` |
| Boot0.Serve | firmware/boot0-serial/main.c:24-144 | the loop from reset, starting with the prompt for the first `*`, reaches exactly the memory, output and outcome of `Boot` |
| Boot0.HandlesConcat | firmware/boot0-serial/main.c:33-143 | commands handled one after the other are handled as one sequence |
| Boot0.NothingHandled | firmware/boot0-serial/main.c:33-143 | no bytes received means no change and no output |
| MemOps.Memset | firmware/sd-test/main.c:11-18 | the `len` bytes from `str` become `c` cut to a byte, every other byte is unchanged, and `str` is returned |
| MemOps.Memcpy | firmware/sd-test/main.c:20-28 | memory becomes the forward byte-by-byte copy `CopyForward`, and `destaddr` is returned |
| MemOps.CopyForwardFrame | firmware/sd-test/main.c:25-26 | only the `len` destination bytes can change |
| MemOps.CopyForwardMoves | firmware/sd-test/main.c:25-26 | when the destination does not start inside the source, `dest[k]` is the old `src[k]` for every `k < len` |
| MemOps.CopyForwardSmear | firmware/sd-test/main.c:25-26 | a copy one byte up onto itself repeats the first byte over the whole range |
| MemOps.Memcmp | firmware/sd-test/main.c:30-41 | `memcmp` only reads memory and returns `Compare` of the two `n`-byte strings |
| MemOps.CompareZero | firmware/sd-test/main.c:37-40 | the answer is zero exactly when the first `n` bytes are equal |
| MemOps.CompareSwap | firmware/sd-test/main.c:37-39 | swapping the arguments negates the answer |
| MemOps.CompareOrder | firmware/sd-test/main.c:37-39 | a negative answer means exactly that the first string comes first in the lexicographic order of unsigned bytes |
| SpikeHw.Raised | firmware/sd-test/spike_hw.c:24-27 | the lines raised are the set bits of `pending` below `n`, in increasing order, each once |
| SpikeHw.NoneRaised | firmware/sd-test/spike_hw.c:24-27 | nothing pending means no routine is called |
| SpikeHw.OnlyRaised | firmware/sd-test/spike_hw.c:24-27 | only line `i` pending means only line `i`'s routine is called |
| SpikeHw.RaisedStep | firmware/sd-test/spike_hw.c:25-26 | one pass of the loop: line `i` is called exactly when bit `i` of `pending` is set |
| SpikeHw.IsrTable.constructor | firmware/sd-test/spike_hw.c:8 | the table has 32 entries, all unset at start |
| SpikeHw.IsrTable.Init | firmware/sd-test/spike_hw.c:30-35 | `isr_init` sets all 32 entries to `isr_null` |
| SpikeHw.IsrTable.Register | firmware/sd-test/spike_hw.c:37-40 | `isr_register` sets entry `irq` to `isr` and leaves every other entry unchanged |
| SpikeHw.IsrTable.Unregister | firmware/sd-test/spike_hw.c:42-45 | `isr_unregister` resets entry `irq` to `isr_null` and leaves every other entry unchanged |
| SpikeHw.IsrTable.IrqHandler | firmware/sd-test/spike_hw.c:20-28 | `irq_handler` calls the table's routine once for each set bit of `pending`, in increasing bit order, and never for a clear bit |
| SpikeHw.Nibble | firmware/sd-test/spike_hw.c:144-147 | the four bits taken from a character are below 16 and equal the digit's value for `0-9`, `A-F` and `a-f` |
| SpikeHw.ReadInt | firmware/sd-test/spike_hw.c:138-152 | `readint` consumes exactly `nibbles` characters, returns their hexadecimal value modulo 2^32, and adds the checksum contributions of its odd digits |
| SpikeHw.ReadDigit | firmware/sd-test/spike_hw.c:142-149 | one pass shifts one digit into the value and, after an odd digit, adds its low byte to the 8-bit checksum |
| SpikeHw.DigitStep | firmware/sd-test/spike_hw.c:142-145 | the shift and `|=` of one more digit equal `16 * prev + digit` modulo 2^32 |
| SpikeHw.ChecksumIsByteSum | firmware/sd-test/spike_hw.c:148-149 | over whole pairs of digits the checksum grows by the sum of the bytes the pairs stand for, modulo 256 |
| SpikeHw.ChecksumPair | firmware/sd-test/spike_hw.c:148-149 | two more digits after an even count add the byte they stand for |
| SpikeHw.HexDigitsRoundTrip | firmware/sd-test/spike_hw.c:154-168 | the hexadecimal value of the low `n` digits of `v` is `v` modulo 16^n |
| SpikeHw.WriteReadRoundTrip | firmware/sd-test/spike_hw.c:138-168 | `readint(n)` of what `writeint(n, v)` sends returns `v` modulo 16^n, for `n <= 8` |
| SpikeHw.WriteInt | firmware/sd-test/spike_hw.c:154-168 | `writeint` sends exactly the low `nibbles` upper-case digits of `val`, most significant first, for `nibbles <= 8`, and nothing for a larger count |
| SpikeHw.SentAll | firmware/sd-test/spike_hw.c:158-167 | the eight passes together send the low `nibbles` digits, or nothing |
| SpikeHw.WriteStep | firmware/sd-test/spike_hw.c:159-165 | pass `i` sends digit `7 - i` exactly when `i >= 8 - nibbles` |
| SpikeHw.TopNibble | firmware/sd-test/spike_hw.c:160 | after `i` shifts by four, bits 31..28 hold digit `7 - i` of `val` |
| SpikeHw.DigitChar | firmware/sd-test/spike_hw.c:161-164 | the character sent for a digit is an upper-case hexadecimal digit of that value |
| SdTest.AddressImageAt | firmware/sd-test/main.c:49-51 | word `k` written by the first loop holds its own address |
| SdTest.FillAddresses | firmware/sd-test/main.c:49-51 | the first loop stores each word's address into it over the whole range and changes no other memory |
| SdTest.Scan | firmware/sd-test/main.c:55-60 | the second loop only reads memory and sends exactly `Report` of it |
| SdTest.ScanWord | firmware/sd-test/main.c:56-59 | one pass reports the word at `p` exactly when it does not hold `p`, with `writeint(8, p)` |
| SdTest.FailuresFound | firmware/sd-test/main.c:55-60 | the address of word `k` is reported exactly when word `k` does not hold its own address |
| SdTest.ReportLines | firmware/sd-test/main.c:55-60 | the report has exactly one error line per failing word |
| SdTest.FailuresEmpty | firmware/sd-test/main.c:55-60 | nothing is reported exactly when every word holds its own address |
| SdTest.FilledHolds | firmware/sd-test/main.c:49-51 | memory just filled by the first loop holds every address |
| SdTest.FilledReportsNothing | firmware/sd-test/main.c:49-60 | the scan of what the fill has just written reports nothing |
| SdTest.MemTest | firmware/sd-test/main.c:43-62 | `memtest` leaves the address image in memory and sends its messages, no error line, and `OK` |
| SdMonitor.Decode | firmware/sd-test/main.c:135-165 | a command never reads more characters than were received, and an upload's data has exactly the length the store loop covers |
| SdMonitor.ReplyAsWritten | firmware/sd-test/main.c:158 | the reply as written is exactly two characters |
| SdMonitor.ReplyIgnoresChecksum | firmware/sd-test/main.c:149-158 | the reply as written is `FF` whatever the summed bytes |
| SdMonitor.ReplyAsWrittenCollides | firmware/sd-test/main.c:149-158 | two different checksums give the same reply |
| SdMonitor.Reply | firmware/sd-test/main.c:158 | the evidently intended reply is exactly two characters |
| SdMonitor.ReplyCompletesChecksum | firmware/sd-test/main.c:149-158 | the intended reply read back and added to the sum gives 0xFF |
| SdMonitor.LoopStep | firmware/sd-test/main.c:130-166 | a command that keeps the loop going is followed by the prompt and the loop on the characters after its operands |
| SdMonitor.LoopLeaves | firmware/sd-test/main.c:130-166 | a command that leaves the loop ends the run with its effect |
| SdMonitor.IgnoredCharacter | firmware/sd-test/main.c:135-165 | a character that is no command changes nothing and is answered only by the next prompt |
| SdMonitor.JumpsLeave | firmware/sd-test/main.c:136-142 | `r` jumps to 0 and `s` to `0x400006a8` whatever follows them, and `g` jumps to the address its eight digits spell |
| SdMonitor.MemoryTestStep | firmware/sd-test/main.c:144-146 | `m` runs `memtest` (its messages with no error line, and the address image in memory) and the loop goes on |
| SdMonitor.HexPairsRoundTrip | firmware/sd-test/main.c:155-157 | each byte written as two `writeint` digits reads back through `readint(2)` as that byte |
| SdMonitor.DecodeRecord | firmware/sd-test/main.c:148-159 | an upload whose fields spell `start` and `data` is read as storing exactly `data` at `start` |
| SdMonitor.RecordSpells | firmware/sd-test/main.c:148-159 | a record built for `start` and `data`, with anything before and after it, is read back as that upload, and its checksum is the 8-bit sum of its count, address and data bytes |
| SdMonitor.ReadByte | firmware/sd-test/main.c:156 | `readint(2)` stored through the `int8_t` pointer: the low byte of the value read, with that byte added to the 8-bit checksum |
| SdMonitor.ReceiveData | firmware/sd-test/main.c:155-157 | the `for` loop stores one decoded byte per two digits from `start` on, nothing when `start + size` wraps, changes no other memory, and sums the bytes |
| SdMonitor.DoUpload | firmware/sd-test/main.c:148-159 | the `u` branch: size is the count less five modulo 2^32, then the address and the data are read and stored, with the 8-bit sum of the record's bytes |
| SdMonitor.SendReply | firmware/sd-test/main.c:158 | the reply as written: `writeint(2, ...)` of the complemented 32-bit checksum whose top byte holds the sum |
| SdMonitor.ReadHeader | firmware/sd-test/main.c:149-154 | the count and the address are read, the size is the count less five modulo 2^32, and both are summed into the checksum byte |
| SdMonitor.UploadCommand | firmware/sd-test/main.c:148-159 | the `u` branch consumes and stores exactly what `Decode` and `Execute` say for the upload, and sends the reply |
| SdMonitor.GoCommand | firmware/sd-test/main.c:161-164 | the `g` branch consumes eight digits and returns the address they spell |
| SdMonitor.Dispatch | firmware/sd-test/main.c:135-165 | one pass of the `switch` consumes, stores and sends exactly what `Decode` and `Execute` say |
| SdMonitor.UartMode | firmware/sd-test/main.c:128-166 | the loop from its banner reaches exactly the memory, output and outcome of `Loop` |
| HostProtocol.LM32Serial.PutUint32 | tools/uploader/lm32client.py:340-344 | `put_uint32` writes exactly the four big-endian bytes of the word's low 32 bits and reads nothing |
| HostProtocol.LM32Serial.PutUint8 | tools/uploader/lm32client.py:346-347 | `put_uint8` writes exactly the low byte of `i` |
| HostProtocol.LM32Serial.GetUint8 | tools/uploader/lm32client.py:349-350 | `get_uint8` returns the next received byte and consumes exactly it |
| HostProtocol.LM32Serial.Upload | tools/uploader/lm32client.py:353-360 | `upload` writes `u`, the address word, the length word and the data in order, and reads nothing |
| HostProtocol.LM32Serial.Download | tools/uploader/lm32client.py:371-380 | `download` writes `d`, the address word and the size word, and returns exactly the next `size` received bytes in order |
| HostProtocol.LM32Serial.Jump | tools/uploader/lm32client.py:391-394 | `jump` writes `g` and the address word |
| HostProtocol.LM32Serial.UploadChunked | tools/uploader/lm32client.py:362-369 | `upload_chunked` writes exactly `size / block_size` upload frames, block `i` at `addr + i * block_size` carrying `data[i*bs:(i+1)*bs]`, with one dot each |
| HostProtocol.LM32Serial.DownloadChunked | tools/uploader/lm32client.py:382-389 | `download_chunked` writes one download request per whole block and returns the next `(size / block_size) * block_size` received bytes in order, with one dot per block |
| HostProtocol.ChunkedCoverage | tools/uploader/lm32client.py:364 | the blocks cover `(size / block_size) * block_size` bytes, so the last `size % block_size` bytes are never moved |
| HostProtocol.NextLine | tools/uploader/lm32client.py:405 | a line split off what was received ends at the first line feed, and ends in a line feed exactly when one was pending; line and rest together are what was received |
| HostProtocol.LM32Serial.ReadLine | tools/uploader/lm32client.py:405 | on the port, opened without a timeout at line 326, `readline` returns once a line feed is pending, with the bytes through the first one, and consumes exactly those |
| HostProtocol.ProbeRunOutcome | tools/uploader/lm32client.py:396-408 | the search as written succeeds exactly when the signature is in one of the first `max_tries - 1` whole reply lines, after one probe per line; it waits in `readline` exactly when fewer whole lines arrived, none with the signature, after one probe more than there are lines; otherwise it gives up after `max_tries - 1` probes |
| HostProtocol.ProbeRunIntendedOutcome | tools/uploader/lm32client.py:396-408 | the corrected search succeeds exactly when the signature arrives within `max_tries` whole lines, after that many probes; it waits in `readline` exactly when fewer whole lines arrived, none with the signature, and otherwise gives up after `max_tries` probes |
| HostProtocol.ProbeLimitMissesLastTry | tools/uploader/lm32client.py:401-404 | with `max_tries = 1` the search as written sends no probe and fails, while the corrected one finds a prompt on the first probe |
| HostProtocol.LM32Serial.FindBootloader | tools/uploader/lm32client.py:396-408 | `find_bootloader` ends as `ProbeRun` says: it writes one carriage return per probe, reads one whole line each, stops at the first line holding the signature, stays waiting where no line feed is pending, and prints one dot per iteration |
| HostProtocol.UnterminatedReplyWaits | tools/uploader/lm32client.py:403-405 | a silent device, or a reply without a line feed, leaves the search waiting in `readline` after its first probe |
| EndToEnd.CommandBytesAgree | firmware/boot0-serial/main.c:37-51 | the host's command characters are the device's `u`, `d` and `g` |
| EndToEnd.WordRoundTrip | firmware/boot0-serial/main.c:10-20 | `read_uint32` on the device returns the word `put_uint32` on the host sent |
| EndToEnd.DecodeUploadFrame | tools/uploader/lm32client.py:353-360 | the device reads an upload frame as the upload of exactly that data at that address |
| EndToEnd.UploadThenListen | firmware/boot0-serial/main.c:37-43 | an upload whose range stays below 2^32 stores the data at the address and the device listens on |
| EndToEnd.WrappedUploadRunsPayload | firmware/boot0-serial/main.c:40 | an upload whose range wraps stores nothing, and the device takes its data bytes as commands |
| EndToEnd.DecodeDownloadRequest | tools/uploader/lm32client.py:371-380 | the device reads a download request as the download it asks for |
| EndToEnd.DownloadThenListen | firmware/boot0-serial/main.c:44-50 | a download whose range stays below 2^32 sends exactly those bytes of memory and changes nothing |
| EndToEnd.JumpThenStop | firmware/boot0-serial/main.c:51-54 | a jump request stops the loop with the address's low 32 bits |
| EndToEnd.ProbeGetsPrompt | firmware/boot0-serial/main.c:136-138 | the host's carriage return is answered by the prompt, and nothing else changes |
| EndToEnd.BootPrintsPrompt | firmware/boot0-serial/main.c:32 | from reset the device prints the prompt once and then listens |
| EndToEnd.PromptCarriesSignature | tools/uploader/lm32client.py:323 | the prompt is one line that holds the host's `BOOT_SIG` |
| EndToEnd.FoundAtFirstProbe | tools/uploader/lm32client.py:396-408 | a device that has just printed its prompt is found at the first probe, for any `max_tries >= 2` |
| EndToEnd.ChunkedUploadStores | tools/uploader/lm32client.py:362-369 | the frames of the first `n` blocks store the first `n` blocks of the data at the address |
| EndToEnd.ChunkedDownloadReads | tools/uploader/lm32client.py:382-389 | the first `n` block requests get back the first `n` blocks of memory from the address, in order |
| EndToEnd.ChunkedRoundTrip | tools/uploader/lm32client.py:362-389 | downloading in blocks what was just uploaded in blocks returns the uploaded data, cut to whole blocks |
| EndToEnd.BlocksRoundTrip | tools/uploader/lm32client.py:362-389 | the same round trip over `n` whole blocks |
| SRecord.Strip | tools/uploader/lm32client.py:449 | `strip()` never lengthens the line and leaves no whitespace at either end |
| SRecord.StripKeeps | tools/uploader/lm32client.py:449 | a line with no whitespace at either end is left as it is |
| SRecord.ParseHex | tools/uploader/lm32client.py:451-456 | a value `int(s, 16)` accepts has no more digits than the field has characters: it lies strictly between -16^length and 16^length |
| SRecord.ParseHexPlain | tools/uploader/lm32client.py:451-456 | a field of hexadecimal digits of either case reads as their value |
| SRecord.ParseHexLenient | tools/uploader/lm32client.py:451-456 | Python 2's `int(s, 16)` also accepts whitespace around the field, a sign that whitespace may follow, and `0x` or `0X` before the digits, and reads the signed digits |
| SRecord.StripSurrounding | tools/uploader/lm32client.py:449 | `strip()` takes away exactly the whitespace around a word |
| SRecord.DecodeLine | tools/uploader/lm32client.py:448-460 | the address of a decoded `s3` or `s7` line lies strictly between -2^32 and 2^32, since its field has eight characters; what each line decodes to is stated by the round-trip lemmas below |
| SRecord.DecodeData | tools/uploader/lm32client.py:452-460 | a decoded `s3` line is a data record whose address lies strictly between -2^32 and 2^32 |
| SRecord.DecodeEntry | tools/uploader/lm32client.py:450-451 | a decoded `s7` line is an entry record whose address lies strictly between -2^32 and 2^32 |
| SRecord.DataLineRoundTrip | tools/uploader/lm32client.py:452-460 | an `s3` line written for `data` at `addr` decodes to exactly `addr` and `data`, whatever its checksum |
| SRecord.EntryLineRoundTrip | tools/uploader/lm32client.py:450-451 | an `s7` line decodes to its entry point |
| SRecord.UpperCaseIgnored | tools/uploader/lm32client.py:450-452 | lines with the upper-case `S3` and `S7` of the S-record format are skipped |
| SRecord.ShortCountNoData | tools/uploader/lm32client.py:457-460 | a count below 5 gives an `s3` line no data bytes |
| SRecord.DataBytesOfPairs | tools/uploader/lm32client.py:459-460 | the digit pairs of `data` read back, pair by pair, as `data` |
| SRecord.FileUploads | tools/uploader/lm32client.py:447-462 | a file of data records and then an entry record uploads every data record in order and then jumps to the entry point |
| SRecord.NoEntryFails | tools/uploader/lm32client.py:462 | without an entry record, every data record is uploaded and the final jump raises |
| SRecord.FailureStops | tools/uploader/lm32client.py:448-461 | once a line has raised, later lines change nothing |
| SRecord.BadLineStops | tools/uploader/lm32client.py:448-461 | a line that does not parse ends the upload, and nothing after it is sent |
| SRecord.UploadAsWrittenSendsNothing | tools/uploader/lm32client.py:446 | as written `upload` raises at `none` before it reads the file, so a file with one `s7` record sends nothing, where the corrected loop sends the jump |
| SRecord.SendLine | tools/uploader/lm32client.py:450-461 | one parsed line: a data record is written as its upload frame, an entry record only sets the jump address |
| SRecord.SendLines | tools/uploader/lm32client.py:447-462 | the loop writes exactly the frames `UploadBytes` gives and reports whether the final jump was possible |
| Lac.ArmSequence | tools/uploader/lm32client.py:510-519 | the session writes exactly eleven bytes |
| Lac.ArmSequenceFields | tools/uploader/lm32client.py:510-519 | six `0x00`, then `0x01`, the select, trigger and mask values cut to a byte, and a closing `0x00` |
| Lac.Arm | tools/uploader/lm32client.py:510-519 | the disarm and arm writes append exactly `ArmSequence` and read nothing |
| Lac.Binary | tools/uploader/lm32client.py:311-319 | `binary(v, bits)` is `b` followed by `bits` characters |
| Lac.BitChar | tools/uploader/lm32client.py:314-318 | the character is `1` exactly when bit `i` of `v` is set |
| Lac.BinaryOf | tools/uploader/lm32client.py:311-319 | the loop of `binary` builds exactly `Binary(v, bits)` |
| Lac.BinaryRoundTrip | tools/uploader/lm32client.py:311-319 | the digits after `b`, read as binary, are `v` modulo 2^bits |
| Lac.ProbeValue | tools/uploader/lm32client.py:506 | the 8-bit vector holds every sample byte exactly |
| Lac.Decimal | tools/uploader/lm32client.py:529 | `str(n)` is a non-empty string of decimal digits |
| Lac.DecimalRoundTrip | tools/uploader/lm32client.py:529 | `str(n)` read back as a decimal number is `n` |
| Lac.SampleLineParses | tools/uploader/lm32client.py:527-530 | the corrected lines of sample `i` are a timestamp line `#` and `i + 1`, then `b`, the eight bits of the sample and ` P` |
| Lac.SampleLineAsWrittenGarbles | tools/uploader/lm32client.py:529-530 | as written the first sample of value 5 gives `\#1b00000101 P` on one line, where the dump format wants `#1` and then `b00000101 P` |
| Lac.SampleLineAsWrittenParses | tools/uploader/lm32client.py:527-530 | as written, sample `i` is one line: `\#`, the number `i + 1`, `b`, the eight bits of the sample and ` P`, with its only line feed at the end |
| Lac.SamplesLines | tools/uploader/lm32client.py:527-530 | the text the loop writes holds exactly one line per sample |
| Lac.ReadSamples | tools/uploader/lm32client.py:527-530 | the read loop consumes exactly `size` bytes and writes their lines as written, in order |
| Lac.Capture | tools/uploader/lm32client.py:510-530 | the session writes the arm sequence, reads the exponent `e` and then exactly `1 << e` samples, and writes their lines as written |
| Terminal.NewlineFor | tools/uploader/lm32client.py:52-55 | the newline of each line-end mode holds a line feed or a carriage return |
| Terminal.ModeKey | tools/uploader/lm32client.py:215-234 | the mode keys keep the modes settled: display mode in 0..3, line-end mode in 0..2, and the newline of that line-end mode |
| Terminal.ParseIntPlain | tools/uploader/lm32client.py:242-243 | a line of decimal digits reads as their value |
| Terminal.ParseIntLenient | tools/uploader/lm32client.py:242-243 | Python 2's `int()` also accepts whitespace around the number and a sign that whitespace may follow, and reads the signed digits |
| Terminal.MenuKey | tools/uploader/lm32client.py:174-287 | a key after the menu character closes the menu, keeps the modes settled and `alive` unchanged, and consumes at most the keys that follow |
| Terminal.KeyStep | tools/uploader/lm32client.py:171-302 | one key of the writer keeps the modes settled and consumes at most the keys that follow |
| Terminal.WriterRun | tools/uploader/lm32client.py:169-302 | the writer's loop keeps the modes settled |
| Terminal.MenuCloses | tools/uploader/lm32client.py:174-287 | after any key typed in the menu the menu is closed, and no menu key ends the loop |
| Terminal.MenuAndExitKeys | tools/uploader/lm32client.py:288-292 | outside the menu the menu character only opens the menu, and the exit character only ends the loop; neither is written to the link |
| Terminal.MenuSendsItsCharacters | tools/uploader/lm32client.py:175-178 | inside the menu the menu and exit characters are written to the link, and echoed when echo is on |
| Terminal.ReprCycles | tools/uploader/lm32client.py:220-226 | Ctrl+A steps the display mode 0→1→2→3→0 |
| Terminal.ConvertCycles | tools/uploader/lm32client.py:227-234 | Ctrl+L steps the line-end mode 0→1→2→0 and keeps the newline equal to the mode's entry in the conversion table |
| Terminal.ToggleTwice | tools/uploader/lm32client.py:203-217 | Ctrl+R, Ctrl+D, Ctrl+B and Ctrl+E each negate one flag, so typing one twice through the menu restores the terminal |
| Terminal.TypingSends | tools/uploader/lm32client.py:293-302 | outside the menu, keys that are neither the menu nor the exit character are written in order, each line feed as the newline, and echoed when echo is on |
| Terminal.BaudEntry | tools/uploader/lm32client.py:236-248 | an entry `int()` rejects keeps the old baud rate, and one it accepts sets that rate |
| Terminal.BaudTyped | tools/uploader/lm32client.py:236-248 | typing the digits of a rate and a line feed at the baud prompt sets that rate |
| Terminal.EscapeByte | tools/uploader/lm32client.py:146 | Python 2's escape of one byte is one to four characters, and exactly one when the byte is printable and not a backslash |
| Terminal.Escaped | tools/uploader/lm32client.py:149 | `repr(data)[1:-1]` is empty for an empty read, and otherwise the byte's `repr` without its quotes |
| Terminal.UnescapeEscape | tools/uploader/lm32client.py:146-149 | the escape of a byte reads back as that byte, so no two bytes look alike |
| Terminal.HexDump | tools/uploader/lm32client.py:152-153 | the dump shows exactly three characters per byte |
| Terminal.HexDumpUndumps | tools/uploader/lm32client.py:152-153 | the dump, two lower-case hexadecimal digits and a space per byte, reads back as the bytes |
| Terminal.RawShowsReceived | tools/uploader/lm32client.py:128-133 | in raw mode the console shows every received byte in order, with a carriage return shown as a line feed exactly in CR mode |
| Terminal.HexShowsReceived | tools/uploader/lm32client.py:150-153 | in hexadecimal mode the console shows three characters per received byte, and they read back as the bytes received |
| Terminal.EscapedCrLf | tools/uploader/lm32client.py:136-140 | in escaping mode with CR/LF line ends, a carriage return shows nothing and a line feed shows a line feed |
| Terminal.KeyDescriptionDistinct | tools/uploader/lm32client.py:16-22 | no two keys get the same description, and the exit and menu characters are `Ctrl+]` and `Ctrl+T` |
| Terminal.Miniterm.constructor | tools/uploader/lm32client.py:61-74 | the terminal opens with the given settings, 8 data bits, one stop bit, the newline of its line-end mode, DTR and RTS on, break off, and nothing sent or shown |
| Terminal.Miniterm.Start | tools/uploader/lm32client.py:76-77 | `start` makes the terminal alive and changes nothing else |
| Terminal.Miniterm.Stop | tools/uploader/lm32client.py:87-88 | `stop` clears `alive` and changes nothing else |
| Terminal.Miniterm.Mode | tools/uploader/lm32client.py:215-234 | a mode key changes the fields as `ModeKey` says and nothing else |
| Terminal.Miniterm.PortSetting | tools/uploader/lm32client.py:249-284 | a port key changes exactly the port setting `PortKey` names |
| Terminal.Miniterm.Baud | tools/uploader/lm32client.py:236-248 | the baud prompt consumes one line and sets the rate as `BaudKey` says |
| Terminal.Miniterm.Menu | tools/uploader/lm32client.py:174-287 | a menu key changes the fields, the link and the console exactly as `MenuKey` says |
| Terminal.Miniterm.Plain | tools/uploader/lm32client.py:288-302 | a key outside the menu changes the fields, the link and the console exactly as `PlainKey` says, and opens the menu only for the menu character |
| Terminal.Miniterm.Writer | tools/uploader/lm32client.py:162-305 | `writer` reaches exactly the terminal `WriterRun` gives for the keys |
| Terminal.Miniterm.Receive | tools/uploader/lm32client.py:126-153 | one read shows exactly `Display` of it in the current modes |
| Terminal.Miniterm.ReadNext | tools/uploader/lm32client.py:125-154 | one read more extends the console by its display |
| Terminal.Miniterm.Reader | tools/uploader/lm32client.py:122-159 | `reader` shows exactly `Shown` of the reads, in order, while the terminal is alive |

## Left out

- Blocking and timing:
  - The register polling inside `uart_getchar`/`uart_putchar` is left out. A read requires that its byte has been received; a run that runs out of input ends as `Blocked`.
  - `sleep`, `msleep`, `nsleep`, `tic_init` and `tic_isr` are hardware timers.
  - The host opens its port without a timeout, so `readline` waits for a line feed. A probe made while no line feed is pending ends the search as `Waiting`.
- Python's threads and exceptions:
  - `Miniterm.start`/`join` are modelled without their threads, and the writer and reader are modelled as separate loops.
  - `KeyboardInterrupt` becoming Ctrl+C and the `SerialException` path of the reader are left out.
- Boot0 diagnostics:
  - Commands `1` and `2` (memory dumps), `4` (which clears through uninitialised pointers) and `5`/`6` (GPIO) are hardware diagnostics.
  - The model takes such a command to an `Unmodelled` outcome instead of running it.
- SD test firmware:
  - `main`'s FatFs part (`f_open`, `f_read`, `dump_packet`, `firmware/sd-test/main.c:68-127`) is foreign library code. The model starts at `uartmode`.
  - firmware/sd-test/mmc.c, the SPI card driver, is not part of this model.
  - The `volatile` in `memtest` is not modelled: memory reads back what was stored.
- Memory-mapped peripherals: the whole 2^32-byte address space is modelled as ordinary bytes that read back what was stored. This includes the peripheral windows (uart0 at 0xF0000000, timer0 at 0xF0010000, gpio0 at 0xF0020000, spi0 at 0xF0030000; `firmware/boot0-serial/soc-hw.c:3-5`, `firmware/sd-test/spike_hw.c:3-6`) and addresses where no memory is fitted. The UART is modelled only as the `rx`/`tx` streams. The upload, download and memory-test results (`EndToEnd.UploadThenListen`, `EndToEnd.DownloadThenListen`, `EndToEnd.ChunkedRoundTrip`, `SdTest.MemTest`) therefore hold on the hardware only for ranges in fitted RAM outside those windows.
- Terminal reading and output:
  - `console.getkey` and `sys.stdin.readline` both read the keyboard input sequence.
  - The baud prompt's line and the Ctrl+U file name are taken from that same key sequence. Ctrl+U consumes its file name line, but the file's lines are not sent, because file I/O is left out.
  - `dump_port_settings`, the help text, and every `sys.stderr` message are left out.
- Terminal.EscapeByte: Python 2's `repr` of a single byte is written out for bytes, with its `\t`, `\n`, `\r`, `\\` and `\xNN` escapes (a quote is shown as itself). The reader's `read(1)` gives at most one byte, so that case is all the reader needs.
- Terminal.Miniterm.constructor: requires a line-end mode in 0..2 and a display mode in 0..3. Modes -3..-1 would index the newline table from its end, other line-end modes raise `IndexError`, and other display modes show nothing; the only caller (`tools/uploader/lm32client.py:540`) passes the default `CONVERT_CRLF` and display mode 0.
- Terminal.ParseInt: Python 2 falls back to `long` parsing for values beyond a 64-bit `long`, and that path also accepts a trailing `L`. This is not modelled: such a line is rejected.
- Terminal.Miniterm.Baud: pyserial's own validation of the rate is not modelled. Any integer `int()` accepts is kept.
- HostProtocol.LM32Serial.FindBootloader: requires `max_tries >= 1`. With `max_tries <= 0` the source probes forever until a prompt arrives. `die` is modelled as the `NotFound` result.
- HostProtocol.LM32Serial.UploadChunked: requires `block_size > 0`. With 0, Python raises `ZeroDivisionError` before writing anything. The same holds for HostProtocol.LM32Serial.DownloadChunked.
- HostProtocol.LM32Serial.Download: `serial.read(1)` is modelled as returning one byte. The Python list of one-character strings is the byte sequence it spells.
- The session glue of `lac()` is left out: option parsing, the VCD header, `print`, and closing the file.
  - As written, `lac()` opens its port through the undefined name `lm32serial` (`tools/uploader/lm32client.py:489`). It therefore stops at "Can't open serial port".
  - `Lac.Capture` models the session from an open `LM32Serial` on.
- `upload()` glue: opening the port and reading the file are left out. `SRecord.SendLines` takes the file's lines as a sequence.
- `memcheck`, `jump(options)`, `mterm`, the debugger and the command line are left out. They are command-line glue around the modelled calls.
- `tools/uploader/memtest.py` is left out: it is an older copy of `LM32Serial` that does not run.
- HostProtocol.LM32Serial: the `info` messages on stdout are left out (`tools/uploader/lm32client.py:336-338`, printed at lines 363, 369, 383, 388, 392, 397 and 407, and at 355 and 373 in debug mode); `ticks` counts only the progress dots.
- SpikeHw.IsrTable.Register: requires `0 <= irq < 32`. The C code does not check the index, and an out-of-range one writes past `isr_table`; the only caller (`firmware/sd-test/spike_hw.c:100`) passes 1. The same holds for SpikeHw.IsrTable.Unregister.
- Integer widths:
  - Python integers are unbounded; the model uses `int` for them.
  - C `uint32_t` arithmetic is written modulo 2^32 where it can wrap.

## Findings

| source | as written | input that shows it | evidently intended | confidence | as-written member | corrected member |
|---|---|---|---|---|---|---|
| tools/uploader/lm32client.py:400-404 | `count == max_tries` is tested before the probe, so at most `max_tries - 1` probes are sent | `max_tries = 1`, device showing its prompt: no probe is sent and the search dies | `max_tries` probes | high, not executed | HostProtocol.ProbeLimitMissesLastTry | HostProtocol.ProbeRunIntendedOutcome |
| firmware/boot0-serial/soc-hw.c:76-80 | `uart_puthex8(char c)` shifts a signed `char`, so a byte of 0x80 or more has a negative high nibble | byte 0x80 is sent as `/0` | two hexadecimal digits of the byte, as with `unsigned char` | medium (depends on the signedness of `char`), not executed | Soc.PutHex8SignedCharGarbles | Soc.PutHex8RoundTrip |
| firmware/sd-test/main.c:149-158 | the checksum is a `uint32_t` summed through `(uint8_t *)&checksum`, which on the big-endian LM32 is its most significant byte, and the reply is the low byte of `~checksum` | any record: the reply is `FF` whatever the data | the complement of the 8-bit sum of the record's bytes | high, not executed | SdMonitor.ReplyAsWrittenCollides | SdMonitor.ReplyCompletesChecksum |
| tools/uploader/lm32client.py:529 | `"\#%i"` keeps its backslash and is not followed by a line break | first sample of value 5: `\#1b00000101 P` | `#1` on its own line, then `b00000101 P` | high, not executed | Lac.SampleLineAsWrittenGarbles | Lac.SampleLineParses |
| tools/uploader/lm32client.py:446 | `addr_jump = none` names an undefined variable and raises before the file is read | a file holding one `s7` record for address 0: nothing is sent | `addr_jump = None`, then the decode loop | high, not executed | SRecord.UploadAsWrittenSendsNothing | SRecord.FileUploads |
