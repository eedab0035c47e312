# Verified models of the toolbox's algorithms

Dafny models of the self-contained algorithms of this C++ toolbox, with proofs of what they are for. Code that changes
state step by step is modelled by classes and loops; each such method is tied to a specification function, and what the
source promises is proved about that function.

- **1-Wire search** (`RomSearch.dfy`, `OneWire.dfy`, `Ds18B20.dfy`). The master learns about the devices only through
  wired-AND bits. `search` over the wire is proved to compute a search function of the set of devices; about that
  function the whole run is proved: every device once, in the order of the bits on the wire, then failure and reset. A ROM
  whose family byte is zero sorts before all others, so one such device makes `first` fail: `first` succeeds if and only
  if there is a device and no family byte is zero. A call that finds nobody starts the search afresh. The sensor table takes the first CRC-valid ROMs of such a run.
- **CRCs** (`Crc.dfy`, `CrcValues.dfy`). The bitwise loops are registers fed with the message bits, and what they leave is the
  remainder of a division; every burst up to the width of the
  register is detected, and exactly which errors are missed is stated: those that are multiples of the polynomial behind
  a one. Every error in an odd number of bits is detected exactly when the polynomial has an odd number of ones, as two of
  the three have.
- **Streams** (`Stream.dfy`). `findMulti` keeps one index per target and no failure table; it is proved to find what a
  naive search would. `parseInt` reads back what `%d` prints.
- **Decimal printing** (`Decimal.dfy`, `PrintLite.dfy`).
- **Expressions** (`RegexSpec.dfy`, `Regex.dfy`). Patterns are sequences of elements: a literal (optionally caseless),
  `.`, one of `\d \D \w \W \s \S`, or a bracketed class, each with `?`, `*` or nothing, the last one plain, and all
  bracketed classes inverted or all plain. They are written out as the string the engine reads; the engine's loop on that
  string is proved to report exactly the leftmost possessive matches. Ignoring case equates bytes that are only 0x20 apart, within
  the ranges it looks at, so `!` matches `A`; where it is case folding is stated exactly.
- **Flash and its filesystem** (`SpiFlash.dfy`, `FlashDirectory.dfy`, `FlashFiles.dfy`, `FlashFs.dfy`, `FlashRuns.dfy`).
  A NOR chip whose programming ANDs bits and wraps inside a page; on it the filesystem with its RAM bitmap and byte count.
  Over any run of operations for which there is room it is a map from names to contents. Four things to know: `write_file` returns
  no error only with one free sector more than the file has chunks, since it looks the next one up even after the last
  chunk, and with exactly as many the file is complete although the chip is said to be full; writing an empty
  file only erases; the id after 2^32 - 1 is 0, and a file with id 0 cannot be read; and `get_fileid` follows a null
  pointer when the name is absent, where the model returns 0, which is what both of its callers test for.
- **DNS** (`DnsMessage.dfy`, `Dns.dfy`). Requests and responses are messages of sections 4.1.2 to 4.1.4 of RFC 1035.
  `ProcessResponse` returns an unsigned 16-bit word, so its negative codes come back with 65536 added, and `Get` hands
  them on like that; the verdict on any reply is stated in numbers. A packet cut inside a question name is read for ever; when exactly is proved. Packets that pass the
  header checks are therefore required to be well formed, up to the first address record at least.
- **Calendar** (`DateTime.dfy`). Timestamps by accumulating loops in 32-bit arithmetic; months and days count from zero.

`Bits.dfy` has machine words as natural numbers with their bitwise operators. `dafny verify dfyconfig.toml` checks
everything.

## Model
| member | source | states |
|---|---|---|
| RomSearch.SearchFindsPresent | comms/OneWire_UART.h:233-334 | Every call that succeeds ends at a ROM that is on the bus during that call, whatever state the call started from, so also when devices joined or left since the previous one. |
| RomSearch.DescendPresent | comms/OneWire_UART.h:247-312 | From any prefix that some device shares, the directions chosen lead to a device. |
| RomSearch.LastZeroMeaning | comms/OneWire_UART.h:279-287 | The zero recorded below bit k is the last position where the chosen path has 0 and a device agreeing on all earlier bits has 1. |
| RomSearch.LastDiscrepancyRecorded | comms/OneWire_UART.h:314-322 | The discrepancy left by a successful search is the last one of the ROM found, and it is 0 (last device) exactly when no ROM on the bus is greater. |
| RomSearch.TakesLeast | comms/OneWire_UART.h:273-277 | Past the last discrepancy the search takes 0 whenever it can: it ends at the least device sharing what was sent up to there. |
| RomSearch.SearchFromStart | comms/OneWire_UART.h:203-326 | After a reset the search ends at the least ROM on the bus, in the order of the bits on the wire. |
| RomSearch.SearchMovesUp | comms/OneWire_UART.h:268-277 | A search from a recorded discrepancy ends at the least ROM above the previous one. |
| RomSearch.SearchMovesOn | comms/OneWire_UART.h:268-277 | When devices have joined or left since, but some device still shows the recorded discrepancy, the next search skips none of the earlier devices that are still there. |
| RomSearch.SearchStep | comms/OneWire_UART.h:218-335 | On a fixed bus whose family bytes are non-zero, one call in the middle of a run succeeds, moves to the next ROM and keeps the state invariant. |
| RomSearch.RunReaches | comms/OneWire_UART.h:211-342 | Call n of a run finds ROM n of the ascending list. |
| RomSearch.RunEnds | comms/OneWire_UART.h:328-334 | The call after the last ROM fails and leaves the search reset. |
| RomSearch.WholeRun | comms/OneWire_UART.h:203-342 | For any bus with non-zero family bytes: `first` and repeated `next` succeed exactly once per device, in ascending order; the next call fails and resets, so the run can be repeated. |
| RomSearch.FoundOrAhead | comms/OneWire_UART.h:211-342 | While a run goes on and devices only join, every call succeeds, and every device that was there from the start has been found or is still ahead. |
| RomSearch.PresentAreFound | comms/OneWire_UART.h:211-342 | When such a run ends, every device that was there from the start has been found. |
| RomSearch.RunStops | comms/OneWire_UART.h:211-342 | Such a run ends, however many devices join. |
| RomSearch.LeaverHidesDevice | comms/OneWire_UART.h:268-277 | When devices leave this fails: one that stays is passed over. |
| RomSearch.EnumerationLength | comms/OneWire_UART.h:211-342 | The ascending list of the devices has one entry per device, which is how many calls of a run succeed. |
| RomSearch.FailureLeaves | comms/OneWire_UART.h:218-335 | A call finds nobody exactly when the run had ended, nobody takes part, or the ROM it arrives at has a zero family byte; whatever the state was, it then leaves every counter at zero, and the ROM untouched unless a descent took place. |
| RomSearch.FailureStartsAfresh | comms/OneWire_UART.h:218-342 | After any call that found nobody, further calls of `next` find the devices that are then on the bus, the least first, as a run from the start does. |
| RomSearch.FamilyDiscrepancyRecorded | comms/OneWire_UART.h:279-287 | The record for the family byte is the last of the first eight positions where the ROM found has 0 and another device has 1, or what it was before if there is none. |
| RomSearch.FirstSucceedsExactlyWhen | comms/OneWire_UART.h:211-335 | `first` finds a device if and only if there is one and no family byte on the bus is zero. |
| RomSearch.ZeroFamilyHidesDevices | comms/OneWire_UART.h:328-333 | A device with a zero family byte makes `first` fail although another device is there. |
| OneWireBus.RomOfInjective | comms/OneWire_UART.h:290-294 | The 64 bits in wire order determine the eight bytes of the ROM. |
| OneWireBus.FamilyByte | comms/OneWire_UART.h:329 | The test of the first ROM byte is the test for a family bit in the ROM. |
| OneWireBus.BitsRead | comms/OneWire_UART.h:249-277 | What the two wired-AND bits tell: both 1 exactly when nobody takes part, both 0 exactly at a discrepancy, otherwise the common bit. |
| OneWireBus.Bus.ReceiveBit | comms/OneWire_UART.h:250-251 | A received bit is the wired AND of the participating devices' current bits, then of their complements. |
| OneWireBus.Bus.SendBit | comms/OneWire_UART.h:297 | Exactly the devices whose current bit equals the direction go on participating. |
| OneWireBus.OneWire.ResetSearch | comms/OneWire_UART.h:203-208 | The counters are cleared and the last ROM stays. |
| OneWireBus.OneWire.WriteRomBit | comms/OneWire_UART.h:290-294 | Setting or clearing through byte number and mask changes exactly that bit of the ROM. |
| OneWireBus.OneWire.AtDiscrepancy | comms/OneWire_UART.h:268-287 | At a discrepancy: the old bit before the last discrepancy, 1 at it, 0 after it; a 0 is recorded, and for the family byte too. |
| OneWireBus.OneWire.SearchBit | comms/OneWire_UART.h:247-308 | One turn of the loop takes the walk from k to k + 1 bits of the descent: participants, ROM bytes and both records follow; or it stops because nobody takes part. |
| OneWireBus.OneWire.SearchBits | comms/OneWire_UART.h:247-312 | The loop does all 64 bits and ends with exactly the descent's ROM and last zero, or leaves at the first bit if nobody takes part. |
| OneWireBus.OneWire.Search | comms/OneWire_UART.h:218-335 | `search` over the wire computes the search function of the devices the command addresses, all or only those with an alarm: state and result. |
| OneWireBus.OneWire.First | comms/OneWire_UART.h:211-215 | `first` is the search function from the reset state. |
| OneWireBus.OneWire.Next | comms/OneWire_UART.h:338-342 | `next` is the search function from the state as it is. |
| Ds18B20.Sensors.Store | devices/sensors/Ds18B20.h:96-100 | The last ROM is appended to the table if its checksum is right and overwritten by the next one otherwise. |
| Ds18B20.Sensors.Discover | devices/sensors/Ds18B20.h:91-103 | After the sensors already stored come exactly the first CRC-valid ROMs of the bus in search order, as many as fit in three places; nothing if a family byte is zero. The loop terminates. |
| Ds18B20.OneValidByte | devices/sensors/Ds18B20.h:96-100 | For any seven bytes exactly one eighth makes a ROM that is kept. |
| Ds18B20.ChangedRomIsInvalid | devices/sensors/Ds18B20.h:96-100 | A valid ROM is dropped when bits changed only inside a window of eight, or in an odd number of places. |
| Ds18B20.ValidRom | devices/sensors/Ds18B20.h:96-100 | For example 02 1C B8 01 00 00 00 is kept with A2 behind it and with no other byte. |
| Ds18B20.ValidOnesAscending | devices/sensors/Ds18B20.h:94-103 | The ROMs stored are ascending, so none is stored twice. |
| Ds18B20.RunFinds | devices/sensors/Ds18B20.h:91-102 | Call n of the discovery finds discoverable ROM n, and the call after the last one fails. |
| Crc.Crc8 | comms/OneWire_UART.h:182-200 | `crc8` is the register of the reflected polynomial 0x8C fed with the message bits, least significant first. |
| Crc.Crc16Modbus | utility/Crc.h:18-44 | `crc16_modbus` is the register of 0xA001; adding a byte at once and shifting is feeding its bits one by one. |
| Crc.Crc32 | utility/Crc.h:46-72 | `crc32` is the register of the given polynomial, complemented at both ends. |
| Crc.Crc32Ethernet | utility/Crc.h:74-77 | `crc32_ethernet` is that register for 0xEDB88320. |
| Crc.ByteAtOnce | utility/Crc.h:27-40 | Adding k bits to the register and shifting k times equals feeding the bits one by one (linearity). |
| Crc.StepBackwards | utility/Crc.h:29-40 | With the polynomial's top bit set a shift step can be undone: agreement above bit j afterwards comes from agreement above bit j + 1. |
| Crc.StepsInjective | utility/Crc.h:25-41 | The same bits take different registers to different registers. |
| Crc.StepsAgree | utility/Crc.h:25-41 | If k steps, k at most the width, end in the same register, only the lowest k bits can have differed. |
| Crc.BurstChangesRegister | utility/Crc.h:25-41 | Replacing a run of at most n bits by other bits changes an n-bit register, whatever comes before and after. |
| Crc.BurstDetected | utility/Crc.h:18-77 | Two messages of any equal length that differ only inside a window of at most n bits leave different n-bit registers. |
| Crc.PolynomialsDetectBursts | utility/Crc.h:18-77 | So windows of 8, 16 and 32 bits for the three polynomials in use. |
| Crc.StepsMeetExactlyWhen | utility/Crc.h:25-41 | Up to n bits take two registers to the same one if and only if the bits differ where the registers do and the registers differ nowhere else. |
| Crc.LongerBurstMissedExactlyWhen | utility/Crc.h:18-77 | A window of n + 1 bits, in any message and from any start, goes unnoticed if and only if nothing in it changed or it changed by the polynomial behind a one. |
| Crc.MessagesMissedExactlyWhen | utility/Crc.h:18-77 | The same for messages of bytes that differ only inside such a window. |
| Crc.PolynomialsMissExactlyWhen | utility/Crc.h:18-77 | And for the three polynomials at windows of 9, 17 and 33 bits, from every start. |
| Crc.LongerBurstMissed | utility/Crc.h:18-77 | Such messages exist: for each polynomial two messages of 2, 3 and 5 bytes that leave the same register, from every start. |
| Crc.OddErrorsDetected | utility/Crc.h:18-44 | `crc8` and `crc16_modbus` detect every error in an odd number of bits, wherever they are, from every start. |
| Crc.OddSteps | utility/Crc.h:25-41 | A polynomial with an odd number of ones keeps track of the parity of the bits that have entered. |
| Crc.OddErrorsDetectedExactlyWhen | utility/Crc.h:18-77 | A checksum of any polynomial with its top bit set, from any start, detects every error in an odd number of bits if and only if the polynomial has an odd number of ones. |
| Crc.OddErrorMissed | utility/Crc.h:46-77 | So `crc32_ethernet` does not; two messages that differ in an odd number of bits and leave the same register. |
| Crc.RegisterIsRemainder | utility/Crc.h:18-77 | From any start, the register after a message is the one number that, written behind the message, with the start added to its first bits, makes a multiple of the polynomial behind a one: the remainder of the division. |
| CrcValues.CheckValues | utility/Crc.h:18-77 | The known values: 0xA2 for seven bytes of a ROM, 0x4B37 and 0xCBF43926 for the digits 1 to 9. |
| Crc.StepsLinear | utility/Crc.h:25-41 | The register is linear in the start and the bits together. |
| Crc.ZeroRegisterExactlyWhen | utility/Crc.h:25-41 | Bits leave nothing in an empty register if and only if they are a multiple of the polynomial behind a one. |
| Crc.UndetectedExactlyWhen | utility/Crc.h:18-77 | Messages of equal length leave the same register, from any start, if and only if their difference is a multiple of the polynomial behind a one. |
| Streams.ContinuesMeaning | comms/tcpip/Stream.h:304-337 | Comparing the target with itself at a candidate index decides whether the longer prefix ends the bytes read. |
| Streams.NextLongest | comms/tcpip/Stream.h:311-340 | The highest index that continues, or 0, is again the length of the longest proper prefix that ends all bytes consumed. |
| Streams.SelfMatches | comms/tcpip/Stream.h:325-336 | The inner loop decides whether the target's prefix equals its shifted copy. |
| Streams.Fallback | comms/tcpip/Stream.h:311-340 | The table-free fallback loop finds the highest index to continue from, and terminates. |
| Streams.Feed | comms/tcpip/Stream.h:295-341 | One byte either completes the target, exactly when the target now ends the bytes read, or leaves the index the longest proper match. |
| Streams.Stream.FeedAll | comms/tcpip/Stream.h:295-341 | One byte enters the targets in order; the first that completes is reported, otherwise every index is the longest match. |
| Streams.Stream.FindMulti | comms/tcpip/Stream.h:282-345 | The earliest position where any target ends and the lowest-numbered target ending there, reading exactly up to it; -1 exactly when none ends before the stream times out. |
| Streams.FirstHitUnique | comms/tcpip/Stream.h:280-281 | There is only one such position and target. |
| Streams.Stream.FindUntil | comms/tcpip/Stream.h:108-120 | True exactly when the target ends somewhere no later than the terminator first ends; the stream is read exactly up to that place. |
| Streams.Stream.Find | comms/tcpip/Stream.h:84-94 | True exactly when the target occurs before the stream times out; the stream is read exactly up to its first end. |
| Streams.Stream.PeekNextDigit | comms/tcpip/Stream.h:379-405 | Passes over exactly the bytes the mode may skip and reports the sign or digit found there, or -1. |
| Streams.Stream.ParseInt | comms/tcpip/Stream.h:128-154 | Value and bytes consumed are those of the first run of digits and ignored bytes, with its sign. |
| Streams.ReadBackExactlyWhen | comms/tcpip/Stream.h:128-154 | A number printed with %d at any width that fits is read back from behind whatever the mode passes over and before any byte that does not go on, if and only if the byte to ignore is not its sign or one of its digits after the leading zeros; exactly its bytes are consumed. |
| Streams.ReadBack | comms/tcpip/Stream.h:128-154 | In particular for every ignore byte that is neither a digit nor '-'. |
| Streams.NothingParsed | comms/tcpip/Stream.h:134-137 | Where the input ends, or a byte comes that the mode does not pass over and no number begins with, 0 is returned and that byte is still to come. |
| Streams.GroupsReadBack | comms/tcpip/Stream.h:128-154 | A number whose digits stand in groups with the byte to ignore between them is read as if they stood together, with a minus sign or without. |
| Streams.ReadBackFails | comms/tcpip/Stream.h:128-154 | 10 is read back as 1 when the zero is to be ignored. |
| Decimal.TextFits | utility/PrintLite.h:365-372 | Division by falling powers of ten prints a numeral worth the number, for every number that fits the width. |
| Decimal.FitsExactlyWhen | utility/PrintLite.h:356-374 | The printed text is a numeral for the number if and only if the number is below ten to the width. |
| Decimal.TextTooNarrow | utility/PrintLite.h:365-372 | With a width that is too small, what does not fit goes into the first byte, and the other bytes are the last digits. |
| Decimal.DigitCountMeaning | utility/PrintLite.h:405-411 | The automatic width is the least that fits, and at least 1. |
| Decimal.IgnoredExactlyWhen | comms/tcpip/Stream.h:141-145 | Skipping a digit leaves the value unchanged if and only if it only occurs among the leading zeros. |
| Decimal.ValueConcat | comms/tcpip/Stream.h:144-145 | The value of a concatenation of digit strings: place value. |
| PrintLite.PrintLite.CountDigits | utility/PrintLite.h:405-411 | The loop counts the digits: the least width that fits. |
| PrintLite.PrintLite.PutDigit | utility/PrintLite.h:367-371 | One turn of the loop writes the top digit and leaves the rest of the text for what remains. |
| PrintLite.PrintLite.Xtoa | utility/PrintLite.h:356-374 | Appends exactly the numeral at the given or automatic width and returns its length. |
| PrintLite.PrintLite.PrintSigned | utility/PrintLite.h:100-111 | %d appends the sign and the numeral of the magnitude of any 32-bit integer, and counts the bytes. |
| PrintLite.PrintLite.PrintUnsigned | utility/PrintLite.h:112-121 | %u appends the numeral, and counts the bytes. |
| RegexSpec.CaseFoldingExactlyWhen | utility/Regex.h:395 | The caseless comparison is ASCII case folding exactly where neither byte is a non-letter 0x20 away from the other. |
| RegexSpec.CaseFoldingFails | utility/Regex.h:395 | '!' matches the literal 'A' when case is ignored. |
| RegexSpec.PredefinedMeaning | utility/Regex.h:336-358 | The members of the six classes: \d, \w (letters only) and \s (tab, line feed, carriage return, space), and \D, \W and \S for all other bytes. |
| RegexSpec.AtomMeaning | utility/Regex.h:392-397 | Which bytes a dot, a literal with and without case, and a bracketed class accept. |
| RegexSpec.ReadBack | utility/Regex.h:331-389 | The string that is passed to the engine stands for one pattern only: reading it back gives the pattern. |
| RegexSpec.StarMeaning | utility/Regex.h:385-457 | `x*y` matches exactly the runs of x that a y follows, and nothing if y is x. |
| RegexSpec.OptionalMeaning | utility/Regex.h:385-457 | `x?y` matches exactly xy, and y alone if y is not x. |
| RegexSpec.AttemptSound | utility/Regex.h:314-471 | An attempt that ends in a match has split the text so that every element took its part possessively. |
| RegexSpec.AttemptComplete | utility/Regex.h:314-471 | Every possessive split of the text is found by the attempt. |
| RegexSpec.AttemptExact | utility/Regex.h:314-471 | An attempt from s succeeds with end e if and only if the pattern matches the text from s to e. |
| RegexSpec.AttemptAdvances | utility/Regex.h:459-471 | A match is never empty. |
| RegexSpec.RanOffRulesOutLater | utility/Regex.h:314-457 | The possessive cursor is monotone in the start: an attempt that ran off the end of the text rules out a match at every later start. |
| RegexSpec.NoMatchesAfterRunOff | utility/Regex.h:314-474 | So ending the search there loses no match. |
| RegexSpec.AllMatchesLeftmost | utility/Regex.h:314-474 | The list of matches is leftmost and non-overlapping: none is skipped between two of them or after the last. |
| RegexSpec.LeftmostUnique | utility/Regex.h:314-474 | There is only one such list. |
| RegexSpec.ElementText | utility/Regex.h:333-367 | Where each element's text lies in the expression. |
| RegexSpec.FirstByte | utility/Regex.h:459-460 | Only past the last element does the expression pointer stand on the terminator, and it never stands on a quantifier. |
| Regex.Includes | utility/Regex.h:190-206 | Membership in a class, plain or inverted. |
| Regex.Last | utility/Regex.h:233-240 | The bracket that closes the class. |
| Regex.SetClass | utility/Regex.h:212-221 | The members written between the brackets; a class once inverted stays inverted. |
| Regex.MatchCollection.Add | utility/Regex.h:147-152 | Appends the match to the collection. |
| Regex.Regex.LoadClass | utility/Regex.h:331-367 | The expression pointer moves to the last byte of an escape or of a bracketed class, and that class becomes active. |
| Regex.Regex.Test | utility/Regex.h:392-397 | The byte of text is accepted exactly when the element's atom stands for it. |
| Regex.Regex.Advance | utility/Regex.h:385-457 | One turn of the loop follows the course of the attempt by one byte and moves the pointers accordingly; a failed byte is a failed attempt. |
| Regex.Regex.Capture | utility/Regex.h:459-471 | A complete match is recorded with its start and length and the search goes on behind it. |
| Regex.Regex.Match | utility/Regex.h:301-475 | For every text and every pattern of the fragment: exactly the leftmost, non-overlapping possessive matches, if there are at most 250. The loop terminates although the text pointer moves back. |
| SpiFlash.SpiFlashMemory.Read | devices/flash/external/SpiFlashMemory.h:335-344 | The bytes from the address on. |
| SpiFlash.SpiFlashMemory.SectorErase | devices/flash/external/SpiFlashMemory.h:252-260 | The sector that contains the address becomes ones; no other byte changes. |
| SpiFlash.SpiFlashMemory.ChipErase | devices/flash/external/SpiFlashMemory.h:238-245 | Every byte becomes ones. |
| SpiFlash.SpiFlashMemory.PageProgram | devices/flash/external/SpiFlashMemory.h:272-298 | Bits are only cleared and the address wraps inside its page; no error exactly when the range reads back as the data; more than a page is refused untouched. |
| SpiFlash.SpiFlashMemory.WriteEach | devices/flash/external/SpiFlashMemory.h:316-324 | Page after page until one does not verify. |
| SpiFlash.SpiFlashMemory.Write | devices/flash/external/SpiFlashMemory.h:311-325 | `write` leaves the chip and the code of the write function. |
| SpiFlash.PageStored | devices/flash/external/SpiFlashMemory.h:272-298 | A page that verifies was stored in place and nothing else changed. |
| SpiFlash.WriteStores | devices/flash/external/SpiFlashMemory.h:311-325 | Without wrapping, a write that succeeds stores exactly its data in exactly its range. |
| SpiFlash.WriteKeepsOutside | devices/flash/external/SpiFlashMemory.h:311-325 | Without wrapping, no byte outside the range changes, whether the write succeeds or not. |
| SpiFlash.WriteReadsBack | devices/flash/external/SpiFlashMemory.h:311-344 | Whatever the chip held and wherever the data starts, a write that succeeds reads back as written. |
| SpiFlash.AlignedSucceeds | devices/flash/external/SpiFlashMemory.h:311-325 | A page-aligned write of any length succeeds if and only if no byte needs a bit set. |
| SpiFlash.WriteSucceedsExactlyWhen | devices/flash/external/SpiFlashMemory.h:311-325 | A write succeeds if and only if it may start where it does, no byte on its page needs a bit set, and any byte past the page's end is already there. |
| SpiFlash.WriteOnErased | devices/flash/external/SpiFlashMemory.h:311-325 | On an erased range a write without wrapping always succeeds. |
| SpiFlash.WriteCode | devices/flash/external/SpiFlashMemory.h:311-325 | The code is 1 exactly for more than a page from inside a page, and the chip is then untouched; 0 exactly when every byte can be stored; otherwise 4. |
| SpiFlash.WriteHarmless | devices/flash/external/SpiFlashMemory.h:311-325 | Every write, refused, failed or wrapped, keeps the size of the chip, sets no bit, and keeps every page that the data neither starts on nor runs over. |
| SpiFlash.FailedWriteLeaves | devices/flash/external/SpiFlashMemory.h:316-324 | A page-aligned write that does not verify has stored the pages before the first one that cannot be stored, has cleared bits of that one, and has touched nothing behind it. |
| SpiFlash.ShortWriteLeaves | devices/flash/external/SpiFlashMemory.h:311-325 | A write of at most a page programs the page it starts on, wherever it starts and whether it verifies or not. |
| SpiFlash.ProgrammedAt | devices/flash/external/SpiFlashMemory.h:272-284 | Byte i meets the byte i places on, counted round the end of its page, and leaves the bits that are set in both. |
| SpiFlash.ProgrammedNowhereElse | devices/flash/external/SpiFlashMemory.h:272-284 | A byte that no byte of the data meets stays. |
| FlashDirectory.EntryRoundTrip | devices/flash/external/SpiFlashMemoryFilesystem.h:37-50 | The 256 bytes of a directory entry decode to the entry they were encoded from. |
| FlashDirectory.DecodedLayout | devices/flash/external/SpiFlashMemoryFilesystem.h:37-52 | The offset and the byte order of each field of a directory entry. |
| FlashDirectory.EncodedLayout | devices/flash/external/SpiFlashMemoryFilesystem.h:37-52 | The same for an entry that is written; the padding is zero. |
| FlashDirectory.SectorLayout | devices/flash/external/SpiFlashMemoryFilesystem.h:37-72 | A sector is 4096 bytes, the entry in the first 256, and is in use exactly when it begins with the magic number. |
| FlashDirectory.FoundByName | devices/flash/external/SpiFlashMemoryFilesystem.h:316-326 | In any directory, in order or not, a name leads to the id of the first entry that carries it and is a first chunk, not deleted. |
| FlashDirectory.RemoveKeepsOthers | devices/flash/external/SpiFlashMemoryFilesystem.h:422-435 | Removing a file keeps the invariant, frees all its sectors and leaves every other file in its sectors. |
| FlashDirectory.UnchangedContents | devices/flash/external/SpiFlashMemoryFilesystem.h:336-365 | A file whose sectors are unchanged has the same contents. |
| FlashDirectory.WipedView | devices/flash/external/SpiFlashMemoryFilesystem.h:126-131 | An erased chip has no valid entry and satisfies the invariant. |
| FlashFiles.WritePlaces | devices/flash/external/SpiFlashMemoryFilesystem.h:214-240 | With a free sector for every chunk, the loop puts chunk j into a sector that was free, each in its own, and changes no other sector, whatever code it returns. |
| FlashFiles.WriteOutcome | devices/flash/external/SpiFlashMemoryFilesystem.h:189-242 | A write of a non-empty file that has room: a new id, a new name, every chunk placed. |
| FlashFiles.NewFsOk | devices/flash/external/SpiFlashMemoryFilesystem.h:189-242 | Placing a new file keeps the invariant: entries in their own sectors, each chunk exactly once, names distinct. |
| FlashFiles.WriteKeepsInvariant | devices/flash/external/SpiFlashMemoryFilesystem.h:189-242 | So does every write that has room, unless the new id has wrapped to 0. |
| FlashFiles.WriteKeepsInvariantExactlyWhen | devices/flash/external/SpiFlashMemoryFilesystem.h:189-242 | A write keeps the invariant if and only if there is a free sector for every chunk, or none at all. |
| FlashFiles.SuccessHasRoom | devices/flash/external/SpiFlashMemoryFilesystem.h:197-240 | A write that returns no error had room. |
| FlashFiles.WriteKeepsOthers | devices/flash/external/SpiFlashMemoryFilesystem.h:189-242 | A write leaves every other file intact, whatever code it returns: same id, same sectors, same contents. |
| FlashFiles.ChunksTouchFree | devices/flash/external/SpiFlashMemoryFilesystem.h:214-240 | The loop only touches sectors that held no valid entry, and gives them the new file's id. |
| FlashFiles.WriteNamesFile | devices/flash/external/SpiFlashMemoryFilesystem.h:189-242 | Afterwards a search for the name finds the new id. |
| FlashFiles.NameLeadsToId | devices/flash/external/SpiFlashMemoryFilesystem.h:316-326 | Any sector of a file leads to the id that a search for its name returns. |
| FlashFiles.NameMeansId | devices/flash/external/SpiFlashMemoryFilesystem.h:442-455 | The entries with a name are those with the id that a search for the name returns, so removing by name and by id agree. |
| FlashFiles.NextIdFree | devices/flash/external/SpiFlashMemoryFilesystem.h:204 | One more than the highest id is not in use, unless it has wrapped. |
| FlashFiles.ReadSize | devices/flash/external/SpiFlashMemoryFilesystem.h:350 | The size read from a sector is right for every file length, including exact multiples of the chunk, where `sectors` is one larger than the chunks written, and for every length that is split like the file's. |
| FlashFiles.ReadAsWhole | devices/flash/external/SpiFlashMemoryFilesystem.h:302-365 | Reading with the file's own length is reading the file. |
| FlashDirectory.FirstBytesAgree | devices/flash/external/SpiFlashMemoryFilesystem.h:336-365 | Reading with another length that is split into the same sectors gives the same bytes as far as both go. |
| FlashFiles.SectorHoldsChunk | devices/flash/external/SpiFlashMemoryFilesystem.h:343-354 | Each sector of a file holds the bytes of its chunk at its place in the contents. |
| FlashFiles.WriteStoresContents | devices/flash/external/SpiFlashMemoryFilesystem.h:189-242 | The contents gathered from the new file's sectors are the data, and its hash is stored with it. |
| FlashFiles.ReadBack | devices/flash/external/SpiFlashMemoryFilesystem.h:189-365 | After a write of any non-empty data that has room, reading by name returns no error and the data. |
| FlashFiles.StoredExactlyWhen | devices/flash/external/SpiFlashMemoryFilesystem.h:189-365 | A non-empty file reads back after a write if and only if there was a free sector for every chunk. |
| FlashFiles.FullButStored | devices/flash/external/SpiFlashMemoryFilesystem.h:233-236 | With exactly as many free sectors as chunks the write returns the error for a full chip, and the file is complete and reads back. |
| FlashFiles.CutWriteLeaves | devices/flash/external/SpiFlashMemoryFilesystem.h:214-240 | A write that runs out of room leaves every sector in use: the free ones hold the first chunks of the data, in entries that announce the whole, and the others are as they were. |
| FlashFiles.ReadBackExactlyWhen | devices/flash/external/SpiFlashMemoryFilesystem.h:189-365 | It does so for every length if and only if the highest 32-bit id was not in use; otherwise the name cannot be found. |
| FlashFiles.ReadBackFails | devices/flash/external/SpiFlashMemoryFilesystem.h:189-326 | On a chip of any size whose only file has the highest id, a write of another file for which there is room succeeds, and the file cannot be found. |
| FlashFiles.EmptyFileErases | devices/flash/external/SpiFlashMemoryFilesystem.h:214-241 | Writing an empty file only erases: afterwards there is no file of that name. |
| FlashFiles.OtherFileReadsSame | devices/flash/external/SpiFlashMemoryFilesystem.h:302-365 | Reading another file gives the same result before and after. |
| FlashFiles.WriteSucceedsExactlyWhen | devices/flash/external/SpiFlashMemoryFilesystem.h:197-240 | A non-empty write succeeds if and only if there is one free sector more than it has chunks. |
| FlashRuns.RemoveRepresents | devices/flash/external/SpiFlashMemoryFilesystem.h:442-455 | Removing takes exactly that name out of the map the filesystem represents. |
| FlashRuns.WriteRepresents | devices/flash/external/SpiFlashMemoryFilesystem.h:189-242 | A write that has room sets exactly that name to the data. |
| FlashRuns.SuccessFits | devices/flash/external/SpiFlashMemoryFilesystem.h:189-242 | A run without errors is a run of writes that have room. |
| FlashRuns.RunRefines | devices/flash/external/SpiFlashMemoryFilesystem.h:189-455 | Any run of removals and of writes that have room refines a map from names to contents: reading any name gives what the last operation on it left. Fewer than 2^32 operations cannot use up the ids. |
| FlashRuns.RunFromWiped | devices/flash/external/SpiFlashMemoryFilesystem.h:126-455 | In particular from a wiped chip on, where the map is empty. |
| FlashFs.IdentificationMeaning | devices/flash/external/SpiFlashMemory.h:77-80 | Which identifications count as valid: all but capacity 0, and capacity 1 behind two equal bytes; so that of an absent chip, all ones, does. |
| FlashFs.SpiFlashMemoryFilesystem.Initialize | devices/flash/external/SpiFlashMemoryFilesystem.h:97-120 | The bitmap lists exactly the sectors with a live entry, and with files in order the bitmap, the count and the directory agree, exactly if the count was zero before: a second call counts every sector again. |
| FlashFs.SpiFlashMemoryFilesystem.Wipe | devices/flash/external/SpiFlashMemoryFilesystem.h:126-131 | An empty filesystem in which everything agrees. |
| FlashFs.SpiFlashMemoryFilesystem.WriteIndex | devices/flash/external/SpiFlashMemoryFilesystem.h:149-155 | Sets or clears exactly the sector's bit. |
| FlashFs.SpiFlashMemoryFilesystem.ReadIndex | devices/flash/external/SpiFlashMemoryFilesystem.h:163-167 | Reports exactly the sector's bit. |
| FlashFs.SpiFlashMemoryFilesystem.ReadDirectory | devices/flash/external/SpiFlashMemoryFilesystem.h:174-179 | The entry decoded from the first 256 bytes of the sector. |
| FlashFs.SpiFlashMemoryFilesystem.IterateDirectory | devices/flash/external/SpiFlashMemoryFilesystem.h:373-397 | The entry of the next sector, a null entry for a sector without one, nothing after the last; the cursor moves by one sector. |
| FlashFs.SpiFlashMemoryFilesystem.GetFreeSector | devices/flash/external/SpiFlashMemoryFilesystem.h:268-280 | The first sector without a valid entry. |
| FlashFs.SpiFlashMemoryFilesystem.GetLastId | devices/flash/external/SpiFlashMemoryFilesystem.h:472-485 | The highest id in use. |
| FlashFs.SpiFlashMemoryFilesystem.GetFileId | devices/flash/external/SpiFlashMemoryFilesystem.h:288-326 | The id of the first sector with the first chunk of that name; 0 if there is none. |
| FlashFs.SpiFlashMemoryFilesystem.Remove | devices/flash/external/SpiFlashMemoryFilesystem.h:422-435 | Every sector of the file is erased, and bitmap, count and directory still agree. |
| FlashFs.SpiFlashMemoryFilesystem.RemoveNamed | devices/flash/external/SpiFlashMemoryFilesystem.h:442-455 | The same by name. |
| FlashFs.SpiFlashMemoryFilesystem.StoreChunk | devices/flash/external/SpiFlashMemoryFilesystem.h:223-231 | Erase, list, write chunk, write entry: never fails on the modelled chip and changes exactly that sector. |
| FlashFs.SpiFlashMemoryFilesystem.StoreChunks | devices/flash/external/SpiFlashMemoryFilesystem.h:214-241 | The loop leaves the sectors and the code of the chunk function; when the chip is full the byte count is one sector short. |
| FlashFs.SpiFlashMemoryFilesystem.WriteNew | devices/flash/external/SpiFlashMemoryFilesystem.h:195-242 | The part after the removal: the first free sector, the next id, the chunks, and the exact count of used bytes. |
| FlashFs.SpiFlashMemoryFilesystem.WriteFile | devices/flash/external/SpiFlashMemoryFilesystem.h:189-242 | Leaves the sectors and the code of the write function; bitmap, count and directory agree afterwards if and only if no error is returned or there was no free sector to begin with. |
| FlashFs.SpiFlashMemoryFilesystem.GatherFile | devices/flash/external/SpiFlashMemoryFilesystem.h:341-358 | The reading loop brings every chunk to its place in the buffer, in whatever order the sectors hold them, and stops when nothing remains. |
| FlashFs.SpiFlashMemoryFilesystem.ReadById | devices/flash/external/SpiFlashMemoryFilesystem.h:336-365 | The buffer holds as many bytes of the file's sectors as the length says, which is the contents for the file's own length, and the code says whether their hash is the stored one. |
| FlashFs.SpiFlashMemoryFilesystem.ReadFile | devices/flash/external/SpiFlashMemoryFilesystem.h:302-308 | The same by name; not found leaves the buffer alone. |
| DnsMessage.LabelsOfJoin | comms/tcpip/Dns.h:124-145 | Splitting a dotted name gives back the parts it was joined from, without the empty ones, wherever they stand. |
| DnsMessage.NameRoundTrip | comms/tcpip/Dns.h:129-150 | Labels of 1 to 63 bytes are read back from the wire as they were written, up to the byte after the name. |
| DnsMessage.HostReadBackExactlyWhen | comms/tcpip/Dns.h:129-150 | The name on the wire is the host's if and only if no part of the host name is longer than 63 bytes. |
| DnsMessage.LongLabelFails | comms/tcpip/Dns.h:129-150 | A host name that is one part of 64 bytes is not read back. |
| Dns.DnsClient.WriteName | comms/tcpip/Dns.h:124-150 | The loop over the name writes the encoding of its non-empty parts, with lengths cut to a byte. |
| Dns.DnsClient.BuildRequest | comms/tcpip/Dns.h:83-159 | Writes exactly header and question, and remembers the id. |
| Dns.RequestIsMessage | comms/tcpip/Dns.h:83-159 | The request is a well-formed message with one question, for the address of the host. |
| Dns.RequestBytes | comms/tcpip/Dns.h:83-159 | The bytes of a request, number by number. |
| Dns.FlagTests | comms/tcpip/Dns.h:189-198 | The mask tests on the flags are tests of the response, truncation and code bits. |
| Dns.LabelByte | comms/tcpip/Dns.h:248 | The mask test tells labels from pointers. |
| Dns.DnsClient.ReadNamePart | comms/tcpip/Dns.h:221-228 | One turn of the loop over a question name: a length is read, or kept at the end of the packet, that many bytes are dropped, and 255 is left behind unless the length was zero. |
| Dns.TurnTowardsEnd | comms/tcpip/Dns.h:217-229 | In a name that ends, every turn moves towards the byte after it. |
| Dns.DnsClient.SkipQuestionName | comms/tcpip/Dns.h:217-229 | The loop of these turns lands on the byte after the name, for every name that ends inside the packet. |
| Dns.QuestionNameEnds | comms/tcpip/Dns.h:217-229 | Every encoded name of labels of up to 255 bytes ends, at the byte after it. |
| Dns.DnsClient.SkipAnswerName | comms/tcpip/Dns.h:243-273 | Lands on the byte after a name that ends in the zero octet or in a pointer. |
| Dns.DnsClient.SkipQuestions | comms/tcpip/Dns.h:214-234 | Lands on the byte after the question section, for every section each of whose names ends inside the packet. |
| Dns.DnsClient.ReadRecordHead | comms/tcpip/Dns.h:243-287 | Reads type, class and data length of any well-formed record and lands on its data. |
| Dns.DnsClient.FindAddress | comms/tcpip/Dns.h:241-313 | Returns the data of the first record of type A and class IN, landing on every record boundary before it; otherwise the code for none, or for a wrong size, and the packet is consumed. |
| Dns.DnsClient.ProcessResponse | comms/tcpip/Dns.h:162-314 | The verdict on timeout, sender, length and header in the source's order, and for an accepted packet the answer of the message it encodes; the address is touched only on success. |
| Dns.DnsClient.Get | comms/tcpip/Dns.h:66-80 | Sends the request for the host and reports the verdict on the reply. |
| Dns.EchoIsAnswered | comms/tcpip/Dns.h:124-307 | Every response that echoes the request is accepted and answered with the first address record, whatever the other answers are and however their names end. |
| Dns.AcceptedExactlyWhen | comms/tcpip/Dns.h:167-212 | A reply is looked into if and only if it is a packet from the resolver and port 53 of at least 12 bytes with the id of the request, the response bit, no truncation bit, response code 0 and an answer. |
| Dns.RejectionCodes | comms/tcpip/Dns.h:167-212 | The code for every reply that is not, as a 16-bit number, in the order of the tests. |
| Dns.AnswerExactlyWhen | comms/tcpip/Dns.h:241-313 | What is returned for an accepted response: 1 and the four bytes of the first record of type 1 and class 1, or the code for a wrong size, or the code for none. |
| Dns.VerdictInNumbers | comms/tcpip/Dns.h:162-314 | All of this for any reply at all. |
| Dns.NameLoopEndsExactlyWhen | comms/tcpip/Dns.h:217-229 | Repeating these turns ever reaches a zero length if and only if the name ends inside the packet: a packet cut inside it is read for ever. |
| Dns.EncodedQuestionsEnd | comms/tcpip/Dns.h:214-234 | An encoded question section is read over to the byte after it. |
| Dns.QuestionsReadExactlyWhen | comms/tcpip/Dns.h:162-234 | For every packet whose header passes, the loops over the question section ever end if and only if each of its names ends inside the packet. |
| Dns.CutPacketIsReadForEver | comms/tcpip/Dns.h:162-234 | A packet that passes the header checks and whose question is never read to its end. |
| DateTime.IsLeapYear | utility/DateTime.h:176-186 | The Gregorian rule. |
| DateTime.MonthLengths | utility/DateTime.h:189 | The lengths of the twelve months. |
| DateTime.LeapDaysStep | utility/DateTime.h:76-78 | The closed count of leap days follows the loop year by year. |
| DateTime.DateTime.ToTimestamp | utility/DateTime.h:73-91 | For every year the loops add up, in 32 bits, what they are meant to; from 1970 on that is the seconds since the Epoch of section 4.16 of the Base Definitions of IEEE Std 1003.1-2017. |
| DateTime.BackToExactlyWhen | utility/DateTime.h:75-78 | Continued back before 1970 with rounding down, the formula still holds if and only if the year is at least 1969, since no leap day is taken off. |
| DateTime.TooFarBy | utility/DateTime.h:75-78 | For a year before 1970 the result is a day too large for every leap year from it to 1969. |
| DateTime.DayCount | utility/DateTime.h:76-86 | Days counted by years and months grow by one from each day to the next. |
| DateTime.StrictlyIncreasing | utility/DateTime.h:73-116 | Seconds since the Epoch are strictly increasing in calendar order. |
| DateTime.OrderAgrees | utility/DateTime.h:98-116 | Less and equal seconds are calendar order and equality, field by field. |
| DateTime.ExactExactlyWhen | utility/DateTime.h:90 | The signed result is exact if and only if the date is not after 2038-01-19 03:14:07; up to 2106 it is then negative. |
| DateTime.LessAgreesExactlyWhen | utility/DateTime.h:98-101 | operator< is calendar order if and only if both dates lie on the same side of that limit (up to 2106). |
| DateTime.LessFails | utility/DateTime.h:98-101 | 2038-01-19 03:14:08 compares less than the second before it. |
| DateTime.EqualAgrees | utility/DateTime.h:108-111 | operator== is equality of dates up to 2106-02-07 06:28:15. |
| DateTime.EqualFails | utility/DateTime.h:108-111 | One second later a date equals the Epoch. |
| DateTime.EqualUpToExactlyWhen | utility/DateTime.h:108-111 | For every date taken as a limit: operator== is equality of all dates up to it if and only if the limit is not after 2106-02-07 06:28:15. |
| DateTime.LessUpToExactlyWhen | utility/DateTime.h:98-101 | For every date taken as a limit: operator< is calendar order of all dates up to it if and only if the limit is not after 2038-01-19 03:14:07. |
| DateTime.WeekdayUpToExactlyWhen | utility/DateTime.h:166-169 | The same for the day of the week. |
| DateTime.DateTime.Less | utility/DateTime.h:98-101 | The comparison of timestamps, and calendar order up to the limit. |
| DateTime.DateTime.Equal | utility/DateTime.h:108-111 | The comparison of timestamps, and equality of the fields up to 2106. |
| DateTime.NextDayFollows | utility/DateTime.h:73-91 | From each day to the next, over the ends of months and years, the timestamp grows by 86400 and the weekday goes on; the Epoch was a Thursday. |
| DateTime.WeekdayCorrectExactlyWhen | utility/DateTime.h:166-169 | The day of the week is right if and only if the date is not after the limit (up to 2106). |
| DateTime.WeekdayFails | utility/DateTime.h:166-169 | On that second, a Tuesday, the day of the week is -1. |
| DateTime.DateTime.GetDayOfWeek | utility/DateTime.h:166-169 | Division and remainder towards zero, and the true weekday up to the limit. |

## Left out

- RomSearch.WholeRun: the devices on the bus are fixed during one call and between the calls; RomSearch.PresentAreFound covers devices that join between calls, RomSearch.SearchFindsPresent and RomSearch.SearchMovesOn those that come and go.
- OneWireBus.OneWire.Search: commands other than the two search commands of the bus (0xF0, and 0xEC for devices with an alarm), which no device answers bit by bit in this way; the bit timing on the wire.
- Ds18B20.Sensors.Discover: the inheritance from the 1-Wire master is modelled by composition, and the configuration sent to the sensors afterwards is not modelled.
- Helper methods (`SearchBit`, `Advance`, `StoreChunk`, `WriteSegment` and the like) are pieces of the source's loop bodies, split off so that each has a contract of its own.
- Streams.Stream.FindMulti: a timeout is the end of the input; `find` and `findUntil` with explicit lengths are the same method here, since strings carry their length.
- Streams.Stream.ParseInt: values are unbounded, so overflow of `long` is not modelled; bytes are unsigned.
- PrintLite.PrintLite.Xtoa: widths above 10 are excluded, since their powers of ten do not fit the 32-bit variable; powers of ten are exact, not floating point. The same holds for the two conversions that use it.
- PrintLite.PrintLite.PrintSigned: the negation of the most negative 32-bit integer, which overflows, is taken to wrap.
- Decimal.TextTooNarrow: a first digit of 256 or more, which is cut to a byte and leaves too much for the digits after it.
- PrintLite.PrintLite.PrintUnsigned: widths above 10, as for `Xtoa`.
- `printf`'s scan of the format string and its other conversions (`%s`, `%S`, `%c`, `%x`, `%f`), and `parseFloat`.
- Regex.Regex.Match: more than 250 matches would overrun the collection and are excluded; the `#` that is printed for every match is not modelled.
- `^`, `$`, `\b`, `+`, escaped punctuation, bracketed classes of both kinds in one pattern, and patterns that can match the empty text: the engine has no clean semantics for them.
- SpiFlash.SpiFlashMemory.Write: the range must lie on the chip; the chip is idle whenever it is asked, and status and identification commands are not modelled. A chip is a whole number of 4096-byte sectors with 24-bit addresses.
- FlashFs.SpiFlashMemoryFilesystem.Initialize: the identification bytes and the hash function are parameters; the capacity read must be that of the chip, a multiple of 8 sectors; the filename length is 80, as in toolbox.sample.h, and the padding of an entry is taken as zeros.
- FlashFs.SpiFlashMemoryFilesystem.ReadById: the id must be that of a file and the length one that is split into the same sectors as the file; with most others the source follows a null pointer or writes past the buffer, and with length 0 it looks at whatever entry comes first.
- FlashFs.SpiFlashMemoryFilesystem.GatherFile: the same.
- FlashFs.SpiFlashMemoryFilesystem.ReadFile: the same, for the file the name leads to.
- FlashFs.SpiFlashMemoryFilesystem.GetFileId: returns 0 for an absent name, where the source follows a null pointer.
- FlashFs.SpiFlashMemoryFilesystem.WriteFile: names are shorter than 80 bytes.
- `iterate_files`, `write_directory_entry`, `get_file_sector`, `get_free` and the loop callback of the filesystem.
- Dns.DnsClient.ProcessResponse: waiting and retrying until the timeout are one step; a packet is a string of bytes with a cursor; malformed packets that pass the header checks are excluded: the source then loops for ever, as Dns.QuestionsReadExactlyWhen says, or uses variables it never set.
- Dns.DnsClient.Get: the same for the reply.
- DateTime.DateTime.ToTimestamp: months above 12, which read past the table of months, are excluded; the product that overflows a signed integer for years from 2039 on is taken to wrap. The calendar theorems are about dates from 1970 on.
- DateTime.DateTime.Less: operators `>` and `!=` are the mirror images and are not modelled separately; fractions of a second are not compared by the source either.
- The constructor from a timestamp, which does not invert `ToTimestamp`, the `Add` methods, which ignore their argument, and the formatting of dates.
- Hardware access, delays, real-time locks, and the toolbox's containers, displays, motors, sockets and other protocols.
