# Models of the EC's self-contained algorithms

Dafny models, with proofs, of the algorithms and state machines in `common/` and `builtin/` of the
ChromeOS embedded controller: codecs and checksums, memory and window arithmetic, stores and queues,
and the code that selects, allocates and schedules. `dafny verify dfyconfig.toml` checks everything.

| file | what it models |
|---|---|
| `Base32.dfy` | base32 text with interleaved CRC-5 groups |
| `Gf2.dfy` | polynomials over one bit: division, and what a CRC register has to do with it |
| `Crc32Table.dfy`, `Crc32.dfy`, `Crc16.dfy`, `Crc8.dfy` | the checksums against polynomial division |
| `Memory.dfy` | memcpy, memmove and memset over byte addresses, with four-byte word copies |
| `SlidingWindow.dfy`, `BodyDetection.dfy`, `Gesture.dfy` | rings with running sums and variances |
| `Cec.dfy` | the framed ring of received CEC messages |
| `CbiStore.dfy`, `Cbi.dfy` | board info: the entries as a finite map, the byte image, cache and EEPROM |
| `ChargeMarket.dfy`, `ChargeManager.dfy` | charge-port choice: the table and the hunt as values, and the code |
| `ChargerBase.dfy`, `Sustainer.dfy` | sharing power with a base, the charge band |
| `Hooks.dfy`, `Button.dfy` | hook dispatch, and debouncing on deferred calls |
| `Flash.dfy` | bank geometry of a flash with several regions |
| `Chargesplash.dfy` | the rate limit on boots for the charge splash |
| `LineEditor.dfy`, `Console.dfy` | the console line editor as a value, and as the buffer edited in place |
| `BluetoothLe.dfy` | channel hopping of section 4.5.8 of Bluetooth Core 4.1 Vol 6 Part B |
| `Arith.dfy`, `Bits.dfy`, `Octets.dfy` | division facts; bits of bytes and symbols; the byte type |

Code that changes state is a class or a method here too, proved against a function or predicate of
the old state; the lemmas are about those. The hardware is an input: bus failures, the board's answers
to an offered charge port, raw button levels, sensor samples and the clock are parameters, and the
theorems hold for all of them. C's unsigned and truncating operations are written out where they matter.

Where the code does something other than its documentation says, the model follows the code:

- `base32_decode` with CRCs on does not decode a prefix: it returns -1 unless the text is read to its
  last symbol (include/base32.h:58-61 promises the prefix).
- A CBI set whose value does not fit has already removed a value of another size, and removing a tag
  that is absent overflows when fewer than two bytes are free.
- `hook_notify` never calls a hook with a priority out of range. It then loops for ever, unless there
  is a hook at LAST + 1: that one is called again until the count is reached.
- The band of the sustainer is left by one percent when idling is not allowed, or when a load draws
  on a battery that idles at its lower end.
- An intermediate point of `set_base_lid_current` can draw more than both ends, but only when an
  earlier charge request failed after the limit of the lid was set, so that the recorded current of
  the lid is wrong; the condition is exact.
- An edge that falls between the clock reading of `button_irq_handler` and its taking of the pending
  interrupts can be sampled before its full debounce time, by at most the time between the two.
- A locked system accepts `CBI_SET_INIT` while the cached image does not pass the checks: before the
  first read, after a failed one, and after an overflowing set that took a value out.
- With a battery that stays disconnected and a board that keeps refusing the active port,
  `charge_manager_refresh` never ends, unless charging is overridden, no port or supplier is in use, or
  the choice is the port and supplier in use, at once or after the offers of the port were cleared; the
  condition is exact. Once a port was committed without a supplier, the next refresh looks up the offer
  of no supplier.
- The DPS port is not preferred over everything (common/charge_manager.c:813): a supplier that ranks
  above PD, such as a dedicated charger, takes the choice from it.
- The confidence of body detection is no ramp when the delta is above the threshold.
- Where enums are as wide as an int, a CBI set of a tag beyond eight bits is stored under its low byte,
  beside an entry of that tag; everywhere a size beyond eight bits is cut.
- `memmove` by one byte up into the last word of the address space does not end.
- The static check on the size of the CEC ring admits 17 bytes, one too few for a 16-byte message.

## Model

| member | source | states |
|---|---|---|
| Base32.Crc5SymIsDivision | common/base32.c:12-24 | the two table lookups are eight bit-steps of the division by x^5+x^2+1, for every symbol and register |
| Base32.NextCrc | common/base32.c:20-24 | the register of both methods: the table lookups, equal to the bit-steps |
| Base32.Crc5Injective | common/base32.c:20-24 | a different symbol, or a different register, always gives a different next register |
| Base32.Crc5Transposition | common/base32.c:20-24 | two different symbols in the other order always leave a different register |
| Base32.DecodeSym | common/base32.c:35-45 | the search of the map finds exactly the value of a symbol character, -1 for every other character |
| Base32.ReadWrite | common/base32.c:96-102 | reading a written text with the same CRC grouping yields the bits of its symbols, up to the room asked for, when every group is complete |
| Base32.DecodeEncoded | common/base32.c:110-172 | decoding what was encoded, for any requested length: the exact condition under which the bits come back |
| Base32.PrefixDecoding | common/base32.c:143-169 | a shorter destination gets the leading bits without CRCs; with CRCs it gets -1 unless the last symbol is reached, contrary to the header's promise |
| Base32.RoundTrip | common/base32.c:47-172 | decoding at the encoded bit length returns that length and exactly those bits, for every length and grouping the encoder accepts |
| Base32.AcceptedIff | common/base32.c:110-172 | with CRCs on a text is accepted exactly if, blanks and dashes aside and up to its first null, it is one the encoder writes and there is room for; then its bits come out |
| Base32.PlainAccepted | common/base32.c:119-164 | without CRCs a text is accepted exactly if what is read of it are symbols, up to one more than there is room for |
| Base32.StrangeRefused | common/base32.c:120-124 | a character that is no symbol, and is not a blank, tab, line end or dash, makes the decoder return -1 wherever reading comes to it |
| Base32.SeparatorsIgnored | common/base32.c:120-121 | a blank, tab, line end or dash more or less, anywhere, makes no difference |
| Base32.NullEnds | common/base32.c:116 | nothing behind the first null matters |
| Base32.Substitution | common/base32.c:126-137 | one symbol of an accepted CRC text replaced by a different symbol: the text is refused |
| Base32.Swap | common/base32.c:126-137 | two different data symbols that are neighbours in a group, directly or across separators, swapped: the text is refused |
| Base32.SingleErrorsDetected | common/base32.c:116-169 | both detections, for every text the decoder accepts with CRCs on and every pair of neighbouring data symbols, separators or not |
| Base32.WriteLength | common/base32.c:58-68 | the length check of the encoder is the length of the text it writes |
| Base32.CutSymbolIsPack | common/base32.c:70-91 | the shifts and masks cut the five bits at any offset, padded with zeros; the bits of the byte after the last do not matter |
| Base32.ReadsPastIff | common/base32.c:71-84 | exactly which bit counts make the encoder look at the byte behind the last one that holds bits |
| Base32.NextSymbol | common/base32.c:70-91 | the encoder's symbol is the next five bits of the first srclen_bits bits, from the bytes the code looks at |
| Base32.EncodeLoop | common/base32.c:70-106 | the loop writes the specified text and terminator and nothing behind it, from the bytes the code looks at |
| Base32.Encode | common/base32.c:47-108 | success exactly when the groups are whole and the text fits; the text depends only on the first srclen_bits bits; a refusal writes an empty string only; only the bytes the code looks at need be readable |
| Base32.PlaceBitsCorrect | common/base32.c:147-156 | the expression that fills up the current byte puts each bit of the symbol in its place and keeps the bits before |
| Base32.SpillBitsCorrect | common/base32.c:160-163 | the bits that did not fit start the next byte |
| Base32.StoreSymbol | common/base32.c:146-164 | the destination bytes hold the bits so far plus the new ones, the rest of the last byte zero |
| Base32.Decode | common/base32.c:110-172 | the return value and destination are those of the reading specification, for every text |
| Gf2.RemMultiple | common/crc8.c:13-28 | the product of the generator with any polynomial leaves no remainder |
| Gf2.Division | common/crc8.c:13-28 | quotient times generator plus remainder is the dividend, so the remainder operation really is the remainder |
| Gf2.RemLinear | common/crc8.c:13-28 | the remainder of a sum is the sum of the remainders |
| Gf2.RegisterIsRemainder | common/crc8.c:13-28 | feeding a message through the register is the remainder of the message times x^w plus the start value times x^n |
| Gf2.FeedAllInjective | common/crc.c:59-71 | different registers stay different through any message |
| Gf2.BurstDetected | common/crc.c:59-71 | messages that differ only inside w consecutive bits end in different registers, for any generator with a constant term |
| Gf2.UndetectedIff | common/crc8.c:13-28 | from any start two messages leave the same register exactly if they differ by a multiple of the generator |
| Gf2.OddErrorsDetected | common/crc8.c:13-28 | with a generator of an even number of terms every odd number of wrong bits shows |
| Crc32Table.TableIsDivision | common/crc.c:13-57 | all 256 table entries are eight steps of the reflected division by 0x04C11DB7 |
| Crc32.HashByteIsFeed | common/crc.c:66-67 | one table step is the division of the eight bits of a byte, lowest first |
| Crc32.HashIsFeed | common/crc.c:59-71 | the table loop is bit-at-a-time polynomial division for every buffer and start value |
| Crc32.ResultIsFrameCheck | common/crc.c:98-101 | from the initial value, the result is the FCS of section 3.2.9 of IEEE 802.3 |
| Crc32.HashSplit | common/crc.c:78-96 | hashing in chunks equals hashing the concatenation |
| Crc32.ReceiverResidue | common/crc.c:59-101 | hashing a message and then its own check always ends in 0xDEBB20E3 |
| Crc32.BurstChangesCheck | common/crc.c:59-71 | messages differing inside 32 consecutive bits never have the same check |
| Crc32.SameCheckIff | common/crc.c:59-71 | equally long messages have the same register exactly if they differ by a multiple of the generator |
| Crc32.FourBytesChangeCheck | common/crc.c:59-71 | nor do equally long messages differing only in four neighbouring bytes |
| Crc32.Crc32Hash | common/crc.c:59-71 | the loop computes the hash function |
| Crc32.Context.HashBuffer | common/crc.c:78-81 | the context holds the hash of everything hashed since it was initialised |
| Crc32.Context.Hash32 | common/crc.c:83-86 | a word is hashed as its four little-endian bytes |
| Crc32.Context.Result | common/crc.c:98-101 | the result is the frame check of everything hashed |
| Crc8.HashIsFeed | common/crc8.c:13-28 | the loop in the wide register is polynomial division by x^8+x^2+x+1 from any previous value |
| Crc8.HashIsRemainder | common/crc8.c:8-11 | with a zero start the CRC is the remainder of the message times x^8 |
| Crc8.HashSplit | common/crc8.c:13-28 | the CRC composes over concatenation |
| Crc8.OneByteChangesCheck | common/crc8.c:13-28 | equally long messages that differ in exactly one byte never have the same CRC |
| Crc8.BurstChangesCheck | common/crc8.c:13-28 | nor messages that differ only inside eight consecutive bits |
| Crc8.SameCheckIff | common/crc8.c:13-28 | equally long messages have the same CRC exactly if they differ by a multiple of x^8+x^2+x+1 |
| Crc8.OddErrorsChangeCheck | common/crc8.c:13-28 | an odd number of wrong bits always changes the CRC |
| Crc8.CrosCrc8Arg | common/crc8.c:13-28 | the nested loops compute that CRC |
| Crc8.CrosCrc8 | common/crc8.c:8-11 | the entry point with a zero start yields the remainder |
| Crc16.HashIsFeed | common/crc.c:131-149 | the shift loop is polynomial division by x^16+x^12+x^5+1 from any previous value |
| Crc16.HashIsRemainder | common/crc.c:131-149 | with a zero start the CRC is the remainder of the message times x^16 |
| Crc16.BurstChangesCheck | common/crc.c:131-149 | messages that differ only inside sixteen consecutive bits never have the same CRC |
| Crc16.SameCheckIff | common/crc.c:131-149 | equally long messages have the same CRC exactly if they differ by a multiple of x^16+x^12+x^5+1 |
| Crc16.OddErrorsChangeCheck | common/crc.c:131-149 | an odd number of wrong bits always changes the CRC |
| Crc16.CrosCrc16 | common/crc.c:131-149 | the nested loops compute that CRC |
| Memory.CopiedAt | builtin/stdlib.c:374-424 | what a copy means, byte by byte |
| Memory.Memcpy | builtin/stdlib.c:290-331 | every destination byte is the old source byte and no other byte changes, for every length and alignment, when the regions are apart or the destination is below |
| Memory.Memset | builtin/stdlib.c:335-370 | every byte of the range is the low byte of c and no other byte changes |
| Memory.Memmove | builtin/stdlib.c:374-424 | every destination byte is the old source byte and no other byte changes, for every length, alignment and overlap but the one that runs away |
| Memory.RunsAwayIff | builtin/stdlib.c:389-391 | the rounded start of the destination wraps exactly for two bytes moved up by one into the top word of the address space |
| Memory.RunawayNeverEnds | builtin/stdlib.c:411-414 | there the word pointer never comes down to the wrapped end, however many words are copied |
| SlidingWindow.VarianceStep | common/body_detection.c:64-65 | the incremental formula is the exact change of n^2 times the variance |
| SlidingWindow.VarianceNonNegative | common/body_detection.c:44 | n sum(x^2) - (sum x)^2 is never negative |
| SlidingWindow.VarianceIsDeviation | common/body_detection.c:53-66 | the scaled variance is the sum of the squared deviations from the mean, times n |
| BodyDetection.VarianceFits | common/body_detection.c:74-75 | with 16-bit samples the accumulated variance of a window fits the unsigned accumulator |
| BodyDetection.TrackStep | common/body_detection.c:67-78 | an update of a ring that holds the window keeps sum and n^2 variance those of the new window, without wrapping |
| BodyDetection.ConfidenceIsRamp | common/body_detection.c:95-103 | for all 64-bit values: the confidence is 0 below, 100 above and a linear ramp between when nothing wraps; where exactly it divides by zero; with a delta above the threshold the lower limit wraps and the confidence is 0 short of it |
| BodyDetection.RampIff | common/body_detection.c:95-103 | the ramp is computed for every variance if and only if neither limit nor the product wraps |
| BodyDetection.ParamsGiveRamp | common/body_detection.c:185-216 | for every range, noise and parameters whose delta does not exceed the threshold with its noise the scaled ones do not wrap, and the delta is not scaled to zero exactly above a given bound |
| BodyDetection.ScaledIs | common/body_detection.c:185-216 | a parameter is scaled by the square of the units per g over the square of 9800, rounded down |
| BodyDetection.VarNoiseIs | common/body_detection.c:208-209 | the noise is the given percentage of its square, in mm^2/s^4, rounded down |
| BodyDetection.BodyDetector.UpdateMotionVariance | common/body_detection.c:81-86 | after every sample both axes track the last window_size samples |
| BodyDetection.BodyDetector.GetMotionVariance | common/body_detection.c:89-93 | the result is the mean of both variances; the sum does not wrap and the divisor is not zero |
| BodyDetection.MeanVarianceIs | common/body_detection.c:88-93 | the mean variance is the sum of both variances, rounded down once |
| BodyDetection.WindowIsOneSecond | common/body_detection.c:172-182 | the window is one second of samples, as far as there is room |
| BodyDetection.BodyDetector.Reset | common/body_detection.c:218-268 | a reset empties the windows and scales the parameters, the default for those that are 0; with a zero data rate it changes only the state; a range of zero is divided by |
| BodyDetection.BodyDetector.BodyDetect | common/body_detection.c:270-304 | state, counter and confidence after a sample are those of the whole window; the division is reached only with a full window of at least one sample |
| BodyDetection.StationaryDuration | common/body_detection.c:292-301 | the state turns off-body after exactly the configured time without motion |
| BodyDetection.OffBodyRun | common/body_detection.c:288-291 | from off-body nothing happens as long as no confidence is above 50; the first above it turns on-body with a fresh count |
| BodyDetection.OnBodyRun | common/body_detection.c:292-301 | from on-body it turns off exactly with the confidence that completes 15 seconds of samples in a row below 10, counted from the start value; a confidence of 10 or more restarts the count |
| Gesture.InnerSlotHoldsOldest | common/gesture.c:122-124 | the computed slot holds the oldest entry of the inner window |
| Gesture.Channel.Slide | common/gesture.c:122-139 | both running sums stay the sums of the last INNER and OUTER window changes |
| Gesture.TapHistory.AddSample | common/gesture.c:113-158 | both channels track the absolute changes of the signal; the sums are used only after a full window since the last suspend |
| Gesture.TapHistory.Suspend | common/gesture.c:281-291 | a suspend asks for a whole new window |
| Cec.EncodeAppend | common/cec.c:182-184 | the bytes of a queue grow by a length byte and the message |
| Cec.RxQueue.Fill | common/cec.c:158-180 | writing a frame that does not fit leaves all queued bytes as they were |
| Cec.RxQueue.Push | common/cec.c:149-187 | success exactly when length+1 bytes fit in size-1 minus used; the queue grows by the message, or is unchanged |
| Cec.RxQueue.Pop | common/cec.c:189-220 | the oldest message, intact across the wrap; nothing from an empty queue |
| Cec.RxQueue.Flush | common/cec.c:83-89 | the queue is empty |
| Cec.RxQueue.HandleReceived | common/cec.c:456-463 | a message shorter than the ring minus one always ends up queued, behind the others or alone; the static check at include/cec.h:19 admits a ring one byte too small for the longest message |
| CbiStore.SetCases | common/cbi.c:222-260 | the outcome of a set with any tag and size, case by case, in terms of what a get finds |
| CbiStore.SetRefinesMap | common/cbi.c:222-260 | what a set with any tag and size changes of what a get finds: the tag, or the tag its low byte names, and no other; an overflow has already removed a value of another size |
| CbiStore.UniqueKeptIff | common/cbi.c:222-260 | a set keeps tags unique if and only if it does not store a tag beyond eight bits beside the tag its low byte names |
| CbiStore.ReadsBackIff | common/cbi.c:185-260 | the data of a successful set are what a get finds if and only if tag and size fit eight bits, there are any, and they did not go behind another entry of the tag; with unique tags the first two are enough |
| CbiStore.WideRequests | common/cbi.c:222-260 | tag 258 beside tag 2 leaves two entries of tag 2, and the next set of tag 2 brings the value of 258 to light; a size of 256 removes the tag |
| CbiStore.OverflowCondition | common/cbi.c:248-250 | a set overflows exactly when header and value do not fit behind what is left, also for size 0; the list never outgrows the image |
| CbiStore.RunKeepsInvariant | common/cbi.c:222-260 | over every run of sets, with any tags and sizes, the entries stay inside the image, and a present BOARD_VERSION or OEM_ID never changes while locked |
| CbiStore.RunUniqueIff | common/cbi.c:222-260 | tags are unique all through a run if and only if they are at its start and no request stores beside a present tag |
| CbiStore.RunKeepsOthers | common/cbi.c:222-260 | a tag that no request mentions keeps its value, and its absence if no request names it by its low byte |
| CbiStore.SerializeAround | common/cbi.c:34-51 | the image around any entry: the entries before, its bytes, the entries after |
| Cbi.EntryAt | common/cbi.c:61-73 | the tag, size and value of entry k lie at its offset, and the next entry right behind |
| Cbi.RemovedImage | common/cbi.c:211-220 | moving the tail down leaves an image of the list without the entry |
| Cbi.ImageOkIff | common/cbi.c:428-461 | the checks accept exactly an image with the bytes of the magic, any minor and no major version, a size that fits, and in byte 3 the remainder of bytes 4 up to the size times x^8 |
| Cbi.ByteChangeRefused | common/cbi.c:28-32 | an accepted image is refused once any single byte is changed from byte 4 up to its size, the size itself aside |
| Cbi.BoardInfo.FindTag | common/cbi.c:61-73 | the walk finds the entry of a tag, or nothing exactly when the tag is absent |
| Cbi.BoardInfo.RemoveTag | common/cbi.c:211-220 | the image holds the list without the entry; the header bytes stay |
| Cbi.BoardInfo.Append | common/cbi.c:34-51 | the image holds the list with the new entry at its end |
| Cbi.BoardInfo.SetBoardInfo | common/cbi.c:222-260 | status and entries are those of the specified set, in place in the byte buffer |
| Cbi.BoardInfo.DoCbiRead | common/cbi.c:110-157 | the read succeeds exactly when the bus does and the bytes are such an image; then the cache is the stored image |
| Cbi.BoardInfo.CbiRead | common/cbi.c:159-176 | a synced cache is enough, else either of two attempts |
| Cbi.BoardInfo.GetBoardInfo | common/cbi.c:185-209 | the value and size of the tag with the rest of the buffer cleared; every error leaves the buffer alone |
| Cbi.BoardInfo.EepromWrite | common/cbi_eeprom.c:42-64 | the pages written are a prefix of the image; the EEPROM is the new image up to there and the old one behind |
| Cbi.BoardInfo.CommonSet | common/cbi.c:327-375 | for 32-bit tags and sizes: when a set is denied and that it then changes nothing; otherwise the entries follow the specified set, and only a successful one is signed and stored, as an image the checks accept; a refused one leaves the signature unless it took a value out |
| Cbi.BoardInfo.SetAndReadBack | common/cbi.c:185-209 | data set and stored are what is read back after the cache was dropped, if and only if tag and size fit eight bits, there are any, and they did not go behind another entry of the tag |
| Cbi.BoardInfo.SetLocked | common/cbi.c:327-375 | one set on a locked system: an initialisation is refused exactly when the cache passes the checks or the write is denied, and one that is stored keeps a hardware tag exactly when it sets it to the same value, by the low byte of the tag; any other set keeps it |
| Cbi.BoardInfo.BinWrite | common/cbi.c:463-520 | the bytes of a binary write, what it stores without looking at the lock, and when the cache stays synced over bytes nobody has checked |
| Cbi.BoardInfo.RunLocked | common/cbi.c:159-520 | over every run of sets, reads, cache drops and binary writes BOARD_VERSION and OEM_ID stay in the EEPROM and in a synced cache up to the first torn write, accepted initialisation or accepted binary write; no initialisation is accepted while the cache passes the checks and is never left unsigned by a failed read or an overflow |
| Cbi.FirstInitForgets | common/cbi.c:339-348 | before the first read an initialisation is accepted on a locked system and the hardware tag in the EEPROM is gone |
| ChargeMarket.ScanIsBest | common/charge_manager.c:798-890 | the scan has minimal supplier priority, then maximal power, then the active port; none exactly without a candidate; with a DPS port that port, or the best of the other suppliers if one displaces it |
| ChargeMarket.ChosenCanBeTaken | common/charge_manager.c:823-849 | what is chosen has current and voltage, on a valid port that is dedicated, overridden to, or not to be told apart |
| ChargeMarket.NothingBetter | common/charge_manager.c:811-888 | nothing that can be taken has a lower priority number than the choice, or at the same number a higher current times voltage, or PD power where that is known; ties go to the active port, then to the first place; the override port goes before all |
| ChargeMarket.BestIsUnique | common/charge_manager.c:811-819 | that promise, with the order of the scan among equals, leaves one choice |
| ChargeMarket.OverrideIsChosen | common/charge_manager.c:838-849 | an override port with charge is chosen, with that port's own best supplier |
| ChargeMarket.DpsIsChosen | common/charge_manager.c:811-863 | with an offer of PD on the DPS port and no override, that port is chosen if PD outranks all suppliers, and is not if something that can be taken outranks PD |
| ChargeMarket.ChosenPort | common/charge_manager.c:891-909 | a connected battery leaves the choice to the scan; a disconnected one never switches the port, unless charging is overridden, and keeps its supplier as long as that offers anything |
| ChargeMarket.AfterKeeps | common/charge_manager.c:931-978 | after any number of rounds each rejected port, and no other, is cleared, and the board refused it; where the hunt ends the choice is made from what is left and was accepted |
| ChargeMarket.OneRoundInPlainTerms | common/charge_manager.c:932-966 | the port and supplier in use are kept without asking the board; any other choice is up to it; in safe mode no port is no choice |
| ChargeMarket.ConnectedEnds | common/charge_manager.c:931-978 | with the battery connected the hunt ends whatever the board answers, within one round more than there are ports with an offer |
| ChargeMarket.OftenConnectedEnds | common/charge_manager.c:931-978 | it ends for every board when the battery keeps coming back |
| ChargeMarket.DisconnectedEndsIff | common/charge_manager.c:891-978 | from a round on in which the battery stays disconnected it ends if and only if charging is overridden, no port or no supplier is in use, the choice is what is in use, at once or without the offers of the active port, or the board accepts the active port |
| ChargeMarket.EveryBoardEndsIff | common/charge_manager.c:891-978 | with the battery disconnected it ends for every board if and only if one of these conditions holds of the table before the first round |
| ChargeManager.ChargeManager.ScanTable | common/charge_manager.c:820-890 | the nested loops, with the early end of a row, compute that scan |
| ChargeManager.ChargeManager.GetBestPort | common/charge_manager.c:798-910 | the method chooses what the specification chooses; without DPS, override and PD power nothing that can be taken has a better priority, or at the same one a higher current times voltage |
| ChargeManager.ChargeManager.FindSupplier | common/charge_manager.c:399-425 | the best usable supplier of a port by priority and by current times voltage; the one given is kept on a tie |
| ChargeManager.ChargeManager.GetCeil | common/charge_manager.c:728-744 | the least ceiling that is set, or none |
| ChargeManager.ChargeManager.Hunt | common/charge_manager.c:931-978 | for every board and battery, and however long it is followed, the loop does to the table what the specified rounds do |
| ChargeManager.ChargeManager.Currents | common/charge_manager.c:989-1020 | the current is the minimum of the offer, or what it may be ramped to, and every ceiling set, except in safe mode |
| ChargeManager.ChargeManager.Commit | common/charge_manager.c:980-1087 | an override that was not selected is cleared; the board knows the committed port, supplier and current; the port is asked for power again exactly when it or its offer changed |
| ChargeManager.ChargeManager.Refresh | common/charge_manager.c:916-1087 | a whole refresh from any state: the port is chosen from the table without the rejected ports and was accepted by the board; current, override, the early return in safe mode, the failed assertion and the read in front of the table; while the hunt goes on nothing else changes |
| ChargeManager.ChargeManager.RetainThenFault | common/charge_manager.c:891-909 | when all charge goes with the battery disconnected, one refresh commits the port without a supplier and the next reads in front of the table |
| Hooks.Notify | common/hooks.c:110-142 | whenever the loop ends it makes the calls of the first round count that reaches all hooks; with priorities in range each hook is called exactly once, by priority, in link order among equals |
| Hooks.AllCalledIff | common/hooks.c:126-142 | some round has called every hook once if and only if all priorities lie between FIRST and LAST + 1 |
| Hooks.EndsIff | common/hooks.c:126-142 | the outer loop ends if and only if every priority lies in range or some hook lies at LAST + 1 |
| Hooks.NeverCalled | common/hooks.c:129-131 | a hook with a priority out of range is never called |
| Hooks.NeverEnds | common/hooks.c:127 | with such a hook, and none at LAST + 1, the outer loop never ends |
| Button.Buttons.RunIrq | common/button.c:372-390 | with interrupts falling inside the handler: every pending one starts its debounce, which is full exactly when it came no later than the clock reading; the routine is armed no later than for the soonest of them plus the time the handler took |
| Button.Buttons.SampleDue | common/button.c:307-360 | with interrupts between the buttons: exactly the buttons that are due are sampled; the result is the soonest of the others |
| Button.Buttons.RunChange | common/button.c:300-367 | after the routine ran it is armed for the soonest button still waiting, plus the time until the call, and not at all when none waits |
| Button.Buttons.Run | common/button.c:300-407 | over every interleaving, also inside the routines, a pending debounce is armed, no interrupt is lost, and none is sampled earlier than its full debounce time less the longest time between a handler's clock reading and its taking of the interrupts |
| Button.EarlySample | common/button.c:374-388 | that bound is reached: an edge in between, with the routine already armed, is sampled early by exactly that time |
| Flash.IndexIsBoundary | common/flash.c:177-199 | the index of an offset is the bank that starts there, and -1 exactly when no bank boundary lies there |
| Flash.IndexOfStart | common/flash.c:211-229 | the index undoes the start offset, for every bank and the end of the flash |
| Flash.CountAdds | common/flash.c:201-209 | counts of adjacent ranges add up |
| Flash.StartIncreases | common/flash.c:211-229 | banks start one behind the other |
| Flash.SizeIsShift | common/flash.c:151-162 | a bank of exponent e has 1 << e bytes |
| Flash.BankSizeIs | common/flash.c:139-149 | a bank has the size of the region it lies in |
| Flash.CrecFlashBankSize | common/flash.c:139-162 | the size of the bank's region, -1 past the end |
| Flash.CrecFlashBankIndex | common/flash.c:177-199 | the loop over the regions computes the index |
| Flash.CrecFlashBankCount | common/flash.c:201-209 | the number of banks between two boundaries, -1 exactly when one is none |
| Flash.CrecFlashBankStartOffset | common/flash.c:211-229 | the start of a bank, -1 exactly out of range |
| ChargerBase.SmoothBetween | common/charger_base.c:241-249 | the smoothed value lies between the old and the new one, s/128 of the way up to rounding |
| ChargerBase.AllocatePower | common/charger_base.c:481-498 | the shares sum to the input power whatever the estimates are; with non-negative estimates the claims of base system, lid system, lid battery and base battery are served strictly in that order |
| ChargerBase.CurrentsFit | common/charger_base.c:503-504 | the truncated currents sum to at most the input current, and to at least two milliamperes less |
| ChargerBase.ToCurrents | common/charger_base.c:503-510 | the base current is the truncated share capped at 2000 mA and the excess goes to the lid |
| ChargerBase.Allocator.EstimateBattery | common/charger_base.c:440-465 | an estimate falls slowly, rises at once, and never passes what the battery asks for |
| ChargerBase.Allocator.Allocate | common/charger_base.c:425-516 | for every reading the powers follow the order of the claims, the currents fit the input and the cap, and the estimates stay in range for the next call |
| ChargerBase.Supplies.SetBaseLidCurrent | common/charger_base.c:165-235 | no point of the switch-over draws more than the larger of both ends, if and only if the recorded lid current does not put the rising side first; a stale record of the base never matters |
| ChargerBase.Supplies.SwitchOff | common/charger_base.c:347-357 | the base ends without power and asleep; no point draws more than before, under the same condition |
| ChargerBase.Supplies.Run | common/charger_base.c:134-235 | over every run of attaching, detaching, resets and switch-overs in which no charger call fails half-way, no switch-over draws more than both its ends |
| ChargerBase.Supplies.StaleLidOvershoots | common/charger_base.c:205-221 | a charge request that fails after the lid limit was set leaves a stale record, and the next switch-over between two totals of 2000 mA goes through 2800 mA |
| Chargesplash.Limiter.LogRequest | common/chargesplash.c:92-112 | the ring of the last requests decides as the whole history since the reset would |
| Chargesplash.Limiter.LockoutCanBeCleared | common/chargesplash.c:73-85 | the lockout clears exactly when no request lies within the period |
| Chargesplash.Limiter.ResetState | common/chargesplash.c:115-121 | a reset forgets history and lockout |
| Chargesplash.WindowLimit | common/chargesplash.c:87-112 | any window shorter than the period holds at most MAX_REQUESTS_PER_PERIOD permitted boots |
| Chargesplash.LockedOutUntilQuiet | common/chargesplash.c:73-102 | while locked out, a request is permitted exactly when it comes a full period after the previous one |
| Chargesplash.LockoutLasts | common/chargesplash.c:98-102 | as long as requests keep coming within the period, nothing is permitted |
| Chargesplash.LockoutStarts | common/chargesplash.c:104-107 | a lockout starts exactly with a request too soon after the one MAX_REQUESTS_PER_PERIOD places back |
| LineEditor.HandleKeepsValid | common/console.c:392-557 | after every character the text is printable, fits with its terminator, and holds the cursor |
| LineEditor.TypedText | common/console.c:532-555 | printable characters appear at the cursor in order, as far as there is room |
| LineEditor.TypedLine | common/console.c:441-464 | a typed line is executed as typed and kept in history |
| LineEditor.LineEndings | common/console.c:394-403 | CR, LF and CR LF end a line alike |
| LineEditor.InsertThenBackspace | common/console.c:293-316 | backspace takes back an insertion |
| LineEditor.BackspaceThenInsert | common/console.c:293-316 | retyping the character takes back a backspace |
| LineEditor.EscapeNeverTyped | common/console.c:405-413 | no byte of an escape sequence enters the text or executes a line |
| LineEditor.KeySequence | common/console.c:324-390 | each complete sequence acts as its key, both of End included, in whatever state it starts |
| LineEditor.OnlyTheseSequences | common/console.c:324-390 | a key comes out only where one of these sequences ends |
| LineEditor.CursorKeys | common/console.c:466-484 | the bytes of Home, both of End, Left and Right move the cursor and change nothing else |
| LineEditor.OtherKeys | common/console.c:416-528 | the bytes of Del take out the character at the cursor; those of Up and Down show the line one slot back and on, round the ring, keeping the line in progress |
| LineEditor.CursorControls | common/console.c:466-484 | Ctrl-A, B, E and F move the cursor to the beginning, back, to the end and on |
| LineEditor.ErasingControls | common/console.c:424-495 | backspace and 0x7F take out the character in front of the cursor, Ctrl-K everything behind it, Ctrl-C the line |
| LineEditor.HistoryControls | common/console.c:506-528 | Ctrl-P and Ctrl-N show the line one slot back and on |
| LineEditor.OtherCharacters | common/console.c:441-555 | a line end hands out and keeps the line; a printable character goes in at the cursor while there is room; any other character does nothing |
| LineEditor.BadIsSwallowed | common/console.c:383-389 | an unknown sequence is swallowed up to the letter or tilde that ends it, line ends included |
| LineEditor.UnknownSequence | common/console.c:383-389 | whatever is no part of a known sequence makes it unknown, which a letter or a tilde ends |
| LineEditor.ThereAndBack | common/console.c:506-528 | going back in history and forth as far brings back the line in progress |
| LineEditor.Recall | common/console.c:441-528 | after any lines were typed, n times Up shows the n-th last of them as far as the ring reaches, and each Down from there one later, down to the empty line in progress |
| Console.Console.HandleBackspace | common/console.c:293-316 | the buffer holds the text without the character before the cursor |
| Console.Console.InsertChar | common/console.c:532-555 | the buffer holds the text with the character at the cursor, unless the line is full |
| Console.Console.LoadHistory | common/console.c:264-280 | the buffer holds the history line, the cursor at its end |
| Console.Console.Browse | common/console.c:506-528 | one step through history, keeping the line in progress |
| Console.Console.EndLine | common/console.c:441-464 | the line is handed out and saved, the buffer empty |
| Console.Console.HandleChar | common/console.c:392-557 | for every character the NUL-terminated buffer and the state are those of the line editor |
| BluetoothLe.RemappingTable.FillRemappingTable | common/bluetooth_le.c:53-66 | the table is the ascending list of used channels |
| BluetoothLe.UsedListUnique | common/bluetooth_le.c:62-64 | there is one such list only |
| BluetoothLe.UsedIsBit | common/bluetooth_le.c:62-64 | channel 8 i + k is bit k of byte i of the map, the lowest first |
| BluetoothLe.RemappingTable.GetNextDataChannel | common/bluetooth_le.c:69-81 | every channel returned is a used one: the hop's own, or its place in the list; the division by zero is reached exactly when the map uses no channel |
| BluetoothLe.EachChannelOnce | common/bluetooth_le.c:71-72 | any 37 consecutive hops with an increment of 5 to 16 visit each unmapped channel exactly once |
| BluetoothLe.HopReaches | common/btle_ll.c:304-309 | which hop reaches a given channel, by the inverse of the increment |
| Sustainer.Setting.Set | common/charge_state.c:189-218 | a band is accepted exactly when 0 <= lower <= upper <= 100 and the charger can discharge on AC; a failure changes nothing |
| Sustainer.ComesToRest | common/charge_state.c:854-941 | without load, from any charge and mode the battery idles inside the band within 102 steps and stays there |
| Sustainer.ComesNear | common/charge_state.c:919-935 | without load and without idling it comes to the band, or one percent below, by one percent a step |
| Sustainer.ComesNearUnderLoad | common/charge_state.c:854-941 | with or without idling and under every pattern of loads it is within the band, or one percent below, after at most 100 steps |
| Sustainer.NearBandUnderLoad | common/charge_state.c:902-918 | once there it stays, under every pattern of loads |
| Sustainer.BandKeptIff | common/charge_state.c:854-941 | the band itself is kept by a step without load if and only if idling is allowed or the lower end is zero, and by a step with load if and only if the lower end is zero |
| Sustainer.NeverIdles | common/charge_state.c:893-935 | where idling is not allowed a battery that is charged or discharged never comes to idle |
| Sustainer.ChargesToTop | common/charge_state.c:884-901 | charging goes on through the band up to its upper end, where the battery idles, or is discharged where idling is not allowed |
| Sustainer.DischargesDown | common/charge_state.c:919-935 | discharging goes on down to the upper end, where the battery idles; where idling is not allowed, down to one percent below the band, from where it is charged |
| Sustainer.IdlesInside | common/charge_state.c:902-918 | idling goes on inside the band only |
| Sustainer.Cycle | common/charge_state.c:884-935 | without idling the charge goes up and down for ever between one percent below the band and its upper end |

## Left out

- Memory.Memmove: it is correct for all but the one overlap of RunsAwayIff, which it requires away; of that one only the endless loop is stated, not what it overwrites.
- Base32.Encode: bit counts are unbounded naturals; the overflow of `srclen_bits + 4` is not modelled.
- Cec.RxQueue.Push: the queue is one task's; a flush by the receiver between two steps of a pop is not modelled.
- Cbi.BoardInfo.RunLocked: what follows a torn write, or a cache overwritten with bytes that no entries stand behind.
- Cbi.BoardInfo.Append: every entry has at least one value byte, as everything this code writes has; images by other tools with empty entries are not modelled.
- Cbi.BoardInfo.CommonSet: EEPROM storage; the check of the packet size (lines 377-387), the GPIO storage that skips the CRC, the flash driver and the board override hook are not modelled.
- Cbi.BoardInfo.EepromWrite: after a torn write nothing is said about an image whose CRC happens to match.
- ChargeManager.ChargeManager.Hunt: no other task changes the table, the DPS port or the PDC power during a refresh.
- ChargeManager.ChargeManager.Refresh: default current limit 0, the board's answer to a limit, logs, and what the tasks of the ports do with a signal.
- ChargerBase.Allocator.Allocate: the charging path with a connected base; the fixed currents of the discharging paths, manual control and 32-bit overflow of power products are not modelled.
- ChargerBase.Supplies.SetBaseLidCurrent: the bound is about non-negative currents; currents from base to lid or lid to base on battery are carried through without one. A base draws nothing until it is told a current after it attached or woke.
- BodyDetection.BodyDetector.Reset: samples are 16 bits and the window at most 250; the overflow of the int sum of threshold and noise is not modelled.
- Gesture.TapHistory.AddSample: the detection state machine behind the sums is not modelled.
- Button.Buttons.Run: how late a debounce may be sampled; a bounce on another button can push it back, so only that it stays armed is stated. Buttons are not disabled or reassigned at run time.
- Chargesplash.Limiter.LogRequest: seconds are a positive, nondecreasing clock; the 32-bit wrap is not modelled.
- Console.Console.HandleChar: echoing, command parsing and execution; the bytes of a history row behind its terminator.
- Flash.CrecFlashBankIndex: products of counts and sizes do not overflow an int.
- Sustainer.ComesToRest: a mode change always succeeds, and the charge moves by one percent a step.
- Sustainer.Setting.Set: the host command that sets the NO_IDLE flag is not modelled.
- `strstr`, the event log payload, the wake-on-voice ring and the advertisement packing are not modelled: the usual specification does not hold of them.
- Drivers, registers, the USB PD stack, host commands, printing and safe-mode sleeps are not modelled.
