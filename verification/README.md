# Siliqua: a verified model

Siliqua is a small proof-of-work chain built on parts of the Crypto++ library and on picosha2. This
project models the algorithms that the chain depends on and proves what they promise:

- **Scalar multiplication in an abstract group** (`Powers`, `Groups`, `WindowSlider`,
  `SimultaneousMultiply`, `CascadeMultiply`, `GeneralCascade`, `Euclid`): signed sliding windows with
  buckets, double multiplication over a partly filled table, the reduction over a heap, and Euclid's
  algorithm. Each is proved equal to its one-line specification, in any group (abelian where two bases
  meet).
- **Buffered filters** (`BlockQueue`, `BufferedInput`, `Padding`, `StreamFilter`): a stream of writes is
  re-cut into first, middle and last pieces through a ring buffer; a block cipher with padding runs on
  top. Every division of a message into writes gives the same result, and decryption undoes encryption.
- **The byte queue** (`ByteQueue`): linked, partly read and partly filled buffers and a string that is
  not copied until it must be, as one byte string.
- **Digit encoders** (`BitStrings`, `BaseN`, `BaseNFilters`, `BaseNDecoder`, `BaseNRoundTrip`): bits are
  repacked into digits of one to seven bits and back.
- **Hashing** (`BitWords`, `BlockHashing`, `Sha256`, `Sha256Standard`, `Sha256Stream`, `IteratedHash`): the
  SHA-256 compression of FIPS 180-4 computed in wide words, with its constants, word functions and rounds
  tied to what the standard says of them, and two incremental drivers (buffering, counting, padding)
  against a fold over the padded message.
- **The chain core** (`Serializer`, `Transactions`, `Merkle`, `Blocks`, `ProofOfWork`, `Retarget`):
  canonical binary formats, the Merkle commitment, compact targets, the nonce search and the difficulty
  adjustment.

Code that changes things in place is modelled by classes and methods over arrays with loops; each is
proved against a function of its inputs, about which the lemmas speak. Ghost fields record what an object
stands for (the message so far, the digits to come, the contents of each node). `Divisibility`, `Bytes`
and `Wrappers` hold what several modules share. A cipher, a compression function, the double SHA-256 of
the chain and the group operations are parameters of which only the stated laws are assumed.

Where the code does not do what it is documented or expected to do, the exact condition is proved:

- `MultiplicativeInverse` tests for zero modulo m, so an argument of size m or more stops the loop
  early. The result is right if and only if the argument is smaller than m in size, or the modulus is one,
  or there is no inverse.
- The overflow test of the iterated hashes misses additions in which the length fills the high word and
  the low word carries (`Missed`). This is a fact about the counter and not a reachable failure: it takes
  a single buffer of at least 2^64 - 2^32 bytes.
- The byte counter of picosha2 loses a piece whose length overflows a 32-bit word (`Counts`). Data that is
  read through a buffer never does, because the size of the buffer is an int.
- The walker's position leaves out the bytes of the lazy string, so it announces those that it has read
  again (`MaxRetrievable`).
- The Merkle root does not bind the number of leaves. Whatever the hash, lists of any two lengths can share
  a root (`AnyTwoCounts`); two lists share it if and only if their completed trees agree, up to a collision
  at one place of the two (`SameRootExactly`). A block with three transactions, say, and the block with its
  last transaction repeated have the same hash, and if one passes `IsValid` so does the other
  (`RepeatedTransactions`). With equally many leaves the root binds them (`Binding`).
- The retargeted mantissa loses its 24th bit when it does not fit 23 bits. The target then falls to less
  than half of what it should be, and to zero if nothing else is left of the mantissa (`ZeroExactly`): at
  0x1d008000, after a period of exactly the intended length, no hash above zero passes any more
  (`LostWithoutCause`). The clamp to a quarter of the timespan is exact only for timespans divisible by four.
  With an exponent below three the target is its value rounded down, so that it can rise more than fourfold
  (`RatioExactly`), and a target that is zero because of the sign bit or the exponent can become positive
  (`RatioOfZeroTarget`).

W3C unpadding looks only at the last byte. XML Encryption leaves the other padding bytes free, so this is
what it asks for; the blocks that are accepted without having been padded by this code are characterised
too.

## Model

| member | source | states |
|---|---|---|
| `WindowSliders.RecodeValue` | Siliqua/include/cryptopp/algebra.cpp:220-247 | the signed digits that the slider produces for an exponent add up to the exponent, for every width and both settings of fast negation |
| `WindowSliders.RecodeShape` | Siliqua/include/cryptopp/algebra.cpp:235-246 | every digit is odd and below 2^w in size, negative only where negation is fast, and positions are at least w apart |
| `WindowSliders.RecodeRules` | Siliqua/include/cryptopp/algebra.cpp:220-247 | which digits: none at a clear bit, and at a set bit the window or, where negation is fast and the bit behind it is set, the window less 2^w with a carry |
| `WindowSliders.WindowWidths` | Siliqua/include/cryptopp/algebra.cpp:212-216 | up to which length of the exponent each width from 1 to 7 is picked |
| `WindowSliders.RestIsSmaller` | Siliqua/include/cryptopp/algebra.cpp:239-244 | the rest of the exponent shrinks although the negate branch adds to it, so the slider comes to its end |
| `WindowSliders.WindowSlider.constructor` | Siliqua/include/cryptopp/algebra.cpp:208-218 | picks the width from the bit count and starts before the first digit of the recoding |
| `WindowSliders.WindowSlider.FindNextWindow` | Siliqua/include/cryptopp/algebra.cpp:220-247 | moves to exactly the next digit of the recoding; finished exactly when no digit is left |
| `SimultaneousMultiplication.WeightedFromSuffixes` | Siliqua/include/cryptopp/algebra.cpp:302-312 | the running sums of the final loop give the sum of (2j+1) times bucket j |
| `SimultaneousMultiplication.CombineBuckets` | Siliqua/include/cryptopp/algebra.cpp:299-313 | the buckets of one exponent are combined to the sum of (2j+1) times their multiples of the base |
| `SimultaneousMultiplication.Deposit` | Siliqua/include/cryptopp/algebra.cpp:280-287 | adding a window to its bucket moves exactly the value of the digit from the exponent's rest to the buckets |
| `SimultaneousMultiplication.TakeWindow` | Siliqua/include/cryptopp/algebra.cpp:280-288 | serves a window at its bit position, in the bucket of half its size, which exists, with or without negation |
| `SimultaneousMultiplication.ServeAll` | Siliqua/include/cryptopp/algebra.cpp:271-297 | the doubling loop ends, and then every exponent has been moved into its buckets |
| `SimultaneousMultiplication.SimultaneousMultiply` | Siliqua/include/cryptopp/algebra.cpp:255-314 | returns exponent times base for every exponent in the list, in any group, whether or not inversion is fast |
| `SimultaneousMultiplication.ScalarMultiply` | Siliqua/include/cryptopp/algebra.cpp:90-95 | returns exponent times base |
| `Groups.IntegerMultiples` | Siliqua/include/cryptopp/algebra.cpp:90-95 | what a multiple is, for one: in the group of the integers it is the product |
| `CascadeMultiplication.FillTable` | Siliqua/include/cryptopp/algebra.cpp:103-129 | for each window width every table entry that a window can select is filled with i·x + j·y |
| `CascadeMultiplication.FilledEntry` | Siliqua/include/cryptopp/algebra.cpp:103-129 | the entry for i·x + j·y stands at row j and column i, in the operations of the group |
| `CascadeMultiplication.HalveTogether` | Siliqua/include/cryptopp/algebra.cpp:145-151 | taking common factors of two out of both multipliers moves squarings from before to after, and their number before never underflows |
| `CascadeMultiplication.ApplyWindow` | Siliqua/include/cryptopp/algebra.cpp:142-166 | one window turns the combination of the exponents' prefixes up to the previous window into that of their prefixes up to this one |
| `CascadeMultiplication.CascadeScalarMultiply` | Siliqua/include/cryptopp/algebra.cpp:97-170 | returns e1·x + e2·y in any abelian group, for all exponents |
| `GeneralCascade.SumPermutation` | Siliqua/include/cryptopp/algebra.cpp:184-185 | the sum of exponent times base does not depend on the order of the pairs, so the heap may rearrange them |
| `GeneralCascade.SumIs` | Siliqua/include/cryptopp/algebra.cpp:172-204 | the sum in the operations of the group: exponent times base of the first pair, added to the sum of the others |
| `GeneralCascade.ReductionKeepsSum` | Siliqua/include/cryptopp/algebra.cpp:190-196 | a step of the loop keeps the sum of exponent times base and strictly lowers the total of the exponents |
| `GeneralCascade.ReducedEnds` | Siliqua/include/cryptopp/algebra.cpp:190-196 | the first base gains the quotient times the last base, the last exponent becomes the remainder, and nothing else changes |
| `GeneralCascade.OnlyLastLeft` | Siliqua/include/cryptopp/algebra.cpp:187-202 | when the next largest exponent is zero all exponents but the last are zero, and the last pair alone is the sum |
| `GeneralCascade.Reduce` | Siliqua/include/cryptopp/algebra.cpp:190-196 | one in-place step: quotient into the first base, remainder into the last exponent, with the shortcut for quotient one |
| `GeneralCascade.GeneralCascadeMultiplication` | Siliqua/include/cryptopp/algebra.cpp:172-204 | returns the sum of exponent times base over one or more pairs and leaves all exponents but the last zero |
| `Euclid.Gcd` | Siliqua/include/cryptopp/algebra.cpp:56-68 | terminates; the divisors of the result are exactly the common divisors of the arguments |
| `Euclid.Continue` | Siliqua/include/cryptopp/algebra.cpp:77-85 | a step of the extended loop keeps the Bezout relations, the common divisors and, for reduced arguments, the bounds on the multipliers |
| `Euclid.Exit` | Siliqua/include/cryptopp/algebra.cpp:87 | what is returned at the end of the loop is the inverse exactly under the condition stated for the method, and at most m in size for 0 <= a < m |
| `Euclid.MultiplicativeInverse` | Siliqua/include/cryptopp/algebra.cpp:70-88 | terminates for every a; the result is the inverse modulo m (zero if there is none) if and only if |a| < m, or m is one, or a has no inverse; for 0 <= a < m its size is at most m |
| `Euclid.CoprimeMeans` | Siliqua/include/cryptopp/algebra.cpp:70-88 | what an inverse is, in remainders: a·v - 1 is a multiple of m, or zero if a and m have a common divisor above one |
| `Euclid.UnreducedExample` | Siliqua/include/cryptopp/algebra.cpp:77-87 | an argument outside the reduced range for which the result is wrong: 3 modulo 2 |
| `BlockQueues.RingAppend` | Siliqua/include/cryptopp/filters.cpp:297-310 | writing at the computed end, in two parts where it goes round, appends to the ring |
| `BlockQueues.RingAt` | Siliqua/include/cryptopp/filters.cpp:258-310 | byte i of the queue stands i places behind its beginning, going round at the end of the buffer |
| `BlockQueues.BlockQueue.ResetQueue` | Siliqua/include/cryptopp/filters.cpp:249-256 | an empty queue of the given blocks |
| `BlockQueues.BlockQueue.GetBlock` | Siliqua/include/cryptopp/filters.cpp:258-270 | removes exactly the first block, which is contiguous, or nothing if there is less than a block |
| `BlockQueues.BlockQueue.GetContigousBlocks` | Siliqua/include/cryptopp/filters.cpp:272-281 | removes a prefix: as much as is wanted, held and contiguous |
| `BlockQueues.BlockQueue.GetAll` | Siliqua/include/cryptopp/filters.cpp:283-295 | returns everything in order and empties the queue |
| `BlockQueues.BlockQueue.Put` | Siliqua/include/cryptopp/filters.cpp:297-310 | appends, in place, going round at the end of the buffer |
| `BufferedInputs.Capacity` | Siliqua/include/cryptopp/filters.cpp:362 | the ring buffer sized (2B+L-2)/B blocks holds all that is ever kept, so it is never over-filled |
| `BufferedInputs.KeptOver` | Siliqua/include/cryptopp/filters.cpp:369-417 | the number of bytes kept back depends on how many have arrived, not on how they were divided |
| `BufferedInputs.DocumentedRule` | Siliqua/include/cryptopp/filters.h:392-414 | the length of the last piece obeys the documented rule, and there are middle pieces exactly from first + block + last bytes on |
| `BufferedInputs.SameDelivery` | Siliqua/include/cryptopp/filters.cpp:347-436 | two deliveries of one message have the same first piece, the same bytes between, and the same last piece |
| `BufferedInputs.EverythingDelivered` | Siliqua/include/cryptopp/filters.cpp:347-436 | what is handed on, put together, is the message: the first piece, non-empty middle pieces of whole blocks, and the last piece |
| `BufferedInputs.KeptLeavesBlocks` | Siliqua/include/cryptopp/filters.cpp:369-417 | what is kept back leaves whole blocks and is all, or at least what the last piece needs and less than a block more |
| `BufferedInputs.BufferedInput.PutFirst` | Siliqua/include/cryptopp/filters.cpp:356-367 | the first piece is the first firstSize bytes, passed on once |
| `BufferedInputs.BufferedInput.PutBytewise` | Siliqua/include/cryptopp/filters.cpp:371-388 | for a block size of one all but the last bytes leave, in order, first from the queue |
| `BufferedInputs.BufferedInput.PutBlockwise` | Siliqua/include/cryptopp/filters.cpp:389-414 | for longer blocks only whole blocks leave, in order, and as many as leave what the last piece needs |
| `BufferedInputs.BufferedInput.PutMiddle` | Siliqua/include/cryptopp/filters.cpp:369-417 | after any write exactly the determined number of bytes is kept, and everything before has been handed on |
| `BufferedInputs.BufferedInput.PutData` | Siliqua/include/cryptopp/filters.cpp:352-418 | the data part of a write keeps the invariant: what was handed on, then what is queued, is the message so far |
| `BufferedInputs.BufferedInput.Drain` | Siliqua/include/cryptopp/filters.cpp:420-427 | the end of a message delivers everything before the last piece and the last piece, and leaves the queue empty |
| `BufferedInputs.BufferedInput.EndMessage` | Siliqua/include/cryptopp/filters.cpp:420-434 | the end of a message delivers the last piece and restores the initial state |
| `BufferedInputs.BufferedInput.Put` | Siliqua/include/cryptopp/filters.cpp:347-436 | a write with or without the end of the message, as above |
| `BufferedInputs.PutMessage` | Siliqua/include/cryptopp/filters.cpp:347-436 | however a message is cut into writes, it is delivered by the one rule, nothing lost, doubled or reordered |
| `Paddings.Pad` | Siliqua/include/cryptopp/filters.cpp:791-811 | completes the last block in place by PKCS (section 6.3 of RFC 5652), W3C or one-and-zeros padding |
| `Paddings.PaddedBytes` | Siliqua/include/cryptopp/filters.cpp:791-811 | the completed block byte by byte: the count in every padding byte for PKCS, in the last one for W3C, and 0x80 before zeros for one-and-zeros |
| `Paddings.PaddedIsAccepted` | Siliqua/include/cryptopp/filters.cpp:791-840 | what was padded is accepted as what it was, for all three schemes |
| `Paddings.AcceptedOnce` | Siliqua/include/cryptopp/filters.cpp:820-840 | a block is accepted as at most one text |
| `Paddings.AcceptedBytes` | Siliqua/include/cryptopp/filters.cpp:820-840 | what is accepted, byte by byte, for each of the three schemes |
| `Paddings.Unpad` | Siliqua/include/cryptopp/filters.cpp:820-840 | returns a text exactly for the blocks that are accepted; for PKCS and one-and-zeros these are exactly the padded ones |
| `Paddings.W3cAcceptsCounts` | Siliqua/include/cryptopp/filters.cpp:827-833 | W3C padding is accepted if and only if its last byte is a possible count |
| `Paddings.W3cAcceptsMore` | Siliqua/include/cryptopp/filters.cpp:827-833 | a block that is accepted as a text of which it is not the padding |
| `StreamFilters.ProcessConcat` | Siliqua/include/cryptopp/filters.cpp:663-687 | processing in portions of whole blocks is processing at once |
| `StreamFilters.OneBlock` | Siliqua/include/cryptopp/filters.cpp:681 | one block is processed by exactly one transformation of the mode, from its state to its next state |
| `StreamFilters.BlockByBlock` | Siliqua/include/cryptopp/filters.cpp:663-687 | the output and the states block by block: each is what the transformation of the mode makes of the state before and the block at that place |
| `StreamFilters.PaddedMessageBytes` | Siliqua/include/cryptopp/filters.cpp:791-811 | the padded message is the message and one to B bytes of padding, whole blocks in all, with every padding byte stated |
| `StreamFilters.EncryptedBlocks` | Siliqua/include/cryptopp/filters.cpp:663-694 | encryption in terms of the mode: each block of the output is the transformation of the block of the padded message in the state reached before it |
| `StreamFilters.DecryptedBlocks` | Siliqua/include/cryptopp/filters.cpp:663-694 | decryption in terms of the mode: the transformed blocks without the padding of the last one |
| `StreamFilters.RefusedExactly` | Siliqua/include/cryptopp/filters.cpp:813-840 | a text is refused if and only if it is not whole blocks, or its last block after decryption is not a padded one |
| `StreamFilters.KeptBack` | Siliqua/include/cryptopp/filters.cpp:362-417 | what a decrypting filter keeps back of a text: its last bytes, one block or more but less than two, or all of it |
| `StreamFilters.StreamFilter.CreatePutSpace` | Siliqua/include/cryptopp/filters.h:187-203 | the space is what the attached object offers if that is enough, or else the filter's own, which once made is used from then on |
| `StreamFilters.StreamFilter.FirstPut` | Siliqua/include/cryptopp/filters.cpp:656-661 | an optimal size of at most 4096 becomes the largest multiple of it up to 4096, a larger one stays; the processed data is unaffected |
| `StreamFilters.StreamFilter.Portion` | Siliqua/include/cryptopp/filters.cpp:669-680 | a portion is everything if there is space for it, and otherwise the largest number of whole blocks that fits, less what is used of the first optimal block |
| `StreamFilters.StreamFilter.NextPut` | Siliqua/include/cryptopp/filters.cpp:663-687 | whatever space is offered and however much of an optimal block is used, a middle piece is processed in portions of whole blocks and all of it reaches the sink |
| `StreamFilters.StreamFilter.LastEncrypt` | Siliqua/include/cryptopp/filters.cpp:791-814 | the last piece is completed to a block and encrypted |
| `StreamFilters.StreamFilter.LastDecrypt` | Siliqua/include/cryptopp/filters.cpp:815-842 | the last piece must be one block; its padding is removed, or the text is refused exactly when it does not decrypt |
| `StreamFilters.StreamFilter.Put` | Siliqua/include/cryptopp/filters.cpp:347-436 | at the end of a message the sink has received its encryption, or the plain text it decrypts to, and the next message starts afresh; when a text is refused the sink has received exactly the blocks before the last piece, the cipher has gone through all whole pieces, and the queue is empty but not reset |
| `StreamFilters.PutMessage` | Siliqua/include/cryptopp/filters.cpp:622-694 | a whole message, cut into writes in any way, comes out encrypted or decrypted as if processed at once; block by block, what an encrypting filter sends to the sink is what the transformation of the mode makes of the padded message |
| `StreamFilters.DecryptsOnce` | Siliqua/include/cryptopp/filters.cpp:815-842 | a text decrypts to at most one message |
| `StreamFilters.RoundTrip` | Siliqua/include/cryptopp/filters.cpp:783-842 | what was encrypted decrypts to the original message, in the same cipher state, and to nothing else |
| `StreamFilters.Transmit` | Siliqua/include/cryptopp/filters.cpp:622-693 | end to end: encrypted in any writes and decrypted in any other writes, a message arrives as it was |
| `ByteQueues.Node.Put` | Siliqua/include/cryptopp/queue.cpp:47-56 | appends as much as fits |
| `ByteQueues.Node.TransferTo` | Siliqua/include/cryptopp/queue.cpp:110-116 | removes up to the given number of bytes |
| `ByteQueues.ByteQueue.constructor` | Siliqua/include/cryptopp/queue.cpp:138-154 | an empty queue of one node |
| `ByteQueues.ByteQueue.HeldInNodes` | Siliqua/include/cryptopp/queue.cpp:200-208 | what a valid queue holds: the unread parts of the buffers along the links from the head to the tail, and the lazy string |
| `ByteQueues.ByteQueue.Put2` | Siliqua/include/cryptopp/queue.cpp:229-254 | appends, behind the lazy string if there is one, over as many nodes as it takes |
| `ByteQueues.ByteQueue.GrowNodeSize` | Siliqua/include/cryptopp/queue.cpp:240-247 | an automatic node size below its limit is doubled the least number of times, at least once, until it reaches the length or the limit; any other stays |
| `ByteQueues.ByteQueue.CleanupUsedNodes` | Siliqua/include/cryptopp/queue.cpp:256-269 | restores the invariant (nodes before the last are full, those behind the first are unread, the first is not used up) without changing the contents |
| `ByteQueues.ByteQueue.LazyPut` | Siliqua/include/cryptopp/queue.cpp:271-293 | appends without copying |
| `ByteQueues.ByteQueue.LazyPutInPlace` | Siliqua/include/cryptopp/queue.cpp:276-277 | a string that already lies behind the contents of the last node becomes part of them |
| `ByteQueues.ByteQueue.UndoLazyPut` | Siliqua/include/cryptopp/queue.cpp:295-301 | takes exactly the given number of bytes off the end, or is refused if they are not in the lazy string |
| `ByteQueues.ByteQueue.FinalizeLazyPut` | Siliqua/include/cryptopp/queue.cpp:303-309 | copies the lazy string; the contents stay the same |
| `ByteQueues.ByteQueue.Get` | Siliqua/include/cryptopp/queue.cpp:311-327 | removes and returns the first byte, if there is one |
| `ByteQueues.ByteQueue.TransferTo2` | Siliqua/include/cryptopp/queue.cpp:354-379 | removes a prefix of exactly the wanted length, or everything |
| `ByteQueues.ByteQueue.Unget` | Siliqua/include/cryptopp/queue.cpp:405-422 | prepends, reusing the room before the first unread byte |
| `ByteQueues.ByteQueue.CreatePutSpace` | Siliqua/include/cryptopp/queue.cpp:436-454 | offers room directly behind the contents, which stay the same: what is left of the last node, or a new node of the larger of the node size and what is wanted |
| `ByteQueues.ByteQueue.Clear` | Siliqua/include/cryptopp/queue.cpp:215-227 | forgets everything and keeps the first node |
| `ByteQueues.ByteQueue.IsEmptyIsExact` | Siliqua/include/cryptopp/queue.cpp:210-213 | the test of the first node and the lazy string alone is true exactly if the queue holds nothing |
| `ByteQueues.ByteQueue.CurrentSize` | Siliqua/include/cryptopp/queue.cpp:200-208 | the number of bytes held |
| `ByteQueues.ByteQueue.At` | Siliqua/include/cryptopp/queue.cpp:480-492 | the byte at a position, without changing the queue |
| `ByteQueues.Walker.constructor` | Siliqua/include/cryptopp/queue.cpp:507-516 | starts at the first byte |
| `ByteQueues.Walker.TransferTo2` | Siliqua/include/cryptopp/queue.cpp:542-586 | returns exactly the bytes from the current place on, and changes only the walker |
| `ByteQueues.Walker.Get` | Siliqua/include/cryptopp/queue.cpp:518-522 | the next byte, or none exactly at the end |
| `ByteQueues.Walker.PositionRule` | Siliqua/include/cryptopp/queue.cpp:552-582 | the recorded position counts the bytes read from nodes and leaves out those of the lazy string |
| `ByteQueues.Walker.MaxRetrievable` | Siliqua/include/cryptopp/queue.h:175-176 | announces what is left and once more the bytes already read from the lazy string, so it is right if and only if there are none |
| `ByteQueues.ReadLazyString` | Siliqua/include/cryptopp/queue.cpp:571-582 | an example: after the one byte of a lazy string is read the position is still zero and one byte is announced, but none comes |
| `ByteQueues.CopyRangeTo2` | Siliqua/include/cryptopp/queue.cpp:389-398 | copies the bytes from begin to end and moves begin to end; a range that ends beyond the contents ends with them, one that begins beyond them is empty, and one that ends before it begins wraps around 64 bits |
| `BaseN.FindOutputBlockSize` | Siliqua/include/cryptopp/basecode.cpp:18-37 | terminates; widths outside 1 to 7 are refused; otherwise the block has lcm(8,w)/w digits |
| `BaseN.FindDecodedBlockSize` | Siliqua/include/cryptopp/basecode.cpp:111-122 | terminates; widths outside 1 to 7 are refused; otherwise the block has lcm(8,w)/8 bytes |
| `BaseN.OutputBlockIsLeast` | Siliqua/include/cryptopp/basecode.cpp:32-35 | the block is the least number of digits that makes whole bytes |
| `BaseN.DecodedBlockIsLeast` | Siliqua/include/cryptopp/basecode.cpp:117-120 | the block is the least number of bytes that makes whole digits |
| `BaseN.DigitCount` | Siliqua/include/cryptopp/basecode.cpp:40-105 | a message of n bytes has the least number of digits that holds 8n bits |
| `BaseN.DigitBits` | Siliqua/include/cryptopp/basecode.cpp:48-71 | bit i of digit k is bit w·k + i of the message, most significant first, or zero behind its end |
| `BaseN.EncodedLetters` | Siliqua/include/cryptopp/basecode.cpp:73-103 | the encoding letter by letter: the letters of the digits, and then, if there is a padding letter, as few of it as make whole blocks |
| `BaseN.DecodedEncoded` | Siliqua/include/cryptopp/basecode.cpp:40-168 | decoding what was encoded gives the message back, for every width, with a padding letter that has no digit or without |
| `BitStrings.WriteBits` | Siliqua/include/cryptopp/basecode.cpp:54 | or-ing shifted bits onto a field whose remaining bits are clear appends exactly those bits |
| `BaseNFilters.PackedWrite` | Siliqua/include/cryptopp/basecode.cpp:50-70 | writing within one field of a block keeps the block equal to the bits written so far |
| `BaseNFilters.Encoder.PackByte` | Siliqua/include/cryptopp/basecode.cpp:48-71 | the inner loop appends the eight bits of a byte, however they fall into letters, inside the block |
| `BaseNFilters.Encoder.PutByte` | Siliqua/include/cryptopp/basecode.cpp:43-86 | one byte of input; a full block leaves as letters |
| `BaseNFilters.Encoder.EndMessage` | Siliqua/include/cryptopp/basecode.cpp:87-103 | the last digits, completed by zero bits, and padding up to the end of the block: together the encoding of the message |
| `BaseNFilters.Encoder.Put2` | Siliqua/include/cryptopp/basecode.cpp:40-105 | for any division into writes the output grows by the encoding of the message |
| `BaseNDecoders.PackedOr` | Siliqua/include/cryptopp/basecode.cpp:142-148 | or-ing a byte onto the block lays its first bits over those of the byte that has been begun and appends the others |
| `BaseNDecoders.Decoder.PackDigit` | Siliqua/include/cryptopp/basecode.cpp:140-155 | whatever the table holds, the low bits of a value are appended, over one byte or two, and what exceeds the width is laid over the bits of the byte that has been begun |
| `BaseNDecoders.Decoder.PutLetter` | Siliqua/include/cryptopp/basecode.cpp:128-161 | one letter of input, with any table; letters without a digit are skipped, a full block leaves |
| `BaseNDecoders.Decoder.Put2` | Siliqua/include/cryptopp/basecode.cpp:125-168 | for any table and any division into writes the output grows by the whole bytes of the values laid behind one another, and an incomplete last byte is dropped |
| `BaseNDecoders.FittingDigits` | Siliqua/include/cryptopp/basecode.cpp:140-148 | values that fit the width do not overlap, so then this is the decoding of the digits |
| `BaseNDecoders.BehindBits` | Siliqua/include/cryptopp/basecode.cpp:140-148 | how a value is laid behind the bits before it, bit by bit: the excess over the width falls onto the byte that is not full |
| `BaseNRoundTrip.InitializeDecodingLookupArray` | Siliqua/include/cryptopp/basecode.cpp:170-189 | every byte is mapped to the last letter that it is read as, with or without regard to case, and all others to -1 |
| `BaseNRoundTrip.LastIndexExactly` | Siliqua/include/cryptopp/basecode.cpp:176-188 | the table entry of a byte is the greatest index of a letter that it is read as, and -1 if there is none |
| `BaseNRoundTrip.ReadAsExactly` | Siliqua/include/cryptopp/basecode.cpp:179-183 | a byte is read as a letter if it is that letter or, without regard to case, the same ASCII letter 32 below or above |
| `BaseNRoundTrip.TableInverts` | Siliqua/include/cryptopp/basecode.cpp:170-189 | for distinct letters the table inverts the alphabet |
| `BaseNRoundTrip.CaseBlind` | Siliqua/include/cryptopp/basecode.cpp:179-183 | without regard to case a letter is read alike in either case |
| `BaseNRoundTrip.Transmit` | Siliqua/include/cryptopp/basecode.cpp:40-168 | end to end: encoded in any writes and decoded in any other writes, a message arrives as it was |
| `Sha256.LateMask` | Siliqua/include/picosha2.h:104-105 | masking once after additions that wrap at the word width is adding modulo 2^32 throughout |
| `Sha256.RoundAgrees` | Siliqua/include/picosha2.h:117-129 | a round in the wide word type, with unmasked temporaries, is the round of section 6.2.2 of FIPS 180-4, and all eight variables stay below 2^32 |
| `Sha256.FillSchedule` | Siliqua/include/picosha2.h:95-106 | the message schedule of the standard |
| `Sha256.HashBlock` | Siliqua/include/picosha2.h:91-140 | updates the digest in place by the compression of section 6.2.2 of FIPS 180-4, for every word width from 32 bits on |
| `Sha256Standard.RoundConstants` | Siliqua/include/picosha2.h:50-61 | the t-th round constant holds the first 32 bits of the fractional part of the cube root of the t-th of 64 primes, as section 4.2.2 of FIPS 180-4 has it, bounded by cubes and not by the table |
| `Sha256Standard.PrimesInOrder` | Siliqua/include/picosha2.h:50-61 | the primes of the round constants are strictly increasing, 64 of them from 2 on |
| `Sha256Standard.SievedIsPrime` | Siliqua/include/picosha2.h:50-61 | what the sieve leaves below 18² has no divisor, so that these are primes |
| `Sha256Standard.InitialDigest` | Siliqua/include/picosha2.h:63-65 | the initial digest holds the first 32 bits of the fractional parts of the square roots of the first eight primes |
| `Sha256Standard.BitOfCh` | Siliqua/include/picosha2.h:67 | a bit of Ch is the bit of y where the bit of x is set and the bit of z elsewhere |
| `Sha256Standard.BitOfMaj` | Siliqua/include/picosha2.h:69-71 | a bit of Maj is the one that at least two of the three words have |
| `Sha256Standard.BitOfRotR` | Siliqua/include/picosha2.h:73-76 | bit i of a rotation by n is bit i + n, going round after bit 31 |
| `Sha256Standard.BitOfSigmas` | Siliqua/include/picosha2.h:78-89 | the four sigma functions, bit by bit, with their rotations and shifts as numbers |
| `Sha256Standard.ScheduleLaw` | Siliqua/include/picosha2.h:95-106 | the first 16 schedule words are big-endian numbers, the others sums modulo 2^32 of four earlier ones |
| `Sha256Standard.RoundsLaw` | Siliqua/include/picosha2.h:117-128 | what each round makes of each of the eight working variables, modulo 2^32 |
| `Sha256Standard.DigestLaw` | Siliqua/include/picosha2.h:129-139 | each digest word becomes its sum with its working variable modulo 2^32 |
| `BlockHashing.FoldConcat` | Siliqua/include/picosha2.h:197-201 | folding the compression over blocks may be done piece by piece |
| `BlockHashing.PadShape` | Siliqua/include/picosha2.h:205-233 | the padded message of section 5.1.1 of FIPS 180-4 in terms of the buffered rest: one more block, or two |
| `BlockHashing.PaddedTo64` | Siliqua/include/picosha2.h:205-233 | the padded message byte by byte: the message, 0x80, zeros, and the length field at the end of a block, at most 72 bytes more |
| `BlockHashing.ByteOfNumber` | Siliqua/include/picosha2.h:259-279 | byte i of a number, in either byte order, is its digit of 256^i |
| `Sha256Stream.AddToDataLength` | Siliqua/include/picosha2.h:246-258 | the four 16-bit digits stay in range and denote the sum modulo 2^64 |
| `Sha256Stream.CounterAdvances` | Siliqua/include/picosha2.h:193-196 | the counter is right after a piece unless adding its length overflows a word narrower than 64 bits |
| `Sha256Stream.CounterLoses` | Siliqua/include/picosha2.h:246-247 | the condition is exact: a length that overflows a narrower word leaves a wrong count |
| `Sha256Stream.LostPiece` | Siliqua/include/picosha2.h:246-258 | an example: one piece of 2^32 bytes with words of 32 bits leaves the counter at zero |
| `Sha256Stream.CountsExactly` | Siliqua/include/picosha2.h:193-258 | after any pieces of less than 2^64 bytes in all the count is right if and only if every piece, added to the lowest 16 bits of the length before it, fits a word; otherwise it is too small |
| `Sha256Stream.RecountIs` | Siliqua/include/picosha2.h:246-258 | the count after a piece in numbers: the piece is added to the lowest 16 bits in a word, and the sum taken modulo 2^64 |
| `Sha256Stream.WriteDataBitLength` | Siliqua/include/picosha2.h:259-279 | writes eight times the counter as eight big-endian bytes |
| `Sha256Stream.Hash256OneByOne.Init` | Siliqua/include/picosha2.h:186-191 | the initial state |
| `Sha256Stream.Hash256OneByOne.Process` | Siliqua/include/picosha2.h:193-203 | appends a piece of any length to the message hashed; states the new count, which stays right unless the length overflows a word narrower than 64 bits, and then is wrong |
| `Sha256Stream.Hash256OneByOne.Finish` | Siliqua/include/picosha2.h:205-233 | leaves the digest of the message padded with eight times what the counter says, right or wrong |
| `Sha256Stream.Hash256OneByOne.GetHashBytes` | Siliqua/include/picosha2.h:235-243 | the first bytes of the digest, or all of it |
| `Sha256Stream.SameCount` | Siliqua/include/picosha2.h:259-279 | the result depends on the count only modulo 2^64 |
| `Sha256Stream.OneBlockHash` | Siliqua/include/picosha2.h:205-243 | the hash of at most 55 bytes is one compression of the message, 0x80, zeros and the big-endian bit length, from the initial digest on |
| `Sha256Stream.Hash256RandomAccess` | Siliqua/include/picosha2.h:299-307 | the hash of a message whose length is cut to a word, and so the hash of FIPS 180-4 whenever the word holds the length or has 64 bits |
| `Sha256Stream.Hash256Input` | Siliqua/include/picosha2.h:309-328 | the hash of FIPS 180-4, whatever the size of the buffer and of the word |
| `Sha256Stream.HashPieces` | Siliqua/include/picosha2.h:183-243 | any pieces of any sizes, processed one by one: the hash with the length that the counter makes of them, and the hash of FIPS 180-4 whenever every piece counts |
| `IteratedHashes.CounterAdds` | Siliqua/include/cryptopp/iterhash.cpp:18-23 | the two-word counter is exact modulo 2^64, and the overflow test sees every overflow but one kind |
| `IteratedHashes.MissedOverflow` | Siliqua/include/cryptopp/iterhash.cpp:18-23 | an overflow that is not seen: one byte and then 2^64 - 1 more |
| `IteratedHashes.BitCountBytes` | Siliqua/include/cryptopp/iterhash.h:97-100 | the two words of the bit count, in either byte order, are eight times the byte count |
| `IteratedHashes.IteratedHash.Update` | Siliqua/include/cryptopp/iterhash.cpp:13-83 | appends input, aligned or not; refused exactly if the total reaches 2^64 bytes, except in the missed case, and then buffer and state are as before; the two counter words are always those of the addition, modulo 2^64 |
| `IteratedHashes.IteratedHash.UpdateInPlace` | Siliqua/include/cryptopp/iterhash.cpp:13-83 | appends bytes that the caller has written into the buffer; refused exactly if the total reaches 2^64 bytes |
| `IteratedHashes.IteratedHash.CreateUpdateSpace` | Siliqua/include/cryptopp/iterhash.cpp:85-91 | the free part of the buffer, directly behind the buffered bytes |
| `IteratedHashes.IteratedHash.HashMultipleBlocks` | Siliqua/include/cryptopp/iterhash.cpp:93-139 | compresses the whole blocks of the input and returns what is left over |
| `IteratedHashes.IteratedHash.PadLastBlock` | Siliqua/include/cryptopp/iterhash.cpp:141-157 | ends the message with the first padding byte and zeros, in this block or the next |
| `IteratedHashes.FinalBlocks` | Siliqua/include/cryptopp/iterhash.cpp:141-178 | the one-shot hash of the padded message in terms of the buffered rest |
| `IteratedHashes.HashIs` | Siliqua/include/cryptopp/iterhash.cpp:165-190 | the digest in terms of what the concrete hash supplies, with the bit length written out in the byte order of the hash |
| `IteratedHashes.OneBlockDigest` | Siliqua/include/cryptopp/iterhash.cpp:165-190 | the digest of at most 55 bytes is one compression of the message, 0x80, zeros and the bit length in the byte order of the hash |
| `IteratedHashes.IteratedHash.TruncatedFinal` | Siliqua/include/cryptopp/iterhash.cpp:165-190 | returns the truncated digest of the fold over message, 0x80, zeros and 64-bit length, and restarts; a size that is too large is refused and changes nothing |
| `IteratedHashes.HashPieces` | Siliqua/include/cryptopp/iterhash.cpp:13-190 | a message in any mixture of pieces, given aligned or not or written in place where there is room, has the digest of the one-shot hash |
| `Serializer.WriteUint32LE` | Siliqua/include/core/serializer.h:14-19 | appends the four little-endian bytes |
| `Serializer.WriteUint64LE` | Siliqua/include/core/serializer.h:24-33 | appends the eight little-endian bytes |
| `Serializer.ReadUint32LE` | Siliqua/include/core/serializer.h:55-62 | the number that four bytes denote and the offset behind them, or an error if there are fewer |
| `Serializer.ReadUint64LE` | Siliqua/include/core/serializer.h:69-76 | the same for eight bytes, read in a loop |
| `Serializer.Uint32Exact` | Siliqua/include/core/serializer.h:14-62 | a number is read exactly where its bytes are held |
| `Serializer.Uint64Exact` | Siliqua/include/core/serializer.h:24-76 | a number is read exactly where its bytes are held |
| `Serializer.TwosComplement` | Siliqua/include/core/transaction.cpp:94-123 | the casts of 32-bit fields keep the number modulo 2^32 and undo one another |
| `Serializer.LongTwosComplement` | Siliqua/include/core/transaction.cpp:69-89 | the casts of 64-bit fields keep the number modulo 2^64 and undo one another |
| `Serializer.ReadManySound` | Siliqua/include/core/transaction.cpp:127-136 | a list that is read is well-formed and is written as the bytes consumed |
| `Serializer.ReadManyComplete` | Siliqua/include/core/transaction.cpp:127-136 | a well-formed list is read back where it is held |
| `Transactions.OutPointExact` | Siliqua/include/core/transaction.cpp:16-28 | an outpoint is read exactly where its serialization is held |
| `Transactions.TxInLayout` | Siliqua/include/core/transaction.cpp:16-57 | where the fields of an input stand: hash, index, script length, script and sequence number |
| `Transactions.TxOutLayout` | Siliqua/include/core/transaction.cpp:69-78 | where the fields of an output stand: the amount in two's complement, script length and script |
| `Transactions.TransactionLayout` | Siliqua/include/core/transaction.cpp:91-119 | where the fields of a transaction stand: version, inputs and outputs behind their counts, lock time |
| `Transactions.TxInExact` | Siliqua/include/core/transaction.cpp:41-67 | an input is read exactly where its serialization is held and its script length fits |
| `Transactions.TxOutExact` | Siliqua/include/core/transaction.cpp:69-89 | an output is read exactly where its serialization is held and its script length fits |
| `Transactions.TransactionExact` | Siliqua/include/core/transaction.cpp:91-142 | a transaction is read exactly where its serialization is held, its lengths fit and its hash is its own: the format is canonical in both directions |
| `Transactions.TransactionRoundTrip` | Siliqua/include/core/transaction.cpp:91-142 | a serialized transaction is read back between any prefix and suffix, up to exactly its end, with the hash recomputed |
| `Transactions.RoundTripNeedsLengths` | Siliqua/include/core/transaction.cpp:91-142 | the round trip holds if and only if all lengths fit 32 bits |
| `Transactions.NoPrefixOfTransaction` | Siliqua/include/core/transaction.cpp:121-142 | no strict prefix of an encoding parses |
| `Transactions.Serialize` | Siliqua/include/core/transaction.cpp:91-119 | the loops that build the serialization |
| `Transactions.Deserialize` | Siliqua/include/core/transaction.cpp:121-142 | the loops that read it, with the hash recomputed, or an error |
| `Merkle.BuildRoot` | Siliqua/include/core/block.cpp:75-98 | terminates with the root of the tree, doubling the last hash of an odd layer |
| `Merkle.NextLayerHashes` | Siliqua/include/core/block.cpp:82-94 | a node is the hash of its left child followed by its right one, or by the left one again where there is none |
| `Merkle.SmallTrees` | Siliqua/include/core/block.cpp:75-98 | the roots over no hash, one, two and three hashes |
| `Merkle.RootOfHalves` | Siliqua/include/core/block.cpp:75-98 | the root over two full trees side by side is the hash of the root of the first followed by the root of the second |
| `Merkle.RootSplit` | Siliqua/include/core/block.cpp:75-98 | for every count: the root is the hash of the root over the largest power of two below the count and of the root over the rest, doubled up to the same height |
| `Merkle.Binding` | Siliqua/include/core/block.cpp:68-103 | two lists of equal length with equal roots are equal, or two different inputs of one pair of nodes at the same place of the two trees have the same hash |
| `Merkle.CollisionInTrees` | Siliqua/include/core/block.cpp:82-94 | the collision that is meant: at one level of the two trees two pairs at one place are different and have the same hash |
| `Merkle.CompletedRoot` | Siliqua/include/core/block.cpp:82-98 | filling in every missing partner, which makes the number of leaves a power of two, keeps the root |
| `Merkle.SameRootExactly` | Siliqua/include/core/block.cpp:75-98 | when two lists of any lengths have the same root: if and only if the completed tree over the shorter is, at its height, the completed tree over the longer, up to a collision at one place of the two |
| `Merkle.SameHeightExactly` | Siliqua/include/core/block.cpp:75-98 | for trees of one height the same as a condition on the lists: the same hash at every leaf of the completed trees |
| `Merkle.AnyTwoCounts` | Siliqua/include/core/block.cpp:75-98 | equal counts are needed, whatever the hash: for any two counts there are lists of these lengths with the same root |
| `Merkle.RepeatedLast` | Siliqua/include/core/block.cpp:82-84 | an odd list and the list with its last hash repeated have the same root |
| `Merkle.RepeatedTail` | Siliqua/include/core/block.cpp:80-94 | a list whose length is an odd multiple of 2^t, and more, keeps its root when its last 2^t hashes are repeated |
| `Blocks.HeaderExact` | Siliqua/include/core/block.cpp:10-57 | a header is read exactly where its 80 bytes are held |
| `Blocks.HeaderLayout` | Siliqua/include/core/block.cpp:10-66 | where the six fields of a header stand in its 80 bytes, and that these are what is hashed |
| `Blocks.BlockLayout` | Siliqua/include/core/block.cpp:109-123 | where the header, the number of transactions and the transactions stand in a block |
| `Blocks.BlockExact` | Siliqua/include/core/block.cpp:109-136 | a block is read exactly where its serialization is held, its count fits and its transactions carry their own hashes |
| `Blocks.BlockRoundTrip` | Siliqua/include/core/block.cpp:109-136 | a serialized block is read back between any prefix and suffix, with all transaction hashes recomputed |
| `Blocks.NoPrefixOfBlock` | Siliqua/include/core/block.cpp:125-136 | no strict prefix of a block's encoding parses |
| `Blocks.CheckMerkleRoot` | Siliqua/include/core/block.cpp:101-103 | whether the root of the transaction hashes is the one in the header |
| `Blocks.HeaderBindsBlock` | Siliqua/include/core/block.cpp:101-136 | two blocks that were read, with equal headers, equally many transactions and valid roots are the same block, or nodes at the same place of the two trees or transactions at the same place collide |
| `Blocks.CollidingTransactions` | Siliqua/include/core/block.cpp:101-136 | the collision that is meant: two different serialized transactions at one place with the same hash |
| `Blocks.HashBindsHeader` | Siliqua/include/core/block.cpp:10-66 | headers with equal hashes are equal, or their two 80-byte serializations collide |
| `Blocks.HashBindsBlock` | Siliqua/include/core/block.cpp:59-136 | the two together: the hash of the header fixes the whole block, up to those three kinds of collision and the number of transactions |
| `Blocks.HashBindsLeaves` | Siliqua/include/core/block.cpp:59-136 | without equal counts: for trees of one height the hash of the header fixes the header and the transaction at every leaf of the completed tree, up to collisions named in the two blocks |
| `Blocks.CollidingLeaves` | Siliqua/include/core/block.cpp:59-136 | the collision that is meant: two different serialized transactions of the two blocks with the same hash |
| `Blocks.RepeatedTransactions` | Siliqua/include/core/block.cpp:68-136 | and no more: in a valid block whose count is an odd multiple of 2^t the last 2^t transactions can be repeated; the result is another block with the same hash and a valid root, and is read back from its bytes |
| `Blocks.Serialize` | Siliqua/include/core/block.cpp:109-123 | the loop that builds the serialization |
| `Blocks.Deserialize` | Siliqua/include/core/block.cpp:125-136 | the loop that reads it, or an error |
| `ProofOfWork.BitsToTarget` | Siliqua/include/consensus/pow.h:20-58 | the big-endian target is mantissa·256^(exponent-3), rounded down below exponent 3, and zero for a sign bit or an exponent above 32 |
| `ProofOfWork.CompactLayout` | Siliqua/include/consensus/pow.h:24-26 | exponent, sign and mantissa of a compact target are its top byte, bit 23 and low 23 bits |
| `ProofOfWork.TargetLaw` | Siliqua/include/consensus/pow.h:20-58 | the target is mantissa·256^(exponent-3), rounded down below exponent 3, and zero for a sign bit or an exponent above 32 |
| `ProofOfWork.LessIsNumeric` | Siliqua/include/consensus/pow.h:67-70 | lexicographic order of byte arrays of one length is the order of the numbers they denote |
| `ProofOfWork.CheckProofOfWork` | Siliqua/include/consensus/pow.h:64-75 | true exactly if the hash, as a number, is at most the target |
| `ProofOfWork.PassesBelow` | Siliqua/include/consensus/pow.h:64-75 | a header passes exactly if its hash is at most its target, and then so does every header with a smaller hash and a larger target |
| `ProofOfWork.MineBlock` | Siliqua/include/consensus/pow.h:81-100 | if the search stops, it is at the first attempt that passes, and nothing but nBits, nTime and nNonce has changed; within any number of steps it stops if and only if an attempt passes |
| `ProofOfWork.NextAttempt` | Siliqua/include/consensus/pow.h:92-100 | each attempt is the one before with the next nonce or, after the last one, with nonce zero and the next second, modulo 2^32 |
| `ProofOfWork.FirstPassingMeans` | Siliqua/include/consensus/pow.h:89-100 | the attempt found in numbers: its hash is at most the target, and the hashes of all earlier attempts exceed it |
| `ProofOfWork.AttemptsRepeat` | Siliqua/include/consensus/pow.h:91-100 | attempts repeat after 2^64 steps, so a search that has not stopped by then never stops |
| `ProofOfWork.FirstPassingPair` | Siliqua/include/consensus/pow.h:91-100 | while the time does not wrap, what is found is the first passing pair of time and nonce from the start on |
| `Retargeting.QuarterIsExact` | Siliqua/include/consensus/pow.h:140-143 | the documented lower bound of a quarter is met if and only if the timespan is divisible by four |
| `Retargeting.Normalize` | Siliqua/include/consensus/pow.h:153-158 | the normalisation loop terminates with a mantissa below 2^24 and the least exponent |
| `Retargeting.NormalIsUnique` | Siliqua/include/consensus/pow.h:153-158 | mantissa and exponent are determined by the value |
| `Retargeting.GetNextWorkRequired` | Siliqua/include/consensus/pow.h:120-165 | an error without history, the old difficulty between boundaries, and at a boundary a retarget: by a quarter if the two time stamps are less than a quarter of the timespan apart, by four if more than four times, and by the ratio of the two otherwise |
| `Retargeting.RetargetMeans` | Siliqua/include/consensus/pow.h:145-160 | a retarget in numbers: the value times the ratio is mantissa·256^(exponent-3) with a mantissa below 2^24 and the least exponent from 3 on; whole part and exponent are cut to 23 and 8 bits |
| `Retargeting.RetargetGiven` | Siliqua/include/consensus/pow.h:145-160 | and any such mantissa and exponent give the retarget |
| `Retargeting.ClampLaw` | Siliqua/include/consensus/pow.h:140-143 | a period below a quarter of the timespan counts as a quarter, one above four times as four times, and a shorter one never for more than a longer one |
| `Retargeting.LongerPeriod` | Siliqua/include/consensus/pow.h:150-151 | a longer period never gives a smaller value |
| `Retargeting.QuarteredExample` | Siliqua/include/consensus/pow.h:140-160 | an example: after one second instead of 100 the difficulty 0x1b00ffff becomes 0x1a3fffc0 |
| `Retargeting.ValueIsTarget` | Siliqua/include/consensus/pow.h:148-150 | for sign-clear targets with exponent 3 to 32 the value that is scaled is the target itself |
| `Retargeting.NeverAboveValue` | Siliqua/include/consensus/pow.h:140-165 | for every nBits, valid or not: the new target never exceeds the old value mantissa·256^(exponent-3) times the clamped ratio, and so never four times that value |
| `Retargeting.NeverAboveRatio` | Siliqua/include/consensus/pow.h:140-165 | for sign-clear exponents 3 to 32 the same against the old target, so the target rises at most fourfold |
| `Retargeting.RatioExactly` | Siliqua/include/consensus/pow.h:140-165 | for every sign-clear exponent up to 32 the bound against the old target holds if and only if the mantissa bytes that the target drops, scaled too, stay below the next multiple of the timespan |
| `Retargeting.RoundedDownTarget` | Siliqua/include/consensus/pow.h:140-165 | where it fails: at 0x0200ffff the target 255 rises to 1023 in a fourfold period |
| `Retargeting.FallsShort` | Siliqua/include/consensus/pow.h:153-160 | it falls short by less than 256^(newExponent-3) if and only if the mantissa is below 2^23 and the new exponent at most 32 |
| `Retargeting.ZeroExactly` | Siliqua/include/consensus/pow.h:153-160 | for every nBits the new target is zero if and only if the cut leaves nothing of the mantissa or the new exponent exceeds 32 |
| `Retargeting.RatioOfZeroTarget` | Siliqua/include/consensus/pow.h:140-165 | for a sign bit or an exponent above 32, where the old target is zero, the bound against it holds if and only if the new target is zero, under the same condition |
| `Retargeting.RaisedFromZero` | Siliqua/include/consensus/pow.h:140-165 | where it fails: 0x1d80ffff, which nothing meets, becomes 0x1c7fff00 after a period of exactly the intended length |
| `Retargeting.HalvedWithoutCause` | Siliqua/include/consensus/pow.h:153-160 | the cut matters: at 0x1d00ffff with a period of exactly the intended length the result is 0x1c7fff00, about half the target |
| `Retargeting.LostWithoutCause` | Siliqua/include/consensus/pow.h:153-160 | the worst case: at 0x1d008000 with a period of exactly the intended length the result is 0x1c000000, whose target is zero |

## Left out

- Euclid.MultiplicativeInverse: promises the inverse only under the condition that its contract states, because the code does not return it otherwise.
- Retargeting.GetNextWorkRequired: real numbers stand for doubles, so rounding, infinities and the conversion of large doubles are not modelled; a positive interval and timespan are required because the code divides by them.
- ProofOfWork.MineBlock: takes a bound on the number of steps, because the search need not stop; clocks and logging are left out.
- Sha256Stream.Hash256Input: the buffer size is a positive 32-bit int; with a size of zero the loop of the code would not end.
- IteratedHashes.IteratedHash.Update: after a missed overflow nothing but the counter is promised, because the code then adds lengths that do not fit size_t; block size 64 and 32-bit words only.
- GeneralCascade.PushAndPopHeap: the standard heap functions are replaced by what is relied on, that the largest pair moves to the end and the next largest to the front.
- ByteQueues.ByteQueue.LazyPut: the lazy string is a value, so memory that its owner changes before it is copied is not captured.
- ByteQueues.CopyRangeTo2: targets accept everything, so blocked transfers are not modelled.
- StreamFilters.StreamFilter.constructor: block ciphers without a minimum last block size only, so the refusals for stream ciphers are not modelled.
- StreamFilters.StreamFilter.Put: the virtual calls of the buffering base are returned as a list that the filter then serves in order.
- StreamFilters.StreamFilter.NextPut: pieces that may be modified are processed in portions like all others, not in place at once.
- Serializer.ReadUint32LE: after an error the offset is not described; offsets do not wrap at the width of size_t.
- Window positions, table indices and bucket sizes of the group algorithms do not wrap at the width of unsigned int; exponents are unbounded.
- Forced flushes, non-blocking mode, channels, signals and resume points of the filters.
- The padding schemes that do not round-trip (none, zeros) and the special last block of authenticated modes.
- Copying, assigning, swapping, comparing and peeking at byte queues, and failing allocations.
- The grouping filter of the encoders.
- RIPEMD-160, the elliptic-curve calls, the wallet, scripts, storage, networking and the daemon.
- Chain work is not modelled.
- Logging, random numbers and command lines.
