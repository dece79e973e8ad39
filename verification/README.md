# secure_comm: a verified model

This project models four parts of the repository and proves what they promise.

**The two processes.** A sender and a receiver exchange keys over two bounded, blocking FIFO
queues: the sender's RSA public key goes one way, a symmetric key encrypted under it comes back, and
then the sender streams frames of twenty bytes plus a CMAC tag, which the receiver checks. Messages
carry no type on the wire, so the two sides agree on what a message is only because of the order in
which everything happens. `Protocol.dfy` is the transition system, one step for each queue operation
or MAC operation of the source; each process is deterministic, so a run is a sequence of process
names and quantifying over these sequences quantifies over all interleavings. The number of frames
and the queue capacity are arbitrary. `ProtocolInvariant.dfy` holds the inductive invariant and
`ProtocolTheorems.dfy` what follows for every run. `ProtocolSchedules.dfy` says exactly which schedules
can be run, and that only the numbers of steps matter; `ProtocolReactions.dfy` what each process does
with a message that is not genuine, which no run of the system carries. `Session.dfy` has the two periodic loops in
imperative form, with their reused buffers and MAC objects, proved against the stateless description
in `Frames.dfy`. RSA, X.509 and CMAC are parameters (`Crypto.dfy`); the only laws assumed are that a
key survives encoding, that decryption undoes encryption of a 16-byte key, and that a tag has 16 bytes.

**The big-integer register.** `LimbRegister.dfy` is the limb vector with its lazily cached count of
significant limbs, `BigInt.dfy` the sign-magnitude integer on top, `Words.dfy` and `Bits.dfy` their
arithmetic. Words are 32 or 64 bits wide and size_t has four or eight bytes: both widths are
parameters, and nothing is proved for one of them only. Bitwise operators are defined digit by digit
on naturals. The limb arithmetic of `add` is not in the header; its contract is taken to be exact
signed addition that makes no negative zero where there was none, and the operators that the header
does define are proved from it.

**The BER decoder and the DER encoder.** `Asn1.dfy` gives the decoder's templates as functions on the
stream of objects still to be read, `BerDecoder.dfy` is the class with its one-object slot,
`DerEncoder.dfy` the encoder, `DerRoundTrip.dfy` the proofs that one undoes the other, and
`DerRecord.dfy` the loops that write a record through an encoder object and read it through a decoder
object. A record mixes OPTIONAL fields and fields with a DEFAULT, each of its own type and under its
type's tag, another tag in its place, or one around it: values of all types live in one universe and a
codec's laws speak of its own domain only (`MixedFieldsExist`). `BerExactness.dfy` says what the
templates return on streams that no encoder wrote. References are to ITU-T X.690. Functions declared
in the headers without a body follow their header comments. A constructed object carries the
constructed bit in its class (X.690, section 8.1.2), so `start_cons` looks for the given class with
that bit added; otherwise its default argument could match no sequence.

**XOR and XEX.** `XorLanes.dfy` has the byte-wise meaning of XOR and the 64-bit lanes, in either byte
order; `XorBuffers.dfy` the `xor_buf` loops with blocks of four lanes and a byte tail, on spans that may
overlap in any way; `XorOverlap.dfy` what the loop then computes and exactly which overlaps are
harmless. `Xex.dfy` has the in-place xor-encrypt-xor wrappers of a block cipher.

## Where the source does not do what one might expect

- Both mains overwrite or ignore the status of the key exchange. A key message longer than a queue
  slot is never sent, nobody notices, and the run stops with the sender waiting for good:
  `DeadlockFreeIffKeysFit` says exactly when, `FinalState` says in which state. With the constants of
  the program this does not happen: sender/sender.cpp:249 fixes RSA at 2048 bits, whose encoded public
  key (under 300 bytes) and ciphertext (256 bytes) fit the slot of 1024. It would with a key whose
  encoding is longer than that.
- A message of 1 to 15 bytes makes receiver/receiver.cpp:150 and 155 slice out of range. The loop stays
  in range if and only if every message before the first empty one holds at least 16 bytes
  (`ReceivePeriodicMessages`); everything the sender sends does (`SentMessagesVerify`).
- `xor_buf` computes XOR whatever the buffers hold if and only if both inputs are read ahead of the
  output, or there is exactly one block of 32 bytes, or both inputs are the same span
  (`SafeSpansIff`); for any other overlap `UnsafeFails` constructs contents that come out wrong.
- `encrypt_n_xex` with the data buffer as its own mask leaves zeros (`EncryptNXex`).
- `decode_optional_list` compares the class as given while `start_cons` adds the constructed bit, so
  with its default arguments it recognises no well-formed list (`OptionalListSeenIff`).
- An object whose tag number is the one the slot uses for "empty" (0xFF00) is lost when it is pushed
  back (`UnreadKeepsStreamIff`).
- `resize` leaves the cached count alone (`ResizeKeepsCacheIff`), `grow_to` rounds in wrapping size_t
  arithmetic (`GrowTargetIsEnoughIff`), and `set_words` can leave a negative zero (`SetWords`).
- The decoder accepts a default value that is written out, which section 11.5 of X.690 does not allow
  in DER; with an object lost to the slot, this is all that keeps a decoded record from encoding back
  to what was read (`RecordReencodesIff`).
- `README_CHGPT.md` describes a three-message exchange without authentication; the code has two
  messages and authenticates every frame. The model follows the code.
- `kSymKeySize` is used but defined in no file of the repository; it is taken as 16, the size
  the comment at receiver/receiver.cpp:99 gives.

## Model

| member | source | states |
|---|---|---|
| ProtocolTheorems.EveryComparisonSucceeds | receiver/receiver.cpp:137-171 | in every run, every frame the periodic loop takes has 36 bytes, ends in the CMAC of the first twenty, is compared exactly once and passes; no slice is out of range and no exception leaves either process |
| ProtocolTheorems.KeysAgree | sender/sender.cpp:260-282 | once the sender has left receive_symmetric_key, both sides and both MAC objects hold the key the receiver generated, in every continuation of the run and whatever the sender's buffer held before |
| ProtocolTheorems.PhasesAgree | receiver/receiver.cpp:237-255 | without tags on the wire, get_public_key takes only the public key, the periodic loop only frames 0, 1, 2, ..., and the reverse queue carries one message, the encrypted key |
| ProtocolTheorems.FramesAreConserved | sender/sender.cpp:104-136 | frames taken followed by frames queued are the frames sent; frame k is nineteen 0xFF bytes, k mod 256 and sixteen more; no queue exceeds its capacity |
| ProtocolTheorems.StepLowersRank | sender/sender.cpp:111-143 | the measure falls by exactly one at every step of either process |
| ProtocolTheorems.RunsAreBounded | sender/sender.cpp:264-282 | no schedule is longer than 7N + 6 steps for N frames |
| ProtocolTheorems.QuiescentIsFinal | receiver/receiver.cpp:137-141 | there is one state a run can stop in: sender done, both queues empty, receiver waiting with all frames checked, or, when a key message does not fit, the wedged exchange |
| ProtocolTheorems.CompleteRun | sender/sender.cpp:264-282 | every run that can go no further has reached that state, after as many steps as the measure has fallen |
| ProtocolTheorems.CompleteRunsAgree | receiver/receiver.cpp:237-255 | any two complete runs end in the same state after the same number of steps, 7N + 6 when the keys fit |
| ProtocolTheorems.EveryRunCompletes | common/common.hpp:13-14 | from every state a run can reach, also with the sender blocked on a full queue, the run can be completed |
| ProtocolTheorems.EveryPrefixExtends | sender/sender.cpp:264-282 | every schedule that can be run extends to a complete one, of 7N + 6 steps in all when the keys fit |
| ProtocolTheorems.DeadlockFreeIffKeysFit | sender/sender.cpp:80-83 | some process can always step until the sender is done, if and only if both key messages have at most 1024 bytes |
| ProtocolTheorems.ConfigurationsExist | common/common.hpp:13-26 | the laws asked of the primitives can be met, with keys that fit and with keys that do not |
| ProtocolSchedules.FeasibleIff | common/common.hpp:13-14 | a schedule can be run if and only if each step is enabled by the numbers of steps taken before it: the sender waits for the reply and, before each frame, for a free slot, the receiver for the public key and for frames, and neither waits for anything else |
| ProtocolSchedules.OrderDoesNotMatter | sender/sender.cpp:264-282 | two schedules with the same steps in another order end in the same state |
| ProtocolSchedules.SenderRunsAhead | sender/sender.cpp:129-136 | with no frame taken the sender can send k frames for every k up to the capacity, the queue then holding exactly these; at the capacity it gets as far as the next mq_send and blocks there |
| ProtocolSchedules.ReceiverCatchesUp | receiver/receiver.cpp:137-141 | of k frames sent ahead the receiver can take any number in a row, in order, the others staying queued; it blocks when none is left |
| ProtocolReactions.AcceptedIffGenuine | receiver/receiver.cpp:143-171 | any message at all, in any state of the loop: the verdict is true if and only if the message is a payload followed by the CMAC of that payload under the receiver's key; an empty message ends the loop, 1 to 15 bytes are sliced out of range |
| ProtocolReactions.AnswerAcceptedIff | sender/sender.cpp:149-192 | the sender enters its loop if and only if what it took decrypts to sixteen bytes, and with exactly that key |
| ProtocolReactions.PublicKeyAcceptedIff | receiver/receiver.cpp:72-81 | the receiver goes on, with the key it loaded, if and only if the message is an RSA public key |
| ProtocolReactions.ReplyIs | receiver/receiver.cpp:95-128 | the reply is the generated key encrypted under the key it took, sent unless longer than 1024 bytes; the periodic loop starts with the generated key in either case |
| ProtocolTheorems.KeyExchangeIsOver | sender/sender.cpp:270-278 | the sender never returns to the key exchange |
| ProtocolInvariant.RunKeepsInv | receiver/receiver.cpp:233-255 | the invariant holds along every run |
| ProtocolInvariant.StepKeepsInv | sender/sender.cpp:101-146 | every step of either process keeps the invariant on both processes, both queues and the history |
| ProtocolInvariant.NextFrame | receiver/receiver.cpp:138-140 | the message at the head of the queue is the frame the receiver's count says is next |
| Session.CalculateMac | sender/sender.cpp:39-44 | a fresh MAC object, one update and one final give the CMAC of the data |
| Crypto.UpdatesAccumulate | sender/sender.cpp:39-44 | a MAC object fed in pieces gives the tag of all the data and starts afresh |
| Frames.PassesIff | receiver/receiver.cpp:150-168 | the comparison succeeds if and only if the message is some payload followed by all sixteen bytes of its CMAC |
| Frames.PassingIsUnique | receiver/receiver.cpp:168 | two accepted messages with the same payload are equal |
| Session.PrepareFrame | sender/sender.cpp:112-127 | one round on the stale buffer and the reused MAC object yields the frame built from scratch and leaves the MAC object clean |
| Session.SendPeriodicMessages | sender/sender.cpp:101-146 | frames 0, 1, ... are sent until the first refusal; the status is kOK exactly when all of them were |
| Session.CheckMessage | receiver/receiver.cpp:149-168 | the verdict of the reused MAC object on this message is true if and only if it is a payload followed by the CMAC of that payload; on under 16 bytes the slices run out of range |
| Session.ReceivePeriodicMessages | receiver/receiver.cpp:130-179 | on any queue: the loop stays in range if and only if every message before the first empty one holds 16 bytes; each verdict up to there says whether the message is a payload followed by its CMAC, and what follows the empty one stays queued |
| Session.SentMessagesVerify | receiver/receiver.cpp:150-168 | everything the sender's loop sends passes the receiver's loop |
| Bits.BitOrBits | botan_cmac/include/botan-3/botan/bigint.h:473-477 | every binary digit of a bitwise or is the or of the digits |
| Bits.BitOrPow2 | botan_cmac/include/botan-3/botan/bigint.h:475-476 | or-ing one bit in adds its weight unless it is set |
| Bits.TestBitIsDivMod | botan_cmac/include/botan-3/botan/bigint.h:496 | shifting right and masking with one is the digit (a / 2^k) mod 2 |
| Words.ValueBit | botan_cmac/include/botan-3/botan/bigint.h:496 | digit n of the value is digit n mod w of limb n / w for words of w bits, also beyond the register |
| Words.ValueUpdate | botan_cmac/include/botan-3/botan/bigint.h:1009-1018 | replacing limb i changes the value by the difference times 2^(w i) |
| Words.SameLimbsSameMeaning | botan_cmac/include/botan-3/botan/bigint.h:1002-1007 | registers that agree as zero-extended sequences have the same value and the same significant words |
| Words.ValueRange | botan_cmac/include/botan-3/botan/bigint.h:611-615 | a value with s significant words of w bits is at least 2^(w (s - 1)) and below 2^(w s) |
| Words.ResizedMeaning | botan_cmac/include/botan-3/botan/bigint.h:1039-1046 | resizing keeps the significant words exactly when it cuts off none of them, and then keeps the value |
| LimbRegister.GrowTargetIsEnoughIff | botan_cmac/include/botan-3/botan/bigint.h:1029-1037 | grow_to delivers n words and drops none exactly when its rounding does not wrap |
| LimbRegister.GrowTargetIsRounded | botan_cmac/include/botan-3/botan/bigint.h:1034 | a reallocated register gets the least multiple of eight above the size asked for |
| LimbRegister.ResizeKeepsCacheIff | botan_cmac/include/botan-3/botan/bigint.h:1046 | a computed count survives resize exactly when no significant word is cut off |
| LimbRegister.SetWordIsPointUpdate | botan_cmac/include/botan-3/botan/bigint.h:1009-1018 | set_word_at changes one position of the zero-extended sequence and the value by its weight, also beyond the register and on its early return |
| LimbRegister.StepKeepsCacheIff | botan_cmac/include/botan-3/botan/bigint.h:1009-1065 | one operation leaves a right cache right exactly when it cuts off no counted word |
| LimbRegister.RunKeepsCacheIff | botan_cmac/include/botan-3/botan/bigint.h:1009-1065 | over any sequence of operations the cached count is right in every state, if and only if no resize or wrapped growth cuts off words while the count is computed |
| LimbRegister.Data.GetSigWords | botan_cmac/include/botan-3/botan/bigint.h:1060-1065 | the count of the current limbs if none was cached, else the cached one as it is, which is that of the current limbs when the cache is right; it is cached and the limbs stay |
| LimbRegister.Data.GrowTo | botan_cmac/include/botan-3/botan/bigint.h:1029-1037 | value, count and limbs are kept and size n is reached whichever capacity branch runs: exactly n within the capacity, the least multiple of eight above n beyond it |
| LimbRegister.Data.SetWordAt | botan_cmac/include/botan-3/botan/bigint.h:1009-1018 | a point update of the zero-extended sequence on all three paths, with its effect on the value, the size each path leaves, and a cache that is right |
| LimbRegister.Data.SetWords | botan_cmac/include/botan-3/botan/bigint.h:1020-1023 | the limbs become those given and the cache is not computed |
| LimbRegister.Data.ShrinkToFit | botan_cmac/include/botan-3/botan/bigint.h:1041-1044 | the size becomes the larger of the minimum and the significant words; value, count and cache are kept |
| LimbRegister.Data.Resize | botan_cmac/include/botan-3/botan/bigint.h:1046 | the limbs are cut or zero-padded to the size; the cache is right afterwards if and only if it was not computed or no significant word was cut off |
| LimbRegister.Data.Swap | botan_cmac/include/botan-3/botan/bigint.h:1048-1051 | limbs and cached counts change places, also with itself |
| LimbRegister.Data.SwapVector | botan_cmac/include/botan-3/botan/bigint.h:1053-1056 | the register's limbs and the vector's change places and the cache is not computed |
| BigInt.OrIntoLimb | botan_cmac/include/botan-3/botan/bigint.h:473-477 | the limb stays a word and moves the value by exactly the weight of a newly set bit |
| BigInt.PowerOfTwoLimbs | botan_cmac/include/botan-3/botan/bigint.h:820-824 | 2^n needs n / WORD_BITS + 1 significant words |
| BigInt.BigInt.GetBitIsDigit | botan_cmac/include/botan-3/botan/bigint.h:496 | get_bit(n) is (magnitude / 2^n) mod 2 for every n |
| BigInt.BigInt.ConditionallySetBit | botan_cmac/include/botan-3/botan/bigint.h:465-477 | adds 2^n when asked to and bit n was clear, nothing otherwise; no other bit changes |
| BigInt.BigInt.PowerOf2 | botan_cmac/include/botan-3/botan/bigint.h:815-824 | represents 2^n with n / WORD_BITS + 1 significant words |
| BigInt.BigInt.SetSign | botan_cmac/include/botan-3/botan/bigint.h:588-598 | never leaves a negative zero |
| BigInt.BigInt.FlipSign | botan_cmac/include/botan-3/botan/bigint.h:583-586 | negates the integer, zero included |
| BigInt.BigInt.SetWords | botan_cmac/include/botan-3/botan/bigint.h:551-553 | keeps the sign, so a negative zero results exactly when the sign is negative and all words are zero |
| BigInt.BigInt.Swap | botan_cmac/include/botan-3/botan/bigint.h:187-194 | the two integers change places, also with itself |
| BigInt.BigInt.MoveAssign | botan_cmac/include/botan-3/botan/bigint.h:171-180 | takes the other's sign and register, sign of a zero included, and leaves its own there; self-assignment changes nothing |
| BigInt.BigInt.AddAssign | botan_cmac/include/botan-3/botan/bigint.h:203-207 | from the contract of add: exact signed addition of the operand's significant words, also of itself; a canonical integer stays canonical |
| BigInt.BigInt.Sub | botan_cmac/include/botan-3/botan/bigint.h:316-318 | from the contract of add: adding with the flipped sign is exact subtraction, and the negative zero this makes of a zero operand does a canonical integer no harm |
| BigInt.BigInt.SubAssign | botan_cmac/include/botan-3/botan/bigint.h:215-219 | exact signed subtraction, also of itself; a canonical integer stays canonical and, subtracting a zero of either sign, keeps its sign |
| BigInt.BigInt.SubWord | botan_cmac/include/botan-3/botan/bigint.h:225 | subtracts a word; with one, this is the prefix decrement; a canonical integer stays canonical |
| BigInt.BigInt.PostDecrement | botan_cmac/include/botan-3/botan/bigint.h:291-295 | steps down by one and returns the old sign and limbs in storage of its own |
| BigInt.BigInt.PostIncrement | botan_cmac/include/botan-3/botan/bigint.h:282-286 | steps up by one and returns the old sign and limbs in storage of its own |
| BigInt.BigInt.Plus | botan_cmac/include/botan-3/botan/bigint.h:1083-1085 | from the contract of add2: a new integer holds the exact sum, canonical if x is; the operands keep their values |
| BigInt.BigInt.Minus | botan_cmac/include/botan-3/botan/bigint.h:1095-1097 | through the reversed sign, a new integer holds the exact difference, canonical if x is, with x's sign when y is a zero of either sign |
| Asn1.AsConstructedIs | botan_cmac/include/botan-3/botan/asn1_obj.h:28-38 | adding the constructed bit changes a class exactly when the bit is missing |
| Asn1.UnreadKeepsStreamIff | botan_cmac/include/botan-3/botan/ber_dec.h:356-359 | reading an object and pushing it back keeps the stream exactly when the object's tag is not the empty slot's |
| BerExactness.NextDecodesIff | botan_cmac/include/botan-3/botan/ber_dec.h:65-69 | decoding under a tag, on any stream: the next object is used up in any case, another tag is the bad-tag error, and otherwise its contents decide |
| BerExactness.OptionalDecodesIff | botan_cmac/include/botan-3/botan/ber_dec.h:343-362 | decode_optional on any stream: absent exactly when the next object has another tag than the caller named; otherwise the value is that of the object's contents, or of the one object wrapped in it under class 0xA0 |
| BerExactness.WrappedDecodesIff | botan_cmac/include/botan-3/botan/ber_dec.h:350-351 | a wrapped value decodes if and only if exactly one object of the type's own tag is inside and its contents decode |
| BerExactness.TaggedRoundTrip | botan_cmac/include/botan-3/botan/ber_dec.h:353-354 | a value written under any tag decodes under that tag, and wrapped under class 0xA0 |
| BerExactness.ListDecodesIff | botan_cmac/include/botan-3/botan/ber_dec.h:392-405 | decode_list on any stream: it succeeds if and only if the object is there, constructed, and every item holds a value of the type; the results are the items' values, on failure those before the first item that holds none |
| BerDecoder.BerDecoder.GetNextObject | botan_cmac/include/botan-3/botan/ber_dec.h:65-69 | takes the slot first, then the source; an unset object at the end |
| BerDecoder.BerDecoder.PushBack | botan_cmac/include/botan-3/botan/ber_dec.h:86-98 | refused exactly when the slot is taken |
| BerDecoder.BerDecoder.PeekNextObject | botan_cmac/include/botan-3/botan/ber_dec.h:76-84 | shows the next object and leaves it in the slot |
| BerDecoder.BerDecoder.DecodeOptional | botan_cmac/include/botan-3/botan/ber_dec.h:343-362 | result and remaining stream are those of the stream function from any slot state, and no internal push_back finds the slot taken |
| BerDecoder.BerDecoder.DecodeOptionalDefault | botan_cmac/include/botan-3/botan/ber_dec.h:252-258 | as above, an absent element taking its default |
| BerDecoder.BerDecoder.DecodeOptionalImplicit | botan_cmac/include/botan-3/botan/ber_dec.h:367-387 | the relabelled object is the one decoded; a mismatch gives the default and un-reads the object |
| BerDecoder.BerDecoder.DecodeOptionalString | botan_cmac/include/botan-3/botan/ber_dec.h:296-318 | a string under the tag and class the caller names, with contents that decode, whatever the type's own tag; an absent string reads as empty and stays on the stream |
| BerDecoder.BerDecoder.DecodeList | botan_cmac/include/botan-3/botan/ber_dec.h:392-405 | appends the decoded values to the vector's old contents, those before a failing item included, and terminates |
| BerDecoder.BerDecoder.DecodeOptionalList | botan_cmac/include/botan-3/botan/ber_dec.h:410-418 | decodes exactly when the next object has the given tag bit for bit, else changes nothing but the slot |
| DerEncoder.ConstructedIsOneObject | botan_cmac/include/botan-3/botan/der_enc.h:63-77 | opening, adding and closing adds one object with these contents at any depth of nesting |
| DerEncoder.DerEncoder.EncodeOptional | botan_cmac/include/botan-3/botan/der_enc.h:132-138 | a present value adds its object, an absent one nothing |
| DerEncoder.DerEncoder.EncodeOptionalDefault | botan_cmac/include/botan-3/botan/der_enc.h:123-130 | a value equal to its default is omitted |
| DerEncoder.DerEncoder.EncodeList | botan_cmac/include/botan-3/botan/der_enc.h:140-146 | adds the items in order to the innermost open object |
| DerEncoder.DerEncoder.EncodeListIn | botan_cmac/include/botan-3/botan/der_enc.h:63-77 | a list between start_cons and end_cons is one object holding exactly the items, a SET of several elements excepted |
| DerRoundTrip.ListRoundTrip | botan_cmac/include/botan-3/botan/ber_dec.h:392-405 | decode_list returns exactly the values encode_list wrote, in order, with nothing left over |
| DerRoundTrip.OptionalListSeenIff | botan_cmac/include/botan-3/botan/ber_dec.h:276-279 | an encoded list is recognised exactly when the caller's class has the constructed bit; with the default class, never |
| DerRoundTrip.RecordRoundTripIff | botan_cmac/include/botan-3/botan/ber_dec.h:343-362 | for fields of different types, under their own, implicit or explicit tags, OPTIONAL and DEFAULT mixed: decoding field by field gives the encoded record back and leaves the rest untouched, if and only if each field not written, absent or equal to its default, is told apart from what follows |
| DerRoundTrip.DistinctTagsDistinguish | botan_cmac/include/botan-3/botan/ber_dec.h:343-362 | tags that differ from those of the later fields and of what follows are enough for such a record |
| DerRoundTrip.WrittenInOrder | botan_cmac/include/botan-3/botan/der_enc.h:123-138 | the fields of a record are written in order, each from its own value |
| DerRoundTrip.RecordReencodesIff | botan_cmac/include/botan-3/botan/der_enc.h:123-138 | whatever stream a record was decoded from, encoding it gives back the very objects that were read, if and only if no default was written out and none was lost to the slot |
| DerRoundTrip.OmittedFieldIff | botan_cmac/include/botan-3/botan/ber_dec.h:252-258 | an element decodes as absent, or to its default, with the stream untouched exactly when the next object, if any, has another tag and survives being pushed back |
| DerRoundTrip.MixedFieldsExist | botan_cmac/include/botan-3/botan/ber_dec.h:252-258 | the laws asked of fields are met by a BOOLEAN, with a default or optional, next to INTEGERs under their own tag, implicitly retagged and wrapped |
| DerRecord.EncodeFields | botan_cmac/include/botan-3/botan/der_enc.h:123-138 | field by field, with defaults, options, implicit and explicit tags, the encoder gains exactly the objects of the record, at any depth of nesting |
| DerRecord.DecodeFields | botan_cmac/include/botan-3/botan/ber_dec.h:343-362 | field by field, the decoder's result and remaining stream are those of the record function, from any slot state and with failures part-way |
| DerRecord.WriteThenRead | botan_cmac/include/botan-3/botan/ber_dec.h:252-258 | what a fresh encoder wrote of a mixed record a decoder reads back, leaving what follows, if and only if each omitted field is told apart from its successor |
| Bits.BitXorBits | botan_cmac/include/botan-3/botan/mem_ops.h:337-341 | every binary digit of a bitwise exclusive or is the exclusive or of the digits |
| XorLanes.XorOfIntegers | botan_cmac/include/botan-3/botan/mem_ops.h:382-388 | XOR of the integers that byte strings stand for is the integer of the byte-wise XOR |
| XorLanes.LaneXorIsXor | botan_cmac/include/botan-3/botan/mem_ops.h:382-390 | a lane loaded, XORed and stored is byte-wise XOR in either byte order |
| XorOverlap.AlwaysXorIff | botan_cmac/include/botan-3/botan/mem_ops.h:378-396 | on one memory, the loop computes XOR for all contents if and only if both inputs are read ahead of the output, or there is exactly one block, or the inputs coincide |
| XorOverlap.UnsafeFails | botan_cmac/include/botan-3/botan/mem_ops.h:378-396 | for every other overlap, contents are constructed on which a byte of the output is wrong |
| XorBuffers.XorBuf3 | botan_cmac/include/botan-3/botan/mem_ops.h:372-396 | the blocked loop and its tail leave behind what the loop on shared memory computes, for every overlap and length; byte-wise XOR for the safe overlaps; write nothing outside the output; refuse unequal lengths |
| XorBuffers.XorBuf2 | botan_cmac/include/botan-3/botan/mem_ops.h:342-364 | the same for the in-place form |
| XorBuffers.SafeSpansIff | botan_cmac/include/botan-3/botan/mem_ops.h:372-396 | the overlaps of spans named safe are exactly those under which the loop computes XOR for all contents |
| XorBuffers.XorAssign | botan_cmac/include/botan-3/botan/mem_ops.h:445-453 | XOR of the zero-extended operands, of the length of the longer, also with itself |
| XorBuffers.XorExtendedAssoc | botan_cmac/include/botan-3/botan/mem_ops.h:445-453 | operator^= is associative on byte strings of any lengths |
| XorBuffers.XorExtendedTwice | botan_cmac/include/botan-3/botan/mem_ops.h:445-453 | applying the same operand twice restores the zero-extended original |
| XorBuffers.SameMem | botan_cmac/include/botan-3/botan/mem_ops.h:298-308 | true exactly when the arrays agree on all n elements |
| Xex.XexRoundTrip | botan_cmac/include/botan-3/botan/block_cipher.h:159-181 | decrypt_n_xex undoes encrypt_n_xex under the same mask, and the other way round, for any number of blocks |
| Xex.XexAppend | botan_cmac/include/botan-3/botan/block_cipher.h:160-169 | processing n1 + n2 blocks at once is processing n1 and then n2 |
| Xex.XexBlock | botan_cmac/include/botan-3/botan/block_cipher.h:160-169 | each block of the result, as a slice of the buffer, is E(p ^ m) ^ m |
| Xex.BlockIs | botan_cmac/include/botan-3/botan/block_cipher.h:160-169 | block k is the bytes from k times the block size on |
| Xex.ProcessBlocks | botan_cmac/include/botan-3/botan/block_cipher.h:143-157 | each block is transformed on its own and the rest of the buffer is not touched |
| Xex.EncryptNXex | botan_cmac/include/botan-3/botan/block_cipher.h:160-169 | the three loops in place compute the value-level wrapper on the first blocks and leave the rest alone; with the buffer as its own mask, zeros |
| Xex.DecryptNXex | botan_cmac/include/botan-3/botan/block_cipher.h:172-181 | the same for decryption |
| Xex.EncryptSpan | botan_cmac/include/botan-3/botan/block_cipher.h:113-115 | the whole blocks of a buffer are encrypted; bytes beyond the last whole block stay as they are |

## Left out

- Console output, hexadecimal printing, sleeps, PEM, opening, closing and unlinking of queues: no effect on what is proved. The verdict is the comparison at receiver/receiver.cpp:168, not the message printed after it.
- Inside RSA, OAEP, AES, CMAC, X.509 and the random number generators: not in the repository. No claim is made about secrecy or forgery.
- Failing system calls in the two mains, except a message too long for its slot: the transition system has the runs in which the operating system delivers. `Session.SendPeriodicMessages` does have refused sends.
- A well-formed public key that is not RSA: receiver/receiver.cpp:81 reports it, main goes on and dereferences a null pointer at line 107. Loading yields RSA keys or nothing here.
- send_public_key, get_public_key, send_symmetric_key and receive_symmetric_key have no imperative form of their own: they are straight-line code, modelled branch by branch as steps of the transition system.
- LimbRegister.Data.SetWordAt: asks that growing to i + 1 words does not wrap in size_t, since the source then writes outside the vector. Running out of memory is not modelled.
- BigInt.BigInt.Add: stands for `add` (and Add2 for `add2`), whose limb arithmetic is not in the header; its body computes the sum from the values, and only its contract is used. What it makes of an operand or receiver that is a negative zero is promised as a value only.
- BigInt multiplication, division, shifts, comparison, string and byte conversion, and access through raw pointers: declared, not defined, in the header.
- BerDecoder.BerDecoder.Decode: objects are taken as already split, and how a value's contents are read is a parameter; identifier and length octets are not modelled, and neither are get_next_value, decode_and_check, raw_bytes and encode_if.
- DerEncoder.DerEncoder.EndCons: not for a SET of two or more elements, which DER sorts in code that is not in the header; EncodeListIn likewise.
- Xex.EncryptNXex: the buffer and the mask are the same array or different ones; a mask that overlaps the buffer partly is not modelled.
- same_mem on signed element types, buffer_insert, constant-time behaviour and memory scrubbing: not modelled.
