# MoCOCrW: a verified model

MoCOCrW wraps OpenSSL in C++. This project models the parts of it that carry logic of their own, in Dafny, and
proves properties of them. `dafny verify dfyconfig.toml` checks everything.

- **The streaming cipher stack up to ECIES.** `ChunkQueue` is the buffer between a cipher and its reader. `Cbc` and
  `EvpCipher` give the OpenSSL cipher context a concrete meaning: CBC (section 6.2 of NIST SP 800-38A) with PKCS
  padding (section 6.3 of RFC 5652) over any block permutation, with a partial block held back on encryption and the
  last block on decryption, and CTR and GCM over any key stream and tag function. `AesStream` is `AESCipher` as a
  machine over values and `AesCipher` the objects. `Mac` is the HMAC and CMAC life cycle. `Ecies` is the scheme of
  section 11.3 of IEEE 1363a-2004 as two machines, `EciesRuns` what all their runs guarantee, `EciesBuilder` the
  builder and its defaults, `EciesBuildOrder` what becomes of builders that are used again, and `EciesContexts` the
  objects, down to a sender and a receiver at work.
- **PEM chains** (sections 2 and 3 of RFC 7468). `Pem` is the scanner, `PemChain` the set of texts it accepts and its
  normal form, `Rewrap` the rewriting of certificates to lines of 64 characters.
- **Time and the certificate authority.** `Asn1Time` does day and second arithmetic in newtypes of 32 and 64 bits, so
  that the verifier rules out overflow; `CertificateAuthority` issues certificates over time (section 4.1.2 of
  RFC 5280).
- **Encodings that undo each other.** `Der` and `EcdsaFormat` (section 2.2.3 of RFC 3279, sections 8.1.3 and 8.3 of
  X.690), `DistinguishedName`, and `Hex`.

Code that updates state is a class whose methods are proved to take exactly the step that a function over values
describes (`ensures (Model(), r) == Do...(old(Model()), ...)`); the properties of runs are lemmas about those functions.
A C++ exception is the `Err` of a result, returned together with the state as the throwing call has left it. What
OpenSSL computes is a field of a record (`Primitives`, `World`, `Key`) of which only the laws stated as predicates are
used: the permutation has an inverse, key agreement is symmetric, a key derivation function returns the length asked for.

Where code and documentation disagree, the model follows the code:

- `src/mococrw/asn1time.h:81` promises `rhs + diff = this` for every difference. Addition throws before the year 1900,
  so this holds exactly for times from 1900 on (`Asn1Time.DifferencesCompose`).
- The test for a missing begin marker at `src/x509.cpp:90` cannot succeed, because `npos` plus the marker's length wraps
  around; the search then goes on from position 26. `Rewrap.UnchangedExactly` says which texts come back unchanged, with
  and without the marker, and `Rewrap.HeadlessIsMangled` gives texts that lose a character.
- `src/ecies.cpp:92-118` writes defaults into the builder, where a later build of the other direction finds them
  (`EciesBuilder.DefaultsPersist`). A decryption context built that way encrypts: it accepts the tag and returns the
  ciphertext encrypted again. An encryption context built that way decrypts: `finish` throws, or returns less than the
  plaintext. With the defaults, all plaintexts make the round trip exactly if neither the sender's builder has first
  built a decryption context nor the receiver's an encryption context (`EciesBuildOrder.DefaultsNeedSeparateBuilders`).
- The constructor of the cipher accepts a GCM IV of any length from one byte on, sets its length and then resets the
  context (`src/symmetric_crypto.cpp:103-130`), so that twelve bytes are read in any case, from behind a shorter IV.
  What a caller sets makes every round trip succeed exactly from twelve bytes on (`EvpCipher.RoundTripNeedsIv`).
- `_HMAC_Update` converts a length to a 32-bit `int` (`Mac.Seen`), and encryption authenticates the whole ciphertext in
  one call. Decryption returns the plaintext exactly if the tag of what was seen is that of the whole ciphertext
  (`EciesRuns.EciesRoundTripExactly`), hence always up to INT_MAX bytes (`EciesRuns.EciesRoundTrip`), and for no longer
  ciphertext with every MAC function (`EciesRuns.TagCoversAllExactly`).
- After a `finish` of an authenticated cipher that failed inside OpenSSL the object is not finished, and can be used on.
  The same holds after associated data that is empty, which may reach OpenSSL as a null pointer, or too long for an
  `int`. Nothing is assumed of such a context, so facts about its output end there (`AesStream.KnownExactly`).
- `src/mococrw/util.h:42` promises an exception for invalid characters. The code takes what `strtoul` takes, which is
  more than digits: `Hex.AcceptedExactly` says which texts are accepted, and `Hex.SignIsAccepted` reads "-1" as 255.
- `operator==` of names is not transitive: two names that differ in their custom order alone are equal to the same name
  without one (`DistinguishedName.TransitiveExactly`).
- A repeated attribute in a custom-order name is read back with its first value, while the name itself answers with its
  last (`DistinguishedName.RepeatedAttributeIsNotKept`).

## Model

| member | source | states |
|---|---|---|
| `ChunkQueue.QueueOfVectors.Write` | src/symmetric_memory.cpp:28-32 | appends a chunk, empty or not, to the flat contents and keeps the byte count |
| `ChunkQueue.QueueOfVectors.Read` | src/symmetric_memory.cpp:34-68 | returns exactly the first min(requested, stored) bytes and leaves the rest in order, in every branch |
| `ChunkQueue.QueueOfVectors.ReadAcrossBlocks` | src/symmetric_memory.cpp:50-67 | gathering whole chunks and then part of one yields min(requested, stored) bytes |
| `ChunkQueue.QueueOfVectors.ReadAll` | src/symmetric_memory.cpp:70-98 | returns everything, and the assertion on the byte count cannot fire |
| `ChunkQueue.QueueOfVectors.ReadCompleteBlock` | src/symmetric_memory.cpp:100-106 | returns the front chunk and keeps the byte count |
| `ChunkQueue.QueueOfVectors.ReadPartialBlock` | src/symmetric_memory.cpp:108-119 | appends the first bytes of a chunk to the output and leaves the rest; its assertion is its only demand |
| `ChunkQueue.Replay` | src/symmetric_memory.cpp:28-98 | any sequence of writes and reads returns what a flat FIFO returns and leaves its contents |
| `ChunkQueue.RunsConserve` | src/symmetric_memory.cpp:28-98 | in every run, what was read followed by what is left is what was written, in order |
| `Bytes.XorAt` | src/symmetric_crypto.cpp:142-172 | combining two bytes sets a bit exactly where theirs differ |
| `Cbc.EncryptBlock` | src/symmetric_crypto.cpp:85-129 | every ciphertext block is the enciphered combination of its plaintext block with the ciphertext block before it, or the IV |
| `Cbc.DecryptBlock` | src/symmetric_crypto.cpp:85-129 | every plaintext block is the deciphered ciphertext block combined with the one before it, or the IV |
| `Cbc.DecryptInvertsEncrypt` | src/symmetric_crypto.cpp:85-129 | CBC decryption inverts CBC encryption over any block permutation, the law the wrapped cipher must provide |
| `Cbc.EncryptInvertsDecrypt` | src/symmetric_crypto.cpp:85-129 | CBC encryption inverts CBC decryption as well |
| `Cbc.EncryptAppend` | src/symmetric_crypto.cpp:142-172 | encrypting in two pieces, the second chained to the first, is encrypting at once |
| `Cbc.DecryptAppend` | src/symmetric_crypto.cpp:142-172 | the same for decryption |
| `Cbc.UnpadInvertsPadding` | src/symmetric_crypto.cpp:132-139 | removing PKCS padding returns the message |
| `Cbc.UnpadExactly` | src/symmetric_crypto.cpp:132-139 | exactly which bytes are a padded message: n bytes of value n follow it, from one to sixteen |
| `EvpCipher.StreamExactly` | src/symmetric_crypto.cpp:69-140 | CTR and GCM combine each byte with the key stream at its position, under the whole IV or exactly twelve bytes; GCM decryption throws exactly for a wrong tag |
| `EvpCipher.CbcExactly` | src/symmetric_crypto.cpp:69-140 | CBC encryption is that of the padded message, or without padding of whole blocks only |
| `EvpCipher.CbcInverse` | src/symmetric_crypto.cpp:69-140 | CBC decryption returns a message if and only if it was given its encryption |
| `EvpCipher.ReleasedSize` | src/symmetric_crypto.cpp:142-172 | how much output is held back: less than a block, or up to a whole one where it may hold padding; nothing by a stream |
| `EvpCipher.UpdateContinues` | src/symmetric_crypto.cpp:142-172 | feeding a message releases exactly what is missing from the output so far, in every mode, padding and direction |
| `EvpCipher.FinalCompletes` | src/symmetric_crypto.cpp:195-241 | finalizing completes the output to the one-shot result and fails exactly where there is none |
| `EvpCipher.OneShotRoundTrip` | src/symmetric_crypto.cpp:69-140 | in every mode decryption with the same settings returns the plaintext, for GCM with an accepted tag and an IV of at least twelve bytes |
| `EvpCipher.TwoPasses` | src/symmetric_crypto.cpp:69-140 | two passes of a padding cipher in any directions: encryption lengthens, decryption shortens, and the second undoes the first exactly if their directions differ |
| `EvpCipher.RoundTripNeedsIv` | src/symmetric_crypto.cpp:103-130 | equal settings make every round trip succeed, whatever lies behind the IVs in memory, if and only if a GCM IV has twelve bytes |
| `EvpCipher.ShortIvFails` | src/symmetric_crypto.cpp:103-130 | for every shorter GCM IV a message, and two ciphers with the same settings, that do not round trip |
| `AesStream.ChunksDoNotMatter` | src/symmetric_crypto.cpp:142-241 | for every interleaving of calls a finished cipher has returned the one-shot result of the accepted messages, unless a call has disturbed a GCM context, and later reads are empty |
| `AesStream.FinishReturnsExactly` | src/symmetric_crypto.cpp:195-241 | the first `finish`, after any calls with proper associated data, returns exactly when the accepted input has a one-shot result and the tag length is one GCM can give |
| `AesStream.AuthenticatedRuns` | src/symmetric_crypto.cpp:174-241 | in every run no associated data is taken after payload, and decryption never finishes without a tag; until a call has disturbed the context, the tag at the end is that of associated data and ciphertext, cut to its length, in both directions |
| `AesStream.KnownExactly` | src/symmetric_crypto.cpp:174-241 | a GCM context stays known exactly as long as no `finish` fails inside OpenSSL and no associated data is empty or too long |
| `AesStream.StreamRoundTrip` | src/symmetric_crypto.cpp:142-249 | every chunking on both sides: a decryptor of the same settings that accepted the encryptor's output (and its associated data and tag) completes the plaintext, for GCM with an IV of at least twelve bytes |
| `AesStream.UpdatesAccepted` | src/symmetric_crypto.cpp:142-172 | an open cipher accepts every message within the size limit, and all of its bytes |
| `AesStream.AssociatedDataAccepted` | src/symmetric_crypto.cpp:174-189 | before any payload an authenticated cipher accepts associated data |
| `AesStream.GcmRoundTrip` | src/symmetric_crypto.cpp:142-249 | for all associated data and every payload, each in any chunks on either side, and every tag length: encryption finishes, and decryption with the same settings returns the payload |
| `AesStream.RunCoherent` | src/symmetric_crypto.cpp:142-249 | what every call keeps: context, pending output and flags are those of the bytes accepted so far |
| `AesStream.StaysOpen` | src/symmetric_crypto.cpp:142-249 | only `finish` closes a cipher, and until then proper associated data leaves its context known |
| `AesStream.OpenRefusals` | src/symmetric_crypto.cpp:142-189 | an open cipher refuses exactly messages too long for an `int` with 32 bytes to spare, and associated data after payload |
| `AesStream.FinishedRefusals` | src/symmetric_crypto.cpp:142-199 | a finished cipher throws at every call but reads, each with its own exception, and stays as it is |
| `AesStream.ReadExactly` | src/symmetric_crypto.cpp:191-193 | a read returns the oldest bytes, as many as asked for or all there are |
| `AesCipher.CheckedConfig` | src/symmetric_crypto.cpp:94-119 | the constructor accepts exactly keys of the right size with an IV that suits the mode, checks the key first, and keeps its parameters |
| `AesCipher.EncryptorExactly` | src/symmetric_crypto.cpp:404-461 | exactly which encryptors are built, with all of the caller's parameters: his IV, and a random one only if there is none |
| `AesCipher.DecryptorExactly` | src/symmetric_crypto.cpp:425-487 | exactly which decryptors are built, with all of the caller's parameters, and which exception refuses the others |
| `AesCipher.AESCipher.constructor` | src/symmetric_crypto.cpp:69-140 | a new cipher is in the initial state of the machine |
| `AesCipher.AESCipher.Update` | src/symmetric_crypto.cpp:142-172 | takes exactly the machine's step, throwing calls included |
| `AesCipher.AESCipher.AddAssociatedData` | src/symmetric_crypto.cpp:174-189 | takes exactly the machine's step |
| `AesCipher.AESCipher.Read` | src/symmetric_crypto.cpp:191-191 | returns the front of the pending output |
| `AesCipher.AESCipher.ReadAll` | src/symmetric_crypto.cpp:193-193 | returns all pending output |
| `AesCipher.AESCipher.SetAuthTag` | src/symmetric_crypto.cpp:249-249 | replaces the tag and nothing else |
| `AesCipher.AESCipher.Finish` | src/symmetric_crypto.cpp:195-241 | takes exactly the machine's step, with the state each failure leaves behind |
| `AesCipher.BuildersPair` | src/symmetric_crypto.cpp:404-487 | an encryptor is built exactly for a fitting key and IV; the decryptor with the same settings and its IV is its inverse if the IV is long enough, as a random one is, which is used whole |
| `AesCipher.SameSettingsPair` | src/symmetric_crypto.cpp:404-487 | with an IV of the caller's the very same settings build a matching pair, or none of both |
| `AesCipher.AESCipherBuilder.BuildEncryptor` | src/symmetric_crypto.cpp:404-461 | refuses the wrong mode or parameters, and otherwise hands out a fresh cipher in its initial state |
| `AesCipher.AESCipherBuilder.BuildDecryptor` | src/symmetric_crypto.cpp:425-487 | the same for decryption, which also refuses a tag length |
| `Mac.Seen` | src/openssl_wrap.cpp:1431-1434 | the part of a message that HMAC's `int` length lets through: as many bytes as its length has modulo 2^32, all of it exactly up to INT_MAX bytes, and none where that is no `int` |
| `Mac.InitialExactly` | src/mac.cpp:37-51 | exactly which keys are accepted |
| `Mac.MessagesAbsorbed` | src/mac.cpp:53-72 | the MAC of messages of any number is that of their concatenation |
| `Mac.RunCoherent` | src/mac.cpp:53-89 | in every run a finished MAC holds the value of what it absorbed and never changes again |
| `Mac.VerifyIsExact` | src/mac.cpp:74-89 | after any run `verify` returns exactly for the MAC of the absorbed bytes, now and ever after |
| `Mac.MessageAuthenticationCode.constructor` | src/mac.cpp:37-47 | a new MAC has absorbed nothing |
| `Mac.MessageAuthenticationCode.Update` | src/mac.cpp:140-146 | takes exactly the machine's step |
| `Mac.MessageAuthenticationCode.Finish` | src/mac.cpp:148-159 | takes exactly the machine's step |
| `Mac.MessageAuthenticationCode.Verify` | src/mac.cpp:161-176 | takes exactly the machine's step, finishing first where needed |
| `Ecies.KeysExactly` | src/ecies.cpp:160-189 | the first `symmetricKeySize` derived bytes make the cipher and all that follow are the MAC key, from the agreed secret and the KDF salt; which exception comes first |
| `Ecies.ContextKeys` | src/ecies.cpp:207-290 | both contexts get their keys from the agreed secret, keep the MAC salt, and the sender's hands out its public key |
| `Ecies.Refusals` | src/ecies.cpp:218-313 | what finished contexts refuse, and a decryption without a tag; none of it changes anything |
| `EciesRuns.KeysAgree` | src/ecies.cpp:160-189 | with matching parameters both sides split the derived bytes alike, so the receiver has the sender's MAC and cipher settings |
| `EciesRuns.EncryptionRuns` | src/ecies.cpp:218-261 | in every run what `finish` returned is the encryption of what was accepted, its MAC covers ciphertext then salt, and `getMAC` throws before |
| `EciesRuns.DecryptionSafety` | src/ecies.cpp:290-339 | in every run `finish` returns at most once, only if the last tag is the MAC of exactly the bytes fed to the cipher and the salt, and never after a failed verification |
| `EciesRuns.FinishedMacIsFinal` | src/ecies.cpp:302-326 | once the MAC is finished no sequence of calls makes `finish` return |
| `EciesRuns.EciesRoundTripExactly` | src/ecies.cpp:207-345 | every run on both sides, ciphertexts of any length: fed the ciphertext and the tag, and unless an earlier `finish` has reached the MAC, decryption returns the plaintext exactly if the tag covers the whole ciphertext |
| `EciesRuns.MacStaysOpen` | src/ecies.cpp:302-315 | no `finish` reaches the MAC, however often one was called, until one comes after a tag was set |
| `EciesRuns.TagCoversAllExactly` | src/openssl_wrap.cpp:1431-1434 | whatever the MAC function, the tag covers the whole ciphertext exactly with CMAC or up to INT_MAX bytes; for every longer one there is a function that tells them apart |
| `EciesRuns.EciesRoundTrip` | src/ecies.cpp:207-345 | with CMAC, or up to INT_MAX bytes of ciphertext, decryption returns exactly the plaintext in every such run; only a GCM cipher cannot work |
| `EciesBuilder.SeparateBuildersMatch` | src/ecies.cpp:92-118 | two builders set up alike give matching parameters or throw the same |
| `EciesBuilder.ThrowsExactlyWhenIncomplete` | src/ecies.cpp:92-118 | the check throws exactly for half-set MAC or cipher parameters, and keeps what the caller has set |
| `EciesBuilder.ParametersExactly` | src/ecies.cpp:49-118 | what the caller has set is kept, what he has not is the X9.63 KDF, an HMAC of 64 bytes and AES-256 in CBC mode with padding and an IV of zeros; and what stays set where the check throws |
| `EciesBuilder.DefaultSchemeKeys` | src/ecies.cpp:160-189 | in the default scheme the AES key and the MAC key, 32 and 64 bytes, are in this order the bytes derived from the agreed secret and the KDF salt, on both sides |
| `EciesBuilder.DefaultsPersist` | src/ecies.cpp:92-118 | a builder used once hands the same factories to its next context of either direction |
| `EciesBuilder.DefaultEncryptor` | src/ecies.cpp:49-90 | the defaults always yield keys of the right size and a padding cipher |
| `EciesBuilder.EncryptionOfChunks` | src/ecies.cpp:218-250 | a cipher of either direction turns a plaintext in chunks into its one-shot result, with its tag, or throws exactly where there is none |
| `EciesBuilder.DecryptionOfChunks` | src/ecies.cpp:290-326 | given a ciphertext in chunks and its tag, `finish` returns the one-shot result, or throws exactly where there is none |
| `EciesBuilder.PaddedEncryptionFinishes` | src/ecies.cpp:231-250 | a padding encryptor finishes every plaintext whose ciphertext HMAC can count |
| `EciesBuilder.ChunksRoundTrip` | src/ecies.cpp:207-345 | the round trip for chunk lists, for all matching parameters with a padding cipher |
| `EciesBuilder.DefaultSchemeRoundTrip` | src/ecies.cpp:424-469 | the default scheme end to end: every plaintext, all chunkings, all salts |
| `EciesBuildOrder.DefaultsNeedSeparateBuilders` | src/ecies.cpp:92-118 | builders set up alike without a cipher factory of the caller's own, whatever each has built first: what becomes of every plaintext in any chunks on either side, and that all are delivered exactly if neither builder has first built a context of the other direction |
| `EciesBuildOrder.OneByteFails` | src/ecies.cpp:92-118 | a plaintext that is not delivered wherever the sender's builder first built for decryption or the receiver's for encryption |
| `EciesContexts.InstantiateMacAndSymCipher` | src/ecies.cpp:160-189 | makes the objects the machine's keys describe, the MAC first |
| `EciesContexts.ECIESEncryptionCtx.Update` | src/ecies.cpp:218-229 | takes exactly the machine's step |
| `EciesContexts.ECIESEncryptionCtx.Finish` | src/ecies.cpp:231-250 | takes exactly the machine's step, with the state each failure leaves behind |
| `EciesContexts.ECIESEncryptionCtx.GetMAC` | src/ecies.cpp:254-261 | throws before `finish` and returns the MAC after |
| `EciesContexts.ECIESDecryptionCtx.Update` | src/ecies.cpp:290-300 | takes exactly the machine's step: the cipher keeps a message the MAC refuses |
| `EciesContexts.ECIESDecryptionCtx.Finish` | src/ecies.cpp:302-326 | takes exactly the machine's step: MAC first, plaintext after |
| `EciesContexts.ECIESDecryptionCtx.SetMAC` | src/ecies.cpp:335-339 | replaces the tag and nothing else |
| `EciesContexts.ECIESCtxBuilder.CheckForRequiredParameters` | src/ecies.cpp:92-118 | fills in defaults in place, and keeps those filled in when it throws later |
| `EciesContexts.ECIESCtxBuilder.BuildEncryptionCtx` | src/ecies.cpp:424-442 | a fresh context in the machine's initial state, or the exception |
| `EciesContexts.ECIESCtxBuilder.BuildDecryptionCtx` | src/ecies.cpp:449-469 | a fresh context in the machine's initial state, or the exception |
| `EciesContexts.SendAndReceive` | src/ecies.cpp:207-469 | the objects at work: two new builders, any chunks on either side, and the receiver has the plaintext |
| `Pem.FindFindsFirst` | src/format_utils.h:51-74 | the search finds the first match, and none only where there is none |
| `Pem.SplitPEMChain` | src/format_utils.h:42-100 | the loop ends on every input, because its position strictly advances, and computes `Pem.Split` |
| `Pem.NextElement` | src/format_utils.h:51-95 | one turn of the loop, with its errors |
| `PemChain.ScanReads` | src/format_utils.h:51-95 | a well-formed element is read as its body, and the scan goes on right after its own end marker |
| `PemChain.RenderThenSplit` | src/format_utils.h:42-100 | every rendering, with any white space, splits into the canonical forms of its elements in order |
| `PemChain.SplitIsOfRendering` | src/format_utils.h:42-100 | every text that splits is a rendering of what it splits into |
| `PemChain.AcceptsExactlyRenderings` | src/format_utils.h:42-100 | a text splits if and only if it is a rendering of well-formed elements |
| `PemChain.RefusesExactly` | src/format_utils.h:52-92 | exactly which texts are refused, after which elements, and with which exception |
| `PemChain.SplitsThis` | src/format_utils.h:42-100 | a text with white space of each kind and what it splits into |
| `PemChain.CanonicalText` | src/format_utils.h:87-94 | an element is the begin marker, a line break, the body, a line break and the end marker |
| `PemChain.SplitConserves` | src/format_utils.h:80-97 | white space aside, outputs and input are the same text |
| `PemChain.SplitIsNormalForm` | src/format_utils.h:87-97 | splitting the joined result gives the same list, for every one-line end marker |
| `PemChain.NormalFormExactly` | src/format_utils.h:87-97 | for all markers, whether splitting the joined result gives the same list: with an end marker of line breaks only, exactly if the list is empty or the begin marker is neither empty nor a line break; with any other, exactly if in each element the first end marker is the last |
| `PemChain.TwoLineEndMarkerBreaksNormalForm` | src/format_utils.h:89-92 | an input that does not come back: with a marker of two lines the inserted line break completes a marker early |
| `PemChain.JunkAfterElement` | src/format_utils.h:52-59 | anything but white space after the last element is refused |
| `Rewrap.ReformatPEMCertificate` | src/x509.cpp:82-124 | computes `Rewrap.Reformat`, with the wrap-around of a missing begin marker |
| `Rewrap.ReformatExactly` | src/x509.cpp:82-124 | what becomes of any text: between the markers the content but for the last character in lines of 64, everything else unchanged |
| `Rewrap.UnchangedExactly` | src/x509.cpp:82-124 | exactly which texts come back unchanged, with the begin marker and without |
| `Rewrap.HeadlessIsMangled` | src/x509.cpp:86-110 | texts without a begin marker that come back with a character lost |
| `Rewrap.WrapLines` | src/x509.cpp:113-120 | every line is exactly 64 characters, except a last one of one to 64 |
| `Rewrap.WrapKeepsContent` | src/x509.cpp:113-120 | the lines hold the content unchanged |
| `Rewrap.WrappedExactly` | src/x509.cpp:113-120 | wrapping the content of a text gives the text back exactly if it is in lines of 64 |
| `Rewrap.ReformatCanonical` | src/x509.cpp:82-124 | a canonical element becomes a canonical element over the wrapped, space-free body |
| `Rewrap.LoadPEMChain` | src/x509.cpp:354-368 | splits and rewrites every element, or throws what the splitter throws |
| `Rewrap.ChainRewrapped` | src/x509.cpp:354-368 | every element of a chain keeps its content, has lines of 64, and is left alone by a second rewriting |
| `Asn1Time.LimitsAreYears` | src/asn1time.cpp:68-121 | the limits are the first second of the years 0 and 1900 and the last of the year 9999, by the calendar |
| `Asn1Time.OpensslDiff` | src/openssl_wrap.cpp:685-700 | the trusted difference: exact, less than a day of seconds, one sign |
| `Asn1Time.Diff` | src/openssl_wrap.cpp:685-700 | the check of the sign convention never fires |
| `Asn1Time.Add` | src/asn1time.cpp:68-121 | the exact instant, or an exception exactly outside the years 1900-9999; no operation overflows |
| `Asn1Time.Subtract` | src/asn1time.cpp:123-123 | the same for the negated duration |
| `Asn1Time.Minus` | src/asn1time.cpp:125-134 | the exact difference, without overflow in the 32-bit product |
| `Asn1Time.OperatorsAgree` | src/asn1time.cpp:136-146 | the six operators are the comparisons of one total order |
| `Asn1Time.DifferencesCompose` | src/asn1time.cpp:68-134 | differences compose, and undo addition; adding a difference back works exactly from the year 1900 on |
| `Asn1Time.Compare` | src/openssl_wrap.cpp:751-777 | the true order against every 64-bit time_t |
| `Asn1Time.CheckLimits` | src/openssl_wrap.cpp:786-794 | throws exactly outside the limits |
| `Asn1Time.SecondsSinceEpoch` | src/openssl_wrap.cpp:732-741 | the exact number of seconds, without overflow |
| `Asn1Time.ToTimePoint` | src/openssl_wrap.cpp:801-815 | throws exactly outside the nanosecond clock's whole seconds, and is exact inside |
| `Asn1Time.ToTimeT` | src/openssl_wrap.cpp:822-831 | never throws, and is exact |
| `Asn1Time.ConversionsRoundTrip` | src/asn1time.cpp:41-59 | converting and converting back is the identity wherever possible |
| `CertificateAuthority.ValidAtEveryInstant` | src/ca.cpp:98-125 | a returned certificate verifies with its issuer at every instant of its non-empty window, which lies in the issuer's |
| `CertificateAuthority.IssuesExactly` | src/ca.cpp:74-131 | exactly which certificate answers which request: its subject, key, issuer, serial, extensions and signature, its dates, and the conditions on them |
| `CertificateAuthority.IssuesWhatWasAsked` | src/ca.cpp:74-152 | a returned certificate has the request's subject and key, the authority's name as issuer, the serial, the dates and extensions asked for, and a signature over all of it |
| `CertificateAuthority.RefusesExactly` | src/ca.cpp:92-125 | what each exception stands for |
| `CertificateAuthority.VerifiesExactly` | src/ca.cpp:114-123 | verification at an instant is chaining and both windows, ends excluded |
| `CertificateAuthority.Authority.Create` | src/ca.cpp:31-43 | an authority exists exactly for a key that is the certificate's |
| `CertificateAuthority.Authority.SignCertificate` | src/ca.cpp:133-152 | dates, all extensions in order, then a signature over the rest |
| `CertificateAuthority.Authority.SignCSR` | src/ca.cpp:74-131 | returns or throws as specified, and uses up a serial number exactly for a returned certificate |
| `CertificateAuthority.SerialsOverEveryRun` | src/ca.cpp:92-124 | in every run the returned serials are consecutive, hence distinct, and the counter never wraps |
| `CertificateAuthority.IssuedOnRequest` | src/ca.cpp:74-131 | in every run each returned certificate is what one of the requests asked for |
| `CertificateAuthority.WindowsNest` | src/ca.cpp:98-113 | along issued certificates of any depth every window lies in every ancestor's |
| `CertificateAuthority.WholeChainVerifies` | src/ca.cpp:114-123 | at every instant of the leaf's window every link of the chain verifies |
| `Der.PaddedOfNumber` | src/openssl_wrap.cpp:1077-1092 | bytes to number and back to as many bytes |
| `Der.NumberOfPadded` | src/openssl_wrap.cpp:1077-1092 | number to padded bytes and back, for every number that fits |
| `Der.NumberJoins` | src/openssl_wrap.cpp:1077-1092 | numbers are big-endian: bytes in front weigh 256 times as much for each byte behind them |
| `Der.EncodeExactly` | src/openssl_wrap.cpp:1347-1374 | the encoding octet by octet: tags, lengths, and the shortest integers |
| `Der.DecodeEncode` | src/openssl_wrap.cpp:1347-1374 | decoding the DER of a signature returns it, whatever follows |
| `Der.DecodesExactly` | src/openssl_wrap.cpp:1347-1374 | bytes decode to a signature if and only if they start with its encoding |
| `EcdsaFormat.ThroughAsn1` | src/asymmetric_crypto_ctx.cpp:486-499 | every vector that converts to DER converts back to itself, except for a key of no bytes, where converting back throws |
| `EcdsaFormat.Ieee1363RoundTrip` | src/asymmetric_crypto_ctx.cpp:612-626 | a vector converts exactly when it has twice the key's bytes, and converts back to itself exactly if the key has any |
| `EcdsaFormat.Asn1RoundTrip` | src/asymmetric_crypto_ctx.cpp:486-499 | a DER signature converts exactly when the key has bytes and both numbers fit them, r then stands before s, and it converts back to itself |
| `EcdsaFormat.VerifiesExactly` | src/asymmetric_crypto_ctx.cpp:632-681 | exactly which signatures verify against which digests, in either format, by the key alone; a vector of another length is refused |
| `EcdsaFormat.FormatsAreTransparent` | src/asymmetric_crypto_ctx.cpp:534-681 | in either format signing returns exactly for digests of the right size, and what it returns verifies exactly against digests of that size for which the key verifies its own DER signature |
| `DistinguishedName.GetIndexByNid` | src/openssl_wrap.cpp:905-915 | all positions of an id, in order |
| `DistinguishedName.IndicesInRange` | src/openssl_wrap.cpp:905-915 | the positions found have the id, the first is the first, and none are found only where there is none |
| `DistinguishedName.IndicesAreAll` | src/openssl_wrap.cpp:905-915 | the positions found increase, and are exactly those of the id |
| `DistinguishedName.LookupFinds` | src/distinguished_name.cpp:141-153 | the lookup finds the last attribute with the id, exactly where there is one |
| `DistinguishedName.PopulateX509Name` | src/distinguished_name.cpp:45-64 | writes the attributes in the name's own order or in the fixed one, without empty values |
| `DistinguishedName.CustomOrderIsKept` | src/distinguished_name.cpp:36-50 | with a custom order the X.509 name is exactly the attributes that are not empty, each once, in their own order |
| `DistinguishedName.FixedOrder` | src/distinguished_name.cpp:50-63 | without one it has an entry exactly for each attribute with a last value that is not empty, with that value, in the fixed order of ids |
| `DistinguishedName.ReadX509Name` | src/distinguished_name.cpp:83-98 | hands the first entry of each id to a builder, and throws as the builder does |
| `DistinguishedName.ReadsFirst` | src/distinguished_name.cpp:66-98 | reading any X.509 name takes the first value of each id, and throws exactly where that of the country is too long |
| `DistinguishedName.ReadBack` | src/distinguished_name.cpp:45-98 | populating and reading back never throws for a built name, and what each attribute comes back as |
| `DistinguishedName.NameRoundTrip` | src/distinguished_name.cpp:45-130 | the name that comes back is equal: always without a custom order, and with one exactly if first and last non-empty values agree |
| `DistinguishedName.RepeatedAttributeIsNotKept` | src/distinguished_name.cpp:71-80 | a custom-order name with a repeated attribute that does not come back equal |
| `DistinguishedName.TuplesAgree` | src/distinguished_name.cpp:100-129 | unordered equality is agreement on every attribute |
| `DistinguishedName.EqualsExactly` | src/distinguished_name.cpp:115-130 | names with custom orders are equal exactly with the same attributes in order, others exactly with the same values |
| `DistinguishedName.OrderedImpliesUnordered` | src/distinguished_name.cpp:115-130 | equality in order implies equality without |
| `DistinguishedName.TransitiveExactly` | src/distinguished_name.cpp:115-130 | equality is transitive exactly except through a name without an order, between two that have one |
| `DistinguishedName.OrderIsForgotten` | src/distinguished_name.cpp:115-130 | two names that are not equal, and one that is equal to both |
| `DistinguishedName.Builder.Append` | src/mococrw/distinguished_name.h:163-246 | appends an attribute, and refuses a country name of more than two characters |
| `Hex.ToHex` | src/util.cpp:31-38 | two digits per byte, in order |
| `Hex.WritesExactly` | src/util.cpp:31-38 | for each byte in order the lower-case digit of its upper half, and then of its lower half |
| `Hex.FromHex` | src/util.cpp:40-71 | reads pairs of characters as `strtoul` does, after an optional prefix |
| `Hex.ReadsExactly` | src/util.cpp:40-71 | each two digits make a byte, the upper half first |
| `Hex.AcceptedExactly` | src/util.cpp:40-71 | which texts are accepted, pair by pair, and how many bytes they give |
| `Hex.SignIsAccepted` | src/util.cpp:48-66 | an accepted text that is not made of digits |
| `Hex.BytesRoundTrip` | src/util.cpp:31-71 | bytes to text and back, with or without the prefix |
| `Hex.TextRoundTrip` | src/util.cpp:31-71 | an even number of digits to bytes and back, in lower case |

## Left out

- EciesBuilder.ChunksRoundTrip: like the default scheme and its use of builders, stated for ciphertexts and MAC salts of at most INT_MAX bytes; `EciesRuns.EciesRoundTripExactly` says what happens beyond. Where the narrowed length is negative the original reads out of bounds, and the model stops with an error.
- AesStream.UpdatesAccepted: does not count the payload of a GCM cipher, of which OpenSSL takes at most 2^36 - 32 bytes (section 5.2.1.1 of NIST SP 800-38D).
- EcdsaFormat.Ieee1363RoundTrip: stated for keys of up to 10^9 bytes, because a DER encoding longer than an `int` cannot be written.
- Asn1Time.Subtract: excludes a duration of INT64_MIN seconds, whose negation does not exist in the original either.
- AES rounds, hash functions, elliptic curves and RSA: functions with the laws named above; CTR and GCM are a key stream and a tag function, not built from the block permutation.
- What lies behind a GCM IV that is too short: any bytes. That reading them is out of bounds is not modelled further.
- A GCM context after a `finish` that failed inside OpenSSL, or after associated data that is empty or too long: it may do anything, and nothing is claimed of what it returns.
- A CBC context after a failed `finish`: unchanged, as in OpenSSL 1.1.1.
- Factories: an ECIES factory chooses any configuration of this library's cipher and MAC for a key; objects of a caller's own classes, and ciphers of mode GCM with a caller-set tag length, are not modelled.
- The setters of the builders, and certificates as recipients in place of public keys: assignments and a forward.
- BER that is not DER, and negative INTEGERs, in ECDSA signatures: refused here, accepted in part by OpenSSL.
- Limits and conversions that OpenSSL applies to the strings of a name, and country names of certificates that were not made from a built name beyond the builder's refusal.
- `CertificateAuthority::createRootCertificate`, key usage, path length, revocation and name checks: the time-independent part of verification is one predicate.
- X509 parsing of the rewritten certificates, files, hardware modules, engines, key generation, hashes, and key derivation beyond its output length.
- Memory cleansing, constant-time comparison, copying of implementation objects, and failures inside OpenSSL such as allocation.
- Texts longer than a `size_t`, zero bytes inside PEM texts, and `isspace` on negative characters.
