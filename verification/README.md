# Verified model of the secure trading environment

This project models, in Dafny, the parts of the repository whose correctness rests on
more than one function: the key-release service and its client, the order-intent
pipeline from strategy to executor, the two openers of sealed packages, and the locked
buffers and exits of the bootstrap. It proves properties of those models for every
input, every interleaving and every reachable state.

`dafny verify dfyconfig.toml` checks the whole project.

## How it is modelled

- **Cryptography** is a record of functions (`Crypto.Suite`) with laws (`Crypto.Lawful`):
  X25519 commutes (section 6.1 of RFC 7748), ML-KEM-768 decapsulation undoes
  encapsulation (sections 7 and 8 of FIPS 203), AES-GCM opening undoes sealing (sections
  7.1 and 7.2 of NIST SP 800-38D), HKDF is a function (section 2 of RFC 5869), honest
  signatures verify. Every result holds for every lawful suite, and a toy suite shows
  the laws are consistent. SHA-256 is never assumed injective: a result that needs it
  says "or here is a collision".
- **Unforgeability** is a restriction on what the network may deliver: a message that
  verifies under an unbroken scheme is one that was signed. The key service has two
  schemes, each of which may be declared broken.
- **Checks are stated through the primitives.** What a check accepts is said a second
  time without the function that makes it: in bytes of the report, in calls of the
  suite and in literal tags (the lemmas named `...Exact`), and unforgeability speaks of
  the suite's verification only.
- **Concurrent code** is a step machine. `Exec` folds a sequence of steps from a state;
  each lock-protected region is one step, and everything outside a lock is split.
- **Objects that change in place** are classes (`ServerCache`, `KrsServer`, `SigningKey`,
  `IntentObject`, `IntentVerifier`, `IntentQueue`, `ProtectedMemory`, `CloudProtection`, ...),
  and loops are loops.
- **Randomness, clocks, devices, commands and the file system** are parameters. Hex,
  base64, UTF-8 and JSON are lossless codecs. Python floats are opaque bit patterns with
  an injective, pipe-free rendering, and their values are reals, infinities or NaN.
- **Objects and step machines** of the same code are tied together: an uninterrupted run
  of the steps of one call does what the method does (`WholePostIsDoPost`,
  `WholeCallIsVerify`, `WholeCallIsEmit`, and the last clause of `ServerCache.Fresh`).

## Where the code does not do what its documentation suggests

- A production bootstrap never returns 0: `verify_via_key_service` reads `tee_type`
  (src/cloud_protection.py:299), which raises until something sets it, and nothing has.
  `Bootstrap.CloudProtection.Bootstrap` states exactly when 0 is returned.
- The report the bootstrap requests binds one nonce (src/cloud_protection.py:646-660) and
  `release` sends another (src/krs_client.py:71), so such a report does not attest the
  request: `KeyRelease.ReportBindsItsNonce`.
- The response fields are signed without framing and the client does not check their
  sizes. A returned measurement and wrapped key are the server's exactly when the
  ciphertext has 1088 bytes and the measurement 48 (`KeyReleaseProtocol.Agreement`);
  `KeyReleaseProtocol.SizesAreNeeded` is a run, with both schemes unbroken, in which a
  session returns another key and another measurement than the server's.
- A symbol with a pipe in it makes the signing bytes readable in two ways:
  `Intents.UniqueReadingExact` shows that a pipe-free symbol is exactly the condition.
- Integer prices, as in the class's usage example, change the signing bytes when an
  intent travels as JSON: `IntentJson.RoundTripKeepsSigningBytes`.
- The window test of `emit_batch` is outside the lock. Non-overlapping calls are spaced
  (`Emission.EmissionSpacing`); in general a schedule is spaced on every clock exactly
  when no unforced batch is drained by a call that tested before the batch ahead of it
  was drained (`Emission.SpacingExact`).
- An id can be accepted twice between two calls of `clear_seen`, when a call passes the
  replay check before a clear and returns after it (`IntentPipeline.ReplayAcrossClear`).
  It cannot when `clear_seen` is only called while no such call is in flight
  (`IntentPipeline.QuietRunsAcceptOnce`), and that is exactly the condition
  (`IntentPipeline.ClearExact`).
- An intent whose timestamp is NaN passes the age checks at any time:
  `IntentPipeline.BuiltIntentPasses`.
- A package with a file `a` beside a file `a/b`, or with a directory named like a blob,
  seals but never decrypts (`Package.NestedFilesFail`, `Package.BlobDirectoryFails`);
  `Package.PackageRoundTrip` states exactly which packages come back.
- `ProtectedMemory.write` lets a negative offset through and `read` shortens its view by
  it; reading back zero bytes returns the rest of the buffer
  (`ProtectedMemory.ProtectedMemory.WriteThenRead` states exactly when data comes back).
- The Rust opener refuses master keys shorter than 32 bytes and the Python one does
  not: `Unwrap.OpenersAgreeExactly`.
- A file named only `.aesgcm` keeps its name, so it can share a target with
  `.aesgcm.aesgcm`: `Package.TargetsCollideExactly`.

## Files

| file | contents |
|---|---|
| Wrappers, Bytes, Sequences, Crypto | shared types, byte arithmetic, the suite and its laws |
| Framing, Hybrid | length-prefixed framing, hybrid signatures and key wrap |
| ReplayCache | both replay caches and their block description |
| Attestation | report requests, parsing and verification |
| KeyRelease, KeyReleaseProtocol | one exchange, then every interleaving of exchanges |
| Banding, Intents, IntentJson | size bands, signing bytes, dictionary form |
| IntentPipeline, Emission | builder, network and verifier; queue and batch window |
| Unwrap, Package | the two openers and the package loop |
| ProtectedMemory, Bootstrap | page ranges, buffers, and the bootstrap's exits |

## Model

| member | source | states |
|---|---|---|
| KeyReleaseProtocol.Agreement | src/krs_client.py:102-125 | in every interleaving, if Ed25519 or ML-DSA is unforgeable, a session that returned a key matches a handler that ran that session's own request (same keys, report, nonce); the reply holds the signed bytes of that handler; its fields are the handler's exactly when the ciphertext and measurement have their fixed sizes, and then the key is the server's |
| KeyReleaseProtocol.ReleaseSafety | src/krs_server.py:82-136 | in every production interleaving and for every TCB floor a handler sends either the one refusal or status 200 with the key wrapped to exactly the request's two public values, after a chain-verified report whose data is SHA-256 of those values, the nonce and the tag, with that report's allowlisted measurement |
| KeyReleaseProtocol.OneReportOneBinding | src/krs_server.py:106-118 | two releases on one report are to the same public values and nonce, or SHA-256 has collided |
| KeyReleaseProtocol.SameNonceAcrossBlocks | src/krs_server.py:103-104 | two handlers that passed the replay check with one nonce, released or refused afterwards, did so in different cache blocks |
| KeyReleaseProtocol.HonestExchange | src/krs_server.py:90-133 | from every state, a waiting session whose report is genuine for its keys and nonce (or any report outside production) and one uninterrupted handler end with the client holding the server's key and the report's measurement |
| KeyReleaseProtocol.SizesAreNeeded | src/krs_client.py:114-116 | with both schemes unbroken there is a run in which a session returns another key than the server's and another measurement than that of the handler that answered its request |
| KeyReleaseProtocol.OneSchemeIsNeeded | src/hybrid.py:44-55 | with both schemes broken a session can return although no handler ran |
| KeyReleaseProtocol.RunKeepsInv | src/krs_server.py:90-136 | every step of handlers, clients and network keeps the protocol invariant |
| KeyReleaseProtocol.WholePostIsDoPost | src/krs_server.py:90-136 | an uninterrupted handler of the step machine sends the response, and leaves the cache, that the method specifies, for every request; a refusal has the reason of the first check that fails |
| KeyReleaseProtocol.DeliverExact | src/krs_client.py:102-125 | a delivered reply ends its own session, with the error of the check or with the checked key and measurement, and touches nothing else |
| KeyRelease.KrsServer.DoPost | src/krs_server.py:90-136 | 200 exactly for a request to /verify with 32-byte key and nonce, a fresh nonce, a report genuine for its values (in production) and public values both primitives accept, with the report's measurement and both signatures over the five fields in order; the one refusal otherwise; a well-formed request spends its nonce either way |
| KeyRelease.AttestExact | src/krs_server.py:106-114 | the server attests exactly the requests whose report is genuine for SHA-256 of keys, nonce and tag under its verifier, with the report's measurement bytes; outside production every request, with 24 times DE AD |
| KeyRelease.ScreenExact | src/krs_server.py:91-101 | the first checks pass exactly for requests to /verify with a body and two 32-byte fields, and refuse in that order |
| KeyRelease.CheckReplyExact | src/krs_client.py:102-125 | a client returns a key and measurement exactly when two signatures verify over the five fields, the nonce is echoed and AES-GCM opens under the key of both secrets and the three public values; each error names the first of these that fails |
| KeyRelease.BindingInjective | src/krs_server.py:42-43 | with the two 32-byte checks the hash preimage determines public values and nonce |
| KeyRelease.BindingAmbiguousWithoutSizes | src/krs_server.py:100-101 | without the nonce check a byte can move between two fields |
| KeyRelease.ReportBindsItsNonce | src/cloud_protection.py:646-660 | a report requested with one nonce attests no request with another, or SHA-256 has collided |
| KeyRelease.SignedBytesSplit | src/krs_server.py:117-118 | equal signed bytes have equal nonces, and equal fields once three sizes agree |
| KeyRelease.SignedBytesShift | src/krs_server.py:117-118 | a byte moved from the wrapped key into the measurement leaves the signed bytes the same |
| Hybrid.HybridSignVerifies | src/hybrid.py:40-55 | signing never raises and its output always verifies |
| Hybrid.WrapThenUnwrap | src/hybrid.py:65-86 | wrapping to a client's public values succeeds and the client's private values recover the key |
| Hybrid.RecoveryNeedsBothSecrets | src/hybrid.py:60-86 | whoever opens a wrap has its X25519 secret and its ML-KEM secret and names the two public values it was made for, or HKDF has collided, or AES-GCM has opened under another key |
| Hybrid.RecoveryNeedsKemSecret | src/hybrid.py:60-86 | with everything else the same, a different decapsulated secret does not open the wrap, or HKDF has collided, or AES-GCM has opened under another key |
| Hybrid.WrapSizes | src/hybrid.py:65-75 | the three parts of a wrap have fixed sizes |
| Framing.UnframeLoop | src/hybrid.py:30-35 | the loop stops on every blob with the parts that its headers announce, or with the error exactly when reading leads to one to three leftover bytes |
| Framing.UnframeExact | src/hybrid.py:30-35 | a result is the unframing of a blob if and only if it is what the places of its headers, read from the front, say |
| Framing.FrameThenUnframe | src/hybrid.py:26-35 | unframing undoes framing for all parts shorter than 2^32 |
| Framing.FrameInjective | src/hybrid.py:26-27 | framing is injective |
| Framing.UnframeThenFrame | src/hybrid.py:30-35 | framing undoes a successful unframing exactly when no header overruns the blob |
| Framing.FrameIsUncut | src/hybrid.py:26-27 | framed blobs are uncut, so these are exactly the outputs of framing |
| ReplayCache.ServerCache.Fresh | src/krs_server.py:52-59 | accepts exactly unseen hashes and clears when full before adding; each call is one step of the runs the block results are about |
| ReplayCache.BootstrapCache.CheckThenRecord | src/cloud_protection.py:600-606 | `has_seen` then `record` is the same operation with capacity 10000 |
| ReplayCache.CacheIsCurrentBlock | src/krs_server.py:46-59 | in every run the cache is the current block of the accepted sequence, within capacity, and accepts within a block are distinct |
| ReplayCache.WellBlockedIsAccepted | src/krs_server.py:52-59 | a sequence is accepted in full exactly when it is well blocked |
| ReplayCache.RepeatBound | src/krs_server.py:46-59 | in every run no hash is accepted more than n/cap, rounded up, times in n accepts |
| Attestation.BuildRequest | src/snp_verify.py:71-76 | the request buffer: padded data, the level as a little-endian word, zeros; no request exactly when the level is no 32-bit word |
| Attestation.VerifyExact | src/snp_verify.py:166-205 | for every verifier, whatever its TCB floor, verification accepts exactly the reports whose single bytes meet the chain, data, allowlist, debug, SMT and TCB conditions, and returns the measurement bytes |
| Attestation.VerifyReason | src/snp_verify.py:166-205 | a refusal names the first condition that fails, in the order chain, data, measurement, debug, SMT, TCB |
| Attestation.ReadAnswerExact | src/snp_verify.py:90-100 | the kernel's answer yields its bytes 32 to 1216 exactly when there is no firmware error, the status bytes are zero and the size says at least 1184; the errors come in that order |
| Attestation.ExtremeFloors | src/snp_verify.py:197-201 | a floor of 2^64 or more refuses every report, and one of zero or less refuses none |
| Attestation.FetchedBindingIsExact | src/snp_verify.py:180-183 | fetch-side and verify-side padding agree exactly for equal 32-byte bindings |
| Bytes.LittleEndianOrder | src/snp_verify.py:116-117 | for any width, little-endian comparison is most-significant-byte-first comparison |
| Bytes.LittleEndianBit | src/snp_verify.py:113-114 | for any width, bit k of a little-endian integer is bit k mod 8 of byte k div 8 |
| Bytes.FitToCollision | src/snp_verify.py:71 | padding identifies exactly strings that differ in trailing zeros |
| IntentPipeline.EndToEnd | src/signed_order_intent.py:434-475 | if Ed25519 verifies only texts that were signed, then whatever the network does and however calls interleave, every accepted intent carries an order that was built: same side, prices and timestamp, the banded size, and the same id and symbol if the symbol had no pipe |
| IntentPipeline.NoReplayBetweenClears | src/signed_order_intent.py:461-480 | in every run acceptances of one id are separated by a clear between their replay checks; the seen set is exactly the ids admitted since the last clear |
| IntentPipeline.SharedSessionStraddles | src/signed_order_intent.py:461-480 | in every run two acceptances of one id return between the same clears only if the earlier call passed its replay check before a clear and returned after it |
| IntentPipeline.QuietRunsAcceptOnce | src/signed_order_intent.py:461-480 | in every run that clears only while no call is between its replay check and a possible True, each id is accepted at most once between clears |
| IntentPipeline.ClearExact | src/signed_order_intent.py:477-480 | after such a run, one more clear keeps that for every continuation exactly when no such call is in flight |
| IntentPipeline.ReplayAcrossClear | src/signed_order_intent.py:461-480 | for every order there is a run that accepts its intent twice with no clear between the two returns |
| IntentPipeline.WholeCallIsVerify | src/signed_order_intent.py:434-475 | the uninterrupted steps of one call give the answer and the seen ids that the method specifies |
| IntentPipeline.BoundedAcceptance | src/signed_order_intent.py:440-480 | acceptances of an id number at most one plus the clears between the first and the last, each on a clock within the allowed window around its timestamp, or with a NaN timestamp |
| IntentPipeline.RunKeepsInv | src/signed_order_intent.py:434-480 | every step of builder, network and concurrent verifier calls keeps the pipeline invariant |
| IntentPipeline.BuildKeepsOrder | src/signed_order_intent.py:338-367 | a built intent has the order's fields, a size from the table with the value `coarse_band` gives, and a verifying signature |
| IntentPipeline.BuiltIntentPasses | src/signed_order_intent.py:440-475 | a built intent is accepted exactly while its id is unseen and the clock is within the window around its timestamp, or the timestamp is NaN |
| IntentPipeline.IntentVerifier.Verify | src/signed_order_intent.py:434-475 | True exactly for a timely, unseen, correctly signed intent with the SHA-256 hash of the verifier's key, and the exact reason otherwise; the id is spent once the first checks pass |
| IntentPipeline.ScreenExact | src/signed_order_intent.py:440-459 | which timestamps expire, which lie in the future, and when the key hash is what fails, for finite, infinite and NaN timestamps |
| Intents.SigningLayout | src/signed_order_intent.py:248-264 | the eight fields in order between seven pipes |
| Intents.SigningTextExact | src/signed_order_intent.py:248-264 | with pipe-free key hashes, signing bytes are equal exactly when the six trailing fields and the joined id and symbol are |
| Intents.JoinReadsFromRight | src/signed_order_intent.py:264 | joined texts with k pipe-free trailing parts are equal exactly part by part from the right |
| Intents.UniqueReadingExact | src/signed_order_intent.py:248-264 | no other intent shares the bytes of a built one exactly when its symbol has no pipe |
| Intents.SignThenVerify | src/signed_order_intent.py:267-298 | a signed intent verifies, carries the hex SHA-256 of the public key and keeps its other fields |
| Intents.VerifyIntentExact | src/signed_order_intent.py:283-298 | an intent verifies exactly when its signature is hex for one that Ed25519 verifies over the eight fields between pipes |
| Intents.SigningKey.Sign | src/signed_order_intent.py:191-199 | signs until zeroized, then refuses |
| Intents.SigningKey.Zeroize | src/signed_order_intent.py:201-213 | the old seed is overwritten with zeros and signing is off for good |
| Intents.IntentObject.Sign | src/signed_order_intent.py:267-280 | the in-place edit, including the key hash left behind when signing raises |
| IntentJson.RoundTripNormalises | src/signed_order_intent.py:106-138 | a JSON round trip yields declared types, is idempotent, and is the identity exactly on declared types |
| IntentJson.RoundTripExact | src/signed_order_intent.py:106-138 | a round trip succeeds exactly when integers in float fields and floats in integer fields convert, and gives those conversions and every other field unchanged |
| IntentJson.RoundTripKeepsValues | src/signed_order_intent.py:119-131 | size and prices keep their value, up to integers of 53 bits; side and timestamp are cut off at the point |
| IntentJson.FromDictExact | src/signed_order_intent.py:118-131 | a dictionary reads as an intent exactly when every key is there and each field is the text, integer or float of its value |
| IntentJson.FromDictFault | src/signed_order_intent.py:118-131 | a dictionary that does not read raises for the first field, in order, that is missing or does not convert |
| IntentJson.RoundTripKeepsSigningBytes | src/signed_order_intent.py:106-138 | a round trip keeps the signing bytes exactly when the fields had their declared types |
| IntentJson.TypedIntentSurvives | src/signed_order_intent.py:283-298 | a signed intent with declared types comes back unchanged and verifies |
| Banding.BandIsCell | src/signed_order_intent.py:42-59 | for every positive increasing table a band's preimage is the interval between midpoints, ties going low |
| Banding.BandIsNearest | src/signed_order_intent.py:42-59 | the band is a nearest member for every size |
| Banding.BandIsMonotone | src/signed_order_intent.py:42-59 | banding is monotone and idempotent |
| Banding.DoublingError | src/signed_order_intent.py:37-59 | for a doubling table of any length the error is at most size/3 exactly from 3/4 of the first to 3/2 of the last member |
| Banding.DefaultTable | src/signed_order_intent.py:37-39 | the default table doubles, so the bound holds exactly from 0.375 to 1536 |
| Emission.QueueConserves | src/signed_order_intent.py:369-396 | in every interleaving the batches followed by the pending intents are exactly what was enqueued, in order |
| Emission.SpacedFromTest | src/signed_order_intent.py:384-391 | in every interleaving an unforced batch comes a window after the batch that was latest when its call tested |
| Emission.EmissionSpacing | src/signed_order_intent.py:384-396 | when calls do not overlap, n consecutive unforced batches after one span at least n windows |
| Emission.OverlapBreaksSpacing | src/signed_order_intent.py:384-393 | two overlapping calls can emit two unforced batches at once, for every positive window |
| Emission.SpacingExact | src/signed_order_intent.py:384-396 | a schedule of calls, forced ones included, keeps unforced batches a window apart on every clock that gives the same batches exactly when each unforced batch is drained by a call that saw the batch ahead of it |
| Emission.StaleTestBreaksSpacing | src/signed_order_intent.py:384-393 | whenever a call drains after another has drained since its test, some clocks for the same schedule bring its batch less than a window after the one before |
| Emission.WholeCallIsEmit | src/signed_order_intent.py:375-396 | the uninterrupted steps of one call return and leave behind what the method specifies |
| Emission.IntentQueue.EmitBatch | src/signed_order_intent.py:375-396 | a due or forced call drains everything pending and restarts the window if the batch is not empty; otherwise nothing changes |
| Emission.IntentQueue.Enqueue | src/signed_order_intent.py:369-373 | appends and returns the depth |
| Unwrap.BmsrOpen | key_unwrap/src/lib.rs:42-104 | the return codes in guard order; a success writes the plaintext within the capacity and nothing else, a failure writes nothing |
| Unwrap.RustVerdictExact | key_unwrap/src/lib.rs:42-104 | when each return code comes and when a plaintext, in terms of pointers, lengths, capacity and AES-GCM under the HKDF key |
| Unwrap.HkdfAesGcmOpen | src/rust_unwrap.py:59-81 | the binding returns what the Rust function delivers for the split blob |
| Unwrap.RustOpenExact | src/rust_unwrap.py:59-81 | the binding delivers exactly the authentic plaintext of blobs of 44 bytes or more, for master keys of 32 bytes or more |
| Unwrap.OpenersAgree | src/cloud_protection.py:151-163 | for master keys of 32 bytes or more both openers accept the same blobs with the same plaintext, and no code but the decryption error reaches the binding |
| Unwrap.OpenersAgreeExactly | key_unwrap/src/lib.rs:55-57 | they agree on all blobs exactly when the key has at least 32 bytes |
| Unwrap.SealThenOpen | src/cloud_protection.py:138-163 | opening undoes sealing |
| Unwrap.OpenExact | src/cloud_protection.py:151-163 | opening delivers exactly what AES-GCM makes of the split blob under the key of the first 32 master bytes, the salt and the tag; shorter blobs are refused |
| Package.DecryptPackage | src/cloud_protection.py:411-442 | succeeds exactly when the required opener exists, every listed blob authenticates under its logical path and no target is a directory or lies below a file, there or among the targets, with the count and the written tree; a failure is the first error in listing order, with exactly what was done before it |
| Package.OpenBlobExact | src/cloud_protection.py:433-438 | opening a listed blob yields exactly the plaintext that AES-GCM authenticates for its logical path |
| Package.RefusedBlobFails | src/cloud_protection.py:433-439 | one blob that does not authenticate stops the package in every listing order, and its target stays as it was unless another blob has the same one |
| Package.OnlyAuthenticWritten | src/cloud_protection.py:428-441 | completed or stopped, the loop leaves only earlier files and authentic plaintext of listed blobs under their own targets |
| Package.PackageRoundTrip | src/cloud_protection.py:411-442 | any finite map of named files, sealed and listed in any order, is restored exactly and counted, to distinct targets, if and only if no sealed directory is named like a blob and no file is in another's way, in the package or the output directory |
| Package.RunExact | src/cloud_protection.py:428-441 | the loop over any prefix of the listing runs through exactly when its blobs open and its targets fit, and then has made every directory and written every target |
| Package.RunKeepsTree | src/cloud_protection.py:432-439 | completed or stopped, the loop leaves a directory tree that still has every earlier file and directory |
| Package.ConflictNeverDecrypts | src/cloud_protection.py:432-439 | a package with a file in another's way or a directory named like a blob fails in every listing order and for every output directory |
| Package.NestedFilesFail | src/cloud_protection.py:432-439 | the files `a` and `a/b` can be sealed, and never decrypt |
| Package.BlobDirectoryFails | src/cloud_protection.py:428-433 | a file in a directory with the blob suffix can be sealed, and never decrypts |
| Package.TargetsCollideExactly | src/cloud_protection.py:429-431 | two blobs share a target exactly when one is a bare suffix and the other that path with the suffix again |
| ProtectedMemory.LockedRangeIsSmallest | src/cloud_protection.py:80-101 | for every power-of-two page size the locked range is the smallest aligned range covering the buffer |
| ProtectedMemory.ProtectedMemory.Write | src/cloud_protection.py:111-114 | unless it ends past the buffer it stores the data at any offset, negative ones included, and changes no other byte; otherwise changes nothing; offsets of zero or more stay inside the buffer |
| ProtectedMemory.ProtectedMemory.Read | src/cloud_protection.py:116-121 | for any offset and length: the bytes of the place asked for, up to the end when the length is missing or zero, shortened by a negative offset; raises exactly when offset plus length is negative |
| ProtectedMemory.ProtectedMemory.WriteThenRead | src/cloud_protection.py:111-121 | data comes back exactly when the write ends inside the buffer and does not start before it; empty data only at the end of the buffer or from an empty one |
| ProtectedMemory.Registry.ZeroiseAll | src/cloud_protection.py:129-133 | every registered buffer ends up all zero |
| Bootstrap.CloudProtection.Bootstrap | src/cloud_protection.py:633-738 | 0 exactly for a development run whose every stage succeeds and whose package fits the output directory, with the derived key and the written package; on every other exit the master key is absent or all zero |
| Bootstrap.CloudProtection.Acquire | src/cloud_protection.py:664-707 | a key is obtained only on the development path, and is the HKDF of measurement and token secret |
| Bootstrap.TeeAttestation.VerifyReport | src/cloud_protection.py:263-289 | succeeds exactly when the measurement bytes are the padded expected ones, and only then records anything |
| Bootstrap.TeeAttestation.VerifyViaKeyService | src/cloud_protection.py:291-303 | raises while the TEE type is unset, before any key is asked for |

## Left out

- TLS, sockets, HTTP parsing, the client's receive loop, argument parsing and logging: plumbing over libraries.
- The internals of the primitives and of src/pqc.py: only their laws are used.
- Secrecy of the keys: the laws say nothing about what an adversary can compute.
- The snpguest command sequence, the ioctl, mlock, madvise, lockdown checks, TEE detection and the Nitrokey: outcomes passed in.
- The continuous attestation monitor, signal handlers and `SecureZeroizer`: process exit and timing.
- `_fetch_sev_snp_ext_report` and TDX quotes: unused or a stub.
- IEEE rounding: ages and bands are computed over the reals; sizes, bands, clocks and maximum ages are finite.
- Integer timestamps too large for a float, for which the age raises.
- Aliasing of intent objects held in the queue after they are enqueued: queue entries are values.
- ProtectedMemory.ProtectedMemory.Write: accesses to unmapped memory, which fault, are not modelled; it requires mapped addresses.
- ProtectedMemory.ProtectedMemory.Read: the same; the view is the bytes at the time of the call, not an alias of the buffer.
- Randomising a buffer.
- Disk, permission and symbolic-link errors, and an output directory inside the sealed one.
- Names made only of dots before the suffix, whose treatment by `with_suffix` depends on the Python version.
- The policies of KRS_POLICY.md and DEPLOYMENT_CONTRACT.md that the code does not implement (rate limits, TTL, audit records).
- What a failing bootstrap leaves in the output directory: stated for the package loop, not repeated for the bootstrap.
