# Verified model of the HUKS core formats and protocols

This project models the parts of the OpenHarmony key store (`security_huks`) in which most of its
own arithmetic, pointer work and coordination lies, and proves what those parts are there for.  One
Dafny module stands for one component:

| file | models |
|---|---|
| `CTypes.dfy`, `Memory.dfy`, `CText.dfy` | 32-bit words, bytes and status codes; memory as numbered blocks of bytes with `HksMalloc`, `HksFree`, `memcpy_s`; C strings and base64 |
| `ParamLayout.dfy`, `ParamRefresh.dfy`, `ParamBuild.dfy`, `ParamCopy.dfy`, `ParamTags.dfy`, `ParamDelete.dfy` | parameter sets (`hks_param.c`): layout and abstract value, refresh (relocation), Init/Add/Build, copies, lookup and tag checks, deletion of tags |
| `WrappedData.dfy`, `Tlv.dfy` | the two walkers over the wrapped-key format, and the DER reader with its claim loop |
| `KeyMaterial.dfy`, `KeyCheck.dfy`, `KeyPublic.dfy`, `Curve25519.dfy`, `KeyFormat.dfy`, `KeyExport.dfy` | key material: format, import check, public part and its cutting, 25519 packing, export as a parameter set, and the way from there to the public components |
| `DoubleList.dfy` | the intrusive circular doubly linked list and its iteration macros, on the heap |
| `Condition.dfy`, `Arrivals.dfy` | the one-shot condition variable as a transition system with any number of calls; its runs in terms of the calls that arrived |
| `RsaCipher.dfy`, `Aead.dfy`, `AesPadding.dfy` | the size pipelines around RSA-OAEP with base64, AES-GCM/CCM, and AES-CBC padding |
| `Purpose.dfy` | which key purposes are acceptable |
| `PlainParams.dfy`, `PlainFormats.dfy`, `PlainKeys.dfy`, `PlainCiphers.dfy` | the words of the other files spelled out: every format, check and outcome once more in bytes, indices and literal numbers |
| `Instances.dfy` | the assumptions about foreign code are met by some functions: base64 itself, and one for each cipher |

A blob pointer is a block number and an offset.  A `ParamSet` has its header fields and its
parameter slots as fields of a class, and its blobs as bytes of its block.  A parameter list has an
abstract value, `Entries`: tags with scalars or blob contents.  Copying, building and deleting are
stated about that value; `Built` says that no pointer leaves the set's own block and that the blobs
fill its tail to the last byte.

Surroundings are parameters: `Platform` says which allocations succeed (by size) and what
`memcpy_s` answers for an empty copy into an empty destination; block cipher, authenticated
encryption and base64 are function values of which only sizes and inverses are assumed (`Lawful…`);
`engineOk` and `mallocOk` stand for failures of the engine and of allocation.

Formats and outcomes have names in the model (`Encode`, `Built`, `Accepted`, …) that contracts and code
share.  The `Plain…` files say what each name means without using another one: which bytes a length
is, which tags are blobs, where a blob lies, which sizes a key may have, which words a command needs.

Some results are about limits of the code, with the exact condition:

* The size field of a set under construction is the true size modulo 2^32, because the addition of
  a parameter's 24 bytes is not checked; it is the true size exactly below 2^32 (`SizeFieldIsTotalIff`),
  and `SizeFieldCanWrap` gives a call that leaves a size field of 16.  `HksBuildParamSet` refuses
  every such set.
* `HksGetBlobFromWrappedData` reads past the end of its data exactly if 1 to 3 bytes are left behind the
  records and the asked index, which must be below the total, is not below their number (`GetBlob`, with
  `OneByteIsReadPastEnd` as the shortest input); never on data that `CheckFormat` has accepted.
* `FormatDsaKey` copies from behind the private component without looking at that component's size, and
  the sizes it and its siblings compute wrap at 2^32.  `CopyPublicIff` says for every material when they
  read past its end and when they write past the new block.  Where nothing wraps that is: never written,
  and read exactly if there is memory for a copy, and room for the public bytes behind the header but not
  behind the private component (`UnwrappedReadsIff`, `WritesOnlyIfWrapped`).  `DsaCanReadPastEnd`,
  `WrappedDsaCanReadPastEnd` and `PrefixCanWritePastEnd` give inputs; material that passed the import check
  is safe.
* `HKS_DLIST_SAFT_ITER` needs an initialized head: on a zeroed one, which the plain macro takes for an
  empty list, it reads through NULL (`IterateSafely`).
* Iterating with `HKS_DLIST_ITER` and a body that removes the current node visits all members exactly
  if none but possibly the last is removed (`PlainIterationStopsShort` for a list of two).
* `GetDsaPubKeyParam` cuts its four components one after the other up to the end of the blob exactly if
  the 32-bit sum of the sizes does not wrap (`DsaSizesCanWrap` for a blob whose sizes do).
* A parameter set too large for the caller's buffer leaves that buffer zeroed, its size field included
  (`BuildParamSetOut`).
* RSA decryption gives back the plain text exactly if it holds no zero byte (`TextIsCutAtZero`) and the
  buffer has at most 2^31 - 1 bytes, above which memcpy_s refuses it; AES-CBC decryption exactly if the
  length of the text is no multiple of 16.
* AES-CBC decryption reads before its buffer exactly if its input decodes to 1 to 15 bytes
  (`DecryptReadsBeforeIff`).
* The comment on `CheckAesAeCipherData` asks for more than 16 bytes of input for decryption; the code lets
  16 through, and `HksFillAeadParam` then refuses them (`BareTagIsRefused`).

## Model

| member | source | states |
|---|---|---|
| ParamLayout.RelocationKeepsMeaning | frameworks/huks_standard/main/common/src/hks_param.c:385-406 | relocation is the identity on meaning: the bytes of a finished set copied to any block, with the pointers moved there, are a finished set with the same entries |
| ParamLayout.BuiltTiles | frameworks/huks_standard/main/common/src/hks_param.c:317-347 | in a finished set blob i lies in the set's own block at header + parameters + the sizes of the blobs before it, and ends within the set and below 2^32 |
| ParamLayout.RelocatedMeaning | frameworks/huks_standard/main/common/src/hks_param.c:326-339 | parameters pointed to a tail that holds their blobs mean what they meant before |
| PlainParams.ScalarPlainly | frameworks/huks_standard/main/common/src/hks_param.c:152-155 | a parameter of any type but bytes takes 24 bytes and means its number |
| PlainParams.BlobPlainly | frameworks/huks_standard/main/common/src/hks_param.c:262-272 | a blob takes in addition the bytes its size says, and means them |
| PlainParams.TotalPlainly | frameworks/huks_standard/main/common/src/hks_param.c:262-272 | the size of a set, parameter by parameter |
| PlainParams.EntriesPlainly | frameworks/huks_standard/main/common/src/hks_param.c:360-383 | what each parameter of a list means, in bytes of memory |
| PlainParams.BuiltIff | frameworks/huks_standard/main/common/src/hks_param.c:317-347 | a set is finished exactly if its size is the total of at most 4 MiB, its block is as large, and every blob lies behind the parameters and the blobs before it |
| PlainParams.RelocatePlainly | frameworks/huks_standard/main/common/src/hks_param.c:326-339 | where relocation points each parameter |
| ParamRefresh.SizesOkIff | frameworks/huks_standard/main/common/src/hks_param.c:231-242 | the header check, with its division, is the bound header + 24 * count <= size <= 4 MiB |
| ParamRefresh.FreshParamSet | frameworks/huks_standard/main/common/src/hks_param.c:317-347 | succeeds exactly if the blobs fill the set to its last byte (and no empty blob at the end meets a memcpy_s that refuses empty copies); then every pointer is at its place, with isCopy the blobs lie there, and no other block has changed |
| ParamRefresh.FreshOne | frameworks/huks_standard/main/common/src/hks_param.c:322-340 | one parameter: offset, 32-bit and room checks, copy and pointer; a failed check changes nothing, and a refused copy has cleared the room that was left |
| ParamRefresh.HksFreshParamSet | frameworks/huks_standard/main/common/src/hks_param.c:350-358 | refuses inconsistent headers without touching memory, otherwise as FreshParamSet |
| ParamRefresh.RefreshOfReceived | frameworks/huks_standard/main/common/src/hks_param.c:350-358 | for any received header a refresh in place succeeds exactly if its size is the true total, and the result is a finished set whatever the pointers were |
| ParamRefresh.RefreshOfBuilt | frameworks/huks_standard/main/common/src/hks_param.c:317-358 | refreshing a finished set in place, so also a second time, succeeds and changes nothing |
| PlainParams.FreshPlainly | frameworks/huks_standard/main/common/src/hks_param.c:317-347 | what a refresh leaves, in pointers and bytes, and exactly when it succeeds |
| ParamBuild.HksAddParams | frameworks/huks_standard/main/common/src/hks_param.c:190-276 | adds all parameters or exactly those before the first blob whose size overflows, nothing if the checks fail, and keeps the size field equal to the total modulo 2^32 and the count within the 42 slots, on success and on failure |
| ParamBuild.AddOne | frameworks/huks_standard/main/common/src/hks_param.c:262-273 | one parameter is added with its size, or list and size field are as before |
| ParamBuild.AddAll | frameworks/huks_standard/main/common/src/hks_param.c:256-276 | every sequence of calls, including failing ones, keeps the builder's invariant and runs through AddStep |
| ParamBuild.AddStepGrows | frameworks/huks_standard/main/common/src/hks_param.c:190-276 | no call changes what was added or exceeds the buffer, and a call within the limits and without NULL blobs adds everything |
| ParamBuild.StopsOnlyAtLimit | frameworks/huks_standard/main/common/src/hks_param.c:264-269 | a call stops midway only if the true size would reach 2^32 |
| ParamBuild.SizeFieldIsTotalIff | frameworks/huks_standard/main/common/src/hks_param.c:263-270 | the size field is the true size exactly while that is below 2^32 |
| ParamBuild.SizeFieldCanWrap | frameworks/huks_standard/main/common/src/hks_param.c:263 | a concrete call that passes all checks and wraps the size field |
| ParamBuild.HksInitParamSet | frameworks/huks_standard/main/common/src/hks_param.c:244-254 | a fresh empty set in a fresh block of 1024 bytes, or nothing |
| ParamBuild.Reallocate | frameworks/huks_standard/main/common/src/hks_param.c:215-226 | a set with the same header and parameters in a fresh block of the full size; the old block is freed |
| ParamBuild.HksBuildParamSet | frameworks/huks_standard/main/common/src/hks_param.c:209-288 | succeeds exactly if the true size is at most 4 MiB, the larger block can be allocated where one is needed, and no trailing empty blob meets a refusing memcpy_s; then the result is finished and has the entries that were added, in place or reallocated, and nothing else has changed; which error otherwise, for sizes up to 4 MiB |
| ParamBuild.BuildDecided | frameworks/huks_standard/main/common/src/hks_param.c:209-242 | the decisions taken on the 32-bit size field agree with those on the true size, so a wrapped size never passes |
| ParamBuild.BuildFromCalls | frameworks/huks_standard/main/common/src/hks_param.c:190-288 | Init, any sequence of calls of HksAddParams with any results, also calls that are refused for a NULL blob, Build: succeeds exactly if the two blocks can be allocated and what the run added can be built, and the new set then means exactly that list; existing blocks are unchanged |
| PlainParams.AddPlainly | frameworks/huks_standard/main/common/src/hks_param.c:190-207 | exactly which calls are let through, and which parameter overflows |
| PlainParams.AddStepPlainly | frameworks/huks_standard/main/common/src/hks_param.c:256-276 | what a call adds: everything before the first parameter that overflows, or nothing |
| PlainParams.BuildResultPlainly | frameworks/huks_standard/main/common/src/hks_param.c:209-288 | exactly which lists can be built, and the error for the others up to 4 MiB |
| PlainParams.MeansPlainly | frameworks/huks_standard/main/common/src/hks_param.c:209-288 | what it is for two lists to mean the same, parameter by parameter |
| PlainParams.NumberAndBlob | frameworks/huks_standard/main/common/src/hks_param.c:190-288 | a number or truth value and a blob: Init, two Adds and Build succeed exactly if memory and 4 MiB allow, and every byte of the set is given |
| ParamCopy.HksGetParamSet | frameworks/huks_standard/main/common/src/hks_param.c:385-406 | succeeds exactly on a consistent header whose size is the true total, and which error otherwise; the copy is a finished set in a fresh block with the entries of a finished original, and memory is as before on failure |
| ParamCopy.BuildFrom | frameworks/huks_standard/main/common/src/hks_crypto_adapter.c:300-319 | Init, Add and Build in one go: succeeds exactly within the limits, in a set of its own; existing blocks are unchanged |
| ParamCopy.BuildParamSetOut | frameworks/huks_standard/main/common/src/hks_crypto_adapter.c:300-330 | the caller's buffer becomes a finished set with the entries of the given parameters exactly if they can be built and the buffer's size field leaves room and is at most 2^31 - 1; if they cannot be built, or the size field is above that, the buffer is unchanged, with the error of the step that failed; if the set is too large the refused copy has zeroed the buffer, header included |
| PlainParams.FromResultPlainly | frameworks/huks_standard/main/common/src/hks_crypto_adapter.c:300-330 | which lists BuildParamSetOut can build, and which error otherwise |
| PlainParams.ClearedPlainly | frameworks/huks_standard/main/common/src/hks_crypto_adapter.c:320-324 | what a buffer that is too small holds afterwards, byte by byte and slot by slot |
| ParamTags.HksGetParam | frameworks/huks_standard/main/common/src/hks_param.c:360-383 | finds the first parameter with the tag, refuses a blob without data or bytes, and reports a missing tag exactly if there is none |
| ParamTags.GetsEntry | frameworks/huks_standard/main/common/src/hks_param.c:369-382 | on readable sets that is lookup in the abstract entries |
| ParamTags.HksCheckParamSetTag | frameworks/huks_standard/main/common/src/hks_param.c:27-188 | accepts exactly if every tag is in the table and no tag occurs again later |
| ParamTags.TagsOkIff | frameworks/huks_standard/main/common/src/hks_param.c:168-188 | that is: all tags known and pairwise distinct |
| ParamTags.HksCheckIsTagAlreadyExist | frameworks/huks_standard/main/common/src/hks_param.c:445-464 | accepts exactly if the header is consistent and the two lists have no tag in common |
| ParamTags.ConcatAcceptable | frameworks/huks_standard/main/common/src/hks_param.c:168-464 | a concatenation is acceptable exactly if both parts are and the check for common tags passes |
| ParamTags.LookupIsDisjointUnion | frameworks/huks_standard/main/common/src/hks_param.c:360-464 | lookup in such a concatenation is the disjoint union of the two lookups, in either order |
| ParamTags.EveryParamIsFound | frameworks/huks_standard/main/common/src/hks_param.c:360-383 | with distinct tags every parameter is found under its tag |
| PlainParams.GetsPlainly | frameworks/huks_standard/main/common/src/hks_param.c:360-383 | the answer of HksGetParam from the first parameter with the tag |
| PlainParams.TagsOkPlainly | frameworks/huks_standard/main/common/src/hks_param.c:168-188 | the tag check in indices |
| ParamDelete.HksDeleteTagsFromParamSet | frameworks/huks_standard/main/common/src/hks_param.c:466-506 | refreshes its input in place; succeeds exactly if that succeeds, at most 42 parameters are kept and the new set can be built, and which error otherwise; on success the new set means the kept parameters; existing blocks are unchanged |
| ParamDelete.AddKept | frameworks/huks_standard/main/common/src/hks_param.c:480-497 | the loop collects the kept parameters in order and fails only when there are more than 42 |
| ParamDelete.DeleteIsFilter | frameworks/huks_standard/main/common/src/hks_param.c:466-506 | the new entries are the order-preserving filter of the old ones; deleted tags are missing and every other lookup is as before |
| PlainParams.KeptPlainly | frameworks/huks_standard/main/common/src/hks_param.c:480-497 | what is kept, parameter by parameter, and which errors follow |
| WrappedData.CheckFormat | frameworks/huks_standard/main/common/src/hks_common_check.c:150-192 | accepts exactly the concatenations of 1 to total records (32-bit length, then that many bytes, at least one), with the given lengths where a table is given; which error otherwise |
| WrappedData.GetBlob | frameworks/huks_standard/main/common/src/hks_common_check.c:194-224 | returns the place and size of record i exactly if the data starts with more than i records, otherwise an error, or a read past the end exactly if 1 to 3 bytes are left over |
| WrappedData.GetterInvertsEncoder | frameworks/huks_standard/main/common/src/hks_common_check.c:150-224 | on encoded records the checker accepts exactly 1 to total of them and the getter returns record i unchanged, or an error past the last |
| WrappedData.AcceptedDataIsSafe | frameworks/huks_standard/main/common/src/hks_common_check.c:150-224 | on data the checker accepted the getter never reads past the end |
| WrappedData.LeftOverIsReadPastEnd | frameworks/huks_standard/main/common/src/hks_common_check.c:194-224 | behind any records, 1 to 3 further bytes make the getter read past the end |
| WrappedData.OneByteIsReadPastEnd | frameworks/huks_standard/main/common/src/hks_common_check.c:194-224 | the shortest such data, one byte |
| WrappedData.SplitOfEncode | frameworks/huks_standard/main/common/src/hks_common_check.c:162-186 | reading inverts encoding, whatever bytes follow |
| CTypes.LoadIs | frameworks/huks_standard/main/common/src/hks_common_check.c:169-175 | a length is four bytes, least significant first |
| CTypes.StoreIs | frameworks/huks_standard/main/common/src/hks_common_check.c:169-175 | and these are the bytes of a number |
| PlainFormats.RecordPlainly | frameworks/huks_standard/main/common/src/hks_common_check.c:162-186 | a record in bytes |
| PlainFormats.CheckedStep | frameworks/huks_standard/main/common/src/hks_common_check.c:162-186 | the checker on data whose first four bytes are a fitting length: that record counts and the rest is checked alike |
| PlainFormats.NotChecked | frameworks/huks_standard/main/common/src/hks_common_check.c:162-186 | it accepts no other data |
| PlainFormats.GetsStep | frameworks/huks_standard/main/common/src/hks_common_check.c:206-221 | the getter on such data: record 0 lies behind the first four bytes, the others in the rest |
| PlainFormats.GetsNothing | frameworks/huks_standard/main/common/src/hks_common_check.c:206-221 | and its answer on all other data |
| Tlv.DecodeHeader | frameworks/huks_standard/main/core/src/hks_verifier.c:252-285 | header size and payload length of definite-form headers with 1 to 3 length bytes, an error for all others |
| Tlv.ReadHeaderIff | frameworks/huks_standard/main/core/src/hks_verifier.c:252-312 | the headers it reads are exactly those of the definite form, of 2, 3 or 4 bytes |
| Tlv.ExtractTlv | frameworks/huks_standard/main/core/src/hks_verifier.c:287-365 | succeeds exactly if the input starts with a value whose non-empty payload lies in the input, and copies that payload |
| Tlv.ReaderInvertsDer | frameworks/huks_standard/main/core/src/hks_verifier.c:252-365 | it inverts the encoding of section 8.1.3 of ITU-T X.690 for every payload of 1 to 65535 bytes |
| Tlv.ParseOfEncode | frameworks/huks_standard/main/core/src/hks_verifier.c:495-534 | consecutive encoded values are read back, whatever follows |
| Tlv.FillClaims | frameworks/huks_standard/main/core/src/hks_verifier.c:495-534 | the claim loop terminates and succeeds exactly if for every payload there is memory and it is taken, and at most two bytes are left; what it passed on is always a prefix of the payloads |
| Tlv.ClaimsTileData | frameworks/huks_standard/main/core/src/hks_verifier.c:495-534 | on success the payloads passed on are those of values that tile the data up to two bytes |
| Tlv.EncodedClaimsArePassedOn | frameworks/huks_standard/main/core/src/hks_verifier.c:495-534 | for encoded claims success depends on the receiver and on memory alone, and all payloads arrive in order |
| Tlv.PassedPlainly | frameworks/huks_standard/main/core/src/hks_verifier.c:495-534 | whatever it returns, the loop has handed on only claims below 10240 bytes |
| PlainFormats.ItemPlainly | frameworks/huks_standard/main/core/src/hks_verifier.c:252-365 | which bytes a value is read from, and its payload |
| PlainFormats.FilledPlainly | frameworks/huks_standard/main/core/src/hks_verifier.c:495-534 | exactly when the claim loop succeeds |
| KeyMaterial.DecodeOfEncode | frameworks/huks_standard/main/common/include/hks_crypto_hal.h:77-117 | the components of encoded key material are found again, whatever follows |
| KeyMaterial.EncodeOfDecode | frameworks/huks_standard/main/common/include/hks_crypto_hal.h:77-117 | every blob with a consistent header is an encoding with something behind it |
| PlainKeys.WordPlainly | frameworks/huks_standard/main/common/include/hks_crypto_hal.h:77-117 | a header word in bytes |
| PlainKeys.ThreePartMaterial | frameworks/huks_standard/main/common/include/hks_crypto_hal.h:77-91 | RSA, EC and SM2 material, word by word and component by component |
| PlainKeys.TwoPartMaterial | frameworks/huks_standard/main/common/include/hks_crypto_hal.h:103-117 | the same for 25519 and DH |
| PlainKeys.DsaMaterial | frameworks/huks_standard/main/common/include/hks_crypto_hal.h:93-101 | and for DSA |
| KeyCheck.CheckRsaKeyLen | frameworks/huks_standard/main/common/src/hks_check_paramset.c:545-574 | accepts exactly headers of the algorithm and size with n, e, d of 1 to 4096 bytes that lie in the blob |
| KeyCheck.CheckEccKeyLen | frameworks/huks_standard/main/common/src/hks_check_paramset.c:576-612 | the same for x, y, z up to 521 bytes; x and y may be empty only without the public key |
| KeyCheck.CheckDsaKeyLen | frameworks/huks_standard/main/common/src/hks_check_paramset.c:614-654 | the same for x, y, p, q, g up to 2048 bytes; only y may be empty, and only without the public key |
| KeyCheck.CheckKeyPairLen | frameworks/huks_standard/main/common/src/hks_check_paramset.c:656-731 | the same for the key pairs of 25519 (256) and DH (4096) |
| KeyCheck.CheckKeyLen | frameworks/huks_standard/main/common/src/hks_check_paramset.c:733-752 | accepts exactly the encodings of complete material of the asked algorithm and size, with anything behind them |
| KeyCheck.AcceptedSumFits | frameworks/huks_standard/main/common/src/hks_check_paramset.c:567-725 | no 32-bit sum of accepted component sizes wraps |
| PlainKeys.RsaCheckPlainly | frameworks/huks_standard/main/common/src/hks_check_paramset.c:545-574 | exactly which RSA material is accepted, in header words and numbers |
| PlainKeys.EccCheckPlainly | frameworks/huks_standard/main/common/src/hks_check_paramset.c:576-612 | the same for EC and SM2 |
| PlainKeys.DsaCheckPlainly | frameworks/huks_standard/main/common/src/hks_check_paramset.c:614-654 | the same for DSA |
| PlainKeys.PairCheckPlainly | frameworks/huks_standard/main/common/src/hks_check_paramset.c:656-731 | the same for 25519 and DH |
| PlainKeys.FamiliesPlainly | frameworks/huks_standard/main/common/src/hks_check_paramset.c:733-752 | which check an algorithm gets |
| KeyPublic.PublicPartIs | frameworks/huks_standard/main/common/src/hks_crypto_adapter.c:476-582 | the public blob is the encoding of the material without its private component: private size zero, public components unchanged |
| KeyPublic.SlicePublicKey | utils/crypto_adapter/hks_client_service_adapter.c:418-446 | cuts two components off behind the 20 header bytes, or fails if they do not lie in the blob |
| KeyPublic.SlicesOfPublicPart | utils/crypto_adapter/hks_client_service_adapter.c:430-444 | on public blobs that gives n and e, x and y, or the public key, and never fails |
| KeyPublic.GetDsaPubKeyParam | utils/crypto_adapter/hks_client_service_adapter.c:207-235 | offsets and sizes of y, p, q, g with 32-bit sums |
| KeyPublic.DsaCutIsInOrderIff | utils/crypto_adapter/hks_client_service_adapter.c:207-235 | the four components follow each other and end in the blob exactly if the sizes do not wrap |
| KeyPublic.DsaSizesCanWrap | utils/crypto_adapter/hks_client_service_adapter.c:207-235 | a header of 28 bytes whose sizes wrap is accepted, and y then has 2^32 - 1 bytes |
| KeyPublic.DsaRoundTrip | utils/crypto_adapter/hks_client_service_adapter.c:207-235 | on the public blob of DSA material it returns the original y, p, q, g |
| PlainKeys.GotDsaPlainly | utils/crypto_adapter/hks_client_service_adapter.c:207-235 | what GetDsaPubKeyParam answers, in header words |
| PlainKeys.CopyThreeParts | frameworks/huks_standard/main/common/src/hks_crypto_adapter.c:476-566 | the public part of RSA and EC material: a slice with four bytes zeroed |
| PlainKeys.CopyDh | frameworks/huks_standard/main/common/src/hks_crypto_adapter.c:568-582 | the same for DH |
| PlainKeys.CopyDsaPlainly | frameworks/huks_standard/main/common/src/hks_crypto_adapter.c:503-530 | the public part of DSA material: two slices with four bytes zeroed |
| PlainKeys.TooShortPlainly | frameworks/huks_standard/main/common/src/hks_crypto_adapter.c:476-582 | the errors for material that is too short |
| KeyFormat.FormatKeyInner | frameworks/huks_standard/main/common/src/hks_crypto_adapter.c:334-348 | the caller's set holds exactly the two keys, or it fails, with the error of the step up to 4 MiB; other blocks are unchanged |
| PlainKeys.RoomPlainly | frameworks/huks_standard/main/common/src/hks_crypto_adapter.c:334-348 | which two keys can be handed out, and which error otherwise |
| PlainKeys.HoldsKeysPlainly | frameworks/huks_standard/main/common/src/hks_crypto_adapter.c:334-348 | the tags, places and bytes of the two keys in the set |
| PlainKeys.KeysOutcomeIff | frameworks/huks_standard/main/common/src/hks_crypto_adapter.c:334-348 | how handing out two keys ends: success, error, contents, and what stays unchanged |
| KeyFormat.FormatPrefixKey | frameworks/huks_standard/main/common/src/hks_crypto_adapter.c:476-582 | RSA, EC and DH, on every input: the set holds the copied public part and the whole material exactly if the material is long enough, the copy can be allocated and the set fits; which error otherwise; or the private size is written behind a block whose 32-bit size has wrapped |
| KeyFormat.FormatDsaKey | frameworks/huks_standard/main/common/src/hks_crypto_adapter.c:503-530 | the same for DSA, whose private component lies in front; or the copy reads past the end of the material |
| KeyFormat.CopyPublicIff | frameworks/huks_standard/main/common/src/hks_crypto_adapter.c:476-582 | on every material: the private size is written past the new block exactly if that block's 32-bit size does not reach that far, and the material is read past its end exactly if it is DSA material whose copied part has bytes and, counted from its 32-bit start, ends behind the material |
| KeyFormat.PublicPartIsCopied | frameworks/huks_standard/main/common/src/hks_crypto_adapter.c:476-582 | a public part that lies inside the material is what is copied, if there is memory |
| KeyFormat.WritesOnlyIfWrapped | frameworks/huks_standard/main/common/src/hks_crypto_adapter.c:476-582 | only sizes that wrap 32 bits lead to a write past the block |
| KeyFormat.UnwrappedReadsIff | frameworks/huks_standard/main/common/src/hks_crypto_adapter.c:503-530 | without a wrap, DSA material is read past its end exactly if the public bytes have room behind the header but not behind the private component |
| KeyFormat.DsaCanReadPastEnd | frameworks/huks_standard/main/common/src/hks_crypto_adapter.c:515-524 | 29 bytes of DSA material that are read past the end |
| KeyFormat.WrappedDsaCanReadPastEnd | frameworks/huks_standard/main/common/src/hks_crypto_adapter.c:515-524 | 29 bytes whose public sizes wrap to 1 are read past the end as well |
| KeyFormat.PrefixCanWritePastEnd | frameworks/huks_standard/main/common/src/hks_crypto_adapter.c:482-494 | an RSA header whose sizes wrap to a block of 8 bytes, in which the private size does not lie |
| KeyFormat.CheckedMaterialFormats | frameworks/huks_standard/main/common/src/hks_crypto_adapter.c:476-582 | material that passes the import check is copied safely, and the public part handed out is its public encoding |
| KeyFormat.FormatCurve25519Key | frameworks/huks_standard/main/common/src/hks_crypto_adapter.c:378-434 | on success the set holds the bare public and private key; success exactly if the material is complete, both keys are small enough, the set fits and can be built, and which error otherwise |
| KeyExport.KeyIsFound | frameworks/huks_standard/main/common/src/hks_param.c:360-383 | in a set that holds the two keys, lookup of either tag gives that key, or an error if it has no bytes |
| KeyExport.HandOutDsaKey | utils/crypto_adapter/hks_client_service_adapter.c:207-235 | FormatDsaKey, HksGetParam and GetDsaPubKeyParam on any complete material: succeeds exactly if there is memory and room, and gives the material's own y, p, q and g |
| KeyExport.HandOutPrefixKey | utils/crypto_adapter/hks_client_service_adapter.c:418-446 | the same for RSA, EC and DH: n and e, x and y, or the public key of the material |
| KeyExport.CurveDecided | frameworks/huks_standard/main/common/src/hks_crypto_adapter.c:378-434 | exactly when FormatCurve25519Key succeeds, from the header words, and which slices it then hands out |
| KeyExport.HandOutCurveKey | frameworks/huks_standard/main/common/src/hks_crypto_adapter.c:414-434 | FormatCurve25519Key and HksGetParam for both tags: the two slices behind the header, or none for an empty key |
| PlainKeys.CanHandOutPlainly | frameworks/huks_standard/main/common/src/hks_crypto_adapter.c:476-582 | what is asked of complete material, in header words |
| PlainKeys.ThreePartsPlainly | frameworks/huks_standard/main/common/include/hks_crypto_hal.h:77-91 | the components of RSA and EC material as slices |
| PlainKeys.DsaPartsPlainly | frameworks/huks_standard/main/common/include/hks_crypto_hal.h:93-101 | the same for DSA |
| Curve25519.SetCurve25519KeyMaterial | frameworks/huks_standard/main/common/src/hks_crypto_adapter.c:352-376 | the packed form of one key, the other one empty; a key for which 20 more bytes wrap 32 bits comes out as zeros |
| Curve25519.GetCurve25519FromKeyMaterial | frameworks/huks_standard/main/common/src/hks_crypto_adapter.c:436-460 | the asked key of consistent material, with the error for each other case |
| Curve25519.UnpackOfPack | frameworks/huks_standard/main/common/src/hks_crypto_adapter.c:352-460 | unpacking gives back the packed key exactly if it is not empty, and an error for the other key |
| PlainKeys.PackedPlainly | frameworks/huks_standard/main/common/src/hks_crypto_adapter.c:352-376 | a packed 25519 key in bytes |
| PlainKeys.Got25519Plainly | frameworks/huks_standard/main/common/src/hks_crypto_adapter.c:436-460 | what unpacking answers, from the header words |
| DoubleList.InitializeDoubleList | utils/list/hks_double_list.c:22-30 | the node becomes a ring of its own |
| DoubleList.AddNodeAfterDoubleListHead | utils/list/hks_double_list.c:32-46 | prepends the node to the members, also of a zeroed head; NULL arguments change nothing; every ring apart from it stays a ring |
| DoubleList.AddNodeAtDoubleListTail | utils/list/hks_double_list.c:48-62 | appends the node, with the same frame |
| DoubleList.RemoveDoubleListNode | utils/list/hks_double_list.c:64-80 | takes exactly that node out of its ring and zeroes it, with the same frame |
| DoubleList.RingDistinct | utils/list/hks_double_list.c:22-80 | no node occurs twice in a ring |
| DoubleList.Iterate | utils/list/hks_double_list.h:45-51 | visits every member once, in order |
| DoubleList.IterateSafely | utils/list/hks_double_list.h:53-57 | reads through NULL exactly if the head is NULL or zeroed; otherwise, with a body that removes the current node, it still visits every original member once, leaves exactly those not removed, in order, and zeroes the others |
| DoubleList.IterateRemovingPlainly | utils/list/hks_double_list.h:45-51 | the plain macro with that body visits all members exactly if none but possibly the last is removed, and keeps a ring in any case |
| DoubleList.PlainIterationStopsShort | utils/list/hks_double_list.h:45-51 | a list of two members of which the plain loop visits one |
| DoubleList.RingIff | utils/list/hks_double_list.c:22-80 | what a ring is: distinct nodes, neighbours and ends linked both ways |
| Condition.StepKeepsInv | utils/condition/hks_condition.c:42-125 | every atomic step of every call keeps the invariant: one holder of the mutex, where each call may be while notified or not, how many calls are still blocked |
| Condition.RunKeepsInv | utils/condition/hks_condition.c:42-125 | so it holds in every state of every run with any number of calls |
| Condition.NobodyBlocksOnceNotified | utils/condition/hks_condition.c:42-69 | notified stays set, and no call blocks afterwards |
| Condition.NotifyAllFreesForGood | utils/condition/hks_condition.c:99-125 | after the broadcast of a NotifyAll no call is ever blocked again |
| Condition.NotifyWakesOne | utils/condition/hks_condition.c:71-97 | each Notify takes exactly one call out of the blocked ones, if there is any |
| Condition.ReturnsOnlyWhenNotified | utils/condition/hks_condition.c:42-69 | a call returns, with 0, only when notified is set |
| Condition.ActionsAreBounded | utils/condition/hks_condition.c:42-125 | between arrivals the calls take a bounded number of steps |
| Condition.QuiescentCalls | utils/condition/hks_condition.c:42-125 | when nothing can move every call has returned or is blocked: the mutex is never stuck |
| Condition.NoLostWakeUp | utils/condition/hks_condition.c:42-125 | a run at rest has left nobody blocked if a NotifyAll took part; with Notify alone those in excess of the Notify calls; with neither everybody |
| Arrivals.CallsAreArrivals | utils/condition/hks_condition.c:42-125 | the calls of a state are exactly those that arrived, in order and each as what it arrived as |
| Arrivals.OwedIsBlocked | utils/condition/hks_condition.c:71-125 | the number counted against is how many calls were blocked when the flag was set |
| Arrivals.ArrivalsDecide | utils/condition/hks_condition.c:42-125 | no lost wake-up from the arrivals alone: at rest everybody has returned 0 if a NotifyAll arrived; with n arrivals of Notify alone all but those in excess of n; with neither everybody is blocked |
| RsaCipher.RsaEncryptSize | frameworks/crypto_lite/cipher/src/cipher_rsa.c:340-353 | the queried length as a function of the number of blocks; also for keys shorter than 66 bytes, and no length exactly at 66 |
| RsaCipher.QueryIsEnough | frameworks/crypto_lite/cipher/src/cipher_rsa.c:339-353 | it is enough for all raw blocks and for the base64 text with its zero byte, for every text in a buffer of the length asked about |
| PlainCiphers.RawLengthPlainly | frameworks/crypto_lite/cipher/src/cipher_rsa.c:339-342 | one block for every started chunk |
| PlainCiphers.QueryPlainly | frameworks/crypto_lite/cipher/src/cipher_rsa.c:343-344 | the queried length exceeds base64 text and zero byte by at most 4 |
| RsaCipher.RsaEncryptMultipleBlock | frameworks/crypto_lite/cipher/src/cipher_rsa.c:260-318 | leaves the base64 text of all blocks and zeros to the end of the buffer, exactly if the key is longer than 66 bytes, the text not empty, every block encrypts and the buffer has room |
| RsaCipher.RsaEncryptBase64Encode | frameworks/crypto_lite/cipher/src/cipher_rsa.c:221-258 | replaces the raw bytes at the front by their base64 text and zeros |
| PlainCiphers.OneBlockPlainly | frameworks/crypto_lite/cipher/src/cipher_rsa.c:260-318 | a text of one block gives the base64 text of that block; keys of 66 bytes or fewer encrypt nothing |
| PlainCiphers.SealedPlainly | frameworks/crypto_lite/cipher/src/cipher_rsa.c:283-310 | a longer text: chunk by chunk, with one draw each |
| PlainCiphers.DecryptedPlainly | frameworks/crypto_lite/cipher/src/cipher_rsa.c:402-420 | decryption block by block |
| RsaCipher.RsaPkcs1Decrypt | frameworks/crypto_lite/cipher/src/cipher_rsa.c:383-436 | the texts of all whole blocks one behind the other, exactly if everything decodes, decrypts and fits room of at most 2^31 - 1 bytes |
| RsaCipher.DecryptInvertsEncrypt | frameworks/crypto_lite/cipher/src/cipher_rsa.c:260-436 | decryption gives back the C string that was encrypted, in every buffer as large as its base64 text that memcpy_s takes, and fails in larger ones: the chunks tile it |
| RsaCipher.RoundTripIff | frameworks/crypto_lite/cipher/src/cipher_rsa.c:271-436 | so the plain text comes back exactly if it has no zero byte and memcpy_s takes the buffer |
| RsaCipher.TextIsCutAtZero | frameworks/crypto_lite/cipher/src/cipher_rsa.c:271-436 | the text 1, 0, 2 comes back as 1 |
| RsaCipher.QueryAndEncrypt | frameworks/crypto_lite/cipher/src/cipher_rsa.c:320-363 | both calls of RsaEncrypt: with a buffer of the queried length encryption fails only for want of memory or of an encrypted block, or because the length does not fit an int32_t, and the buffer holds the base64 text as a C string |
| RsaCipher.EncryptAndDecrypt | frameworks/crypto_lite/cipher/src/cipher_rsa.c:260-436 | and decryption of that C string then always succeeds, with the C string that was encrypted |
| Aead.CheckAesAeCipherData | frameworks/huks_standard/main/common/src/hks_base_check.c:1748-1780 | succeeds exactly if text and tag fit the output (encryption), or the input has a tag and the rest fits (decryption), as numbers without a width |
| Aead.CheckCipherAeMaterial | frameworks/huks_standard/main/common/src/hks_base_check.c:1782-1840 | accepts exactly a nonce of at least 12 bytes (GCM) or 7 to 13 (CCM) with associated data that GCM may miss and CCM needs 4 bytes of, and which error otherwise |
| Aead.CheckLocalCipherParams | frameworks/huks_standard/main/core/src/hks_local_engine.c:172-192 | succeeds exactly with data in all blobs, algorithm AES, a key of 128, 192 or 256 bits, an AE mode, no padding, the purpose of the command, acceptable material and fitting sizes; when each error of algorithm, key size and missing purpose is returned |
| Aead.CheckCommand | frameworks/huks_standard/main/common/src/hks_check_paramset.c:493-507 | purpose, padding and mode of an AES command are accepted exactly if the purpose has the command's bit, the mode is GCM or CCM and there is no padding; a missing mode is refused, a missing padding is not |
| Aead.HksGetEncryptAeTag | frameworks/huks_standard/main/common/src/hks_crypto_adapter.c:244-266 | cannot fail after that check, and its tag slot lies in the output |
| Aead.HksFillAeadParam | frameworks/huks_standard/main/common/src/hks_crypto_adapter.c:112-162 | cuts exactly the last 16 bytes off the input as the tag; nonce and associated data from the parameter set |
| Aead.CipherEncrypt | frameworks/huks_standard/main/core/src/hks_local_engine.c:158-170 | the output starts with cipher text and tag, and its size covers both; an output without room for both is refused and left alone, unless the 32-bit sum wraps and the tag lies behind it |
| Aead.EncryptAndDecrypt | frameworks/huks_standard/main/core/src/hks_local_engine.c:194-216 | when a command succeeds in terms of the parameters, the key size and the sizes, and what it then leaves in the output; a refused command leaves the output alone |
| PlainCiphers.AcceptedPlainly | frameworks/huks_standard/main/core/src/hks_local_engine.c:172-216 | exactly which commands are accepted, in the numbers and blobs under their tags |
| PlainCiphers.RefusedPlainly | frameworks/huks_standard/main/core/src/hks_local_engine.c:172-216 | none without algorithm, purpose, mode or nonce, or with an empty blob |
| PlainCiphers.SealsPlainly | frameworks/huks_standard/main/core/src/hks_local_engine.c:158-216 | what an accepted command computes from them |
| PlainCiphers.ModesPlainly | frameworks/huks_standard/main/common/src/hks_base_check.c:1782-1840 | GCM goes without associated data, CCM does not |
| Aead.DecryptInvertsEncrypt | frameworks/huks_standard/main/core/src/hks_local_engine.c:158-216 | decryption with the same mode, nonce and associated data, and a purpose of its own, is the inverse of encryption on non-empty texts, and its input passes all checks |
| Aead.SealAndOpen | frameworks/huks_standard/main/core/src/hks_local_engine.c:194-216 | both commands one after the other on the caller's buffers give the text back exactly if the first is accepted |
| Aead.BareTagIsRefused | frameworks/huks_standard/main/common/src/hks_crypto_adapter.c:136-140 | an input that is only a tag never decrypts, although the size check lets it through |
| AesPadding.PaddingPkcs5 | frameworks/crypto_lite/cipher/src/cipher_aes.c:28-41 | pads the text in place to whole blocks; a text of whole blocks stays as it is |
| AesPadding.InitEncryptText | frameworks/crypto_lite/cipher/src/cipher_aes.c:187-207 | fails exactly without memory or when the padded length does not fit an int32_t; otherwise the buffer is large enough and ends up with the padded text |
| AesPadding.UnpaddingPkcs5 | frameworks/crypto_lite/cipher/src/cipher_aes.c:43-58 | removes 1 to 15 bytes of padding and zeroes them, or fails, or reads before the buffer when there is no data or all of it is padding that asks for more |
| AesPadding.WholeBlocksReadBeforeIff | frameworks/crypto_lite/cipher/src/cipher_aes.c:43-58 | on whole blocks it leaves the buffer exactly if there is no block |
| AesPadding.UnpadOfPadIff | frameworks/crypto_lite/cipher/src/cipher_aes.c:28-58 | unpadding gives back a non-empty text exactly if its length is no multiple of 16 |
| AesPadding.StandardIff | frameworks/crypto_lite/cipher/src/cipher_aes.c:28-58 | the padding is that of section 6.3 of RFC 5652 exactly for those texts, and the standard's full block of padding is refused |
| PlainCiphers.PaddedPlainly | frameworks/crypto_lite/cipher/src/cipher_aes.c:28-41 | the padding byte by byte |
| PlainCiphers.UnpaddedPlainly | frameworks/crypto_lite/cipher/src/cipher_aes.c:43-58 | unpadding gives a text exactly for that text followed by 1 to 15 bytes of their number |
| PlainCiphers.ReadBeforePlainly | frameworks/crypto_lite/cipher/src/cipher_aes.c:43-58 | and exactly when it reads before the data |
| PlainCiphers.PipelinesPlainly | frameworks/crypto_lite/cipher/src/cipher_aes.c:185-310 | the order of padding, cipher and base64 |
| AesPadding.DecryptInvertsEncryptIff | frameworks/crypto_lite/cipher/src/cipher_aes.c:185-290 | the same for encryption, base64 and decryption together |
| AesPadding.DecryptReadsBeforeIff | frameworks/crypto_lite/cipher/src/cipher_aes.c:208-216 | decryption reads before its buffer exactly if the text decodes to 1 to 15 bytes |
| Purpose.CheckPurposeUnique | frameworks/huks_standard/main/common/src/hks_base_check.c:1121-1139 | accepts exactly the words of flags with one of the six groups present |
| Purpose.GetInvalidPurpose | frameworks/huks_standard/main/common/src/hks_base_check.c:772-1167 | the bits forbidden for the algorithm, with those for import in addition |
| Purpose.HksCheckGenKeyPurpose | frameworks/huks_standard/main/common/src/hks_base_check.c:1925-1931 | accepts exactly if one group is present and no forbidden bit is set, and which error otherwise |
| Purpose.AcceptableIff | frameworks/huks_standard/main/common/src/hks_base_check.c:772-1177 | for each algorithm and import, exactly which bits a purpose may have, and that they are of one kind |
| Purpose.ImportWithinGenerate | frameworks/huks_standard/main/common/src/hks_base_check.c:1141-1181 | what is acceptable for import is acceptable for generation, and the converse fails exactly at the bits of the second table |
| Purpose.CheckBatchPurpose | frameworks/huks_standard/main/common/src/hks_check_paramset.c:416-425 | refuses exactly a batch purpose with a bit outside the purpose |
| Purpose.BatchStaysInGroup | frameworks/huks_standard/main/common/src/hks_check_paramset.c:405-425 | an accepted batch purpose stays in the purpose's group, and is itself acceptable unless it names no purpose |

## Left out

* NULL for the set, tag or output pointers of the parameter-set functions and of `SetCurve25519KeyMaterial`
  and the format functions: the early returns have no effect and are not modelled; NULL parameter lists,
  NULL blob data, NULL list nodes and NULL wrapped data are.
* Header and parameters of a set as raw bytes: they are typed fields beside the block's bytes, with the
  union of a parameter as a 64-bit word and a pointer.
* Blobs that overlap the set they are copied into, and overlapping input and output of the ciphers: the
  effect of memcpy_s on overlapping ranges is not part of this model, so sources are required to lie
  elsewhere.
* Adding to a set that is already built: the builder goes from Init over Add to Build.
* What a function does after it has read or written outside the memory it was given: it ends there, and
  nothing is said about memory.
* Other ways memcpy_s may treat its destination: a refused copy clears it, as section K.3.7.1.1 of
  ISO/IEC 9899:2011 asks, and leaves it alone if its size is above RSIZE_MAX, taken as 2^31 - 1.
- ParamCopy.BuildParamSetOut: of a set that is too large, a slot that lies partly in the zeroed bytes is left open.
- Aead.EncryptAndDecrypt: RSA and the AES modes without a tag are excluded (`OtherCipher`), and what a failing engine leaves in the output is left open.
- AesPadding.DecryptInvertsEncryptIff: texts of 2^31 bytes or more, which `InitEncryptText` refuses, are not excluded from the law.
- AesPadding.DecryptReadsBeforeIff: decoded texts of 2^31 bytes or more, whose length the code keeps in an int32_t, count as any other.
- RsaCipher.RsaEncryptMultipleBlock: key and buffer sizes are below 2^31, the type of the code's variables; the positions are running sums instead of products with the block number.
- RsaCipher.RsaPkcs1Decrypt: takes the base64 text without the zeros behind it, as a caller that treats it as a C string passes it.
* Condition variables: spurious wake-ups, failing pthread calls, NULL conditions, and HksConditionDestroy.
* `HksCheckParamMatch`, key alias sets, `HksSetKeyToMaterial` for the algorithms it copies unchanged,
  `FormatAesOrHmacKey`: they would only add easy members.
* The serializers behind `TranslateFromX509PublicKey` write the layout that `KeyMaterial.Encode` gives for
  material without a private component; the bignum conversions are foreign code.
* `GetClaimDataParamSet` with its table of object identifiers is a function value that answers for each
  claim; the version prefix and the X.509 extension around the claims are not part of this model.
* X.509, OpenSSL and mbedtls, base64 internals, random numbers beyond one draw per block, storage, IPC and
  the service layers are not part of this model.
* Configurations without some algorithm: all algorithms are compiled in.
