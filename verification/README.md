# Verified models of the Unlimited Skills release and fixture scripts

This project models the parts of the repository's `scripts/` that carry real
logic: the canonical signing form of the fleet wire contract and everything
sealed over it, the JSON-RPC client and the upstream it talks to, the
device-proof verifier with its assignment queue, the publication waiters and
the artifact comparison, the router inventory, and seven smaller algorithms
(tracker table, label sync, tool split, registry walk, router fixture,
percentiles, effectiveness gate). It states what each of them promises and
proves it, for every input or every run.

Run `dafny verify dfyconfig.toml` here with Dafny 4.11.

## How the modules follow the sources

| modules | source |
|---|---|
| `Texts`, `Sequences`, `Sorting`, `Counting` | Python's `str`, `sorted` and counting loops, shared by the rest |
| `JsonValues`, `JsonPrinter`, `JsonParser`, `ParserStrictness`, `ShortestForm`, `JsonDict`, `Utf8`, `CanonicalForm`, `KeyOrder`, `Base64Url` | the canonical form and base64url of `generate-fleet-contract-fixtures.py`, and the strict reader of `unlimited_skills/fleet/contract.py` |
| `SealedState`, `SignatureCheck`, `DesiredState`, `FleetFixtures` | `build` in `generate-fleet-contract-fixtures.py`, and the digest and signature checks of `unlimited_skills/fleet/contract.py` |
| `JsonRpc`, `JsonRpcClient` | `JsonRpcProcess` and the fake upstream in `mcp_smoke_support.py` |
| `DeviceProof`, `ProofHistory`, `ProofMessages`, `ManagedPolicy`, `RegistryContract` | `verify_proof` and `do_POST` of the two fixture registries |
| `Polling`, `Artifacts` | `verify-pypi-publication.py` |
| `RouterInventory` | `generate-router-inventory.py` |
| `TrackerTable` | `_parse_marketplace_tracker` in `generate-public-alpha-signal-rollup.py` |
| `LabelSync` | `sync-github-labels.py` |
| `ToolSplit` | `mcp_perf_support.py` |
| `JsonWalk`, `WrittenPaths` | `validate-registry-contract.py` |
| `RouterFixture`, `FixtureErrors` | `verify-router-inject-v2-fixture.py` |
| `Percentiles`, `Effectiveness` | `check-skill-effectiveness.py` |

Objects whose fields the scripts update are classes (`DesiredState.Document`,
`JsonRpcClient.Client`, `DeviceProof.ProofStore`, the two `FixtureServer`s,
`LabelSync.Repository`), and their methods are proved against functions on the
value of the object (`View`). Loops are methods with loops, proved against
functions or outright statements. What runs and whole histories do is then
proved about those functions.

Parameters stand for what lies outside: SHA-256, Ed25519 and the trusted keys
(`Crypto`, `Env`), `str.lower` on a character (`lower`), the upstream's method
handlers (`Handler`), clocks and fetch results (`Environment`), how GitHub
stores a colour (`Host`). A hash is assumed injective only where a statement
says `InjectiveHash`.

Five results say where the code does less than one might expect of it, each
with the exact condition and a failing input:

- Canonical keys are in code-point order, not in the UTF-16 order of section
  3.2.3 of RFC 8785. The canonical text of a document differs for it exactly
  when some object holds two keys that `KeyOrder.Crossed` describes
  (`KeyOrder.CanonicalOrderAgrees`, `KeyOrder.OrdersCanPart`).
- Label sync comes to rest exactly when no desired colour starts with "#"
  (`LabelSync.LaterRoundsAreTheSame`, `LabelSync.HashedColourNeverRests`);
  `verify-feedback-labels.py:57` rules such colours out.
- A release is certain to be detected exactly when it appears no later than
  `Polling.LatestSafe`, a time that follows from the wait, the poll interval
  and the bounds on attempts and delays (`Polling.DetectionIsExact`).
- The parent path the registry walk prints can stand for two places of one
  document exactly when it holds a key with another step behind it, or ends in
  a key that holds a dot or ends like a list index
  (`WrittenPaths.PathCollidesUnlessRigid`). Where no key does the latter, each
  place is written in its own way (`WrittenPaths.ClearPathsReadBack`).
- The signed message of a device proof stands for that proof alone exactly when
  no signed field of it holds a line feed, as no proof of the client does
  (`ProofMessages.MessageIsUniqueUnlessItSpans`). Accepted requests therefore
  have different messages as soon as the devices alone sign
  (`ProofMessages.EachMessageAcceptedOnce`), and need not without
  (`ProofMessages.MessagesCanRepeat`).

One result is about a call the generator never makes: a document that already
carries a signature would be sealed over it, and no receiver would accept it
(`SealedState.SealVerifies`). The generator seals only the document it has just
built, which carries none.

## Model

| member | source | states |
|---|---|---|
| CanonicalForm.CanonicalReadsBack | scripts/generate-fleet-contract-fixtures.py:25-31 | for every float-free value a parser for the JSON grammar reads the canonical bytes back as that value, dict items sorted; nothing else is lost |
| ShortestForm.CanonicalTextIsDetermined | scripts/generate-fleet-contract-fixtures.py:25-31 | the canonical text is the one text a parser reads as the sorted value that is shorter than all others or differs from one as long in the case of hexadecimal letters alone: compact separators, least escaping, lower-case hexadecimal |
| ShortestForm.RawTextStaysRaw | scripts/generate-fleet-contract-fixtures.py:26-28 | a string is printed as it is if and only if every character of it is one the reader takes raw |
| CanonicalForm.CanonicalDecidesMeaning | scripts/generate-fleet-contract-fixtures.py:25-31 | two values have equal canonical bytes if and only if they are equal with dicts compared as maps, whatever the insertion order |
| CanonicalForm.CanonicalFailsOnSurrogates | scripts/generate-fleet-contract-fixtures.py:25-31 | canonicalising raises if and only if some key or string at some depth holds a surrogate |
| CanonicalForm.CanonicalKeysInOrder | scripts/generate-fleet-contract-fixtures.py:28-29 | at every depth the keys are listed in code-point order |
| KeyOrder.KeyOrderDiffersFromRfc8785 | scripts/generate-fleet-contract-fixtures.py:28-29 | code-point order and the UTF-16 order of section 3.2.3 of RFC 8785 agree on two keys if and only if their first difference is not a supplementary character against one from U+E000 on |
| KeyOrder.CanonicalOrderAgrees | scripts/generate-fleet-contract-fixtures.py:25-31 | the canonical text of a whole document is the text with keys in UTF-16 order if and only if no object at any depth holds two crossed keys |
| KeyOrder.OrdersCanPart | scripts/generate-fleet-contract-fixtures.py:28-29 | a document on which the two orders part |
| CanonicalForm.StrictReaderAcceptsCanonical | unlimited_skills/fleet/contract.py:164-192 | of canonical values the strict reader refuses one above 256 KiB for its size and one that is no object as such, and accepts the others as the sorted value |
| CanonicalForm.StrictReaderIsStrict | unlimited_skills/fleet/contract.py:164-192 | whatever the strict reader accepts is an object without a repeated property at any depth, from bytes within the limit that are UTF-8 |
| ParserStrictness.RepeatedPropertyIsRefused | unlimited_skills/fleet/contract.py:169-175 | members with a repeated key are refused as a duplicate property |
| ParserStrictness.NothingMayFollow | unlimited_skills/fleet/contract.py:180-187 | a value with anything but white space behind it is refused |
| JsonPrinter.DumpsPrintsNormalForm | scripts/generate-fleet-contract-fixtures.py:26-31 | printing while sorting each dict equals printing the value sorted beforehand |
| JsonParser.PrintReadsBack | scripts/generate-fleet-contract-fixtures.py:25-31 | parsing undoes printing for every value: string escapes, integers, nesting |
| JsonValues.NormalizeMeans | scripts/generate-fleet-contract-fixtures.py:28 | sorting dict items at every depth keeps a well-formed value well-formed and changes no meaning |
| JsonValues.NormalizeAgrees | scripts/generate-fleet-contract-fixtures.py:28 | values with equal meaning have one sorted form |
| Utf8.DecodeUndoesEncode | scripts/generate-fleet-contract-fixtures.py:31 | decoding UTF-8 undoes encoding on every text without surrogates |
| Utf8.EncodeUndoesDecode | unlimited_skills/fleet/contract.py:182 | whatever bytes decode, encoding the result gives exactly those bytes: only shortest forms are accepted |
| Base64Url.EncodeShape | scripts/generate-fleet-contract-fixtures.py:21-22 | the text is URL-safe, its length is the ceiling of 4n/3 and never 1 mod 4 |
| Base64Url.DecodeUndoesEncode | unlimited_skills/registration.py:117-122 | restoring the padding and decoding, by the lenient decoder's state machine, gives every byte string back |
| Base64Url.EncodeInjective | scripts/generate-fleet-contract-fixtures.py:21-22 | dropping the padding keeps the encoding injective |
| SealedState.SealLayers | scripts/generate-fleet-contract-fixtures.py:78-92 | the stored digest is that of the document minus digest and signature, and the signature object holds the digest and signature of the canonical dated document |
| SealedState.SealVerifies | scripts/generate-fleet-contract-fixtures.py:78-92 | a sealed document passes the receiver's digest and signature checks if and only if it carried no signature before sealing |
| SealedState.ResealIsStable | scripts/generate-fleet-contract-fixtures.py:78-92 | sealing the finished document again, its signature put aside, changes nothing |
| SignatureCheck.AcceptedExactly | unlimited_skills/fleet/contract.py:332-392 | a document is accepted if and only if its digest fits and its signature field is exactly the six fields, with a trusted key's name and a text that decodes to a signature that key verifies over the canonical bytes of all the rest |
| SignatureCheck.AcceptedWasSigned | unlimited_skills/fleet/contract.py:359-392 | when signatures cannot be forged, an accepted document agrees in every field but the signature, at every depth, with one the holder of the trusted key it names has signed |
| SignatureCheck.ReplacedFieldIsFound | unlimited_skills/fleet/contract.py:334-392 | writing one field of an accepted signature is accepted exactly when the new value serves as well, a text when it decodes to a signature the named key verifies; otherwise the verdict names that field |
| SignatureCheck.MissingFieldIsFound | unlimited_skills/fleet/contract.py:345-346 | leaving out any of the six fields is refused |
| SignatureCheck.FirstFaultIsNamed | unlimited_skills/fleet/contract.py:345-392 | of two wrong fields the verdict names the one checked first |
| DesiredState.SignatureCoversEverything | unlimited_skills/fleet/contract.py:377-392 | under an accepted signature field another document is accepted if and only if every other field, at every depth, means the same |
| DesiredState.SignedHashCoversEverything | scripts/generate-fleet-contract-fixtures.py:84-92 | the stored payload hash fits another document if and only if all its non-signature fields mean the same |
| DesiredState.DigestCoversBody | unlimited_skills/fleet/contract.py:332-333 | a document whose body changed under its old digest field fails the digest check |
| DesiredState.TamperingIsRefused | scripts/generate-fleet-contract-fixtures.py:186-212 | one write at any depth into an accepted document is refused as a digest mismatch if it changes the meaning there, and accepted if it does not |
| JsonDict.DeepChangeShows | scripts/generate-fleet-contract-fixtures.py:186-212 | a write below any path changes the meaning of the whole value if and only if it changes the meaning at the path |
| JsonDict.WriteIsLocal | scripts/generate-fleet-contract-fixtures.py:186-212 | after a write the value is at its path, and every place apart from the path holds what it held or is missing as it was |
| JsonDict.WriteShowsBelow | scripts/generate-fleet-contract-fixtures.py:186-212 | what is read at or below a write is read in the value written |
| JsonDict.PutMeans | scripts/generate-fleet-contract-fixtures.py:83-92 | assigning a key updates the map a dict means at that key alone and keeps it a dict |
| JsonDict.PutKeepsOrder | scripts/generate-fleet-contract-fixtures.py:83-92 | an assigned key keeps its place among the keys, a new one goes last |
| JsonDict.WithoutMeans | scripts/generate-fleet-contract-fixtures.py:78-82 | the filtering comprehension removes exactly the named keys from the map |
| DesiredState.Document.Assign | scripts/generate-fleet-contract-fixtures.py:83-85 | the document afterwards is the old one with that key set, in place or at the end |
| DesiredState.Document.AssignAt | scripts/generate-fleet-contract-fixtures.py:186-212 | the document afterwards has the value at that path, and every place apart from it as before |
| DesiredState.Document.DeepCopy | scripts/generate-fleet-contract-fixtures.py:186 | the copy is a new object with the same content, so writes to one leave the other as it is |
| DesiredState.Document.SealInPlace | scripts/generate-fleet-contract-fixtures.py:78-92 | the document afterwards is sealed; when canonicalising raises it stands as at the assignment before |
| DesiredState.TamperedCopy | scripts/generate-fleet-contract-fixtures.py:186-187 | a tampered copy has the value at that place and differs at no place apart from it; it is refused unless the value means the old one |
| DesiredState.RollbackReplay | scripts/generate-fleet-contract-fixtures.py:192-196 | the replay is the document with its four writes in order and is refused unless the document stood at the replayed epoch |
| FleetFixtures.AssumptionsHoldTogether | scripts/generate-fleet-contract-fixtures.py:34-35 | some hash, signer and verifier meet the assumptions the sealing statements make, all at once |
| FleetFixtures.SealedFixture | scripts/generate-fleet-contract-fixtures.py:51-92 | the generator's own desired state seals, is accepted, and has every place the tampering writes to |
| FleetFixtures.Build | scripts/generate-fleet-contract-fixtures.py:48-212 | the generator's desired state is sealed and accepted, and its three tampered copies are all refused with a digest mismatch |
| JsonRpc.ReadIsDeterministic | scripts/mcp_smoke_support.py:193-204 | whatever turns the upstream takes in between, the read loop takes the responses in store in order, drops those that do not match and returns the first that does |
| JsonRpc.TakenIsFirstMatch | scripts/mcp_smoke_support.py:196-202 | the loop stops at the first matching response, or after all that the deadline or the store allows |
| JsonRpc.RunKeepsFifo | scripts/mcp_smoke_support.py:168-204 | in every interleaving of sends, upstream turns and reads, what was read followed by what can still be read are the answers to everything sent, in order |
| JsonRpc.AnswersAreReadOrUnread | scripts/mcp_smoke_support.py:75-114 | the answers to all messages sent are those read followed by those still to come |
| JsonRpc.AnswersFollowCalls | scripts/mcp_smoke_support.py:82-114 | the k-th answer is the reaction to the k-th message with an id and carries that id; messages without one get none |
| JsonRpc.CallsAreConserved | scripts/mcp_smoke_support.py:168-204 | in every reachable state, messages sent with an id = answers returned + discarded + unread + requests not yet taken + 1 if the upstream died, of that one |
| JsonRpc.StartIsFifo | scripts/mcp_smoke_support.py:150-166 | a fresh pair of pipes satisfies the invariant of every run |
| JsonRpc.MessageHolds | scripts/mcp_smoke_support.py:168-181 | a request reads as version, id, the caller's method and the caller's params or none; a notification the same without id |
| JsonRpc.MessageIds | scripts/mcp_smoke_support.py:168-181 | a request carries its id and is never ignored; a notification is never answered |
| JsonRpc.RequestIsAnswered | scripts/mcp_smoke_support.py:82-114 | the upstream dies of a request exactly when its handler raises on the caller's method and params; otherwise the reply is version, id and the handler's result, or its error, and nothing else |
| JsonRpc.ReactionMeans | scripts/mcp_smoke_support.py:75-83 | the upstream passes over a container without "id" as Python tests it, replies to an object with one unless its handler raises, and is ended by anything else |
| JsonRpc.PyEqualMeans | scripts/mcp_smoke_support.py:200 | ids compare as in Python, booleans as numbers |
| JsonRpc.ReadIsCounted | scripts/mcp_smoke_support.py:193-204 | of the responses a read takes one is returned, if it returns, and the others discarded; it meets the end of file only when the upstream is dead |
| JsonRpc.RunKeepsNumbered | scripts/mcp_smoke_support.py:168-181 | over any run of requests and notifications the calls sent are numbered 1 to `_next_id` in order |
| JsonRpc.UnreadIdsIncrease | scripts/mcp_smoke_support.py:168-204 | ids of unread responses go on from the last one read, ids of unread requests end at `_next_id`: together strictly increasing, and the only id missing is that of the call the upstream died of |
| JsonRpc.RunKeepsUnused | scripts/mcp_smoke_support.py:168-191 | over any run whose raw messages stay away from ids 1 to `top`, no call sent carries an id a request up to `top` is still to use |
| JsonRpc.ReadIsARun | scripts/mcp_smoke_support.py:193-204 | a whole read is a run of single upstream turns and line reads, so what every run keeps every call keeps |
| JsonRpcClient.RequestGetsItsAnswer | scripts/mcp_smoke_support.py:168-175 | when raw messages stay away from the ids to come, a request returns if and only if the upstream survives everything sent and the deadline outlasts the unread answers; it returns what the upstream's handler gives for the caller's method and params, under the request's id, and discards only answers to earlier calls |
| JsonRpcClient.RequestAfterAnyRun | scripts/mcp_smoke_support.py:168-204 | the same after any interleaving from the start, abandoned calls and raw messages included |
| JsonRpcClient.CallGetsItsAnswer | scripts/mcp_smoke_support.py:183-204 | the same for any message whose id no unread response carries |
| JsonRpcClient.RawRequestGetsItsAnswer | scripts/mcp_smoke_support.py:183-186 | from any state and with any deadline a raw request gets its own answer if and only if it draws a reply, nothing sent before ends the upstream, the deadline outlasts what is unread and none of that matches the id it expects |
| JsonRpcClient.RawWithoutIdTakesOldest | scripts/mcp_smoke_support.py:183-186 | a raw message without an id returns the oldest unread response, whatever it answers, and waits in vain when there is none |
| JsonRpcClient.Client.WriteLine | scripts/mcp_smoke_support.py:188-191 | the message goes to the end of the pipe and nothing else changes |
| JsonRpcClient.Client.TakeTurn | scripts/mcp_smoke_support.py:75-114 | one upstream turn on the object is the turn of the model: answer, ignore or die |
| JsonRpcClient.Client.AwaitNextLine | scripts/mcp_smoke_support.py:197 | a blocking readline lets the upstream run until a line is there or none can come |
| JsonRpcClient.Client.ReadUntil | scripts/mcp_smoke_support.py:193-204 | the loop over the object is the read loop that `ReadIsDeterministic` is about |
| JsonRpcClient.Client.Request | scripts/mcp_smoke_support.py:168-175 | increments the id, writes and reads: the call that `RequestGetsItsAnswer` is about |
| JsonRpcClient.Client.Notify | scripts/mcp_smoke_support.py:177-181 | writes a message without an id and reads nothing |
| JsonRpcClient.Client.RawRequest | scripts/mcp_smoke_support.py:183-186 | writes the message as it is and reads for its own id, or for anything when it has none |
| DeviceProof.EachNonceAcceptedOnce | scripts/run-managed-policy-sync-e2e.py:133-173 | over every run with registrations in between no (install, nonce) is accepted twice, the stored nonces are the initial and the accepted ones, and the success counter grows by as many |
| DeviceProof.SuccessCountsNonces | scripts/run-managed-policy-sync-e2e.py:171-172 | the success counter equals the size of the nonce set in every reachable state |
| DeviceProof.VerdictsAreCounted | scripts/run-managed-policy-sync-e2e.py:133-173 | every protected request is exactly one of success, missing, invalid, replay or bad token, and each counter grew by its class |
| DeviceProof.RejectionsAreInvisible | scripts/run-managed-policy-sync-e2e.py:129-173 | dropping every rejected request from a run changes no other verdict, no nonce and no registration |
| DeviceProof.MessageBindsFields | scripts/run-managed-policy-sync-e2e.py:162 | a signature made for a proof without line feeds in its fields covers another proof, whatever that one holds, if and only if path, body hash, timestamp, nonce, install and thumbprint all agree |
| DeviceProof.AcceptedWasSigned | scripts/run-managed-policy-sync-e2e.py:151-173 | with unforgeable signatures every accepted request, whatever characters its header holds, was signed by the registered key for this path, body, nonce and timestamp |
| ProofHistory.AcceptedExactly | scripts/run-managed-policy-sync-e2e.py:133-173 | in every run a request is accepted if and only if it carries the bearer and a proof, the last registration of its installation gave its thumbprint and a key under which its signature verifies, its body is the one hashed, and no request accepted before used its installation and nonce |
| ProofHistory.EachVerdictIs | scripts/run-managed-policy-sync-e2e.py:133-173 | every verdict of a run from the events before it alone, the checks in order, the nonce before the signature |
| ProofMessages.MessageIsUniqueUnlessItSpans | scripts/run-managed-policy-sync-e2e.py:162 | another proof on the same path has the same signed message but other fields if and only if body hash, timestamp, nonce, installation or thumbprint holds a line feed; over all paths also if the path holds one after its first character |
| ProofMessages.AcceptedMessagesDiffer | scripts/run-managed-policy-sync-e2e.py:133-173 | over every run, two accepted requests of which at least one has no line feed in its signed parts have different signed messages |
| ProofMessages.EachMessageAcceptedOnce | scripts/run-managed-policy-sync-e2e.py:133-173 | when signatures cannot be forged, the signed messages of the requests accepted over a run are pairwise distinct |
| ProofMessages.MessagesCanRepeat | scripts/run-managed-policy-sync-e2e.py:133-173 | two registrations with one key and two requests whose fields hold line feeds, accepted one after the other with one signed message |
| DeviceProof.DeviceProofIsAccepted | unlimited_skills/registration.py:286-304 | a proof a registered device makes is accepted if and only if its nonce is unused, and is a replay otherwise |
| DeviceProof.ProbeVerdicts | scripts/run-managed-policy-sync-e2e.py:133-173 | no proof, a proof of the device, the same again and one with its signature replaced are missing, accepted, a replay and invalid, with every counter accounted for |
| DeviceProof.ProofStore.Register | scripts/run-managed-policy-sync-e2e.py:201-206 | the installation is set or replaced and nothing else changes |
| DeviceProof.ProofStore.VerifyProof | scripts/run-managed-policy-sync-e2e.py:133-173 | the method's verdict and new state are those of the ordered chain of checks |
| ManagedPolicy.FixtureServer.constructor | scripts/run-managed-policy-sync-e2e.py:251-272 | a server starts with the given queue and empty otherwise |
| ManagedPolicy.FixtureServer.DoPost | scripts/run-managed-policy-sync-e2e.py:198-235 | one POST gives the response and the new state of the handler |
| ManagedPolicy.ServerRunsVerifier | scripts/run-managed-policy-sync-e2e.py:198-235 | the server's proof state is that of the verifier run on its registrations and protected requests |
| ManagedPolicy.AssignmentsAreConserved | scripts/run-managed-policy-sync-e2e.py:223-235 | the initial queue is what was served, in order, followed by the rest; served = min(queue length, requests the verifier accepts without a forbidden field) |
| ManagedPolicy.LogIsExact | scripts/run-managed-policy-sync-e2e.py:223-225 | the request log grows by the bodies of the accepted requests, in order, and the success counter by their number |
| ManagedPolicy.EachCleanRequestIsServed | scripts/run-managed-policy-sync-e2e.py:220-235 | a clean accepted request gets the assignment whose place is the number of clean requests before it, or "none" past the end; no other request gets either |
| ManagedPolicy.EmptyQueueAnswersNone | scripts/run-managed-policy-sync-e2e.py:230-235 | once the queue is empty it stays so, and exactly the clean accepted requests are told "none" |
| ManagedPolicy.FlagMeansForbidden | scripts/run-managed-policy-sync-e2e.py:226-229 | the flag is set if and only if some request the verifier accepts in the state it meets carries a forbidden field |
| ManagedPolicy.RejectedRequestsChangeNothing | scripts/run-managed-policy-sync-e2e.py:133-235 | a run without its rejected requests gives the same other responses, queue, log, nonces and registrations |
| ManagedPolicy.ServerIsSafe | scripts/run-managed-policy-sync-e2e.py:133-235 | over every run from the start no pair is accepted twice, and success counter, nonce set and request log have one entry per accepted proof |
| ManagedPolicy.ProbeOutcome | scripts/run-managed-policy-sync-e2e.py:295-313 | from any state with the device registered and its nonce unused the four probes give 401, 200, 401, 401 and the exact new verifier state; the last is invalid, or a replay if its nonce was used |
| ManagedPolicy.RegistrationEnrolls | scripts/run-managed-policy-sync-e2e.py:201-220 | a device's registration, from any state, is answered with its id and thumbprint and enrols it with its own key; nothing else changes |
| ManagedPolicy.EmptyRegistration | scripts/run-managed-policy-sync-e2e.py:202-206 | a registration that names nothing gets the default id and no key |
| ManagedPolicy.RegisteredDeviceIsProbed | scripts/run-managed-policy-sync-e2e.py:199-239 | registration and then the probe give 200, 401, 200, 401, 401 |
| ManagedPolicy.ReRegistrationReplaces | scripts/run-managed-policy-sync-e2e.py:203-206 | after a second registration of an id the old device is refused with every proof it can make, and the new one served |
| ManagedPolicy.EachResponseMeans | scripts/run-managed-policy-sync-e2e.py:199-239 | which response and status a post draws, from its path, its proof and its fields |
| ManagedPolicy.HasForbiddenMeans | scripts/run-managed-policy-sync-e2e.py:229 | a body is forbidden something if and only if one of the six names is a key of it |
| RegistryContract.FixtureServer.DoPost | scripts/run-production-registry-contract-e2e.py:387-450 | one POST gives the response and the new state of the handler |
| RegistryContract.ServerRunsVerifier | scripts/run-production-registry-contract-e2e.py:314-450 | this server's proof state, too, is that of the verifier, a refused registration being no event |
| RegistryContract.RegistryIsSafe | scripts/run-production-registry-contract-e2e.py:314-450 | over every run nonces are accepted once and counted, and no installation without key or thumbprint gets in |
| RegistryContract.ChannelLogIsExact | scripts/run-production-registry-contract-e2e.py:412-421 | the channel log grows by exactly the channels named by the accepted catalog, update and channel requests, in order |
| RegistryContract.ProbeOutcome | scripts/run-production-registry-contract-e2e.py:501-522 | the same probe on the catalog gives 401, 200, 401, 401, and only the accepted request is logged |
| RegistryContract.RegistrationEnrolls | scripts/run-production-registry-contract-e2e.py:390-411 | a device's registration is refused exactly when it gives no key or no thumbprint, and otherwise enrols it, with its own key, from any state |
| RegistryContract.RegisteredDeviceIsProbed | scripts/run-production-registry-contract-e2e.py:387-450 | registration and then the probe give 200, 401, 200, 401, 401 |
| RegistryContract.ReRegistrationReplaces | scripts/run-production-registry-contract-e2e.py:397 | after a second registration of an id the old device is refused on every other path, and the new one accepted |
| RegistryContract.EachResponseMeans | scripts/run-production-registry-contract-e2e.py:387-450 | which response and status a post draws; a path is called unknown only once its proof is accepted |
| Polling.WaitLoop | scripts/verify-pypi-publication.py:47-60 | the clock-driven loop ends at the first attempt that succeeds, fails or comes after the deadline, with that attempt's outcome and end time |
| Polling.WaitForRelease | scripts/verify-pypi-publication.py:33-60 | all attempts before the last got a 404; the last one's object is returned, anything else raises; a timeout comes no earlier than the deadline |
| Polling.WaitForCleanInstall | scripts/verify-pypi-publication.py:216-233 | the report of the first install that succeeds, unless a failure other than one of pip's two messages for a version not yet shown comes before; such a message is retried until the deadline |
| Polling.AttemptsAreBounded | scripts/verify-pypi-publication.py:52-60 | at least one attempt and at most ceil(wait/0.1s)+1 |
| Polling.StartsAreClose | scripts/verify-pypi-publication.py:60 | consecutive attempts start at least 0.1s and at most attempt + max(poll, 0.1s) + jitter apart |
| Polling.TimeoutWindow | scripts/verify-pypi-publication.py:58-59 | a timeout is raised no earlier than the wait and before wait + 0.1s + one attempt + jitter |
| Polling.ReleaseIsDetected | scripts/verify-pypi-publication.py:52-60 | a release that appears by `LatestSafe` and stays visible is returned in every environment within the bounds |
| Polling.DetectionCanFail | scripts/verify-pypi-publication.py:52-60 | for every wait, poll interval and pair of bounds, a release that appears later is missed in some environment within them |
| Polling.DetectionIsExact | scripts/verify-pypi-publication.py:52-60 | all environments within the bounds detect a release appearing at v if and only if v is at most `LatestSafe` |
| Polling.InstantAttemptsSeeTheDeadline | scripts/verify-pypi-publication.py:52-60 | with instantaneous attempts any release visible by the deadline is safe |
| Artifacts.Sha256File | scripts/verify-pypi-publication.py:93-98 | hashing 1 MiB chunks is hashing the whole file |
| Artifacts.AcceptanceIsBijection | scripts/verify-pypi-publication.py:101-134 | with a directory of distinct names a release is accepted if and only if name and version match, it lists a wheel and an sdist, no filename twice, and rows and local artifacts correspond one to one with equal digests |
| Artifacts.EachVerdictMeans | scripts/verify-pypi-publication.py:101-134 | each refusal holds exactly of the releases that fail that check first, and a digest mismatch names the first local artifact in path order that has one |
| Artifacts.LastRowWins | scripts/verify-pypi-publication.py:121-125 | of several rows of one filename the last one's digest counts |
| Artifacts.DirectoryCorresponds | scripts/verify-pypi-publication.py:119-128 | equal sorted name lists and agreeing last-wins digests mean a one-to-one correspondence, and conversely |
| Artifacts.LocalFilesAre | scripts/verify-pypi-publication.py:116-118 | the local artifacts are exactly the directory's wheel and sdist files, each once, in path order |
| RouterInventory.IdentityIsIdempotent | scripts/generate-router-inventory.py:49-50 | normalising a name twice is normalising it once |
| RouterInventory.IdentityIsWords | scripts/generate-router-inventory.py:49-50 | a normalised name is the lower-cased name's stretches of allowed characters joined by single dashes, without dashes at the ends |
| RouterInventory.IterRoutableSkills | scripts/generate-router-inventory.py:77-98 | the generator yields the skills of the deduplicated ranked candidates |
| RouterInventory.InventoryPicksBest | scripts/generate-router-inventory.py:77-98 | yielded names are pairwise distinct, every included file's name is represented, and by a candidate no other of that name precedes in priority, lowered path and path |
| RouterInventory.PreferredHides | scripts/generate-router-inventory.py:88-98 | of two files of one name the one from the pack "ecc" hides the others, one from "superpowers" the local and the rest, a local one those of other packs; then the smaller lower-cased path, then the smaller path |
| RouterInventory.IncludedExactly | scripts/generate-router-inventory.py:61-66 | a file is looked at if and only if it is a SKILL.md under one of the three roots with no ignored part in its path |
| RouterInventory.CollectionMeans | scripts/generate-router-inventory.py:53-58 | an included file's collection is the pack it lies in, or "local" |
| RouterInventory.PartsLeqMeans | scripts/generate-router-inventory.py:79 | paths compare by the first part that differs, a directory before what lies below it |
| RouterInventory.EnumerationOrderIsIrrelevant | scripts/generate-router-inventory.py:79 | the result does not depend on the order the directory is listed in |
| RouterInventory.BuildSnapshot | scripts/generate-router-inventory.py:114-145 | a map without "other/uncategorized" is refused; otherwise each domain's count is the number of skills it is the first match of, and the collections are tallied exactly |
| RouterInventory.MatchDomain | scripts/generate-router-inventory.py:133-145 | the inner loop finds the first domain in map order that shares a token, or "other/uncategorized" |
| RouterInventory.DomainCountsSum | scripts/generate-router-inventory.py:125-145 | with distinct domain names the domain counts sum to the number of skills |
| RouterInventory.CollectionCountsSum | scripts/generate-router-inventory.py:129-132 | the collection counts sum to the number of skills |
| RouterInventory.NewDomainRefines | scripts/generate-router-inventory.py:134-145 | a new last domain takes a skill if and only if the skill was uncategorized and shares a token |
| RouterInventory.NewDomainMovesOnlyOther | scripts/generate-router-inventory.py:134-145 | no other domain's count changes, and what "other" loses the new one gains |
| TrackerTable.ParseTracker | scripts/generate-public-alpha-signal-rollup.py:71-114 | the line loop returns the rows of the scan and tallies their statuses exactly |
| TrackerTable.RowReadsBack | scripts/generate-public-alpha-signal-rollup.py:95 | stripping, splitting and cleaning a printed row gives its cells back |
| TrackerTable.TableScans | scripts/generate-public-alpha-signal-rollup.py:84-102 | a section whose row lines are a printed header and printed rows scans as those rows, whatever prose, blank lines and separators stand around and between them, before and after the section |
| TrackerTable.ParsingUndoesPrinting | scripts/generate-public-alpha-signal-rollup.py:71-102 | printing a table in the section and parsing the whole document returns the same rows, whatever precedes the section, prose stands before or after the table, or follows the next heading |
| TrackerTable.DictHoldsCells | scripts/generate-public-alpha-signal-rollup.py:101-102 | a row holds every cell under its header, of several cells under one header the last |
| TrackerTable.CleanCellUnwraps | scripts/generate-public-alpha-signal-rollup.py:95 | a cell may stand in any white space and, within, any backticks |
| TrackerTable.OddRowChangesNothing | scripts/generate-public-alpha-signal-rollup.py:99-102 | a row of another number of cells than the header's is passed over |
| TrackerTable.StatusMeans | scripts/generate-public-alpha-signal-rollup.py:106 | a missing or empty status counts as "unknown", so none counts as empty |
| TrackerTable.SplitAtCrLf | scripts/generate-public-alpha-signal-rollup.py:84 | a carriage return and a line feed are one line break |
| TrackerTable.StatusCountsSum | scripts/generate-public-alpha-signal-rollup.py:104-107 | the status counts sum to the number of rows |
| LabelSync.LoadDesired | scripts/sync-github-labels.py:16-29 | refused if and only if an entry is unusable; otherwise one label per name, from the last entry of that name |
| LabelSync.PlanChanges | scripts/sync-github-labels.py:53-67 | the loop returns the plan |
| LabelSync.PlanIsSound | scripts/sync-github-labels.py:53-67 | a change is planned for exactly the desired labels that are missing or differ, once per name, a create just when the name is absent |
| LabelSync.Repository.ApplyChange | scripts/sync-github-labels.py:70-100 | creates what is absent, edits what is there, fails otherwise and then changes nothing |
| LabelSync.Repository.Sync | scripts/sync-github-labels.py:103-128 | applying a plan to the labels it was made from never fails |
| LabelSync.SyncConverges | scripts/sync-github-labels.py:53-67 | after one round the next plan is empty if and only if no desired colour starts with "#" |
| LabelSync.LaterRoundsAreTheSame | scripts/sync-github-labels.py:53-67 | after any positive number of rounds the next plan is empty if and only if no desired colour starts with "#" |
| LabelSync.RestIsFinal | scripts/sync-github-labels.py:53-67 | when none does, the labels after any number of rounds are those after the first |
| LabelSync.SyncReachesDesired | scripts/sync-github-labels.py:53-100 | after one round and after every later one the remote holds every desired label with its description and, but for "#" and case, its colour |
| LabelSync.LeftAloneWhenAsWanted | scripts/sync-github-labels.py:58-66 | a label is left alone if and only if it is there as wanted and no "#" was asked for |
| LabelSync.HashedColourNeverRests | scripts/sync-github-labels.py:61-66 | a label set whose plan is empty on no remote and after no number of rounds |
| LabelSync.PlainHostIsFaithful | scripts/sync-github-labels.py:62 | a remote that stores colours without "#" meets the assumptions of the convergence result |
| LabelSync.OthersAreUntouched | scripts/sync-github-labels.py:53-67 | labels outside the desired set stay as they are |
| LabelSync.ChangesCommute | scripts/sync-github-labels.py:70-100 | a plan's changes may be applied in any order |
| ToolSplit.SplitTools | scripts/mcp_perf_support.py:63-73 | slice i starts at i*base + min(i, remainder) and holds base tools, one more for i below the remainder |
| ToolSplit.UpstreamCountMeans | scripts/mcp_perf_support.py:65 | as many slices as asked for, but no more than there are tools, and at least one |
| ToolSplit.SlicesAreBalanced | scripts/mcp_perf_support.py:63-73 | sizes never grow, differ by at most one, and are positive when there is a tool |
| ToolSplit.SlicesPartition | scripts/mcp_perf_support.py:63-73 | an index lies in some slice if and only if it is below the number of tools, and never in two |
| ToolSplit.ListingsConcatenate | scripts/mcp_perf_support.py:51-73 | the upstreams' listings in order are the listing of all tools |
| ToolSplit.ToolNamesAreDistinct | scripts/mcp_perf_support.py:21-22 | names are equal if and only if the indices are, padded or not |
| ToolSplit.ToolNameMeans | scripts/mcp_perf_support.py:21-22 | a tool's name is "tool_" and its index in at least four digits |
| JsonWalk.WalkVisits | scripts/validate-registry-contract.py:45-52 | every member of every object at every depth is yielded exactly once with the path that leads to it, and nothing else is |
| JsonWalk.WalkInOrder | scripts/validate-registry-contract.py:45-52 | of two yields the earlier one comes earlier in document order: an object before what lies in it, siblings as listed |
| JsonWalk.ValidateNoPrivateFields | scripts/validate-registry-contract.py:61-74 | the check passes if and only if every member at every depth is lawful and the lower-cased printed document has no part that shows a skill body; a failure names the first faulty member in walk order |
| JsonWalk.PartsPass | scripts/validate-registry-contract.py:61-74 | every part of a passing document passes by itself |
| JsonWalk.FaultMeans | scripts/validate-registry-contract.py:65-74 | a member is at fault exactly when its key, in any case, is a private one, or a token's with a value that is no redacted text, or "sha256" with a value that is no digest |
| JsonWalk.TextsAreShown | scripts/validate-registry-contract.py:62-64 | every key and every text at any depth stands in the printed document as a string literal |
| JsonWalk.BodyTextIsFound | scripts/validate-registry-contract.py:62-64 | a document with "skill.md" in any case, or three backticks, in a key or text that is printed as it stands does not pass |
| WrittenPaths.ClearPathsReadBack | scripts/validate-registry-contract.py:45-52 | where no key holds a dot or ends like a list index, the written path determines the place |
| WrittenPaths.PathCollidesUnlessRigid | scripts/validate-registry-contract.py:45-52 | some document has a second place yielded from and written like a given path if and only if that path has a key with a step behind it or ends in a key that holds a dot or ends like a list index; and only then is any other path written like it |
| WrittenPaths.KeyCollidesUnlessClear | scripts/validate-registry-contract.py:45-52 | for a key at the top: if and only if it holds a dot or ends like a list index |
| RouterFixture.Verify | scripts/verify-router-inject-v2-fixture.py:19-67 | the loop reports the errors, in order, and the three counts of the scan; a payload without a list is refused |
| RouterFixture.ScanMeans | scripts/verify-router-inject-v2-fixture.py:27-48 | the loop's counters are the declarative counts, and it finds no error if and only if all phases are objects of ten steps that never re-query inside a run |
| RouterFixture.VerdictMeans | scripts/verify-router-inject-v2-fixture.py:19-67 | accepted if and only if ten clean phases, enough re-queries and two negatives |
| RouterFixture.AcceptanceForcesBounds | scripts/verify-router-inject-v2-fixture.py:50-56 | an accepted fixture has negatives = 10 - runs and threshold <= required <= runs <= 8 |
| RouterFixture.ThresholdCeiling | scripts/verify-router-inject-v2-fixture.py:50-52 | some fixture is accepted if and only if the threshold is at most eight |
| RouterFixture.StepTotalNeverAlone | scripts/verify-router-inject-v2-fixture.py:55-56 | the 100-step error never comes alone |
| FixtureErrors.ErrorsMean | scripts/verify-router-inject-v2-fixture.py:24-56 | each error is reported if and only if it holds of the fixture, whatever phases are no objects: which phase, and which count |
| Percentiles.RoundingMeans | scripts/check-skill-effectiveness.py:266 | `round` gives the nearest integer, the even one of two, and this determines it |
| Percentiles.RankMeans | scripts/check-skill-effectiveness.py:266-267 | the rank is the whole number nearest to the fraction of the last index, the even one of two, and the nearest end where that lies outside |
| Percentiles.PercentileGate | scripts/check-skill-effectiveness.py:262-267 | a percentile is within a limit if and only if more values than its rank are |
| Percentiles.PercentileIsElement | scripts/check-skill-effectiveness.py:262-267 | the percentile of a non-empty list is one of its values |
| Percentiles.PercentileIgnoresOrder | scripts/check-skill-effectiveness.py:265 | it does not depend on the order of the values |
| Percentiles.PercentileIsMonotone | scripts/check-skill-effectiveness.py:262-267 | it grows with the fraction, so p50 <= p90 <= p95 |
| Percentiles.ExtremePercentiles | scripts/check-skill-effectiveness.py:315-318 | no value is below the percentile at 0 or above that at 1, so every percentile is at most the maximum |
| Effectiveness.RowIsCoherent | scripts/check-skill-effectiveness.py:224-251 | a row is graded by the rank of the first expected candidate if positive and by silence if negative; a top-1 hit is a top-3 hit, a correct card was shown to a positive, and a first-place hit violates nothing when no skill is both expected and forbidden |
| Effectiveness.MoreCandidatesOnlyAddHits | scripts/check-skill-effectiveness.py:227-251 | lengthening the candidate list loses no hit and no violation, and changes at most the top-3 hit if and only if the list was not empty, nothing was added, or a positive now starts with a skill neither expected nor forbidden |
| Effectiveness.Top1AtMostTop3 | scripts/check-skill-effectiveness.py:311-312 | the top-1 rate never exceeds the top-3 rate |
| Effectiveness.PrecisionBound | scripts/check-skill-effectiveness.py:331-333 | injection precision is at most (cards - injected negatives) / cards |
| Effectiveness.GateMeans | scripts/check-skill-effectiveness.py:336-349 | the gate passes if and only if counts over all rows pass, with no rates, percentiles or sublists, and every single row is free of leaks, forbidden hits, missed tier-3 cards and injected negatives |
| Effectiveness.Evaluate | scripts/check-skill-effectiveness.py:306-349 | the whole run passes if and only if the counts over all rows pass and every scenario came back without a leak, with no forbidden skill first, no card on a negative, and an expected card where tier 3 is expected |

## Left out

- Floats: `json.loads` reads them and the printers would write them; the values here are float-free, as the signing contract demands, and the parser refuses them. Python's limit on the digits of an integer is not modelled.
- `validate_desired_state` also checks field formats, item limits and time windows; only its digest and signature checks are modelled.
- Base64 texts with characters outside ASCII, which raise in Python before decoding; the decoder here skips them like other foreign characters.
- The receipt, registration and heartbeat fixtures, the contract manifest, and writing or comparing files.
- SHA-256 and Ed25519 are parameters; that honest signatures verify, that no two byte strings share a hash and that signatures cannot be forged are idealising assumptions of the statements that need them.
- JsonRpc.React: what the upstream's methods answer is a parameter, and a handler that raises ends the upstream.
- JsonRpcClient.Client.ReadUntil: the deadline is a number of turns of the loop; reading stderr after a timeout and writing to a dead process are not modelled.
- DeviceProof.MessageBindsFields: at least one of the two proofs has no line feed in its fields, as the client's have none (`unlimited_skills/registration.py:286-304`); `ProofMessages.MessageIsUniqueUnlessItSpans` says exactly what holds without.
- DesiredState.Document.DeepCopy: the content of a document is a value, so nested objects cannot be shared and a shallow copy could not be told from a deep one.
- The HTTP servers handle one request at a time; interleaved threads, the GET routes and response payloads are not modelled. Rendering a value that is not a string with `str` is a parameter.
- Polling.WaitLoop: time is real-valued; each attempt's result, duration and delays come from an arbitrary environment.
- The steps of the clean-install smoke test beyond whether pip failed and what it printed.
- Artifacts.AcceptanceIsBijection: payload rows that are not objects are skipped as in the code; other malformed shapes of the payload are not modelled.
- RouterInventory.IterRoutableSkills: names, descriptions and tokens are read off the files beforehand, so front matter and `_tokens_for` are not modelled.
- Rendering of the inventory, its availability words and the comparison with AGENTS.md.
- `str.lower` acts character by character, so the context-dependent final sigma is left out.
- TrackerTable.ParseTracker: the branch for a missing tracker file, and newline translation when the file is read.
- LabelSync.Repository.Sync: GitHub is a map from names to labels; its case-insensitive names, the listing limit of 500 and `--offline` (which plans against an empty map) are not modelled.
- `tool_description` and `fat_schema` are parameters of the tool listings.
- The other validators of `validate-registry-contract.py`, which check fields of particular examples.
- RouterFixture.Verify: error texts are reduced to their kind and phase index.
- Percentiles.Percentile: exact reals; the rounding of binary fractions such as 0.95 is not modelled.
- The privacy scan, the subprocess of `run_scenario`, `cadence_check` and the report.
