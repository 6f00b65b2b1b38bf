# Verified model of the authcore login components

A Dafny model of eight components of a Go authentication library, each with proofs of
what it promises over all inputs, all runs or all interleavings.

- **SAML gate** (`XmlDocument`, `IdentityShape`, `ResponseShape`, `SamlValidate`): three
  streaming scanners as loops over tokens, each proved equal to a predicate on XML trees,
  and the check sequence that composes them in front of the dependency's parser.
- **Replay protection** (`ReplayCache`, `ReplayProtocol`): the bounded cache as a class, and
  concurrent validations over it as a state machine in which any step may be delayed.
- **Signed redirect** (`Bytes`, `QueryEscaping`, `FixedWidth`, `AuthnRedirect`): query
  assembly behind a third-party query, read back by a parser and by a receiver.
- **Attribute indexes** (`SamlAssertion`): nested loops against declarative indexes.
- **OIDC encodings** (`CanonicalValue`, `OidcConfiguration`): strict base64url, scopes,
  algorithms and the length-prefixed configuration bytes, each inverted by a decoder.
- **Bounded stores** (`TtlQueue`, `CaptchaStore`, `PasskeySessions`): a map and a linked
  list that refine one first-in-first-out queue.
- **Credential ceremonies** (`CredentialStore`, `Ceremonies`): the login and registration
  ceremonies over both stores, one at a time and interleaved.
- **Database watcher** (`Watcher`, `WatcherFreshness`, `WatcherPromises`): its fields as a class, and lookups,
  reloads and closes as steps under a reader/writer lock with a disk that changes.

`dafny verify dfyconfig.toml` checks everything.

Classes carry the code that updates fields in place; each method is tied to a function on
values, and the lemmas are about those functions. Concurrency is a step function on a world:
a step that is not possible leaves the world as it is, so a theorem about all action
sequences is a theorem about all interleavings. Times are integers (nanoseconds, 0 for an
unset instant); byte strings are sequences of integers below 256.

## What is assumed

Stated as parameters, preconditions or definitions, never as unproved facts:

- the XML decoder delivers matched end tags and reports end-of-file only when nothing is
  open (`XmlDocument.Delivered`); names arrive with their namespace resolved;
- the SAML dependency accepts an assertion no later than some stated NotOnOrAfter plus the
  skew (`ReplayProtocol.AcceptsAt`), and its parser is a parameter;
- the signature (which may fail), base64 of the signature, URL syntax, UTF-8 validity and the captcha answer
  comparison are parameters;
- the WebAuthn dependency verifies one of the credentials offered to it
  (`Ceremonies.VerifiesOffered`) and applies the counter rule of WebAuthn Level 2 section
  6.1.1 (`Ceremonies.Advanced`);
- random session ids are fresh (`PasskeySessions.FreshIds`);
- for catching up only: modification time and size tell versions and paths apart
  (`WatcherFreshness.StampsTellApart`).

## Where the code and its comments differ

- A disabled watcher is said never to open its file and never to serve. That holds exactly
  when nothing is loaded at the switch and no refresh under way can still open the file
  (`WatcherPromises.DisabledExactlyWhen`).
- `SetPath` is said to take effect on the next lookup; a refresh under way can write an
  older path back (`WatcherPromises.SetPathWinsExactlyWhen`), and an equal stamp keeps the
  old reader (`WatcherPromises.OldReaderKeptExactlyOnEqualStamp`).
- The session store's list is said to stay expiry-ordered; that needs clock samples to
  arrive in order, exactly for the sessions still held
  (`PasskeySessions.OrderedExactlyWhenHeldSamplesAre`, `PasskeySessions.OutOfOrderPurgeMisses`).
- Ordered readmission fails for stale times at the cache alone
  (`ReplayCache.StaleTimeReadmits`), exactly after a sweep that had reached the expiry
  (`ReplayCache.StaleReadmissionExactlyWhen`); the margin repairs it for whole validations
  (`ReplayProtocol.AtMostOnce`).
- The stored signature counter can fall (`Ceremonies.OvertakenWriteLowersCounter`), exactly
  when a store accepts a login that read and reported less than it holds
  (`Ceremonies.CounterMonotoneExactlyWhen`).

## Model

| member | source | states |
|---|---|---|
| `XmlDocument.BuildInvertsFlatten` | `saml/identity_shape.go:13-59` | reading a flattened forest back gives that forest and nothing else, so token streams and trees correspond |
| `XmlDocument.EndOfFileMeansOneForest` | `saml/identity_shape.go:17-21` | a stream that a strict decoder delivered to end-of-file is the flattening of exactly one forest; several top-level elements are allowed |
| `IdentityShape.NamedIsFilter` | `saml/identity_shape.go:34-50` | the counted children are the direct children with that local name, whatever their namespace |
| `IdentityShape.ValidatePlaintextIdentityShape` | `saml/identity_shape.go:13-59` | the loop accepts exactly when the stream reached end-of-file and its forest has the identity shape (SAML 2.0 Core section 2.3.3); a decode error refuses |
| `IdentityShape.MachineDecidesShape` | `saml/identity_shape.go:13-59` | on every forest the stack machine accepts exactly when each Assertion under a root has one Issuer, at most one Subject and at most one NameID under it, all in the assertion namespace |
| `IdentityShape.AssertionForest` | `saml/identity_shape.go:28-51` | inside an assertion the three counters hold exactly the declarative counts, and the machine stops exactly when one would exceed its bound or leave the namespace |
| `IdentityShape.SubjectForest` | `saml/identity_shape.go:46-51` | below a Subject exactly the NameIDs that are its direct children are counted |
| `IdentityShape.QuietForest` | `saml/identity_shape.go:31-33` | elsewhere, content of any depth is passed over without a trace in the state |
| `IdentityShape.RootChildren` | `saml/identity_shape.go:28-30` | the counters are reset for each assertion, so each is judged alone |
| `IdentityShape.DeepContentIsIrrelevant` | `saml/identity_shape.go:28-51` | two documents equal down to the NameID level get the same verdict: deeper nested assertions never matter |
| `ResponseShape.ScanResponseShape` | `saml/rawxml.go:63-101` | the scanner returns the declarative shape of the forest when there is one, errors included, and stops silently where the stream stops |
| `ResponseShape.ScannerReportsTreeShape` | `saml/rawxml.go:63-101` | on every complete document: the first root that is no Response refuses it; otherwise the last root Destination, the number of (encrypted) assertions directly under roots and whether any is encrypted |
| `ResponseShape.DestinationIsLast` | `saml/rawxml.go:80-85` | of several Destination attributes the last one counts |
| `ResponseShape.LastDestinationIsLast` | `saml/rawxml.go:80-85` | the value reported is that of a Destination with none after it; none is reported only if there is none |
| `ResponseShape.ScanWeakSignatureAlgorithms` | `saml/rawxml.go:110-136` | returns the first disallowed algorithm of the document in document order, or none |
| `ResponseShape.WeakScanIsDocumentOrder` | `saml/rawxml.go:110-136` | the token scan visits every element of the tree, at any depth, in document order |
| `ResponseShape.FirstWeakElementIsFirst` | `saml/rawxml.go:112-135` | the element reported has a disallowed algorithm and no element before it has |
| `ResponseShape.FirstDisallowedIsFirst` | `saml/rawxml.go:130-134` | so for the attributes of one element |
| `ResponseShape.NoWeakMeansAllAllowed` | `saml/rawxml.go:103-109` | nothing reported means that every Algorithm of every SignatureMethod and DigestMethod is on its list, and conversely |
| `SamlValidate.Config.ReplayMargin` | `saml/provider.go:229-234` | the replay margin is positive whatever is configured |
| `SamlValidate.PassesExactlyTheAdmissible` | `saml/validate.go:107-144` | the sequence of checks passes exactly the admissible documents: all roots Response, one assertion, Destination, algorithm and encryption policies and identity shape all hold of the whole document |
| `SamlValidate.FailuresExactly` | `saml/validate.go:107-144` | each failure of the gate has its exact condition on the document |
| `SamlValidate.PassGate` | `saml/validate.go:103-144` | the composition of the three scanners passes exactly complete, admissible documents of acceptable size, and otherwise reports the first failing check in the order of the source, for a document that broke off too |
| `SamlValidate.FirstScannersAcceptTruncation` | `saml/rawxml.go:67-71` | a truncated document passes the first two scanners, so soundness belongs to the composition only |
| `SamlValidate.ExpiryIsUnique` | `saml/validate.go:178-194` | the declarative expiry is a function of the assertion, the clock, the skew and the margin |
| `SamlValidate.ExpiryFor` | `saml/validate.go:178-194` | the loop returns the latest of all stated bounds and five minutes from now, plus skew plus margin |
| `SamlValidate.SettlesOneWay` | `saml/validate.go:150-169` | an accepted assertion, a cache, an expiry and a time fix the result and the new cache, and always have one |
| `SamlValidate.Settle` | `saml/validate.go:150-169` | after the parser: missing id, then duplicate attribute, then the cache, which is untouched by the first two; on success the assertion returned has every field as accepted |
| `SamlValidate.Validate` | `saml/validate.go:100-170` | the parser is reached exactly by admissible documents; each outcome has its exact condition, for documents that broke off too, the cache changes only for an accepted assertion, and what is returned has every field as accepted |
| `ReplayCache.MemoryReplayCache.constructor` | `saml/replay.go:59-67` | empty, with the configured or the default capacity |
| `ReplayCache.MemoryReplayCache.SweepExpired` | `saml/replay.go:106-116` | at capacity exactly the expired records go; below it none |
| `ReplayCache.MemoryReplayCache.SeenOrAdd` | `saml/replay.go:71-102` | the new records and the answer are those of the decision function; the capacity bound is kept |
| `ReplayCache.CapacityKept` | `saml/replay.go:96-100` | no decision exceeds the capacity |
| `ReplayCache.AlwaysWithinCapacity` | `saml/replay.go:71-102` | the bound holds after every sequence of calls with any times |
| `ReplayCache.RefusedExactlyWhenFullOfOthers` | `saml/replay.go:69-99` | full is answered exactly when the cache holds capacity records, all unexpired, none of them this id; so an id whose own record lapsed is never refused |
| `ReplayCache.RecordStays` | `saml/replay.go:81-100` | an admitted record stays with its expiry until some call carries a time that reaches it |
| `ReplayCache.RecordStaysExactly` | `saml/replay.go:71-116` | under any times, an admitted record is there exactly until the first call that sweeps a full cache at a time that has reached its expiry |
| `ReplayCache.ReadmissionNeedsExpiry` | `saml/replay.go:71-102` | under any order of times, two admissions of one id need a call after the first, at the latest the second itself, that reached the first expiry |
| `ReplayCache.OrderedReadmission` | `saml/replay.go:71-102` | with non-decreasing times the readmitting call itself reached the earlier expiry |
| `ReplayCache.StaleTimeReadmits` | `saml/replay.go:71-116` | without that order the previous claim fails: a sweep at a later time, then a stale call |
| `ReplayCache.StaleReadmissionExactlyWhen` | `saml/replay.go:71-116` | the exact condition under any times: a later call for the id is answered seen exactly before the expiry and with no sweep in between at a time that had reached it, and otherwise admitted exactly when the cache is not full of live records |
| `ReplayProtocol.SecondSuccessIsLate` | `saml/validate.go:159-167` | while a success is remembered, another for the same assertion can only commit a whole margin after its own check |
| `ReplayProtocol.StepKeepsInv` | `saml/validate.go:146-169` | every step of every validation, every sweep and every passing of time keeps: expiries dominate all bounds plus skew plus margin, live records are in place, and of two successes one is late |
| `ReplayProtocol.AtMostOnce` | `saml/validate.go:146-194` | in every interleaving, with stale times and sweeps, one assertion succeeds at most once if each success commits less than the margin after its own time check |
| `ReplayProtocol.ExactlyOneMarginLateReplays` | `saml/validate.go:172-194` | for every skew and margin a run with a delay of exactly one margin succeeds twice: the assumption cannot be weakened |
| `ReplayProtocol.CommitSettles` | `saml/validate.go:159-167` | a commit does what the method does at the time read earlier, whatever the clock has become |
| `ReplayProtocol.SpreadIsValidate` | `saml/validate.go:146-169` | one validation, spread over the run with anything done by others in between, is the method: expiry at the clock of its stamping, time handed over at the clock of its reading, cache as found at its commit |
| `ReplayProtocol.AloneIsValidate` | `saml/validate.go:146-169` | in particular alone, with time passing as it likes |
| `ReplayProtocol.StaleCommitIsRefused` | `saml/validate.go:160-161` | a run reaches a commit refused as full although by the clock every record has expired: the time read before the lock decides |
| `QueryEscaping.UnescapeInvertsEscape` | `saml/authn_request.go:86-90` | decoding an escaped byte string gives it back, for every byte string |
| `QueryEscaping.EscapeOfOne` | `saml/authn_request.go:86-90` | a letter, a digit or one of four marks stands for itself, a space becomes a plus sign, any other byte a percent sign and two upper-case hex digits |
| `QueryEscaping.EscapeByBytes` | `saml/authn_request.go:86-90` | text is escaped byte by byte, in order |
| `QueryEscaping.EscapedIsInAlphabet` | `saml/authn_request.go:86-112` | escaped text holds nothing but those characters, so no byte that would end a query |
| `QueryEscaping.HexDigitsAre` | `saml/authn_request.go:65` | the sixteen digits, written in upper case and read in both |
| `QueryEscaping.OnlyHexDigits` | `saml/authn_request.go:65` | no other byte is read as a digit |
| `QueryEscaping.EscapedIsInert` | `saml/authn_request.go:86-90` | escaped text contains no byte that separates pairs or names |
| `QueryEscaping.WrittenPairParses` | `saml/authn_request.go:86-112` | a written pair is one piece, with its raw name, and parses to exactly that pair |
| `QueryEscaping.RawNameIsDecodedKey` | `saml/authn_request.go:65-73` | a raw piece bearing a reserved name would have been seen as a decoded key, so the endpoint check covers raw names too |
| `Bytes.JoinSplit` | `saml/authn_request.go:112-115` | joining the pieces of a query gives the query back |
| `Bytes.SplitConcat` | `saml/authn_request.go:113-115` | putting the endpoint query in front leaves the pieces of both as they were |
| `AuthnRedirect.BindingNamesAreGood` | `saml/authn_request.go:69` | the five reserved names are distinct and need no escaping |
| `AuthnRedirect.AuthnEndpoint` | `saml/authn_request.go:60-75` | an endpoint is accepted exactly when scheme, host, user, fragment, the 80-byte relay bound, the query syntax and the reserved names are all in order |
| `AuthnRedirect.SignedRedirect` | `saml/authn_request.go:86-117` | the endpoint query comes first and untouched and the rest is escaped text and separators only; splitting the final query gives the endpoint pieces unchanged and then the own pieces; it parses; a receiver that reassembles SAMLRequest, RelayState and SigAlg gets exactly the signed octets; a failing signer or an unusable signature gives no redirect |
| `AuthnRedirect.NewSignedRequest` | `saml/authn_request.go:60-117` | the same for the real names, from any raw endpoint, with the exact condition for success (SAML Bindings section 3.4.4.1) |
| `AuthnRedirect.PairsReadBack` | `saml/authn_request.go:112-116` | for any third-party query in front and any own pairs, each reserved name is found exactly as often as it was written |
| `AuthnRedirect.OwnPairsKeyed` | `saml/authn_request.go:86-90` | the signed pairs are one SAMLRequest, at most one RelayState and one SigAlg, in that order |
| `AuthnRedirect.SplitJoin` | `saml/authn_request.go:86-112` | pieces free of the separator survive joining and splitting |
| `FixedWidth.ValueInvertsBigEndian` | `saml/authn_request.go:109-110` | the fixed-width octets of a fitting integer read back as the integer (RFC 8017 section 4.1) |
| `FixedWidth.ValueByPlace` | `saml/authn_request.go:109-110` | the octets count by place value, most significant first |
| `FixedWidth.WidthIsTight` | `saml/authn_request.go:107` | the order fits in the width, and not in one byte less |
| `FixedWidth.FillBytes` | `saml/authn_request.go:109-110` | fills its part of the buffer with the big-endian octets and nothing else |
| `FixedWidth.EncodeRS` | `saml/authn_request.go:99-111` | for 0 < r, s < N and every N, no overflow, twice the width of N, and the halves are exactly r and s (XML Signature 1.1 section 6.4.3); otherwise refused |
| `CanonicalValue.DigitsAreTheAlphabet` | `oidc/provider.go:330` | the digits are those of table 2 of RFC 4648 |
| `CanonicalValue.GroupIsTheNumber` | `oidc/provider.go:330` | three bytes and their four sextets are one 24-bit number |
| `CanonicalValue.GroupsApart` | `oidc/provider.go:330` | whole groups are encoded apart from what follows |
| `CanonicalValue.OneGroup` | `oidc/provider.go:330` | one or two bytes left over are filled with zero bits, and no padding is written |
| `CanonicalValue.EncodedDigits` | `oidc/provider.go:330` | each character is the digit of its sextet |
| `CanonicalValue.DecodeInvertsEncode` | `oidc/provider.go:325-331` | unpadded base64url decodes to what was encoded, for every length |
| `CanonicalValue.EncodeInvertsDecode` | `oidc/provider.go:336` | the strict decoder accepts no second spelling of the same bytes |
| `CanonicalValue.EncodeIsInjective` | `oidc/provider.go:330` | two byte strings never share an encoding |
| `CanonicalValue.CanonicalExactly` | `oidc/provider.go:332-338` | the test accepts exactly the encodings of 32-byte values, each of a unique one, although the decoder skips line breaks (RFC 4648 sections 3.5 and 5) |
| `CanonicalValue.RandomValuesAreCanonical` | `oidc/provider.go:325-331` | every generated value passes the test and decodes to its random bytes (RFC 7636 section 4.1) |
| `CanonicalValue.LineBreaksAreSkipped` | `oidc/provider.go:333-336` | without the length test a text with a line break would pass |
| `OidcConfiguration.NormalizeScopes` | `oidc/provider.go:346-367` | the loop refuses more than 32 scopes or a malformed one, and otherwise returns the first occurrences after openid |
| `OidcConfiguration.ScopeOkExactlyWhen` | `oidc/provider.go:353-360` | a scope is accepted exactly when it is a scope token of section 3.3 of RFC 6749 of at most 256 characters |
| `OidcConfiguration.DedupKeepsFirstOccurrences` | `oidc/provider.go:350-365` | no duplicates, the same members, ordered by first occurrence |
| `OidcConfiguration.NormalizedScopesShape` | `oidc/provider.go:346-367` | openid first, no duplicates, exactly the requested scopes and openid, at most 33 |
| `OidcConfiguration.NormalizedIsIdempotent` | `oidc/provider.go:346-367` | normalising again changes nothing exactly when the result has at most 32 scopes; with 33 it is refused |
| `OidcConfiguration.LessIsATotalOrder` | `oidc/provider.go:378` | byte-wise order is a strict total order |
| `OidcConfiguration.LessExactlyWhen` | `oidc/provider.go:378` | a string goes before another exactly when they agree up to a place where it ends or has the smaller byte |
| `OidcConfiguration.AscendingIsUnique` | `oidc/provider.go:368-380` | there is one ascending list of given members |
| `OidcConfiguration.AcceptedAlgorithms` | `oidc/provider.go:368-380` | returns the allowed members, each once, ascending in that order |
| `OidcConfiguration.AcceptedIsOrderIndependent` | `oidc/provider.go:368-380` | reordering or repeating advertised algorithms changes nothing |
| `OidcConfiguration.EncodeSection` | `oidc/provider.go:213-217` | the inner loop appends the count and then each value behind its length |
| `OidcConfiguration.EncodeSections` | `oidc/provider.go:211-218` | the nested loops append the sections in order behind the fixed prefix |
| `OidcConfiguration.SectionLayout` | `oidc/provider.go:212-217` | a section is its count and then, in order, each length and value |
| `OidcConfiguration.U32Octets` | `oidc/provider.go:213-215` | a length is written in four bytes, most significant first |
| `OidcConfiguration.ValuesRoundTrip` | `oidc/provider.go:214-217` | a decoder that knows the count reads the values back, whatever follows them |
| `OidcConfiguration.SectionRoundTrip` | `oidc/provider.go:212-218` | a section reads back from its own count, so sections cannot run into each other |
| `OidcConfiguration.CheckedIsEncodable` | `oidc/provider.go:143-151` | the length checks leave no length that the 32-bit prefix would truncate |
| `OidcConfiguration.DecodedInvertsConfigured` | `oidc/provider.go:210-218` | a decoder inverts the whole encoding |
| `OidcConfiguration.ConfiguredIsInjective` | `oidc/provider.go:210-218` | equal configuration bytes mean equal issuer, client, redirect, method, endpoints, scopes and algorithms |
| `OidcConfiguration.ChooseAuthMethod` | `oidc/provider.go:381-409` | fails exactly when no method is offered, asked for and in agreement with the secret; unasked, the basic one goes first |
| `OidcConfiguration.SettingsAreUnique` | `oidc/provider.go:142-210` | configuration and discovery document fix every encoded setting |
| `OidcConfiguration.New` | `oidc/provider.go:142-218` | each of the three errors has its exact condition, in order; otherwise the bytes are the prefix and three sections: issuer, client, redirect, method and endpoints in that order, scopes, algorithms |
| `TtlQueue.MemoryStore.constructor` | `captcha/store.go:84-101` | an empty store with the configured or default bounds |
| `TtlQueue.MemoryStore.Contents` | `captcha/store.go:50-61` | map and list are in bijection: the queue read off the list has one item an id and stays within the bound |
| `TtlQueue.MemoryStore.Lookup` | `captcha/store.go:138-141` | the map finds an id exactly when the queue holds it, with the same value and expiry |
| `TtlQueue.MemoryStore.Delete` | `captcha/store.go:175-178` | removing the node and the entry removes exactly that item |
| `TtlQueue.WithoutLosesOnly` | `captcha/store.go:175-178` | taking out an id loses that item only: every other id is found as before, in the same order |
| `TtlQueue.MemoryStore.DeleteOld` | `captcha/store.go:111-116` | the old entry of an id goes, if there is one |
| `TtlQueue.MemoryStore.PurgeExpired` | `captcha/store.go:184-199` | the loop drops the longest expired prefix and nothing else |
| `TtlQueue.MemoryStore.EvictOldest` | `captcha/store.go:119-126` | the loop drops the oldest items until there is room for one |
| `TtlQueue.MemoryStore.Append` | `captcha/store.go:128-129` | the new item goes last, in list and map |
| `TtlQueue.PutKeepsShape` | `captcha/store.go:104-131` | under any times ids stay distinct, the bound holds, the new item is found and every other item found was there before, unchanged |
| `TtlQueue.OrderedPurgeIsExact` | `captcha/store.go:180-199` | in expiry order, purging from the front leaves exactly the live items |
| `TtlQueue.PurgeIsExactWhen` | `passkey/session_store.go:161-180` | in general it does so exactly when nothing expired stands behind something live |
| `TtlQueue.PurgesExactlyWhenOrdered` | `passkey/session_store.go:161-180` | the purge is exact at every time if and only if the list is in expiry order |
| `TtlQueue.PutByExpiry` | `captcha/store.go:104-131` | a put in clock order keeps expiry order |
| `CaptchaStore.NewMemoryStore` | `captcha/store.go:63-101` | empty, with the default of each bound that is not positive |
| `CaptchaStore.Set` | `captcha/store.go:104-131` | refines the put of the pure queue |
| `CaptchaStore.Get` | `captcha/store.go:134-150` | a value is read until its expiry; a read in time that does not clear leaves the store as it was, and any other read of a known id takes out exactly that id |
| `CaptchaStore.Verify` | `captcha/store.go:153-162` | empty id or answer changes nothing; otherwise the verdict is that of one such read, which burns exactly when asked to or too late |
| `CaptchaStore.ReadIsRight` | `captcha/store.go:134-150` | the read of the pure queue answers and leaves exactly that |
| `CaptchaStore.SetKeepsLiveOthers` | `captcha/store.go:104-131` | with a clock that never goes back, a set leaves exactly the unexpired other entries, less at most the one oldest, and then the new one |
| `CaptchaStore.RunsStayOrdered` | `captcha/store.go:104-150` | over every run with such a clock: expiry order, distinct ids, capacity, and nothing outlives a full time-to-live |
| `CaptchaStore.ReadAfterSet` | `captcha/store.go:104-150` | a set value reads back exactly until its expiry, as often as it is read without clearing; a clearing or late read takes out exactly it |
| `PasskeySessions.NewMemoryStore` | `passkey/session_store.go:36-100` | empty, with the default of each bound that is not positive |
| `PasskeySessions.PutSession` | `passkey/session_store.go:103-129` | refines the put of the pure queue at the time sampled before the lock |
| `PasskeySessions.TakeSession` | `passkey/session_store.go:132-150` | yields the data exactly when present and unexpired; exactly this id is gone either way, every other session stays |
| `PasskeySessions.TakenIsRight` | `passkey/session_store.go:132-150` | the take of the pure queue yields and leaves exactly that |
| `PasskeySessions.RunKeepsShape` | `passkey/session_store.go:103-150` | ids stay distinct and the capacity holds over every schedule, whatever the samples; the store is in bijection with that queue by `TtlQueue.MemoryStore.Contents` |
| `PasskeySessions.OrderedSamplesPurgeExactly` | `passkey/session_store.go:161-164` | if samples arrive in order the list is expiry-ordered and purges remove exactly the expired entries |
| `PasskeySessions.OutOfOrderPurgeMisses` | `passkey/session_store.go:161-164` | the comment that the list stays expiry-ordered fails without that: an expired entry survives behind a live one |
| `PasskeySessions.RunInPutOrder` | `passkey/session_store.go:126-127` | in every schedule the list is in the order in which the sessions were put |
| `PasskeySessions.OrderedExactlyWhenHeldSamplesAre` | `passkey/session_store.go:161-180` | the exact condition: over every schedule with fresh ids the list is in expiry order, and every purge exact, if and only if the puts still held sampled the clock in the order they were put |
| `PasskeySessions.HeldWasPut` | `passkey/session_store.go:103-150` | what is held was put, with that data and expiry, and not taken since |
| `PasskeySessions.YieldIsWhatWasPut` | `passkey/session_store.go:132-150` | a take yields exactly the data put under that id, never an expired session, in any schedule |
| `PasskeySessions.TakenAtMostOnce` | `passkey/session_store.go:132-150` | with fresh ids no session is taken twice, over every run |
| `PasskeySessions.StaysHeld` | `passkey/session_store.go:110-128` | an item keeps its place until as many puts as the capacity came after it, unless taken or expired |
| `PasskeySessions.TakeableWithinBounds` | `passkey/session_store.go:110-149` | a session with fewer than capacity later puts and within its time-to-live is takeable and yields its data |
| `SamlAssertion.DedupeKeys` | `saml/assertion.go:107-118` | returns the distinct non-empty keys in order |
| `SamlAssertion.DistinctMembers` | `saml/assertion.go:107-118` | those are exactly the non-empty keys, each once |
| `SamlAssertion.DistinctInOrder` | `saml/assertion.go:103-117` | they come in the order of their first occurrences |
| `SamlAssertion.FirstSessionIndex` | `saml/assertion.go:143-148` | the first non-empty session index |
| `SamlAssertion.KeyedInDocumentOrder` | `saml/assertion.go:151-176` | the values under a key come in document order |
| `SamlAssertion.NamedInDocumentOrder` | `saml/assertion.go:151-163` | the values under a Name come in document order |
| `SamlAssertion.AttributesInDocumentOrder` | `saml/assertion.go:151-152` | the attributes of all statements are taken in document order |
| `SamlAssertion.IndexUnder` | `saml/assertion.go:166-176` | the innermost loop appends once under each key; strict, it fails exactly when one was seen |
| `SamlAssertion.IndexAttribute` | `saml/assertion.go:165-176` | one attribute is added once under each of its keys; refused exactly when strict and a key was seen |
| `SamlAssertion.IndexNext` | `saml/assertion.go:152-177` | one round keeps both indexes equal to their declarative meaning, or found a conflict |
| `SamlAssertion.AssertionFromAccepted` | `saml/assertion.go:124-180` | every field is as accepted, or empty where left out; both maps equal their declarative index over all statements in document order; strict mode fails exactly when two attributes share a non-empty key |
| `SamlAssertion.ReshapingIsUnique` | `saml/assertion.go:124-180` | so an accepted assertion has one reshaping |
| `SamlAssertion.ReshapingExists` | `saml/assertion.go:124-180` | and always has one |
| `SamlAssertion.EachKeyHasOneSource` | `saml/assertion.go:167-175` | without a conflict each key has exactly one attribute, and holds its values |
| `CredentialStore.MemoryCredentialStore.constructor` | `passkey/credential_store.go:116-118` | empty |
| `CredentialStore.MemoryCredentialStore.FindByID` | `passkey/credential_store.go:121-129` | the record under the id, if any; it is its owner's and names that id |
| `CredentialStore.MemoryCredentialStore.FindByUserHandle` | `passkey/credential_store.go:132-142` | the loop returns every record of the owner, each once |
| `CredentialStore.MemoryCredentialStore.Save` | `passkey/credential_store.go:146-155` | refuses a known id, otherwise adds exactly that record |
| `CredentialStore.MemoryCredentialStore.UpdateSignCount` | `passkey/credential_store.go:159-170` | refuses an unknown id, otherwise replaces the credential and keeps the owner |
| `Ceremonies.BeginLogin` | `passkey/authentication.go:46-66` | refused exactly when the owner has no credential; otherwise the session is parked under the fresh id |
| `Ceremonies.FinishLogin` | `passkey/authentication.go:72-93` | the session goes first; the verdict is given on exactly the owner's records; only a verified login writes, only that credential, and never changes an owner |
| `Ceremonies.FinishDiscoverableLogin` | `passkey/discoverable.go:47-72` | the same, with the owner taken from the stored record and each failure under its exact condition |
| `Ceremonies.FinishRegistration` | `passkey/registration.go:68-84` | each outcome under its exact condition; success adds exactly the new credential under the handle |
| `Ceremonies.AloneIsFinishLogin` | `passkey/authentication.go:72-93` | run alone, the interleaved steps give the result and the stores of the method |
| `Ceremonies.AloneIsFinishDiscoverableLogin` | `passkey/discoverable.go:47-72` | run alone, the interleaved steps give the result and the stores of the method |
| `Ceremonies.AloneIsFinishRegistration` | `passkey/registration.go:68-84` | run alone, the interleaved steps give the outcome and the stores of the method, refusal included |
| `Ceremonies.WriteIsOfWhatWasRead` | `passkey/authentication.go:84-92` | a verified login writes back what it read, advanced, whatever others have written since |
| `Ceremonies.SpreadIsFinishLogin` | `passkey/authentication.go:72-93` | a login spread over a run in any way is the method on the records as it loaded them, and writes to the records as it finds them then |
| `Ceremonies.SpreadIsFinishDiscoverableLogin` | `passkey/discoverable.go:47-72` | the same, on the record as it was looked up |
| `Ceremonies.AdvancedKeepsTheHigher` | `passkey/authentication.go:28-33` | one login never lowers its own counter, and flags one that did not advance unless there never was one |
| `Ceremonies.StepKeepsInv` | `passkey/credential_store.go:146-170` | every step of any ceremony keeps: records under their own id, reads still owned as read, each session in at most one ceremony |
| `Ceremonies.LoginsNameTheOwner` | `passkey/authentication.go:83-92` | in every interleaving each login result names the stored owner of the credential used, and no session serves two ceremonies |
| `Ceremonies.OwnershipIsPermanent` | `passkey/credential_store.go:144-170` | once saved, a credential never changes owner and never disappears |
| `Ceremonies.RefusalConsumesSession` | `passkey/authentication.go:89-92` | a write-back fails only if the store refuses it, since the record is always still there; refused, no result and no record change; either way its session is gone for good |
| `Ceremonies.TakenNeverReturns` | `passkey/session_store.go:143-144` | a taken session id is never available again |
| `Ceremonies.CounterFallsExactlyWhen` | `passkey/credential_store.go:157-170` | one step lowers a stored counter if and only if it is an accepted write-back of a login that read and reported less than is stored now, which a store can check before it writes |
| `Ceremonies.CounterMonotoneExactlyWhen` | `passkey/credential_store.go:157-170` | over every run, a stored counter never falls if and only if no step is such a write-back (WebAuthn Level 2 section 6.1.1) |
| `Ceremonies.CounterNeverDecreases` | `passkey/credential_store.go:157-170` | so it never falls along a run without overlapping logins on one credential |
| `Ceremonies.OvertakenWriteLowersCounter` | `passkey/credential_store.go:157-170` | a registration and two overlapping logins reach a write-back that lowers it |
| `Watcher.Watcher.constructor` | `geoip/watcher.go:62-68` | nothing loaded, nothing opened |
| `Watcher.Watcher.SetPath` | `geoip/watcher.go:73-80` | only the path changes |
| `Watcher.Watcher.SetEnabled` | `geoip/watcher.go:83-90` | only the switch changes; a loaded reader stays |
| `Watcher.Watcher.Status` | `geoip/watcher.go:142-156` | reports switch, path, the loaded database and the stored error; never a database together with an error |
| `Watcher.Watcher.Close` | `geoip/watcher.go:162-174` | closes the loaded reader, if any, and forgets its stamp; path, switch and stored error stay |
| `Watcher.Watcher.Refresh` | `geoip/watcher.go:186-240` | the exact condition to skip, and then nothing changes; otherwise the old reader is closed and a failed stat or open leaves no reader and stores its error, a successful one the new reader, the stamp and no error |
| `Watcher.LocksKept` | `geoip/watcher.go:186-240` | every step keeps reader/writer exclusion and readers see the reader that is loaded |
| `Watcher.HandlesKept` | `geoip/watcher.go:206-239` | every step keeps: each handle ever opened is closed exactly once or is live, never both |
| `Watcher.NoUseAfterClose` | `geoip/watcher.go:99-118` | in every interleaving no lookup reads a closed handle, none is closed twice, opened equals closed plus the loaded one, and a loaded reader leaves no open error |
| `WatcherFreshness.ReopenedIsNoOlder` | `geoip/watcher.go:208-239` | what is opened under the write lock is the statted version or a newer one |
| `WatcherFreshness.TracedKept` | `geoip/watcher.go:186-240` | every step keeps: the recorded stamp is that of a version no newer than the one the reader holds |
| `WatcherFreshness.FinishedIsCurrent` | `geoip/watcher.go:201-240` | a refresh that ends while the file stands still leaves the file's own stamp recorded, whichever branch it took |
| `WatcherFreshness.CurrentMeansUpToDate` | `geoip/watcher.go:202-214` | with that stamp recorded the reader holds the file's content |
| `WatcherFreshness.OneRefreshIsEnough` | `geoip/watcher.go:194-239` | after any history, once the file stopped changing and no refresh with an older stat is left, one more refresh catches up, and later lookups and refreshes open, close and change nothing |
| `WatcherFreshness.AloneIsRefresh` | `geoip/watcher.go:186-240` | the interleaved steps, run alone, are the reload of the class |
| `WatcherFreshness.AloneFromComparing` | `geoip/watcher.go:201-239` | past its stat a refresh installs the captured path, the stamp it saw and what it opens now, unless that path and stamp are loaded |
| `WatcherFreshness.AloneIsClose` | `geoip/watcher.go:162-174` | the interleaved steps of a close, run alone, are the close of the class |
| `WatcherFreshness.AloneReads` | `geoip/watcher.go:110-117` | a lookup reads what is loaded when it gets the lock and changes nothing |
| `WatcherPromises.DisabledServesWhatIsLoaded` | `geoip/watcher.go:51-57` | a disabled watcher still serves a reader that was loaded, contrary to the comment |
| `WatcherPromises.InFlightOpensAndServes` | `geoip/watcher.go:186-239` | a refresh that passed its check of the switch can still open the file after it goes off, and a lookup begun later reads it |
| `WatcherPromises.DisabledExactlyWhen` | `geoip/watcher.go:51-57` | the exact condition, over every schedule that leaves the switch off: the file is never opened if and only if no refresh under way can still open it, and no lookup reads a database if and only if besides that none is loaded |
| `WatcherPromises.OldReaderKeptExactlyOnEqualStamp` | `geoip/watcher.go:70-80` | after SetPath the next refresh keeps the old reader exactly when the new file has the recorded stamp |
| `WatcherPromises.EqualStampsHappen` | `geoip/watcher.go:70-80` | a run reaches such an equal stamp, and the reader of the other path stays in service |
| `WatcherPromises.SetPathWinsExactlyWhen` | `geoip/watcher.go:186-239` | a path that is set stays set under every schedule exactly when no refresh under way has captured another path |
| `WatcherPromises.CapturedPathComesBack` | `geoip/watcher.go:188-239` | a refresh under way writes its captured path back over a later one |

## Left out

- ReplayProtocol.AtMostOnce: the dependency's own time check is the assumed bound, and the clock is assumed not to go back; without either the claim is not the code's to make.
- QueryEscaping.RawNameIsDecodedKey: the limit on the number of parameters in newer versions of the query parser is not modelled; it only refuses more endpoints.
- OidcConfiguration.New: the discovery request is a parameter that may fail; the HTTP client and the verifier it sets up are not modelled.
- OidcConfiguration.AcceptedAlgorithms: the library sort is an insertion sort here; its result is the unique ascending list either way.
- Watcher.NoUseAfterClose: the database content behind a handle and its location records are not modelled, only the handle's version.
- PasskeySessions.PutSession: the random id is a parameter that must not be in the store.
- Ceremonies.FinishLogin: that a stored write-back can fail for other reasons than an unknown id appears only in the interleaved model, where any write may be refused (`Ceremonies.RefusalConsumesSession`).
- Ceremonies.LoginsNameTheOwner: sessions there are ids with expiry and eviction as one step; their contents and times are in the session store's own theorems.
- Nil receivers, which every method of the watcher answers with an empty result.
- The unsigned redirect, which is the dependency's own, and the checks on keys and certificates.
- Signatures, DEFLATE, SHA-256, certificate checks and randomness: library code.
- Base64 and size-limited inflation in front of the SAML gate: one limit each.
- HTTP plumbing: captcha tokens, discovery, token exchange and ID-token claim checks.
- The transient-format test and first-value lookup on an assertion: settled by reading one branch.
- Length reports of the stores and the replay cache, debug output and redaction.
- Character data, comments and namespace prefixes in XML; agreement with the dependency's own parser.
- Memory sharing between slices returned to callers: values are immutable here.
- BeginRegistration and BeginDiscoverableLogin: they only ask the dependency for a challenge and park a session, as in `Ceremonies.BeginLogin` without its credential check.
