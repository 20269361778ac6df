# Audit event log: a verified model

The service keeps an append-only log of audit events. Each stored event carries the
SHA-256 sum of its own canonical encoding and the sum of the event that was the chain
head when it was ingested. This project models the parts that claim rests on and
proves what they guarantee, and exactly when.

| file | models |
|---|---|
| `ByteStrings`, `Events` | byte strings, big-endian integers, Go's string order; the event record, its (ts, id) key, the filter |
| `Canonical` | the length-prefixed encoding that is hashed, and the hasher it is written into |
| `Chain`, `Guarantees` | link verification, the chain walk, what a root vouches for; the same for SHA-256 of the canonical encoding |
| `Merkle` | the bottom-up Merkle loop against the recursive tree |
| `Rows`, `TableMap`, `MemStore` | the event table as a sorted list, as a map from ids, and as the store's map and list of shared records |
| `Paging`, `Cursor` | filtered keyset paging under both stores' page rules, and the cursor text |
| `Wire`, `Redaction`, `PolicyText` | envelope checks and hash strings, the redaction rewrite, the policy parser |
| `Vault` | the write-once object store on a moving clock |
| `Ingest`, `Arrival`, `Binding` | one message through the pipeline; whole sequential runs; what the root of an anchor binds |
| `Sweep`, `Live`, `Export` | the anchor job, the sweep (alone and beside ingest), the export job |
| `AuditSystem`, `AuditResults` | the service as a step relation over interleaved calls and jobs, and what every run keeps |
| `Origins`, `Payloads` | over every run: which messages the stored rows carry, and the payload objects behind them |

How to read it:

* The hash function is a parameter, so every result holds for all of them. Where a
  result needs more, it says so of the events it speaks about: `Faithful` (no two
  with different hashed fields hash alike) and `NoneHashesToZero`. `Guarantees` and
  `CanonicalSumFaithful` reduce the first to "the encodings in play do not collide".
* An event is its nine hashed fields (`sealed`), the stored `this_hash`, and the
  rest; a time is an integer count of nanoseconds, and `ZERO_TIME` is Go's zero time.
* Code that updates state is a class or method proved against a function on values;
  the theorems about runs are about those functions.
* `Intact(hash, es)` says what the chain walk checks: every hash recomputes and every
  link closes, the first event's `prev_hash` excepted.

Six promises turned out narrower than the documentation has them. In each case the
code is modelled as it is, the exact condition is proved, and an input that fails is
given:

* a field name in a policy matches no payload key at all unless it is in lower case
  (`UnfoldedNamesIgnored`, `CaseInsensitiveIff`, `UpperCaseNameRedactsNothing`);
* a producer's hash string that spells the right digest with an upper-case digit is
  refused (`RightDigestAcceptedIff`, `UpperCaseDigestRefusedIff`);
* retention beyond 106751 days is not honoured, since the nanosecond count wraps
  (`RetentionHonouredIff`, `LongRetentionIsNone`);
* a same-id message with another body replaces the payload of a stored row once the
  object's retention has lapsed (`PutKeepsPayloadIff`, `PayloadMatchesIffLastWrite`,
  `LapsedRedeliveryReplacesPayload`);
* the stored chain verifies only if events were accepted in (ts, id) order
  (`VerifiesIffMessagesInOrder`, `LateSecondBreaks`);
* `anchored` is documented as included in an anchored root, but a late event is flagged
  although no root binds it (`BoundIffGreatest`, `FlaggedAreBoundIffInOrder`; the two
  messages of `LateSecondBreaks` are such a run).

And a sweep counts every anchor that an export wrote as a mismatch
(`SweepMismatchesAreExports`).

## Model

| member | source | states |
|---|---|---|
| Canonical.EncodeSameIff | internal/chain/chain.go:77-101 | with 32-bit field lengths, two events encode alike if and only if the eight strings agree and the timestamps agree modulo 2^64 ns |
| Canonical.EncodeInjective | internal/chain/chain.go:34-46 | on 32-bit lengths and int64 timestamps the encoding determines all nine fields |
| Canonical.DecodeEncode | internal/chain/chain.go:29-46 | a reader of the documented layout, field by field and high bytes first, gives back every encodable event |
| ByteStrings.BigEndianReadsBack | internal/chain/chain.go:80-101 | reading the fixed-width bytes most significant first gives back every number that fits |
| Canonical.CanonicalSumFaithful | internal/chain/chain.go:29-46 | if the encodings of some events do not collide, this_hash stands for exactly the nine hashed fields |
| Canonical.CanonicalHash | internal/chain/chain.go:34-46 | writing the nine fields in the code's order, step by step, hashes exactly the canonical encoding |
| Canonical.Hasher.WriteStr | internal/chain/chain.go:80-94 | appends the 4-byte big-endian length, then the bytes, after what was written before |
| Canonical.Hasher.WriteTime | internal/chain/chain.go:97-101 | appends the 8-byte two's-complement nanosecond count |
| ByteStrings.BigEndianSame | internal/chain/chain.go:80-101 | two integers have the same w-byte image if and only if they are congruent modulo 256^w |
| Chain.VerifyEvent | internal/chain/chain.go:132-147 | ok if and only if the hash recomputes and a given prev matches; broken takes precedence over gap |
| Chain.VerifyChain | internal/chain/chain.go:153-171 | ok if and only if every hash recomputes and every link closes, with the last this_hash as root; otherwise the first fault and its kind, and no root |
| Chain.SubsequenceAcceptedIffContiguous | internal/chain/chain.go:153-171 | deleting events from a verified chain passes the walk if and only if what is left is empty or one contiguous segment |
| Chain.ArrangementAcceptedIffContiguous | internal/chain/chain.go:153-171 | from genesis on, any selection, reordering or repetition of the events passes if and only if it is a contiguous segment in order |
| Chain.RootBindsHistory | internal/chain/chain.go:153-171 | two verified walks have one root if and only if one is a suffix of the other in every hashed field |
| Chain.RootIdentifiesChain | internal/chain/chain.go:191-195 | from genesis on, equal roots mean equal length and equal hashed fields throughout, and conversely |
| Chain.TamperingDetectedIff | internal/chain/chain.go:149-171 | a rewritten copy of a verified chain passes the walk with the root on record if and only if no hashed field and no stored this_hash was changed |
| Chain.OnlyChainMatters | internal/chain/chain.go:29-46 | payload reference, redaction mark and flags never influence verdict or root: events that agree in the rest get the same |
| Chain.FlagsOutsideHash | internal/store/store.go:105-109 | changing legal_hold and anchored flags changes neither the verdict, in either direction, nor the root |
| Guarantees.AnyChangeShows | internal/chain/chain.go:29-46 | the exact tampering theorem for SHA-256 over the canonical encoding, if the encodings in play do not collide |
| Guarantees.RootVouchesForChain | internal/chain/chain.go:191-195 | a root from genesis on identifies the chain, for the hash really used |
| Guarantees.IngestedChainVerifiesIffInOrder | internal/ingest/ingest.go:151-164 | the order theorem on the messages, for the hash really used |
| Merkle.HashLevel | internal/chain/chain.go:351-364 | one round pairs neighbours, keeps an odd last node and makes n/2 hash calls |
| Merkle.MerkleRoot | internal/chain/chain.go:343-366 | the loop computes the tree that splits at the largest power of two below n, in ceil(log2 n) rounds and n - 1 hash calls; ZeroHash for no leaves |
| Merkle.LevelKeepsTree | internal/chain/chain.go:351-364 | a round leaves the root of the recursive tree unchanged |
| Merkle.SplitPointIsLargestPower | internal/chain/chain.go:338-342 | the split point is the power of two below n whose double is at least n, and no other |
| Merkle.RootBindsLeaves | internal/chain/chain.go:338-366 | for equal leaf counts and no collisions among the node inputs, equal roots if and only if equal leaves |
| Rows.SlotFits | internal/store/memstore/memstore.go:61-68 | the place the sort moves an appended row to is after all smaller keys and before all greater |
| Rows.InsertKeepsTable | internal/store/memstore/memstore.go:53-70 | insert keeps the list strictly sorted with distinct ids and adds exactly the new row |
| Rows.InsertInOrder | internal/store/memstore/memstore.go:61-68 | a row after all others is appended |
| Rows.SortedListingUnique | internal/store/memstore/memstore.go:61-68 | a strictly sorted list is determined by its rows |
| Rows.HeadIsMaximum | internal/store/memstore/memstore.go:137-145 | the chain head is a row with the greatest (ts, id) key, absent only if the table is empty |
| Rows.FlagMutatorsKeepChain | internal/store/memstore/memstore.go:148-173 | neither flag mutator changes a hashed field, the order, the chain verdict or the root |
| Rows.CountAnchoredHold | internal/store/memstore/memstore.go:148-157 | a legal hold leaves the number of anchored rows unchanged |
| Rows.MarkingCounts | internal/store/memstore/memstore.go:160-173 | marking raises the number of anchored rows by exactly the number of rows at or below the key that were not anchored |
| TableMap.InsertRefinesMap | internal/store/memstore/memstore.go:53-70 | on the id-keyed map, insert is insert-if-absent |
| TableMap.HoldRefinesMap | internal/store/memstore/memstore.go:148-157 | on the map, a hold rewrites the one entry in place and keeps the ids |
| TableMap.MarkRefinesMap | internal/store/memstore/memstore.go:160-173 | on the map, marking rewrites exactly the entries at or below the key |
| TableMap.MapDeterminesTable | internal/store/memstore/memstore.go:42-47 | two tables have the same map if and only if they are the same list |
| ByteStrings.StrLessTotal | internal/store/memstore/memstore.go:67-67 | Go's string order is total; with its transitivity and irreflexivity it makes (ts, id) a strict order |
| ByteStrings.StrLessTransitive | internal/store/memstore/memstore.go:67-67 | Go's string order is transitive |
| ByteStrings.StrLessIff | internal/store/memstore/memstore.go:67-67 | a string is less if and only if, at the first difference, it has ended or has the smaller byte |
| MemStore.EventStore.constructor | internal/store/memstore/memstore.go:50-50 | an empty, valid store |
| MemStore.EventStore.Insert | internal/store/memstore/memstore.go:53-70 | list and map keep holding exactly the same records, sorted; the table becomes the sorted insertion, or is unchanged for a known id, and the result tells which |
| MemStore.EventStore.FindSlot | internal/store/memstore/memstore.go:61-68 | the place the sort moves an appended record to |
| MemStore.EventStore.Get | internal/store/memstore/memstore.go:73-82 | the row with this id if there is one, an error otherwise |
| MemStore.EventStore.List | internal/store/memstore/memstore.go:86-134 | returns the first page of the selected rows, with a cursor if and only if the page is full; every row returned is in the window and has the value of each field the filter sets |
| MemStore.EventStore.ChainHead | internal/store/memstore/memstore.go:137-145 | the row with the greatest key |
| MemStore.EventStore.SetLegalHold | internal/store/memstore/memstore.go:148-157 | through the shared record, sets the flag of exactly the row with this id in list and map, or reports that there is none |
| MemStore.EventStore.MarkAnchored | internal/store/memstore/memstore.go:160-173 | flags exactly the rows at or below the key, and returns how many were not flagged before |
| MemStore.EventStore.MarkCell | internal/store/memstore/memstore.go:165-170 | one record: flagged if at or below the key, and counted if newly flagged |
| Paging.SelectedIff | internal/store/memstore/memstore.go:95-122 | field by field: a row is selected if and only if it is stored, in the half-open window, has the value of every field the filter sets, and lies after the cursor if there is one |
| Paging.LooserFirst | internal/store/memstore/memstore.go:95-122 | clearing parts of a filter only adds rows, and filtering in two steps is filtering at once |
| Paging.FiltersCombine | internal/store/memstore/memstore.go:95-122 | a filter that asks for what two filters ask for selects exactly the rows both select |
| Paging.SelectExact | internal/store/memstore/memstore.go:94-127 | the selection is in (ts, id) order and holds exactly the rows that match |
| Paging.CursorResumes | internal/store/memstore/memstore.go:117-122 | continuing from the key of the m-th selected row selects exactly the rest |
| Paging.WindowIsSlice | internal/store/memstore/memstore.go:96-101 | a time window is one contiguous slice of the table |
| Paging.PageFacts | internal/store/memstore/memstore.go:123-133 | under either page rule, a page is the next rows up to the limit, and its cursor, offered exactly if more may follow, selects the rest |
| Paging.PageLength | internal/store/memstore/memstore.go:90-93 | a page holds all selected rows, but at most the limit, which is 1000 unless set to a smaller positive number |
| Paging.CutLookAhead | internal/store/postgres/postgres.go:179-206 | cutting a fetch of limit + 1 rows gives the page of the look-ahead rule |
| Paging.Drain | internal/chain/chain.go:267-287 | reading page after page, with any limits, ends and yields exactly the selected rows |
| Paging.DrainsAgree | internal/store/postgres/postgres.go:200-205 | both page rules drain to the same list, whatever the limits: every wanted row once, in order |
| Paging.DrainCalls | internal/store/memstore/memstore.go:128-133 | at effective limit L, n wanted rows take n/L + 1 calls under the full-page rule and max(1, ceil(n/L)) under the look-ahead rule |
| Cursor.ParseCursor | internal/store/store.go:72-86 | the scan splits at the first bar, accepts the empty string, and rejects text without a bar or with a bad time |
| Cursor.CursorRoundTrip | internal/store/store.go:61-86 | a printed cursor parses back, even if its id contains bars |
| Cursor.AcceptedIff | internal/store/store.go:72-86 | a text is accepted as a cursor if and only if it is empty, or the part before its first bar is a time; the rest is the id |
| Cursor.EmptyTextIff | internal/store/store.go:63-68 | only the empty cursor prints as the empty text |
| Wire.DecodeEncodeHex | internal/event/event.go:157-175 | hex decoding undoes hex encoding |
| Wire.HexDigitsOf | internal/event/event.go:109-114 | every byte is written as two digits, the high one first |
| Wire.DigitsSpelled | internal/event/event.go:123-127 | the digits are 0-9 and a-f, read in either case, and the prefix is "sha256:" |
| Wire.OnlyDigits | internal/event/event.go:146-153 | no other byte is a hex digit |
| Wire.CanonicalHexIff | internal/event/event.go:146-159 | a decodable string is the canonical spelling of its bytes if and only if it has no upper-case digit |
| Wire.DecodeEncodeHash | internal/event/event.go:155-175 | decoding undoes encoding of every 32-byte hash |
| Wire.DecodableIff | internal/event/event.go:155-167 | a hash string decodes if and only if, less an optional prefix, it is 64 hex digits |
| Wire.FirstMissingIff | internal/event/event.go:54-83 | a field is reported if and only if it is missing and none before it is; an envelope passes if and only if all eight are there |
| Wire.RightDigestAcceptedIff | internal/event/event.go:116-144 | a hash string denoting the payload's digest passes the payload check if and only if its hex part is in lower case |
| Wire.DecodeUpperCase | internal/event/event.go:155-167 | the upper-case spelling of a hex string decodes to the same bytes |
| Ingest.UpperCaseDigestRefusedIff | internal/ingest/ingest.go:117-124 | a message whose hash string is its payload's own digest in upper case denotes that digest, and is refused as a mismatch if and only if the digest has a letter among its hex digits |
| Wire.WrongDigestRefused | internal/ingest/ingest.go:119-124 | what passes the payload check denotes the payload's digest |
| Redaction.Matches | internal/redaction/redaction.go:113-125 | the rules that apply, in policy order |
| Redaction.MatchingIff | internal/redaction/redaction.go:113-125 | a rule applies if and only if its service and its action are each a star or the event's own |
| Redaction.MatchingConcat | internal/redaction/redaction.go:113-125 | the rules that apply keep policy order |
| Redaction.FirstListingRuleDecides | internal/redaction/redaction.go:80-99 | the first applicable rule that lists a key decides its fate; later ones never do |
| Redaction.RewriteKey | internal/redaction/redaction.go:79-99 | one key: dropped, replaced or kept as its fate says, other keys untouched, and whether that counts as a change |
| Redaction.RewriteObject | internal/redaction/redaction.go:77-100 | whatever the order in which the keys are visited, the result is the pointwise redaction, changed if and only if some key was |
| Redaction.UnchangedIsIdentity | internal/redaction/redaction.go:101-103 | an object in which no key counts as changed is the original |
| Redaction.Apply | internal/redaction/redaction.go:65-109 | the body itself when nothing applies or changes, an error for a non-object some rule applies to, else the encoding of the pointwise redaction |
| Redaction.StoredFieldIs | internal/redaction/redaction.go:77-109 | the stored body, key by key: a dropped key is gone, a hashed one holds a hash string of the original value, a masked one a mask of its text, and with another transform or none it is as it came |
| Redaction.RedactedMarkIff | internal/redaction/redaction.go:77-109 | the body counts as redacted if and only if some key is dropped, hashed, or masked with a text to mask; else it is returned as it came |
| Redaction.MaskedInsideInvisible | internal/redaction/redaction.go:141-173 | bodies that differ only inside a masked string are stored as the same bytes |
| Redaction.BadPayloadIff | internal/redaction/redaction.go:65-76 | redaction fails if and only if the body is not an object and some rule applies |
| Redaction.TransformMeans | internal/redaction/redaction.go:130-164 | the value under each transform: a decodable hash string of the value, the mask of its text, or the value itself, and which of them count as a change |
| Redaction.MaskShape | internal/redaction/redaction.go:166-173 | a mask is a single star for up to two bytes, and else the end bytes in their places with stars between |
| Redaction.RuneReadsBack | internal/redaction/redaction.go:172-172 | an end byte is printed as the code point it is: itself below 128, two bytes above |
| Redaction.WordsSpelled | internal/redaction/redaction.go:41-50 | the words of the policy language |
| Redaction.MaskHidesInterior | internal/redaction/redaction.go:166-173 | a mask reveals exactly the byte length and the two end bytes |
| Redaction.CaseInsensitiveIff | internal/redaction/redaction.go:23-24 | for any list of rules, the rule that decides every key is the documented one, the first listing it in any case, if and only if every field name is also listed in folded form, by its own rule or an earlier one |
| Redaction.UnfoldedNamesIgnored | internal/redaction/redaction.go:78-84 | every policy acts on every body exactly as it does with the field names not in folded form struck out |
| Redaction.UpperCaseNameRedactsNothing | internal/redaction/redaction.go:78-103 | a policy that drops "SSN" returns a body with the key "SSN" unaltered, where one that drops "ssn" removes the key |
| PolicyText.Parse | internal/redaction/redaction.go:217-260 | the line loop computes the parse of the document |
| PolicyText.ParseRender | internal/redaction/redaction.go:11-21 | parsing a rendered policy, names bare or quoted, gives back the rules in order with their field maps |
| PolicyText.NeutralLineIgnored | internal/redaction/redaction.go:223-254 | blank lines, comments, the two headings and lines without a colon may stand anywhere, within a rule too, without effect |
| PolicyText.CutBeforeRule | internal/redaction/redaction.go:229-237 | a document may be cut before any service line: its rules are those of the two parts |
| PolicyText.PreambleIgnored | internal/redaction/redaction.go:238-240 | whatever stands before the first service line is ignored |
| PolicyText.LastActionCounts | internal/redaction/redaction.go:242-243 | of two action lines in a row the second counts |
| PolicyText.BlanksIgnored | internal/redaction/redaction.go:222-222 | lines that trim alike parse alike |
| PolicyText.TrimIs | internal/redaction/redaction.go:222-222 | trimming removes exactly the blanks around a text |
| PolicyText.FieldReadBackIff | internal/redaction/redaction.go:241-254 | a one-line field name not yet in the rule is read back if and only if it is trimmed, has no colon, no leading hash sign, and is no reserved word |
| PolicyText.BareReadBackIff | internal/redaction/redaction.go:262-270 | an unquoted name is read back if and only if it has no surrounding blanks or matching quotes |
| PolicyText.ReservedIff | internal/redaction/redaction.go:226-244 | a field line reads as a reserved line if and only if the name is that word |
| Vault.PathInjective | internal/s3/s3.go:97-107 | bucket names without a slash keep (bucket, key) pairs apart |
| Vault.OpKeepsRetained | internal/s3/s3.go:91-196 | no put, delete or lifecycle move alters a retained object, storage class aside |
| Vault.RunKeepsRetained | internal/s3/s3.go:69-72 | over any run on a clock that does not run backwards, an object still retained at the end was present and unaltered throughout |
| Vault.PutIsKept | internal/s3/s3.go:91-117 | after an accepted put, every later run keeps object and body if a hold was asked for, and every run within the days asked for keeps them if these are at most 106751 |
| Vault.PutProtectsExactly | internal/s3/s3.go:97-103 | what a put stored can be deleted or overwritten at an instant if and only if it has no hold and its days, if any, have passed |
| Vault.PutMeans | internal/s3/s3.go:91-117 | refused, a put changes nothing; accepted, it changes this path only, to the body, days and hold given, the class given or "STANDARD", and the time of the put |
| Vault.TransitionMeans | internal/s3/s3.go:182-196 | a lifecycle move sets the class of exactly those objects in it that are at least as many days old, and changes nothing else |
| Vault.StoredIffLastWritten | internal/s3/s3.go:91-196 | over any run, a body is stored at a path if and only if the last operation that changed the object there was a put of this body, or none changed it and it was there before |
| Vault.RetentionHonouredIff | internal/s3/s3.go:168-177 | an object is retained throughout the days asked for if and only if these are at most 106751 |
| Vault.LongRetentionIsNone | internal/s3/s3.go:175-176 | with 106752 days it is not retained even when written |
| Vault.Fake.Put | internal/s3/s3.go:91-117 | refused, with nothing changed, exactly while the object in place is retained; else the new object replaces it, as `PutMeans` says |
| Vault.Fake.Get | internal/s3/s3.go:120-128 | the stored body, or not found |
| Vault.Fake.Delete | internal/s3/s3.go:156-166 | deletes exactly an object that is present and not retained, and says which case it was |
| Vault.Fake.ApplyTransition | internal/s3/s3.go:182-196 | in any order of visits, moves exactly the old enough objects of the class, changes nothing else, and returns their number |
| Ingest.PreparedIsSound | internal/ingest/ingest.go:105-149 | what passes the checks has an id, a timestamp, a 32-byte payload hash, and a body with that hash unless redacted |
| Ingest.ComputedHashDecodes | internal/ingest/ingest.go:119-149 | the computed hash string decodes to the digest of the payload as sent |
| Ingest.Pipeline.Check | internal/ingest/ingest.go:105-149 | decode, validate, hash check, redaction and hash decoding, with the outcome `AcceptedIff` and `RefusalIs` describe |
| Ingest.AcceptedIff | internal/ingest/ingest.go:105-149 | a message passes the checks if and only if it decodes, lacks no field, and has a payload its hash string names and the policy can be applied to, or no payload and a decodable hash string |
| Ingest.RefusalIs | internal/ingest/ingest.go:105-149 | a refused message meets the first refusal in the order of the checks |
| Ingest.Pipeline.IngestMessage | internal/ingest/ingest.go:103-211 | the whole new state of both stores, the outcome, and the dead letters, for every failure of a store access; an inserted row carries the envelope of the message |
| Ingest.InsertedRowIs | internal/ingest/ingest.go:164-204 | an inserted row has each field of the envelope under its own name, the digest of the payload as sent, the head's this_hash or genesis, its own hash, the default hold, no anchor, and the redaction mark of what was written |
| Ingest.InsertedPayloadIs | internal/ingest/ingest.go:166-182 | with a payload store, a bucket and a body, that body is put under the event id for the configured class, days and hold and the row refers to it; otherwise nothing is written and the row refers to nothing |
| Ingest.OutcomeIs | internal/ingest/ingest.go:151-210 | which outcome a message that passes the checks has, from the failing access, the object in place and the ids stored |
| Ingest.Pipeline.PutPayload | internal/ingest/ingest.go:166-182 | refused by retention, failed with or without a write, or stored; which ends the call is decided exactly |
| Ingest.Pipeline.InsertIndexRow | internal/ingest/ingest.go:200-210 | failed, duplicate, or inserted, with the table and the arrivals after it |
| Ingest.FaultsOnlyLoseRows | internal/ingest/ingest.go:151-208 | whatever store access fails, table and objects each end as if all of the message or nothing of it had been processed |
| Ingest.Pipeline.Reject | internal/ingest/ingest.go:224-237 | with a sink, a refused message is appended to the dead letters with its topic, partition, offset, key, value and reason; without one, nothing is |
| Ingest.LetterIs | internal/ingest/ingest.go:224-237 | the dead letter, field by field |
| Arrival.RunIsLogged | internal/ingest/ingest.go:151-164 | over every sequential run, the table is the sorted arrivals, and each arrival points at the greatest one before it |
| Arrival.ChainVerifiesIffInOrder | internal/ingest/ingest.go:151-200 | over every sequential run, the whole table verifies if and only if events were accepted in strictly increasing (ts, id) order |
| Arrival.LogIsFirsts | internal/ingest/ingest.go:103-211 | the arrivals of a run are, in order, the rows of the first accepted message of each id |
| Arrival.VerifiesIffMessagesInOrder | internal/ingest/ingest.go:151-200 | the order theorem on the messages: the table verifies if and only if the first accepted message of each id came in strictly increasing (ts, id) order |
| Arrival.LateSecondBreaks | internal/ingest/ingest.go:151-200 | two accepted messages, the second with the smaller key, leave a table of two rows that does not verify |
| Arrival.LateArrivalBreaks | internal/store/memstore/memstore.go:137-145 | an arrival below an earlier one leaves a stored chain that does not verify |
| Arrival.NobodyPointsAtLate | internal/ingest/ingest.go:151-162 | no event points at one that was not the greatest when it came |
| Binding.BoundIffGreatest | internal/ingest/ingest.go:151-162 | over sequential runs, an intact chain leads from a stored event to the chain head if and only if the event was the greatest when it arrived |
| Binding.RootFixesBound | internal/chain/chain.go:191-195 | what the head binds: any intact chain with the same root that goes back as far holds the event, in every hashed field, at its place |
| Binding.FlaggedAreBoundIffInOrder | README.md:117-117 | an anchor run flags every stored event, and its root binds all of them if and only if messages came in (ts, id) order |
| Arrival.RowIdsAreSeen | internal/ingest/ingest.go:103-211 | over every run, an id has a row if and only if some message with it passed the checks |
| Arrival.RedeliveryInvisible | internal/ingest/ingest.go:166-208 | any message sequence leaves the same rows and arrivals as its first accepted message per id alone |
| Origins.RowsCarryMessages | internal/ingest/ingest.go:103-211 | every row of a sequential run carries the envelope of one of its messages |
| Origins.RowsCarryArrivals | internal/ingest/ingest.go:103-211 | in every interleaving, with faults and changing policies, every stored row carries the envelope of a message that arrived |
| Sweep.AnchorStore.InsertAnchor | internal/store/memstore/memstore.go:201-212 | appends the anchor with its new id, stamped now unless it has a time |
| Sweep.AnchorStore.ListAnchors | internal/store/memstore/memstore.go:215-231 | a stable sort by time of exactly the anchors of the closed window |
| Sweep.ListedIsStable | internal/store/memstore/memstore.go:229-229 | the insertion order is a stable sort: in time order, and for every time the same anchors in the same order as stored |
| Sweep.StableSortUnique | internal/store/memstore/memstore.go:229-229 | a list has one stable sort, so the listing is fully determined |
| Sweep.WindowOfExact | internal/store/memstore/memstore.go:219-228 | every anchor is in the window as often as it is stored if its time is in the closed interval, and not at all otherwise |
| Sweep.RunAnchorJob | internal/chain/chain.go:196-236 | either anchors the greatest event with its this_hash, flags the whole table and changes no other field, or changes nothing; which of them is decided exactly |
| Sweep.Collect | internal/export/export.go:68-93 | the page loop ends and has read exactly the rows the filter selects |
| Sweep.CountMismatches | internal/chain/chain.go:312-322 | counts the anchors whose last event is gone or has another this_hash, as the next three rows pin down |
| Sweep.NoMismatchIff | internal/chain/chain.go:312-322 | none mismatches if and only if every anchor names a stored row whose this_hash is the anchor's root, if that has 32 bytes |
| Sweep.RewrittenHashCounted | internal/chain/chain.go:319-321 | where all anchors vouched for their rows, rewriting the this_hash of one row makes exactly the anchors that name it mismatch |
| Sweep.LostRowCounted | internal/chain/chain.go:314-318 | and so does losing the row |
| Sweep.ListedCounts | internal/store/memstore/memstore.go:219-229 | listing neither loses an anchor of the window nor changes how many mismatch |
| Sweep.RunSweep | internal/chain/chain.go:263-334 | the report: event count, verdict, first fault and its 1-based position, root, signature, and anchor mismatches, zero if and only if every anchor of the window names a stored row with its root |
| Sweep.WindowsOfIntactVerify | internal/chain/chain.go:258-302 | every time window of an intact table verifies |
| Sweep.WindowHolds | internal/chain/chain.go:273-273 | a sweep walks exactly the events of the half-open window, an unset end leaving it open |
| Sweep.SweepReadsBeginning | internal/chain/chain.go:266-287 | with any filter, a sweep over a growing table has read a beginning of what the final table selects, and all of what the first one selected if it ended |
| Sweep.InterleavedSweepSound | internal/chain/chain.go:266-302 | over a growing intact table, a sweep that ends has read a contiguous segment with every in-window event present at its start, and it verifies |
| Sweep.QuietSweepReadsAll | internal/chain/chain.go:266-287 | on a table that does not change, the interleaved loop ends with exactly the window |
| Live.LiveRunHealthy | internal/ingest/ingest.go:151-200 | over every run of in-order ingest and flag changes, the table stays sorted and intact |
| Live.LiveRunGrows | internal/ingest/ingest.go:151-200 | over such a run the table only grows at its end, up to flags |
| Live.SweepBesideIngest | internal/chain/chain.go:263-302 | a sweep whose page fetches fall anywhere in such a run, if it ends, read a contiguous segment of the final table that starts with all it saw at first, and it verifies |
| Export.ExportRootRealIff | internal/export/export.go:110-115 | an export of an intact table carries a real root if and only if its matching rows are non-empty and contiguous, and then the this_hash of the last one |
| Export.KeySpelled | internal/export/export.go:143-143 | the artifact is stored under "exports/", the job id and the suffix of its format |
| Export.SelectIsPick | internal/export/export.go:68-93 | what an export reads is the table at increasing positions |
| Export.EffectiveRetention | internal/export/export.go:54-60 | always positive: the days asked for if positive, else the default if positive, else 2555 |
| Export.Runner.RunJob | internal/export/export.go:50-155 | the whole new state of job row, anchors and object store, in each of the failing and completing cases |
| AuditSystem.CallFrame | internal/ingest/ingest.go:151-208 | of an ingest call's steps only an enabled insert changes rows; none touches anchors or jobs |
| AuditSystem.JobFrame | internal/chain/chain.go:196-236 | an anchor job never touches payloads or calls, and of rows only flags |
| AuditSystem.OtherSteps | internal/app/app.go:194-233 | a hold sets one row's flag, an export adds an anchor that names no event, the object store runs one operation, time moves on; each changes nothing else |
| AuditSystem.RowsStep | internal/store/memstore/memstore.go:53-70 | every step keeps the table sorted, with distinct ids and recomputable hashes |
| AuditSystem.LinksStep | internal/ingest/ingest.go:151-200 | every step keeps: each prev_hash is ZeroHash or the this_hash of an earlier arrival |
| AuditSystem.PayloadsStep | internal/ingest/ingest.go:166-182 | every step keeps each row's and each call's payload object in place while it is retained |
| AuditSystem.AnchorsStep | internal/chain/chain.go:196-236 | every step keeps job anchors true, anchored rows covered by a job anchor, and the count of marked rows exact |
| AuditSystem.RunKeepsInv | internal/app/app.go:194-233 | every run, with any interleaving, keeps all four invariants |
| AuditSystem.ReachableInv | internal/app/app.go:194-233 | all four hold in every reachable state |
| Payloads.PayloadIntegrity | internal/ingest/ingest.go:115-208 | over every run, a stored row with a payload reference goes back to a put of its own call, of a body with the recorded hash unless redacted; while the configured hold or days (up to 106751) protect that put, this body is under the reference |
| Payloads.PutKeepsPayloadIff | internal/s3/s3.go:97-103 | a put leaves a matching payload matching if and only if the object in place is retained or the new body has the recorded hash |
| Payloads.PayloadMatchesIffLastWrite | internal/ingest/ingest.go:115-208 | over every run, in every interleaving, the object under a row's reference has the recorded hash if and only if the last operation that changed it was a put of a body with this hash |
| Payloads.LapsedRedeliveryReplacesPayload | internal/ingest/ingest.go:166-208 | two messages with one id, the second after the first object's retention, leave a row whose payload has another hash |
| AuditResults.PrevLinksReachGenesis | internal/ingest/ingest.go:151-200 | with any number of concurrent calls, following prev_hash from any stored event reaches ZeroHash within the size of the store |
| AuditResults.UntamperedNeverBroken | internal/chain/chain.go:132-171 | in every reachable state a walk over any selection fails, if at all, with a gap, never as broken |
| AuditResults.SweepMismatchesAreExports | internal/chain/chain.go:306-323 | in every reachable state the anchors a sweep counts as mismatches are exactly the exports'; job anchors give none |
| AuditResults.JobAnchorsStayTrue | internal/chain/chain.go:218-231 | every job anchor keeps naming a stored event with the key and the this_hash it recorded |
| AuditResults.AnchoredFlagsSound | internal/chain/chain.go:227-234 | every anchored event is at or below a stored job anchor, and the counts MarkAnchored returned add up to the anchored events |
| AuditResults.RowsSurvive | internal/store/store.go:105-109 | append-only: over every run no row is lost, only flags change, and no anchored flag is cleared |
| AuditResults.FinishedJobAnchorsAll | internal/chain/chain.go:232-235 | after a job's mark, everything then present at or below its head is anchored for good |
| AuditResults.UninterleavedCallIsProcess | internal/ingest/ingest.go:103-211 | a call whose store accesses run with nothing in between does exactly what processing the message does |
| AuditResults.UninterleavedFaultyCall | internal/ingest/ingest.go:151-208 | the same for a call one of whose store accesses fails |
| AuditResults.UninterleavedJobIsRun | internal/chain/chain.go:196-236 | an anchor job whose three store accesses run with nothing in between does exactly what the job's code does, and nothing else |

## Left out

- HTTP, authentication, JSON and CSV encoding, metrics, configuration: no chain logic. Decoders and encoders are parameters.
- The SHA-256 compression function (section 6.2 of FIPS 180-4), KMS signing and UUIDs: the hash is any function to 32 bytes, a signer is a partial function, a new id is an argument.
- Time formatting: `CursorRoundTrip` assumes of the timestamp's printed form only that it holds no bar and parses back.
- Clock: each modelled operation takes one clock reading as an argument; the code may read it more than once.
- Sorting: the store sorts after every append. The model moves the appended record to its place, which is what a stable sort does to a list that was sorted before; the sort algorithm itself is not modelled.
- SQL, other than the limit-plus-one page rule; Kafka and AWS adapters; context cancellation.
- Copies: the store hands out copies of its records; the model returns the value.
- TamperForTest, GetAnchor, Head, PresignGet, and the export-job and dead-letter stores. A dead letter's append is taken to succeed, which the code does not check; an export's job row is taken to exist.
- Anchor event counts and notary URLs, and the text of error reasons.
- Ingest.Pipeline.IngestMessage: which store access fails is an argument, since the in-memory stores themselves do not fail; a call fails at most once, as any failure ends it.
- Swapping the redaction policy: a policy is an argument. In `AuditSystem` every call may have another one.
- AuditSystem.After: a step on values, so it does not capture aliasing; the classes do, for code that runs uninterleaved, and `UninterleavedCallIsProcess` and `UninterleavedJobIsRun` tie the two. An object-store operation and a put are one step each.
- Redaction.Apply: the value's own text for a `fmt.Stringer` is not modelled, since decoded JSON holds none; encoding the rewritten object is taken not to fail. `StoredFieldIs` assumes that an encoded object decodes to itself.
- PolicyText.ParseRender: policies here are strings of code points and at ingest byte strings; UTF-8 between the two is not modelled.
- Export.Runner.RunJob: the artifact's bytes are an opaque function of the job, the rows, the root and the anchor id.
- Merkle.RootBindsLeaves: for equal leaf counts, and it cannot be had for unequal ones: without the leaf and node prefix bytes of section 2.1 of RFC 6962 a list of leaves and its first level share a root (`LevelKeepsTree`).
- The single-event predecessor lookup of the HTTP API, which reads at most 1000 earlier events.
- Delivery liveness: the consumer acknowledges every message, so nothing here says that every message is stored in the end.
