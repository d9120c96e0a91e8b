# Verified models of the school platform's critical algorithms

This project models the parts of the school ERP whose correctness rests on an algorithm or a protocol
and proves what they promise. Each module names the component it models.

| module | component |
|---|---|
| AuditExport, ExportCheckpoint | incremental export of audit events below a transaction fence, with a saved checkpoint |
| UstarReader, UstarRoundTrip, RecoveryBundle | fail-closed tar inventory of identity volumes, archive entries, dump comparison, bundle validation |
| CanonicalJson, JsonReader, AuditChain | canonical JSON, a reader of JSON text, and the per-school hash chain of the activity log |
| Bits, Base32, Totp | authenticator secrets and codes, in the service and in the local verification script |
| CircuitBreaker | circuit breaker in front of the AI provider |
| RecoveryCodes, Lockout | one-time recovery codes, failed-login counting and temporary lockout |
| SessionRefresh | the browser client's shared session refresh |
| GradeResolver, AcademicGraph, Assignments, AssignmentOutcomes, DuplicateScan | assignment service against the academic integrity audit |
| Sequence, SequenceCalls | application, admission, student and receipt numbers, call by call and with calls that overlap |
| Similarity, OriginalityReport | plagiarism scores and reports |
| IndianWords | rupee amounts in words |
| Wrappers, Text, Characters, Collections, Numerals | shared definitions: results, ordering and splitting of strings, character classes, numerals |

How the models are built:

- Objects whose fields the source updates are classes; each method states its whole new state by a
  function of the old one. Concurrent use is a step system over the same functions: a datatype of
  actions, when each is enabled, what it does, and theorems over every sequence of actions. A stretch of
  code between two awaits, or one database statement with the code around it, is one step.
- Algorithms with loops are methods with invariants, proved equal to a recursive or bit-string meaning.
- Thrown errors are `Failure` results. Clocks, random values, generated keys and digests are parameters.

## Where the code falls short of its comments

The models follow the code. Where that differs from a comment or an evident intention, the difference is
a theorem with its exact condition:

- `axios.ts` is written to reject waiting requests when a refresh fails (lines 102-105), but line 57
  drops them uncalled. They hang exactly when a refresh fails while others wait.
- `identity-recovery.js` refuses entries under a symlink, but its textual test never fires for the root: an
  accepted archive has an entry under a symlink exactly when its root is one and not the only entry.
- `audit.service.ts` chains records by creation time and id. Records in one millisecond with descending
  ids fork the chain. A writer that has not read the whole chain forks it too, which the lock prevents only
  inside a transaction: `agent-control-plane.service.ts` (line 1089) and `audit-log.interceptor.ts` (line 97)
  pass none and rely on the one around the request, which `tenant-database.interceptor.ts` (lines 48-53) opens
  only in production or with row-level security on. An absent snapshot hashes like an empty object, given
  that the database-null marker has no keys of its own.
- `ai-resilience.service.ts` admits a probe with a negative retry limit that never reports back; without
  another call in flight the breaker then stays half open.
- `auth.service.ts` counts failed logins and locks the account. Where the request runs in one transaction
  (`tenant-database.interceptor.ts`, lines 48-80), the exception that refuses the login rolls the count back:
  the bound on failed comparisons holds exactly where requests are not so wrapped.
- `sequence.util.ts` promises strictly sequential, collision-free identifiers under bursts, but reads the
  counter with a plain query and writes a literal value back. Calls that read the same counter return the
  same identifier, and two calls do so exactly when neither has read what the other stored; the unique
  indexes on the records then refuse the second insert. A single call returns a taken identifier exactly
  when a hundred consecutive numbers are taken. It also promises to continue a school's compact numbering,
  but does so for the first identifier of a counter only. An identifier does not name its school: two
  schools whose next numbers are free share one exactly when their counters are equal, and only one school's
  applications are searched, although the index on application numbers spans all schools.
- `formatters.ts` runs out of its table of tens at one hundred crore.

Three checks are narrower in one place and made good elsewhere:

- `assignments.service.ts` does not check the school of a subject passed along with an offering that has no
  legacy subject. The database's trigger does, and refuses exactly these writes.
- The grade parsers of the services and of the audit differ for levels outside 1 to 12, which the constraint
  on classes (`20260922130000_academic_integrity_closure/migration.sql`, line 157) does not admit.
- The text keys of `validate-academic-integrity.js` can clash when a year, staff or section id contains a
  colon. The generated ids contain none.

## Assumptions

- Digests and keyed hashes are functions; collision freedom is a hypothesis of the theorems that need it.
  Newly drawn recovery codes have hashes never issued before. Event ids and record ids are
  unique, and no stored id is the empty string.
- A transaction below the snapshot's lower bound has finished and its events are visible to that snapshot.
- The clock of the circuit breaker, of logins and of one school's log does not run backwards.
- Writers to one school's log hold its lock to the end of their transaction, except where a theorem speaks of
  a stale read. The compare-and-swap on recovery codes and the increment of the failure counter are single
  statements and therefore atomic. Nothing of the kind is assumed of the identifier counter. What a request
  does in a transaction of its own counts as done when it commits, and a request rolled back has done nothing.
- Class levels lie between 1 and 12 where a theorem says so, as the constraint on the table ensures.

## Model

| member | source | states |
|---|---|---|
| AuditExport.NothingMissed | scripts/ops/export-audit.js:36-56 | in every run, with transactions committing out of order, aborting, and the exporter crashing between any two writes, each committed event at or below the saved checkpoint is in some exported file |
| AuditExport.NoLateArrival | scripts/ops/export-audit.js:38-42 | whatever runs afterwards, no transaction can still commit an event at or below a checkpoint that has been saved |
| AuditExport.CheckpointForward | scripts/ops/export-audit.js:30-35 | the checkpoint only moves forward in lexicographic order, over any run |
| AuditExport.SaveAdvances | scripts/ops/export-audit.js:53 | each saved page moves the checkpoint strictly forward |
| AuditExport.ExactlyOnce | scripts/ops/export-audit.js:43-55 | in a history without crashes the files between two runs hold every event the checkpoint covers exactly once and nothing else, as multisets |
| AuditExport.RepeatsBounded | scripts/ops/export-audit.js:50-53 | each crash repeats at most one page: the rows in files exceed the covered events and the page in flight by at most 500 for each crash |
| AuditExport.GuardNeverFires | scripts/ops/export-audit.js:42 | without a database restore the check for a history moved backwards never fires |
| AuditExport.StepInv | scripts/ops/export-audit.js:27-58 | every step, of a business transaction or of the exporter, keeps the invariant that joins database, checkpoint, page in hand and files |
| AuditExport.PageIsInterval | scripts/ops/export-audit.js:44 | among the events a run sees below its fence, a page holds exactly those after the old checkpoint and not after the new one |
| AuditExport.AdvanceDropsPage | scripts/ops/export-audit.js:44-53 | after a save exactly the rows behind the page remain eligible, in the same order |
| AuditExport.PageIsFull | scripts/ops/export-audit.js:44 | a page has 500 rows, or all that are eligible when there are fewer |
| AuditExport.PagesCount | scripts/ops/export-audit.js:43-55 | a run writes one file for each 500 eligible events and one for what is left |
| AuditExport.PagesComplete | scripts/ops/export-audit.js:43-55 | the files of a run list exactly the eligible events, in order; every file but the last has 500 rows and the last has 1 to 500 |
| AuditExport.Exporter.Run | scripts/ops/export-audit.js:42-55 | the page loop ends; it refuses a fence below the checkpoint and otherwise leaves the checkpoint at the fence, appends exactly the pages of the eligible events and returns their number, which is the number of events over 500 rounded up |
| AuditExport.UndisturbedRun | scripts/ops/export-audit.js:36-56 | a run that nothing disturbs is an execution of the step system, with the checkpoint and files the loop method promises |
| AuditExport.FinishedIsExported | scripts/ops/export-audit.js:36-56 | from every reachable idle state the next run can finish, and then every event of a transaction that had ended is in some file |
| AuditExport.DatabaseSteps | scripts/ops/export-audit.js:38-42 | what each step of a business transaction does to pending and committed events, and that it touches nothing of the export |
| ExportCheckpoint.UuidOrder | scripts/ops/export-audit.js:44 | the text order of uuids is their numeric order, so the text filter and the uuid sort of the query agree |
| ExportCheckpoint.SavedCheckpointReadsBack | scripts/ops/export-audit.js:8-11 | a saved checkpoint is accepted by the next run, its transaction id reads back unrounded, and its text filters ids exactly as the cursor it stands for |
| ExportCheckpoint.AcceptedIff | scripts/ops/export-audit.js:8-11 | a checkpoint is accepted exactly if its transaction id is a decimal numeral and its event id is empty or 36 hexadecimal digits and dashes |
| ExportCheckpoint.UuidLayout | scripts/ops/export-audit.js:44 | the text of an event id has dashes exactly at 8, 13, 18 and 23, and its 32 digits read back to the id |
| UstarReader.TarInventory | scripts/dr/identity-recovery.js:52-99 | the offset loop with its set of seen names computes the inventory function, error for error |
| UstarReader.AcceptedIsSound | scripts/dr/identity-recovery.js:67-98 | an accepted archive is accounted for to the last byte: entry records without gap or overlap, each reported with the name, kind, link target, owner, size and digest its header and data hold and with the sum of its other header bytes and eight spaces as checksum, then only zeros; names are distinct, relative, normal and free of `..`, link targets harmless, nothing under a symlink other than the root; the result is the entries in ascending order of name |
| UstarReader.AcceptedIff | scripts/dr/identity-recovery.js:67-98 | conversely every archive with such an account is accepted |
| UstarReader.ChecksumIs | scripts/dr/identity-recovery.js:79 | the checksum is the plain byte sum before and behind its field and eight spaces for the field |
| UstarReader.OctalParts | scripts/dr/identity-recovery.js:58-62 | a numeric field is octal digits with nothing but white space around them, and has their value |
| UstarReader.OctalReads | scripts/dr/identity-recovery.js:58-62 | and every such field is read |
| UstarReader.SafePathIff | scripts/dr/identity-recovery.js:63-66 | a path is let through exactly if it is not empty, has no leading slash and no backslash, and `..` stands nowhere in it between slashes or ends |
| UstarReader.NormalUnchanged | scripts/dr/identity-recovery.js:63-66 | a name in normal form is accepted and stays as it is |
| UstarReader.DotSegmentsDropped | scripts/dr/identity-recovery.js:63-66 | an empty or `.` segment makes no difference to the recorded name |
| UstarReader.SafePathNormal | scripts/dr/identity-recovery.js:63-66 | whatever path is accepted, the recorded name is `.` or has no empty, `.` or `..` segment and no backslash |
| UstarReader.UnderIsPrefix | scripts/dr/identity-recovery.js:72-74 | away from the root, the textual symlink test holds exactly when one name's directories lead to the other |
| UstarReader.RootNeverUnder | scripts/dr/identity-recovery.js:72-74 | at the root that test never fires |
| UstarRoundTrip.RoundTrip | scripts/dr/identity-recovery.js:52-99 | reading back any archive of valid entries, written with its own byte sum over eight spaces as checksum, gives the entries sorted by name, and is refused if and only if two names coincide or a name begins with a symlink's name and a slash |
| UstarRoundTrip.OrderIrrelevant | scripts/dr/identity-recovery.js:75 | two archives with the same entries in different orders are both refused or have the same inventory |
| UstarReader.UnderLinkIff | scripts/dr/identity-recovery.js:72-74 | in an accepted archive some entry lies under a symlink if and only if the root entry is a symlink and not the only entry |
| UstarRoundTrip.RootLinkAccepted | scripts/dr/identity-recovery.js:72-74 | any archive of distinctly named entries with a symlink as root is accepted, unless an entry lies under another symlink, although every other entry lies under the root |
| UstarRoundTrip.RootLinkExample | scripts/dr/identity-recovery.js:72-74 | a symlink as root and a file beside it can be written, and the archive is accepted |
| RecoveryBundle.DecodeEntry | scripts/dr/identity-recovery.js:43-51 | decoding an entry gives its bytes back, for any bytes and any digest |
| RecoveryBundle.DecodeIff | scripts/dr/identity-recovery.js:46-51 | an entry is accepted exactly if its text is base64 symbols and at most two padding characters and the bytes they hold have the recorded digest |
| RecoveryBundle.DecodedBits | scripts/dr/identity-recovery.js:46-51 | these bytes are the bits of the symbols but for an incomplete last byte |
| RecoveryBundle.SameCanonicalIff | scripts/dr/identity-recovery.js:35-38 | two dumps have one canonical form exactly when they agree on all lines but the two kinds of volatile ones (no lines and one empty line count as equal) |
| RecoveryBundle.ValidBundle | scripts/dr/identity-recovery.js:100-112 | a valid bundle holds exactly one archive for each of the three volumes, each with its recorded digest and accounted for to the last byte |
| RecoveryBundle.ValidIff | scripts/dr/identity-recovery.js:100-112 | a bundle is valid exactly if version, project name, image digests, logical hash, secret, volume targets and database entry are as required and each volume is an archive accounted for to the last byte |
| CanonicalJson.CanonicalIff | apps/api/src/core/audit/audit.service.ts:108-120 | two values have the same canonical text if and only if they are the same up to the order of keys at any depth, an absent snapshot counting as an empty object |
| CanonicalJson.PrefixFree | apps/api/src/core/audit/audit.service.ts:108-120 | followed by a comma, a closing bracket or nothing, the text of a value ends where it must: if two texts so followed agree, so do the texts and what follows |
| CanonicalJson.EqualTextSameValue | apps/api/src/core/audit/audit.service.ts:108-120 | equal texts come from values equal up to key order |
| CanonicalJson.SameValueEqualText | apps/api/src/core/audit/audit.service.ts:115-119 | values equal up to key order at any depth have equal texts |
| CanonicalJson.KeyOrderIrrelevant | apps/api/src/core/audit/audit.service.ts:115-119 | reordering the keys of an object does not change its text |
| CanonicalJson.AbsentLooksEmpty | apps/api/src/core/audit/audit.service.ts:103-106 | an absent snapshot and an empty-object snapshot have one text, so no hash tells them apart |
| JsonReader.ReadsBack | apps/api/src/core/audit/audit.service.ts:108-120 | a reader of JSON written from RFC 8259, with its own table of escapes and literals, gives every value back from its canonical text up to key order, with keys in ascending order |
| JsonReader.StringReadsBack | apps/api/src/core/audit/audit.service.ts:108-120 | unescaping by section 7 of RFC 8259 gives every string back |
| CanonicalJson.EscapeForms | apps/api/src/core/audit/audit.service.ts:108-120 | which characters have a short escape, which a numeric one, and which stand as they are |
| AuditChain.AuditLog.RecordMutation | apps/api/src/core/audit/audit.service.ts:54-100 | a new record carries the hash of the school's latest record and keeps the log one that was built by recording in turn |
| AuditChain.HashedTextReadsBack | apps/api/src/core/audit/audit.service.ts:63-79 | the hashed text reads back as an object with exactly the eleven fields of the entry, each under its own key name |
| AuditChain.SchoolsIndependent | apps/api/src/core/audit/audit.service.ts:45-59 | the records of one school alone form a log of their own, whatever other schools write in between |
| AuditChain.ChainIffInOrder | apps/api/src/core/audit/audit.service.ts:54-59 | a school's records form one unforked chain from a null root exactly when each of them, except perhaps the newest, was stamped later than all before it |
| AuditChain.EverySchoolChained | apps/api/src/core/audit/audit.service.ts:45-100 | with strictly increasing stamps and a collision-free hash, every school has one unforked chain in the shared log |
| AuditChain.ContinuesIffReadAll | apps/api/src/core/audit/audit.service.ts:45-59 | a record continues a chain if and only if its writer has read all of it, so the lock must be held from the read to the commit |
| AuditChain.HashDetermines | apps/api/src/core/audit/audit.service.ts:63-79 | equal integrity hashes mean equal hashed fields, snapshots up to key order |
| AuditChain.ChainHashesDistinct | apps/api/src/core/audit/audit.service.ts:63-79 | no two records of a chain have the same hash |
| AuditChain.LastHashDeterminesHistory | apps/api/src/core/audit/audit.service.ts:59-79 | the last integrity hash determines the length and every hashed field of the whole history |
| AuditChain.TieForksChain | apps/api/src/core/audit/audit.service.ts:54-62 | two records stamped in the same millisecond with descending ids fork the chain |
| Base32.EncodeBase32 | apps/api/src/core/security/totp.util.ts:60-74 | the loop with the unmasked 32-bit accumulator yields the bits of the bytes regrouped by five, zero-filled, as in section 6 of RFC 4648 |
| Base32.ByteIn | apps/api/src/core/security/totp.util.ts:64-66 | after shifting a byte into the wrapped accumulator its low `bits` bits and the output so far still spell the bytes read |
| Base32.SymbolOut | apps/api/src/core/security/totp.util.ts:67-70 | taking out a symbol keeps that agreement |
| Base32.DecodeBase32 | apps/api/src/core/security/totp.util.ts:76-91 | the decoding loop yields the bits of the symbols regrouped by eight, or fails exactly for a character outside the alphabet |
| Base32.SymbolIn | apps/api/src/core/security/totp.util.ts:80-84 | the decoder's accumulator agrees with the exact bit string after each symbol |
| Base32.DecodeEncode | apps/api/src/core/security/totp.util.ts:60-91 | decoding an encoded secret gives its bytes back, for every byte string |
| Base32.AcceptedSecrets | apps/api/src/core/security/totp.util.ts:76-91 | a secret is accepted exactly if, in upper case and without padding, it consists of the 32 symbols of section 6 of RFC 4648 |
| Totp.VerifyTotp | apps/api/src/core/security/totp.util.ts:25-43 | a token is accepted exactly when it is the code of a counter within the window; tokens that are not six digits are refused first, and bad secrets or counters out of range are errors |
| Totp.ComputeToken | apps/api/src/core/security/totp.util.ts:45-58 | the token computed with the loop decoder is the code the bit-string meaning of the secret gives (section 5.3 of RFC 4226, section 4 of RFC 6238) |
| Totp.CounterBytesFaithful | apps/api/src/core/security/totp.util.ts:47-48 | the counter buffer has eight bytes and determines the counter |
| Totp.CounterBytesBigEndian | apps/api/src/core/security/totp.util.ts:47-48 | the counter buffer spells the counter in eight bytes, the most significant first |
| Totp.ImplementationsAgree | scripts/ops/verify-identity-local.js:18-30 | for every secret and time the two implementations, after the service's clean-up of the secret, succeed together and then give one code |
| Totp.SameCode | scripts/ops/verify-identity-local.js:18-30 | for an unpadded upper-case secret the two results are equal as they stand |
| Totp.CodeMeans | apps/api/src/core/security/totp.util.ts:45-58 | a code is six decimal digits that read back to the truncation of the digest of counter and secret |
| Totp.TruncateIsTruncation | apps/api/src/core/security/totp.util.ts:50-56 | the service computes the truncation of section 5.3 of RFC 4226: of the bits of the digest, the 31 behind the first bit of the byte that the last four bits name |
| Totp.LocalCodeIsTruncation | scripts/ops/verify-identity-local.js:28-29 | so does the local script, with its own offset and its mask in another place |
| Totp.TokenShape | apps/api/src/core/security/totp.util.ts:31-32 | a token is tried only if six decimal digits are left |
| CircuitBreaker.ClosedExactlyBelowThreshold | apps/api/src/modules/ai/ai-resilience.service.ts:132-156 | over every interleaving of calls the breaker is closed exactly while fewer than five failures are counted |
| CircuitBreaker.HalfOpenHasOneProbe | apps/api/src/modules/ai/ai-resilience.service.ts:108-130 | for calls with `maxRetries >= 0`: while half open, exactly one call admitted in the episode is in flight, nothing else is admitted, and its end leaves the half-open state |
| CircuitBreaker.CooldownHolds | apps/api/src/modules/ai/ai-resilience.service.ts:108-119 | from an open breaker, without success or reset, k admissions take more than 60000 k milliseconds since the last failure; so none within 60000 |
| CircuitBreaker.CooldownAttained | apps/api/src/modules/ai/ai-resilience.service.ts:108-119 | that bound is attained: while the provider stays down one probe gets through for each 60001 milliseconds |
| CircuitBreaker.AttemptsWithinLimit | apps/api/src/modules/ai/ai-resilience.service.ts:205-241 | however calls overlap, none makes more than `maxRetries + 1` attempts |
| CircuitBreaker.FailuresCounted | apps/api/src/modules/ai/ai-resilience.service.ts:143-156 | between successes and interventions each failed call counts exactly once, and a retried attempt does not |
| CircuitBreaker.AdmittedIff | apps/api/src/modules/ai/ai-resilience.service.ts:108-130 | a call is admitted exactly while the breaker is closed, more than 60000 milliseconds after the last failure while it is open, or without another probe while it is half open |
| CircuitBreaker.SuccessClears | apps/api/src/modules/ai/ai-resilience.service.ts:132-141 | a success, in whatever state, leaves the breaker closed with no failure counted and no probe |
| CircuitBreaker.OpensAtFifth | apps/api/src/modules/ai/ai-resilience.service.ts:143-156 | from a success on the breaker stays closed through four failed calls and opens with the fifth |
| CircuitBreaker.NegativeLimitSticks | apps/api/src/modules/ai/ai-resilience.service.ts:196-205 | whatever else is in flight, an admitted probe is there to report back if and only if its retry limit is not negative |
| CircuitBreaker.StuckForever | apps/api/src/modules/ai/ai-resilience.service.ts:121-129 | a breaker left half open with no call in flight admits nothing ever again unless an operator resets or trips it |
| CircuitBreaker.AIResilience.Begin | apps/api/src/modules/ai/ai-resilience.service.ts:196-200 | admission and the state after it, from the four fields |
| CircuitBreaker.AIResilience.RecordFailure | apps/api/src/modules/ai/ai-resilience.service.ts:143-156 | the whole state after a recorded failure |
| CircuitBreaker.AIResilience.Execute | apps/api/src/modules/ai/ai-resilience.service.ts:196-251 | the attempt loop ends with the first attempt that succeeds or is the last one, and reports to the breaker once, or not at all for a negative limit |
| CircuitBreaker.ExecuteIsARun | apps/api/src/modules/ai/ai-resilience.service.ts:196-251 | a call that nothing overlaps is a run of the step system with the result the loop promises |
| RecoveryCodes.AcceptedAtMostOnce | apps/api/src/modules/auth/auth.service.ts:843-866 | over all interleavings of challenges, enrolment, confirmation and disabling, no recovery code is accepted twice |
| RecoveryCodes.StoredIsIssuedMinusAccepted | apps/api/src/modules/auth/auth.service.ts:343-357 | while the second factor is on, the stored list is the issued list in its order minus the accepted codes, and the two parts make up all ten |
| RecoveryCodes.TenCodesWork | apps/api/src/modules/auth/auth.service.ts:301-407 | for any ten hashes there is a run that enrols, confirms and then accepts each of the ten codes once |
| RecoveryCodes.ConfirmStores | apps/api/src/modules/auth/auth.service.ts:343-357 | while the second factor is off, confirmation turns it on and stores the list, which is then issued; otherwise it changes nothing |
| RecoveryCodes.ClearingSteps | apps/api/src/modules/auth/auth.service.ts:301-407 | beginning an enrolment and disabling each leave the second factor off and no list |
| RecoveryCodes.SwapIsAtomic | apps/api/src/modules/auth/auth.service.ts:844-866 | a challenge is accepted exactly if the list is still the one it read; its code was then stored and leaves the list |
| RecoveryCodes.UndisturbedChallenge | apps/api/src/modules/auth/auth.service.ts:843-866 | a stored code works: a challenge that nothing disturbs is accepted and uses up that code alone |
| RecoveryCodes.SecondSwapRefused | apps/api/src/modules/auth/auth.service.ts:852-865 | of two challenges that read the same list, the second is refused even with a different code, which stays stored |
| RecoveryCodes.StaleNeverWins | apps/api/src/modules/auth/auth.service.ts:852-865 | a challenge whose code has left the list is refused for ever, re-enrolment included |
| RecoveryCodes.StepInv | apps/api/src/modules/auth/auth.service.ts:301-407 | every step of any request keeps the invariant of row, pending requests, issued and accepted codes |
| RecoveryCodes.UserRow.ConsumeRecoveryCode | apps/api/src/modules/auth/auth.service.ts:844-866 | the compare-and-swap on the stored row: when it succeeds, what it leaves, and which error otherwise |
| RecoveryCodes.UserRow.ConfirmEnrolment | apps/api/src/modules/auth/auth.service.ts:343-357 | confirmation succeeds exactly if the second factor was off, and then it is on and the list stored |
| Lockout.SerialBound | apps/api/src/modules/auth/auth.service.ts:52-66 | with logins handled one at a time, each write kept, a cleared account sees at most 5 + floor(T / 900000) failed comparisons in T milliseconds without a success |
| Lockout.BoundHoldsIff | apps/api/src/core/interceptors/tenant-database.interceptor.ts:48-80 | the serial bound holds for all logins if and only if a login request does not run in one transaction, which its refusal rolls back |
| Lockout.WrappedNeverCounts | apps/api/src/core/interceptors/tenant-database.interceptor.ts:66-80 | in such a transaction no failure is ever counted, so any number of comparisons can fail at one moment |
| Lockout.BoundAttained | apps/api/src/modules/auth/auth.service.ts:881-902 | that bound is attained for every number of locks |
| Lockout.MissesBounded | apps/api/src/modules/auth/auth.service.ts:881-902 | with at most n overlapping logins, each write kept, the bound is 3 + 2n + n floor(T / 900000) |
| Lockout.OverlappingBoundAttained | apps/api/src/modules/auth/auth.service.ts:881-902 | that bound too is attained, for every n and every number of locks |
| Lockout.NoCountLost | apps/api/src/modules/auth/auth.service.ts:892-901 | however logins overlap, counter and unwritten failures add up to the failed comparisons |
| Lockout.UserRow.Login | apps/api/src/modules/auth/auth.service.ts:52-116 | verdict and new counter of one login: a wrong password counts, a right one that is denied changes nothing, a success clears |
| Lockout.LoginIsARun | apps/api/src/modules/auth/auth.service.ts:46-117 | a login that nothing overlaps is a run of the step system |
| SessionRefresh.OneRefreshAtATime | apps/web/src/lib/axios.ts:97-114 | at most one refresh call is outstanding, and nothing waits while none is |
| SessionRefresh.SuccessReplaysEachOnce | apps/web/src/lib/axios.ts:51-54 | after a successful refresh each waiting request and the leader is sent again exactly once, with the new token |
| SessionRefresh.FailureOrphansWaiters | apps/web/src/lib/axios.ts:144-152 | a failed refresh settles only its leader and leaves all waiting requests without a callback; no other step does |
| SessionRefresh.OrphanForever | apps/web/src/lib/axios.ts:56-58 | such a request is never settled |
| SessionRefresh.HangingIffFailedWhileWaiting | apps/web/src/lib/axios.ts:56-58 | requests are left hanging exactly in the runs where some refresh fails while others wait |
| SessionRefresh.HangingExample | apps/web/src/lib/axios.ts:97-155 | a concrete run of five steps that leaves a request hanging |
| SessionRefresh.WaitersNeverRejected | apps/web/src/lib/axios.ts:101-105 | in every run each rejected request is one that led a refresh, and whoever has led never waits again |
| SessionRefresh.RejectEndsOwnRefresh | apps/web/src/lib/axios.ts:101-105 | the step that rejects a request ends its own refresh, so the branch written to reject a waiting request is never taken |
| SessionRefresh.LeadsAtMostOnce | apps/web/src/lib/axios.ts:113-114 | no request leads two refreshes, so refreshes never outnumber requests, and none is sent again more than five times for network errors |
| SessionRefresh.StepInv | apps/web/src/lib/axios.ts:84-194 | every step keeps the invariant of flag, queue and requests |
| SessionRefresh.LogoutIff | apps/web/src/lib/axios.ts:116-155 | a refresh ends the session exactly if the server refuses it; an unreachable server or an empty token does not |
| SessionRefresh.AttemptIff | apps/web/src/lib/axios.ts:64-81 | a refresh is tried exactly for a 401 of a signed-in user that was not retried and whose address names none of the four entry points |
| SessionRefresh.IncludesMeans | apps/web/src/lib/axios.ts:80 | the substring test behind the list of entry points |
| SessionRefresh.ApiClient.OnRefreshed | apps/web/src/lib/axios.ts:51-54 | the callback loop replays the subscribers in order and empties the queue |
| SessionRefresh.ApiClient.OnUnauthorized | apps/web/src/lib/axios.ts:98-114 | an eligible 401 leads exactly if no refresh is under way, and is queued otherwise |
| SessionRefresh.ApiClient.OnRefreshReply | apps/web/src/lib/axios.ts:116-155 | the whole module state after the answer to a refresh |
| GradeResolver.ReadingsAgreeIff | apps/api/src/core/academic/grade-resolver.util.ts:17-32 | service and audit read the same grade if and only if the level is 1 to 12, or the first number of the name is a grade standing as a word, or a later grade that is the first to stand so has its value, or it is 1 and none stands so |
| GradeResolver.ReadingsAgree | apps/api/src/core/academic/grade-resolver.util.ts:17-32 | service and audit read the same grade whenever the level is 1 to 12, or the first number of the name is a grade standing as a word |
| GradeResolver.ReadingsDiffer | scripts/maintenance/validate-academic-integrity.js:575-577 | levels outside 1 to 12 with three names for which they differ |
| GradeResolver.GradeAtIff | apps/api/src/core/academic/grade-resolver.util.ts:24-36 | the services find a grade exactly where a numeral from 1 to 12 stands with no letter, digit or underscore on either side |
| GradeResolver.AuditReads | scripts/maintenance/validate-academic-integrity.js:575-577 | the audit reads the first run of digits, whatever stands around it, and keeps the level when there is none |
| AcademicGraph.AuditAssignments | scripts/maintenance/validate-academic-integrity.js:472-615 | the audit's loop reports exactly the issues of every row in order, and nothing exactly if every row is clean |
| AcademicGraph.CleanIffFits | scripts/maintenance/validate-academic-integrity.js:472-615 | a row is clean exactly if session, class, section, staff, offering and subject all fit its school, its session and each other |
| AcademicGraph.IssueIff | scripts/maintenance/validate-academic-integrity.js:472-614 | each of the thirteen issues is reported once for a row that has it and never otherwise |
| AcademicGraph.FindingIff | scripts/maintenance/validate-academic-integrity.js:472-615 | a finding is reported exactly if some row with its id has its issue |
| Assignments.ResolvedYearFits | apps/api/src/modules/assignments/assignments.service.ts:35-64 | the resolved session is an unlocked one of the school, the one asked for or an active one |
| Assignments.ResolvedStaffFits | apps/api/src/modules/assignments/assignments.service.ts:77-120 | the resolved staff member is active in the school, the one named or the user's own, and exists exactly if such a record does |
| AssignmentOutcomes.CreateIff | apps/api/src/modules/assignments/assignments.service.ts:256-300 | the service passes a create with a certain row exactly if the tables hold all it asks for and the row is made of it, the subject's only offering being inferred |
| AssignmentOutcomes.UpdateIff | apps/api/src/modules/assignments/assignments.service.ts:316-392 | the same for an update, whose fields left alone are the row's own, and whose offering must be on offer only if it is new |
| AssignmentOutcomes.ContextIff | apps/api/src/modules/assignments/assignments.service.ts:125-254 | class, section, offering and subject are accepted exactly if they belong together |
| AssignmentOutcomes.StoredIff | apps/api/prisma/migrations/20260922193000_change9a_assignment_canonical_hardening/migration.sql:68-204 | the trigger lets a row through exactly if what it refers to exists and fits, its session is open, and its offering was there before or is on offer |
| AssignmentOutcomes.CreateWritesIff | apps/api/src/modules/assignments/assignments.service.ts:256-314 | a create writes a row exactly if its id is unused and service and trigger pass the row |
| AssignmentOutcomes.UpdateWritesIff | apps/api/src/modules/assignments/assignments.service.ts:316-415 | an update writes a row exactly if the old one is of the school and service and trigger pass the new one |
| AssignmentOutcomes.DeleteIff | apps/api/src/modules/assignments/assignments.service.ts:447-462 | a deletion succeeds exactly for a row of the school in an open session |
| Assignments.InferredIff | apps/api/src/modules/assignments/assignments.service.ts:225-241 | without an offering in the request one is inferred exactly if it is the only one on offer for the subject, session and grade |
| Assignments.CreateRefusedIff | apps/api/prisma/migrations/20260922193000_change9a_assignment_canonical_hardening/migration.sql:68-204 | the database refuses a create that the service has passed if and only if the subject given with an offering is not one of the school or the offering does not cover the class's stored level; for levels 1 to 12 the subject alone decides |
| Assignments.UpdateRefusedIff | apps/api/prisma/migrations/20260922193000_change9a_assignment_canonical_hardening/migration.sql:68-204 | the same for an update |
| Assignments.StoredFits | apps/api/prisma/migrations/20260922193000_change9a_assignment_canonical_hardening/migration.sql:68-204 | what the trigger lets through lies in an unlocked session and is clean if and only if its staff member is active and the audit reads a grade its offering covers |
| Assignments.CreateCleanIff | apps/api/src/modules/assignments/assignments.service.ts:256-303 | a created row lies in an unlocked session and is clean if and only if its offering covers the grade as the audit reads it |
| Assignments.UpdateCleanIff | apps/api/src/modules/assignments/assignments.service.ts:316-392 | the same for an updated row |
| Assignments.WrittenIsClean | apps/api/src/modules/assignments/assignments.service.ts:256-392 | for classes as their table constrains them, what a create or update writes is always clean, in an unlocked session, and replaces no row of a locked one |
| Assignments.RunStaysClean | apps/api/src/modules/assignments/assignments.service.ts:256-462 | over any run of creates, updates and deletes with any arguments a clean table stays clean and the rows of locked sessions stay exactly as they are |
| Assignments.StepKeeps | apps/api/src/modules/assignments/assignments.service.ts:256-462 | one operation keeps both |
| Assignments.ForeignSubjectRefused | apps/api/src/modules/assignments/assignments.service.ts:207-217 | an offering without a legacy subject and a subject of another school pass the service together, and the database refuses the row |
| Assignments.AssignmentsService.CreateAssignment | apps/api/src/modules/assignments/assignments.service.ts:256-303 | the table after a create, and when it succeeds |
| Assignments.AssignmentsService.UpdateAssignment | apps/api/src/modules/assignments/assignments.service.ts:316-400 | the table after an update, and when it succeeds |
| Assignments.AssignmentsService.DeleteAssignment | apps/api/src/modules/assignments/assignments.service.ts:447-462 | the table after a delete, and when it succeeds |
| DuplicateScan.AuditDuplicates | scripts/maintenance/validate-academic-integrity.js:424-456 | one pass with two key sets reports exactly the rows whose key an earlier row has |
| DuplicateScan.SilentIffNoDuplicates | scripts/maintenance/validate-academic-integrity.js:424-456 | when year, staff and section ids are free of the separator, nothing is reported exactly if no two rows assign the same thing and no section of a year has two class teachers |
| DuplicateScan.ReportedIff | scripts/maintenance/validate-academic-integrity.js:424-456 | for such ids a row is reported exactly if an earlier one has its post or assigns the same thing |
| DuplicateScan.SameTargetIff | scripts/maintenance/validate-academic-integrity.js:440-445 | the same thing is taught exactly if the offerings agree and, when neither row has one, the subjects do |
| DuplicateScan.SameKeyIffSameAssignment | scripts/maintenance/validate-academic-integrity.js:441-446 | for such ids the composite text key is equal exactly for equal year, staff, section and subject matter |
| DuplicateScan.SeparatorClashIff | scripts/maintenance/validate-academic-integrity.js:441-446 | ids that hold the separator only in given places admit two different assignments with one key if and only if year, staff or section is among these places |
| DuplicateScan.TargetMayHoldSeparator | scripts/maintenance/validate-academic-integrity.js:441-446 | the offering or subject may hold it, since it comes last |
| Sequence.TakenIffHundredTaken | apps/api/src/core/database/sequence.util.ts:103-132 | the returned identifier is already taken exactly if all of the next hundred numbers are; otherwise it is the first free one |
| Sequence.TakenIdentifierReturned | apps/api/src/core/database/sequence.util.ts:103-149 | and that can happen, for every series and counter |
| Sequence.NeverIssuedTwice | apps/api/src/core/database/sequence.util.ts:95-149 | serial calls of one series never issue an identifier twice and strictly increase the counter, whatever happens to the records in between, beyond 9999 too |
| SequenceCalls.RepeatsReadApart | apps/api/src/core/database/sequence.util.ts:33-147 | in every run of overlapping calls, of two calls with one identifier neither has read a counter that the other stored, nor one that led back to it |
| SequenceCalls.TwoCallsRepeatIff | apps/api/src/core/database/sequence.util.ts:33-147 | two calls over unchanged records return one identifier if and only if neither has read a counter stored by the other |
| SequenceCalls.RepeatIffSameRead | apps/api/src/core/database/sequence.util.ts:33-147 | any number of overlapping calls on a new or an existing counter, over unchanged records: two return one identifier if and only if they have read the same counter |
| SequenceCalls.OverlapRepeats | apps/api/src/core/database/sequence.util.ts:33-147 | two overlapping calls, for every series and counter with a free next number, both return that number, which nobody has taken |
| SequenceCalls.SerialNeverRepeats | apps/api/src/core/database/sequence.util.ts:33-147 | in every run in which a call begins only when no other is under way, identifiers are distinct |
| Sequence.SchoolsShareIff | apps/api/src/core/database/sequence.util.ts:95-132 | calls for two schools return one identifier if and only if both follow the same form and the searches from their counters or baselines through their records end at one number |
| Sequence.SchoolsShareCounter | apps/api/src/core/database/sequence.util.ts:95-132 | two schools whose next numbers are free share an identifier exactly if their counters are equal |
| Sequence.FirstApplicationsShare | apps/api/src/core/database/sequence.util.ts:110-115 | two schools that take their first application of a year both get APP-2026-0001 |
| Sequence.FirstNumber | apps/api/src/core/database/sequence.util.ts:50-93 | the first number of an application, student or receipt series follows the number of its records, and a later one follows the counter; it is issued if it is free |
| Sequence.ConventionMatchedOnce | apps/api/src/core/database/sequence.util.ts:61-99 | of the identifiers of one counter only the very first can follow the compact form of the existing records; all later ones are dashed |
| Sequence.CompactAdoptedIff | apps/api/src/core/database/sequence.util.ts:68-87 | the scan adopts the compact form if and only if some compact number exceeds all dashed ones before it |
| Sequence.CounterIncreases | apps/api/src/core/database/sequence.util.ts:42-48 | the issued number lies above the old counter and not above the new one |
| Sequence.CandidatesDiffer | apps/api/src/core/database/sequence.util.ts:96-99 | candidates tell their numbers apart at any width, and compact ones never look like the others |
| Sequence.AdmBaselineIsFree | apps/api/src/core/database/sequence.util.ts:61-88 | on first use of an admission series with a four-digit year the number taken from the existing records is free at once |
| Sequence.AdmBaseline | apps/api/src/core/database/sequence.util.ts:68-87 | the order-dependent scan of admission numbers |
| Sequence.ScanCovers | apps/api/src/core/database/sequence.util.ts:68-87 | the scan's result covers every compact number, and every dashed one unless a compact one was adopted |
| Sequence.BaselineIs | apps/api/src/core/database/sequence.util.ts:61-88 | the number after the baseline follows the largest compact number once that form is adopted, else the largest dashed one, else the number of students |
| Sequence.Search | apps/api/src/core/database/sequence.util.ts:100-132 | the bounded search gives the first free candidate, or the hundredth and the number after it |
| Sequence.SequenceStore.GenerateNextSequence | apps/api/src/core/database/sequence.util.ts:32-150 | identifier and stored counter of a call that nothing overlaps |
| Similarity.ScoreIsRoundedJaccard | apps/api/src/modules/assignments/plagiarism.service.ts:107-130 | unless a text is empty or both match ignoring case, the score is shared over all shingles to the nearest hundredth of a percent |
| Similarity.ShortcutAgrees | apps/api/src/modules/assignments/plagiarism.service.ts:111 | texts that match ignoring case have the same shingles, so the shortcut gives what the ratio would unless there are no words |
| Similarity.ScoreSymmetric | apps/api/src/modules/assignments/plagiarism.service.ts:107-130 | the score is symmetric |
| Similarity.ScoreRange | apps/api/src/modules/assignments/plagiarism.service.ts:107-130 | the score lies between 0 and 100 percent |
| Similarity.CalculateSimilarity | apps/api/src/modules/assignments/plagiarism.service.ts:107-130 | the method computes that score |
| Similarity.CountedRatio | apps/api/src/modules/assignments/plagiarism.service.ts:118-129 | counting shared shingles one by one gives the Jaccard ratio |
| Similarity.GenerateNgrams | apps/api/src/modules/assignments/plagiarism.service.ts:42-61 | the loops collect exactly the windows of n words, or the whole of a shorter text |
| Similarity.ShinglesTellWords | apps/api/src/modules/assignments/plagiarism.service.ts:57-59 | as text two shingles are equal exactly if their words are |
| Similarity.ExtractVerbatimMatches | apps/api/src/modules/assignments/plagiarism.service.ts:66-102 | the loops collect the first five shared phrases by first appearance |
| Similarity.PhrasesAreShared | apps/api/src/modules/assignments/plagiarism.service.ts:66-102 | sample phrases are windows of both texts, none twice, and when there are fewer than five none is missing |
| Similarity.PhrasesInOrder | apps/api/src/modules/assignments/plagiarism.service.ts:66-102 | they are the first five in the order in which the first text has them |
| Similarity.TokensApart | apps/api/src/modules/assignments/plagiarism.service.ts:43-50 | a character that is no letter, digit or underscore separates words |
| Similarity.TokenAlone | apps/api/src/modules/assignments/plagiarism.service.ts:43-50 | a word counts in lower case, unless it is a single character |
| Similarity.GramsIff | apps/api/src/modules/assignments/plagiarism.service.ts:42-61 | the shingles are any three consecutive words, or all words when there are one or two |
| Similarity.PunctuationDropped | apps/api/src/modules/assignments/plagiarism.service.ts:71-80 | punctuation disappears from phrases without separating anything |
| OriginalityReport.CheckPeerCollisions | apps/api/src/modules/assignments/plagiarism.service.ts:135-170 | highest score and sorted matches of the peers |
| OriginalityReport.SortedFalls | apps/api/src/modules/assignments/plagiarism.service.ts:167 | the matches are a descending permutation of those found and the first has the highest score |
| OriginalityReport.OrderIrrelevant | apps/api/src/modules/assignments/plagiarism.service.ts:175-238 | the order of the peers changes neither score nor status, nor the multiset of matches |
| OriginalityReport.MorePeersNeverLower | apps/api/src/modules/assignments/plagiarism.service.ts:135-238 | more peers never lower the score or the status |
| OriginalityReport.PlagiarizedIff | apps/api/src/modules/assignments/plagiarism.service.ts:183-215 | reported as plagiarised exactly with at least ten words and another student's text scoring at least 35 percent |
| OriginalityReport.StatusIff | apps/api/src/modules/assignments/plagiarism.service.ts:175-238 | the status of a submission of ten words or more by the best score, from 50, 35, 20 and 15 percent on; a shorter one is clean |
| OriginalityReport.ListedIff | apps/api/src/modules/assignments/plagiarism.service.ts:135-170 | a match is listed exactly for every other student's submission scoring at least 15 percent, with its ids, score and phrases; the report's score is that of the first |
| OriginalityReport.TiesKeepOrder | apps/api/src/modules/assignments/plagiarism.service.ts:167 | matches with the same score stay in the order of the peers |
| OriginalityReport.GenerateOriginalityReport | apps/api/src/modules/assignments/plagiarism.service.ts:175-238 | the report of the method is the specified one |
| IndianWords.NumberToIndianWords | apps/web/src/lib/formatters.ts:131-169 | the printed text is the specified words joined by single spaces |
| IndianWords.ReadInWords | apps/web/src/lib/formatters.ts:131-169 | a reader of number words recovers every amount from 0 to 999999999 |
| IndianWords.TenCroreApart | apps/web/src/lib/formatters.ts:144-157 | from 1000000000 on, amounts ten crore apart print alike |
| IndianWords.AmbiguousIff | apps/web/src/lib/formatters.ts:131-169 | a positive amount shares its words with another if and only if it is at least 1000000000 |

## Left out

- Encryption, file naming, manifests, the lock file and the database fingerprint check of the audit export; a partly written file counts as not written.
- The database restore that would make the export's history guard fire: only that the guard never fires without one is proved.
- Text decoding: paths, fields and secrets are one character per byte, JSON strings are compared by code unit, and letter case and white space are ASCII.
- Number printing in JSON: a number is given by the literal that prints it. Lone surrogates in strings are not modelled.
- The clean-up of snapshots before hashing (sanitizeAuditSnapshot): the chain takes the cleaned snapshots.
- Integers beyond 2^53 in numeric fields, sequence numbers and amounts, where JavaScript rounds.
- Similarity.ScoreIsRoundedJaccard: the ratio is exact; the two floating-point roundings before the last one are not modelled.
- Lockout.MissesBounded: the lock check belongs to the step that reads the user, so a lock written between that read and the check a moment later is not modelled.
- Totp.VerifyTotp: the constant-time comparison is equality; counters are exact integers.
- IndianWords.NumberToIndianWords: takes the amount after rounding to an integer.
- Quota counters, retry classification by message text and backoff delays of the AI service: the outcome of an attempt is an input.
- The random fallback identifier after five rolled-back transactions, which no store checks; a call that is rolled back simply begins again.
- The refusal of a repeated identifier by the unique index when its record is inserted.
- Request and response bodies, timeouts and messages of the browser client; the retry delay is part of the retry step.
- The audits of classes, sections, offerings, enrolments, exams and marks, which repeat the patterns of the two modelled here.
- Assignment fields that no check reads (description, due date, marks, active flag); the title stands for them.
- validation of the school id (requireSchoolId): school ids arrive validated.
- drill and backup of the identity recovery script, roles, permissions, timetables, prompts, PDF and page code: orchestration, or settled by reading one branch.
