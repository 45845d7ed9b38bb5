# Verification models of the command-line tools

Dafny 4.11 models of the parts of this repository that carry the most logic, each beside proofs of what the part is
for. `dafny verify dfyconfig.toml` checks the whole project.

- **Certificate authority (`openssl ca`)**, the largest part. `TxtDb` is the text form of the index; `SerialText` the
  serial numbers as text and as lookup keys; `Calendar` and `Asn1Time` the time line and the two time texts;
  `Revocation` the revocation field of a row; `CaNames` the policy, the e-mail stripping and the one-line subject;
  `CaDatabase` the load check, the two lookup indexes, insertion and expiry; `CaRevoke` revoking; `CaIssue` issuing a
  batch; `CaRuns` whole runs, one after the other, over the index file; `CaCounter` the serial counter over a run;
  `CaCommit` the renames that put counter and index in place; `CaCrl` the revocation list.
- **CMS option assembly (`openssl cms`)**: `CmsSigners`, the option loop that pairs signers, keys and key options;
  `CmsRecipients`, the key options of an encryption.
- **CMP section list (`openssl cmp`)**: `CmpSections`, the tokenizer that runs from the end and the layered lookup.
- **Stream encryption (`openssl enc`)**: `HexCodec` and `EncStream`.
- **Digest output (`openssl dgst`)**: `DigestNames`, the escaping of newlines in file names.
- **Templates of the two PHP systems**: `Templates` and `TemplateBridges`, one-pass against sequential replacement of
  placeholders.

Loops and objects that change state are classes and methods proved equal to functions on values; the properties are
lemmas about those functions. Functions from libraries (cipher, key derivation, base64, table of object identifiers,
labels of objects) are parameters, with the laws used stated where they are used. The clock is a parameter.

Several properties one would expect do not hold of the code for all inputs. They are proved as equivalences with the
exact condition, and each has an input that shows the failure:

- From 2050 on the clock's text is a GeneralizedTime, which the revocation field does not accept when it is read back:
  revoking succeeds and the next load refuses the index (`CaRuns.RevokedIndexLoadsExactly`,
  `CaRuns.RevokedIndexIsRefusedExactly`, `CaRevoke.RevokingIn2050BreaksTheIndex`). The same lemmas cover a certificate
  whose own expiry date cannot be read (`CaRuns.UnreadableDateBreaksTheIndex`), a row with an empty status field
  (`CaRuns.StatuslessRowBreaksTheIndex`), and a hold instruction that cannot be stored
  (`CaRuns.HoldTextBreaksTheIndex`). Such an instruction can only be the long name of an object that the configuration
  registers (`crypto/asn1/asn_moid.c`, lines 60-106), with a line end inside or a backslash at its end, both written
  with an escape (`crypto/conf/conf_def.c`, lines 693-707; `CaRuns.SomeTextsAreNotWritable`). Over whole runs the
  loads find what was in memory if and only if every step that went through met these conditions
  (`CaRuns.RunsReloadExactly`).
- A row whose name goes on behind a line end like a comment would load again with a shorter name
  (`TxtDb.CommentSwallowsTheTail`). Names are printed on one line, and then a saved index loads unchanged or not at all
  (`CaDatabase.SavedLoadsOrIsRefused`).
- The load checks a date without moving it to Greenwich; the expiry loop moves it, and takes a date that cannot be
  moved for expired. The loop marks exactly the rows past their date if and only if no active row has a date behind the
  year 9999 (`CaDatabase.MarkingIsRightExactly`, `CaDatabase.WestRowIsMarked`).
- Rows are compared by their serial texts without leading zeros. A hand-written serial is found by its number if and
  only if it is in upper case and has no zero byte behind a sign (`SerialText.FoundByNumberExactly`,
  `SerialText.HandWrittenNumbersHide`).
- A status query with a sign meets a serial only if it is written in whole bytes without a zero byte in front: asked for
  with one digit, minus ten is not found (`SerialText.StatusMatchesExactly`, `SerialText.SignedQueryMisses`).
- A commit is safe under all faults if and only if the new counter is above all numbers and the counter that can come
  back is above the old ones (`CaCommit.CommitIsSafeExactly`). A run that creates the counter can break both: it begins
  at a random number, which nothing puts above an index that is not empty (`CaCommit.RandomStartIsUnsafe`), and a failed
  rename can put the counter of an old backup in place (`CaCommit.BadBackIsReached`).
- The counter stays above the index over a run if and only if it passes every serial number that `-revoke` and
  `-valid` insert, and over one such step if and only if the row was there or its number is below the counter
  (`CaCounter.CounterStaysAboveExactly`, `CaCounter.RevokeKeepsCounterExactly`,
  `CaCounter.ForeignSerialPassesTheCounter`).
- A value in the default section hides the values of all listed sections but the last
  (`CmpSections.LayeredIsMergedExactly`, `CmpSections.DefaultHidesEarlierSection`); the manual page describes the
  default section as the lowest layer (`doc/man1/openssl-cmp.pod.in`, lines 175-179). The model follows the code.
- A key option given behind `-encrypt` can reach a signer it was not given for (`CmsSigners.OptionsArePairedExactly`,
  `CmsSigners.EncryptFirstMixesOptions`), and one given outside `-encrypt` can reach a recipient, or cut off an option
  meant for one (`CmsRecipients.RecipientsArePairedExactly`, `CmsRecipients.SignerFirstMixesOptions`).
- Sequential replacement differs from one-pass replacement for some values without braces if and only if the template
  has a bridge: braces around placeholders that can spell a placeholder replaced later, when the placeholders inside
  are filled and those between two braces vanish (`TemplateBridges.SequentialIsOnePassExactly`, with and without blank
  values; `TemplateBridges.BlankValueBreaks`, `TemplateBridges.NestedBracesBreak`). For values with braces it differs
  as soon as the template has a placeholder (`TemplateBridges.AnyValuesExactly`).
- A file name with a newline and a literal backslash-n, or with two newlines, shares its flag and text with another
  name, so no reader can tell them apart (`DigestNames.SharesItsTextExactly`); a reader that unescapes errs exactly on
  the first kind (`DigestNames.NameReadsBackExactly`, `DigestNames.LiteralIsMistaken`).
- A buffer size that is zero after it was cut to 32 bits loses messages (`EncStream.RoundTripExactly`,
  `EncStream.HugeBufferLosesAMessage`).

## Model

| member | source | states |
|---|---|---|
| TxtDb.ScanLine | openssl-3.0.15/crypto/txt_db/txt_db.c:74-103 | the two-cursor scan of a line, with a tab taken back into the field behind a backslash, yields the fields of the recursive reading |
| TxtDb.RoundTripExactly | openssl-3.0.15/crypto/txt_db/txt_db.c:20-126 | writing and reading an index gives the same rows if and only if no field holds a line end, only last fields end in a backslash, and no row looks like a comment |
| TxtDb.ReloadIsStable | openssl-3.0.15/crypto/txt_db/txt_db.c:188-233 | every file that loads can be written out and loads to the same rows |
| TxtDb.UnchangedOrRefused | openssl-3.0.15/crypto/txt_db/txt_db.c:74-113 | rows with last fields on one line that do not look like comments are read back as they were, or the file is refused, if and only if they cannot all be stored |
| TxtDb.CommentSwallowsTheTail | openssl-3.0.15/crypto/txt_db/txt_db.c:64-70 | a row whose last field goes on behind a line end like a comment is read back without that part |
| SerialText.SerialHexReads | openssl-3.0.15/apps/ca.c:1818-1825 | the serial text of a new row passes the load check and denotes the number |
| SerialText.SameKeySameValue | openssl-3.0.15/apps/lib/apps.c:1431-1439 | rows that compare equal without leading zeros have the same serial number |
| SerialText.FiledByNumberExactly | openssl-3.0.15/apps/lib/apps.c:1421-1439 | a serial that passes the load check has the key its number is printed under if and only if it is in upper case and has no zero byte behind a sign |
| SerialText.FoundByNumberExactly | openssl-3.0.15/apps/ca.c:2144-2162 | lookups by printed numbers meet a serial exactly by its number if and only if it is of that form |
| SerialText.CanonicalIsPlain | openssl-3.0.15/apps/ca.c:1818-1825 | every serial the tool prints is of that form |
| SerialText.PlainKeysAreNumbers | openssl-3.0.15/apps/lib/apps.c:1421-1439 | for serials of that form, and so for all the tool prints, equal keys mean equal numbers and the other way round |
| SerialText.HandWrittenNumbersHide | openssl-3.0.15/apps/ca.c:719-738 | two pairs of rows with one number each, lower case and zero bytes behind a sign, pass the load check under different keys |
| SerialText.StatusMatchesExactly | openssl-3.0.15/apps/ca.c:2235-2264 | a status query of any case and length, with or without a sign, meets a serial in upper case without a zero byte behind a sign if and only if the numbers agree and a query with a sign has whole bytes without a zero byte in front |
| SerialText.SignedQueryMisses | openssl-3.0.15/apps/ca.c:2248-2263 | the number minus ten is missed when asked for with one digit and found with two |
| Calendar.SecondsFollowTheCalendar | openssl-3.0.15/crypto/o_time.c:133-184 | of two valid times the earlier one in the calendar has the smaller number of seconds, and the other way round |
| Calendar.FourDigitYears | openssl-3.0.15/crypto/o_time.c:179-200 | the year computed from a day number lies in 1900 to 9999 exactly for the days from the first of 1900 to the last of 9999 |
| Asn1Time.PrintReadsBack | openssl-3.0.15/crypto/asn1/a_time.c:267-317 | the clock's text passes the expiry check and reads as the time it was printed from |
| Asn1Time.PrintIsUtcExactly | openssl-3.0.15/crypto/asn1/a_time.c:30-35 | the clock's text is a UTCTime if and only if the year is 1950 to 2049 |
| Asn1Time.ConvertsExactly | openssl-3.0.15/crypto/asn1/a_time.c:226-254 | a time in another zone can be moved to Greenwich if and only if it falls into the years 1900 to 9999 there |
| Asn1Time.LastSecondOfTheWest | openssl-3.0.15/crypto/asn1/a_time.c:242-253 | a text that every check accepts and that cannot be moved, because the year 10000 has begun in Greenwich |
| Asn1Time.StrictTextIsChecked | openssl-3.0.15/crypto/asn1/a_time.c:380-442 | an end date the user may give is stored as text the load check accepts and names the same time |
| Asn1Time.TimeCharacters | openssl-3.0.15/crypto/asn1/a_time.c:76-265 | accepted times hold only digits, a point and a zone |
| Revocation.FillBuffer | openssl-3.0.15/apps/ca.c:2429-2456 | the computed size is exactly the text and its terminator, so the bounded copies cut nothing |
| Revocation.MakeRevocationStr | openssl-3.0.15/apps/ca.c:2377-2459 | fails exactly on a malformed request, else writes time, canonical reason and argument joined by commas |
| Revocation.UnpackRevinfo | openssl-3.0.15/apps/ca.c:2564-2673 | reads a field as the cut at its first two commas followed by the checks of the pieces |
| Revocation.JoinIsCut | openssl-3.0.15/apps/ca.c:2584-2597 | the reader cuts a written field where the writer joined it, also with commas in the argument |
| Revocation.WrittenReadsBackExactly | openssl-3.0.15/apps/ca.c:2352-2673 | for every request that can be written, reading recovers reason code of RFC 5280 section 5.3.1, hold object and compromise time if and only if the time is a UTCTime |
| Revocation.ClockFieldReadsBackExactly | openssl-3.0.15/apps/ca.c:2429-2458 | with the clock's own text the field reads back exactly while the clock is in 1950 to 2049 |
| CaDatabase.SavedLoadsExactly | openssl-3.0.15/apps/ca.c:690-748 | a saved index passes parsing, field checks and index building unchanged if and only if its rows are acceptable and storable |
| CaDatabase.SavedLoadsOrIsRefused | openssl-3.0.15/apps/ca.c:690-748 | a saved index with names on one line loads unchanged if its rows are acceptable and storable, and is refused otherwise |
| CaDatabase.LoadedIsStorable | openssl-3.0.15/apps/lib/apps.c:1636-1701 | whatever loads is acceptable and can be stored again |
| CaDatabase.CaDb.CheckRows | openssl-3.0.15/apps/ca.c:702-739 | reports the first row that fails a field check, or that all pass |
| CaDatabase.BuildSerialIndex | openssl-3.0.15/crypto/txt_db/txt_db.c:148-186 | succeeds if and only if the serial keys are distinct, and then every row is found under its key |
| CaDatabase.BuildNameIndex | openssl-3.0.15/apps/lib/apps.c:1706-1729 | succeeds if and only if active names are distinct, and then answers for exactly the active names |
| CaDatabase.CaDb.Insert | openssl-3.0.15/crypto/txt_db/txt_db.c:235-283 | refuses exactly on a clash with an index, else appends the row and keeps both indexes right |
| CaDatabase.InsertKeepsGoodExactly | openssl-3.0.15/crypto/txt_db/txt_db.c:235-283 | a good state with one more row is good if and only if that row passes its own check |
| CaDatabase.MarkRows | openssl-3.0.15/apps/ca.c:2318-2346 | the loop marks and counts exactly the active rows whose date compares as not later than the clock, a date that cannot be moved to Greenwich among them, or stops at a date it cannot read |
| CaDatabase.MarkingIsRightExactly | openssl-3.0.15/crypto/asn1/a_time.c:580-591 | the rows marked are exactly the active rows past their date if and only if no active row has a date behind the year 9999 |
| CaDatabase.WestRowIsMarked | openssl-3.0.15/apps/ca.c:2336-2342 | a row that ends in the year 10000 passes the load check and is marked expired at every time |
| CaDatabase.MarkingTwice | openssl-3.0.15/apps/ca.c:2302-2350 | marking again later equals marking once later, and the counts add up |
| CaDatabase.MarkingLeavesNone | openssl-3.0.15/apps/ca.c:2336-2342 | right after marking the loop would mark no further row |
| CaDatabase.StatusFindsByNumber | openssl-3.0.15/apps/ca.c:2235-2300 | in an index of serials in upper case without zero bytes behind signs a status query finds a row if and only if it has that number and a query with a sign has whole bytes without a zero byte in front |
| CaNames.FindInCa | openssl-3.0.15/apps/ca.c:1640-1656 | the inner search finds a CA entry equal to the request's value if and only if there is one |
| CaNames.AddField | openssl-3.0.15/apps/ca.c:1604-1684 | one policy line succeeds if and only if the request meets it, and then all request values of that object are pushed in request order |
| CaNames.BuildSubject | openssl-3.0.15/apps/ca.c:1594-1685 | the policy accepts if and only if every line is met; the subject is the concatenation of the lines in policy order, each entry in its own set |
| CaNames.DeleteKeepsStructure | openssl-3.0.15/crypto/x509/x509name.c:101-138 | deleting an entry and renumbering keeps values, order and grouping of all others |
| CaNames.StripEmail | openssl-3.0.15/apps/ca.c:1784-1808 | deleting while scanning ends and leaves exactly the entries that are not e-mail, in order and grouped as before |
| CaNames.NameIsOneLine | openssl-3.0.15/crypto/x509/x509_obj.c:67-175 | the one-line subject is printable text whatever bytes the request holds, and empty only for an empty name |
| CaRevoke.DoRevoke | openssl-3.0.15/apps/ca.c:2129-2233 | ends after at most one call of itself and has the effect of the function on states |
| CaRevoke.RevokeEffect | openssl-3.0.15/apps/ca.c:2165-2227 | after success exactly one row has the serial, it is revoked with the text asked for, all others are unchanged, at most one row was added |
| CaRevoke.AddValidEffect | openssl-3.0.15/apps/ca.c:2166-2203 | -valid succeeds only for a serial that is not in the index and adds an active row at the end |
| CaRevoke.RevokeTwiceRefused | openssl-3.0.15/apps/ca.c:2212-2218 | revoking the same certificate again is refused and changes nothing |
| CaRevoke.RevokeKeepsGoodExactly | openssl-3.0.15/apps/ca.c:2129-2233 | after success the next field checks pass if and only if the clock prints UTCTime or nothing is revoked, and the row has a status and a readable date |
| CaRevoke.RevokingIn2050BreaksTheIndex | openssl-3.0.15/apps/ca.c:2429-2437 | a plain revocation in 2050 succeeds and leaves an index that does not load |
| CaIssue.MakeRow | openssl-3.0.15/apps/ca.c:1587-1843 | policy, preserve, e-mail stripping and one-line text lead to the row of the specification |
| CaIssue.DoBody | openssl-3.0.15/apps/ca.c:1845-1966 | a clash in either index is fatal, an answer other than yes is not, and only an issued certificate adds a row |
| CaIssue.CertifyAll | openssl-3.0.15/apps/ca.c:961-1049 | the loop over the four request sources equals the batch function, and the count done is the number kept |
| CaIssue.BatchEffect | openssl-3.0.15/apps/ca.c:961-1049 | kept are exactly the requests not turned down, with consecutive serials from the start and one row each in the same order; nothing else changes |
| CaIssue.BatchKeepsGood | openssl-3.0.15/apps/ca.c:1811-1964 | whatever the requests and answers, a batch leaves a state the next load accepts |
| CaIssue.BatchKeepsCounterAbove | openssl-3.0.15/apps/ca.c:930-978 | a counter above every serial of the index is above every serial after the batch |
| CaIssue.AboveIsNew | openssl-3.0.15/apps/ca.c:1855-1864 | a counter above all serials is never refused as already issued |
| CaRuns.RunsReloadExactly | openssl-3.0.15/apps/ca.c:690-1338 | from any index that loads, over every sequence of runs, each load finds the rows that were in memory if and only if no step that went through revoked from 2050 on or in a row without a status, kept a date that cannot be read, or inserted a text that cannot be stored |
| CaRuns.EveryRunLoads | openssl-3.0.15/apps/ca.c:690-1338 | over such runs every index loads, no row is lost, every row only moves forward through its life, and new rows have a status |
| CaRuns.StepEvolves | openssl-3.0.15/apps/ca.c:2206-2347 | serial, name and file of a row never change, its status goes from valid to expired or to revoked only, and a revoked row is final |
| CaRuns.RevokedIndexLoadsExactly | openssl-3.0.15/apps/ca.c:1311-1337 | the file written after a revocation loads unchanged if and only if clock, status, date, new subject and hold instruction allow it |
| CaRuns.RevokedIndexIsRefusedExactly | openssl-3.0.15/apps/ca.c:1311-1337 | with a subject on one line it is refused in all other cases |
| CaRuns.HoldTextBreaksTheIndex | openssl-3.0.15/apps/ca.c:2401-2415 | revoking with any registered hold instruction that cannot be stored succeeds and leaves an index that is refused, whatever else it holds |
| CaRuns.SomeTextsAreNotWritable | openssl-3.0.15/crypto/txt_db/txt_db.c:83-97 | a text with a line end and one that ends in a backslash cannot be stored in that field |
| CaRuns.StatuslessRowBreaksTheIndex | openssl-3.0.15/apps/ca.c:2223-2227 | revoking a row without a status goes through and leaves an index that is refused |
| CaRuns.UnreadableDateBreaksTheIndex | openssl-3.0.15/apps/ca.c:2166-2203 | adding a certificate whose date cannot be read goes through and leaves an index that is refused |
| CaRuns.FieldWritableExactly | openssl-3.0.15/apps/ca.c:2401-2425 | a revocation field can be stored exactly when the hold instruction can; all other arguments are checked enough |
| CaRuns.IssuedRowIsStorable | openssl-3.0.15/apps/ca.c:1811-1949 | the row of a new certificate can always be stored |
| CaCommit.SerialRotates | openssl-3.0.15/apps/lib/apps.c:1568-1610 | every state the two renames and the way back pass through lies between old and new, with or without a counter file before; without a second fault a failed rotation leaves the old counter |
| CaCommit.IndexRotates | openssl-3.0.15/apps/lib/apps.c:1778-1851 | every state of the four renames and of the ways back lies between old and new beside the new counter, and without further faults a failed rotation leaves the old index |
| CaCommit.CommitStates | openssl-3.0.15/apps/ca.c:1070-1153 | whichever calls fail, the disk passes only through states between old and new; success puts both new files in place and keeps both old ones |
| CaCommit.CommitIsSafeExactly | openssl-3.0.15/apps/ca.c:1070-1153 | for every disk with the loaded index: the counter is above the index in every state under all faults if and only if the new counter is above old and new numbers and the counter that can come back, the one on disk or else that of a backup, is above the old ones |
| CaCommit.RandomStartIsUnsafe | openssl-3.0.15/apps/lib/apps.c:1478-1491 | a created counter without any backup, a commit without faults, and an index above its counter |
| CaCommit.NothingOldIsLost | openssl-3.0.15/apps/lib/apps.c:1568-1851 | in every state a commit passes through, whatever fails, the old index and the old counter stand under their own or their backup names |
| CaCommit.CrashStates | openssl-3.0.15/apps/ca.c:1070-1153 | of the nine states of a commit without faults the next run can start from all but two, those between the two renames of the counter and of the index |
| CaCommit.BatchGrows | openssl-3.0.15/apps/ca.c:1051-1153 | what a batch hands to the commit meets its conditions when the counter was above the index |
| CaCommit.IndexFirstIsUnsafe | openssl-3.0.15/apps/ca.c:1145-1151 | rotating the index before the counter passes through an unsafe state after any batch with a certificate |
| CaCommit.BadBackIsReached | openssl-3.0.15/apps/lib/apps.c:1587-1603 | whenever that counter is not above the index, one failed rename passes through an unsafe state |
| CaCounter.CounterStaysAboveExactly | openssl-3.0.15/apps/ca.c:2158-2203 | a counter above the index before a run of any steps is above it afterwards if and only if it has passed every serial number inserted by -revoke and -valid |
| CaCounter.RevokeKeepsCounterExactly | openssl-3.0.15/apps/ca.c:2158-2203 | one -revoke or -valid that goes through keeps the counter above the index if and only if the row was there or its number is below the counter |
| CaCounter.ForeignSerialPassesTheCounter | openssl-3.0.15/apps/ca.c:2166-2203 | adding a certificate with a number at or above the counter goes through and leaves the counter below the index |
| CaCrl.GenCrl | openssl-3.0.15/apps/ca.c:1228-1286 | on a loaded index it cannot fail; entries are the revoked rows, as many as those, sorted by serial, and the version is 2 exactly when an extension is present |
| CaCrl.EntriesAreRevokedRows | openssl-3.0.15/apps/ca.c:1228-1250 | an entry is listed if and only if a revoked row has its number and meaning |
| CaCrl.OneEntryForEachRow | openssl-3.0.15/apps/ca.c:1228-1250 | there are as many entries as revoked rows |
| CaCrl.EntriesHaveTheirOwnNumbers | openssl-3.0.15/apps/ca.c:1228-1250 | with distinct keys of serials in upper case without zero bytes behind signs no two entries have one number |
| CaCrl.SortSorts | openssl-3.0.15/crypto/x509/x509cset.c:51-65 | sorting keeps all entries and orders them by encoded number |
| CaCrl.OnlyReasonMatters | openssl-3.0.15/apps/ca.c:2489-2513 | an entry has extensions exactly when it has a reason |
| CaCrl.RevokedIsListed | openssl-3.0.15/apps/ca.c:2469-2521 | a certificate revoked by the tool is listed with its number, reason, hold object and compromise time as given |
| CmsSigners.CmsOptions.Parse | openssl-3.0.15/apps/cms.c:574-664 | the option loop equals the step function run over the options |
| CmsSigners.CmsOptions.ParamsFor | openssl-3.0.15/apps/cms.c:1083-1088 | the search through the list gives the options of the first node for a signer |
| CmsSigners.SignersArePaired | openssl-3.0.15/apps/cms.c:574-764 | in every accepted command the signers are the -signer arguments in order, with as many keys, each the -inkey of its group or the signer's own file |
| CmsSigners.OptionsArePairedExactly | openssl-3.0.15/apps/cms.c:633-664 | every signer gets exactly the options given while its group was open if and only if, at each option behind -encrypt, as many recipients as groups were named, or no group and more recipients than there will be signers |
| CmsSigners.PairedWithoutEncrypt | openssl-3.0.15/apps/cms.c:633-645 | this holds whenever no key option stands behind -encrypt without another operation in between |
| CmsSigners.EncryptFirstMixesOptions | openssl-3.0.15/apps/cms.c:617-645 | an accepted command that gives a signer an option of a recipient |
| CmsSigners.CmsOptions.CloseEncryption | openssl-3.0.15/apps/cms.c:723-840 | an encryption is refused with a signer list or without any recipient or key, else the remaining arguments become further recipients |
| CmsRecipients.AppliedExactly | openssl-3.0.15/apps/cms.c:633-663 | in every command, an option reaches the key it was recorded for if and only if no option for another key stands between it and the first one for that key |
| CmsRecipients.RecipientsInOrder | openssl-3.0.15/apps/cms.c:617-840 | the recipients of an accepted encryption are the -recip arguments behind -encrypt, then the remaining arguments, in order |
| CmsRecipients.RecipientsArePairedExactly | openssl-3.0.15/apps/cms.c:958-980 | in every accepted encryption each recipient gets exactly the options given for it, in order, if and only if there is no recipient or every option outside -encrypt comes after options for the first and a later recipient and not between two for one later recipient |
| CmsRecipients.SignerFirstMixesOptions | openssl-3.0.15/apps/cms.c:633-645 | an accepted encryption that gives a recipient an option of a signer, whatever the names |
| CmpSections.SectionReader.PrevItem | openssl-3.0.15/apps/cmp.c:2106-2139 | the cursor moves strictly to the front over one item and the separators before it; the item is cut to 40 characters |
| CmpSections.OneItem | openssl-3.0.15/apps/cmp.c:2114-2138 | one step of the walk takes the next item of the reversed split |
| CmpSections.SectionReader.AllItems | openssl-3.0.15/apps/cmp.c:2844-2851 | iterating from the end of any list gives the tokens in reverse, after one empty item when the list ends in a separator |
| CmpSections.ItemsAreReverseExactly | openssl-3.0.15/apps/cmp.c:2108-2139 | the walk is the plain reverse of the split if and only if no name is cut and no separator ends the list |
| CmpSections.SectionReader.ConfGetString | openssl-3.0.15/apps/cmp.c:2142-2154 | the loop equals asking the items from first to last |
| CmpSections.LayeredIsMergedExactly | openssl-3.0.15/crypto/conf/conf_api.c:66-95 | the lookup equals lookup in the left-to-right merge over the default section if and only if the last section has the name, the default has not, or the others agree with the default |
| CmpSections.AnyListLookupExactly | openssl-3.0.15/apps/cmp.c:2142-2154 | the same for every list that is not empty, cut names and empty items included |
| CmpSections.OptionLookupExactly | openssl-3.0.15/apps/cmp.c:2142-2154 | the same in terms of the names written in the list |
| CmpSections.DefaultHidesEarlierSection | openssl-3.0.15/crypto/conf/conf_api.c:89-94 | two sections and a default for which the first section's value is lost |
| HexCodec.SetHex | openssl-3.0.15/apps/enc.c:680-708 | succeeds if and only if the digits that fit are hexadecimal, and then holds them from the left with zeros behind |
| HexCodec.ParseUndoesPrint | openssl-3.0.15/apps/enc.c:584-606 | reading printed bytes gives them back, padded or shortened on the right |
| HexCodec.PrintUndoesParse | openssl-3.0.15/apps/enc.c:680-708 | printing what was read gives the digits back in upper case when they fill the buffer |
| HexCodec.WriteFileName | openssl-3.0.15/apps/ca.c:1085-1125 | writes exactly directory, slash, serial digits and suffix, with the terminator inside the buffer, or refuses if and only if that does not fit |
| HexCodec.FileNamesDiffer | openssl-3.0.15/apps/ca.c:1099-1125 | two serials share a file name only if they are equal or are no byte and one zero byte |
| EncStream.MakeKey | openssl-3.0.15/apps/enc.c:472-553 | derives or reads key and vector in the order of the program |
| EncStream.KeySources | openssl-3.0.15/apps/enc.c:472-553 | key and vector have the cipher's lengths, use all derived bytes in order, and give way to arguments |
| EncStream.Copy | openssl-3.0.15/apps/enc.c:617-625 | whatever the reads return, the copy is the whole input, or nothing without a buffer |
| EncStream.EncryptRun | openssl-3.0.15/apps/enc.c:417-635 | the file written by an encrypting run |
| EncStream.DecryptRun | openssl-3.0.15/apps/enc.c:417-635 | the message found by a decrypting run |
| EncStream.DecryptUndoesEncrypt | openssl-3.0.15/apps/enc.c:431-635 | with the same options the header written is the header read and every message comes back |
| EncStream.RoundTripExactly | openssl-3.0.15/apps/enc.c:256-341 | every message comes back if and only if the buffer size is positive after it was cut to 32 bits |
| EncStream.HugeBufferLosesAMessage | openssl-3.0.15/apps/enc.c:256-341 | with a size of 2^32 there is a message that does not come back |
| DigestNames.NewlineEscapeFilename | openssl-3.0.15/apps/dgst.c:518-544 | the buffer is exactly length plus newlines plus terminator and is filled to the end; the flag is raised exactly by a newline |
| DigestNames.NameReadsBackExactly | openssl-3.0.15/apps/dgst.c:506-544 | the name can be read back if and only if it has no newline or no literal backslash-n |
| DigestNames.SharesItsTextExactly | openssl-3.0.15/apps/dgst.c:518-544 | another name has the same flag and text if and only if the name has a newline and besides it a literal backslash-n or a second newline |
| DigestNames.LiteralIsMistaken | openssl-3.0.15/apps/dgst.c:518-544 | a name that is read back as two newlines |
| Templates.ProcessConfig | crypto-config-system/user/dashboard.php:41-45 | the loop is the replacement of one placeholder text after the other |
| Templates.OnePassFills | coin-management-system/includes/functions.php:218-232 | the pattern replacement fills exactly the placeholders of the parsed text |
| Templates.ReplaceFills | crypto-config-system/user/dashboard.php:43-45 | replacing one placeholder as text fills its places and nothing else when literals do not spell it |
| Templates.SeenBreaks | crypto-config-system/user/dashboard.php:43-45 | when literals spell it, replacing it as text is never filling its places |
| TemplateBridges.SequentialIsOnePass | crypto-config-system/user/dashboard.php:41-45 | for templates without a breaking bridge the loop equals the one-pass replacement in every order of the values, blank ones included or not |
| TemplateBridges.FragileBreaks | crypto-config-system/user/dashboard.php:41-45 | for every template with a breaking bridge there are values for which the two differ |
| TemplateBridges.SequentialIsOnePassExactly | crypto-config-system/user/dashboard.php:28-45 | the two agree for all values without braces in all orders if and only if the template has no breaking bridge, for values that may be blank and for those that may not |
| TemplateBridges.NoDoubleBraceIsEnough | coin-management-system/includes/functions.php:225-228 | literals without two opening braces in a row, or with only placeholders between when values may be blank, make no bridge |
| TemplateBridges.BlankValueBreaks | crypto-config-system/user/dashboard.php:30-45 | a template and a blank value for which the loop replaces one placeholder more |
| TemplateBridges.NestedBracesBreak | crypto-config-system/user/dashboard.php:41-45 | braces around a whole placeholder: a template that breaks for values that are not blank |
| TemplateBridges.AnyValuesExactly | crypto-config-system/user/dashboard.php:41-45 | the two agree for all values whatever, braces included, if and only if the template has no placeholder |
| TemplateBridges.RemainingPlaceholdersExactly | coin-management-system/includes/functions.php:235-240 | after the loop exactly the placeholders without a value are left, for all values without braces in all orders, if and only if no bridge can spell a placeholder |
| Templates.ReplaceRecursive | coin-management-system/includes/functions.php:218-232 | the recursion that assigns into a table equals the mapped table |
| Templates.ReplaceKeepsShape | coin-management-system/includes/functions.php:218-224 | every path leads through the same keys to the same kind of value, and only texts change |

## Left out

- Signing, verifying, parsing of certificates and requests, prompts and extension files of `ca` enter as answers of a request; no cryptography is modelled.
- CaIssue.DoBody: the character checks of the request's entries (ca.c lines 1531-1585) enter as one flag, because they do not touch the index.
- TxtDb.RoundTripExactly: the reader's blocks of 511 characters are not modelled; they matter only for a comment line longer than one block, which the writer never writes.
- CaCommit.CommitIsSafeExactly: a write of a new file happens at once or not at all; `save_serial` does not look at the result of its writes, so a full disk is outside the model.
- CaCommit.CommitIsSafeExactly: counter mode only; with random serial numbers no order of numbers is claimed.
- CaRuns.RunsReloadExactly: asks for labels of objects on one line and takes one table of objects for all runs.
- Certificate and index fields are strings without the terminator character.
- The number, dates and signature of the revocation list, and the rotation of its number file.
- Options of `cms` that do not take part in the pairing, and the reading of certificate and key files.
- The rest of `cmp`: reading option values into variables, numbers, and the check that each section exists.
- EncStream.EncryptRun: the cipher is applied to the whole data; buffering inside the library's cipher filter, zlib and the base64 line format are not modelled. PATH_MAX is taken as 4096.
- EncStream.RoundTripExactly: a size that is negative after the cut is treated like zero; the program stops there when it asks for the buffer.
- Templates.ProcessConfig: takes the placeholder texts and values in loop order; collecting them from the form, the database and JSON text are not modelled.
- Library parsing of object identifiers: a table is a parameter.
