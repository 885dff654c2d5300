# PDFProcessor: a verified model of CIN extraction, the folder pipeline and the mail fallback

`PDFProcessor.java` walks a folder of PDF files. For each PDF it:

1. extracts the one CIN printed in the text: an identifier of the shape the pattern at line 21 describes;
2. password-protects the document with that CIN;
3. stores the protected bytes and the CIN in a database;
4. mails the protected file to a receiver, with the password in the mail body.

A failure at any step skips the rest of that file. The failure is logged, and the walk continues with the next entry.

The model has four modules:

- `Results` (`results.dfy`): `Option` and `Reply`. A `Reply` is either a value or a failure carrying the exception message.
- `CinExtractor` (`cin_extractor.dfy`): the pattern `([A-Z][0-9]{6})|([A-Z]{2}[0-9]{5})` and the `Matcher.find()` scan.
  - `Matches` is the pure specification of the scan. `IsScan` is an independent characterisation of it (every report is a match, no two overlap, every match lies inside a report), and `ScanIsUnique` proves that it pins down the scan exactly.
  - The imperative `Find`/`ScanText`/`ExtractCin` mirror the source loop: count the matches, remember the last one, then decide between none, several and one.
- `Notifier` (`notifier.dfy`): subject and body composition, and `sendEmail`. Building the message may fail before any attempt, and its retry loop retries only a caught `MessagingException`. The send step tries the secure sender once, then falls back to `sendEmail`.
- `FolderPipeline` (`folder_pipeline.dfy`): `processFolder`.
  - Each directory entry carries the replies its collaborators give. These are PDF text extraction, protection, the database, the secure transport, and the successive attempts of the fallback transport.
  - `ProcessFile` records every collaborator call with its arguments, plus the per-file outcome, and is proved equal to the specification `FileRun`.
  - `ProcessFolder` loops over the entries and is proved equal to the concatenation of the per-file runs.

Two consequences of the code are worth stating outright:

- **Matching is unanchored.** The search reports the identifier-shaped part of a longer token: `"A1234567"` yields `A123456`, and `"ABC12345"` yields `BC12345` (`CinExtractor.ExampleUnanchored`).
- **The ambiguity message carries no count.** It is `"Multiple CINs found in <name>"` (`FolderPipeline.ExampleTwoCins`).

## Model

| member | source | states |
|---|---|---|
| CinExtractor.OneLetterAt | PDFProcessor.java:21 | the first alternative `[A-Z][0-9]{6}` at a position (characterised by `FitsAtIff`) |
| CinExtractor.TwoLettersAt | PDFProcessor.java:21 | the second alternative `[A-Z]{2}[0-9]{5}` at a position (characterised by `FitsAtIff`) |
| CinExtractor.MatchesAt | PDFProcessor.java:21 | the pattern matches the 7 characters from a position, by either alternative (see `ShapesExclusive`, `MatchIsCin`) |
| CinExtractor.IsCin | PDFProcessor.java:21 | a string the pattern matches in full (characterised by `IsCinIff`) |
| CinExtractor.FitsAtIff | PDFProcessor.java:21 | an alternative fits at a position exactly when every remaining offset is in its class: letters first, then digits |
| CinExtractor.IsCinIff | PDFProcessor.java:21 | a string the pattern matches in full is exactly 7 characters long: an ASCII upper-case letter, then a digit or upper-case letter, then five digits |
| CinExtractor.ShapesExclusive | PDFProcessor.java:21 | the two alternatives never both match at one position |
| CinExtractor.MatchIsCin | PDFProcessor.java:21 | the 7 characters a match covers form an identifier of one of the two shapes |
| CinExtractor.Matches | PDFProcessor.java:36 | every reported position is at or after the search start and leaves room for a 7-character match |
| CinExtractor.MatchesAllMatch | PDFProcessor.java:36-37 | every position the scan reports is a match at or after the start |
| CinExtractor.MatchesDisjoint | PDFProcessor.java:36 | reported matches increase and do not overlap: each search resumes after the previous match |
| CinExtractor.MatchesCoverAll | PDFProcessor.java:36 | no match is lost: every match in the text lies inside a reported match |
| CinExtractor.MatchesAreScan | PDFProcessor.java:36-39 | the reported positions satisfy the independent scan characterisation `IsScan` |
| CinExtractor.ScanStartsAtMatch | PDFProcessor.java:36 | a scan from a matching position reports that position first |
| CinExtractor.ScanResumesAfterMatch | PDFProcessor.java:36 | after its first report, a scan continues as a scan started right behind that match |
| CinExtractor.ScanSkipsNonMatch | PDFProcessor.java:36 | a scan from a position that does not match is also a scan from the next position |
| CinExtractor.ScanIsUnique | PDFProcessor.java:36-39 | any sequence satisfying `IsScan` equals what repeated `find()` reports, so the scan is determined |
| CinExtractor.MatchesAfterFind | PDFProcessor.java:36 | once `find()` reports a position, the remaining reports are those of a search resumed after it |
| CinExtractor.ScanStep | PDFProcessor.java:36-39 | one loop iteration consumes exactly one report and leaves the rest to the resumed search |
| CinExtractor.Find | PDFProcessor.java:36 | one `find()` call returns the first report of the scan from its start, or nothing when none is left |
| CinExtractor.ScanText | PDFProcessor.java:33-39 | the loop counts exactly the reported matches; it keeps a remembered identifier exactly when the count is positive, and that identifier is the text of the last match |
| CinExtractor.Classify | PDFProcessor.java:41-47 | none, several (with their count) or one match, with the matched text (its meaning proved by `NotFoundIff`, `MultipleIff`, `FoundIsVerbatimMatch`) |
| CinExtractor.CinReply | PDFProcessor.java:41-47 | the identifier, or the message of the exception thrown for no match or several (proved in `CinReplyContract`) |
| CinExtractor.CinReplyContract | PDFProcessor.java:41-47 | extraction succeeds exactly when there is one match and returns it verbatim with an identifier's shape; it fails with "No CIN found in <name>" for none and "Multiple CINs found in <name>" for several |
| CinExtractor.ExtractCin | PDFProcessor.java:30-47 | the scan and the decision together give the identifier or the right failure message for the file |
| CinExtractor.NotFoundIff | PDFProcessor.java:41-42 | no identifier is found exactly when the pattern matches nowhere in the text |
| CinExtractor.MultipleIff | PDFProcessor.java:36-44 | ambiguity is reported exactly when the text has two non-overlapping matches; the count is the number of reported matches, at least 2 |
| CinExtractor.SingleMatchIff | PDFProcessor.java:36-39 | the scan reports exactly position i when i matches, no match starts before it and none starts after its end |
| CinExtractor.FoundIsVerbatimMatch | PDFProcessor.java:33-47 | a returned identifier has an identifier's shape and is the text of the single reported match |
| CinExtractor.ExampleOverlapSkipped | PDFProcessor.java:36-39 | "AB123456" also matches at position 1, yet only "AB12345" is reported |
| CinExtractor.ExampleUnanchored | PDFProcessor.java:21 | "A1234567" yields "A123456" and "ABC12345" yields "BC12345" |
| CinExtractor.ExampleRepeatedIsAmbiguous | PDFProcessor.java:43-44 | the same identifier twice counts as two matches and is ambiguous |
| CinExtractor.ExampleTwoShapes | PDFProcessor.java:43-44 | one identifier of each shape is ambiguous with count 2 |
| CinExtractor.ExampleRejected | PDFProcessor.java:21 | a lower-case letter or too few digits gives no identifier |
| Notifier.Subject | PDFProcessor.java:234 | "Protected PDF: " followed by the file name (see `SubjectNamesFile`, `SubjectInjective`) |
| Notifier.Body | PDFProcessor.java:235-239 | the body text of lines 235-239 around the file name and the password (see `BodyLayout`, `BodyDeterminesPassword`) |
| Notifier.Notification | PDFProcessor.java:241-246 | the mail both senders get: receiver, subject, body, and the protected bytes under the file's name |
| Notifier.SubjectNamesFile | PDFProcessor.java:234 | the subject is the fixed lead followed by the file name |
| Notifier.SubjectInjective | PDFProcessor.java:234 | different files get different subjects |
| Notifier.BodyLayout | PDFProcessor.java:235-239 | the body holds the file name and the password verbatim, at positions fixed by the text before them |
| Notifier.BodyDeterminesPassword | PDFProcessor.java:235-239 | for one file, different passwords give different bodies |
| Notifier.FirstStop | PDFProcessor.java:156-166 | the index of the first attempt the loop does not catch: all earlier attempts were refused with a `MessagingException` |
| Notifier.Ending | PDFProcessor.java:158-163 | an attempt that ends the loop gives success or its exception |
| Notifier.FallbackTries | PDFProcessor.java:130-167 | the number of attempts of `sendEmail` (properties in `FallbackContract`) |
| Notifier.FallbackResult | PDFProcessor.java:130-167 | the success or exception `sendEmail` ends with (properties in `FallbackContract`) |
| Notifier.FallbackContract | PDFProcessor.java:130-167 | a message that cannot be built gets no attempt and its exception; otherwise 1 to 3 attempts, only caught `MessagingException`s retried, ending with the last attempt's success or exception; success exactly when an attempt gets through before anything ends the loop |
| Notifier.SendEmail | PDFProcessor.java:130-167 | building the message and then the retry loop make as many attempts, and end with the same result, as `FallbackTries` and `FallbackResult` |
| Notifier.StarttlsTries | PDFProcessor.java:156 | fallback attempts are numbered 0, 1, ... in order |
| Notifier.DeliveryTries | PDFProcessor.java:241-253 | the secure sender's call, then the fallback's attempts if it failed (properties in `DeliveryContract`) |
| Notifier.DeliveryResult | PDFProcessor.java:241-253 | success of the secure sender, or the fallback's result (properties in `DeliveryContract`) |
| Notifier.DeliveryContract | PDFProcessor.java:241-253 | the secure sender is called exactly once and first; the fallback runs only after it fails, with at most 3 attempts; sending succeeds exactly when either succeeds; otherwise the fallback's exception is reported and the secure failure is dropped |
| Notifier.Deliver | PDFProcessor.java:241-253 | the send step makes the calls and yields the result of `DeliveryTries` and `DeliveryResult` |
| Notifier.ExampleSecondFallbackAttempt | PDFProcessor.java:155-167 | secure fails, the fallback is refused once and then gets through: three sender calls, and sending succeeds |
| Notifier.ExampleAllFail | PDFProcessor.java:155-167 | every attempt is refused: four sender calls, and the third refusal is reported |
| Notifier.ExampleAbortStopsRetry | PDFProcessor.java:156-166 | an exception other than `MessagingException` on the first attempt ends the loop: one attempt, and its exception is reported |
| Notifier.ExampleAssemblyFails | PDFProcessor.java:130-152 | a message that cannot be built makes no fallback attempt, and its exception is reported |
| FolderPipeline.LogLine | PDFProcessor.java:255-258 | "Processed and sent <name> with password: <cin>" or "Skipping <name>: <message>" (see `LogLineKind`) |
| FolderPipeline.IsPdfName | PDFProcessor.java:223 | the lower-cased name ends in ".pdf" (characterised by `PdfNameIff`) |
| FolderPipeline.Extraction | PDFProcessor.java:225 | `extractCINFromPDF` for an entry: the reading failure, or `CinReply` of its text |
| FolderPipeline.FileRun | PDFProcessor.java:221-259 | the calls and outcome of one entry (properties in `NonPdfUntouched`, `StepsInOrder`, `StepReachedIff`, `PasswordIsCin`, `OutcomeContract`) |
| FolderPipeline.LogLineKind | PDFProcessor.java:255-258 | a skip line starts with "Skipping " and a success line does not |
| FolderPipeline.PdfNameIff | PDFProcessor.java:223 | a name passes the filter exactly when it ends in ".pdf", each letter in either case |
| FolderPipeline.ProcessFile | PDFProcessor.java:221-259 | one entry's calls and outcome are those of the per-file specification `FileRun` |
| FolderPipeline.NonPdfUntouched | PDFProcessor.java:223 | a non-PDF entry gets no call and no log line; every PDF entry gets exactly one outcome, under its own name |
| FolderPipeline.StepsInOrder | PDFProcessor.java:225-253 | calls go extract, protect, store, then the send attempts; each of the first three happens at most once |
| FolderPipeline.StepReachedIff | PDFProcessor.java:223-253 | extraction runs exactly for PDFs; protection exactly when extraction succeeded; storing exactly when protection also did; sending exactly when storing also did |
| FolderPipeline.ProtectGetsCin | PDFProcessor.java:225-228 | the protection step gets the extracted CIN as password |
| FolderPipeline.StoreGetsCin | PDFProcessor.java:228-231 | the store gets the extracted CIN as CIN and as password, with the protected bytes |
| FolderPipeline.MailCarriesCin | PDFProcessor.java:234-252 | every mail goes to the receiver with the protected bytes and states the extracted CIN |
| FolderPipeline.PasswordIsCin | PDFProcessor.java:225-246 | protection and storage both get the extracted CIN as password; the stored CIN equals the stored password; the stored bytes are the protected bytes; every mail goes to the receiver with the protected bytes attached |
| FolderPipeline.OutcomeContract | PDFProcessor.java:225-259 | a PDF is processed exactly when every step succeeds, and is then logged with its identifier; otherwise it is skipped with the message of the first failing step, never the secure sender's |
| FolderPipeline.RunsExtend | PDFProcessor.java:220 | taking one more entry adds that entry's run at the end |
| FolderPipeline.LogExtend | PDFProcessor.java:255-258 | one more logged outcome adds its line at the end of the log |
| FolderPipeline.AllExtend | PDFProcessor.java:220 | one more run adds its calls and its logged outcome at the end |
| FolderPipeline.ProcessFolder | PDFProcessor.java:219-261 | the walk makes the calls and logs the outcomes of all entries' runs in directory order, printing one line per logged outcome |
| FolderPipeline.AllCallsAppend | PDFProcessor.java:220 | the calls of two runs of entries, one after the other, are the calls of both together |
| FolderPipeline.AllOutcomesAppend | PDFProcessor.java:220 | the logged outcomes of two runs of entries, one after the other, are those of both together |
| FolderPipeline.FailureIsolated | PDFProcessor.java:220-259 | whatever happens to one entry, the entries before and after it make the same calls and get the same outcomes |
| FolderPipeline.EveryPdfLogged | PDFProcessor.java:220-258 | the logged outcomes name exactly the PDF entries, each once, in directory order |
| FolderPipeline.ExampleNames | PDFProcessor.java:223 | "notes.txt" is passed over and "Scan.PDF" is processed |
| FolderPipeline.ExampleNoCin | PDFProcessor.java:41-42 | "bad.pdf" with no identifier is skipped as "No CIN found in bad.pdf" after extraction alone |
| FolderPipeline.ExampleTwoCins | PDFProcessor.java:43-44 | "dup.pdf" with two identifiers is skipped as "Multiple CINs found in dup.pdf" after extraction alone |

## Left out

- Loading the PDF and stripping its text (PDFProcessor.java:25-28). This is PDFBox. Each entry's `text` reply stands for it: the text, or the exception message.
- The encryption itself (PDFProcessor.java:51-81). This is PDFBox cryptography. Each entry's `protection` reply stands for it. The `Protect` call records the password the source passes. The reply does not depend on the password.
- The SQLite connection, table creation and insert (PDFProcessor.java:84-97). These are I/O. The `Store` call records the file name, the CIN, the bytes and the password, and the `storage` reply stands for the outcome.
- Session properties, authentication and MIME assembly of both senders (PDFProcessor.java:100-153, 174-213). These are network I/O. For the fallback sender, whether the message can be built is one reply and each `Transport.send` is another. For the secure sender, one reply stands for the whole call. `Mail` keeps the recipient, subject, body, attachment name and bytes.
- The `println` lines of the two senders (PDFProcessor.java:159, 215). They are not part of the per-file log that `LogLine` models.
- `Thread.sleep(2000)` between attempts and the socket timeouts (PDFProcessor.java:165, 115-117, 185-186). Wall-clock time is not modelled. An interruption of the pause is folded into the attempt before it, as an exception the loop does not catch.
- Enumerating the folder (PDFProcessor.java:220). The entries are an input sequence in listing order. A folder that cannot be listed, the only failure that escapes `processFolder`, is not modelled.
- Hard-coded addresses, credentials and `main` (PDFProcessor.java:101-102, 175-176, 263-265). These are configuration with no logic.
- Java `Error`s, which the per-file `catch (Exception e)` does not catch, are not modelled. Nor is a `null` exception message.
- FolderPipeline.IsPdfName: lower-cases ASCII letters only, where Java's `toLowerCase` is Unicode-aware and locale-dependent. No character outside ASCII lower-cases to '.', 'p', 'd' or 'f', so the suffix test is unaffected.
- CinExtractor.Matches: treats `[A-Z]` and `[0-9]` as the ASCII ranges, as `java.util.regex` does without flags. Text is a sequence of characters, not UTF-16 code units.
