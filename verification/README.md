# DRADIS: models and proofs

This project models the stateful parts of the DRADIS trading engine and of its Python tools, and proves
what they promise. It needs nothing outside this directory; `dafny verify dfyconfig.toml` checks all of it.

## What is modelled

* **The secrets store.** `secrets.env` is text; its line format, its escaping, the reader with its repair of
  legacy multi-line PEM keys, and the writer are modelled character by character (`Text`, `Escaping`,
  `SecretsFile`, `KeyOrder`). `RoundTrip` says exactly which maps come back unchanged and exactly which files
  survive a rewrite. `LineReading` spells out single lines and raw blocks. `Pem`, `PemPlaces`, `PemRepair` and
  `PemKey` are about the repair of pasted PEM blocks, whose 64-column layout is the one of section 2 of RFC 7468. `Writers` gives the five writers and the restart as functions
  on values, and `SecretsStore` is the process with its file and its environment updated in place and proved against them.
  `Credentials` and `WriterEffects` say what each call leaves behind in terms of what it is given.
  `Persistence`, `Startup` and `LiveEnv` are about whole runs, `Refusals` and `Imports` about calls that end halfway,
  `Overlay` and `ImportedNames` about what an import does to the entries it does not take, `Tokens`, `TokenAcceptance`
  and `SessionKeys` about the session tokens that depend on the file, `PythonReader`, `ReadersAgree` and `AnyFile` about
  its second reader,
  and `Exhibits` holds concrete inputs for the findings listed below.
* **Tape replay and ledger matching.** `Replay`, `Crossings` and `PricePath` replay a trade tape against resting orders;
  `RoundTrips` matches entries to trades, and `Matching` says when that closes as many entries as any matching could.
* **Log correlation.** `SessionParser` refines two stages of queues to pairing by index, with `Sorting` for the
  stable sorts of both languages.
* **Clocked state machines.** `BookFeed`, `Watchdog`, `TicketJar` with `TicketHistory`, and `Upload`.
* **The bounded cache.** `MarketsCache`.

Time, random bytes, the results of hashing and of the message authentication code, the answers of the disk and
the contents of the environment a process is launched with are parameters, so every result holds for all of them.
Prices are real numbers. Each writer of the secrets file is one step; a `set_admin` that succeeds is followed by the
step that fetches the session key. A panic of the program, or an exception in the script, is a result value (`Panic`,
`Crashed`, `raised`): setting an environment variable with an empty name, with an equals sign in its name, or with a NUL
character is one. The results about the contents of the file say which values make it safe.

## Where the code and its documentation differ

* `normalize_pem` is documented as safe to apply to any value. It panics on a family of inputs
  (`PemKey.PanicsExactly`), among them a complete block on one line with a line of text after it
  (`PemKey.TrailingTextPanics`).
* An import is documented to take only whitelisted keys and never the session key (`src/api/setup.rs:1450-1451`,
  `src/api/setup.rs:1521`), and a restore never to touch this instance's password and session key
  (`src/helpers/migration.rs:890-891`). Every name that starts with `LLM_` is taken, and a name may hold a line feed; what
  follows it is read back as a name of its own and replaces the entry of that name (`ImportedNames.ImportReplacesOther`).
  An import keeps to the entries it takes, on every healthy file, exactly if it panics or these are separate
  (`ImportedNames.KeepsOthersExactly`); entries with environment names and admissible values are. If no entry opens a PEM
  block, or no name holds a closing marker, that is a condition on the names and values alone
  (`ImportedNames.SeparateExactly`); it allows more than admissible entries: names that are no environment names are
  never read, and values may have white space at their ends.
* The script promises to load the file as the engine does. On a file the engine wrote it does so exactly if the values
  are free of the extra line separators of Python, of NUL, and of U+001C to U+001F at their ends
  (`ReadersAgree.ReadersAgreeExactly`); a PUT accepts others (`Exhibits.ReadersDiffer`). Of files from elsewhere, such as
  those from before values were escaped, `AnyFile.FilesReadAlikeExactly` says when the two agree: the script knows the
  escape of a tab and the engine does not (`AnyFile.TabFileDiffers`).

## What the code does not promise, and does not do

* `normalize_pem` is not idempotent when a 64-byte chunk cuts a character: `PemRepair.NormalizeTwice` says exactly
  when it is, `Exhibits.RepairIsNotIdempotent` gives an input.
* A PUT that is refused halfway has already changed the process environment, unless every entry before the first bad
  one is inert: `Refusals.RefusedPut`, with a request in `Exhibits.RefusedPutAtWork`.
* An import with an entry that cannot be set panics after setting the ones before it (`Imports.ImportPanicsExactly`).
* Greedy matching of entries to trades can close fewer entries than another matching (`Matching.MatchingIsNotMaximum`).
  It closes as many as any other if the loose price check never decides within a market and side
  (`Matching.ClosePricesAreMaximum`), and it does so on every part of a ledger, that is on every selection of its entries
  and of its trades, exactly if a later entry can always trade places with an earlier one (`Matching.MaximumExactly`).
  On a single ledger the converse goes no further: one can lack that property and still be matched completely, because
  another trade makes up for it (`Matching.MaximumWithoutExchange`).

## Model

| member | source | states |
|---|---|---|
| Escaping.EscapeIsCharMap | src/api/setup.rs:375-377 | the three replacement passes amount to one character map: no pass rewrites what an earlier pass produced |
| Escaping.EscapeIsOneLine | src/api/setup.rs:369-377 | an escaped value holds no line feed and no carriage return, so an entry stays on one line |
| Escaping.EscapeFixpoint | src/api/setup.rs:375-377 | escaping leaves a value as it is exactly when the value holds no backslash, line feed or carriage return |
| Escaping.UnescapeSecret | src/api/setup.rs:350-367 | the loop computes the recursive meaning of an escaped text, with the early return for texts without a backslash and unknown pairs kept |
| Escaping.UnescapeEscape | src/api/setup.rs:350-377 | unescaping an escaped value gives the value back, for every value |
| Escaping.EscapeTrim | src/api/setup.rs:375-377 | trimming an escaped value removes exactly the white space at its ends that is not escaped |
| Escaping.DropBareFixpoint | src/api/setup.rs:408-416 | trimming loses nothing exactly when neither end of the value is unescaped white space |
| Escaping.EscapeOpenPem | src/api/setup.rs:412-415 | a value opens an unclosed PEM block exactly when its escaped form does |
| Escaping.UnescapeAdmissible | src/api/setup.rs:408-416 | whatever the reader extracts from a line that opens no block can be written back: its ends are safe and it opens no block |
| SecretsFile.ParseSecrets | src/api/setup.rs:389-421 | the loop over the lines with its pending block computes the scan that the results below are about |
| SecretsFile.WriteRows | src/api/setup.rs:436-438 | one row per entry, in ascending order of the keys |
| SecretsFile.RenderSecrets | src/api/setup.rs:434-438 | the two comment lines and the rows, as handed to the file system |
| KeyOrder.NextKey | src/api/setup.rs:436 | what the ordered map visits next is its least remaining key |
| RoundTrip.RowStep | src/api/setup.rs:404-416 | what reading one written row does, for every value: it stores the value without its bare ends, or opens a block when that is an unclosed PEM |
| RoundTrip.ParseRender | src/api/setup.rs:389-438 | a written file has exactly two lines more than entries, and reading it is reading the entries in key order |
| RoundTrip.RoundTripExactly | src/api/setup.rs:389-438 | for every map, reading what was written gives the map back if and only if all its keys are environment names and all its values survive: safe ends, and an unclosed PEM block only in the last row and only if it needs no escaping |
| RoundTrip.HealthyRoundTrip | src/api/setup.rs:389-438 | with environment names and admissible values, reading inverts writing and each entry occupies one line |
| RoundTrip.StepSound | src/api/setup.rs:400-416 | every line of every file keeps the scan sound: stored values are admissible, a pending block starts with its marker and has safe ends |
| RoundTrip.RewriteIsNormalForm | src/api/setup.rs:389-440 | for every text, parsing, writing and parsing again gives the first map if and only if no PEM block is open at the end of the file, or the open one holds a closing marker, or it is the last row and needs no escaping |
| RoundTrip.ClosedFileIsHealthy | src/api/setup.rs:389-440 | every text in which no block is left open, including legacy multi-line keys, stray lines and unknown escapes, is read into a map that survives rewriting |
| LineReading.LineAssignsExactly | src/api/setup.rs:400-416 | a line with trimmed sides assigns the value it spells if and only if what stands before its first equals sign is a capital letter or an underscore followed by capital letters, digits and underscores |
| LineReading.RawBlockIsOneValue | src/api/setup.rs:400-411 | a private key written over several raw lines, as before values were escaped, is read as one value: its lines without white space at their ends, joined by line feeds |
| Pem.NormalizePem | src/api/setup.rs:639-669 | the steps of the repair compute the dissection and the rebuilt block, including the panic of the slice whose start lies behind its end |
| Pem.WrapLines | src/api/setup.rs:660-666 | the chunk loop writes the lines of the recursive 64-byte layout, dropping a chunk that is not valid UTF-8 |
| Pem.DissectRebuilt | src/api/setup.rs:639-668 | a rebuilt block is taken apart into the same header and footer, and into its body without white space |
| PemPlaces.RepairsPlaced | src/api/setup.rs:639-668 | for every value whose first header and last footer are complete: the repair panics if the header ends behind the beginning of the footer, leaves the value alone if only white space lies between them, and otherwise gives exactly the header, what lies between without white space, and the footer; the header ends with the first dashes at the end of a line from it on, or, without such, with the first dashes behind its marker |
| PemPlaces.LeavesUnplaced | src/api/setup.rs:639-658 | every other value is left alone |
| PemPlaces.TextAroundIsDropped | src/api/setup.rs:639-668 | text before a block that holds no header, and text behind it that holds no footer, is dropped, whichever of the two ways the header is closed; between the markers anything may stand, other blocks included |
| PemPlaces.DropsSpaceOnly | src/api/setup.rs:656-657 | the body is the characters between the markers that are not white space, in order |
| PemRepair.RewrapExactly | src/api/setup.rs:660-666 | laying out again what the body lines hold gives the same lines if and only if no chunk was dropped |
| PemRepair.NormalizeTwice | src/api/setup.rs:639-669 | for every value that repair accepts, repairing twice is repairing once if and only if none of the body chunks, or all of them, were dropped for cutting a character |
| Exhibits.CutBodyIsNotIdempotent | src/api/setup.rs:660-666 | every body of 127 ASCII characters and one of two bytes is changed by a second repair |
| Exhibits.RepairIsNotIdempotent | src/api/setup.rs:660-666 | such a value |
| PemRepair.NormalizeIdempotent | src/api/setup.rs:639-669 | repair is idempotent on every value with an ASCII body, with text around the block, several blocks, and either way of finding the header |
| PemRepair.AsciiIsLossless | src/api/setup.rs:660-666 | an ASCII body loses no chunk and its lines spell the body |
| PemKey.NormalizePreservesKey | src/api/setup.rs:633-668 | for any labels without five dashes in a row and any body without dashes, the repaired block depends only on the characters of the body that are not white space, however white space was inserted or dropped inside or around the block |
| PemKey.RepairedBodyLines | src/api/setup.rs:660-668 | the body lines of the repaired block are 64 characters long, except that the last may be shorter, and spell the body |
| PemKey.PanicsExactly | src/api/setup.rs:639-655 | repair panics if and only if both markers occur, the last footer is complete, and no dashes that could close the first header come before that footer |
| PemKey.TrailingTextPanics | src/api/setup.rs:646-655 | the family that does so in practice: a block on one line followed by a line of text |
| Tokens.HexRoundTrip | src/api/setup.rs:488-495 | decoding undoes encoding, for all bytes |
| Tokens.HexEncodeIsHex | src/api/setup.rs:488 | encoding gives two lower-case hexadecimal digits per byte |
| Tokens.ParseDecimal | src/api/setup.rs:498-507 | the expiry time survives being written in decimal and parsed as a 64-bit integer, and its text holds no dot |
| Tokens.TokenVerdict | src/api/setup.rs:497-513 | for every authentication code and any two keys, an issued token is accepted exactly until its expiry and only if both keys give its payload the same code; it never crashes the program |
| Tokens.CrashesExactly | src/api/setup.rs:490-513 | verification of any token crashes if and only if it has not expired and its signature, of even byte length, has a cut inside a character after nothing but pairs of digits |
| Tokens.AsciiNeverCrashes | src/api/setup.rs:490-513 | in particular never on a token of ASCII characters |
| TokenAcceptance.AcceptedExactly | src/api/setup.rs:505-513 | every token, under every key, code and time, is accepted if and only if it is a 64-bit time that has not passed, a dot, and the code of the text of that time in hexadecimal |
| TokenAcceptance.HexDecodesExactly | src/api/setup.rs:490-495 | a text decodes to given bytes if and only if it is one pair of characters for each: two digits in either case, or a plus sign and a digit |
| TokenAcceptance.ParsesExactly | src/api/setup.rs:507 | a text parses as a 64-bit integer if and only if it is an optional sign, zeros, and the decimal text of its magnitude |
| SecretsStore.Process.ReadSecrets | src/api/setup.rs:379-384 | a missing file reads as the empty map |
| SecretsStore.Process.WriteSecrets | src/api/setup.rs:425-445 | a successful write replaces the file by the rendered map, a failed one leaves it |
| SecretsStore.Process.Restart | src/api/setup.rs:452-460 | the new environment is the launch environment overridden by the file, up to the first value that cannot be set, on which the start panics |
| SecretsStore.Process.PutCredentials | src/api/setup.rs:838-884 | whitelist first, then the entries in key order, then one write: the new file, environment and reply |
| SecretsStore.Process.PutEach | src/api/setup.rs:846-872 | the loop over the submitted entries, left at the first refused one, with its effect on map, environment and count |
| SecretsStore.Vet | src/api/setup.rs:849-868 | what a submitted value asks for: removal when blank, the trimmed and repaired value, refusal when it looks truncated, or the panic of the repair or of setting it |
| SecretsStore.Process.SetAdmin | src/api/setup.rs:892-919 | a password under 8 bytes or a failed hash changes nothing; the hash reaches the environment only after the file was written; a success goes on to fetch, and if needed store, the session key for the token |
| SecretsStore.Process.GetSessionKey | src/api/setup.rs:472-486 | the stored key if it decodes to at least 32 bytes, otherwise the new random one, stored if the disk allows |
| SecretsStore.Process.PutAutonomy | src/api/setup.rs:1792-1820 | tier and kill switch go into map and environment before the write that may fail |
| SecretsStore.Process.MergeSecrets | src/api/setup.rs:1456-1470 | exactly the whitelisted, non-empty entries are merged and counted, up to the first one that cannot be set, on which it panics before writing |
| Persistence.KeptIsAdmissible | src/api/setup.rs:849-868 | trimming, PEM repair and the rejection of truncated blocks together make every accepted value admissible |
| Persistence.AttemptIsHealthy | src/api/setup.rs:838-919 | no writer puts a value on disk that cannot be read back, given admissible imports and password hashes |
| Persistence.RunRefinesIdeal | src/api/setup.rs:379-486 | over every run of the writers and restarts, from any file without an open block, the file reads back as the map last written: it is indistinguishable from a plain map |
| Persistence.RunFromMissingFile | src/api/setup.rs:379-486 | the same from a machine without a secrets file |
| Persistence.PutReply | src/api/setup.rs:838-884 | a PUT succeeds exactly when all keys are managed, no value is truncated or panics, and the disk takes the file or there is nothing to write because only keys that are not on file are to be removed |
| Persistence.PutTakesEffect | src/api/setup.rs:838-884 | after a successful PUT, file and environment agree on every key set, a removed key is gone from the file and, if the file had it, from the environment, and every other key is as before in both |
| Credentials.PutStoresValues | src/api/setup.rs:847-872 | in terms of the submitted values: after a successful PUT a blank value has removed its key from the file and, if it was there, from the environment; every other value is in both exactly as submitted but for white space at its ends, the private key as its repair; nothing else has changed |
| Credentials.PutSucceedsExactly | src/api/setup.rs:838-884 | a PUT succeeds if and only if every key is managed, no text is cut off, cannot be repaired or holds a NUL, and the disk takes the file or all it asks for is the removal of keys that are not on file |
| Credentials.PutRefusedExactly | src/api/setup.rs:838-868 | a PUT is refused if and only if some key is not managed, or the first value that fails at all, in key order, begins a PEM block and ends none |
| Refusals.RefusedPut | src/api/setup.rs:858-872 | a PUT refused halfway leaves the file alone; the entries before the first bad key, and no others, have been applied to the environment, removals included; it is unchanged if and only if each of them is inert |
| Refusals.EnvUnchangedExactly | src/api/setup.rs:847-872 | for every outcome of a request, the environment is unchanged if and only if every entry that was reached is inert |
| Refusals.RequestOutcome | src/api/setup.rs:847-872 | exactly the entries before the first bad one are applied, and it decides the reply |
| Exhibits.RefusedPutAtWork | src/api/setup.rs:858-872 | a good API key followed by a private key with a beginning and no end: refused, nothing on disk, the good key in the environment |
| WriterEffects.AutonomySetsControls | src/api/setup.rs:1792-1820 | a tier outside 1 to 3 is refused and changes nothing; otherwise the tier is set to its digit and the kill switch to 1 or 0, in the environment and, if the disk takes it, on file, and nothing else changes |
| WriterEffects.AdminSetsHash | src/api/setup.rs:892-919 | a login is accepted if and only if the password has at least eight bytes, it could be hashed to text, and the disk takes the file; file and environment then hold exactly that hash and are otherwise as before; if not, the environment is as before |
| WriterEffects.SessionKeyExactly | src/api/setup.rs:472-486 | a key of at least 32 bytes on file, in hexadecimal, is used and nothing is written; without one the random bytes are the key and, if the disk allows, replace what is on file, unless that makes the program crash |
| WriterEffects.ImportTakesExactly | src/api/setup.rs:1456-1470 | an import crashes if and only if an entry it takes cannot be put into an environment; otherwise the non-empty entries under managed names, under names that start with LLM_, and the password hash where allowed are in the environment and the map to be written, and no others |
| WriterEffects.RestartExactly | src/api/setup.rs:452-460 | a start fails if and only if the file holds an entry that cannot be put into an environment; the environment is the one of the launch, overridden by the entries before the first such one |
| Startup.AttemptIsSettable | src/api/setup.rs:452-460 | no writer wants a value on disk on which loading the file at the next start would panic, whatever is imported; a password hash must hold no NUL |
| Startup.ParseIsSettable | src/api/setup.rs:389-421 | whatever a file without NUL is read into can be set |
| Startup.RereadIsSettable | src/api/setup.rs:389-460 | every map that could be set reads back, after being written, as one that can be set, even where reading back changes it |
| Startup.RestartSucceeds | src/api/setup.rs:452-460 | after every run from a file that could be loaded, whatever was imported and as long as password hashes hold no NUL, the program starts and overrides the launch environment with the whole file |
| Startup.PutSurvivesRestart | src/api/setup.rs:452-460 | after a successful PUT the next process starts, and whatever its launch environment each key set has exactly the value it was given, and each untouched key the value the file had before |
| Imports.ImportReadsBackExactly | src/api/setup.rs:1456-1470 | what an import writes over a file without open blocks reads back if and only if every imported key is an environment name and every imported value survives as a row |
| Imports.ImportPanicsExactly | src/api/setup.rs:1459-1467 | an import panics if and only if an imported entry cannot be set; the file is then left alone, and exactly the imported entries before it are in the environment |
| Overlay.ScannedRows | src/api/setup.rs:389-438 | a written file of any map, whatever the names, is read row by row in key order |
| Overlay.SeparateKeeps | src/api/setup.rs:389-438 | separate entries laid over any healthy map leave every other entry as it is, and the file ends inside a block exactly if they would on their own |
| Overlay.OpenBlockLoses | src/api/setup.rs:400-416 | an environment name whose row comes where the entries laid over leave a block open is lost |
| Overlay.KeepsExactly | src/api/setup.rs:389-438 | any entries, of any names, can be laid over every healthy map without changing another entry if and only if they are separate: on their own they read back under their own names only, and before the row of any other environment name they leave no block open |
| ImportedNames.RowReads | src/api/setup.rs:400-416 | the row of any name without an equals sign is read under what follows the last line feed of the name, if that is an environment name once trimmed, and is skipped otherwise |
| ImportedNames.SeparateExactly | src/api/setup.rs:400-416 | for entries of which none opens a block, or of which no name holds a closing marker, being separate comes down to the names and values: no name reads as an environment name that is not among them, and no value opens a block |
| ImportedNames.KeepsOthersExactly | src/api/setup.rs:1456-1470 | for every bundle: on every healthy file an import leaves every entry it does not import as it is, if and only if it panics or the imported entries are separate |
| ImportedNames.WellFormedIsSeparate | src/api/setup.rs:1456-1470 | imported entries with environment names and admissible values are separate |
| ImportedNames.ImportReplacesOther | src/api/setup.rs:1456-1470 | the input on which it fails: an entry with a line feed in its name, imported by a restore, replaces the session key, or the password hash, and is answered with success |
| SessionKeys.ApplyKeepsSessionKey | src/api/setup.rs:472-486 | no harmless call or restart changes a usable session key on file; harmless are all calls but a password hash that opens a PEM block and an import that neither panics nor takes separate entries |
| SessionKeys.SessionKeySurvives | src/api/setup.rs:472-486 | nor does any run of harmless calls and restarts, from any healthy file |
| SessionKeys.TokenSurvives | src/api/setup.rs:472-513 | with a persisted session key, a token stays valid for exactly 24 hours through every run of harmless calls and restarts, for every authentication code |
| LiveEnv.WriterMirrors | src/api/setup.rs:838-919 | what a writer changes on disk it changes in the environment in the same way |
| LiveEnv.SettledExactly | src/api/setup.rs:838-919 | for every call on every file and environment: it leaves the two together if and only if a condition on its arguments, the file and the environment before it holds, such as that every entry a refused or unwritten PUT reaches is inert |
| LiveEnv.RestartShadows | src/api/setup.rs:452-460 | a process that starts sees every value on file |
| LiveEnv.EnvShadowsFile | src/api/setup.rs:452-486 | over every run of restarts and of calls that the disk takes and that are not refused halfway, with admissible imports and password hashes, the process sees for every stored key but the session key exactly what a restart would read |
| LiveEnv.FailedWriteRunsAhead | src/api/setup.rs:1801-1818 | an instance: a kill switch whose write failed is on in the process and off on disk |
| PythonReader.UnescapeText | scripts/kalshi_shards.py:67-75 | the iterator loop computes the recursive meaning of an escaped text, with the extra tab escape and a trailing backslash kept |
| PythonReader.Shell.LoadSecrets | scripts/kalshi_shards.py:78-106 | reading the file line by line leaves the environment overridden by what the file assigns, with no filter on keys, and ends at the first assignment that raises, such as one to an empty name |
| ReadersAgree.PyUnescapeEscape | scripts/kalshi_shards.py:67-75 | the second unescape also undoes the escaping, although it knows one escape more |
| ReadersAgree.PyAssignsClean | scripts/kalshi_shards.py:88-106 | no file whatever makes the script assign a value with an extra line separator in it, or with U+001C to U+001F at an end |
| ReadersAgree.ReadersAgreeExactly | scripts/kalshi_shards.py:78-106 | on a file written from a healthy map both readers find that map if and only if every value is free of the extra separators, of NUL, and of U+001C to U+001F at its ends |
| ReadersAgree.SameEnvironment | scripts/kalshi_shards.py:78-106 | the script then raises nothing and both end up with the same environment |
| AnyFile.SameLines | scripts/kalshi_shards.py:88-89 | both readers split every text of familiar characters, with carriage returns before line feeds only, into the same lines |
| AnyFile.UnescapesAgreeExactly | scripts/kalshi_shards.py:67-75 | the two unescapes agree on a value if and only if no unescaped backslash in it stands before a t |
| AnyFile.FilesReadAlike | scripts/kalshi_shards.py:78-106 | on every such text whose assignments outside blocks are to environment names, raw multi-line keys and blocks left open included, the script raises nothing and assigns the variables the engine does, with the same value except exactly for those whose last assignment is a line with a tab escape |
| AnyFile.FilesReadAlikeExactly | scripts/kalshi_shards.py:78-106 | so the two read the same from such a file if and only if there is no such variable, and the engine loads it without a panic |
| AnyFile.TabFileDiffers | scripts/kalshi_shards.py:67-75 | a file with one line, in which a backslash stands before a t: a tab to the script and two characters to the engine |
| LineReading.ScriptAssignsExactly | scripts/kalshi_shards.py:96-104 | the script assigns to any name, skips a comment, and ends with an exception on an empty name |
| Exhibits.ReadersDiffer | scripts/kalshi_shards.py:88-106 | a value with U+2028 inside, which a PUT accepts and the engine reads back and the script does not |
| Replay.CrossingBidVolume | tools/fairvalue_maker_counterfactual.py:226-247 | the accumulating loop yields the times at which the first crossing prints reach the size and one share, and the two volumes |
| Replay.CrossingAskVolume | tools/fairvalue_maker_counterfactual.py:250-271 | the same for a resting ask |
| Replay.BidAskDuality | tools/fairvalue_maker_counterfactual.py:226-271 | with complement matching, a bid at b and an ask at 1 - b on the tape with the tokens exchanged have the same fill, first touch and crossing volume; without negative sizes their same-token volumes add up to it |
| Replay.FillExactly | tools/fairvalue_maker_counterfactual.py:240-246 | an order fills if and only if the whole crossing volume suffices, and at the first print where the volume so far does; one print earlier it did not |
| Replay.FillMonotone | tools/fairvalue_maker_counterfactual.py:226-271 | on a sorted tape, giving the other side a better price, asking for less, or a longer window never delays or loses a fill |
| Replay.FillBeforeExit | tools/fairvalue_maker_counterfactual.py:385-387 | the replay until the exit finds a fill at a time if and only if the replay until the close finds it there and it lies before the exit |
| Crossings.BidIsFilledBy | tools/fairvalue_maker_counterfactual.py:226-247 | a bid is filled by the prints that sell our token at or below it, or buy the complement at one minus that, within its time and with a positive size, and by no others: fill, touch and volumes are the running totals of those prints |
| Crossings.AskIsFilledBy | tools/fairvalue_maker_counterfactual.py:250-271 | an ask is filled likewise by the prints that buy our token at or above it, or sell the complement |
| Crossings.OnlyWhileResting | tools/fairvalue_maker_counterfactual.py:232-233 | fill and touch lie within the time of the order, and the replay is the same on the tape without the prints before and after it |
| PricePath.PathAfter | tools/fairvalue_maker_counterfactual.py:284-302 | the loop that follows the traded price from the fill on |
| PricePath.PathMeaning | tools/fairvalue_maker_counterfactual.py:284-302 | the path names the highest and lowest price, when each was first traded, and when target and stop were first touched |
| PricePath.PathIsMirrored | tools/fairvalue_maker_counterfactual.py:284-302 | exchanging the two tokens turns the path upside down: highs become lows and the target becomes the stop |
| PricePath.LevelsTouchedExactly | tools/fairvalue_maker_counterfactual.py:294-301 | on a sorted tape of prices between 0 and 1 a level is touched if and only if the extreme reaches it, and no later than the extreme |
| PricePath.FilledPathStartsAtBid | tools/fairvalue_maker_counterfactual.py:385-388 | the path that starts when a bid fills has a low at or below that bid |
| RoundTrips.EarliestUsable | tools/fairvalue_maker_counterfactual.py:177-189 | the inner loop finds the earliest closing of the eligible unused trades, the first listed on a tie |
| RoundTrips.LoadRoundTrips | tools/fairvalue_maker_counterfactual.py:172-199 | every entry in turn gets the earliest trade that no entry before it took, and then its share count |
| RoundTrips.MatchingIsInjectiveAndCausal | tools/fairvalue_maker_counterfactual.py:172-199 | no trade closes two entries, and a trade that closes an entry has its market and side, does not close before it, and differs from it by at most 0.02 in entry price |
| RoundTrips.MatchingIsMaximal | tools/fairvalue_maker_counterfactual.py:172-199 | a trade that is free at the end is eligible for no unmatched entry, and each entry closed no later than any trade free for it |
| Matching.ExchangeableIsMaximum | tools/fairvalue_maker_counterfactual.py:172-199 | if whoever loses a trade to an earlier entry could have any later trade that entry could have had, greedy matching closes as many entries as any matching of eligible trades, each used once |
| Matching.ClosePricesAreMaximum | tools/fairvalue_maker_counterfactual.py:172-199 | so it is whenever the loose price check never decides within a market and side, in whatever order the entries are listed |
| Matching.MaximumExactly | tools/fairvalue_maker_counterfactual.py:172-199 | greedy matching is maximum on every part of a ledger if and only if the ledger is exchangeable in that sense |
| Matching.MatchingIsNotMaximum | tools/fairvalue_maker_counterfactual.py:172-199 | a concrete ledger on which greedy matching closes one entry and another matching two |
| Matching.MaximumWithoutExchange | tools/fairvalue_maker_counterfactual.py:172-199 | a concrete ledger that is not exchangeable and is matched completely all the same |
| SessionParser.BisectSplits | tools/session_parser.py:111 | on ordered times the binary search separates the times at or before from those after |
| SessionParser.NearestIsLatest | tools/session_parser.py:110-115 | the context of a time is the last heartbeat at or before it, with its age, and none if there is no such heartbeat |
| SessionParser.QueueEntries | tools/session_parser.py:183-185 | each queue holds the entries of its key in the sorted order |
| SessionParser.QueueExits | tools/session_parser.py:187-191 | each pending queue pairs the exits of its key with its entries by position |
| SessionParser.TakePnls | tools/session_parser.py:198-237 | each PnL line completes the front of its queue; one that finds none is dropped |
| SessionParser.CorrelateTrades | tools/session_parser.py:180-239 | the whole two-stage queue algorithm computes the counting specification |
| SessionParser.CompletedByIndex | tools/session_parser.py:198-237 | after any number of PnL lines the trades of a key are the index-wise ones |
| SessionParser.PairedByIndex | tools/session_parser.py:180-239 | for every key, trade i is made of exit i, entry i if there is one, and PnL line i; nothing is used twice or under another key |
| SessionParser.CorrelationIsIndexwise | tools/session_parser.py:180-239 | for every key, with its entries, exits and PnL lines each in stable order of time: as many trades as the smaller of the numbers of exits and PnL lines, and trade i has market, time, bid and reason of exit i, time, price, size and holding time of entry i if there is one, the profit of PnL line i, and on ordered heartbeats the latest one at or before the entry and the latest at or before the exit |
| Sorting.SortSorts | tools/session_parser.py:184 | the sorted list is in order and a rearrangement of the input |
| Sorting.SortIsStable | tools/session_parser.py:184 | sorting commutes with picking out any kind of elements, so equal times keep their order |
| BookFeed.Feeds.NoteMarket | src/state.rs:441-460 | an empty market name stands the feed down silently, any other is an observation |
| BookFeed.Feeds.Observe | src/state.rs:474-510 | first sight, rotation, live book and the 90-second check, with the line each writes to the log |
| BookFeed.Feeds.Note | src/state.rs:513-515 | an observation that names no market |
| BookFeed.Feeds.Forget | src/state.rs:539-543 | the feed is unknown afterwards, and no other changes |
| BookFeed.FeedInvariant | src/state.rs:441-543 | the registry remembers exactly the last reset of every feed, the market last named, and whether a book was missed since |
| BookFeed.DarkIsDecidedByHistory | src/state.rs:441-543 | in every history a feed is dark if and only if an observation without a book came at least 90 seconds after its last reset and nothing has reset or forgotten it since |
| BookFeed.WarningsAreSeparated | src/state.rs:495-510 | between two dark warnings of a feed it was reset or forgotten |
| BookFeed.LogsExactly | src/state.rs:487-510 | a call warns if and only if it turns the feed dark, and tells of a recovery if and only if it brings a live book to a feed that is dark and stays on its market |
| Watchdog.Watch | src/main.rs:299-405 | the thread raises the alarms of the step function, tick by tick, and stops at the first exit |
| Watchdog.ExitIsWarnedAndTimely | src/main.rs:299-405 | with ticks at most 120 s apart, the program, which never leaves the park for setup, is ended only unparked, between 300 and 420 s after the last pulse, and after a soft warning in the same silence, also right after a retirement or a backup |
| Watchdog.WarnedExactly | src/main.rs:299-405 | a generalisation to a program that could leave the park for setup: an exit is announced in its silence if and only if that silence did not begin by leaving the park, or the first tick after it found at most 180 s of silence, or at most 300 s with the warning flag clear |
| Watchdog.PersistentSilenceEnds | src/main.rs:395-404 | an unparked silence that persists does not outlive the first tick more than 300 s after the last pulse |
| Watchdog.PulsingLoopLives | src/main.rs:299-405 | a loop that pulses between any two ticks is never ended |
| Watchdog.BeatIsLast | src/main.rs:302-372 | the heartbeat is the time of the last pulse, or of a retirement or backup after it, or the start |
| Watchdog.ParkNotedOnce | src/main.rs:316-372 | a park is noted at the first tick that finds one and never again |
| Watchdog.AlarmExactly | src/main.rs:302-405 | a tick ends the process if and only if it is unparked and more than 300 s after the last sign of life, and warns if and only if it is unparked, more than 180 and at most 300 s after it, and no earlier warning stands: the loop was found healthy since the last one |
| Watchdog.LeavingSetupKillsUnwarned | src/helpers/watchdog.rs:96-123 | why the flag must never be cleared, as documented: if it were, the stale heartbeat would end the process without a warning; the program only ever sets it |
| Watchdog.SlowTicksKillUnwarned | src/main.rs:375-404 | a concrete run with ticks 121 s apart that ends the process without a warning |
| TicketJar.EqConstantTimeIsEquality | src/api/migration.rs:137-143 | the fold over exclusive-or and or decides equality |
| TicketJar.Jar.Issue | src/api/migration.rs:90-99 | prune, append, and drop the oldest beyond 32 |
| TicketJar.Jar.Redeem | src/api/migration.rs:103-112 | prune, then remove the ticket if it is there |
| TicketHistory.JarRefinesHistory | src/api/migration.rs:84-123 | after every history the jar holds exactly the tickets issued, untried, not pushed out and not expired at the last event, oldest first |
| TicketHistory.JarIsBoundedAndOrdered | src/api/migration.rs:84-123 | at most 32 tickets, ordered by expiry |
| TicketHistory.RedeemExactly | src/api/migration.rs:103-112 | a redeem succeeds if and only if its ticket was issued less than 60 s before, was not tried since, and was not pushed out by 32 younger outstanding tickets |
| Upload.TakeChunk | src/api/migration.rs:436-450 | one chunk: the count, the threshold, and which of the reasons to refuse comes first |
| Upload.Threshold | src/api/migration.rs:438-441 | a chunk of at most 256 MiB crosses a threshold exactly when the number of whole 256 MiB units grows, and never two |
| Upload.ChunkLies | src/api/migration.rs:436-452 | the archive is the chunks one after the other, each where the ones before it end |
| Upload.RestoreUpload | src/api/migration.rs:410-482 | an archive is handed on only if all of it was received, written, within 4 GiB and of the declared size; with chunks of at most 256 MiB the free-space checks are received / 256 MiB at every exit, it is handed on if and only if nothing went wrong, and otherwise the reason to refuse is that of the first item that cannot be stored |
| MarketsCache.ListByAge | src/api/markets.rs:101 | the list of entries with their ages, in any order of the map |
| MarketsCache.FirstAreOldest | src/api/markets.rs:101-105 | the first keys of the list sorted by age are the oldest ones: none is newer than one that stays |
| MarketsCache.OldestKeys | src/api/markets.rs:101-105 | the half that is evicted is 250 keys and no key of it is newer than a survivor |
| MarketsCache.Cache.CacheGet | src/api/markets.rs:91-94 | a hit is the most recent value stored under the key over the whole history, and younger than its time to live |
| MarketsCache.Cache.CachePut | src/api/markets.rs:96-110 | at most 500 keys; only a full cache loses entries, and then exactly its oldest half |
| MarketsCache.Cache.Cached | src/api/markets.rs:112-123 | a fresh value is served without a change; otherwise the computed one is served and stored, and a failed computation is not |

## Left out

* Files that are not UTF-8, file permissions, the backup copy, and the steps of the atomic rename: a write either replaces the file or fails.
* Two writers interleaved inside their read-modify-write of the secrets file, and poisoned locks.
- Persistence.RunRefinesIdeal: assumes that imported values and password hashes are admissible; what happens otherwise is stated exactly, step by step, by `RoundTrip.RoundTripExactly` and `Imports.ImportReadsBackExactly`.
- SessionKeys.ApplyKeepsSessionKey: leaves out imports that neither panic nor take separate entries, for which it is false, and password hashes that open a PEM block, which no encoded hash does.
- SessionKeys.SessionKeySurvives: leaves out the same calls.
- SessionKeys.TokenSurvives: leaves out the same calls, and takes the session key to have reached the disk when it was first generated; the program only logs a warning when it did not.
- ImportedNames.SeparateExactly: says nothing about bundles in which one entry opens a PEM block and the name of another holds a closing marker; `ImportedNames.KeepsOthersExactly` covers them, in terms of what the imported entries read back as.
- AnyFile.FilesReadAlike: is about texts without the characters on which the readers differ in splitting or trimming, and without assignments to other than environment names, which only the script makes.
- Startup.RestartSucceeds: takes password hashes to hold no NUL, as encoded hashes do.
- LiveEnv.EnvShadowsFile: assumes that imported values and password hashes are admissible; others need not read back as they were set.
- Persistence.AttemptIsHealthy: assumes the same of them.
- Persistence.RunFromMissingFile: assumes the same of them.
- PemKey.NormalizePreservesKey: is about a body without dashes, as base64 is; other values are covered by the idempotence results only.
- Upload.RestoreUpload: counts the free-space checks exactly only for chunks of at most 256 MiB, as the network layer delivers them; a larger chunk crosses several thresholds with one check.
* Argon2, HMAC-SHA256 and the random number generator: the hash, the code and the bytes are parameters.
* `admin_hash`, `get_credentials`, `get_status`, `login` and the connection probes: they only read.
* `reset_breaker` of the autonomy endpoint, whose state lives in another component.
* Floating-point rounding in the Python tools: prices, sizes and volumes are exact.
* `find_own_print`, `taker_fee`, `floor_tick` and `ceil_tick`: single scans or single expressions.
* Reading the ledger from SQLite and the tape from the network, and the fee and reason columns of a round trip.
* The regular expressions of the log parser, and times finer than its whole seconds.
* `dark_markets` and `is_tracked`: filters of the registry that `BookFeed` describes.
* The texts written to the log; only which of them is written, and when, is modelled.
* Overflow of 64-bit counters of seconds and bytes.
* The tail of `restore_upload` after the whole archive was received: counting the ledger, asking for an overwrite, verifying and staging.
* The steps of `restore_upload` before the first byte: the refusal on a retired instance, and creating the directory and the file.
* Removing the partial upload from disk after a refusal.
* HTTP routing and response bodies, the asynchronous runtime, the web front end, venues, strategies, and the Helm intent lifecycle.
