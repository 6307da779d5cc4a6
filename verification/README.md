# Castaway: a model of its hard parts

Castaway is a wall-panel receiver. This project models the parts of it where a small amount of
code carries a hard obligation, one Dafny file per part, and proves what that code promises over
every input, every run or every interleaving:

- the panel's **calendar** (`CivilDate.dfy`): a closed-form civil date against a calendar that
  turns one page a day, and the midnight arithmetic a task sleeps on for weeks;
- the **browser host** (`BrowserHost.dfy`): textures lent under a budget, a control stream cut
  anywhere, a start-up race and a shutdown, as one state machine;
- the host's **policy rewrite**: what it does to the text (`CspRewrite.dfy`), and what the text
  then means by the parsing rules of section 2.2.1 of Content Security Policy Level 3, for every
  text (`CspMeaning.dfy`, on `CspWords.dfy`; the policies it fails in `CspDivergence.dfy`);
- a **stream cipher** as an array algorithm (`StringCipher.dfy`): permutation, bounds, inverse;
- **stores and readers**: the link-key file (`LinkKeys.dfy`), the PEM reader (`Pem.dfy`, on
  `Base64.dfy`; section 4 of RFC 4648, section 2 of RFC 7468) and the capture reader (`Pcap.dfy`;
  section 3.1 of RFC 791, RFC 768);
- **interleavings**: one pairing at a time and the frames of a settings action
  (`PairingLoop.dfy`), the screen-id resolver (`ScreenResolver.dfy`), the shutdown latch with the
  update handover (`Handover.dfy`);
- **indexes and traces**: credential windows (`CredentialWindows.dfy`), runs of audio
  (`AudioSpans.dfy`), the watchdog's reports (`Watchdog.dfy`), names that fit a label
  (`AdvertisedName.dfy`; section 3 of RFC 3629, section 4.1.1 of RFC 6763).

`Basics.dfy` and `Text.dfy` hold what they share. `dafny verify dfyconfig.toml` checks everything.

How to read a part: where the source mutates, there is a method (of a class, or on an array, or a
loop) whose postcondition equates its effect with a function; the lemmas then say what that
function means against a definition that does not mention it: a calendar, a map, a list of lines,
a multiset, a maximum over all windows, the grammar of a document.

## Where the code does less than it seems to

Each of these is kept as the code has it, shown by a lemma with a concrete family of inputs, and
bounded by the condition under which the promise does hold.

- Rewriting a policy picks the first directive whose name *begins with* `script-src`. A
  `script-src-elem` placed first takes the source instead (`LongerNameTakesTheSource`);
  `ScriptSourceGainsBlob` gives the exact outcome for every text.
- The directive to derive a `script-src` from is picked the same way. From `default-src-x a` it
  copies `-x a`, whatever the real `default-src` says, and also when there is none
  (`LongerDefaultIsCopied`, `LongerDefaultAlone`); `DefaultSourceCopied` is exact.
- A source that only begins with `blob:`, such as `blob:*`, is taken for it, and the policy left
  alone, although the standard reads no `blob:` in it (`LongerSourceHidesBlob`); the source itself
  in capitals is not recognised (`OtherCaseIsRepeated`, harmless). `BlobAllowedExactly` says when a
  directive allows blobs, and `RewriteAllowsBlob` exactly when the rewritten policy does.
- A comma begins another policy, and the code does not know: it gives the source to the last
  directive before the first semicolon, in whichever policy that is (`CommaTakesTheSource`).
  `OnePolicy` is what makes the rest hold of header values without a comma.
- JavaScript trims white space that the standard does not know: the vertical tab, and what is not
  ASCII. Deriving a directive trims the end of the policy, so a last directive that has nothing to
  do with scripts, an `img-src` say, loses it from its last source, or comes into force for having
  lost it (`ForeignSpaceIsLost`); `OtherDirectivesKept` says exactly when a directive keeps its
  value. The selected directive loses it too (`SelectedLosesForeignSpace`, exact in
  `SelectedGainsBlob`). And such white space before a `blob:` makes the code see a source that the
  standard does not, and leave the policy alone (`ForeignSpaceHidesBlob`, exact in
  `BlobAllowedExactly`).
- Loading a link-key file trims a line, the replacement filter does not. An indented entry
  survives its own replacement; `StoreReplaces` and `IndentedEntryBreaksRuns` say exactly when.
- An opening PEM marker can share its dashes with the closing marker before it, and then its block
  is not seen and not reported (`SharedDashesHideABlock`). It can share them with an opening marker
  before it and the closing one after it, and is then read as a body if it is base64, as under the
  label `ABC` (`SharedDashesMakeABody`). `DecodesExactlyDocuments`, `UnterminatedExactly` and
  `NotBase64Exactly` say exactly which texts decode, and to what, and which are refused, and why.
- `index_at` also fails once the quotient leaves 32 bits; `AnswersUpToHorizon` says for which
  tables that can happen inside the range. The shipped table is not one.
- An IPv4 header that says it has fewer than its five words is read all the same, with the UDP
  header taken from inside it (`ShortHeaderIsRead`); `PayloadExactly` is exact about it.
- The drill-in epoch wraps at 64 bits; `OnlyLatestIsPainted` is exact about it.
- The comment in `secs_until_next_local_midnight` gives its range as starting at 60; the least
  value is 61 (`ShortestSleep`). The model follows the code.
- The minute past midnight is not enough when the offset falls during the sleep, as at the end of
  summer time: the task then wakes on the date it left and reads that one twice. `WakeReads` says
  exactly when the next date is read, and `RolloverSeesEveryDate` that none is skipped.
- A texture painted after `shutdown` is lent as before, and no later `shutdown` returns it
  (`LatePaintIsStuck`, `LatePaintHappens`). `InFlightExactly` says what is in flight at any point of
  any run, and `ReleasedUnlessOutstanding` when everything has been released.

## Model

| member | source | states |
|---|---|---|
| `CivilDate.DayNumberStep` | crates/app/src/main.rs:2704-2717 | turning one calendar page adds one to the March-based day number, across every month end, leap day and century |
| `CivilDate.YearOfEra` | crates/app/src/main.rs:2711 | the corrected division by 365 yields the year of the era on every day of every year of it, leap days included |
| `CivilDate.CivilInvertsDayNumber` | crates/app/src/main.rs:2708-2716 | the closed form applied to the day number of any valid date gives that date's month and day |
| `CivilDate.CalendarDayNumber` | crates/app/src/main.rs:2708-2709 | the page n turns after (or before) 1970-01-01 has day number n |
| `CivilDate.CivilDateIsCalendar` | crates/app/src/main.rs:2708-2716 | the closed form equals the calendar counted one day at a time, for every day in both directions |
| `CivilDate.LocalCivilDateCorrect` | crates/app/src/main.rs:2704-2717 | a date is returned exactly when the local time fits in 64 bits, and is the calendar's month and day of the local day |
| `CivilDate.WakeInstant` | crates/app/src/main.rs:2726-2733 | the sleep ends exactly one minute into the next local day |
| `CivilDate.SleepReachesNextDate` | crates/app/src/main.rs:2726-2733 | sleeping until the next local midnight at a fixed offset lands on the calendar's next page |
| `CivilDate.WakeReads` | crates/app/src/main.rs:2759-2767 | each wake reads the calendar's page of its local day, by whatever offset the system then gives; it is the page after the last one if and only if the offset fell by at most a minute and rose by less than a day less a minute |
| `CivilDate.RolloverCountsDays` | crates/app/src/main.rs:2764-2767 | while the offset does not move, the k-th wake is on the k-th following day |
| `CivilDate.RolloverSeesEveryDate` | crates/app/src/main.rs:2747-2783 | over a whole uptime, with an offset that changes but never by a day at a time, every date from the first to the latest is read at some wake |
| `CivilDate.ShortestSleep` | crates/app/src/main.rs:2726-2733 | the least sleep is 61 seconds, and it is taken |
| `CivilDate.SeasonalRollover.Wake` | crates/app/src/main.rs:2763-2782 | the season worn is the calendar date's; a scene is sent exactly on a change, so consecutive scenes differ |
| `BrowserHost.LinesOfConcatenation` | browser-host/main.js:1010-1015 | cutting a stream anywhere and carrying the remainder over finds the same lines and remainder |
| `BrowserHost.DataInStep` | browser-host/main.js:1010-1037 | after any chunk, handled then parked commands are still the in-order parse of the complete lines received |
| `BrowserHost.CommandsInOrder` | browser-host/main.js:1006-1057 | in every run, however chunked and whenever ready: handled then parked commands equal the parse of the complete lines; nothing stays parked once ready |
| `BrowserHost.ChunkingDoesNotMatter` | browser-host/main.js:1006-1057 | two ready runs that received the same text handled the same commands, whatever the chunks and the race |
| `BrowserHost.StreamIsObeyed` | browser-host/main.js:1010-1057 | a stream of newline-ended texts, some blank or unparseable, makes any run handle, then park, exactly the commands the others parse to, in order |
| `BrowserHost.PaintBalance` | browser-host/main.js:780-802 | a paint keeps every window's count equal to its lent textures and within budget, and accounts for the texture it brought |
| `BrowserHost.ReleaseBalance` | browser-host/main.js:860-868 | a release, of a known, unknown or repeated id, keeps the books and neither loses nor duplicates a texture |
| `BrowserHost.ShutdownBalance` | browser-host/main.js:987-1001 | a shutdown, first or repeated, releases exactly what was lent |
| `BrowserHost.LenderStep` | browser-host/main.js:780-1057 | every event keeps the books, conserves textures, and counts each usable paint once, as lent or as dropped |
| `BrowserHost.TexturesConserved` | browser-host/main.js:780-1001 | in every run the textures painted are exactly those in flight and those released; usable paints are `paintSeq` plus `drops`; the per-window budget holds |
| `BrowserHost.ReleasedExactlyOnce` | browser-host/main.js:780-1001 | a texture painted once is in flight and unreleased, or released exactly once and not in flight |
| `BrowserHost.ShutdownReturnsEverything` | browser-host/main.js:987-1001 | the first shutdown leaves nothing in flight and everything painted before it released exactly as often as painted; a later one changes nothing, late textures included |
| `BrowserHost.ShuttingDownExactly` | browser-host/main.js:978-1042 | in every run the host is shutting down if and only if the wire has closed or a `quit` has been handled |
| `BrowserHost.QuitReturnsEverything` | browser-host/main.js:978-1001 | once either has happened, everything painted by the event that began the shutdown was released at its end exactly as often as painted, stays released, and no earlier id is in flight |
| `BrowserHost.LentWithinBudget` | browser-host/main.js:794-802 | in every run, a usable paint of a live window is lent if and only if fewer than four of its textures are out; otherwise it is dropped |
| `BrowserHost.DestroyedNeverLowered` | browser-host/main.js:864 | no event lowers the count of a destroyed window |
| `BrowserHost.InFlightExactly` | browser-host/main.js:780-1001 | at every point of every run, in flight are exactly the ids that were lent, not released by id since, and not overtaken by the start of the shutdown |
| `BrowserHost.EveryRunHasHistory` | browser-host/main.js:780-1001 | every run has the history of states that this is said of, and ends with exactly its outstanding ids in flight |
| `BrowserHost.ReleasedUnlessOutstanding` | browser-host/main.js:780-1001 | everything painted has been released if and only if no such id is left; once shutting down, any that is left was lent after the shutdown began |
| `BrowserHost.LatePaintIsStuck` | browser-host/main.js:794-802 | a usable, in-budget paint after the shutdown began stays in flight, through any later events, until a release of its id is handled |
| `BrowserHost.LatePaintHappens` | browser-host/main.js:987-1001 | for every window and texture there is such a run, and a second shutdown does not help |
| `BrowserHost.Process.constructor` | browser-host/main.js:1006-1008 | the process starts with nothing lent, queued, handled or buffered |
| `BrowserHost.Process.CreateWindow` | browser-host/main.js:756 | a new window starts with nothing lent; nothing else changes |
| `BrowserHost.Process.WindowDestroyed` | browser-host/main.js:864 | a destroyed window is only remembered as such: its count stays, and releases no longer lower it |
| `BrowserHost.Process.OnPaintEvent` | browser-host/main.js:780-802 | the paint handler is the machine's paint step |
| `BrowserHost.Process.ShutDown` | browser-host/main.js:986-1001 | the loop over the texture map is the machine's shutdown step |
| `BrowserHost.Process.HandleCommand` | browser-host/main.js:858-984 | handling a command is the machine's step for it, in order |
| `BrowserHost.Process.OnLine` | browser-host/main.js:1014-1035 | one line is ignored, parked or handled as the machine says |
| `BrowserHost.Process.OnDataEvent` | browser-host/main.js:1010-1037 | the framing loop takes exactly the complete lines, and is the machine's data step |
| `BrowserHost.Process.OnReadyEvent` | browser-host/main.js:1048-1056 | the queue is replayed in order and emptied: the machine's ready step |
| `CspRewrite.RewriteIsByPieces` | browser-host/main.js:411-428 | splitting the rewritten text gives the original pieces with the one selected piece changed, or the tidied pieces and one more |
| `CspRewrite.RewriteIdempotent` | browser-host/main.js:411-428 | for every policy string, rewriting twice is rewriting once |
| `Text.StartsWithExactly` | browser-host/main.js:413 | a name is matched letter by letter, in either case |
| `Text.SpacesCompared` | browser-host/main.js:413-427 | how the white space of JavaScript, of Rust and of the web platform differ |
| `CspMeaning.RewriteAmends` | browser-host/main.js:411-428 | for every policy string: the rewritten one parses as the original with only the parse of the selected piece replaced, or with the parse of the derived piece added; and in the second case nothing else changes if and only if the white space ending the last piece is such that the standard reads the trimmed piece alike |
| `CspMeaning.EndKeptIs` | browser-host/main.js:427 | the condition on the last piece, exactly: only ASCII white space ends it, or what precedes that is not ASCII, or nothing precedes it and it is not ASCII |
| `CspMeaning.SelectedGainsBlob` | browser-host/main.js:413-418 | the selected piece is read as a directive whose name begins with `script-src` and gains exactly `blob:`, if and only if it is ASCII and only ASCII white space is before and after it |
| `CspMeaning.DerivedTakesDefault` | browser-host/main.js:423-427 | the derived directive has exactly the sources of its `default-src` and `blob:`, if and only if that piece is ASCII, has the very name, and only ASCII white space is before the name, after it and at the end |
| `CspMeaning.OtherDirectivesKept` | browser-host/main.js:411-428 | for every policy string and every name without white space that does not begin with `script-src`, the effective value is kept, unless a directive is derived, the last piece decides that name, and its end is not kept; then, and only then, it changes |
| `CspMeaning.ScriptSourceGainsBlob` | browser-host/main.js:411-428 | for every policy string, what the effective `script-src` becomes: selected and named, the sources of the trimmed piece and `blob:`, which is the old value and `blob:` if the piece is clean; selected and not named, what it was; derived, from none to the derived sources and `blob:` if they are ASCII |
| `CspMeaning.DefaultSourceCopied` | browser-host/main.js:423-427 | a piece that has the very name decides the effective `default-src`, and the new `script-src` is that value and `blob:` if and only if the piece is clean; otherwise the effective `default-src` is a later piece's or there is none |
| `CspMeaning.BlobAllowedExactly` | browser-host/main.js:415 | a directive the standard sees allows blobs if and only if `blob:`, in any case, stands in it as a word between ASCII white space |
| `CspMeaning.RewriteAllowsBlob` | browser-host/main.js:411-428 | for every policy string, the effective `script-src` allows blobs after the rewrite if and only if the selected piece was amended and names it, or one was derived from ASCII sources, or none was derived and it allowed them before |
| `CspMeaning.OnePolicy` | browser-host/main.js:411-428 | a header value without a comma is one policy, and so is its rewrite |
| `CspDivergence.LongerNameTakesTheSource` | browser-host/main.js:413-416 | every policy with a longer name before its `script-src`: the longer one gains the source, the other keeps its value |
| `CspDivergence.ElemIsSuch` | browser-host/main.js:413 | `script-src-elem` is such a name |
| `CspDivergence.LongerDefaultIsCopied` | browser-host/main.js:423-427 | every policy with a longer name before its `default-src`: the rest of the name and the longer one's source become the new sources |
| `CspDivergence.LongerDefaultAlone` | browser-host/main.js:423-427 | the same without a `default-src` at all |
| `CspDivergence.ForeignSpaceIsLost` | browser-host/main.js:427 | every policy that ends in an unrelated directive and white space only JavaScript trims: that directive changes, or comes into force |
| `CspDivergence.ImgIsSuch` | browser-host/main.js:427 | `img-src` is such a directive, and the vertical tab and the no-break space are such white space |
| `CspDivergence.SelectedLosesForeignSpace` | browser-host/main.js:416 | the selected `script-src` loses such white space from its last source, or comes into force |
| `CspDivergence.ForeignSpaceHidesBlob` | browser-host/main.js:415 | a `blob:` after any such white space leaves the policy unamended, and its `script-src` allows no blobs |
| `CspDivergence.LongerSourceHidesBlob` | browser-host/main.js:415 | every source that begins with `blob:` and goes on leaves the policy unamended, and its `script-src` allows no blobs |
| `CspDivergence.OtherCaseIsRepeated` | browser-host/main.js:415-416 | `blob:` in another case is allowed, not recognised, and followed by another |
| `CspDivergence.SuchSources` | browser-host/main.js:415 | `blob:*` and `BLOB:` are such sources |
| `CspDivergence.CommaTakesTheSource` | browser-host/main.js:412-418 | every value of a `script-src` policy, a comma and another policy: the second one's directive gains the source |
| `CspRewrite.FindIndex` | browser-host/main.js:413 | the search returns the first directive whose trimmed, lower-cased text begins with the name |
| `CspRewrite.RewritePolicy` | browser-host/main.js:411-428 | the callback returns the rewrite, and sets `amended` exactly when the text changed |
| `ByteStream.RunUndone` | nix/airreceiver-carve.py:115-134 | if each step of one machine undoes the other's, whole streams of any length are undone and the end states agree |
| `StringCipher.ShuffleKeepsPermutation` | nix/airreceiver-carve.py:73-99 | the keyed shuffle only swaps cells, whatever was drawn, also when the twelve retries run out |
| `StringCipher.InitIsPermutation` | nix/airreceiver-carve.py:94-102 | after `init` the table is a permutation of 0..255, for every nonempty key |
| `StringCipher.IndexIsDrawn` | nix/airreceiver-carve.py:73-91 | the index drawn is the first of at most twelve masked sums that is at most n, else the twelfth; each sum is the next byte of the key, around, and the table byte the last sum points at, with the key's length in place of the high part at the wrap |
| `StringCipher.InitIsKeyed` | nix/airreceiver-carve.py:94-102 | `init` is 255 such draws, each exchanging two cells of what began as the identity, and the registers are cells 1, 3, 5, 7 and the one under the final cursor |
| `StringCipher.StepIsThreeSwaps` | nix/airreceiver-carve.py:105-114 | the four-way rotation is three swaps in sequence, however the four indices coincide, and moves the registers as written |
| `StringCipher.StepKeepsPermutation` | nix/airreceiver-carve.py:105-114 | a step keeps the table a permutation, under any aliasing |
| `StringCipher.XorBit` | nix/airreceiver-carve.py:122 | a bit of the exclusive or is set exactly when the two bits differ |
| `StringCipher.DecryptedByte` | nix/airreceiver-carve.py:117-124 | the byte decrypted, bit by bit, from the registers before the step and the table after its three swaps, and the state left behind |
| `StringCipher.RunKeepsPermutation` | nix/airreceiver-carve.py:94-134 | after any ciphertext of any length the table is a permutation |
| `StringCipher.CipherInverse` | nix/airreceiver-carve.py:117-124 | the encryptor with the same step and feedback and `decrypt_byte` undo each other, state included |
| `StringCipher.StreamInverse` | nix/airreceiver-carve.py:117-124 | decryption undoes encryption, and encryption decryption, at every length and from every state |
| `StringCipher.DecryptInjective` | nix/airreceiver-carve.py:117-124 | different ciphertexts decrypt differently |
| `StringCipher.DecryptPrefixStable` | nix/airreceiver-carve.py:117-124 | what a prefix decrypts to does not depend on what follows |
| `StringCipher.DecodeRecovers` | nix/airreceiver-carve.py:127-134 | `decode` recovers every nonempty string from its salted nibble encoding, whatever the salt and the high nibbles; the empty one is refused |
| `StringCipher.DecodeExactly` | nix/airreceiver-carve.py:127-134 | on every input: refused exactly when it is short or odd, and otherwise the decryption of what its low nibbles carry, without the first byte |
| `StringCipher.MaskFor` | nix/airreceiver-carve.py:74-76 | the loop finds the least all-ones mask not below n |
| `StringCipher.ShuffleIndexInPlace` | nix/airreceiver-carve.py:73-91 | the draw with retries returns the specified index, leaves the specified cursor and stays in bounds |
| `StringCipher.InitInPlace` | nix/airreceiver-carve.py:94-102 | the in-place shuffle gives the specified cells, a permutation |
| `StringCipher.StepInPlace` | nix/airreceiver-carve.py:105-114 | the aliased in-place assignments are the specified step |
| `StringCipher.DecryptByteInPlace` | nix/airreceiver-carve.py:117-124 | one byte is decrypted and both feedback registers are set as specified |
| `StringCipher.DecryptStreamInPlace` | nix/airreceiver-carve.py:134 | decrypting byte by byte in place is the stream decryption |
| `StringCipher.DecodeString` | nix/airreceiver-carve.py:127-134 | the whole of `decode`, error cases included |
| `LinkKeys.EntryRoundTrip` | crates/app/src/bluetooth.rs:392-404 | every printed line parses back to its address and key, for both readers |
| `LinkKeys.AddrRoundTrip` | crates/substrate-hci/src/addr.rs:57-86 | every address prints to text that parses back to it |
| `LinkKeys.DigitExactly` | crates/app/src/bluetooth.rs:401 | the hexadecimal digits and their values, in either case |
| `LinkKeys.OctetExactly` | crates/app/src/bluetooth.rs:401 | an octet is read exactly from a plus sign or none and hexadecimal digits, any number of them, that spell it |
| `LinkKeys.AddrExactly` | crates/substrate-hci/src/addr.rs:64-86 | an address is read exactly from six octets between five colons |
| `LinkKeys.EntryExactly` | crates/app/src/bluetooth.rs:392-404 | exactly the lines the filter takes for an entry, and for which: an address, white space, a key of thirty-two characters two to an octet |
| `LinkKeys.LoadedExactly` | crates/app/src/bluetooth.rs:379-384 | loading takes for an entry exactly what the filter would, of the trimmed line |
| `LinkKeys.PrintedEntry` | crates/app/src/bluetooth.rs:469-476 | the text written for an entry: six pairs of capital digits between colons, a space, sixteen pairs of small ones |
| `LinkKeys.LinesExactly` | crates/app/src/bluetooth.rs:378 | the lines read from a text, with carriage returns or not, and with an unterminated last line or not |
| `LinkKeys.KeptExactly` | crates/app/src/bluetooth.rs:463-467 | a line goes in an update exactly if it is read as an entry of the peer; every other stays where it was, comments too |
| `LinkKeys.FilterSeesUnindented` | crates/app/src/bluetooth.rs:379-384 | the replacement filter sees what loading sees, except in an indented line, where it sees nothing |
| `LinkKeys.StoreReplaces` | crates/app/src/bluetooth.rs:453-485 | one update removes the peer's entries, keeps every other where it was and puts the new one last, if and only if no indented line holds an entry for the peer |
| `LinkKeys.RunIsFold` | crates/app/src/bluetooth.rs:420-443 | from a file without indented entries every run of the writer is the fold of its messages over the loaded entries |
| `LinkKeys.IndentedEntryBreaksRuns` | crates/app/src/bluetooth.rs:462-467 | every other file has a one-message run that is not |
| `LinkKeys.StoreIsLastWriteWins` | crates/app/src/bluetooth.rs:373-485 | from no file, after any sequence of stores and forgets, loading gives exactly the last-write-wins map, one entry per peer |
| `LinkKeys.KeyFile.LoadLinkKeys` | crates/app/src/bluetooth.rs:373-389 | the loop returns the specified entries in file order |
| `LinkKeys.KeyFile.StoreLinkKey` | crates/app/src/bluetooth.rs:453-485 | the file becomes the specified text |
| `LinkKeys.KeyFile.KeepOthers` | crates/app/src/bluetooth.rs:462-467 | the filter keeps exactly the lines not read as an entry of the peer |
| `LinkKeys.KeyFile.Drain` | crates/app/src/bluetooth.rs:427-441 | the writer task applies its messages one at a time in arrival order |
| `Base64.DecodeEncode` | crates/cast-replay/src/pem.rs:31-34 | decoding the encoding of any bytes gives them back |
| `Base64.EncodeDecode` | crates/cast-replay/src/pem.rs:31-34 | whatever decodes is the encoding of what it decodes to: the decoder is strict |
| `Base64.DecodedAlphabet` | crates/cast-replay/src/pem.rs:31-34 | only text over the alphabet and its padding decodes |
| `Base64.DigitIsAlphabet` | crates/cast-replay/src/pem.rs:31-34 | the digits are the alphabet of the standard, in its order |
| `Base64.SameNumber` | crates/cast-replay/src/pem.rs:31-34 | four digits are the base-64 spelling of the number three octets spell |
| `Pem.DecodesExactlyDocuments` | crates/cast-replay/src/pem.rs:16-39 | for every text and label, decoding succeeds with `data` if and only if the text is a document of blocks with those bodies, each marker being the first after what precedes it |
| `Pem.DocumentDecodes` | crates/cast-replay/src/pem.rs:16-39 | a document with marker-free, newline-ended noise and white space anywhere in its bodies decodes to exactly its blocks, in order |
| `Pem.OneBlock` | crates/cast-replay/src/pem.rs:45-53 | `decode_one` gives `data` if and only if the text is a document of one block that carries it |
| `Pem.StripIsFilter` | crates/cast-replay/src/pem.rs:27-30 | stripping a body takes out exactly its ASCII white space, character by character |
| `Pem.UnterminatedIsError` | crates/cast-replay/src/pem.rs:21-26 | a block whose opening marker overlaps no other marker and which no closing marker follows makes the whole document an error |
| `Pem.UnterminatedExactly` | crates/cast-replay/src/pem.rs:21-26 | for every text and label, it is reported as unterminated if and only if it is decodable blocks, noise, a first opening marker, and a tail without a closing one |
| `Pem.NotBase64Exactly` | crates/cast-replay/src/pem.rs:27-35 | and as not base64 if and only if it is decodable blocks and then one whose body does not decode |
| `Pem.LineStartUnstraddled` | crates/cast-replay/src/pem.rs:21 | a marker at the start of a line overlaps no marker before it |
| `Pem.SharedDashesHideABlock` | crates/cast-replay/src/pem.rs:21-37 | for every label, an opening marker that shares the dashes of a closing one is not seen |
| `Pem.SharedDashesMakeABody` | crates/cast-replay/src/pem.rs:21-37 | an opening marker that shares its dashes on both sides is read as a body, for every label that makes it base64 |
| `Pem.AbcIsSuch` | crates/cast-replay/src/pem.rs:27-34 | `ABC` is such a label |
| `Pem.DecodeAllBlocks` | crates/cast-replay/src/pem.rs:16-39 | `decode_all` is the specified scan |
| `Pem.ScanAll` | crates/cast-replay/src/pem.rs:21-38 | the loop over the shrinking rest is the scan, and ends |
| `Pem.DecodeOneBlock` | crates/cast-replay/src/pem.rs:45-53 | the block is returned exactly when there is one |
| `Pcap.WholeIsLongest` | nix/android-cast-rtp.py:43-51 | the number of whole records in a cut is the greatest that fits |
| `Pcap.CutFileReadsPrefix` | nix/android-cast-rtp.py:30-51 | in both byte orders and with both magic numbers, a file cut anywhere after its header reads as the longest prefix of whole frames |
| `Pcap.FileRoundTrip` | nix/android-cast-rtp.py:30-51 | an uncut file reads as all its frames |
| `Pcap.PacketsExactly` | nix/android-cast-rtp.py:30-51 | for every file: each of the three refusals, exactly when, and otherwise exactly the frames of the records it consists of, up to a cut-off one |
| `Pcap.DottedInjective` | nix/android-cast-rtp.py:64-67 | different addresses have different dotted spellings, so comparing the text compares the address |
| `Pcap.PayloadRecovered` | nix/android-cast-rtp.py:54-72 | for any legal header length and any link padding the exact payload comes back, if and only if both addresses and the port are those asked for |
| `Pcap.PayloadExactly` | nix/android-cast-rtp.py:54-72 | for every frame: a payload if and only if it is an IPv4 frame with protocol 17, the addresses and port asked for and room for the headers, place by place; and then what the length field delimits, or all the rest |
| `Pcap.ShortHeaderIsRead` | nix/android-cast-rtp.py:59-69 | a header that claims no words at all is read all the same |
| `Pcap.DecimalIs` | nix/android-cast-rtp.py:64 | an octet is spelled in decimal digits without a leading zero |
| `Pcap.ReadPackets` | nix/android-cast-rtp.py:30-51 | the reader, its three refusals included |
| `Pcap.ReadRecords` | nix/android-cast-rtp.py:43-51 | the reading loop returns the whole records of what follows the header |
| `PairingLoop.EveryRunPairsOneAtATime` | crates/app/src/shell_nav.rs:198-360 | in every interleaving `pairing` is set exactly when one task is running or has its outcome queued, and that task is the stored one; the outcome channel never fills |
| `PairingLoop.SamePinUntilOutcome` | crates/app/src/shell_nav.rs:286-328 | from the start of a pairing until its outcome is taken, every PIN screen carries the PIN its one task was given |
| `PairingLoop.BusyPressStartsNothing` | crates/app/src/shell_nav.rs:286-328 | over any run until the outcome is taken, the stored pairing stays, no task appears, and tasks and queued outcomes change only by a task finishing |
| `PairingLoop.RunHasChain` | crates/app/src/shell_nav.rs:198-208 | every run has the states the following rows speak of |
| `PairingLoop.RequestsAreAnswered` | crates/app/src/shell_nav.rs:286-328 | in every run each request shows one screen: the new PIN, and then just that task has started, if nothing was in flight; otherwise the PIN in flight, or that the panel is busy |
| `PairingLoop.NothingElsePairs` | crates/app/src/shell_nav.rs:286-360 | only a request starts a pairing, and only taking its outcome ends it |
| `PairingLoop.TakenInOrder` | crates/app/src/shell_nav.rs:205 | outcomes are taken in the order the tasks reported them |
| `PairingLoop.FailuresShown` | crates/app/src/shell_nav.rs:334-360 | in every run the screens that say a pairing failed are exactly those of the unsuccessful outcomes taken, in order, each for its own host |
| `PairingLoop.AskingExactly` | crates/app/src/shell_nav.rs:237-247 | in every run the loop waits for a host's answer if and only if it was pressed, or a successful outcome of it taken, and nothing but tasks finishing has happened since |
| `PairingLoop.ChosenStep` | crates/app/src/shell_nav.rs:211-255 | the host chosen is the one last asked or retried, or what another press made it |
| `PairingLoop.SameHostExactly` | crates/app/src/shell_nav.rs:294 | two hosts are the same when they agree but for the case of ASCII letters |
| `PairingLoop.Nav.BeginPairing` | crates/app/src/shell_nav.rs:286-328 | `start_pairing` is the machine's step |
| `PairingLoop.Nav.OnPairingOutcome` | crates/app/src/shell_nav.rs:334-360 | taking an outcome frees the slot and is the machine's step up to the await |
| `PairingLoop.Nav.OnAnswer` | crates/app/src/shell_nav.rs:240-247 | what follows the await, of either handler, is the machine's step |
| `ActionFrames.OnlyLatestIsPainted` | crates/app/src/shell_nav.rs:505-573 | a frame is painted if and only if the drill-ins since its own are a multiple of 2^64; short of that, only the latest drill-in's frames are |
| `ScreenResolver.AtMostOneAlive` | crates/app/src/screen.rs:125-149 | in every interleaving of events, pump steps and polls at most one resolver is unaborted and unfinished |
| `ScreenResolver.OnlyLatestAlive` | crates/app/src/screen.rs:125-149 | once an event has been handled only its own resolver can be alive, and none after a stop or a launch with nothing to resolve |
| `ScreenResolver.OnlyLatestWrites` | crates/app/src/screen.rs:125-149 | until the next event is taken up, every write to the slot is by the latest launch's resolver |
| `ScreenResolver.RunHasChain` | crates/app/src/screen.rs:131-148 | every run has the states the following rows speak of |
| `ScreenResolver.LaunchIsAlive` | crates/app/src/screen.rs:133-138 | in every run, once a launch with a code has been handled there is a task of that very event, alive unless a poll of its own has ended it |
| `ScreenResolver.AliveUntilRetired` | crates/app/src/screen.rs:131-148 | and it stays alive until one does, or the pump retires it |
| `ScreenResolver.FinishedExactly` | crates/app/src/screen.rs:122-123 | a task is finished if and only if a poll of its own has ended it |
| `ScreenResolver.EventsCounted` | crates/app/src/screen.rs:131 | the events seen are those received, and the latest is the last of them |
| `ScreenResolver.SlotExactly` | crates/app/src/screen.rs:122-123 | in every run the slot holds what a task wrote if and only if it wrote it, and nothing has written or cleared the slot since |
| `ScreenResolver.StoppedStaysClear` | crates/app/src/screen.rs:131-148 | in every run, after a stop or a launch with nothing to resolve, a clear slot stays clear until a resolver is spawned, whatever other events come |
| `ScreenResolver.DialPump.HandleEvent` | crates/app/src/screen.rs:131-148 | the body of the loop is the machine's steps for that event |
| `Handover.ExitStatus` | crates/app/src/main.rs:780-809 | in every interleaving a kiosk stopped by the updater's flag exits with the activation code, a run without activation never does, and any other status is 1 if the loop failed and 0 if not |
| `Handover.WhyExactly` | crates/app/src/main.rs:779-785 | in every interleaving the loop failed, or its window closed, exactly if that happened to it |
| `Handover.LeavesFired` | crates/app/src/main.rs:786 | a process that has left fired the latch, whyever it left |
| `Handover.StatusIsCodeAtTheEnd` | crates/app/src/main.rs:923-928 | the activation code is used exactly when the updater had stored it by the time it is read |
| `Handover.AskedKioskReturns` | crates/app/src/update.rs:199-205 | once a stopper has woken the loop, asleep or awake, it returns as asked within two passes |
| `Handover.NoWaiterLeftParked` | crates/app/src/shutdown.rs:40-53 | once the latch has fired and notified, every waiter, whenever it registered, can step, and a bounded number of its own steps releases it |
| `Handover.ReleaseNeedsFiring` | crates/app/src/shutdown.rs:45-53 | no wait returns before the latch has fired, and it stays fired |
| `Handover.HeadlessHandsOver` | crates/app/src/main.rs:923-928 | a waiter released by nobody but the updater reads the activation code |
| `Handover.Shutdown.Replace` | crates/app/src/shutdown.rs:40-42 | the first half of firing is the machine's firing step |
| `Handover.Shutdown.NotifyWaiters` | crates/app/src/shutdown.rs:40-42 | the second half is its notifying step |
| `Handover.Shutdown.FireLatch` | crates/app/src/shutdown.rs:40-42 | firing is the one and then the other |
| `Handover.Shutdown.Subscribe` | crates/app/src/shutdown.rs:45-46 | a new wait is the machine's joining step |
| `Handover.Shutdown.Advance` | crates/app/src/shutdown.rs:46-52 | one step of a wait is the machine's |
| `Handover.Shutdown.Poll` | crates/app/src/shutdown.rs:45-53 | polling a wait returns if and only if the latch has fired, whenever the wait was made; otherwise it parks for the next notification |
| `CredentialWindows.IndexAtIsGreatest` | crates/cast-replay/src/airserver.rs:198-207 | for any table, the lookup is the greatest index among all windows containing the instant, and answers exactly inside the range while the quotient fits 32 bits |
| `CredentialWindows.AnswersUpToHorizon` | crates/cast-replay/src/airserver.rs:198-217 | it answers exactly on [epoch, horizon) if and only if the horizon is within 2^32 steps of the epoch |
| `CredentialWindows.AirServerCovers` | crates/cast-replay/src/airserver.rs:183-217 | the shipped table answers on exactly its range |
| `CredentialWindows.BestOfIsLatest` | crates/cast-replay/src/airserver_db.rs:291-301 | the scan finds a covering window of the list that none ends after, or there is none |
| `CredentialWindows.CoversUntilIsMax` | crates/cast-replay/src/airserver_db.rs:274-280 | the horizon of a list is its latest end |
| `CredentialWindows.ScanAgreesWithTable` | crates/cast-replay/src/airserver_db.rs:291-301 | over the same windows in any order the scan and the arithmetic pick the same window, exactly where the quotient fits 32 bits or nothing is covered |
| `CredentialWindows.HorizonsAgree` | crates/cast-replay/src/airserver_db.rs:274-280 | the two horizons are equal |
| `CredentialWindows.RowsRecovered` | crates/cast-replay/src/airserver.rs:247-255 | every slice of rows written one after the other is in bounds and is the row written there |
| `CredentialWindows.RowsPartitionBlob` | crates/cast-replay/src/airserver.rs:144-161 | a blob of the length the table insists on is exactly its rows, one after the other |
| `CredentialWindows.CredentialIsTheWindows` | crates/cast-replay/src/airserver.rs:235-259 | whenever a credential is found, its slices are the rows of the latest window covering the instant |
| `AudioSpans.SpansAreTheRuns` | nix/bluetooth-a2dp-signal.py:191-194 | `_spans` returns exactly the maximal runs of true |
| `AudioSpans.SpansSeparated` | nix/bluetooth-a2dp-signal.py:191-194 | they are in order and do not touch |
| `AudioSpans.TrueIsSpanned` | nix/bluetooth-a2dp-signal.py:191-194 | every true position is in one |
| `AudioSpans.FillPadding` | nix/bluetooth-a2dp-signal.py:168-173 | the mask filled in place is exactly the long runs of silence |
| `AudioSpans.Bursts` | nix/bluetooth-a2dp-signal.py:156-188 | the spans returned are exactly the maximal runs of what is not padding |
| `AudioSpans.BurstsOfRecording` | nix/bluetooth-a2dp-signal.py:156-188 | of any recording: a span is audio if and only if none of its samples is in a stretch of 24 zero samples or more, and on either side is one that is, or the recording's end |
| `AudioSpans.WindowsInSpan` | nix/bluetooth-a2dp-signal.py:273-277 | a span's windows lie in it, at least the trim from either end, side by side |
| `AudioSpans.WindowCount` | nix/bluetooth-a2dp-signal.py:276 | there are as many as fit |
| `AudioSpans.WindowOrigin` | nix/bluetooth-a2dp-signal.py:273-277 | every window of the list lies in one span, clear of its ends |
| `AudioSpans.WindowsExactly` | nix/bluetooth-a2dp-signal.py:273-277 | exactly the windows a whole number of widths behind a span's trimmed start that fit before its trimmed end |
| `AudioSpans.MeasurementsDisjoint` | nix/bluetooth-a2dp-signal.py:273-277 | windows never overlap |
| `AudioSpans.WindowsHaveNoGap` | nix/bluetooth-a2dp-signal.py:156-194 | no window contains the least gap's worth of consecutive silent samples |
| `Watchdog.LinesApart` | crates/app/src/watchdog.rs:116-136 | two lines of one stall are at least the repeat interval apart |
| `Watchdog.SilenceIsShort` | crates/app/src/watchdog.rs:127-132 | a look without a line is within the repeat interval of the stall's latest line |
| `Watchdog.ConsecutiveLines` | crates/app/src/watchdog.rs:116-136 | consecutive lines are at least the repeat interval apart and less than that plus the gap between looks |
| `Watchdog.WhenSomethingIsSaid` | crates/app/src/watchdog.rs:116-136 | exactly when a line and exactly when a recovery is said, in terms of the trace alone |
| `Watchdog.LineCarriesAges` | crates/app/src/watchdog.rs:135 | a line carries the ages seen at its own look |
| `Watchdog.RecoveryMeasured` | crates/app/src/watchdog.rs:120-125 | a recovery closes the open stall and is measured from that stall's first line |
| `Watchdog.LineBetweenRecoveries` | crates/app/src/watchdog.rs:120-125 | between two recoveries there is a line |
| `Watchdog.RenderIsNeverJudged` | crates/app/src/watchdog.rs:99-101 | other render ages change nothing but the render age reported |
| `Watchdog.Reporter.Look` | crates/app/src/watchdog.rs:116-136 | one look's answer and the memory it leaves |
| `Watchdog.Watch` | crates/app/src/watchdog.rs:144-163 | the loop says what the trace says at every look |
| `AdvertisedName.FitIsLongest` | crates/app/src/config.rs:831-834 | the specified prefix is the longest run of whole characters that fits |
| `AdvertisedName.CutIsLongestFit` | crates/app/src/config.rs:831-835 | stepping down to a boundary lands at the end of that prefix, at most three octets short of the room |
| `AdvertisedName.NameIsLongestFit` | crates/app/src/config.rs:824-836 | for every friendly name and slug the name is that prefix and the whole suffix, is UTF-8, and fits 63 octets exactly when the suffix does |
| `AdvertisedName.NamesDiffer` | crates/app/src/config.rs:824-836 | distinct hash-free slugs never share a name, whatever the friendly names |
| `AdvertisedName.EveryProtocolNamed` | crates/core/src/types.rs:68-85 | with the real slugs: every protocol's name is UTF-8, fits, and differs from every other's |
| `AdvertisedName.AdvertisedName` | crates/app/src/config.rs:824-836 | the loop computes the specified name |

## Left out

- `CspMeaning.OtherDirectivesKept`: names with white space in them are left to `RewriteAmends`, which speaks of the parsed directives themselves; no directive has such a name.
- `Pem.UnterminatedIsError`: sufficient only, as a condition on one marker; the exact condition is `UnterminatedExactly`. `Pem.DocumentDecodes` takes labels without a newline, as RFC 7468 has them.
- `CivilDate.RolloverSeesEveryDate`: the clock keeps time, and the offset is the same when a wake reads the date and when the next sleep is computed.
- `CivilDate.SeasonalRollover.Wake`: the theme's table from a date to a season is a parameter, and whether a Home scene exists is fixed.
- `AudioSpans.WindowsHaveNoGap`: samples are pairs of integers; the conversion to floating point, the spectral matching and the scoring are not modelled.
- `CredentialWindows.CredentialIsTheWindows`: the slices only; certificates, keys and signatures are opaque.
- `BrowserHost.Process.HandleCommand`: commands other than release and quit touch no texture and are one case; a window they open is an event of its own. `JSON.parse` is a parameter, and a handler that throws has done so after the bookkeeping, as in the source.
- `CspRewrite.RewritePolicy`: one header value; the walk over header names is not modelled. What the results on its meaning say is said of one policy, that is, of a value without a comma; of others there is only the failing family. Lower-casing is ASCII lower-casing, which decides these two names the same way.
- `LinkKeys.KeyFile.StoreLinkKey`: file system errors, and a process that dies between truncating and writing the file, are not modelled. Text is characters; a key of 32 octets that is not ASCII is refused by both.
- `PairingLoop.EveryRunPairsOneAtATime`: the screen stack, the settings screens and app launches are one other screen; the PIN generator is a parameter; shutdown, which closes the channels, ends the run.
- `ScreenResolver.OnlyLatestWrites`: the resolver's retries are polls that write, give up or go on; a poll is atomic and an abort takes effect between polls.
- `Handover.NoWaiterLeftParked`: the watch channel and the kiosk's waker are modelled by their own protocols (value, then notification; a wake that is kept until the loop takes it); memory is sequentially consistent, and the bounded wait for services and for the runtime before the exit is no step of its own.
- `Watchdog.Watch`: the sleep between looks and the stop flag are the length of the list of looks.
- The rest of the cipher script (key recovery, binary walking, emulation) and of the signing crates (RSA, BLAKE2b, SQLite, X.509).
- Electron itself, input dispatch, the descriptor plane, the audio tap, ad blocking.
- Service wiring, HTTP routes, configuration schema, logging, instance locks: fixed tables or thin wrappers, with only easy claims.
- The Bluetooth supervisor's backoff: one saturating counter.
