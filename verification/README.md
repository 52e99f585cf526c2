# SeeDesktop: a verified model of its stateful parts

This project models, in Dafny 4.11, the parts of the SeeDesktop client that hold state or do arithmetic, and
proves what they keep over every input, every run or every interleaving. `dafny verify dfyconfig.toml` checks it.

| file | subject |
|---|---|
| `wrappers.dfy`, `arithmetic.dfy`, `text.dfy`, `utf8.dfy`, `base64url.dfy` | octets, quotients and multiples, the Rust string operations, UTF-8 (RFC 3629), base64url without padding (RFC 4648, sections 3.2, 3.5 and 5) |
| `licence_json.dfy`, `json_layout.dfy` | the licence record and its JSON text (RFC 8259, section 7 for strings); the text in any other layout and with other escapes |
| `lower_case.dfy` | lower case of all of Unicode, and slices at octet offsets |
| `custom_server.dfy` | the name printer, and the parser of executable names with its loops |
| `file_name.dfy` | a licence, signed or not, survives being a file name, between any delimiters and copy marks |
| `comma_list.dfy` | the list of tagged fields that starts at `host=` |
| `licence_size.dfy`, `json_text.dfy`, `code_windows.dfy`, `name_parts.dfy` | no proper part of a generated name gives the licence back: how short a licence's text can be, how it starts and ends, and what a base64url text decodes to from any of its symbols on |
| `cut_names.dfy` | a file name gives its licence back exactly when no delimiter cuts the name; what cut names give |
| `printed_name.dfy` | the name that the printing program hands out, which never gives the licence back |
| `clipboard.dfy`, `clipboard_sync.dfy` | one clipboard and its wire form; the synchronisation of any number of machines as a step protocol |
| `audio.dfy`, `audio_frames.dfy`, `audio_buffer.dfy` | the jitter buffer as a stream with a cursor; when its drops are whole frames; the ring, the histogram pass and the buffer object that refine it |
| `login.dfy` | where a session's password comes from and what is saved of it |
| `lan.dfy`, `punch.dfy`, `color.dfy`, `video.dfy`, `online.dfy` | LAN discovery merge, UDP punch back-off, colour hash, decoder failures, online bitmap |

A Dafny `char` is a Unicode scalar value, so a Dafny `string` is a Rust `String`. Shifts and masks on octets and on
the 32-bit hash are written as division, remainder and an explicit modulus.

Assumptions that come in as parameters or preconditions: SHA-256 is a function `Digest` with 32-octet results;
`sign::verify` is a function `Verify` that rejects everything under 64 octets (`NeedsSignature`), or whose accepted
messages are 64 octets longer than their payload (`IsSigned`); decompression
undoes compression (`Faithful`); lower case is a function `Folding`
of single characters, of which ASCII, the Kelvin sign and the dotted capital I are fixed and the rest gives characters
outside ASCII; setting the clipboard replaces all its content, and reading it gives the data in the order in which
they are listed; clock readings are passed in and do not go back.

## Where the code does less than it seems to promise

- `src/naming.rs:24` prints file names with the front `rustdesk-custom_serverd-`. The front ends in a single hyphen,
  which is itself a base64url symbol, so the parser decodes front and licence together and refuses the name, unless
  both together happen to be a signed message (`PrintedNameIsRefused`). For no licence at all, signed or not, cut or
  not, does the printed name give the licence back (`PrintedNameIsLost`).
- A name can be cut by its own delimiters once a field is not ASCII, and the licence is then lost: `ReadBackExactly`
  proves, for every licence, that its file name gives it back if and only if the name holds neither delimiter.
  `WideNameIsRefused` shows a name that is cut and refused, `CutNameIsTaken` one that is cut and silently taken for
  the licence with four empty fields. `AsciiUncut` proves that names of ASCII fields are never cut.
- A tagged list loses an `.exe` that belongs to its last value: `ListFileName` gives the exact condition.
- The parser takes the offset of `host=` in the lower-case name and slices the name itself with it. `FrontsThatKeep`
  says exactly which fronts keep every list (`KeepsLists`): all whose lower case takes as many octets, so all of ASCII,
  and a few more. Behind a dotted capital I the host is lost (`DottedFrontLosesHost`); behind an ohm sign the parser
  panics (`OhmFrontPanics`).
- `src/clipboard.rs:607-611` stores the name's octets in place of special data that does not compress:
  `DataRoundTrip` gives the exact condition for every kind of content.
- An audio drop is an even number of samples, which need not be a whole number of frames: `FramesExactly` gives the
  exact condition on rate and channels. It holds for one or two channels (`StereoDrops`) and for any number at
  multiples of 80 Hz (`CodecRateDrops`), and fails for six channels at 44100 Hz (`SurroundDropSplitsFrame`).
- A peer that changes its salt between two greetings, or a switch of sides, makes the client forget that a password
  was shared: `NewSalt`, `SwitchedSides` and `NewSaltLeaks`.
- A peer id that answers a discovery under two user names can keep addresses of the saved record: `MergeIsMerged`
  gives the exact condition and `TwoNamesKeepOldAddresses` an instance.

## Model

| member | source | states |
|---|---|---|
| Base64Url.DecodesExactly | src/custom_server.rs:28 | A text decodes to given octets if and only if it is their encoding: no second spelling, no stray bits, no padding. |
| Base64Url.KnownEncodings | src/naming.rs:9 | Published test vectors, with `-` and `_` as symbols 62 and 63. |
| Base64Url.AsciiDashes | src/naming.rs:9 | For seven-bit octets a hyphen stands only in the last place of a group of four symbols. |
| Utf8.DecodeEncode | src/custom_server.rs:29 | Every string of Unicode scalar values is read back from its UTF-8 octets. |
| Utf8.DecodesExactly | src/clipboard.rs:649-651 | Octets are read as a text if and only if they are its encoding: no overlong forms, no surrogates. |
| LicenceJson.ParsePrint | src/custom_server.rs:9-19 | Every record of four Unicode strings is read back from its JSON text, quotes, controls and all. |
| LicenceJson.KnownEscapes | src/custom_server.rs:9-19 | The escapes of quotes, backslashes and line breaks in the printed text. |
| LicenceJson.ControlEscapes | src/custom_server.rs:9-19 | The escapes of control characters, with and without a short form. |
| JsonLayouts.AnyLayout | src/custom_server.rs:9-19 | Members in any order with any white space, also of other names, give the licence with the value of each field's member and nothing for a missing one; a field that is named twice makes the text invalid. |
| JsonLayouts.AllEscaped | src/custom_server.rs:9-19 | Any text is read back with every character escaped, in digits of either case and with surrogate pairs. |
| JsonLayouts.LoneSurrogate | src/custom_server.rs:9-19 | Half a surrogate pair is refused. |
| LicenceJson.PlainText | src/custom_server.rs:9-19 | The text lists key, host, api and relay in declaration order without white space. |
| CustomServers.ConfigStringRoundTrip | src/custom_server.rs:21-37 | For every licence, decoding its generated name yields it, whatever the signature check says. |
| CustomServers.ConfigStringExactly | src/custom_server.rs:21-37 | A name gives a licence if and only if it encodes octets that are a text of that licence, or that are no licence's text while a signature vouches for such a text. |
| CustomServers.SignedRoundTrip | src/custom_server.rs:32-33 | A signed licence is read back from the name of signature and text together. |
| CustomServers.PlainWins | src/custom_server.rs:29-31 | A plain licence wins over whatever a signature makes of the same octets. |
| CustomServers.GenNameInjective | src/naming.rs:8-11 | Two licences never share a generated name. |
| CustomServers.GetCustomServerFromString | src/custom_server.rs:39-108 | The parser strips extensions, takes the tagged list from the octet offset at which `host=` occurs in lower case, and otherwise returns the first segment, or piece of a parenthesised segment, that holds a licence; a slice inside a character is a panic. |
| CustomServers.SearchSegments | src/custom_server.rs:93-107 | The nested loops return the licence of the first segment that holds one, at any index, and none if and only if no segment and no piece of a parenthesised one is a licence's name. |
| CustomServers.SegmentDecides | src/custom_server.rs:94-105 | A segment gives its own licence, or else that of its first piece that is a licence's name, at any index. |
| CustomServers.StrippedIs | src/custom_server.rs:40-46 | Whatever the lower case of other characters, the slices that remove extensions never fail and remove exactly them. |
| CustomServers.WithoutTag | src/custom_server.rs:59-93 | A name without `host=` in it is searched for segments, whatever the lower case of its other characters. |
| CustomServers.ParseCommaList | src/custom_server.rs:61-87 | The loop leaves in each field the value of the last item with its tag in lower case, or nothing. |
| FileNames.GenNameEnds | src/naming.rs:8-11 | Generated names are base64url symbols, begin with 9, Q or 0 and end with e. |
| FileNames.AsciiUncut | src/naming.rs:8-11 | With ASCII fields a generated name holds neither `--` nor `-licensed-`. |
| FileNames.StripsExe | src/custom_server.rs:40-46 | One extension is removed in any letter case, and a second one with it. |
| FileNames.FileNameRoundTrip | src/custom_server.rs:88-107 | For every licence whose name its delimiters do not cut, any application name, any of the four delimiters and any tail of copy marks or further segments, the whole file name parses to exactly that licence. |
| FileNames.SignedFileName | src/custom_server.rs:88-107 | For every licence and signature that verifies, the file name of both together parses to exactly that licence, behind any delimiter and before any tail that do not cut the name. |
| FileNames.PaddedSegmentHolds | src/custom_server.rs:94-95 | White space on both sides of a name in its segment does no harm. |
| FileNames.RustdeskIsPlain | src/custom_server.rs:94-97 | The segment `rustdesk`, which decodes as base64url, is not taken for a licence. |
| FileNames.DuplicateDownloads | src/custom_server.rs:94-105 | For every licence with ASCII fields and any number of marks such as ` (1) (2)`, `rustdesk` plus any delimiter plus name plus marks plus `.exe` parses to that licence. |
| PrintedNames.PrintedNameIsRefused | src/naming.rs:17-25 | When its licence's name is not cut, the file name that the printing program writes parses to another licence if and only if the octets of front and name decoded together are a signed message with a text of that licence. |
| PrintedNames.PrintedNameIsLost | src/naming.rs:17-25 | For no licence does the file name that the printing program writes parse to that licence. |
| JsonTexts.LastCharacter | src/custom_server.rs:29 | Every JSON text of a licence ends with a closing brace or white space. |
| LicenceSizes.TextIsLong | src/custom_server.rs:9-19 | Any JSON text of a licence, however it is spelled, has at least the octets of its non-empty fields as printed. |
| JsonTexts.NoTextGoesOn | src/custom_server.rs:29 | No proper beginning of a licence's printed text is a JSON text of any licence. |
| CodeWindows.Window | src/custom_server.rs:28 | What decodes from the middle of a base64url text is a stretch of the octets, or mixtures of neighbouring ones. |
| NameParts.NoProperPart | src/custom_server.rs:21-37 | For every licence, no part of its generated name but the whole gives that licence back, signed or not. |
| CutNames.ReadBackExactly | src/custom_server.rs:88-107 | For every licence, application name and delimiter, the file name parses to exactly that licence if and only if its generated name holds neither `--` nor `-licensed-`. |
| CutNames.WideNameIsRefused | src/custom_server.rs:88-107 | A licence with a full-width character in its key has a name that is cut, and its file name does not parse. |
| CutNames.CutNameIsTaken | src/custom_server.rs:93-107 | A licence whose name is cut twice, and whose file name parses to the licence with four empty fields. |
| CommaLists.ListRoundTrip | src/custom_server.rs:59-87 | Behind any front without `host=` that keeps lists, a list parses to the last value of each field, in any order and letter case, whatever untagged items it holds. |
| CommaLists.FrontsThatKeep | src/custom_server.rs:59-61 | A front keeps every list if and only if its lower case takes as many octets as it does, or fewer and the end of the front that is read along closes with a comma and gives no field a value. |
| CommaLists.AsciiFrontKeeps | src/custom_server.rs:60 | Fronts of ASCII characters keep every list. |
| CommaLists.DottedFrontLosesHost | src/custom_server.rs:60 | Behind a dotted capital I the list `host=a` parses to the licence with four empty fields. |
| CommaLists.OhmFrontPanics | src/custom_server.rs:60 | Behind an ohm sign the same list makes the parser slice inside a character. |
| CommaLists.ListFileName | src/custom_server.rs:40-87 | Behind such a front and as a whole file name the list reads back if and only if its last item is not a value that itself ends in the extension. |
| Clipboards.DataRoundTrip | src/clipboard.rs:544-672 | A datum comes back from the wire unchanged if and only if it is text, RTF, HTML, PNG, SVG, a bitmap whose sizes survive the 32-bit field, or special data that compresses (or equals its name). |
| Clipboards.ContentsRoundTrip | src/clipboard.rs:635-680 | A list of such data comes back as the same list, compressed or not. |
| Clipboards.UpdatedIsSilent | src/clipboard.rs:208-232 | Contents that a peer has set are not sent on by either side. |
| Clipboards.CheckedIs | src/clipboard.rs:38-357 | For any contents: a look that is not forced sends nothing of an owned clipboard, a file list keeps everything else from being sent where those are synchronised, and otherwise exactly the data of the synchronised kinds are sent, in their order. |
| Clipboards.SyncedKinds | src/clipboard.rs:38-49 | Those kinds: text that is not empty, RTF, HTML, pictures, the spreadsheet format, and file lists where they are synchronised. |
| Clipboards.SentWhole | src/clipboard.rs:52-76 | A peer gets contents exactly as they are if and only if every datum is of a kind that is sent and survives, by kind. |
| Clipboards.WireForm | src/clipboard.rs:544-633 | The wire form of every kind, compressed if and only if that is shorter; special data that does not compress is replaced by its name. |
| Clipboards.WireRead | src/clipboard.rs:643-672 | What any clip gives: texts that are not UTF-8 and unknown formats are dropped, and an SVG picture is then empty. |
| Clipboards.ClipboardContext.GetFormatsFilter | src/clipboard.rs:328-357 | An owned clipboard reads as empty unless forced; otherwise exactly the data of the synchronised kinds. |
| Clipboards.ClipboardContext.Get | src/clipboard.rs:315-326 | The same, but nothing beside a file list where those are synchronised. |
| Clipboards.ClipboardContext.CheckClipboard | src/clipboard.rs:52-76 | A look sends the data of the synchronised kinds and caches that message; it sends and changes nothing when it fails, when the clipboard is owned and the look is not forced, beside a file list, or when there is no such datum. |
| Clipboards.ClipboardContext.UpdateClipboard | src/clipboard.rs:199-232 | A message replaces the contents by its data and the owner mark; a message without data, or a clipboard that cannot be set, changes nothing. |
| Clipboards.ClipboardListener.OnClipboardChange | src/clipboard.rs:774-780 | Every subscriber is notified exactly once. |
| ClipboardSync.StepDecreases | src/clipboard.rs:208-232 | Every poll, failed poll, delivery and discarded message lowers the measure, on any set of machines and sessions. |
| ClipboardSync.GoesQuiet | src/client.rs:991-998 | Without further copies no interleaving is longer than the measure of its start: there is no echo. |
| ClipboardSync.CompleteRunIsQuiet | src/client.rs:991-998 | A run that cannot go on ends with no notification pending and no message under way. |
| ClipboardSync.AnyCopyConverges | src/clipboard.rs:52-76 | After one copy of any contents from a quiet state, every complete run without failures leaves each peer of the copying machine with what the wire gives of the data of the synchronised kinds, one for each, and the owner mark, and every other machine as it was; when there is nothing to send, every machine. |
| ClipboardSync.SingleCopyConverges | src/clipboard.rs:52-76 | When the contents are of kinds that are sent and survive, each peer ends with exactly the copied contents and the owner mark. |
| AudioStream.EveryRun | src/client.rs:1212-1312 | In every state reached from the default buffer by resizes, appends, shrinks and reads: capacity is three seconds; the buffer is the end of the stream and fits; blocks read are consecutive and disjoint; appended = played + dropped + buffered; roll-overs are at least 12 s apart. |
| AudioStream.ReadTakesAll | src/client.rs:1484-1525 | After every run, a read takes what is buffered up to its length and leaves samples behind only if its block is full. |
| AudioStream.AppendKeepsLatest | src/client.rs:1289-1303 | After every run, appending overwrites samples only as far as the buffer is then full. |
| AudioStream.ShrinkEndsWindow | src/client.rs:1228-1246 | After every run, a level is recorded, and the statistics end if and only if twelve seconds have passed; nothing is dropped before that. |
| AudioStream.DropIs | src/client.rs:1247-1283 | The samples dropped at the end of a window, from the run of empty bins and the fullest bin. |
| AudioStream.BinOfLevel | src/client.rs:1228-1232 | The bin of a level is at most 30 before clamping, and 30 exactly for a full buffer, which counts in bin 29; every other level counts in the tenth of a second that it reaches. |
| AudioStream.SafeDrop | src/client.rs:1247-1283 | For every level recorded in the window, before or after a resize, three times the drop (less one sample) is at most twice the level, both measured in time; more than two thirds of what is buffered stay. |
| AudioStream.SafeDropSamples | src/client.rs:1247-1283 | Without a resize since that level was recorded: 3 * (drop - 1) <= 2 * level. |
| AudioFrames.FramesKept | src/client.rs:1276-1303 | With sizes whose drop is whole frames at every water mark, everything stays whole frames over every run of whole frames, whatever the number of channels. |
| AudioFrames.FramesExactly | src/client.rs:1247-1283 | Every run of whole frames at a rate and a number of channels stays whole frames if and only if the drop is whole at every water mark; runs of equal packets of any one length up to 100 ms already tell. |
| AudioFrames.FramesSplit | src/client.rs:1247-1283 | For every water mark at which the drop is not whole, a run of such packets that drops exactly that many samples. |
| AudioFrames.StereoDrops | src/client.rs:1279-1281 | One and two channels meet the condition at every rate. |
| AudioFrames.CodecRateDrops | src/client.rs:1279-1281 | Any number of channels meets it at every multiple of 80 Hz. |
| AudioFrames.SurroundDropSplitsFrame | src/client.rs:1279-1281 | Six channels at 44100 Hz: a run of 10 ms packets that drops 46306 samples, four more than a number of frames. |
| AudioBuffers.ScanHistogram | src/client.rs:1247-1269 | The in-place pass finds the length of the leading run of empty bins and the lowest fullest bin among 1 to 29 (0 if none), and leaves all 30 bins empty. |
| AudioStream.BusiestIsUnique | src/client.rs:1249-1262 | That lowest fullest bin is determined by the counts. |
| AudioBuffers.RingBuffer.PushSliceOverwrite | src/client.rs:1289-1303 | The ring holds the last samples of old contents plus buffer that fit. |
| AudioBuffers.AudioBuffer.Resize | src/client.rs:1214-1222 | A different capacity starts an empty stream; the same one changes nothing. |
| AudioBuffers.AudioBuffer.AppendPcm2 | src/client.rs:1289-1303 | Afterwards the last samples of old contents plus buffer that fit are buffered, and the level returned is their number. |
| AudioBuffers.AudioBuffer.TryShrink | src/client.rs:1224-1284 | Records the level in its bin and, at the end of a window, clears the histogram and drops what the statistics allow. |
| AudioBuffers.AudioBuffer.Play | src/client.rs:1484-1525 | A block for the sound device holds as many of the buffered samples as fit and then silence; the rest stays buffered. |
| Logins.RunKeeps | src/client.rs:3380-3449 | In every run against one salt without switching sides, a shared or built-in password stays recognised as such and is never saved, whatever tokens are carried over. |
| Logins.FirstHashKeeps | src/client.rs:3399-3449 | The first greeting of a peer establishes that, with any salt. |
| Logins.PeerInfoWithForeign | src/client.rs:2513-2566 | After logging in with a shared or built-in password, a remembered password is left alone, one that is not to be remembered is removed, and nothing is offered to the address book. |
| Logins.OfferedIsOwn | src/client.rs:2551-2566 | What is offered to the address book is a saved password that was never shared or built in. |
| Logins.ReconnectKeeps | src/client.rs:2748-2758 | A connection token gives the next session the same password from the same source, and it is recognised there. |
| Logins.TypedIsSaved | src/client.rs:3545-3563 | After a typed password and peer info, whatever greetings with the same salt and other errors come in between, its digest with the salt is saved and offered if it is to be remembered, and nothing is saved otherwise. |
| Logins.FirstLogin | src/client.rs:2513-2566 | A first session saves a password of the personal address book, and neither a preset nor a built-in one. |
| Logins.SavedByPeerInfo | src/client.rs:2513-2538 | What peer info saves, removes or keeps, by the source of the password. |
| Logins.EmptyAnswer | src/client.rs:3545-3552 | An empty answer to a wrong password falls back on the saved one, without a source. |
| Logins.NewSalt | src/client.rs:3399-3424 | A kept shared password stays recognised under a new salt if and only if the two digests agree. |
| Logins.SwitchedSides | src/client.rs:3390-3398 | Switching sides is harmless if and only if no shared or built-in password is held. |
| Logins.NewSaltLeaks | src/client.rs:2519-2528 | A run in which a changed salt gets a shared password saved. |
| Logins.LoginConfigHandler.Initialize | src/client.rs:1824-1864 | A token restores password, source and session id; remembering follows the saved password. |
| Logins.LoginConfigHandler.HandleHash | src/client.rs:3380-3449 | The password used is the first non-empty of shared, last, preset, saved, personal address book and built-in. |
| Logins.LoginConfigHandler.HandleLoginError | src/client.rs:3326-3338 | A wrong or missing password is forgotten; other errors change nothing. |
| Logins.LoginConfigHandler.HandleLoginFromUi | src/client.rs:3545-3563 | A typed password is hashed with the salt, has no source and sets the remember flag; an empty one reuses the last password with its source, or the saved one without, or nothing. |
| Logins.LoginConfigHandler.HandlePeerInfo | src/client.rs:2513-2566 | Which password is saved, removed or kept; the saved one is offered unless the password at hand is recognised as shared or personal. |
| LanPeers.HandleReceivedPeers | src/lan.rs:305-338 | The loop with its two mutable collections computes the step-by-step merge. |
| LanPeers.MergeIsComputed | src/lan.rs:305-338 | For any answers, all online, and distinct saved peers: the responders by latest answer, each with its answers' addresses and, if an answer of the same id under another name came before its first, those of its saved record; then the silent peers in their old order. |
| LanPeers.MergeIsMerged | src/lan.rs:315-325 | The responders have the addresses of this discovery only if and only if no key that comes second after a namesake has a saved address that it has not answered with. |
| LanPeers.OneNameIsEnough | src/lan.rs:315-325 | They do when every id answers under one user name. |
| LanPeers.MergeIsSound | src/lan.rs:315-325 | For any answers, all online, the list has no duplicates and loses nobody; exactly the responders are online, and which addresses each has. |
| LanPeers.MergeRecords | src/lan.rs:305-338 | Field by field: a responder is listed as its latest answer describes it, a silent peer as its saved record, offline. |
| LanPeers.MergedAppend | src/lan.rs:317-325 | One more answer moves its peer to the front and adds its addresses. |
| LanPeers.TwoNamesKeepOldAddresses | src/lan.rs:317-324 | An id that answers with one address under two user names brings back a saved address that nobody answered with. |
| UdpPunch.PunchUdp | src/common.rs:2132-2181 | Under every schedule the first event that decides (a timer past the limit, an error, a packet unless it is awaited and empty) gives the outcome, and there is none if and only if no event decides. |
| UdpPunch.FirstDecides | src/common.rs:2146-2178 | What follows that event changes neither the outcome nor the number of packets sent. |
| UdpPunch.EmptyPacketIsIgnored | src/common.rs:2170-2172 | While a packet is awaited an empty one changes nothing, wherever it comes. |
| UdpPunch.PacketsAreApart | src/common.rs:2147-2165 | Under every schedule only a timer within the limit sends a packet, and just when the interval has passed since the last one. |
| UdpPunch.OnePacketEach | src/common.rs:2136-2165 | Until an event decides, one packet has been sent at first and one more at each timer. |
| UdpPunch.PacketBound | src/common.rs:2146-2165 | Under every schedule that the loop's sleep allows, the p-th packet is sent no earlier than the intervals before it allow, from the seventh on 412 + 200 * (p - 7) ms after the start, and that is within the time limit. |
| UdpPunch.PacketLimit | src/common.rs:2146-2165 | No such schedule sends more than 104 packets. |
| UdpPunch.EveryTimerCounts | src/common.rs:2147-2165 | A timer sends a packet or finds the time limit passed: the test of the elapsed interval never fails. |
| UdpPunch.IntervalNeverShrinks | src/common.rs:2159-2162 | Under every schedule the retry interval is determined by the packets sent, never gets shorter and is at most 200 ms. |
| UdpPunch.BoundIsReached | src/common.rs:2146-2165 | A schedule without delays, which the sleep allows, sends exactly 104 packets before it times out. |
| Colours.Str2Color | src/common.rs:2215-2228 | The colour is alpha * 2^24 plus the polynomial in 31 over the octets, modulo 2^24, with bit 15 cleared. |
| VideoHandlers.LimitReached | src/client.rs:1583-1648 | After any run of frames and resets the counter is at least 3 if and only if the failures at the end reach back to the first frame since the reset or number at least 3. |
| VideoHandlers.CurrentStretch | src/client.rs:1583-1648 | The handler has the format that the events named last, and counts the outcomes of the frames since a reset or another format. |
| VideoHandlers.MarksGrow | src/client.rs:2900-2913 | The list of unsupported formats only grows, at its end, and never holds a duplicate. |
| VideoHandlers.LimitIsMarked | src/client.rs:2902-2911 | Once a frame brings the counter to the limit, the current format is on the list. |
| VideoHandlers.MarkedExactly | src/client.rs:2900-2913 | A format is listed if and only if it was before, or a frame of it found the decoder invalid or the limit reached. |
| VideoHandlers.VideoHandler.HandleFrame | src/client.rs:1583-1633 | How one frame changes format, counter and first-frame flag, and that the decoder's result or error is reported. |
| OnlineStates.QueryOnlineStates | src/client.rs:3972-4034 | The first of at most two replies that carries states is decoded; when the server cannot be reached everybody is offline. |
| OnlineStates.PackedAnswer | src/client.rs:4003-4025 | States packed from flags, in the first reply or the second, give the ids whose flag is set and those whose flag is not, in order. |
| OnlineStates.OtherAnswers | src/client.rs:4003-4034 | A missing reply or two other messages give no answer, and too few octets an index out of range. |
| OnlineStates.SelectPartitions | src/client.rs:4013-4021 | The two lists together are a permutation of the ids. |
| OnlineStates.PackRoundTrip | src/client.rs:4013-4021 | Decoding any most-significant-bit-first packing of a list of flags splits the ids by those flags. |

## Left out

- LowerCase.Lowered: the program gives a sigma at the end of a word a lower case of its own; both forms take two octets and neither is ASCII, so no result here depends on it.
- LicenceJson.Parse: asks for UTF-8 throughout, and refuses the array form of a record and unknown members whose values are not strings; the program's reader takes the first from an array and skips such values unread. No generated licence has any of these.
- CutNames.ReadBackExactly: that a cut name does not give the licence back rests on that reading of JSON, as `NameParts.NoProperPart` does and, for cut names, `PrintedNames.PrintedNameIsLost`; for names that are not cut, among them all of ASCII fields, nothing depends on it.
- AudioBuffers.RingBuffer.PushSliceOverwrite: the ring of the external crate is modelled by its documented behaviour with one head and a length; the crate's own index arithmetic is not part of this model.
- AudioFrames.FramesExactly: a packet of at most 100 ms holds a frame only at ten frames a second or more; below that not every bin of the histogram can occur, and only `FramesKept` holds.
- LanPeers.HandleReceivedPeers: the periodic writing of the list to disk and the notification of the user interface are not modelled.
- Sending contents to a new peer when a session starts, file lists on the clipboard, peers too old for several formats, and retries on an occupied clipboard (a failed read is one of the protocol's steps).
- Real threads and locks: each critical section is one atomic step, in any order.
- Audio decoding, resampling and channel conversion, which are external floating-point code; samples are opaque values. The wait of the output callback for late samples is left to the interleaving of appends and reads.
- The statistics clock is one per process in the program and one per buffer here.
- Login messages, two-factor codes and options; the sending of the login request itself.
- Recording of video frames, and the decoders themselves: a frame's outcome is an input.
- Connection set-up, relays, encryption, the service processes, scripts and the remaining user interface.
