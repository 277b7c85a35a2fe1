# zzz — a verified model of the clipboard manager's core

zzz is a clipboard manager for Wayland compositors that offer the
wlr-data-control protocol. It has two generations:

- **The daemon** (`main.c`) watches the selection of every data-control device.
  - When a selection is confirmed, it ranks the offered mime types against a line-based precedence list of regular expressions (`zzz_mimes`).
  - It records the best one as a numbered entry in `$XDG_STATE_HOME/zzz_clip/`: the mime type, a newline, then the payload.
  - In replace mode, it offers the latest entry again when the clipboard is cleared.
- **The replay tool** (`zzz_get.c`) offers a given history entry as the selection.
- **The newer pieces** (`pref_parse.c`, `read_config.c`, `zzz_list.c`) add a bracketed preference-tree language, its configuration file and a singly linked list.

This project models these pieces in Dafny and proves what they promise:

- `PrefParse` models `pref_parse.c` as methods over a parse state. Each method is proved equal to a recursive specification function. `PrefParseFacts` proves the parser's properties about those functions, including a round trip over written-out trees and concrete inputs that show its quirks.
- `ZzzList` models `zzz_list.c`. The list is a class over `Node` objects whose ghost fields record the node chain and its values.
- `ClipStore` models the history directory:
  - the function-static counter of `clip_fd`, as a class;
  - the directory scan;
  - entry paths;
  - the record layout and the first-line mime read.
- `Registry` models `registry_global`'s device guard (the same in both programs).
- `Daemon` models the rest of `main.c`:
  - the precedence-list loader;
  - `mime_score`;
  - the per-device mime list;
  - the choice and recording in `device_selection`.
- `ReadConfig` models `config_path` and `get_config`, including the chunked read loop and the built-in default text.
- `ZzzGet` models `zzz_get.c`'s start-up and its dispatch loop.
- `LibC` holds the C library behaviour the core relies on: `getenv`, `strtol`, `%ld` formatting and NUL-terminated strings. `Wrappers` holds `Option` and `Result`.

**What the model takes as inputs.** Regular expressions are parameters:

- `compiles(pattern)` stands for PCRE2 accepting a pattern;
- `matches(pattern, mime)` stands for a match.

The other inputs:

- The environment is a map.
- A directory listing is a sequence of names.
- A file's content is an `Option<string>`; `None` means it could not be opened.
- The Wayland events are the calls, or the sequence of announced globals, that a method receives.

**Behaviour of the code that the model keeps:**

- The built-in default text is `[(image/png image/jpeg image/*)(UTF8_STRING text/plain;charset=utf8 TEXT text/plain)]`. It contains `image/*` and no space between the groups. Because of `try_string`'s shifted copy (below), it parses to a tree whose last tokens are `" image/"` and `" text/plai"` (`ReadConfig.DefaultParses`).
- An unclosed bracket group leaves the cursor just after the opening bracket.
- `try_string` copies the bytes that end one byte before the final cursor. This is the token when exactly one whitespace character ends it. With more whitespace the copy differs from the token. When a bracket or the end of the text ends the token, the copy starts with the byte before the token, and it differs from the token unless that byte is a token character that repeats it (`aa` after a byte `a`).
- `zzz_get` does not stop when the entry cannot be opened. It reports the error and goes on with an empty mime type.
- The directory scan counts a name that is not a number as 0, because `strtol` returns 0 for it. Only `.` and `..` are skipped.
- Nothing checks that a selection event refers to the offer last announced.

## Model

| member | source | states |
|---|---|---|
| LibC.Strtol | main.c:112 | a name starting with a character that is not a space, a sign or a digit reads as 0; one starting with a digit reads as the value of its leading run of digits |
| LibC.DecimalString | main.c:124-127 | the `%ld` form of a counter is a non-empty run of digits |
| LibC.DecimalValue | main.c:124-127 | the digits of `%ld` have the counter's value |
| LibC.StrtolDecimal | main.c:112 | `strtol` reads back exactly the number `%ld` wrote, so a file name gives back its entry number |
| LibC.DecimalInjective | main.c:124-127 | different counters give different file names |
| LibC.PrefixBefore | read_config.c:55 | the C string seen by `strlen` (stop at NUL), and the mime line read by the replay loop (stop at newline): the longest prefix without the stop character, ending at the first stop or at the end |
| ZzzList.Reversed | zzz_list.c:40-49 | element i of the reversed list is element n-1-i of the original, with the same length |
| ZzzList.ReversedTwice | zzz_list.c:40-49 | reversing twice gives the list back |
| ZzzList.ReversedPrepend | zzz_list.c:23-29 | reversing a list built by one more prepend puts that value last |
| ZzzList.List.Empty | main.c:243 | the NULL list holds no nodes |
| ZzzList.List.Singleton | zzz_list.c:5-12 | a fresh one-node list holding the value |
| ZzzList.List.Prepend | zzz_list.c:23-29 | the contents become the value followed by the old contents; one fresh node heads the chain and the old nodes follow unchanged |
| ZzzList.List.Tail | zzz_list.c:31-38 | an empty list gives NULL and stays empty; otherwise the head value is returned and the list becomes its rest, with no node allocated |
| ZzzList.List.Reverse | zzz_list.c:40-49 | the contents and the node chain become their reversals; the set of nodes is unchanged |
| PrefParse.IsEof | pref_parse.c:7-9 | on a valid state, the end is reached exactly when the cursor sits at the text's length |
| PrefParse.PeekChar | pref_parse.c:11-14 | NUL exactly at the end of the text, otherwise the character under the cursor |
| PrefParse.StringContains | pref_parse.c:39-47 | true exactly when the character occurs in the string |
| PrefParse.WhitespaceRun | pref_parse.c:25-37 | the whitespace run is maximal: all of it is space, newline, carriage return or tab, and the character after it is not |
| PrefParse.TokenRun | pref_parse.c:53-56 | the token run is maximal: no whitespace and no bracket in it, and it stops at one or at the end |
| PrefParse.Window | pref_parse.c:61 | the copy has the requested length and is the text's slice when it starts inside the text |
| PrefParse.TryStringSpec | pref_parse.c:49-65 | fails without moving at the end of the text; fails when no token character is under the cursor; on success the copy is as long as the token and the cursor has advanced |
| PrefParse.ParseParen | pref_parse.c:90-117 | the cursor stays in the text; success advances it; failure leaves it where it was or just after the opening bracket |
| PrefParse.ParsePref | pref_parse.c:119-142 | the cursor stays in the text and every success advances it |
| PrefParse.TryChar | pref_parse.c:16-23 | advances by exactly one when the character under the cursor is `c`, and otherwise leaves the cursor unchanged |
| PrefParse.TakeWhitespace | pref_parse.c:25-37 | moves the cursor past the maximal whitespace run and says whether it moved |
| PrefParse.TryString | pref_parse.c:49-65 | its loop leaves the result and cursor of TryStringSpec |
| PrefParse.TryChildren | pref_parse.c:95-102 | the prepend-then-reverse loop yields the children of ParseChildren, in source order |
| PrefParse.ParenClosed | pref_parse.c:104-106 | a closed group gives its children and consumes the whitespace after the closing bracket |
| PrefParse.ParenUnclosed | pref_parse.c:107-116 | a group with no closing bracket fails with the cursor just after the opening bracket |
| PrefParse.TryParenPref | pref_parse.c:90-117 | the method leaves the result and cursor of ParseParen |
| PrefParse.TryMimePref | pref_parse.c:119-142 | the method leaves the result and cursor of ParsePref: `[]` first, then `()`, then a token |
| PrefParse.ParseMimePrefs | pref_parse.c:144-152 | skips leading whitespace and parses one pref, as ParseText does |
| PrefParseFacts.TryStringStops | pref_parse.c:53 | try_string stops at the end of the text or before a non-whitespace character |
| PrefParseFacts.TryStringCopy | pref_parse.c:53-62 | the copy is the token when exactly one whitespace character ends it; otherwise, if the byte before the token is not a token character, it is not the token |
| PrefParseFacts.CopyAfterWhitespace | pref_parse.c:53-62 | for a token ended by whitespace, the copy equals the token if and only if exactly one whitespace character follows it |
| PrefParseFacts.CopyAtStop | pref_parse.c:53-62 | a token ended by a bracket or by the end is copied starting one byte early, so the copy differs from it |
| PrefParseFacts.TryStringOneSpace | pref_parse.c:49-65 | a token followed by one space is returned as is, and the cursor ends after the space |
| PrefParseFacts.ParenOutcome | pref_parse.c:90-117 | with no opening bracket the group fails without moving; once it is consumed, failure leaves the cursor after it and success passes all trailing whitespace |
| PrefParseFacts.PrefTag | pref_parse.c:119-142 | STORE_ALL_MATCHING comes from `[`; STORE_FIRST_MATCHING comes from `(`, possibly after an abandoned `[`; a SINGLE_MIME regex is never empty |
| PrefParseFacts.PrefStopsAtCloser | pref_parse.c:119-142 | at a closing bracket try_mime_pref fails without moving |
| PrefParseFacts.BlankTextFails | pref_parse.c:144-152 | empty or whitespace-only text does not parse |
| PrefParseFacts.TrailingTextIgnored | pref_parse.c:144-152 | `a b` parses as `a`: the text after the first pref is not looked at |
| PrefParseFacts.LeadingTokenReadsPriorByte | pref_parse.c:61 | `ab` gives the byte before the text followed by `a` |
| PrefParseFacts.RepeatedByteCopiedExactly | pref_parse.c:61 | `aa` after a byte `a` is ended by the end of the text, not by one space, and still parses as itself |
| PrefParseFacts.UnclosedBracketBacktracks | pref_parse.c:107-116 | `[a` parses as the token `[`, copied from the abandoned bracket onward |
| PrefParseFacts.UnclosedBracketSkipped | pref_parse.c:119-142 | `[(a )` parses as the `(a)` group: the unclosed `[` is passed over |
| PrefParseFacts.ChildrenCons | pref_parse.c:97-101 | a parsed pref followed by the parsed rest gives the children list with that pref first |
| PrefParseFacts.PrefSerialized | pref_parse.c:90-142 | any well-formed pref written out with one space after each token and closing bracket parses back to itself, with the cursor after it |
| PrefParseFacts.ChildrenSerialized | pref_parse.c:95-102 | written-out children parse back in source order |
| PrefParseFacts.ParenSerialized | pref_parse.c:90-117 | a written-out bracket group parses back to its children |
| PrefParseFacts.ParseSerialized | pref_parse.c:144-152 | any well-formed tree, written out and followed by non-whitespace text, parses back to itself |
| ClipStore.StateDir | main.c:71-83 | XDG_STATE_HOME when set, else HOME followed by `/.local/state`; exit status 2 exactly when neither is set |
| ClipStore.MaxEntry | main.c:105-116 | the scan result is at least -1, at least every `strtol` value of a name other than `.` and `..`, and is one of them unless it is -1 |
| ClipStore.WordNameCountsAsZero | main.c:105-116 | a listing holding only `.`, `..` and a name that is not a number scans to entry 0 |
| ClipStore.ScanMax | main.c:105-116 | the running-maximum loop gives MaxEntry |
| ClipStore.DenseHistory | main.c:105-120 | a directory holding entries 0 to N-1 scans to N-1, so the first append writes entry N |
| ClipStore.DistinctEntries | main.c:124-127 | different entry numbers name different files |
| ClipStore.ClipHistory.constructor | main.c:65-67 | the counter starts at -1 and the directory is not yet known |
| ClipStore.ClipHistory.ClipFd | main.c:64-138 | exit status 2 with neither XDG_STATE_HOME nor HOME; the directory is found once; the counter is the scan maximum, pre-incremented on append; a replay with counter -1 gives no entry; the file is the directory followed by the counter in decimal |
| ClipStore.SuccessiveAppends | main.c:119-127 | two appends in one process take the number after the scan maximum, then the next one, and never share a file |
| LibC.PrefixBeforeUnique | main.c:343 | any prefix without the stop character that ends at a stop or at the end is that prefix |
| ClipStore.Record | main.c:328-330 | an entry is the mime type, one newline, then the payload, and nothing else |
| ClipStore.RecordRoundTrip | main.c:327-330 | the first line of a record is its mime type, and the payload follows the newline |
| ClipStore.ReadMime | main.c:340-344 | the byte-at-a-time read yields the first line, without the newline |
| Registry.DeviceInfo.constructor | main.c:440-446 | seat, manager and device all start unset |
| Registry.DeviceInfo.RegistryGlobal | main.c:369-384 | binds a seat or manager; the device is created exactly when it did not exist and both are bound |
| Daemon.MimesPath | main.c:141-157 | XDG_CONFIG_HOME followed by `/zzz_mimes` when set, else HOME followed by `/.config/zzz_mimes`; exit status 2 exactly when neither is set |
| Daemon.LineEnd | main.c:171-176 | the line ends at the first newline or at the end of the file |
| Daemon.LinesJoined | main.c:167-200 | non-empty lines without newlines, written one per line, read back as themselves in file order, whatever follows an empty line or the end |
| Daemon.ArrivalOrder | main.c:197-201 | reversing the prepend-built list gives the values in the order they were read |
| Daemon.EntriesAt | main.c:179-197 | entry k of the list is line k's pattern, or the marker for `UNKNOWN` |
| Daemon.AllCompileAt | main.c:183-196 | every line compiles or is `UNKNOWN` exactly when no line is rejected |
| Daemon.PrecedenceOfMeaning | main.c:167-201 | loading fails exactly when some line before the first empty one does not compile; the failure is exit status 3; on success entry k comes from line k |
| Daemon.PrecedenceOfLines | main.c:167-201 | a file of compiling or `UNKNOWN` lines, then the end or an empty line, loads to their entries in file order, the marker exactly for `UNKNOWN` |
| Daemon.EntriesStep | main.c:180-197 | prepending the next line's entry keeps the list equal to the lines read so far, latest first |
| Daemon.LoadFromMeaning | main.c:167-201 | the loader from any point finishes as the line-based outcome of the lines that are left |
| Daemon.LoadMeaning | main.c:164-201 | loading the whole file is PrecedenceOf |
| Daemon.ReadLine | main.c:168-176 | the character loop stops at the newline or the end and keeps the bytes before it |
| Daemon.LoadPrecedence | main.c:164-201 | the loop gives PrecedenceOf the file's content |
| Daemon.MimeRegexes | main.c:140-204 | exit status 2 when the path or the file is missing; otherwise the list loaded from the file |
| Daemon.FirstMatch | main.c:252-278 | the first entry whose pattern matches; no earlier entry matches; none when nothing matches |
| Daemon.LastUnknown | main.c:254-255 | the last `UNKNOWN` marker: all later entries are patterns; none when there is no marker |
| Daemon.Score | main.c:247-280 | when some pattern matches, the index of the first one that does; otherwise, when there is an `UNKNOWN` marker, the index of the last one; otherwise INT_MAX |
| Daemon.MimeScore | main.c:247-280 | the loop gives the first match, else the last marker, else INT_MAX |
| Daemon.RankAt | main.c:316-317 | the rank of the k-th offered type is its score |
| Daemon.RanksScores | main.c:316-317 | every rank is the score of its type |
| Daemon.ChoiceFromBest | main.c:314-323 | the running choice keeps the earliest strictly lowest rank below INT_MAX |
| Daemon.ChoiceMeaning | main.c:314-324 | nothing is chosen exactly when every type scores INT_MAX or more; otherwise the earliest of the lowest ranks is chosen |
| Daemon.ChooseMime | main.c:313-323 | the walk over the list picks the type at Choice of the ranks |
| Daemon.RecordChoice | main.c:324-334 | nothing happens when nothing is chosen; otherwise the chosen type gets a new entry: exit status 2 without a state directory, else the directory is the one found before or `zzz_clip/` under the state directory, the counter becomes the scan maximum (first call) or its old value, plus one, and the entry is that number at its path in that directory, opened for writing |
| Daemon.RestoreLatest | main.c:335-350 | exit status 2 without a state directory; otherwise the directory is the one found before or `zzz_clip/` under the state directory and the counter is unchanged (the scan maximum on the first call); the entry at the counter is offered again under its first line exactly when the counter is not -1 and its file opens |
| Daemon.ReplayAfterStart | main.c:335-350 | the first replay after start-up offers the entry with the largest number in the directory listing, at its path under the state directory, when it exists and opens; nothing otherwise; exit status 2 without a state directory |
| Daemon.DeviceState.constructor | main.c:379-382 | a new device's mime list holds no type; the block the code stores there is freed and replaced by device_offer or device_finished before any read the model covers |
| Daemon.DeviceState.DeviceOffer | main.c:239-245 | a data offer starts an empty list |
| Daemon.DeviceState.OfferNewOffer | main.c:214-220 | each announced type is prepended |
| Daemon.DeviceState.OfferEvents | main.c:214-245 | after a data offer and its types the list holds them latest first, so reversing it gives arrival order |
| Daemon.DeviceState.DeviceSelection | main.c:309-352 | with an offer, reverses the list and appends a new entry for the chosen type, if any, at counter plus one in the history directory; with a cleared selection in replace mode, offers the entry at the current counter again when there is one and its file opens, or exits with status 2; otherwise does nothing |
| Daemon.DeviceState.DeviceFinished | main.c:354-360 | the device is gone, the list is empty, and seat and manager are kept |
| ReadConfig.ConfigPath | read_config.c:11-33 | XDG_CONFIG_HOME followed by `/zzzclip` when set, else HOME followed by `/.config/zzzclip`; EXIT_FAILURE exactly when neither is set |
| ReadConfig.ConfigBesideMimes | read_config.c:11-33 | the config path is XDG_CONFIG_HOME, else HOME plus `/.config`, followed by `/zzzclip`; it exists exactly when the daemon's `zzz_mimes` path does, beside it |
| ReadConfig.ReadChunks | read_config.c:40-53 | the loop ends after reading the whole file; the capacity always exceeds the length and stays under twice the length plus a chunk; the buffer starts with the last partial chunk, and is the whole file when it is at most one chunk |
| ReadConfig.NextHead | read_config.c:48 | each read overwrites the start of the buffer with the bytes read |
| ReadConfig.TokenThenSpace | pref_parse.c:49-65 | a plain token followed by one space parses as itself |
| ReadConfig.TokenThenCloser | pref_parse.c:49-65 | a plain token ended by a closing bracket parses as the bytes from one before it |
| ReadConfig.DefaultTextLayout | read_config.c:66-68 | where the brackets, tokens and spaces of the default text lie |
| ReadConfig.ImagesGroup | read_config.c:67 | the first group of the default text parses to `image/png`, `image/jpeg`, `" image/"` |
| ReadConfig.TextsGroup | read_config.c:68 | the second group parses to `UTF8_STRING`, `text/plain;charset=utf8`, `TEXT`, `" text/plai"` |
| ReadConfig.LayoutParses | read_config.c:66-70 | any text laid out as the default parses to DefaultPref |
| ReadConfig.DefaultParses | read_config.c:64-71 | the default text has no NUL and parses, so the assertion holds, to DefaultPref |
| ReadConfig.GetConfig | read_config.c:35-73 | EXIT_FAILURE without a path; the parsed file (of at most one chunk) when it opens and parses; EXIT_FAILURE for a corrupt file; DefaultPref when the file does not open |
| ZzzGet.ClipFilename | zzz_get.c:123-131 | the file zzz_get opens is its argument inside the daemon's history directory |
| ZzzGet.PathAgreement | zzz_get.c:123-131 | the file opened for the argument `decimal(n)` is the daemon's file for entry n |
| ZzzGet.Start | zzz_get.c:102-142 | exit status 1 unless exactly one argument; exit status 2 with no state directory; otherwise the entry's path and its first line as mime type, or an empty one when the file does not open |
| ZzzGet.DispatchLoop | zzz_get.c:163-173 | at most one source is created, exactly when both seat and manager have been announced, and right after the dispatch that completed them |

## Left out

- Wayland transport, protocol objects and listeners are not modelled. This covers `wl_display_*`, binding, `receive`, `roundtrip`, `set_selection` and the daemon's dispatch loop. Events are method calls, or a sequence of announced globals.
- PCRE2 compile and match are foreign code. They are the parameters `compiles` and `matches`; the anchoring and partial-match flags are not modelled.
- File and directory I/O is not modelled: `open`, `read`, `write`, `lseek`, `mkdir`, `opendir`, `fopen`. Listings and contents are inputs. Writing the record is stated by ClipStore.Record, not performed.
- `sauce_send` and `send` byte pumping, and the `cancelled` handlers, are I/O.
- `getopt` option handling and the daemon's `main` are not modelled; replace mode is a parameter.
- Memory management is not modelled: `free_pref`, `zzz_list_free`, and the node leaked by `zzz_list_prepend`.
- `zzz_list_copy` is declared but never defined, so there is nothing to model.
- `registry_remove` compares against names that are never assigned, so it is not modelled.
- The preference-tree matcher has no implementation to model.
- Daemon.LoadPrecedence: `strcmp` on a line buffer that is not NUL-terminated is modelled as comparing the line read.
- ReadConfig.ConfigPath: the uninitialised `strcat` target on the HOME path is modelled as starting empty.
- ClipStore.ReadMime and ZzzGet.Start: the unchecked 256-byte mime buffer is a precondition: the first line is shorter than 256 bytes.
- ReadConfig.GetConfig: requires a file of at most one chunk (1024 bytes). Each read writes at the start of the buffer, so a longer file leaves bytes that were never read in the text (ReadChunks states only what the loop does to the buffer's start).
- ReadConfig.GetConfig: the side-effecting `assert` is modelled with assertions enabled; under NDEBUG the default pref would not be parsed.
- ClipStore.ClipHistory.ClipFd: an unreadable directory after `opendir` fails is not modelled. The overflow of the `long` counter past LONG_MAX is not modelled either.
- LibC.Strtol: returns the unbounded value of the digits; the clamp to LONG_MIN and LONG_MAX and the `errno` it sets are not modelled, so a name of more than 19 digits reads as its full value.
- ZzzGet.Start: `errno` left set by earlier calls is not modelled; only the open failure is.
- Daemon.DeviceState.constructor: the `calloc`ed block stored as the first mime list is modelled as an empty list. `zzz_list_free` reads it as a node, past the end of the block, when device_offer or device_finished replaces it; that memory access is not modelled.
- ZzzGet.DispatchLoop: each dispatch delivers one registry global; other events do not affect the guard.
- Daemon.LoadPrecedence: the line buffer's capacity doubling is memory management, so the line is a string.
- Nothing here models display connection failure (exit status 1) or the `primary_selection` event, which the code ignores.
