# vaporlight: configuration store, white-point console and client framing

A Dafny model of the core of vaporlight, a system of networked RGBW LED
boards. It covers two parts.

- **Board firmware.**
  - `config.c` keeps the board's configuration record in one flash page. The
    page is divided into eight slots, each with a status word (FREE, IN_USE,
    OLD). `save_config` writes into the first FREE slot, retires the previous
    IN_USE slot and promotes the new one; when no slot is free it erases the
    page and starts over. `load_config` reads the first IN_USE slot.
    `config_valid` checks the address, the LED permutation and the LED colours.
  - `console_wp.c` is the white-point console. Its keys move a cursor over the
    16 LEDs, switch between the white-correction line and the brightness line,
    and nudge or overwrite the selected value.
- **C++ client library.**
  - `rgba_color.cpp` parses and prints hex colour codes and orders colours.
  - `colors.cpp` reads a comma-separated list of colour names, colour-set names
    and codes into a sorted set without duplicates.
  - `client.cpp` frames SET_LED, AUTHENTICATE and STROBE commands into the
    bytes sent to a board server.

Modules, one per component:
- `Words`: fixed-width integers and Option.
- `ConfigRecord`: the record and its 16-bit word layout.
- `FlashDevice`: the flash controller, with a fault oracle.
- `ConfigStore`: load and save.
- `ConfigCheck`: config_valid.
- `ConsoleWp`, `RgbaColor`, `Colors` and `Client`.

Code that updates state in place is modelled with classes and methods:
- the flash page is an `array`;
- the store, the console and the client objects are classes;
- the loops of the source are `while`/`for` loops with invariants.

Each method is proved against specification functions: `Loaded`, `SavedPage`,
`Step`, `Collected`, `SetLedsBytes` and others. The lemmas state the
properties of these functions: what load returns after a save, the order of
colours, the bytes a frame decodes to, and so on.

Behaviour of the save path that the model makes explicit:
- `save_config` marks the previous slot OLD before it marks the new slot
  IN_USE (config.c:230-234). A failure at config.c:233 can therefore leave
  no slot IN_USE: after it, load finds either nothing or the new record
  (`ConfigStore.PromoteFailure`).
- A save into a full page erases the page before it copies the record
  (config.c:204-211). If the copy then fails (config.c:222), the stored
  configuration is lost: load finds nothing, even if a record loaded
  before the save (`ConfigStore.FullPageCopyFailureLosesConfig`).
- Slots are used in increasing order between erases and never rewritten in
  place; any ENTRY_COUNT + 1 saves in a row erase the page at least once
  (`ConfigStore.SlotsRunOutAfterEntryCountSaves`), and an erased page takes
  exactly ENTRY_COUNT saves before the next erase
  (`ConfigStore.ErasedPageTakesEntryCountSaves`).
- After any failure other than a failed erase, a page with at most one
  IN_USE slot still has at most one (`ConfigStore.SaveOutcome`, stated by
  `ConfigStore.Store.SaveConfig`).

## Model

| member | source | states |
|---|---|---|
| ConfigRecord.UnpackPackBytes | vaporware/led-boards/config.c:216-221 | reading back the half-words of a byte array gives the bytes again |
| ConfigRecord.PackUnpackBytes | vaporware/led-boards/config.c:216-221 | the byte view of any half-words packs back to the same half-words |
| ConfigRecord.UnpackPackLongs | vaporware/led-boards/config.c:216-221 | 32-bit colour words survive being split into two half-words and rejoined |
| ConfigRecord.PackUnpackLongs | vaporware/led-boards/config.c:216-221 | any even run of half-words rejoins to 32-bit words that split back into it |
| ConfigRecord.Encode | vaporware/led-boards/config.c:216-221 | the record's half-word image is RECORD_WORDS (61) words; its LED bytes and colour words read back from their half-words |
| ConfigRecord.Decode | vaporware/led-boards/config.c:81 | the record read from a slot packs back to the slot's LED and colour half-words |
| ConfigRecord.DecodeEncode | vaporware/led-boards/config.c:214-223 | a record copied out as half-words and read back as a slot is the same record |
| ConfigRecord.EncodeDecode | vaporware/led-boards/config.c:81 | every 61-word slot image is the word image of the record read from it |
| ConfigRecord.ErasedSlotDecodes | vaporware/led-boards/config.c:44-54 | an all-0xffff slot reads as the record the page initialiser describes |
| ConfigStore.EntryCountFitsPage | vaporware/led-boards/config.c:32-37 | ENTRY_COUNT is the page size over record-plus-status size (8), and the slots fit the page |
| ConfigStore.SlotsDisjoint | vaporware/led-boards/config.c:38-42 | the record areas of two different slots do not overlap |
| ConfigStore.FirstBelow | vaporware/led-boards/config.c:64-70 | the first slot with a given status, or -1 exactly when there is none |
| ConfigStore.LastBelow | vaporware/led-boards/config.c:185-188 | the last slot with a given status, or -1 exactly when there is none |
| ConfigStore.FindInUse | vaporware/led-boards/config.c:64-70 | the load scan finds the first IN_USE slot, or -1 |
| ConfigStore.ScanSlots | vaporware/led-boards/config.c:185-194 | the save scan finds the last IN_USE slot and the first FREE slot |
| ConfigStore.VerifyErased | vaporware/led-boards/config.c:157-165 | succeeds exactly when every word of the page reads 0xffff |
| ConfigStore.Store.constructor | vaporware/led-boards/config.c:15-21 | the RAM configuration starts as the built-in default |
| ConfigStore.Store.LoadConfig | vaporware/led-boards/config.c:62-84 | copies the first IN_USE slot's record into RAM, or returns E_NOCONFIG and leaves RAM as it was |
| ConfigStore.Store.FlashWriteCheck | vaporware/led-boards/config.c:133-144 | programs one word; succeeds exactly when the controller raised no error and the word reads back as written |
| ConfigStore.Store.FlashEraseConfigPage | vaporware/led-boards/config.c:149-168 | erases the page; succeeds exactly when there was no error flag and every word reads 0xffff |
| ConfigStore.Store.FindFreeSlot | vaporware/led-boards/config.c:180-212 | finds the first FREE slot, erasing the page once when there is none; the resulting page is SaveBase of the old one, and after a failed erase it is the image that erase left; it succeeds only if the erase, when there was one, raised no error flag |
| ConfigStore.Store.CopyRecord | vaporware/led-boards/config.c:214-223 | writes the record words into one slot; on failure no word outside that slot has changed; it succeeds only if none of its writes raised the error flag |
| ConfigStore.Store.WriteRecord | vaporware/led-boards/config.c:180-223 | after a copy failure, load returns what it returns on SaveBase of the old page: the old record when a slot was free, nothing when the page had to be erased; success means no command raised the error flag |
| ConfigStore.Store.MarkStatuses | vaporware/led-boards/config.c:229-234 | marks the previous slot OLD (only when there is one) and then the new slot IN_USE; says which words changed if either write fails; success means neither write raised the error flag |
| ConfigStore.Store.MarkStatusesAsWritten | vaporware/led-boards/config.c:229-234 | as written, with no previous slot it programs the word before entry_status[0]; success means neither write raised the error flag |
| ConfigStore.Store.SaveConfig | vaporware/led-boards/config.c:173-243 | on success the page is SavedPage of the old page; after a failed erase the page is what the erase left; after a failed copy, retire or promote, load sees what SaveOutcome says (old record, new record or nothing) and at most one slot stays IN_USE; a save that returns Success issued no command that raised the controller's error flag, so any reported error makes it return FlashWrite |
| ConfigStore.Store.SaveConfigAsWritten | vaporware/led-boards/config.c:173-243 | the page as the corrected save leaves it, with the same SaveOutcome after each failure, plus one write outside the page whenever no slot was IN_USE; any reported controller error makes it return FlashWrite |
| ConfigStore.OnlyInUse | vaporware/led-boards/config.c:64-81 | with exactly one IN_USE slot, load returns that slot's record |
| ConfigStore.FirstInUse | vaporware/led-boards/config.c:64-81 | load returns the record of the first IN_USE slot |
| ConfigStore.NoneInUse | vaporware/led-boards/config.c:76-79 | with no IN_USE slot, load finds no configuration |
| ConfigStore.AtMostOneKeptByErase | vaporware/led-boards/config.c:204-212 | the erase-and-retry step keeps "at most one slot IN_USE" |
| ConfigStore.CopyFailureKeepsLoad | vaporware/led-boards/config.c:220-222 | damage confined to a FREE slot's record does not change what load returns, and keeps at most one slot IN_USE |
| ConfigStore.RetireFailure | vaporware/led-boards/config.c:230-231 | a failed retire write leaves load returning the old record or nothing, and at most one slot IN_USE |
| ConfigStore.PromoteFailure | vaporware/led-boards/config.c:233-234 | a failed promote write leaves load returning nothing or the new record, and at most one slot IN_USE |
| ConfigStore.MarkOutcome | vaporware/led-boards/config.c:229-234 | wherever the status writes stop, the page meets SaveOutcome: the saved page, or a page loading the old record, the new one or nothing, with at most one slot IN_USE |
| ConfigStore.SaveThenLoad | vaporware/led-boards/config.c:173-243 | after a successful save, load returns the saved record and at most one slot is IN_USE |
| ConfigStore.SaveTouchesOnlyTwoSlots | vaporware/led-boards/config.c:214-234 | a save writes the new slot and retires the old one; every other status word and record stays the same |
| ConfigStore.FullPageCopyFailureLosesConfig | vaporware/led-boards/config.c:204-222 | a save into a page with no FREE slot erases it first, so a copy failure afterwards leaves nothing to load |
| ConfigStore.FailedEraseCanBreakInvariant | vaporware/led-boards/config.c:149-168 | an erase that leaves two status words stuck at IN_USE breaks "at most one slot IN_USE" |
| ConfigStore.SaveUsesIncreasingSlots | vaporware/led-boards/config.c:185-234 | a save writes its record into a slot that was FREE, and afterwards that slot and all before it are not FREE, so the next save uses a later slot or erases |
| ConfigStore.SaveAdvancesNextFree | vaporware/led-boards/config.c:185-194 | a save into a page with a FREE slot moves the first FREE slot strictly forward |
| ConfigStore.SavesWithoutErase | vaporware/led-boards/config.c:185-212 | a run of saves with no erase uses one slot each, so it is no longer than the number of slots from the first FREE one |
| ConfigStore.SlotsRunOutAfterEntryCountSaves | vaporware/led-boards/config.c:204-212 | any ENTRY_COUNT + 1 consecutive saves, from any page, erase the page at least once |
| ConfigStore.SaveTakesNextSlot | vaporware/led-boards/config.c:185-234 | on a page whose slots from the first FREE one on are all FREE, a save takes exactly that slot and keeps the rest FREE |
| ConfigStore.SavesFillInOrder | vaporware/led-boards/config.c:185-234 | on such a page, saves up to the last slot erase nothing and use consecutive slots |
| ConfigStore.ErasedPageTakesEntryCountSaves | vaporware/led-boards/config.c:204-212 | an erased page takes ENTRY_COUNT saves without an erase, after which no slot is FREE and the next save erases |
| ConfigStore.RetryFindsFirstSlotFree | vaporware/led-boards/config.c:204-212 | after the erase, the retry finds slot 0 free and no slot IN_USE |
| ConfigStore.ErasedPageScenario | vaporware/led-boards/config.c:44-54 | a blank page loads nothing; saving into it makes the record load |
| ConfigStore.LoadedAgreesUpTo | vaporware/led-boards/config.c:64-70 | load depends only on the statuses up to the first IN_USE slot and on that slot's record |
| ConfigStore.TwoInUseHidesSave | vaporware/led-boards/config.c:181-194 | on a page with two IN_USE slots, a successful save retires only the last one, so load still returns the first slot's old record instead of the saved one |
| FlashDevice.Flash.Program | vaporware/led-boards/config.c:136-138 | one program command: the addressed word holds the value or its fault value, and writes outside the page are logged |
| FlashDevice.Flash.ErasePage | vaporware/led-boards/config.c:150-154 | one erase command: the page is erased apart from the words the fault leaves stuck |
| ConfigCheck.ConfigValid | vaporware/led-boards/config.c:268-309 | returns 1 exactly when the record is valid; the messages are the diagnostics in the order they are printed |
| ConfigCheck.CountLeds | vaporware/led-boards/config.c:283-289 | led_seen[v] counts the occurrences of v in physical_led |
| ConfigCheck.CheckLedSeen | vaporware/led-boards/config.c:290-295 | one permutation message per LED index not seen exactly once; ok exactly when each is seen once |
| ConfigCheck.CheckColors | vaporware/led-boards/config.c:298-306 | one colour message per illegal colour; ok exactly when every colour is RED, GREEN, BLUE or WHITE |
| ConfigCheck.PermutationMessages | vaporware/led-boards/config.c:290-295 | there are no permutation messages exactly when every index below n occurs once |
| ConfigCheck.ColorMessages | vaporware/led-boards/config.c:298-306 | there are no colour messages exactly when the first n colours are legal |
| ConfigCheck.CountsAreOneIffBijection | vaporware/led-boards/config.c:281-295 | "every counter is 1" holds exactly when physical_led is a permutation of 0..15 |
| ConfigCheck.BijectionIsOnto | vaporware/led-boards/config.c:281-282 | a valid permutation reaches every LED index |
| ConfigCheck.ValidIffQuiet | vaporware/led-boards/config.c:262-309 | valid exactly when nothing is printed apart from the broadcast warning |
| ConfigCheck.DefaultConfigValid | vaporware/led-boards/config.c:15-21 | the default configuration is valid and prints nothing |
| ConfigCheck.ErasedEntryInvalid | vaporware/led-boards/config.c:44-54 | a blank slot's record is invalid, through its permutation and its colours |
| ConsoleWp.Inc16UnlessOverflow | vaporware/led-boards/console_wp.c:80-87 | adds delta when the sum stays within 0..0xffff, else leaves the word as it was |
| ConsoleWp.Inc8UnlessOverflow | vaporware/led-boards/console_wp.c:89-96 | adds delta when the sum stays within 0..0xff, else leaves the byte as it was |
| ConsoleWp.ToI8 | vaporware/led-boards/console_wp.c:108-110 | the signed 8-bit reading of a byte, congruent to it modulo 256 |
| ConsoleWp.Toggle | vaporware/led-boards/console_wp.c:199-205 | TAB always switches to the other line |
| ConsoleWp.Adjusted | vaporware/led-boards/console_wp.c:98-121 | inc_selected keeps the cursor and the line and keeps the panel well formed |
| ConsoleWp.Edited | vaporware/led-boards/console_wp.c:153-167 | the direct edit keeps the cursor and the line and keeps the panel well formed |
| ConsoleWp.Step | vaporware/led-boards/console_wp.c:187-240 | any key keeps the panel well formed; a key without a binding changes nothing |
| ConsoleWp.WpConsole.constructor | vaporware/led-boards/console_wp.c:17-26 | cursor on LED 0, the white-point line, every brightness 0xff |
| ConsoleWp.WpConsole.IncSelected | vaporware/led-boards/console_wp.c:98-121 | the console state after inc_selected is Adjusted of the state before |
| ConsoleWp.WpConsole.RunDirectEdit | vaporware/led-boards/console_wp.c:123-168 | the console state after the edit is Edited of the state before |
| ConsoleWp.WpConsole.RunCommandWp | vaporware/led-boards/console_wp.c:187-255 | returns 0, asks for the prompt exactly on 'q', and the new state is Step of the old one |
| ConsoleWp.SelectionStaysInRange | vaporware/led-boards/console_wp.c:206-217 | the cursor stays within 0..15; d/l and a/h move it by one unless at the edge |
| ConsoleWp.TabTwice | vaporware/led-boards/console_wp.c:199-205 | TAB changes the line, and pressing it twice restores the panel |
| ConsoleWp.WhitepointTouchesOneWord | vaporware/led-boards/console_wp.c:103-106 | on the white-point line, editing keys change only the selected LED's correction word |
| ConsoleWp.BrightnessTouchesOneLed | vaporware/led-boards/console_wp.c:107-111 | on the brightness line, every key changes only the selected brightness and leaves the configuration alone; keys other than the direct edit 'e' move it by at most one |
| ConsoleWp.CoarseKeysSkipBrightness | vaporware/led-boards/console_wp.c:108-111 | the ±0x100 keys do nothing on the brightness line |
| ConsoleWp.UpThenDown | vaporware/led-boards/console_wp.c:218-229 | 'k' then 'j' restores the panel unless the step up was stopped at the top |
| ConsoleWp.ParseFailureKeepsState | vaporware/led-boards/console_wp.c:153-156 | input that does not parse is ignored |
| ConsoleWp.DirectEditStores | vaporware/led-boards/console_wp.c:158-167 | a parsed value is stored in the selected word, or in the selected brightness when it is at most 0xff |
| RgbaColor.HexToByte | vaporware/language_bindings/cpp/src/lib/rgba_color.cpp:92-113 | fails exactly on a non-hex character; the byte's two printed digits are the inputs in lower case |
| RgbaColor.HexToByteIgnoresCase | vaporware/language_bindings/cpp/src/lib/rgba_color.cpp:98-110 | upper- and lower-case digits give the same byte |
| RgbaColor.HexToBytePrinted | vaporware/language_bindings/cpp/src/lib/rgba_color.cpp:92-113 | the two printed digits of a byte parse back to that byte |
| RgbaColor.StripHash | vaporware/language_bindings/cpp/src/lib/rgba_color.cpp:33-35 | at most one leading '#' is removed |
| RgbaColor.FromCode | vaporware/language_bindings/cpp/src/lib/rgba_color.cpp:32-48 | succeeds exactly for 6 or 8 hex digits after an optional '#'; the 6-digit form keeps the prior alpha |
| RgbaColor.Equal | vaporware/language_bindings/cpp/src/lib/rgba_color.cpp:51-57 | true exactly when all four channels agree |
| RgbaColor.NotEqual | vaporware/language_bindings/cpp/src/lib/rgba_color.cpp:59-61 | true exactly when some channel differs |
| RgbaColor.Less | vaporware/language_bindings/cpp/src/lib/rgba_color.cpp:63-89 | no colour is less than an equal one, and a differing alpha alone decides the order |
| RgbaColor.KeyInjective | vaporware/language_bindings/cpp/src/lib/rgba_color.cpp:63-89 | two colours with the same alpha-red-green-blue number are equal |
| RgbaColor.LessIsKeyOrder | vaporware/language_bindings/cpp/src/lib/rgba_color.cpp:63-89 | operator< compares alpha, red, green, blue lexicographically |
| RgbaColor.LessIsStrictTotalOrder | vaporware/language_bindings/cpp/src/lib/rgba_color.cpp:63-89 | operator< is irreflexive, transitive and total, and agrees with operator== |
| RgbaColor.Print | vaporware/language_bindings/cpp/src/lib/rgba_color.cpp:116-123 | '#' followed by eight lower-case hex digits |
| RgbaColor.ParsePrint | vaporware/language_bindings/cpp/src/lib/rgba_color.cpp:32-48 | a printed colour parses back to the same colour, alpha included |
| RgbaColor.PrintParse | vaporware/language_bindings/cpp/src/lib/rgba_color.cpp:116-123 | '#' plus eight lower-case hex digits is exactly how the colour it spells prints |
| Colors.StrToCol | vaporware/language_bindings/cpp/src/util/colors.cpp:57-65 | a colour name gives its colour; anything else is parsed as a code |
| Colors.NamesAreNotCodes | vaporware/language_bindings/cpp/src/util/colors.cpp:28-32 | no colour name is also a valid hex code, so a name never shadows a code |
| Colors.Insert | vaporware/language_bindings/cpp/src/util/colors.cpp:46-51 | the inserted colour is in the result, every earlier element stays, and the sequence grows by at most one |
| Colors.InsertSpec | vaporware/language_bindings/cpp/src/util/colors.cpp:46-51 | set insertion keeps the sequence strictly increasing and adds exactly the colour |
| Colors.IncreasingIsSorted | vaporware/language_bindings/cpp/src/util/colors.cpp:54 | the returned vector is sorted by operator< |
| Colors.IncreasingUnique | vaporware/language_bindings/cpp/src/util/colors.cpp:54 | two increasing sequences with the same elements are the same sequence |
| Colors.Tokens | vaporware/language_bindings/cpp/src/util/colors.cpp:43 | the getline loop reads no token exactly from the empty string, and never more tokens than characters |
| Colors.CommaSplit | vaporware/language_bindings/cpp/src/util/colors.cpp:43 | getline splits at the first ',' and continues after it |
| Colors.EmptyToken | vaporware/language_bindings/cpp/src/util/colors.cpp:43 | two commas in a row, anywhere in the input, produce an empty token |
| Colors.TokenColors | vaporware/language_bindings/cpp/src/util/colors.cpp:44-52 | a set name contributes its set; anything else contributes what str_to_col gives |
| Colors.CollectedIsUnion | vaporware/language_bindings/cpp/src/util/colors.cpp:43-53 | the list reads without error exactly when every token does, and its colours are the union of the tokens' colours |
| Colors.OrderDoesNotMatter | vaporware/language_bindings/cpp/src/util/colors.cpp:37-55 | lists with the same tokens, in any order or repetition, give the same result |
| Colors.TokenFailure | vaporware/language_bindings/cpp/src/util/colors.cpp:51 | one token that throws makes the whole list throw |
| Colors.EmptyTokenThrows | vaporware/language_bindings/cpp/src/util/colors.cpp:43-51 | an empty token makes the list throw |
| Colors.InsertAll | vaporware/language_bindings/cpp/src/util/colors.cpp:46-48 | inserting a named set adds exactly its colours and keeps the order |
| Colors.InsertToken | vaporware/language_bindings/cpp/src/util/colors.cpp:44-52 | one loop pass adds what the token contributes, or throws exactly when the token is invalid |
| Colors.GetLine | vaporware/language_bindings/cpp/src/util/colors.cpp:43 | the token read plus the tokens of the rest are the tokens still to come |
| Colors.ReadToken | vaporware/language_bindings/cpp/src/util/colors.cpp:43-53 | one pass of the getline loop keeps the loop invariant or proves that the whole list throws |
| Colors.StrToCols | vaporware/language_bindings/cpp/src/util/colors.cpp:37-55 | throws exactly when some token is invalid; otherwise returns the union of the tokens' colours, strictly increasing |
| Colors.EmptyInputNoColors | vaporware/language_bindings/cpp/src/util/colors.cpp:37-55 | an empty string reads as no colours |
| Colors.ResultIsCanonical | vaporware/language_bindings/cpp/src/util/colors.cpp:54 | the result depends only on the set of tokens read |
| Client.SetLedBytes | vaporware/language_bindings/cpp/src/lib/client.cpp:129-137 | a SET_LED command is seven bytes starting with opcode 0x01 |
| Client.SetLedsBytes | vaporware/language_bindings/cpp/src/lib/client.cpp:74-81 | the commands for n ids take 7·n bytes |
| Client.DecodeCommands | vaporware/language_bindings/cpp/src/lib/client.cpp:129-137 | a buffer that decodes holds seven bytes per command |
| Client.DecodeSetLed | vaporware/language_bindings/cpp/src/lib/client.cpp:131-132 | bytes 1 and 2 are the LED id big-endian (hi·256+lo), and the command decodes to its id and colour |
| Client.DecodeAppend | vaporware/language_bindings/cpp/src/lib/client.cpp:129-137 | appended commands decode as the earlier commands followed by the new ones |
| Client.DecodeSetLeds | vaporware/language_bindings/cpp/src/lib/client.cpp:74-81 | the commands for ids decode to each id in order, with the colour |
| Client.FrameRoundTrip | vaporware/language_bindings/cpp/src/lib/client.cpp:139-143 | a flushed message is the buffer plus STROBE and decodes to the buffer's commands |
| Client.AuthMessage | vaporware/language_bindings/cpp/src/lib/client.cpp:117-121 | the message decodes to the token exactly when the token has TOKEN_SIZE (16) bytes |
| Client.AuthRoundTrip | vaporware/language_bindings/cpp/src/lib/client.cpp:117-121 | the 17-byte message decodes to the token, and only the message for that token does |
| Client.ClientImpl.constructor | vaporware/language_bindings/cpp/src/lib/client.cpp:100-108 | a connected implementation with an empty buffer and nothing sent |
| Client.ClientImpl.Authenticate | vaporware/language_bindings/cpp/src/lib/client.cpp:112-127 | a token not of 16 bytes throws invalid_argument before anything is sent; otherwise sends 0x02 and the token |
| Client.ClientImpl.SetLed | vaporware/language_bindings/cpp/src/lib/client.cpp:129-137 | appends exactly the seven command bytes; earlier bytes are unchanged |
| Client.ClientImpl.Flush | vaporware/language_bindings/cpp/src/lib/client.cpp:139-147 | sends the buffer with STROBE appended, and leaves the buffer empty whether or not the write fails |
| Client.VlppClient.constructor | vaporware/language_bindings/cpp/src/lib/client.cpp:56-58 | a handle sharing the given implementation |
| Client.VlppClient.Connect | vaporware/language_bindings/cpp/src/lib/client.cpp:100-110 | construction authenticates, and gives no client when authentication throws |
| Client.VlppClient.Authenticate | vaporware/language_bindings/cpp/src/lib/client.cpp:60-65 | throws uninitialized_error without an implementation; otherwise as the implementation's authenticate |
| Client.VlppClient.SetLed | vaporware/language_bindings/cpp/src/lib/client.cpp:67-72 | throws uninitialized_error without an implementation; otherwise appends one command |
| Client.VlppClient.SetLeds | vaporware/language_bindings/cpp/src/lib/client.cpp:74-81 | appends one SET_LED command per id, in order |
| Client.VlppClient.Flush | vaporware/language_bindings/cpp/src/lib/client.cpp:83-88 | throws uninitialized_error without an implementation; otherwise flushes |
| Client.VlppClient.AccessBuffer | vaporware/language_bindings/cpp/src/lib/client.cpp:90-95 | the commands not yet flushed, or uninitialized_error |
| Client.SetLedsThenFlush | vaporware/language_bindings/cpp/src/lib/client.cpp:139-143 | after set_leds and flush on an empty buffer, the message decodes to the ids in order with the colour |

## Left out

- The flash controller's unlock and lock key sequence, its control and status register bits and the busy-wait in `flash_check_error` are not modelled. The controller is a class, `FlashDevice.Flash`. Its error flag and any words that fail to program or erase come from a fault oracle fixed when the device is created.
- ConfigStore.Store.SaveConfig: after a failed erase the page is stated exactly (the erase image of the fault), but nothing is promised about what load then returns. Stuck words can form any status pattern, two IN_USE slots included (`ConfigStore.FailedEraseCanBreakInvariant`). The same holds for ConfigStore.Store.SaveConfigAsWritten.
- ConfigStore.SlotsRunOutAfterEntryCountSaves and the other wear-levelling lemmas are about runs of saves that meet no fault (`SaveAll`, `Erasures`). A failed save can stop before its slot is marked, so runs with failures are not counted.
- The `TRACE_FLASH` and `debug_string` output of config.c is left out. `config_valid`'s printed lines are returned as a list of messages instead.
- config.h is not part of this model. The model assumes:
  - MODULE_LENGTH = 16 (the initialiser of `physical_led` has 16 entries);
  - CONFIG_PAGE_SIZE = 1024;
  - HEAT_SENSOR_LEN = 4 (every value from 0 to 6 gives the same ENTRY_COUNT of 8);
  - the firmware colour constants RED, GREEN, BLUE and WHITE are four distinct placeholders.
- The record layout is taken to be packed and little-endian. `physical_led` is taken to hold bytes and `led_color` 32-bit words.
- ConfigCheck.CountLeds: an out-of-range `physical_led` entry makes config.c:288 write outside `led_seen`, which is undefined behaviour. The model counts that entry nowhere.
- ConsoleWp.Adjusted: an out-of-range `physical_led` entry makes console_wp.c:104-105 write outside `white_correction`, which is undefined behaviour. The model leaves the panel unchanged.
- ConsoleWp.Edited: the same out-of-range case at console_wp.c:161-162 also leaves the panel unchanged.
- ConsoleWp.Inc16UnlessOverflow and ConsoleWp.Inc8UnlessOverflow are modelled as functions returning the new value. The source updates the value in place through its address instead.
- The display code of console_wp.c is not modelled: `show_status_wp`, the cursor movement in `run_direct_edit`, `leds_dark` and the LED refresh at console_wp.c:241-252. These are terminal and LED-driver output.
- Reading a key (`debug_getchar`) and reading and parsing a line (`debug_getline`, `parse_int`) happen outside the model. The key and the parse result are parameters of `RunCommandWp`.
- The ER_BUG panic for an unknown `selected_line` cannot happen, because the model's `Line` type has only two values.
- RgbaColor.FromCode: a six-digit code leaves `alpha` unassigned in the source. The model takes that value as the parameter `priorAlpha`.
- RgbaColor.Print gives the string that `operator<<` writes (rgba_color.cpp:116-123). The stream's format state is not modelled: the operator leaves `std::hex` and the fill character '0' set on the caller's stream, so later integers on that stream print in hex.
- Colors.StrToCols: the same `priorAlpha` is used for every six-digit code in the list. The source's temporaries may hold different garbage each time.
- The socket is not modelled: name resolution, connecting, and `boost::asio::write`.
  - Each message handed to `write` is appended to the log `sent`.
  - Whether the write fails is a parameter, `writeFails`.
  - A partial write is not distinguished from a failed one.
- Client.VlppClient.AccessBuffer returns a copy of the buffer. Writes through the returned reference are not modelled.
- Client: the token is taken as its bytes. `std::string`'s character type is not modelled.

## Findings

| source | as written | input that shows it | evidently intended | confidence | as-written member | corrected member |
|---|---|---|---|---|---|---|
| vaporware/led-boards/config.c:230 | `save_config` writes CONFIG_ENTRY_OLD to `entry_status + last_in_use` even when `last_in_use` is -1. That word lies just before the status array, outside the page. | A save on a page with no IN_USE slot. This happens on a blank page, and on every retry after the page erase at config.c:208-211, where a save finds no IN_USE slot. | Skip the retire write when there is no previous slot. | not executed | ConfigStore.Store.SaveConfigAsWritten | ConfigStore.Store.SaveConfig |
