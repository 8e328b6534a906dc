# colAruco in Dafny

colAruco shows ArUco markers on a 10 x 10 serpentine LED matrix driven by an
Arduino. A host script reads commands from the user (`br`, `cl`, `code`,
`save`, `load`, `test`), validates them and sends a line over the serial port.
For `code` it produces the marker's rows as bitmasks: one front-end
(`colAruco/colAruco.py`) uses OpenCV's marker image, and the other
(`pythonInputHandler/colAruco.py`) runs the dictionary translator
(`arucoCodeGen/arucoDictTranslator.cpp`), which unpacks a packed dictionary
entry into row masks. The firmware (`arduinoSrc/src/main.cpp`) does four jobs:
- it draws the row masks on the strip;
- it clears the strip;
- it reads a hexadecimal colour;
- it saves and loads a preset in a rotating set of EEPROM slots.

Two revisions of the camera-settings loader (`codeDetection/src/cameraSettings.cpp`,
`codeDetection/src/settings.cpp`) decide whether a settings file path and the
matrices read from it are valid.

This project models these kernels and proves what they promise:
- the renderer lights each cell where the marker has a set bit, left-aligned with the most significant bit leftmost;
- the store lays out each record in place and changes no other byte;
- a load right after a save returns the saved preset;
- the translator inverts the dictionaries' packing;
- the host parsers follow a keyword priority and their range checks;
- the two settings revisions accept different sets of paths.

The model takes the source's own form:
- State that the source changes in place is an `array` updated by a `method` with loop invariants. This covers the LED strip, the EEPROM, the translator's `bits` and `translatedBytes`, and `marker_bits` in `fetch_aruco`.
- Each of those methods is proved against a function of the old state (`Rendered`, `SaveImage`, `LoadImage`, `Row`, `MarkerBits`).
- The properties are proved as lemmas about those functions.
- The pure cascades (`input_parser`, `filenameIsValid`, the path check) are functions.
- The settings objects are classes whose constructors set `OK` and the matrices.

Modules:
- `Bits` holds integer widths and bit packing.
- `Text` holds numerals, `ends_with`, `find` and `join`.
- `LedMatrix`, `Store` and `ColorInput` model the firmware.
- `Translator` models the dictionary translator.
- `HostParsing` holds what both Python front-ends share.
- `ColAruco` and `InputHandler` model the two front-ends.
- `CameraSettingsLoader` and `LegacySettings` model the two settings revisions.

Inputs and modelling choices:
- The EEPROM is a byte array of length L, and every address is taken modulo L, as the EEPROM address register does. The pointer byte is at L-1.
- A `uint32_t` colour is stored least significant byte first.
- The dictionary byte tables are an input (`Translator.Dictionaries`).
- `cv2.aruco.drawMarker` is a function parameter `draw`.
- The translator's subprocess is a function parameter `fetch`.
- The file system is a map from paths to `StoredFile`s: whether the file opens, and the entries of the two matrices. A path with no file does not open. Whether a path opens for writing is an input of `createFile`.
- A dictionary stores a marker as a stream of size*size bits, most significant first. Each full byte holds eight bits, from bit 7 down, and the last partial byte holds its bits in its low positions. `Translator.StreamBit` defines this one byte at a time, as the unpacking loop reads it.

Grammars:
- Python's `int(t)` is modelled as an optional sign followed by one or more ASCII digits.
- Python's `int(t, 16)` is modelled as an optional sign, an optional `0x`, then one or more hexadecimal digits.
- C's `strtoul(s, _, 16)` is modelled as white space, an optional sign, an optional `0x` taken only when a hexadecimal digit follows, and then the longest run of hexadecimal digits. There are 32 bits, with a minus sign negating modulo 2^32.

## Model

| member | source | states |
|---|---|---|
| LedMatrix.ApplyAruco | arduinoSrc/src/main.cpp:182-208 | the strip afterwards is `Rendered` of the strip before: lines below `size` hold the marker's cells, placed and tested per line parity as the two loops do; every other LED keeps its colour |
| LedMatrix.ClearLeds | arduinoSrc/src/main.cpp:214-219 | all 100 LEDs are OFF (0x000000) |
| LedMatrix.CellsLit | arduinoSrc/src/main.cpp:186-206 | on an even line r, LED r*10+c is `color` exactly when bit size-1-c of code[r] is set, else 0x000000; on an odd line, LED r*10+c+(10-size) is `color` exactly when bit c is set, else 0x000000 |
| LedMatrix.LeftAligned | arduinoSrc/src/main.cpp:187-206 | on both line parities, the cell v positions from the visual left edge shows bit size-1-v: the marker is left-aligned with its most significant bit leftmost |
| LedMatrix.WritesInBounds | arduinoSrc/src/main.cpp:186-206 | for 1 <= size <= 10 every LED written lies on its own line and below size*10 <= 100 |
| LedMatrix.LedIndexInjective | arduinoSrc/src/main.cpp:195-204 | distinct (line, column) cells are written to distinct LEDs |
| LedMatrix.UntouchedLedsKept | arduinoSrc/src/main.cpp:186-206 | an LED that no cell is written to keeps its previous colour |
| LedMatrix.RenderOverCleared | arduinoSrc/src/main.cpp:214-219 | drawn over a cleared strip, every LED is the marker colour or OFF, and every LED from line `size` on stays OFF |
| Store.ColorRoundTrip | arduinoSrc/src/main.cpp:263 | the four bytes `EEPROM.put` stores for a colour read back as the same colour |
| Store.Wrap | arduinoSrc/src/main.cpp:251 | an address reaches a cell below L, and an address below L reaches itself |
| Store.GetAll | arduinoSrc/src/main.cpp:282-283 | the byte-by-byte read of the code yields exactly `count` bytes |
| Store.SavePointer | arduinoSrc/src/main.cpp:251-255 | the pointer byte after a save is (old+1) mod 256 when that is at most 102, else 0; so it lies in [0, 102] |
| Store.NextSlotCycles | arduinoSrc/src/main.cpp:252-255 | slots are used in turn, and after the last one the pointer returns to slot 0 |
| Store.SaveLayout | arduinoSrc/src/main.cpp:257-265 | when the record fits below the pointer byte, a save writes size at slot*10, the code at +1..+7, brightness at +8 and the colour at +9..+12, and no other byte but the pointer changes |
| Store.SaveFrame | arduinoSrc/src/main.cpp:257-263 | whatever the slot, a byte that is neither the pointer nor reached by one of the 13 record writes (wrap-around included) is unchanged |
| Store.SaveLoadRoundTrip | arduinoSrc/src/main.cpp:248-287 | provided slot*10+13 <= L-1, loading right after saving returns the saved size, code, brightness and colour |
| Store.SlotLimitBreaksRoundTrip | arduinoSrc/src/main.cpp:24 | with L = 1024 and pointer 101, the save uses slot 102, whose record reaches the pointer byte; code byte 2 loads back as 102 and the preset differs from the one saved |
| Store.SafeSlotLimit | arduinoSrc/src/main.cpp:24 | the corrected limit (L-14)/10 is the largest slot whose record still ends below the pointer byte |
| Store.SafeLimitRoundTrip | arduinoSrc/src/main.cpp:248-287 | with the corrected slot limit, every save loads back intact, whatever the pointer held before |
| Store.PutByte | arduinoSrc/src/main.cpp:257 | `EEPROM.put` of one byte changes exactly the addressed cell |
| Store.PutColor | arduinoSrc/src/main.cpp:263 | `EEPROM.put` of a colour writes its four bytes at consecutive addresses |
| Store.PutRecord | arduinoSrc/src/main.cpp:257-263 | the record writes leave the EEPROM as the 13-byte record written from the slot's base |
| Store.SaveToEEPROM | arduinoSrc/src/main.cpp:248-266 | the EEPROM afterwards is `SaveImage` of the EEPROM before, with SLOT_LIMIT 102 |
| Store.LoadFromEEPROM | arduinoSrc/src/main.cpp:275-287 | the size, code, brightness and colour are the preset `LoadImage` reads from the slot named by the pointer byte; aruco[7..] is untouched |
| ColorInput.SkipSpace | arduinoSrc/src/main.cpp:172 | what is left is a suffix of the input, every character dropped is white space, and what is left does not start with white space |
| ColorInput.HexRun | arduinoSrc/src/main.cpp:172 | the run `strtoul` consumes is all hexadecimal digits and is the longest such run: it ends at the end of the input or before a character that is not a hexadecimal digit |
| ColorInput.SpaceEnd | arduinoSrc/src/main.cpp:172 | the white space `strtoul` skips is every character before the first one that is not white space |
| ColorInput.SignEnd | arduinoSrc/src/main.cpp:172 | after the white space, exactly one character more is taken when it is `+` or `-`, and none otherwise |
| ColorInput.NumeralSkips | arduinoSrc/src/main.cpp:172 | the numeral starts right after the sign, or two characters later exactly when `0x` or `0X` and a hexadecimal digit follow there |
| ColorInput.Digits | arduinoSrc/src/main.cpp:172 | the digits converted are the longest run of hexadecimal digits that starts the numeral after white space, sign and prefix |
| ColorInput.Negate32 | arduinoSrc/src/main.cpp:172 | negating a 32-bit unsigned value gives its additive inverse modulo 2^32 |
| ColorInput.Head | arduinoSrc/src/main.cpp:171 | `toCharArray(AuxArray, 7)` keeps a prefix of the input: its first six characters, or all of a shorter input |
| ColorInput.HexValueBound | arduinoSrc/src/main.cpp:172 | n hexadecimal digits have a value below 16^n |
| ColorInput.HexValueLowerBound | arduinoSrc/src/main.cpp:172 | n hexadecimal digits led by a non-zero one are worth at least 16^(n-1) |
| ColorInput.NineDigitsSaturate | arduinoSrc/src/main.cpp:172 | nine or more significant digits give `ULONG_MAX`, 0xFFFFFFFF, with or without a minus sign |
| ColorInput.LeadingSpaceIgnored | arduinoSrc/src/main.cpp:172 | a white-space character in front of the input does not change the value read |
| ColorInput.SignedReading | arduinoSrc/src/main.cpp:172 | a `+` in front of a numeral does not change the value; a `-` gives the 32-bit negation of the value read without it, except that digits worth 2^32 or more give 0xFFFFFFFF both ways |
| ColorInput.SwitchColorBound | arduinoSrc/src/main.cpp:166-173 | without a minus sign the colour is below 0x1000000, since at most six hexadecimal digits are read |
| ColorInput.SwitchColorReadsHex | arduinoSrc/src/main.cpp:166-173 | a token of one to six hexadecimal digits becomes exactly its value |
| ColorInput.SixDigitsArrive | arduinoSrc/src/main.cpp:166-173 | six hexadecimal digits d0..d5 arrive as the colour whose hexadecimal digits they are, most significant first |
| ColorInput.PredefinedColorsArrive | arduinoSrc/src/main.cpp:166-173 | the host's predefined colours FF0000, 00FF00, 0000FF and FFFFFF arrive as those 24-bit values |
| ColorInput.NegativeColorWraps | arduinoSrc/src/main.cpp:172 | the token `-1`, which the host accepts as hexadecimal, becomes 0xFFFFFFFF |
| Translator.NeededBytesAtMostSize | arucoCodeGen/arucoDictTranslator.cpp:72-88 | for size <= 8 the stream needs ceil(size*size/8) <= size bytes, the bytes the outer loop visits |
| Translator.StreamBitOfByte | arucoCodeGen/arucoDictTranslator.cpp:79-86 | bit j of byte i, as the inner loop visits it, is stream bit 8i+(start-1-j); a full byte gives its 8 bits high first, the last partial byte its low bits high first |
| Translator.UnpackStream | arucoCodeGen/arucoDictTranslator.cpp:72-88 | the `bits` array holds exactly size*size elements, element k being stream bit k |
| Translator.RowColumnIsDivMod | arucoCodeGen/arucoDictTranslator.cpp:91 | the row and column counted by whole rows are `i / size` and `i % size` |
| Translator.AccumulateBit | arucoCodeGen/arucoDictTranslator.cpp:91 | one iteration adds bit i, shifted by size-1-i%size, into entry i/size |
| Translator.AccumulateInvariant | arucoCodeGen/arucoDictTranslator.cpp:90-91 | after k iterations the rows before row k/size are complete and row k/size holds the weights of its first k%size bits |
| Translator.AccumulateRows | arucoCodeGen/arucoDictTranslator.cpp:90-91 | after all size*size iterations each of the first `size` entries has gained its row's mask and every other entry is unchanged |
| Translator.ByteTranslator | arucoCodeGen/arucoDictTranslator.cpp:70-93 | each translatedBytes[r], r < size, gains `Row(codedBytes, size, r)`; entries from `size` on are unchanged |
| Translator.RowBitIsStreamBit | arucoCodeGen/arucoDictTranslator.cpp:90-91 | bit size-1-c of row r's mask is stream bit r*size+c: every bit lands in its own position, so the `+=` acts as a bitwise or |
| Translator.RowBound | arucoCodeGen/arucoDictTranslator.cpp:90-91 | every row mask is below 2^size, so, from the zeroed output, each entry is too |
| Translator.RowsReadNeededBytes | arucoCodeGen/arucoDictTranslator.cpp:77-88 | the rows depend only on codedBytes[0 .. ceil(size*size/8)) |
| Translator.EncodeStream | arucoCodeGen/arucoDictTranslator.cpp:77-88 | the dictionaries' packing of n bits takes ceil(n/8) bytes |
| Translator.EncodeStreamBit | arucoCodeGen/arucoDictTranslator.cpp:77-88 | reading the packed form of a bit stream gives back every bit of the stream |
| Translator.TranslateEncoded | arucoCodeGen/arucoDictTranslator.cpp:70-93 | translating the packed form of any size x size row masks gives the masks back, and the packed form is ceil(size*size/8) bytes |
| Translator.EncodedRows | arucoCodeGen/arucoDictTranslator.cpp:70-93 | all `size` rows of the packed form of any size x size row masks translate back to exactly those masks |
| Translator.SizeOfType | arucoCodeGen/arucoDictTranslator.cpp:33-57 | every handled type has a marker side between 4 and MAX_CODE_SIZE = 6 |
| Translator.Rows | arucoCodeGen/arucoDictTranslator.cpp:59 | a packed marker has `size` rows |
| Translator.PrintCode | arucoCodeGen/arucoDictTranslator.cpp:61-65 | the output is `code <size> `, then each of translatedCode[0..size) and a space, then the line end |
| Translator.EmitCode | arucoCodeGen/arucoDictTranslator.cpp:59-65 | translating an entry into `translatedCode`, zeroed at line 30, and printing it gives the code line of the entry's rows |
| Translator.TranslatorMain | arucoCodeGen/arucoDictTranslator.cpp:21-68 | the output is `Translation`: the code line of the first rotation of entry `id` of the dictionary the type selects, or nothing |
| Translator.TranslationPrintsIffHandled | arucoCodeGen/arucoDictTranslator.cpp:33-57 | a line is printed exactly for the types 0, 4, 5 and 6 (sizes 5, 4, 5, 6); any other type returns without output |
| Translator.TranslationOfEncoded | arucoCodeGen/arucoDictTranslator.cpp:33-65 | when a dictionary entry is the packed form of some row masks, `main` prints exactly those masks |
| HostParsing.IndexOf | colAruco/colAruco.py:63 | `tokens.index(t)` is the first position of t |
| HostParsing.FirstKeyword | colAruco/colAruco.py:51-97 | the if/elif cascade of `in` tests selects the first keyword, in priority order, that occurs; none selects nothing |
| HostParsing.BrSpec | colAruco/colAruco.py:60-74 | `br` never raises; it succeeds exactly when the next token is an integer in [0, 255], formatted as that value in decimal and a space; otherwise error is set and the flag is empty |
| HostParsing.PredefinedAreHex | colAruco/colAruco.py:203-208 | every predefined colour maps to a six-digit hexadecimal literal |
| HostParsing.ClSpec | colAruco/colAruco.py:76-95 | `cl` never raises; it succeeds exactly when the next token is r, g, b, w or a hexadecimal literal; r, g, b and w send their preset colour and any other accepted token is sent unchanged, followed by a space, so what is sent is always a hexadecimal literal and a space |
| HostParsing.ParseCodeSpec | colAruco/colAruco.py:97-110 | `code` is accepted exactly when the id is an integer in [0, 1000) and the dictionary name is dict4, dict5, dict6 or dict_or; a non-integer id raises ValueError |
| HostParsing.MainSendsOnlyFlags | colAruco/colAruco.py:168-177 | `main` writes `flag + " " + formatted` exactly when the flag is non-empty, crashes on ValueError, and otherwise reports the error or that the input means nothing |
| ColAruco.FetchAruco | colAruco/colAruco.py:23-37 | the output is `code 6` followed by the six packed rows of the image of marker 0; the id is not used |
| ColAruco.MarkerBits | colAruco/colAruco.py:28 | `marker_bits` has six entries |
| ColAruco.MarkerBitsMsbFirst | colAruco/colAruco.py:30-33 | bit len(row)-1-j of a packed row is cell j: the leftmost cell is the most significant, the order `applyAruco` reads |
| ColAruco.MarkerBitsFitByte | colAruco/colAruco.py:30-33 | a packed row of at most 8 cells fits in a byte |
| ColAruco.FetchedMarkerRendered | colAruco/colAruco.py:23-37 | a 6 x 6 image, packed and drawn with size 6, lights exactly its set cells, at the same place counted from the left of every line |
| ColAruco.KeywordPriority | colAruco/colAruco.py:45-112 | the first of save > load > test > br > cl > code that occurs decides the result; save, load and test succeed without argument; none of them gives (False, "", "") |
| ColAruco.ParserConsistent | colAruco/colAruco.py:47-112 | a non-empty flag comes without error and an error comes without flag; the flag is one of the keywords |
| ColAruco.CodeRaisesOnlyOnBadId | colAruco/colAruco.py:97-110 | `code` raises exactly when the token after it exists and is not an integer; an accepted code carries the fetched marker of the named dictionary |
| InputHandler.KeywordPriority | pythonInputHandler/colAruco.py:42-106 | the first of save > load > br > cl > code that occurs decides the result; none of them gives (False, "", "") |
| InputHandler.TestMeansNothing | pythonInputHandler/colAruco.py:48-106 | this revision has no `test` keyword: `["test"]` gives (False, "", "") and `main` sends nothing |
| InputHandler.ParserConsistent | pythonInputHandler/colAruco.py:156-165 | a non-empty flag comes without error, so `main` sends only error-free results |
| InputHandler.AcceptedCodeHasHandledType | pythonInputHandler/colAruco.py:91-104 | an accepted code has an id in [0, 1000) and passes the translator a type number that its switch handles |
| Text.NatToStringIsDecimalInt | colAruco/colAruco.py:72 | `int(str(n)) == n` |
| Text.EndsWithIff | codeDetection/src/cameraSettings.cpp:10 | `ends_with(s, t)` holds exactly when t is the last \|t\| characters of s |
| Text.FindSpec | codeDetection/src/settings.cpp:8 | `find` returns npos exactly when the text occurs nowhere, and otherwise the first position where it occurs |
| CameraSettingsLoader.FilenameIsValidIff | codeDetection/src/cameraSettings.cpp:9-11 | a name is valid exactly when it ends with `.yml`, `.xml` or `.json` |
| CameraSettingsLoader.CreateFile | codeDetection/src/cameraSettings.cpp:13-27 | an invalid path, reported as such, and a file that does not open for writing, reported as such, leave the file system unchanged; otherwise the file at the path holds exactly the two matrices; no other path changes and no other file is created |
| CameraSettingsLoader.CameraSettings.constructor | codeDetection/src/cameraSettings.cpp:29-55 | `OK` ends true exactly when the path is valid, the file at the path opens and both matrices read are non-empty; an invalid path or an unopened file leaves `OK` at its default false and the matrices empty; otherwise the matrices are the file's |
| CameraSettingsLoader.CreateThenLoad | codeDetection/src/cameraSettings.cpp:13-55 | a file is written exactly for a valid path that opens for writing; what was written loads as valid exactly when both matrices written were non-empty; when nothing is written, what loads from the path is as before |
| LegacySettings.PathAcceptedIff | codeDetection/src/settings.cpp:8 | a path is accepted exactly when `.yml` or `.xml` occurs somewhere in it |
| LegacySettings.CameraSettings.constructor | codeDetection/src/settings.cpp:7-23 | a rejected path clears `OK` before anything is read; otherwise `OK` keeps its default true exactly when both matrices read are non-empty |
| LegacySettings.UnopenedIsInvalid | codeDetection/src/settings.cpp:14-22 | a file that does not open never yields valid settings, although no open check is made |
| LegacySettings.SuffixAcceptedHere | codeDetection/src/settings.cpp:8 | every `.yml` or `.xml` name the later revision accepts is accepted here too |
| LegacySettings.JsonRejectedHere | codeDetection/src/settings.cpp:8-10 | `x.json` passes the later check and fails this one, although this revision's message lists `.json` |
| LegacySettings.MidNameAcceptedHere | codeDetection/src/settings.cpp:8 | `x.yml.bak` passes this check and fails the later one |
| LegacySettings.RevisionsDisagree | codeDetection/src/settings.cpp:8 | the two revisions accept different sets of names, in both directions |

## Left out

- The Arduino plumbing is not modelled: `setup` and `loop` with their static locals, `Serial`, and `inputParser`. `inputParser` reads the serial port with `parseInt` and `readStringUntil`, so it is serial I/O. `switchColor` is modelled on the string it is given.
- `resetLedStrip`, `testLedStrip`, `leds.begin`, `setBrightness` and `delay` are not modelled: they drive hardware. `leds.show()` has no effect on the modelled strip.
- LedMatrix.ApplyAruco: requires size <= 10 and at least `size` code bytes, neither of which the source checks. The firmware's code array `arucoOnDisplay` has 9 bytes, so in the firmware the requires means size <= 9. A larger size is reachable. `setup` and `loop` load the size from the EEPROM (arduinoSrc/src/main.cpp:58-64 and 78-84), and an erased EEPROM holds 255. A `code` command sets it to any byte the host sends (arduinoSrc/src/main.cpp:143). With a size above the requires, the source does three things the model excludes. Neighbouring lines overwrite each other: with size 11, line 0 writes LED 10, which belongs to line 1, and line 1, with `offset` -1, overwrites LED 9 of line 0. For any size above 9 the code is read past the 9-byte `arucoOnDisplay`, which is undefined behaviour. And LEDs past the 100 of the strip are addressed.
- Translator.ByteTranslator: requires size <= 8, the sizes for which the outer loop over `size` bytes covers the whole stream. `main` only uses the sizes 4, 5 and 6.
- Translator.ByteTranslator: the entries of `translatedBytes` are unbounded integers. The C `int` cannot overflow for these sizes, since each row is below 2^8.
- The predefined dictionary tables are an input, and `main`'s `argv`/`atoi` handling is left out. `Translator.HasEntry` is an assumption that the source never checks: `DICT_*_BYTES[id][0]` (arucoCodeGen/arucoDictTranslator.cpp:33-57) reads out of bounds for an id beyond the table, or for an entry too short for the size. The host front-end that runs the translator only passes ids below 1000 (pythonInputHandler/colAruco.py:99).
- The OpenCV processing pipelines, the camera calibration programs, the detection script and the `ArucoSettings` dictionary names are not modelled. They are library calls with floating point and video I/O.
- `cv2.aruco.drawMarker` and `Dictionary_get` are the function parameter `draw`.
- The translator subprocess, including its `strip`, is the function parameter `fetch` in `InputHandler`.
- Serial reads and writes, the terminal escape codes, `input()`, the quit and help keywords and `man()` are left out as interactive I/O. Of `main`, only the rule for what is sent is modelled (`HostParsing.MainAction`).
- Python's `int()` and `int(_, 16)` accept more than the grammars above: white space, underscores and non-ASCII digits. C's `strtoul` also depends on the locale. The end pointer it returns is not used by the source.
- ColorInput.SwitchColorBound: requires that no minus sign follows the white space. With a minus sign, the unsigned negation can exceed 0xFFFFFF, as ColorInput.NegativeColorWraps shows for `-1`.
- A `cv::Mat` is modelled by its entries as a sequence of reals; its type, shape and the printing of its contents are left out.
- A cell's colour when its bit is clear is `OFFCOL(color)`, which this revision defines as black.

## Findings

| source | as written | input that shows it | evidently intended | confidence | as-written member | corrected member |
|---|---|---|---|---|---|---|
| arduinoSrc/src/main.cpp:24 | `SLOT_LIMIT` is 102, so slot 102's 13-byte record spans bytes 1020-1032 and reaches the pointer byte 1023 of a 1024-byte EEPROM | an EEPROM of 1024 bytes whose pointer byte holds 101, then save and load | the last slot's record ends below the pointer byte, so a saved preset loads back intact; for 1024 bytes the limit is 101. `SaveImage` takes the limit as a parameter, and `SaveToEEPROM` uses the source's 102 | not executed | Store.SlotLimitBreaksRoundTrip | Store.SafeLimitRoundTrip |
| codeDetection/src/settings.cpp:8 | the path check searches only for `.yml` and `.xml`, although the error message on line 10 lists `.json` as supported | the path `x.json` | `.json` files are accepted, as the later revision's `filenameIsValid` does | not executed | LegacySettings.JsonRejectedHere | CameraSettingsLoader.FilenameIsValidIff |
