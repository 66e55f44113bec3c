# okbot in Dafny

Okbot is a trading bot in C++. It talks to an exchange over WebSockets, signs its requests with MD5,
keeps moving indicators of the price, and carries the libraries it needs with it. This project models
the algorithms in that code and proves what they are for. `dafny verify dfyconfig.toml` checks it all.

Each component has a specification that does not mention the code (a standard's definition, a language,
a batch computation), the code in its own form (classes with fields, loops over arrays, in-place
updates), contracts that tie the two together, and theorems about the specification. What is basic to
both is tied down by laws and by the examples of the standards.

- **UTF-8** (`Utf8Spec`, `Utf8Validator`). The 400-byte table machine accepts exactly the byte grammar of
  section 4 of RFC 3629, rejects exactly when nothing can help any more, and yields the scalar values of
  section 3, in any chunks.
- **MD5, twice** (`Md5Spec`, `Md5Laws`, `Md5Class`, `Md5Websocket`, `Md5Agreement`, `Md5Vectors`). Both streaming
  implementations, with their different buffering, counters, padding formulas and step macros, compute the digest of
  section 3 of RFC 1321 for every cut of every message, so they agree; and for the alphabet it is the one
  that the RFC prints.
- **TOML arrays** (`TomlStandard`, `TomlConformance`, `TomlFaults`; `TomlSpec`, `TomlGrammar`, `TomlAccepted`,
  `TomlParser`, `TomlWriter`, `TomlRoundTrip`). The parser accepts exactly the ways it knows to write a
  homogeneous tree of arrays, strings, 64-bit integers and booleans. Where these differ from version 0.4.0 of
  TOML is proved in both directions: when TOML is read rightly, when what is read is TOML, and when what is
  written is. Parsing what was written gives the tree back.
- **Simple regular expressions** (`RegexSpec`, `RegexLaws`, `RegexMatcher`). The validator accepts exactly the
  patterns, and the backtracking matcher is sound and complete for their declarative language.
- **Frames and masking** (`Words`, `Masking`, `FrameHeader`). Headers and their bytes determine each other,
  no header begins another, and masking by words in any pieces is masking by bytes.
- **The receiving side of a connection** (`Session`, `Messages`, `Streams`, `Processor`, `Sending`, `WireVectors`). The
  state machine that copies, unmasks and validates whatever the network yields does what the bytes mean one by one; every
  conversation of fragmented messages with control frames in between is delivered complete and in order; and
  every stream that does not fail is one of frames.
- **URIs** (`Uri`, `UriGrammar`, `Texts`), **base64** (`Base64`), **indicators** (`TimeWindow`, `RocStrategy`) and
  **prime tables** (`Primes`).

## Where the code falls short of its promise

- A text message in several fragments is not judged as a whole, because the final frame is no text frame
  (`Messages.TruncatedTextDelivered`). `Messages.MessageDelivered` says exactly which messages are accepted:
  one frame must be UTF-8, fragments need only be the beginning of UTF-8.
- `FullMatch` looks for the whole string, except for patterns that end in an escaped dollar
  (`RegexMatcher.EscapedDollarMatchesFront`, `RegexMatcher.FullMatchIsWholeMatch`).
- A URI with a bracketed address is written without its brackets (`Uri.AddressIsLost`; `Uri.RoundTrip` and
  `Uri.TextRoundTrip` have the exact conditions).
- The parser takes more than TOML: an array of scalars ends at any character where a comma was expected, not only
  at a bracket; integers may have leading zeros; strings may hold control characters as themselves
  (`TomlFaults.WrongCharacterAccepted`, `TomlFaults.LeadingZerosAccepted`, `TomlFaults.ControlAccepted`).
  `TomlConformance.ReadIsToml` says that this is all.
- The parser takes less than TOML: escapes by number are refused, which its documentation says, and a carriage
  return and a line feed do not end a line, which it does not say (`TomlFaults.EscapeRefused`,
  `TomlFaults.ReturnEndsArray`). `TomlConformance.ReadsToml` says that this is all.
- The writer leaves control characters other than line feeds as they are, which is no TOML
  (`TomlConformance.WriterIsToml`); the parser reads them back.
- The size check on a continuation frame adds modulo 2^64, so that a huge frame passes any limit
  (`Streams.HugeFramePasses`). `Streams.BufferedFits` says that this is the only way beyond a limit.
- A size in eight bytes may have its top bit set, which section 5.2 of RFC 6455 forbids: it is sent so from 2^63
  bytes on, and the receiving side does not check it (`FrameHeader.EncodedTopBit`, `Streams.TopBitNotChecked`).
- Data frames with reserved opcodes are prepared, although no side accepts them (`Sending.ReservedIsPrepared`;
  `Sending.PreparedIsRead` says exactly what is accepted of what is prepared).
- The answer whether there is a new mean is that of the last tick alone (`RocStrategy.StaleTickReported`,
  `RocStrategy.NewMinuteMissed`; `RocStrategy.AnswerIsTrue` has the exact condition).
- The stop-loss test compares a profit with a minimum that already includes it, so it never holds
  (`RocStrategy.RiskControl.StopLoss`).
- `Validator.decode` answers true for an empty chunk even after a rejection
  (`Utf8Validator.Validator.Decode`).
- The search for the next prime returns -1 for a negative start, although 2 is prime
  (`Primes.GetNextPrimeOnTheFly`).
- The comment on `word_mask_circ` speaks of writes up to the next word boundary; the code writes only
  `length` bytes, and that is what is proved.

## Model

| member | source | states |
|---|---|---|
| Utf8Validator.AcceptsExactlyUtf8 | okcoin_client/websocketpp/utf8_validator.hpp:45-78 | from the start state, the table machine ends in accept exactly on concatenations of the byte forms of section 4 of RFC 3629 |
| Utf8Validator.RejectsExactlyHopeless | okcoin_client/websocketpp/utf8_validator.hpp:45-78 | the machine is in reject exactly when no continuation of the bytes read can be UTF-8 |
| Utf8Validator.RejectIsAbsorbing | okcoin_client/websocketpp/utf8_validator.hpp:56-56 | once in reject, no byte leads out of it |
| Utf8Validator.RunAppend | okcoin_client/websocketpp/utf8_validator.hpp:69-78 | reading two pieces one after the other is reading both together |
| Utf8Validator.TableMeaning | okcoin_client/websocketpp/utf8_validator.hpp:45-60 | each of the 256 classes and 144 transitions of the table does what the byte forms require |
| Utf8Validator.YieldChar | okcoin_client/websocketpp/utf8_validator.hpp:69-78 | reading one well-formed character yields exactly its scalar value, and nothing before its last byte |
| Utf8Validator.DecodesEncoding | okcoin_client/websocketpp/utf8_validator.hpp:69-78 | decoding the encoding of any list of scalar values is accepted and yields that list |
| Utf8Validator.EncodesDecoding | okcoin_client/websocketpp/utf8_validator.hpp:69-78 | encoding what an accepted text yields gives the text back |
| Utf8Validator.HopelessForGood | okcoin_client/websocketpp/utf8_validator.hpp:105-118 | a text with a rejected front stays rejected whatever follows |
| Utf8Validator.DecodeByte | okcoin_client/websocketpp/utf8_validator.hpp:69-78 | the in-place step of state and code point is one step of the machine |
| Utf8Validator.Validator.Consume | okcoin_client/websocketpp/utf8_validator.hpp:91-96 | answers whether all input so far can still become UTF-8 |
| Utf8Validator.Validator.Decode | okcoin_client/websocketpp/utf8_validator.hpp:105-118 | adds a chunk to the input; false exactly when the input became hopeless within a chunk that is not empty |
| Utf8Validator.Validator.Complete | okcoin_client/websocketpp/utf8_validator.hpp:124-126 | true exactly when all input so far is UTF-8 |
| Utf8Validator.Validator.Reset | okcoin_client/websocketpp/utf8_validator.hpp:129-132 | forgets the input |
| Utf8Validator.Validate | okcoin_client/websocketpp/utf8_validator.hpp:143-149 | true exactly for UTF-8 |
| Utf8Validator.ValidateChunks | okcoin_client/websocketpp/utf8_validator.hpp:105-126 | streaming in any chunks gives the answer for the whole message |
| Utf8Spec.CharIsEncoding | okcoin_client/websocketpp/utf8_validator.hpp:69-78 | the bits of every well-formed character form a scalar value whose encoding is the character |
| Utf8Spec.EncodingIsChar | okcoin_client/websocketpp/utf8_validator.hpp:45-60 | every encoding of section 3 of RFC 3629 is a character of section 4 |
| Md5Class.Md5.Transform | okcoin_client/md5.cpp:146-230 | one block is folded in by the compression of section 3.4 of RFC 1321 |
| Md5Class.Md5.CountBits | okcoin_client/md5.cpp:88-95 | the two-word counter with its manual carry stays 8 times the byte count modulo 2^64 |
| Md5Class.Md5.TransformBlocks | okcoin_client/md5.cpp:99-109 | all blocks completed by the input are folded in and the buffer is handed on |
| Md5Class.Md5.Update | okcoin_client/md5.cpp:84-115 | the invariant holds of the message with the input appended: folded state, unprocessed tail, bit count |
| Md5Class.Md5.KeepRest | okcoin_client/md5.cpp:113-114 | what is left behind the blocks is kept, and the invariant holds |
| Md5Class.Md5.Finalize | okcoin_client/md5.cpp:120-142 | the digest is that of section 3 of RFC 1321 of everything fed in, and the context is wiped |
| Md5Class.Round1 | okcoin_client/md5.cpp:153-168 | sixteen macro steps with rotated argument names are the sixteen operations of round 1 |
| Md5Class.Round2 | okcoin_client/md5.cpp:171-186 | the same for round 2 |
| Md5Class.Round3 | okcoin_client/md5.cpp:189-204 | the same for round 3 |
| Md5Class.Round4 | okcoin_client/md5.cpp:207-222 | the same for round 4 |
| Md5Class.FF | okcoin_client/md5.h:48-49 | the in-place step is the specified operation with F |
| Md5Class.GG | okcoin_client/md5.h:51-52 | the in-place step is the specified operation with G |
| Md5Class.HH | okcoin_client/md5.h:54-55 | the in-place step is the specified operation with H |
| Md5Class.II | okcoin_client/md5.h:57-58 | the in-place step is the specified operation with I |
| Md5Class.Decode | okcoin_client/md5.cpp:253-264 | bytes are read as little-endian words |
| Md5Class.Encode | okcoin_client/md5.cpp:235-248 | words are written as little-endian bytes |
| Md5Class.PadLengthByCases | okcoin_client/md5.cpp:129-131 | the padding length by cases is the one that completes 56 bytes modulo 64 |
| Md5Websocket.State.Process | okcoin_client/websocketpp/common/md5.hpp:170-347 | the second compression, with its own constants, macros and loading, is the same compression |
| Md5Websocket.State.CountBits | okcoin_client/websocketpp/common/md5.hpp:367-370 | the counter, added to in the other order, stays 8 times the byte count modulo 2^64 |
| Md5Websocket.State.InitialBlock | okcoin_client/websocketpp/common/md5.hpp:373-382 | a partial block is filled up first |
| Md5Websocket.State.ProcessBlocks | okcoin_client/websocketpp/common/md5.hpp:385-386 | all whole blocks are folded in |
| Md5Websocket.State.Append | okcoin_client/websocketpp/common/md5.hpp:357-391 | the invariant holds of the message with the data appended |
| Md5Websocket.State.Finish | okcoin_client/websocketpp/common/md5.hpp:393-412 | the digest of section 3 of RFC 1321 of everything appended |
| Md5Websocket.PadLengthFromCount | okcoin_client/websocketpp/common/md5.hpp:407-407 | the padding length by masking the counter is the same length |
| Md5Websocket.Round1 | okcoin_client/websocketpp/common/md5.hpp:236-262 | sixteen macro steps are the operations of round 1, the constants written as complements included |
| Md5Spec.LowCountsBytes | okcoin_client/md5.cpp:89-89 | the low counter word tells the bytes in the buffer |
| Md5Spec.CountAdds | okcoin_client/md5.cpp:91-95 | adding in two words with a carry is adding modulo 2^64 |
| Md5Spec.BitsAreLength | okcoin_client/md5.cpp:88-95 | the two counter words together are 8 times the byte count modulo 2^64 |
| Md5Spec.PaddedIsBlocks | okcoin_client/md5.cpp:129-134 | a padded message is a whole number of blocks |
| Md5Agreement.DigestByUpdates | okcoin_client/md5.cpp:84-142 | any sequence of updates yields the digest of the concatenation |
| Md5Agreement.DigestByAppends | okcoin_client/websocketpp/common/md5.hpp:357-412 | any sequence of appends yields the digest of the concatenation |
| Md5Agreement.DigestsAgree | okcoin_client/md5.cpp:84-142 | the two implementations agree on every message under any two independent cuts |
| Md5Agreement.PrintMD5 | okcoin_client/md5.cpp:35-53 | two hexadecimal digits for each byte |
| Md5Agreement.MD5String | okcoin_client/md5.cpp:57-66 | the hexadecimal digest of everything before the first NUL |
| Md5Agreement.Md5HashHex | okcoin_client/websocketpp/common/md5.hpp:415-443 | the hexadecimal digest of the whole string |
| Md5Agreement.HexAgrees | okcoin_client/md5.cpp:57-66 | on strings without NUL shorter than 2^31 bytes both functions give the same text |
| Md5Agreement.NoNul | okcoin_client/md5.cpp:59-59 | a C string loses nothing exactly when it holds no NUL |
| Md5Agreement.BeforeFirstNul | okcoin_client/md5.cpp:59-59 | what stands before the first NUL is all that is hashed |
| Md5Vectors.AlphabetDigest | okcoin_client/md5.cpp:84-230 | the digest of the alphabet is the one that appendix A.5 of RFC 1321 gives, computed operation by operation |
| Md5Vectors.AlphabetHashed | okcoin_client/websocketpp/common/md5.hpp:415-443 | both implementations print it |
| Md5Vectors.AllOperations | okcoin_client/md5.cpp:153-222 | the registers after the 64 operations of that block |
| Md5Laws.FSelects | okcoin_client/md5.h:36-37 | where the first argument has ones, F has the bits of the second |
| Md5Laws.FSelectsElse | okcoin_client/md5.h:36-37 | elsewhere F has the bits of the third |
| Md5Laws.GSelects | okcoin_client/md5.h:39-40 | where the third argument has ones, G has the bits of the first |
| Md5Laws.GSelectsElse | okcoin_client/md5.h:39-40 | elsewhere G has the bits of the second |
| Md5Laws.HByBits | okcoin_client/md5.h:42-43 | where its first two arguments differ, H has the opposite of the third |
| Md5Laws.HByBitsElse | okcoin_client/md5.h:42-43 | elsewhere H has the bits of the third |
| Md5Laws.ITurns | okcoin_client/md5.h:45-46 | where the first argument has a one or the third a zero, I has the opposite of the second |
| Md5Laws.ITurnsElse | okcoin_client/md5.h:45-46 | elsewhere I has the bits of the second |
| Md5Laws.RotateLeftTurns | okcoin_client/md5.h:33-34 | as a number, a word turned left by n has its high n bits and the rest trade places |
| Md5Class.OperationOf | okcoin_client/md5.h:48-58 | the order in which the code adds makes no difference |
| TomlConformance.ReadsToml | lib/cpptoml-master-20170107/include/cpptoml.h:2165-2301 | an array tree written in TOML 0.4.0, with strings on one line, is read as that tree, and exactly its text is consumed, if and only if it is homogeneous, no string has an escape by number, and no line in it ends in a carriage return and a line feed unless behind a comment; otherwise it is refused, or reading ends too early |
| TomlConformance.ReadIsToml | lib/cpptoml-master-20170107/include/cpptoml.h:2165-2262 | what was read is TOML if and only if a bracket ends every array in it, no integer has leading zeros, and no string holds a control character as itself |
| TomlConformance.WriterIsToml | lib/cpptoml-master-20170107/include/cpptoml.h:2529-2584 | what the writer emits for an array tree is TOML, and for that tree, if and only if no string in it holds a control character other than a line feed |
| TomlConformance.SameToml | lib/cpptoml-master-20170107/include/cpptoml.h:2165-2262 | what the parser takes a text of TOML for is the array tree that TOML has in it, or it ends before the end of that tree |
| TomlConformance.SameElement | lib/cpptoml-master-20170107/include/cpptoml.h:1711-1733 | where the parser takes a text of TOML for an element, there is that element, or it ends inside it, with more arrays left open |
| TomlConformance.SameRest | lib/cpptoml-master-20170107/include/cpptoml.h:2213-2262 | the same for the rest of an array |
| TomlConformance.GoesOn | lib/cpptoml-master-20170107/include/cpptoml.h:2224-2262 | behind an element the parser goes on as TOML does, or ends the array at a carriage return |
| TomlConformance.TomlIsKnown | lib/cpptoml-master-20170107/include/cpptoml.h:1922-1962 | which spellings of TOML the parser knows |
| TomlStandard.LooseIsToml | lib/cpptoml-master-20170107/include/cpptoml.h:1964-2046 | which of the texts that the parser takes for array trees are TOML |
| TomlFaults.WrongCharacterAccepted | lib/cpptoml-master-20170107/include/cpptoml.h:2224-2231 | [1x] is read as the array of 1, and is no TOML |
| TomlFaults.LeadingZerosAccepted | lib/cpptoml-master-20170107/include/cpptoml.h:1977-1992 | [007] is read as the array of 7, and is no TOML |
| TomlFaults.ControlAccepted | lib/cpptoml-master-20170107/include/cpptoml.h:1895-1919 | a string with any control character as itself is read, and is no TOML |
| TomlFaults.EscapeRefused | lib/cpptoml-master-20170107/include/cpptoml.h:1922-1962 | ["\u0041"] is TOML for the array of the letter A, and is refused |
| TomlFaults.ReturnEndsArray | lib/cpptoml-master-20170107/include/cpptoml.h:2224-2301 | an array that goes on behind a carriage return and a line feed is TOML, and is read as if the carriage return ended it |
| TomlFaults.BuildsDiffer | lib/cpptoml-master-20170107/include/cpptoml.h:2331-2344 | a text that the look-ahead takes for a date, and in which a build with regular expressions reads a number |
| TomlFaults.DatePattern | lib/cpptoml-master-20170107/include/cpptoml.h:2349-2352 | the date pattern matches exactly digits of a date and a time, perhaps a fraction, and Z or an offset |
| TomlFaults.ShapeOfOne | lib/cpptoml-master-20170107/include/cpptoml.h:2349-2352 | a digit or a fixed character of the pattern matches just that |
| TomlFaults.ShapeJoins | lib/cpptoml-master-20170107/include/cpptoml.h:2349-2352 | and so on for each character of it |
| TomlStandard.HexDigits | lib/cpptoml-master-20170107/include/cpptoml.h:1922-1962 | the digits of such escapes, small and capital |
| TomlStandard.ControlsAre | lib/cpptoml-master-20170107/include/cpptoml.h:2704-2719 | the control characters that TOML wants escaped |
| TomlStandard.EscapesByNumber | lib/cpptoml-master-20170107/include/cpptoml.h:1922-1962 | the escapes by number that the parser lacks, with four digits and with eight |
| TomlStandard.TomlIntIs | lib/cpptoml-master-20170107/include/cpptoml.h:2026-2046 | the integers of TOML but for leading zeros are the integers the parser knows, for the same numbers |
| TomlSpec.HomogeneousPair | lib/cpptoml-master-20170107/include/cpptoml.h:2213-2222 | two elements of an array are of one kind: strings, integers, booleans or arrays |
| TomlAccepted.AcceptsExactlyLoose | lib/cpptoml-master-20170107/include/cpptoml.h:2165-2262 | for every text and the lines behind it, in a build with regular expressions and in one without: the parser reads an array and stops at a place if and only if the text up to that place is a way that it knows to write a homogeneous tree, in which an array of scalars may end with any character but a blank, a hash or a comma |
| TomlAccepted.SameSpelling | lib/cpptoml-master-20170107/include/cpptoml.h:2165-2262 | a text is written in at most one way, so it determines the tree, its layout and where it ends |
| TomlAccepted.ArrayFound | lib/cpptoml-master-20170107/include/cpptoml.h:2165-2210 | whatever is read as an array is a way to write one |
| TomlAccepted.ItemsFound | lib/cpptoml-master-20170107/include/cpptoml.h:2213-2233 | whatever the loop over scalars reads is a way to write the rest of such an array |
| TomlAccepted.ObjectsFound | lib/cpptoml-master-20170107/include/cpptoml.h:2236-2262 | whatever the loop over arrays reads is a way to write the rest of such an array, closed by a bracket |
| TomlAccepted.ScalarFound | lib/cpptoml-master-20170107/include/cpptoml.h:1711-1733 | whatever is read as a scalar is a way to write it, in front of something that may stand behind it |
| TomlAccepted.StringFound | lib/cpptoml-master-20170107/include/cpptoml.h:1787-1919 | whatever is read as a string is a way to write it |
| TomlAccepted.IntFound | lib/cpptoml-master-20170107/include/cpptoml.h:1964-2046 | whatever is read as an integer is a way to write it |
| TomlAccepted.GapFound | lib/cpptoml-master-20170107/include/cpptoml.h:2288-2301 | what is skipped in front of a token is blanks, comments and line ends |
| TomlGrammar.ReadsArray | lib/cpptoml-master-20170107/include/cpptoml.h:2165-2262 | however an array tree is written in the ways that the parser knows (blanks, comments and line feeds in the gaps, seven escapes or apostrophes, plus signs, underscores, a comma at the end), it is parsed as that tree and exactly its text is consumed, if and only if it is homogeneous; any other tree is refused |
| TomlGrammar.ReadsValues | lib/cpptoml-master-20170107/include/cpptoml.h:2213-2233 | the rest of an array of one scalar type is read; an element of another type is an error |
| TomlGrammar.ReadsObjects | lib/cpptoml-master-20170107/include/cpptoml.h:2236-2262 | the rest of an array of arrays is read; anything else among them is an error |
| TomlGrammar.ReadsScalar | lib/cpptoml-master-20170107/include/cpptoml.h:1711-1733 | a string, integer or boolean, in any spelling, is read from in front of whatever may stand behind it |
| TomlGrammar.ReadsString | lib/cpptoml-master-20170107/include/cpptoml.h:1787-1807 | a string in quotes with the seven escapes, or in apostrophes, is read, the empty one included |
| TomlGrammar.ReadsBody | lib/cpptoml-master-20170107/include/cpptoml.h:1895-1919 | the inside of a quoted string is read to its closing quote |
| TomlGrammar.ReadsInt | lib/cpptoml-master-20170107/include/cpptoml.h:1964-2046 | a 64-bit integer with sign and underscores is read |
| TomlGrammar.EatsGrouped | lib/cpptoml-master-20170107/include/cpptoml.h:1977-1992 | digits with single underscores between them are eaten whole |
| TomlGrammar.ReadsBool | lib/cpptoml-master-20170107/include/cpptoml.h:2070-2084 | booleans are read |
| TomlGrammar.SeesType | lib/cpptoml-master-20170107/include/cpptoml.h:1735-1785 | the type of an element is recognised from its text, also when the text is cut at the first comma, bracket or hash |
| TomlGrammar.NumberIsNoDate | lib/cpptoml-master-20170107/include/cpptoml.h:2331-2344 | no integer is taken for a date, by the pattern or by the look-ahead |
| TomlGrammar.SkipsGap | lib/cpptoml-master-20170107/include/cpptoml.h:2288-2301 | whatever blanks, comments and line ends stand in front of a token, the token is found |
| TomlGrammar.ReadsComma | lib/cpptoml-master-20170107/include/cpptoml.h:2224-2228 | a gap, a comma and a gap lead to the next element |
| TomlGrammar.ReadsEnd | lib/cpptoml-master-20170107/include/cpptoml.h:2224-2226 | a gap and any character but a comma end the loop |
| TomlGrammar.CutType | lib/cpptoml-master-20170107/include/cpptoml.h:2186-2188 | the type of the first element does not depend on the text behind it |
| TomlGrammar.ArrayByFirst | lib/cpptoml-master-20170107/include/cpptoml.h:2186-2210 | the first element decides which loop reads the array |
| TomlRoundTrip.RoundTrip | lib/cpptoml-master-20170107/include/cpptoml.h:2165-2262 | parsing what the writer emits gives the tree back and consumes exactly that text, if and only if the tree is homogeneous |
| TomlRoundTrip.LaidOfText | lib/cpptoml-master-20170107/include/cpptoml.h:2529-2549 | the text the writer emits is one way to write the tree |
| TomlRoundTrip.LaidOfSpells | lib/cpptoml-master-20170107/include/cpptoml.h:2529-2584 | each scalar in the writer's layout is written in a way that the parser knows, for its value |
| TomlRoundTrip.EscapedSpells | lib/cpptoml-master-20170107/include/cpptoml.h:2704-2719 | what the writer escapes, escapes denote |
| TomlRoundTrip.WrittenArray | lib/cpptoml-master-20170107/include/cpptoml.h:2529-2549 | a comma and a blank stand between elements |
| TomlRoundTrip.WrittenString | lib/cpptoml-master-20170107/include/cpptoml.h:2704-2719 | a quote, a line feed and a backslash are written as escapes |
| TomlParser.Parser.ConsumeWhitespace | lib/cpptoml-master-20170107/include/cpptoml.h:2303-2308 | moves over blanks and tabs |
| TomlParser.Parser.SkipWhitespaceAndComments | lib/cpptoml-master-20170107/include/cpptoml.h:2288-2301 | moves to the next character that counts, fetching lines; an error at the end of the input |
| TomlParser.Parser.SkipSeparator | lib/cpptoml-master-20170107/include/cpptoml.h:2224-2228 | moves behind an element and over a comma |
| TomlParser.Parser.DetermineValueType | lib/cpptoml-master-20170107/include/cpptoml.h:1735-1762 | the type by first character and look-ahead, with the date pattern or the approximate test by the build |
| TomlParser.Parser.DetermineNumberType | lib/cpptoml-master-20170107/include/cpptoml.h:1765-1785 | a number is a float if a point follows its digits |
| TomlParser.Parser.ParseEscapeCode | lib/cpptoml-master-20170107/include/cpptoml.h:1921-1962 | the seven escapes, and an error for any other |
| TomlParser.Parser.ReadStringLiteral | lib/cpptoml-master-20170107/include/cpptoml.h:1895-1919 | the loop reads what the text means, or fails as it must |
| TomlParser.Parser.ReadString | lib/cpptoml-master-20170107/include/cpptoml.h:1787-1807 | a delimiter followed by two more begins another kind of string |
| TomlParser.Parser.EatDigits | lib/cpptoml-master-20170107/include/cpptoml.h:1977-1992 | digits with single underscores between them; misplaced ones and no digits are errors |
| TomlParser.Parser.ReadNumber | lib/cpptoml-master-20170107/include/cpptoml.h:1964-2024 | sign, digits, and a float mark that leads elsewhere |
| TomlParser.Parser.ReadInt | lib/cpptoml-master-20170107/include/cpptoml.h:2026-2046 | the number without underscores, or an error outside 64 bits |
| TomlParser.Parser.ReadBool | lib/cpptoml-master-20170107/include/cpptoml.h:2070-2084 | the word up to a delimiter is true, false or an error |
| TomlParser.Parser.ReadValue | lib/cpptoml-master-20170107/include/cpptoml.h:1711-1733 | dispatch on the type |
| TomlParser.Parser.ReadArray | lib/cpptoml-master-20170107/include/cpptoml.h:2165-2210 | what the text means as an array |
| TomlParser.Parser.ReadValueArray | lib/cpptoml-master-20170107/include/cpptoml.h:2213-2233 | the loop collects what the text means, whatever character ends it |
| TomlParser.Parser.ReadObjectArray | lib/cpptoml-master-20170107/include/cpptoml.h:2236-2262 | the loop collects arrays and insists on the closing bracket |
| TomlWriter.Writer.EscapeString | lib/cpptoml-master-20170107/include/cpptoml.h:2704-2719 | backslash, quote and newline are escaped, all else is kept |
| TomlWriter.Writer.Write | lib/cpptoml-master-20170107/include/cpptoml.h:2725-2729 | appends to the stream |
| TomlWriter.Writer.WriteString | lib/cpptoml-master-20170107/include/cpptoml.h:2571-2576 | a quoted escaped string is appended |
| TomlWriter.Writer.VisitScalar | lib/cpptoml-master-20170107/include/cpptoml.h:2571-2584 | the text of a scalar is appended |
| TomlWriter.Writer.VisitArray | lib/cpptoml-master-20170107/include/cpptoml.h:2529-2549 | the text of a whole tree is appended |
| TomlWriter.WriteAndRead | lib/cpptoml-master-20170107/include/cpptoml.h:2529-2549 | writing and parsing by the two classes gives the tree back, and the parser stands right behind its text, exactly when it is homogeneous; otherwise it fails |
| TomlWriter.ReadSpelling | lib/cpptoml-master-20170107/include/cpptoml.h:2165-2262 | the parsing class reads every way to write a homogeneous tree and stands right behind its text; it fails on any other tree |
| Texts.DecimalReads | lib/cpptoml-master-20170107/include/cpptoml.h:2581-2584 | the decimal text of a number is digits only and reads as the number |
| RegexMatcher.ValidateRegex | lib/gtest-1.8.0/src/gtest-port.cc:681-735 | accepts exactly the texts of patterns: an optional caret, atoms each with at most one repeat, an optional dollar; refuses NULL |
| RegexMatcher.AcceptsIffParses | lib/gtest-1.8.0/src/gtest-port.cc:691-733 | the scanning loop accepts exactly what has a pattern, whatever the last atom |
| RegexSpec.SimpleIffParses | lib/gtest-1.8.0/src/gtest-port.cc:681-735 | a text is a pattern exactly when it can be read as one, and then only as that one |
| RegexSpec.ParseRenders | lib/gtest-1.8.0/src/gtest-port.cc:681-735 | a pattern read from a text is written as the text |
| RegexSpec.ParseReads | lib/gtest-1.8.0/src/gtest-port.cc:681-735 | the text of a pattern is read as that pattern |
| RegexMatcher.MatchRepetitionAndRegexAtHead | lib/gtest-1.8.0/src/gtest-port.cc:744-764 | true exactly when some permitted number of repetitions and then the rest match at the front |
| RegexMatcher.MatchRegexAtHead | lib/gtest-1.8.0/src/gtest-port.cc:771-797 | terminates, and is true exactly when a front of the string (all of it before a final dollar) is in the language of the pattern |
| RegexMatcher.MatchRegexAnywhere | lib/gtest-1.8.0/src/gtest-port.cc:807-820 | true exactly when a part of the string matches, respecting the anchors; false for NULL |
| RegexMatcher.RE.constructor | lib/gtest-1.8.0/src/gtest-port.cc:841-872 | a valid pattern gets the full pattern with both anchors |
| RegexMatcher.BuildFullPattern | lib/gtest-1.8.0/src/gtest-port.cc:853-871 | the buffer holds the pattern with the missing anchors added |
| RegexMatcher.FullTextRenders | lib/gtest-1.8.0/src/gtest-port.cc:859-869 | the buffer is the text of the anchored pattern |
| RegexMatcher.RE.PartialMatch | lib/gtest-1.8.0/src/gtest-port.cc:836-838 | valid, and a part of the string matches |
| RegexMatcher.RE.FullMatch | lib/gtest-1.8.0/src/gtest-port.cc:830-832 | valid, and the anchored pattern is found |
| RegexMatcher.FullPatternFound | lib/gtest-1.8.0/src/gtest-port.cc:830-832 | what the anchored pattern finds: the whole string, or, after an escaped dollar, a front of it |
| RegexMatcher.FullMatchIsWholeMatch | lib/gtest-1.8.0/src/gtest-port.cc:828-872 | a full match is a match of the whole string for every string if and only if the pattern does not end in an escaped dollar |
| RegexMatcher.EscapedDollarMatchesFront | lib/gtest-1.8.0/src/gtest-port.cc:828-872 | the pattern of a letter a and an escaped dollar does not match a$x, and a full match of it is found |
| RegexMatcher.FoundIffHead | lib/gtest-1.8.0/src/gtest-port.cc:807-820 | being found somewhere is being found at the head of some rest |
| RegexMatcher.TestsAsMeant | lib/gtest-1.8.0/src/gtest-port.cc:652-671 | the code tests an atom as its class or character means |
| RegexLaws.DotMatches | lib/gtest-1.8.0/src/gtest-port.cc:670-670 | the dot matches any one character but a line feed |
| RegexLaws.PlainMatches | lib/gtest-1.8.0/src/gtest-port.cc:670-670 | any other unescaped atom matches itself |
| RegexLaws.DigitMatches | lib/gtest-1.8.0/src/gtest-port.cc:655-656 | the digit class matches the ten digits, its opposite all other characters |
| RegexLaws.WordMatches | lib/gtest-1.8.0/src/gtest-port.cc:664-665 | the word class matches letters, digits and the underscore, its opposite all other characters |
| RegexLaws.BlankMatches | lib/gtest-1.8.0/src/gtest-port.cc:660-661 | the blank class matches the six blanks, its opposite all other characters |
| RegexLaws.SpecialMatches | lib/gtest-1.8.0/src/gtest-port.cc:657-663 | the escapes of special characters match them |
| RegexLaws.PunctuationMatches | lib/gtest-1.8.0/src/gtest-port.cc:667-667 | escaped punctuation matches itself |
| RegexLaws.EscapesParse | lib/gtest-1.8.0/src/gtest-port.cc:646-648 | what can be escaped |
| RegexLaws.SingleParses | lib/gtest-1.8.0/src/gtest-port.cc:681-735 | which single characters are patterns |
| RegexLaws.RepeatMatches | lib/gtest-1.8.0/src/gtest-port.cc:744-764 | a question mark makes an atom optional, a star repeats it at will, a plus at least once |
| RegexLaws.JoinedMatch | lib/gtest-1.8.0/src/gtest-port.cc:771-797 | items one behind the other match what the first match, and then the second |
| RegexLaws.AnchorsRead | lib/gtest-1.8.0/src/gtest-port.cc:771-820 | a caret in front and a dollar at the end are anchors |
| FrameHeader.DecodesEncoding | okcoin_client/websocketpp/frame.hpp:189-275 | every header, with any flags, opcode, 64-bit size and key, reads back from its bytes |
| FrameHeader.PrefixFree | okcoin_client/websocketpp/frame.hpp:445-458 | no header is the beginning of another |
| FrameHeader.ShortestForm | okcoin_client/websocketpp/frame.hpp:218-224 | of all byte sequences that read as a header, the one built is the shortest, and strictly shorter exactly if the size was not in its shortest form |
| FrameHeader.EncodesDecoding | okcoin_client/websocketpp/processors/hybi13.hpp:847-865 | building a header from what bytes were read as gives the bytes back if and only if their size is in its shortest form, which the receiving side checks |
| FrameHeader.LengthIsHeaderLength | okcoin_client/websocketpp/frame.hpp:445-477 | the length is read off the second byte |
| FrameHeader.OffsetIsExtendedSize | okcoin_client/websocketpp/frame.hpp:469-477 | the key lies right behind the bytes of the size |
| FrameHeader.HeaderLength | okcoin_client/websocketpp/frame.hpp:445-458 | the length is between 2 and 14 |
| FrameHeader.BasicHeader.FromFields | okcoin_client/websocketpp/frame.hpp:194-228 | sets flag bits one by one to the two fixed bytes of section 5.2 of RFC 6455 |
| FrameHeader.ExtendedHeader.constructor | okcoin_client/websocketpp/frame.hpp:240-256 | the bytes hold the size in network order, then the key, then zeros |
| FrameHeader.ExtendedHeader.CopyPayload | okcoin_client/websocketpp/frame.hpp:260-274 | zero, two or eight bytes of size are copied |
| FrameHeader.SwappedBytes | okcoin_client/websocketpp/common/network.hpp:79-84 | the swapped word has the bytes in the opposite order |
| FrameHeader.Htonll | okcoin_client/websocketpp/common/network.hpp:66-85 | four swaps in the union give the swapped word |
| FrameHeader.ExtendedHeader.GetJumboSize | okcoin_client/websocketpp/frame.hpp:555-559 | reads the eight-byte size written by the constructor |
| FrameHeader.GetPayloadSize | okcoin_client/websocketpp/frame.hpp:573-585 | the payload size by the size code |
| FrameHeader.GetMaskingKey | okcoin_client/websocketpp/frame.hpp:516-529 | the key, or zeros |
| FrameHeader.BuildHeader | okcoin_client/websocketpp/frame.hpp:489-502 | building from any fields and preparing gives the bytes that the encoding has for them |
| FrameHeader.EncodedTopBit | okcoin_client/websocketpp/frame.hpp:218-224 | these are bytes that section 5.2 of RFC 6455 allows, with the top bit of a size in eight bytes 0, if and only if the size is below 2^63 |
| WireVectors.SmallHeaders | okcoin_client/websocketpp/frame.hpp:194-228 | the headers of the unmasked examples of section 5.7 of RFC 6455, byte for byte |
| WireVectors.MaskedHeaders | okcoin_client/websocketpp/frame.hpp:194-256 | those of the masked examples |
| WireVectors.LargeHeaders | okcoin_client/websocketpp/frame.hpp:240-274 | those of 256 bytes and of 64 kilobytes |
| WireVectors.HelloMasked | okcoin_client/websocketpp/frame.hpp:641-652 | the masked payload of the examples |
| Masking.ByteMask | okcoin_client/websocketpp/frame.hpp:641-652 | the stretch is combined with the key from an offset on, and nothing else changes, also in place |
| Masking.WordMaskExact | okcoin_client/websocketpp/frame.hpp:699-714 | masking by words and then bytes equals byte masking from offset 0, and bytes past the length are untouched |
| Masking.WordMaskCirc | okcoin_client/websocketpp/frame.hpp:765-786 | masks as at the offset the key was turned to, and returns the key turned past the data |
| Masking.ByteMaskCirc | okcoin_client/websocketpp/frame.hpp:827-838 | the same byte by byte |
| Masking.MaskInPieces | okcoin_client/websocketpp/frame.hpp:765-838 | masking in any pieces by any mix of the two functions equals one masking of the whole payload |
| Masking.MaskingTwice | okcoin_client/websocketpp/frame.hpp:641-652 | masking twice with one key restores the data |
| Masking.MaskedByZeros | okcoin_client/websocketpp/frame.hpp:641-652 | a key of zeros masks nothing |
| Masking.ZerosMasked | okcoin_client/websocketpp/frame.hpp:641-652 | zeros masked are the key over and over, from the offset on |
| Masking.MaskedBits | okcoin_client/websocketpp/frame.hpp:647-647 | each masked octet has the bits in which the octet and its octet of the key differ |
| Words.XorWordsIsDifference | okcoin_client/websocketpp/frame.hpp:708-708 | the same of words |
| Words.LowByteFirst | okcoin_client/websocketpp/frame.hpp:595-604 | the low-order byte of a word comes first |
| Masking.MaskedAppend | okcoin_client/websocketpp/frame.hpp:641-652 | masking splits anywhere if the offset goes along |
| Masking.PreparedAtStart | okcoin_client/websocketpp/frame.hpp:595-604 | a prepared key repeats the key from its start |
| Masking.ShiftAdvances | okcoin_client/websocketpp/frame.hpp:612-620 | turning the prepared key keeps it in step with the data masked |
| Words.ByteOfTurn | okcoin_client/websocketpp/frame.hpp:612-620 | a turned word has its bytes moved around in a circle |
| Processor.Processor.Consume | okcoin_client/websocketpp/processors/hybi13.hpp:328-455 | for any buffer, the state after it, the bytes left, and the error are those of reading the bytes one by one |
| Processor.Processor.Step | okcoin_client/websocketpp/processors/hybi13.hpp:335-450 | one turn of the loop loses no meaning and makes progress |
| Processor.Processor.StepBasic | okcoin_client/websocketpp/processors/hybi13.hpp:340-356 | the two fixed bytes, in one or two reads, and the checks on them |
| Processor.Processor.StepExtended | okcoin_client/websocketpp/processors/hybi13.hpp:357-416 | the rest of a header, in any reads; the size check; the message it begins or goes on with |
| Processor.Processor.StepApplication | okcoin_client/websocketpp/processors/hybi13.hpp:419-446 | payload bytes unmasked in place, appended and validated; the end of a frame and of a message |
| Processor.Processor.CopyBasicHeaderBytes | okcoin_client/websocketpp/processors/hybi13.hpp:655-684 | copies one or two bytes |
| Processor.Processor.CopyExtendedHeaderBytes | okcoin_client/websocketpp/processors/hybi13.hpp:687-695 | copies what there is |
| Processor.Processor.ProcessPayloadBytes | okcoin_client/websocketpp/processors/hybi13.hpp:710-757 | what adding the unmasked bytes one by one does |
| Processor.Processor.UnmaskPayload | okcoin_client/websocketpp/processors/hybi13.hpp:712-727 | the bytes as the sender meant them, and the key ready for the next |
| Processor.Processor.AppendPayload | okcoin_client/websocketpp/processors/hybi13.hpp:729-752 | appends, and refuses a text that became hopeless |
| Processor.Processor.BeginFrame | okcoin_client/websocketpp/processors/hybi13.hpp:366-416 | a complete header begins a frame, or is refused, as its fields say |
| Processor.Processor.BeginMessage | okcoin_client/websocketpp/processors/hybi13.hpp:372-416 | a new control or data message, or the next fragment; size limits |
| Processor.Processor.FinishFrame | okcoin_client/websocketpp/processors/hybi13.hpp:432-446 | a final frame makes its message ready, judging a text only if the final frame is a text frame |
| Processor.Processor.ValidateIncomingBasicHeader | okcoin_client/websocketpp/processors/hybi13.hpp:769-834 | the first fault of the two fixed bytes |
| Processor.Processor.ValidateIncomingExtendedHeader | okcoin_client/websocketpp/processors/hybi13.hpp:847-872 | a size in a longer form than needed is refused |
| Processor.Processor.GetMessage | okcoin_client/websocketpp/processors/hybi13.hpp:476-492 | hands out the ready message and forgets it |
| Processor.Processor.ResetHeaders | okcoin_client/websocketpp/processors/hybi13.hpp:457-469 | awaits two bytes, both header buffers zeroed |
| Processor.Processor.constructor | okcoin_client/websocketpp/processors/hybi13.hpp:72-78 | a fresh session |
| Processor.Receive | okcoin_client/websocketpp/processors/hybi13.hpp:328-492 | however a stream is cut into chunks, the messages and the error are those of the whole stream |
| Processor.ReceiveChunk | okcoin_client/websocketpp/processors/hybi13.hpp:328-492 | the same for one chunk from any state |
| Session.RunAppend | okcoin_client/websocketpp/processors/hybi13.hpp:328-455 | bytes may arrive in any two pieces |
| Session.DeliverAppend | okcoin_client/websocketpp/processors/hybi13.hpp:328-492 | so may the bytes of many messages |
| Session.RunExtended | okcoin_client/websocketpp/processors/hybi13.hpp:687-695 | header bytes copied at once are header bytes read one by one |
| Session.RunPayload | okcoin_client/websocketpp/processors/hybi13.hpp:710-757 | payload bytes processed at once are payload bytes read one by one, refusal included |
| Session.BasicErrorIsFrameError | okcoin_client/websocketpp/processors/hybi13.hpp:769-834 | the checks on the two fixed bytes are the rules of sections 5.2, 5.4, 5.5 and 5.1 of RFC 6455 on the fields of the frame |
| Session.ReadsHeader | okcoin_client/websocketpp/processors/hybi13.hpp:338-366 | an encoded header is read as what it was built from |
| Session.ReadsFrame | okcoin_client/websocketpp/processors/hybi13.hpp:328-455 | the bytes of a frame do what the frame means, its data unmasked |
| Session.DeliversFrames | okcoin_client/websocketpp/processors/hybi13.hpp:328-492 | the bytes of any frames deliver the messages of the frames |
| Session.ControlBit | okcoin_client/websocketpp/frame.hpp:139-141 | control opcodes are those with the most significant bit set |
| Session.OpcodesInUse | okcoin_client/websocketpp/frame.hpp:118-121 | data frames have the opcodes 0, 1 and 2, control frames 8, 9 and 10, and all others are reserved |
| Session.FrameRules | okcoin_client/websocketpp/processors/hybi13.hpp:769-834 | a frame breaks no rule if and only if no extension is in use, its opcode is not reserved, it goes on with a message exactly if one is under way, control frames are final and small, and exactly the frames to a server are masked |
| WireVectors.HelloArrives | okcoin_client/websocketpp/processors/hybi13.hpp:328-492 | the masked and the unmasked text of section 5.7 of RFC 6455 are delivered |
| WireVectors.FragmentsArrive | okcoin_client/websocketpp/processors/hybi13.hpp:328-492 | its fragmented text, with a ping in between |
| WireVectors.BinaryArrives | okcoin_client/websocketpp/processors/hybi13.hpp:328-492 | its binary messages of 256 bytes and of 64 kilobytes |
| WireVectors.CloseArrivesBetween | okcoin_client/websocketpp/processors/hybi13.hpp:328-492 | a close frame between the fragments of a text is delivered at once, and the text stays under way |
| WireVectors.BrokenRules | okcoin_client/websocketpp/processors/hybi13.hpp:769-834 | bytes that break each rule of the two fixed bytes, and the error of each |
| WireVectors.SecondBegins | okcoin_client/websocketpp/processors/hybi13.hpp:818-823 | a second message cannot begin while one is under way |
| WireVectors.LongFormRefused | okcoin_client/websocketpp/processors/hybi13.hpp:847-865 | a size in a longer form than needed is refused |
| WireVectors.LargeRefused | okcoin_client/websocketpp/processors/hybi13.hpp:383-402 | a message over the limit is refused by its header |
| Streams.StreamIsFrames | okcoin_client/websocketpp/processors/hybi13.hpp:328-492 | any bytes that do not fail are those of valid frames and the beginning of one more, and deliver the messages of the frames |
| Streams.FirstFrame | okcoin_client/websocketpp/processors/hybi13.hpp:328-455 | bytes that do not fail either begin with a whole valid frame or are the beginning of one |
| Streams.BufferedFits | okcoin_client/websocketpp/processors/hybi13.hpp:383-416 | along every stream the buffered data, with what the frame under way adds, is within the size limit and control messages within 125 bytes, if and only if no continuation frame is so long that the sum in the size check wraps around |
| Streams.BeginFits | okcoin_client/websocketpp/processors/hybi13.hpp:372-416 | a frame that begins keeps the limits if and only if its size check does not wrap around |
| Streams.HugeFramePasses | okcoin_client/websocketpp/processors/hybi13.hpp:399-402 | with one byte buffered and a limit of one byte, a continuation frame of 2^64 - 1 bytes passes the check, and its first byte exceeds the limit |
| Streams.StartFits | okcoin_client/websocketpp/processors/hybi13.hpp:72-78 | a fresh session is within its limits |
| Streams.DeliveredIsWithin | okcoin_client/websocketpp/processors/hybi13.hpp:383-492 | along a stream on which no size check wraps around, every message delivered is within its limit |
| Streams.TopBitNotChecked | okcoin_client/websocketpp/processors/hybi13.hpp:383-416 | the top bit of a size is not checked: a first frame with it begins a message if the limit allows such a size |
| Messages.MessageDelivered | okcoin_client/websocketpp/processors/hybi13.hpp:328-492 | a message, in any fragments with any control frames between, is delivered whole behind those control messages, if and only if it is within the limit and, if it is text, one UTF-8 frame or fragments that could become UTF-8; otherwise it ends in the error of its text as far as that fits, or else of its size |
| Messages.TailDelivers | okcoin_client/websocketpp/processors/hybi13.hpp:383-446 | the same from any fragment on |
| Messages.FramesBetween | okcoin_client/websocketpp/processors/hybi13.hpp:769-834 | the control frames and fragments of a message are those that break no rule while it is under way |
| Messages.TruncatedTextDelivered | okcoin_client/websocketpp/processors/hybi13.hpp:435-441 | a text cut inside a character is delivered when it comes in two fragments |
| Messages.ConversationDelivered | okcoin_client/websocketpp/processors/hybi13.hpp:328-492 | any sequence of accepted messages is delivered complete and in order |
| Messages.WiresDelivered | okcoin_client/websocketpp/processors/hybi13.hpp:328-492 | so are their bytes |
| Sending.PrepareDataFrame | okcoin_client/websocketpp/processors/hybi13.hpp:527-597 | a data frame as section 5.2 has it, or the error for an opcode from 8 on or a text that is not UTF-8 |
| Sending.PrepareControl | okcoin_client/websocketpp/processors/hybi13.hpp:906-946 | a control frame, or the error for an opcode below 8 or more than 125 bytes |
| Sending.MaskedCopy | okcoin_client/websocketpp/processors/hybi13.hpp:882-897 | a masked copy, or the data itself on a server |
| Sending.PreparedIsRead | okcoin_client/websocketpp/processors/hybi13.hpp:328-597 | any sequence of frames that one side prepares without an error is received without an error on the other side, if and only if every frame has its place (no reserved opcode, continuation exactly while a message is under way, the limit kept, no text made hopeless), and then delivers the messages that the frames complete |
| Sending.PlaceIsRead | okcoin_client/websocketpp/processors/hybi13.hpp:328-455 | the same for one frame |
| Sending.ControlArrives | okcoin_client/websocketpp/processors/hybi13.hpp:906-946 | close, ping and pong frames of at most 125 bytes are delivered at once, and the data message under way stays as it was |
| Sending.ReservedIsPrepared | okcoin_client/websocketpp/processors/hybi13.hpp:527-597 | data frames with reserved opcodes are prepared without an error and never received |
| Sending.PreparedIsDelivered | okcoin_client/websocketpp/processors/hybi13.hpp:527-597 | a whole text or binary message in one frame is delivered as the message that was meant |
| Sending.WholeMessageArrives | okcoin_client/websocketpp/processors/hybi13.hpp:527-597 | a whole text or binary message in one frame has its place exactly if it is within the limit |
| Sending.SendAndReceive | okcoin_client/websocketpp/processors/hybi13.hpp:328-597 | and arrives, or fails, so through the receiving class in any chunks |
| Uri.RoundTrip | okcoin_client/websocketpp/uri.hpp:50-282 | for every URI, whichever constructor made it, writing it and parsing the text gives it back if and only if it is well-formed and its host has no colon or slash and does not begin with a bracket |
| Uri.TextRoundTrip | okcoin_client/websocketpp/uri.hpp:50-282 | a valid text stands for the same URI as the text its URI is written as if and only if the host read from it has no colon or slash and does not begin with a bracket |
| Uri.AddressIsLost | okcoin_client/websocketpp/uri.hpp:82-117 | ws://[::1]/ is valid, and its URI is not read back from the text it is written as |
| UriGrammar.ParsesExactly | okcoin_client/websocketpp/uri.hpp:50-166 | a text stands for a URI if and only if it is its scheme, its host, bracketed or not, its port, 80 or 443 if none is given, and its resource |
| UriGrammar.AtoiIs | okcoin_client/websocketpp/uri.hpp:328-328 | the C library skips white space, takes a sign, and reads the digits up to any other character |
| Uri.WithoutBracketRoundTrip | okcoin_client/websocketpp/uri.hpp:50-282 | every valid text without a bracketed address survives writing and parsing, default ports included |
| Uri.ParsedIsWellFormed | okcoin_client/websocketpp/uri.hpp:50-166 | a parsed URI has one of four schemes with the matching security, a port in range and a resource that begins with a slash |
| Uri.PortReads | okcoin_client/websocketpp/uri.hpp:319-339 | the decimal text of a port in range is read as the port |
| Uri.AtoiReads | okcoin_client/websocketpp/uri.hpp:328-328 | the C library reads back what the stream wrote |
| Uri.BracketedHost | okcoin_client/websocketpp/uri.hpp:82-117 | a host that begins with a bracket is never read back |
| Uri.CutHost | okcoin_client/websocketpp/uri.hpp:119-134 | a host with a colon or slash is cut there |
| Uri.ParsedUri.constructor | okcoin_client/websocketpp/uri.hpp:50-166 | valid exactly for the texts that stand for a URI, and then that URI |
| Uri.ParsedUri.ReadBracketed | okcoin_client/websocketpp/uri.hpp:82-117 | the host between the brackets and what follows it |
| Uri.ParsedUri.ReadUnbracketed | okcoin_client/websocketpp/uri.hpp:119-134 | the host up to a colon or slash, by the state loop |
| Uri.ParsedUri.ReadPort | okcoin_client/websocketpp/uri.hpp:138-152 | the port text up to a slash |
| Uri.ParsedUri.ReadPortAndResource | okcoin_client/websocketpp/uri.hpp:137-165 | port and resource, or not valid |
| Uri.ParsedUri.GetPortFromString | okcoin_client/websocketpp/uri.hpp:319-339 | a default for no text, none outside 1 to 65535 |
| Uri.ParsedUri.Str | okcoin_client/websocketpp/uri.hpp:272-283 | the text of the URI |
| Uri.ParseTwice | okcoin_client/websocketpp/uri.hpp:50-283 | parsing, writing and parsing again by the class gives the same URI if and only if its host is as above |
| Base64.DecodesEncoding | okcoin_client/websocketpp/base64/base64.hpp:66-174 | decoding an encoding gives the bytes back, and encodings are canonical texts |
| Base64.EncodesDecoding | okcoin_client/websocketpp/base64/base64.hpp:66-174 | encoding what was decoded gives a text back if and only if it is canonical: whole groups, right padding, unused bits zero |
| Base64.EncodingInjective | okcoin_client/websocketpp/base64/base64.hpp:66-112 | different bytes have different encodings |
| Base64.Examples | okcoin_client/websocketpp/base64/base64.hpp:66-112 | the example of section 9 of RFC 4648 and two of section 10 |
| Base64.Alphabet0 | okcoin_client/websocketpp/base64/base64.hpp:43-46 | the first quarter of the alphabet of section 4, in order |
| Base64.Alphabet1 | okcoin_client/websocketpp/base64/base64.hpp:43-46 | the second quarter |
| Base64.Alphabet2 | okcoin_client/websocketpp/base64/base64.hpp:43-46 | the third quarter |
| Base64.Alphabet3 | okcoin_client/websocketpp/base64/base64.hpp:43-46 | the last quarter |
| Base64.SextetsAreBits | okcoin_client/websocketpp/base64/base64.hpp:75-80 | the four sextets are the bits of the three octets, in order |
| Base64.EncodedLength | okcoin_client/websocketpp/base64/base64.hpp:66-112 | the length is 4 times the number of groups of three |
| Base64.PaddingAtEnd | okcoin_client/websocketpp/base64/base64.hpp:102-108 | padding stands exactly in the last places that hold no data |
| Base64.IsLetter | okcoin_client/websocketpp/base64/base64.hpp:53-58 | the range test accepts exactly the alphabet |
| Base64.Base64Encode | okcoin_client/websocketpp/base64/base64.hpp:66-112 | the loop gives the encoding of section 4 of RFC 4648 |
| Base64.EncodeRest | okcoin_client/websocketpp/base64/base64.hpp:90-109 | the padded last group |
| Base64.Base64Decode | okcoin_client/websocketpp/base64/base64.hpp:131-174 | the loop gives the octets of the letters up to the first other character |
| Base64.DecodeRest | okcoin_client/websocketpp/base64/base64.hpp:157-171 | the incomplete last group |
| Base64.EncodeAndDecode | okcoin_client/websocketpp/base64/base64.hpp:66-174 | the two loops undo each other |
| RocStrategy.Strategy.OnTick | strategy/roc_strategy.h:278-295 | after a tick the three windows are the ends of the batch computation over the series with the tick absorbed; the flag is set by its time once there are means, and kept before |
| RocStrategy.Strategy.UpdateIndicators | strategy/roc_strategy.h:280-295 | the newest rate of change goes in |
| RocStrategy.Strategy.UpdateMaroc | strategy/roc_strategy.h:284-286 | the mean of the newest six goes in |
| RocStrategy.Strategy.CalcRocAndMaroc | strategy/roc_strategy.h:260-325 | a message keeps the invariant with the ticks of its channel absorbed, and the answer is that its last tick differs in time from the newest mean |
| RocStrategy.Strategy.OnTicks | strategy/roc_strategy.h:272-297 | the ticks of one packet, behind those of the message so far |
| RocStrategy.AnswerIsTrue | strategy/roc_strategy.h:259-297 | from any series on, the answer says whether there is a new mean if and only if the last tick begins a minute (and not the first with a mean at the time 0), or overwrites and no mean came before it in the message, or is too old and one did or there are none |
| RocStrategy.MeansOfSeries | strategy/roc_strategy.h:284-286 | how many means a series has |
| RocStrategy.StaleTickReported | strategy/roc_strategy.h:285-286 | a tick that is too old changes nothing and is reported |
| RocStrategy.NewMinuteMissed | strategy/roc_strategy.h:285-286 | a new minute with two prices in one message is not reported |
| RocStrategy.AbsorbAllAppend | strategy/roc_strategy.h:260-325 | how ticks are batched makes no difference |
| RocStrategy.ConcerningAppend | strategy/roc_strategy.h:264-266 | the ticks of a channel are those of its packets, in order |
| RocStrategy.ConcerningOne | strategy/roc_strategy.h:264-266 | a packet of another channel is passed over |
| RocStrategy.RocAbsorbs | strategy/roc_strategy.h:280-283 | one tick changes the rates of change as a window would take the newest of them |
| RocStrategy.MarocAbsorbs | strategy/roc_strategy.h:284-286 | the same for the means |
| RocStrategy.RocThroughWindow | strategy/roc_strategy.h:280-283 | the windows that keep only the end lose nothing |
| RocStrategy.MarocThroughWindow | strategy/roc_strategy.h:284-286 | the same for the means |
| RocStrategy.Strategy.Aligned | strategy/roc_strategy.h:339-364 | in every reachable state entries the same number of places back belong to the same minute and hold the batch values |
| RocStrategy.Strategy.StoredIsPercent | strategy/tech_index.h:10-12 | in every reachable state each stored rate is the percentage by which the price of its minute differs from that of eleven minutes before |
| RocStrategy.RocIsPercent | strategy/tech_index.h:10-12 | the rate of change is that percentage, positive exactly if a positive price rose |
| RocStrategy.MarocIsMean | strategy/tech_index.h:14-19 | six times the mean is the sum of six rates |
| RocStrategy.RiseCrossesUp | strategy/roc_strategy.h:339-347 | a rise after a small fall crosses upwards, with its numbers |
| RocStrategy.FallCrossesDown | strategy/roc_strategy.h:357-364 | a fall after a small rise crosses downwards |
| RocStrategy.RiseStaysUp | strategy/roc_strategy.h:348-356 | a second rise stays crossed |
| RocStrategy.OneTestHolds | strategy/roc_strategy.h:339-364 | at most one of the three tests holds |
| RocStrategy.ScaledTests | strategy/roc_strategy.h:339-364 | the tests do not depend on the currency of the prices |
| RocStrategy.SeriesAligned | strategy/roc_strategy.h:339-364 | the batch series are aligned at their ends |
| RocStrategy.Strategy.CrossForUp | strategy/roc_strategy.h:339-347 | true exactly when the batch indicators cross upwards at the last two complete minutes |
| RocStrategy.Strategy.StayForUp | strategy/roc_strategy.h:348-356 | true exactly when they stay crossed and rise |
| RocStrategy.Strategy.CrossForDown | strategy/roc_strategy.h:357-364 | true exactly when they cross downwards |
| RocStrategy.MAROC | strategy/tech_index.h:14-19 | the mean, summed in a loop |
| RocStrategy.MIN | strategy/tech_index.h:35-47 | the minimum; -1 for nothing |
| RocStrategy.NewestSixMean | strategy/tech_index.h:14-19 | summing the newest six backwards gives their mean |
| RocStrategy.MinimumOfRotation | util/window.h:64-75 | the minimum does not depend on where the ring starts |
| RocStrategy.RiskControl.StopLoss | strategy/roc_strategy.h:77-80 | the floor is the minimum of the last twelve profits, and the test against it never holds |
| TimeWindow.TimeWindow.Put | util/time_window.h:19-48 | the contents become the last N of the series with the entry appended, rewritten or dropped, and the result says which |
| TimeWindow.TimeWindow.Append | util/time_window.h:22-30 | a newer entry goes in and the oldest falls out when full |
| TimeWindow.TimeWindow.Get | util/time_window.h:67-73 | the k-th newest entry, or whatever lies in its slot when there are fewer; an error outside the buffer |
| TimeWindow.TimeWindow.GetRange | util/time_window.h:79-93 | which entry, counted from the newest, each element of a range is, from any start and of any length; an error for a start or a length outside the buffer |
| TimeWindow.RingAppend | util/time_window.h:22-30 | writing the next slot of a ring appends to what it holds and pushes out the oldest element of a full one |
| TimeWindow.RingRewrite | util/time_window.h:33-35 | writing the slot written last replaces the newest element |
| TimeWindow.TimeWindow.IsFull | util/time_window.h:50-53 | whether N entries are live |
| TimeWindow.TimeWindow.GetSize | util/time_window.h:55-58 | how many entries are live |
| TimeWindow.TimeWindow.Clear | util/time_window.h:95-101 | no entries |
| TimeWindow.AbsorbLastN | util/time_window.h:19-48 | keeping only the last N commutes with appending, rewriting and dropping |
| TimeWindow.AbsorbIncreases | util/time_window.h:19-48 | times stay strictly increasing |
| TimeWindow.AbsorbedEntry | util/time_window.h:33-47 | a newer entry comes last, one of the newest time takes its place, and an older one changes nothing |
| TimeWindow.LastNIsEnd | util/time_window.h:22-30 | the last n are the end of the series |
| TimeWindow.Window.Put | util/window.h:21-33 | the contents become the last N values |
| TimeWindow.Window.GetRange | util/window.h:64-75 | the first slots in physical order, whatever the start; all live ones are a rotation of the contents; an error for a start or a length outside the buffer |
| TimeWindow.Window.IsFull | util/window.h:35-38 | whether N values are live |
| TimeWindow.Window.Clear | util/window.h:77-83 | no values |
| Primes.IsPrimeOnTheFly | lib/gtest-1.8.0/samples/prime_tables.h:58-67 | trial division up to the square root decides primality |
| Primes.FirstPrimes | lib/gtest-1.8.0/samples/prime_tables.h:58-67 | the primes below ten |
| Primes.OneNextPrime | lib/gtest-1.8.0/samples/prime_tables.h:69-75 | there is one next prime, and no prime lies between |
| Primes.FirstNextPrimes | lib/gtest-1.8.0/samples/prime_tables.h:69-75 | the next primes of 0, 2, 3 and 5 |
| Primes.GetNextPrimeOnTheFly | lib/gtest-1.8.0/samples/prime_tables.h:69-75 | terminates with the smallest prime above p for p from 0 on, and with -1 below |
| Primes.Euclid | lib/gtest-1.8.0/samples/prime_tables.h:69-75 | there is a prime above every number, so the search ends |
| Primes.IsPrimeByOddNumbers | lib/gtest-1.8.0/samples/sample1.cc:47-68 | trial division by odd numbers with the cut-off by quotient decides primality |
| Primes.QuotientBelow | lib/gtest-1.8.0/samples/sample1.cc:58-59 | the cut-off by quotient is the cut-off by square |
| Primes.SquareRootSuffices | lib/gtest-1.8.0/samples/prime_tables.h:61-66 | without a divisor up to the square root a number is prime |
| Primes.PreCalculatedPrimeTable.CalculatePrimesUpTo | lib/gtest-1.8.0/samples/prime_tables.h:102-114 | the sieve leaves exactly the primes marked |
| Primes.PreCalculatedPrimeTable.MarkMultiples | lib/gtest-1.8.0/samples/prime_tables.h:109-112 | one pass strikes exactly the proper multiples |
| Primes.CompositeSkipped | lib/gtest-1.8.0/samples/prime_tables.h:107-107 | skipping composite numbers loses nothing |
| Primes.PreCalculatedPrimeTable.GetNextPrime | lib/gtest-1.8.0/samples/prime_tables.h:93-99 | the next prime, or -1 when the table holds none |
| Primes.HybridPrimeTable.IsPrime | lib/gtest-1.8.0/samples/sample8_unittest.cc:62-67 | primality, from whichever table |
| Primes.HybridPrimeTable.GetNextPrime | lib/gtest-1.8.0/samples/sample8_unittest.cc:69-75 | the smallest prime above p, whether the table reaches it or not; from a negative start 2 if a table holds it, and -1 otherwise |

## Left out

- Networking, threads, locks, logging, JSON and orders: each method of the windows is one step, and ticks
  and profits are parameters.
- Floating-point rounding: prices and indicators are reals, and prices are not zero.
- The rest of risk control: the sale, its retries and the reset of the window after it depend on replies
  of the exchange.
- The `update` methods of the windows, which do nothing for a place inside the buffer and are never called.
- TOML floats, dates, inline tables and strings over several lines: the parser of the model stops with the
  error `Unmodelled` where one begins; tables and keys are not part of this model.
- TomlConformance.ReadsToml: of the four ways to write a string, the two on one line. TOML 0.4.0 says nothing of
  control characters between apostrophes; later versions forbid them there but for tabs. What is proved is
  proved of both readings.
- TomlParser.Parser.ReadString: ends in `Unmodelled` at a string over several lines.
- TomlParser.Parser.ReadNumber: ends in `Unmodelled` at a float.
- TomlParser.Parser.ReadValue: ends in `Unmodelled` at a date, a float or an inline table.
- TomlParser.Parser.ReadArray: ends in `Unmodelled` at an array of floats, dates or inline tables.
- TomlParser.Parser.ReadValueArray: the instances for strings, integers and booleans, not for floats and dates.
- TomlParser.Parser.ReadObjectArray: the instance for arrays, not for inline tables.
- TomlAccepted.AcceptsExactlyLoose: lines hold no line feed, as the parser fetches them; a text that goes on with
  what is not modelled is not accepted.
- Line numbers and the wording of parse errors.
- The parser methods that follow an element share `SkipSeparator`, which the code writes out twice.
- Md5Class.Md5.Update: one call takes at most 2^32 - 64 bytes, because the loop counter wraps beyond that.
- Md5Websocket.State.Append: one call takes at most 2^64 - 64 bytes, because the offset plus the block length
  wraps beyond that.
- Md5Agreement.Md5HashHex: at most 2^64 - 64 bytes, as one call of `Append`.
- Md5Websocket.State.Process: the words are assembled byte by byte, as on a big-endian machine; the other
  branch reads the same words from memory.
- Md5Agreement.DigestByUpdates: pieces of at most 2^32 - 64 bytes, as `Update` takes them.
- Md5Agreement.DigestByAppends: pieces of at most 2^64 - 64 bytes, as `Append` takes them.
- Md5Agreement.DigestsAgree: pieces within these two bounds.
- Md5Agreement.MD5String: the length of the text before the first NUL fits an `int`.
- RegexMatcher.MatchRegexAtHead: strings are shorter than 2^64 - 1 characters, so that the counter of
  repetitions does not reach its limit. The failure messages of the validator are not modelled.
- Setters of single header bits, and the constructors of a header without a key or of zeros.
- Masking.CircshiftPreparedKey: a shift by no bytes leaves the word as it is; the code shifts by the whole
  width of the word, which the language leaves undefined.
- Words are 8 bytes, low byte first; the 4-byte and big-endian branches are not modelled.
- Messages.MessageDelivered: messages of fewer than 2^64 bytes, so that the sum in the size check does not wrap.
- Messages.TailDelivers: the same.
- Compression: no extension is negotiated, so the first reserved bit is an error.
- Processor.Processor.Consume: after an error nothing more is said about the object, because the
  connection is closed.
- Handshakes, close codes and the other protocol versions. Message buffers are strings that the metadata
  own; the pool that hands them out is not modelled.
- The masking key of a prepared frame is a parameter instead of a random number.
- Uri.AtoiReads: numbers beyond the range of a C `long` are read as the number modulo 2^32, where the C
  library promises nothing. Scheme tests on texts shorter than the scheme fail, where the code reads past
  the end of the text.
- Primes are over unbounded integers: the program's `i*i` and `n++` can leave `int`. The table needs a
  largest number of at least 1, because the code marks 0 and 1 in any case.
- Primes.PreCalculatedPrimeTable.GetNextPrime: starts from -1 on, because the code reads the table at the
  next index.
- Primes.HybridPrimeTable.GetNextPrime: starts from -1 on when there is a table, for the same reason.
