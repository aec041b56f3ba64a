# Verification of the GameSpy server emulation

This project models the algorithmic core of the OpenSpy servers in Dafny 4.11 and proves it
correct: the two ciphers that protect server lists, the list protocol from the encoder of the
server browser to the parser of the client, the wildcard matcher, the password scrambler, the
MD5 and HMAC code, the NAT negotiation server, and the channels of the chat server.

`dafny verify dfyconfig.toml` checks everything.

Each component has a specification over values (recursive functions, or a step function of a
state machine) and the code in the form the source has it: methods with the same loops over
arrays, cursors and lists, and classes whose fields are updated. Every method is proved to
compute the specification; what the source is for is proved about the specification, for all
inputs and all runs. Beside that stand laws: what a step, a record, a sweep or a mode string
does, said of what is there before and after it in plain arithmetic and quantifiers, without
the functions of the specification, which are proved to obey them.

| module | file of the repository | what it is |
|---|---|---|
| `Bits`, `Permutation`, `Text` | - | bytes and words as bounded integers, permutations of the byte values, C strings |
| `Enctype2`, `Enctype2Laws` | `common/enctype_shared.cpp` | a keystream generator that walks a binary tree with a hand-made stack |
| `EnctypeX` | `common/enctypex_decoder.cpp` | a cipher whose key permutes itself, its frame and its stream mode |
| `ServerList`, `ListParser` | `common/enctypex_decoder.cpp`, `common/helpers.cpp` | the list on the wire and its parser |
| `ListEncoder`, `ListFormat`, `ListRoundTrip` | `serverbrowsing/Client.cpp`, `common/buffwriter.cpp` | the encoder, the bytes it writes, and the two ends together |
| `Wildcard` | `common/helpers.cpp` | the mask matcher |
| `Password` | `common/helpers.cpp` | the generator, the mask, and the base64 dialect |
| `Md5`, `Md5Laws`, `Md5Words`, `Md5Context` | `common/md5.c` | the standards, as functions and as laws, 64-bit words against 32-bit ones, and the streaming code |
| `NatNeg`, `NatNegLaws`, `NatNegServer` | `natneg/` | NAT negotiation as steps over a list of records, what they send and change, and as objects |
| `Channels`, `ModeStrings`, `Peerchat` | `peerchat/` | channel ranks and membership as values, what mode strings do, and as objects |

## Where the code does something else than one might think

- `encshare1` never uses the last byte of each block of 64 keystream bytes
  (`common/enctype_shared.cpp:92`); `Enctype2.Encshare1` says so exactly. Called again with the
  pointer it returned, it does use that byte, starts no new block, and goes on in the memory
  behind the block: the two calls mask as one until the 63 bytes are used up
  (`Enctype2.MaskInTwo`).
- A field list can be read back if and only if it has at most 255 fields and either both a
  leading backslash and an open end (a last character, behind the leading backslash, that is
  no backslash) or neither; otherwise the count on the wire and the names listed differ. For
  every other list, whatever the C library and the server look like, the empty list of servers
  or the list of that one server is read as something else, be it by a count that does not fit
  its byte or that wraps (`ServerList.FieldCount`, `ServerList.PayloadRead`,
  `ServerList.InconsistentIsUnreadable`). A default port of 0xffff is taken for an error
  message. `ServerList.ReadableExactly` puts both into one condition.
- The buffer for a list is written without a test. `ListEncoder.Client.SendServers` says
  exactly which lists stay inside it (`ListEncoder.FitsFrom`): a record may be longer than
  the limit at which the buffer is flushed, as long as it fits behind what is waiting. Lists
  that do not are within reach of a request: one field asked for often enough
  (`ListEncoder.RepeatedFieldOverruns`), for example 255 times one with a value of seven bytes
  (`ListEncoder.SevenBytesOverrun`).
- `match` compares only what follows the first `!` and the first `@`. For a given name that
  agrees with the plain matcher on all masks if and only if the name has at most one of each
  (`Wildcard.HostMatchIsExact`); for any other name `Wildcard.LaterSeparator` finds a mask that
  only the plain matcher accepts.
- `base64_decode` makes its buffer for whole groups of four characters. Whether it writes
  behind it depends on how many characters count, that is, are neither skipped nor behind the
  end of the text: the bytes are those of that many characters (`Password.DecodedLength`).
  Where all count, it stays inside if and only if at most one is over whole groups
  (`Password.PlainTextFits`), and these are the lengths for which every text does
  (`Password.LengthDecides`). Two letters A are enough for a byte too many
  (`Password.TwoCharactersOverrun`). Texts that `base64_encode` made always fit
  (`Password.EncodedFits`).
- A scrambled password survives its round trip if and only if none of its bytes equals its mask
  byte, because such a byte becomes a terminator (`Password.PasswordRoundTrip`).
- A client may be on 17 channels, not 16: the limit is tested against the channels it is on
  before the join. Seventeen is never passed (`Channels.AtMostSeventeen`), it is reached from
  the start by joins alone (`Channels.SeventeenIsReached`), and a join keeps a client of at
  most 16 channels at 16 if and only if it was on fewer before or is refused for another reason
  (`Channels.SixteenIsKept`).
- NAT negotiation introduces any two clients of which one has the index that the other's
  partner should have. Their indices are complementary if and only if both are 0 or 1
  (`NatNeg.IndicesAreComplementary`), which for the two that an INIT introduces is so if and
  only if the packet says 0 or 1 (`NatNeg.InitComplements`); `NatNeg.OtherIndices` is a run
  that introduces 1 and 2. The test in `trySendConnect`
  that a client is not its own partner never fails (`NatNeg.InitTellsBoth` needs no such case).
- The two sides of a CONNECT need not both have sent an INIT. New records have the cookie 0 and
  the index 0, so an INIT with cookie 0 and index 1 introduces its sender to a peer that sent
  something else only (`NatNeg.OneSidedConnect`). In every run this is the one exception
  (`NatNeg.ConnectsAreMutual`), and there is none without such an INIT
  (`NatNeg.ConnectsAreMutualWithout`).

## Model

| member | source | states |
|---|---|---|
| `Enctype2.KeystreamIsWalk` | common/enctype_shared.cpp:36-72 | the words of a seed, one by one, are the depth-first traversal of the 16-level register tree |
| `Enctype2.LeafNum` | common/enctype_shared.cpp:38-56 | leaf i is the node numbered 65536 + i at depth 16, so the test on the node number finds the leaves |
| `Enctype2.Backtrack` | common/enctype_shared.cpp:59-71 | going to the right child of the last left turn leads to the leaf that follows |
| `Enctype2.Resume` | common/enctype_shared.cpp:59-71 | what the three stacks hold at a leaf determines node, registers and stacks to go on with |
| `Enctype2Laws.KeyWordIsPath` | common/enctype_shared.cpp:22-76 | word i comes from the seed by sixteen steps, one for each bit of i from the highest: node number added in, the two registers looked up twice and turned by bytes, to the right exchanged and one negated |
| `Enctype2Laws.StepsAreLawful` | common/enctype_shared.cpp:37-72 | each of the two kinds of step, in plain arithmetic |
| `Enctype2.Encshare2` | common/enctype_shared.cpp:22-77 | emits exactly the keystream words from the position it stands at, leaves the generator at the next position, changes only slots 256..307 and the output, and never the table |
| `Enctype2.Descend` | common/enctype_shared.cpp:37-56 | the inner loop arrives at the first leaf below a node with the left turns on the stacks |
| `Enctype2.Encshare3` | common/enctype_shared.cpp:105-152 | leaves the generator at word n2 modulo 65536 of the seed, for every n2, the table unchanged |
| `Enctype2.SeekOrSkip` | common/enctype_shared.cpp:22-152 | the words after a seek to n2 are the words after a seek to 0 with the first n2 dropped |
| `Enctype2.Encshare1` | common/enctype_shared.cpp:81-101 | without a key pointer: masks each byte with its keystream byte, in blocks of 63, for any length |
| `Enctype2.Encshare1From` | common/enctype_shared.cpp:84-100 | with a key pointer: masks with the memory from there on, and never starts a new block |
| `Enctype2.MaskInTwo` | common/enctype_shared.cpp:81-101 | a call that goes on with the returned pointer masks as a single call would until the 63 bytes are used up, then with the byte that a single call skips, and then with the memory behind the block |
| `Enctype2.MaskedTwice` | common/enctype_shared.cpp:96 | masking twice from the same position restores the data |
| `Enctype2Laws.MaskedByteIs` | common/enctype_shared.cpp:91-99 | byte p of block b is laid over with byte p of the sixteen words the block begins at |
| `Enctype2.Encshare4` | common/enctype_shared.cpp:156-183 | computes the table of the key and parks the generator at word 0 of seed 0 |
| `Enctype2.KeyTableLanes` | common/enctype_shared.cpp:165-180 | for every key each byte lane is a permutation of 0..255 before the last step, and the upper three still are after it |
| `Enctype2.KeyTableIsOneToOne` | common/enctype_shared.cpp:165-180 | two words of a key table differ in each of their upper three bytes |
| `Enctype2Laws.KeyTableIsShuffled` | common/enctype_shared.cpp:156-180 | the table comes from zeros in four rounds: bytes moved up, two passes of 256 exchanges at positions that entry and key move on, and in the end each word laid over with its number |
| `EnctypeX.Func7` | common/enctypex_decoder.cpp:89-138 | one decryption step is the step function of key state and byte, and obeys the law of a step: which entries of the key are laid over the byte and how the key changes |
| `EnctypeX.Func7e` | common/enctypex_decoder.cpp:142-191 | one encryption step likewise, with plain and cipher byte in their places |
| `EnctypeX.LawDecides` | common/enctypex_decoder.cpp:89-191 | the law, entry by entry and for coinciding positions too, holds of the step and of nothing else |
| `EnctypeX.FourMoveRound` | common/enctypex_decoder.cpp:98-113 | where the four positions differ, their entries move round and no others |
| `EnctypeX.StepInverse` | common/enctypex_decoder.cpp:89-191 | decrypting what a step encrypted gives the byte back and the same key state |
| `EnctypeX.StepKeepsPermutation` | common/enctypex_decoder.cpp:94-113 | a step keeps the first 256 key bytes a permutation, also when its indices coincide |
| `EnctypeX.CodeKeepsPermutation` | common/enctypex_decoder.cpp:195-213 | so does any run of steps in either direction |
| `EnctypeX.CodeIsLawful` | common/enctypex_decoder.cpp:195-213 | every byte of a run obeys the law, from the key that the bytes before it left |
| `EnctypeX.Func6` | common/enctypex_decoder.cpp:195-202 | decrypts a stretch of a buffer in place and leaves the rest alone |
| `EnctypeX.Func6e` | common/enctypex_decoder.cpp:206-213 | encrypts a stretch of a buffer in place and leaves the rest alone |
| `EnctypeX.CodeInverse` | common/enctypex_decoder.cpp:195-213 | from equal keys, decryption recovers every message and ends with equal keys |
| `EnctypeX.AnyChunking` | common/enctypex_decoder.cpp:195-213 | the same for any chunking by the sender and any other by the receiver |
| `EnctypeX.DrawUpTo` | common/enctypex_decoder.cpp:33-58 | a draw ends with a number of at most cnt and a cursor inside the id |
| `EnctypeX.Func5` | common/enctypex_decoder.cpp:33-58 | the loop computes the draw, in at most twelve rounds |
| `EnctypeX.Func4` | common/enctypex_decoder.cpp:62-85 | deals the key from a challenge, or leaves it alone without one |
| `EnctypeX.FreshKeyIsDealt` | common/enctypex_decoder.cpp:33-85 | a key is dealt from the entries in order by 256 exchanges from the last down, each with an entry drawn in rounds under the least mask until it is low enough, the twelfth in any case |
| `EnctypeX.FreshKeyIsPermutation` | common/enctypex_decoder.cpp:71-78 | whatever the challenge, the first 256 bytes of the key are a permutation |
| `EnctypeX.SessionKeyIsOneToOne` | common/enctypex_decoder.cpp:71-138 | however much was coded since, no two of the first 256 key bytes are equal and every byte value is among them |
| `EnctypeX.Funcx` | common/enctypex_decoder.cpp:217-226 | folds the salt into the challenge and deals the session key from it |
| `EnctypeX.SessionKeyIsMixed` | common/enctypex_decoder.cpp:217-226 | byte by byte of the salt, the place that key text and position choose changes by a byte of the challenge and of the salt |
| `EnctypeX.FrameIsFound` | common/enctypex_decoder.cpp:531-545 | any bytes to skip and any salt behind their lengths are found as such, whatever follows |
| `EnctypeX.EnctypexInit` | common/enctypex_decoder.cpp:526-547 | finds the header or says that it is incomplete, and makes the session key from it |
| `EnctypeX.FrameStays` | common/enctypex_decoder.cpp:531-535 | bytes that follow a complete header do not change it |
| `EnctypeX.Decoder` | common/enctypex_decoder.cpp:551-563 | decrypts the payload of a whole buffer where it stands, or nothing while the header is incomplete |
| `EnctypeX.Encoder` | common/enctypex_decoder.cpp:574-586 | encrypts the payload behind a given header likewise |
| `EnctypeX.EnctypexData.Decode` | common/enctypex_decoder.cpp:551-569 | one call in stream mode is one step of the session: only bytes that were not decrypted yet are |
| `EnctypeX.StreamIsOneShot` | common/enctypex_decoder.cpp:551-569 | after any number of calls on a growing buffer, the header complete or not, buffer and key are those of one-shot decoding of all that arrived |
| `EnctypeX.QuickEncrypt` | common/enctypex_decoder.cpp:632-663 | puts the 23-byte header before the data in place and encrypts what follows it |
| `EnctypeX.QuickHeaderIs` | common/enctypex_decoder.cpp:640-650 | the bytes of its header: two lengths, two zeros, and random bytes laid over with the texts |
| `EnctypeX.Wrapper` | common/enctypex_decoder.cpp:619-627 | decrypts and moves the payload to the front; without a header it returns 0 for no data and otherwise moves bytes from a null pointer |
| `EnctypeX.WrapperUndoesQuickEncrypt` | common/enctypex_decoder.cpp:619-663 | for every key, challenge and random header, decoding recovers the plain data |
| `EnctypeX.QuickRoundTrip` | common/enctypex_decoder.cpp:619-663 | wrapping after quick encryption restores bytes and size of the buffer |
| `ServerList.FindParam` | common/helpers.cpp:210-237 | the field at an index, cut to the buffer, or none behind the last |
| `ServerList.CountChar` | common/helpers.cpp:604-615 | the number of occurrences of a character |
| `ServerList.FieldCount` | serverbrowsing/Client.cpp:480-483 | the number of backslashes is the number of fields exactly for lists with a leading backslash and an open end, or with neither |
| `ServerList.UsualListIsConsistent` | serverbrowsing/Client.cpp:480-487 | at most 255 non-empty names with a backslash before each meet the condition |
| `ServerList.FieldsOf` | common/helpers.cpp:210-237 | the fields of a list made of names with a backslash before each are those names |
| `ServerList.NamesRead` | serverbrowsing/Client.cpp:485 | the second null byte behind a name is read as the type of the next field |
| `ServerList.RecordRead` | serverbrowsing/Client.cpp:392-457 | for every combination of flags, reading one record gives its address and goes on behind its values |
| `ServerList.ParseRecords` | serverbrowsing/Client.cpp:478-487 | with names, the high byte of the count is read as the type of the first field and the last second null byte as the number of popular values; without, the high byte is that number; the records start behind it |
| `ServerList.PayloadRead` | serverbrowsing/Client.cpp:478-515 | parsing the payload gives exactly the addresses in order, or an error if and only if the port is 0xffff |
| `ServerList.InconsistentIsUnreadable` | serverbrowsing/Client.cpp:480-487 | for every list without the condition, every C library and every server, the empty list or the list of that server is not read back |
| `ServerList.ReadableExactly` | serverbrowsing/Client.cpp:478-515 | a field list and a port are read back for all lists of servers if and only if the condition holds and the port is not 0xffff |
| `ServerList.TooFewNames` | common/enctypex_decoder.cpp:393-411 | with a backslash at the end the empty list of servers is not read as a list: the parser takes its end mark for a field |
| `ServerList.TooManyValues` | common/enctypex_decoder.cpp:459-490 | a list of one server is read as more where its record has more values than the count says, without a backslash at the start or with a count that wraps |
| `ServerList.TableTooLong` | common/enctypex_decoder.cpp:384-411 | a count over 255 leaves names where the first record should be, so that either the empty list is not read as empty, or a list of one server is |
| `ListParser.ConvertToIpPort` | common/enctypex_decoder.cpp:341-506 | the parser with an output buffer writes what the specification parses, and says where it would read beyond the data |
| `ListParser.ReadRecords` | common/enctypex_decoder.cpp:423-494 | the loop over the records fits its output into (datalen / 5) * 6 bytes |
| `ListParser.SkipValues` | common/enctypex_decoder.cpp:459-490 | skips numbers, fixed and inline strings by the types of the table |
| `ListEncoder.BufferWriteNTS` | common/buffwriter.cpp:29-34 | appends a string and its terminator at the cursor |
| `ListEncoder.BufferWriteShortRE` | common/buffwriter.cpp:15-22 | appends a port in network order at the cursor |
| `ListEncoder.AddServerBuff` | serverbrowsing/Client.cpp:392-457 | appends the record of a server: flags, parts and values |
| `ListEncoder.CryptHeaderFrame` | serverbrowsing/Client.cpp:521-542 | what the server writes as header is a complete frame for the client, whatever the random bytes |
| `ListEncoder.Client.SetupCryptHeader` | serverbrowsing/Client.cpp:521-542 | writes the header and makes the session key of the connection |
| `ListEncoder.Client.SendServers` | serverbrowsing/Client.cpp:458-520 | the packets together are the header, if it was not sent yet, and the encrypted payload of the first maxservers servers, wherever the buffer was flushed; or nothing is said, exactly where a write would leave the buffer |
| `ListEncoder.RepeatedFieldOverruns` | serverbrowsing/Client.cpp:459-511 | a readable list that asks for one field n times leaves the buffer for every server whose values are longer together than the buffer |
| `ListEncoder.SevenBytesOverrun` | serverbrowsing/Client.cpp:459-511 | so does one of 510 bytes for a value of seven bytes |
| `ListFormat.PayloadIsList` | serverbrowsing/Client.cpp:392-517 | every payload, laid out: the addresses and ports in network order, the count with its low byte first, the names, the records, the end mark |
| `ListFormat.NamesOfUsualList` | common/helpers.cpp:210-237 | for a list of names with a backslash before each, the names laid out are those |
| `ListFormat.RecordIs` | serverbrowsing/Client.cpp:392-457 | a record: which flags are set, and address, port, private address and port and values, each from the first key of its name or from the server |
| `ListFormat.AddressesAre` | serverbrowsing/Client.cpp:403-437 | the i-th address a client reads is that of the i-th server, with the number under "hostport" high byte first, or the port it was reported with |
| `ListFormat.HeaderIs` | serverbrowsing/Client.cpp:521-542 | the bytes of the header |
| `ListFormat.PickedIs` | serverbrowsing/Client.cpp:496-499 | the first servers, as many as the limit says, or all |
| `ListFormat.AnyListRead` | common/enctypex_decoder.cpp:369-411 | a list of any server, with types, names and popular values, is read up to its records |
| `ListFormat.AnyRecordRead` | common/enctypex_decoder.cpp:423-490 | a record with any flags and values of all kinds is read as its address and left behind it |
| `ListFormat.AnyEndRead` | common/enctypex_decoder.cpp:423-429 | the end mark ends a list, whatever follows |
| `ListRoundTrip.FirstList` | serverbrowsing/Client.cpp:458-542 | end to end: however packets are cut on the way, the client reads the listed addresses in order, and both ends hold the same key |
| `ListRoundTrip.LaterList` | serverbrowsing/Client.cpp:475-517 | the same for later lists of a connection, without header and under the key carried on |
| `ListRoundTrip.ManyLists` | serverbrowsing/Client.cpp:458-542 | after any number of lists, cut across their borders, the buffer of the session is the header and all payloads in order, each is read as its addresses, and both ends hold the same key |
| `ListRoundTrip.Receive` | common/enctypex_decoder.cpp:551-569 | calling the decoder after each arrival is the session of the arrivals |
| `ListRoundTrip.Exchange` | serverbrowsing/Client.cpp:458-542 | sending a list, cutting the stream into any pieces, decoding as they arrive and converting gives the addresses of the picked servers, with the ports of their keys in network order, and equal keys |
| `ListRoundTrip.Serve` | serverbrowsing/Client.cpp:458-520 | several requests on a connection, each with its own limit, are answered by the header and the payloads under one key carried on, if each stays inside the buffer and only then |
| `ListRoundTrip.Connection` | serverbrowsing/Client.cpp:458-542 | the methods of both ends for any number of lists: every list is read in its place of the client's buffer |
| `Wildcard.Match2` | common/helpers.cpp:238-287 | 0 if and only if the mask matches: a star any run, `?` one character, `_` also a space, letters without case |
| `Wildcard.MatchesIsCut` | common/helpers.cpp:238-287 | a mask matches if and only if the name can be cut into one piece for each of its characters, any piece for a star and else one character that is taken, with the classes spelled out |
| `Wildcard.NextPlace` | common/helpers.cpp:261-265 | backtracking to the last star alone loses no match |
| `Wildcard.QuestionsMatch` | common/helpers.cpp:261-263 | stopping early on question marks behind a star is right |
| `Wildcard.SegmentMatches` | common/helpers.cpp:274-284 | a part without stars matches character by character |
| `Wildcard.Match` | common/helpers.cpp:288-307 | 0 if and only if the mask matches as a host mask |
| `Wildcard.HostMatchIs` | common/helpers.cpp:288-307 | a host match is a match of what is behind the first `!` and then the first `@`, where the mask begins so |
| `Wildcard.HostMatchIsMatch` | common/helpers.cpp:288-307 | a host match is a match, and conversely for names with at most one `!` and `@` |
| `Wildcard.LaterSeparator` | common/helpers.cpp:289-296 | for every name with two separators of a kind, a mask that matches it and does not host-match it |
| `Wildcard.HostMatchIsExact` | common/helpers.cpp:288-307 | for every name: host match and match agree on all masks if and only if it has at most one `!` and one `@` |
| `Password.Gslame` | common/helpers.cpp:383-402 | 32-bit wrap-around and the two sign tests compute the folded product, for every 32-bit argument |
| `Password.GslameIsModular` | common/helpers.cpp:383-402 | the result is congruent to 16807 times the argument, read without sign, modulo 2^31-1 |
| `Password.GslameStaysInRange` | common/helpers.cpp:383-402 | from 1..2^31-2 it is exactly the product modulo 2^31-1 and stays in that range |
| `Password.MaskIs` | common/helpers.cpp:422-434 | mask byte i is 0x79707367 * 16807^(i+1) mod (2^31-1) mod 255 |
| `Password.Gspassenc` | common/helpers.cpp:406-436 | masks the password in place up to its terminator |
| `Password.ScrambleTwice` | common/helpers.cpp:406-436 | scrambling twice restores the password if and only if no byte equals its mask byte |
| `Password.Base64Encode` | common/helpers.cpp:440-478 | the text of the data, padded with underscores, without a trace of the bytes read behind the data |
| `Password.Base64Decode` | common/helpers.cpp:482-560 | the decoded bytes and a terminator, or that a byte or the terminator would be written behind the buffer, decided by the number of characters that count |
| `Password.DigitIs` | common/helpers.cpp:440-450 | the digits are those of the dialect's alphabet in its order |
| `Password.ValueIs` | common/helpers.cpp:490-499 | a digit is worth its place, and plus and slash are worth 62 and 63 too |
| `Password.QuadNumber` | common/helpers.cpp:463-470 | four digits are the number that three bytes are |
| `Password.EncodedGroup` | common/helpers.cpp:460-478 | the text group by group, the last padded with underscores |
| `Password.NextIs` | common/helpers.cpp:514-528 | which characters are skipped, count or end the text |
| `Password.DecodedLength` | common/helpers.cpp:505-550 | the number of bytes is that of whole groups of the characters that count and of the rest |
| `Password.PlainTextFits` | common/helpers.cpp:505-560 | where all characters count, bytes and terminator fit if and only if the length modulo 4 is at most 1 |
| `Password.LengthDecides` | common/helpers.cpp:505-560 | all texts of a length fit if and only if it is 0 or 1 modulo 4 |
| `Password.TwoCharactersOverrun` | common/helpers.cpp:505-560 | two characters decode to one byte where none fits |
| `Password.EncodedFits` | common/helpers.cpp:440-560 | encoded texts always fit |
| `Password.DecodeEncoded` | common/helpers.cpp:440-560 | decoding an encoded text gives the data back, for all data and all memory behind it |
| `Password.PasswordRoundTrip` | common/helpers.cpp:406-560 | scramble, encode, decode, scramble recovers the password if and only if no byte equals its mask byte |
| `Password.SendPassword` | common/helpers.cpp:406-560 | the four methods in sequence do, on any buffer that holds a password |
| `Md5Laws.DigestIsLawful` | common/md5.c:65-277 | the digest of every message as section 3 of RFC 1321 has it: padding, states from block to block, sixty-four steps each, and the bytes of the last state |
| `Md5Laws.MixIs` | common/md5.c:109-172 | the functions F, G, H and I, for every bit |
| `Md5Laws.RotatedIs` | common/md5.c:97 | a circular shift: what leaves above comes in below |
| `Md5Laws.StepIs` | common/md5.c:97-102 | one operation with its sums, its word, its table entry and its shift |
| `Md5Laws.WordsAre` | common/md5.c:104-191 | the words that the operations take, as listed |
| `Md5Laws.ShiftsAre` | common/md5.c:104-191 | the shifts of the four rounds |
| `Md5Laws.TableOfSines` | common/md5.c:104-191 | the 64 constants are those of the sines of 1 to 64, computed by the addition theorem from fifteen places of the sine and cosine of one |
| `Md5Laws.HmacIs` | common/md5.c:328-392 | HMAC with its two pads, byte by byte |
| `Md5.PaddedLength` | common/md5.c:254-277 | a padded message consists of whole blocks, so that the digest is defined for every message |
| `Md5.HashIsBlocks` | common/md5.c:229-277 | what the context computes block by block as data comes is the compression of all blocks of whole data |
| `Md5.HashAppend` | common/md5.c:229-234 | hashing whole blocks in two goes is hashing them in one |
| `Md5Words.LowReplaced` | common/md5.c:97-102 | the macro P on 64-bit words agrees in the low half with the 32-bit step of section 3.4 of RFC 1321 |
| `Md5Words.LowMix` | common/md5.c:109-172 | the forms of F, G, H and I with fewer operations are those of the standard |
| `Md5Words.LowRotated` | common/md5.c:97 | the shift whose high half keeps rubbish is a 32-bit rotation in the low half |
| `Md5Context.Round1` | common/md5.c:104-128 | the first sixteen lines, with their registers, words, shifts and constants, are steps 1 to 16 |
| `Md5Context.Round2` | common/md5.c:130-149 | the next sixteen are steps 17 to 32 |
| `Md5Context.Round3` | common/md5.c:151-170 | the next sixteen are steps 33 to 48 |
| `Md5Context.Round4` | common/md5.c:172-191 | the last sixteen are steps 49 to 64 |
| `Md5Context.Context.Process` | common/md5.c:76-197 | the low halves of the state become the compression of state and block |
| `Md5Context.Context.Starts` | common/md5.c:65-74 | the context holds the empty message |
| `Md5Context.Context.Update` | common/md5.c:202-241 | a context that holds a message holds that message and the input afterwards |
| `Md5Context.Context.Finish` | common/md5.c:254-277 | the output is the digest of the message held, padded as sections 3.1 and 3.2 of RFC 1321 say |
| `Md5Context.DigestOf` | common/md5.c:282-323 | the digest of a message that comes in any pieces is the digest of the whole |
| `Md5Context.Context.HmacStarts` | common/md5.c:328-353 | the pads are those of section 2 of RFC 2104 for keys of every length |
| `Md5Context.HmacOf` | common/md5.c:328-392 | HMAC of a text that comes in any pieces is HMAC-MD5 of RFC 2104 |
| `NatNeg.RunIsSound` | natneg/main.cpp:7-53 | in every run addresses are distinct, whoever was sent to or named is marked connected, a deadbeat notice is the first word its receiver is involved in and so the only one, each datagram of a step goes to a record on the list, and each CONNECT to an instance-1 record about another un-acknowledged one with the same cookie, one of the two having sent an INIT |
| `NatNeg.StepIsSound` | natneg/main.cpp:7-53 | each packet and each sweep keeps all that and takes back nothing that was sent |
| `NatNeg.AcknowledgedIsLeftAlone` | natneg/Client.cpp:44-47 | once a record has acknowledged, no continuation of the run sends it, or names it in, another CONNECT |
| `NatNeg.InitTellsBoth` | natneg/Client.cpp:61-105 | an INIT is answered, and if and only if its sender's partner is on record, on instance 1, and neither has acknowledged, both are sent each other's address |
| `NatNeg.IndicesAreComplementary` | natneg/Client.cpp:70-80 | receiver and subject of a CONNECT have complementary indices if and only if both indices are 0 or 1 |
| `NatNeg.InitComplements` | natneg/Client.cpp:61-80 | the two that an INIT introduces have complementary indices if and only if the packet says 0 or 1 |
| `NatNeg.RunKeepsZeroOne` | natneg/Client.cpp:61-69 | all records have index 0 or 1 in every run whose INITs use only those |
| `NatNeg.OtherIndices` | natneg/Client.cpp:70-80 | indices 1 and 2 are introduced to each other |
| `NatNeg.ConnectsAreMutual` | natneg/Client.cpp:61-105 | in every run either both sides of a CONNECT sent an INIT, or one sent an INIT of cookie 0 and index 1 and the other none |
| `NatNeg.ConnectsAreMutualWithout` | natneg/Client.cpp:61-105 | in runs without an INIT of cookie 0 and index 1 both sides of every CONNECT sent an INIT |
| `NatNeg.OneSidedConnect` | natneg/Client.cpp:10-80 | a run of two packets introduces a peer that only asked for its address |
| `NatNeg.SweepDeletesExpired` | natneg/main.cpp:19-53 | a sweep leaves exactly the unexpired records in order, and changes only times and marks of theirs |
| `NatNegLaws.SweepSendsAgain` | natneg/main.cpp:31-42 | a sweep sends another CONNECT to every living record that is connected, has not acknowledged and was sent the last one more than five seconds ago, about its first living partner |
| `NatNegLaws.SweepSendsNothingElse` | natneg/main.cpp:31-42 | every CONNECT of a sweep is one of these, to a record connected before or named earlier in the sweep |
| `NatNegLaws.SweepGivesUp` | natneg/main.cpp:43-52 | a living record gets a deadbeat notice if and only if it is of instance 1, older than thirty seconds, not connected and named in no CONNECT of the sweep |
| `NatNegLaws.SweepLeaves` | natneg/main.cpp:19-53 | those heard of within two minutes are left; they are connected if they were sent to or named, and have the time of a CONNECT that they were sent |
| `NatNegLaws.PacketMeans` | natneg/Client.cpp:26-69 | what each kind of packet changes in the record of its sender, new or not, what it leaves alone, and how it is answered |
| `NatNeg.SweepLeavesNobodyWaiting` | natneg/main.cpp:43-52 | in every run, after a sweep, each record of instance 1 older than 30 seconds was sent a CONNECT, named in one, or sent the deadbeat notice |
| `NatNegServer.Server.FindUser` | natneg/server.cpp:16-29 | the first record of an address, or null |
| `NatNegServer.Server.FindUserByCookieIndex` | natneg/server.cpp:55-66 | the first record of cookie, instance and index, or null |
| `NatNegServer.Server.DeleteClient` | natneg/server.cpp:4-15 | takes the record off the list and keeps the order of the others |
| `NatNegServer.Client.constructor` | natneg/Client.cpp:10-23 | a new record, with whatever was in memory as time of its last CONNECT |
| `NatNegServer.Client.HandleIncoming` | natneg/Client.cpp:26-56 | handles a packet as the step function says, with its answer to an INIT, address check, report or NATIFY request |
| `NatNegServer.Client.HandleInitPacket` | natneg/Client.cpp:61-69 | notes the INIT, answers it and tries to connect |
| `NatNegServer.Client.TrySendConnect` | natneg/Client.cpp:70-80 | looks for the partner and connects to it |
| `NatNegServer.Client.SendConnectPacket` | natneg/Client.cpp:87-105 | marks both and sends one or both datagrams, or does nothing |
| `NatNegServer.Client.SendDeadBeatNotice` | natneg/Client.cpp:146-156 | marks and notifies a record of instance 1, and does nothing to others |
| `NatNegServer.Server.HandleConnection` | natneg/main.cpp:7-18 | makes a record for a new peer and handles the packet: one step of the run |
| `NatNegServer.Server.DeleteExpired` | natneg/main.cpp:20-30 | the loop that starts over after each deletion ends with the unexpired records |
| `NatNegServer.Server.CheckTimeouts` | natneg/main.cpp:19-53 | the three loops are one sweep of the run |
| `Channels.OnlyOwnersAppointOps` | peerchat/channel.cpp:383-659 | for every mode string, without being an owner nobody changes an op or owner bit, and without being an op no halfop bit |
| `Channels.PowerlessCanOnlyHush` | peerchat/channel.cpp:568-598 | without rank only the setter's own voice can be cleared, and nothing else changes |
| `Channels.NeverPrivateAndSecret` | peerchat/channel.cpp:488-511 | private and secret are never both left on, whoever sets them |
| `Channels.ModesKeepOrder` | peerchat/channel.cpp:536-659 | owners stay ops and ops halfops |
| `Channels.SetModesFrame` | peerchat/channel.cpp:383-659 | a mode string leaves the members and their order, and the channel's fixed settings |
| `Channels.LetterEffect` | peerchat/channel.cpp:403-659 | a letter changes nothing, or the channel's own modes by someone allowed to, or the rank of one member by someone allowed to, or takes the own voice |
| `ModeStrings.LetterIsLawful` | peerchat/channel.cpp:403-776 | each letter, field by field: who may, what it sets under the sign in force, and which parameter it takes |
| `ModeStrings.StringIsLawful` | peerchat/channel.cpp:383-779 | a string is read letter by letter, each as the law says, until one stops it |
| `ModeStrings.FlagsAreSet` | peerchat/channel.cpp:404-535 | for strings of signs and flags: each flag ends with the sign in force at the last letter that sets it, p and s also by a plus of the other, and is unchanged without one |
| `ModeStrings.LimitIsSet` | peerchat/channel.cpp:442-462 | "+l" leaves the number of its parameter, "-l" none |
| `ModeStrings.KeyIsSet` | peerchat/channel.cpp:463-479 | "+k" leaves its parameter, "-k" none |
| `ModeStrings.RankIsSet` | peerchat/channel.cpp:536-659 | a letter of rank with a nick gives or takes the bits of that entry and changes no other |
| `ModeStrings.RankBits` | peerchat/channel.cpp:536-659 | what each of the four letters leaves of the bits of a rank |
| `Channels.QuitMeans` | peerchat/server.cpp:277-299 | after a quit everybody else is where they were, no setting changed, and exactly the channels are gone that the quitter was the last on and that need not stay open |
| `Channels.LeaveOneMeans` | peerchat/channel.cpp:112-153 | for each channel: the quitter is off it however often they were on it |
| `Channels.PartMeans` | peerchat/client.cpp:528-541 | a part succeeds if and only if the user is on a channel of that name; then this entry is gone, the channel with the last one unless it stays open, and nothing else |
| `Channels.HearsMeans` | peerchat/server.cpp:229-263 | who is told of a quit, by the entries of both on a channel |
| `Channels.JoinMeans` | peerchat/client.cpp:452-457 | a join adds the member to one channel where no entry of the user was, and changes no other membership |
| `Channels.JoinDoes` | peerchat/client.cpp:400-457 | when a join succeeds, by invitation, room, key, number of channels and entry, and the channels it leaves |
| `Channels.JoinKeepsLimit` | peerchat/client.cpp:423-433 | nobody without privilege brings a channel over its limit, and nobody at all where ops obey it |
| `Channels.RunStaysTidy` | peerchat/client.cpp:320-457 | in every run of joins, parts, quits and mode changes no user is on a channel twice and no channel is listed twice |
| `Channels.SameName` | peerchat/server.cpp:155-168 | two names are the same if their characters are up to case |
| `Channels.AtMostSeventeen` | peerchat/client.cpp:445-451 | in every run a user without override is on at most 17 channels |
| `Channels.SixteenIsKept` | peerchat/client.cpp:445-451 | after a join by a user of at most 16 channels it is on at most 16 if and only if it was on fewer, was on that channel, or the channel does not let it in |
| `Channels.SeventeenIsReached` | peerchat/client.cpp:445-451 | for every user a run of joins without override from the start leads to 17 channels |
| `Channels.SeventeenthJoin` | peerchat/client.cpp:445-451 | in every state, a user on 16 channels may open a seventeenth |
| `Peerchat.Channel.GetUserInfo` | peerchat/channel.cpp:157-167 | the place of the first entry of a user |
| `Peerchat.Channel.GetNumUsers` | peerchat/channel.cpp:260-275 | the number of members, or of those not invisible |
| `Peerchat.Channel.SetModes` | peerchat/channel.cpp:383-779 | the loop over the letters computes what the specification says of the whole string |
| `Peerchat.Channel.OneLetter` | peerchat/channel.cpp:403-776 | the switch on one letter: its effect on the channel, the parameter it takes, and whether reading stops |
| `Peerchat.Channel.SetFlag` | peerchat/channel.cpp:410-535 | the flags of the channel, with the exclusions of p and s and of q and u |
| `Peerchat.Channel.Change` | peerchat/channel.cpp:536-659 | the bits of the target for o, O, h and v |
| `Peerchat.Channel.RemoveUser` | peerchat/channel.cpp:112-153 | takes the first entry of a user off, and the channel off the server if it is left empty and need not stay open |
| `Peerchat.Server.DeleteChannel` | peerchat/server.cpp:17-28 | takes the channel off the list and keeps the order of the others |
| `Peerchat.Server.OnQueue` | peerchat/server.cpp:214-221 | true if and only if the client is queued |
| `Peerchat.Server.SendOnceAllChan` | peerchat/server.cpp:229-263 | queues each client once, and exactly those who share a channel with the source and may see it there |
| `Peerchat.Server.NumberOfChans` | peerchat/server.cpp:264-276 | on how many channels a user is |
| `Peerchat.Server.RemoveFromAllChans` | peerchat/server.cpp:277-299 | the search that starts over after each removal ends with the user on no channel |
| `Peerchat.Server.QuitUser` | peerchat/client.cpp:2190-2202 | tells exactly the others who may know, once, and then leaves all channels |
| `Peerchat.Server.PartChan` | peerchat/client.cpp:528-541 | takes a member off a channel, or refuses |
| `Peerchat.Server.JoinChan` | peerchat/client.cpp:380-457 | joins or refuses as specified; a channel made for a refused client is gone again |

## Left out

- Sockets, `select` loops, MySQL, GeoIP, Lua, modules, PHP, Python and assets: a send is an entry in a log or a result, random bytes and the time are parameters.
- `common/gs_peerchat.cpp`, `common/enctype1_decoder.cpp`, `common/gsmsalg.cpp`, `common/peerchat_ip.c`, `common/chc_endian.cpp`, `openspy/config.cpp`, `qr/filter.cpp`, `find_param` by name: simpler relatives of what is here, or too irregular for a useful specification.
- Enctype2.Encshare2: up to word 65535 of a seed; when that was emitted the stack is empty and the last pop goes below it, so nothing is said about the state from there on.
- Memory order: the writers store integers as a little-endian machine does.
- ListEncoder.AddServerBuff: `atoi`, `inet_addr` and the printed region are parameters; the text of a key is any C string.
- ListEncoder.Client.SendServers: where a write would leave the stack buffer, which the source does not test, the model ends without a result. The server count it is given is not less than the list.
- ListParser.ConvertToIpPort: the mode that prints one server is not modelled; the assignment through a null pointer at `common/enctypex_decoder.cpp:406` is taken as the resize it was meant to be; where the source reads beyond the data the model ends with a result of its own.
- EnctypeX.Wrapper: an empty key text is excluded, by whose length the source divides.
- ServerList.FindParam: the terminator that is written into the list and taken back is not modelled.
- Password.Base64Decode: with the size given; where the source writes behind its buffer the model ends without a result.
- The table of sines in `Md5` is that of the standard, as numbers; the total of a context is exact up to 2^96 bytes and wraps as the source does.
- NAT negotiation: of an answer its type and receiver are logged, not the packet that it echoes nor the address a NATIFY answer is sent from.
- Peerchat.Channel.SetModes: the letters b, I and E take their parameter, but what they do to the stored user modes, and through these to clients, is not modelled; announcements and error replies are not logged. A client that is not on the channel and leaves out a parameter is answered through a null pointer by the source; the model just stops reading there, as it does for members.
- Peerchat.Channel: an entry is a value at its place of the list, so that setter and target are the same if their places are; the source compares pointers.
- The rights of a client arrive as parameters: the override of ranks, the override of limits, who sees the invisible.
- Peerchat.Server.JoinChan: what precedes the look-up of the channel (stored ranks, bans, options in the key) arrives in the entry; stored channel properties, `registered`, `allops` and the invite list are left out.
- `resetChannel`, which may leave an empty channel listed, and the deletion of clients are not modelled.
