# PoETask: packet layer, buffer codec, login protocol and traversals

A Dafny 4.11 model of the parts of the repository that carry its hardest promises:

- the stand-alone **buffer codec** (`Encrypt.hpp`): pad, shuffle, append the key, XOR-chain, and back knowing only the
  length of the key;
- the **packet layer** (`Buffer`, `Packet` and the `Session` handlers in `ASIO.cpp`): typed fields, masking, a queue
  with one asynchronous write at a time, reassembly from partial reads;
- the **object pool** (`Storage<X>`);
- the **login protocol** (`Engine.cpp`): the session map, the ids of each session and the users table, over every run
  of the handlers;
- the two **traversals** of linked structures in `PoEAttach` (`UpdateEntities`, `ReadHashMap`).

`dafny verify dfyconfig.toml` checks everything.

## How it is built

| file | contents |
|---|---|
| Bytes, Sequences, Wrappers | bytes, little-endian integers, concatenation; `Option` |
| Shuffle, Chain, Codec | the codec: functions on sequences, in-place methods proved equal to them, the round trip |
| Fields, Buffer | typed fields and their bytes; the `Buffer` class over a 4000-byte array |
| Framing | the receiving state machine and the reference parser |
| Sending | the sending state machine: queue, strand, outstanding write |
| Asio | `Sender`, `Receiver` (the two halves of `Session`) and `Packet`, proved to take the steps of the two machines |
| Delivery | end-to-end delivery across both machines |
| Pool | `Storage` and its conservation, bound and quarantine |
| Login, LoginSafety | the protocol as functions on a state; what every run keeps, and exactly when one ends the process |
| LoginEffects | what each step does to every table, list and queue, without naming the functions that compute it |
| Engine | `Session` and `Server` objects whose handlers are proved to compute the protocol |
| Traversal | the breadth-first walk and the walk with a budget |

Each imperative file of the source is a class or a method with loops; its `ensures` gives the whole result as a
specification function, and the lemmas speak about that function. Where the state of an object stands for the state of
a machine, a ghost field `view` holds the latter and `Valid()` ties it to the real fields.

Randomness, time, chunk sizes and the interleaving of handlers are parameters: `draw(i)` is the i-th value of `rand()`,
`key` the mask byte, `now` the clock, a chunk whatever one read or write transferred, a run any list of enabled steps.
`up` says up to which account of a login request the peer of the session can still be asked for its address. Each
handler's `ensures` gives the state that `Login.Next` gives for its step, so what holds of every run holds of the objects.
`Env` stands for the parts of the database and of Windows that are only looked at: the unique index on account names,
date parsing and formatting, and SHA-1. In this tree every SQL call reports an error (`AuthServer/TCPComm/Buffer.h:368-370`);
the model follows the code that runs when the queries succeed. Assumed of the table: different account names have
different keys (`EnvWf`), and dates have the length of `YYYY-MM-DD HH:MM:SS` (`ShortDates`), which is what keeps an
acknowledgement inside its buffer. `GetRandomKey` makes keys of four to seven capital letters, so they meet the
condition of the codec's round trip.

## Findings

- **Some logins end the process.** Once an account has passed the checks and any other holder has been displaced, two
  things can go wrong. `GenerateToken` copies the device, the account, the time and the id into an array of 200 bytes
  without a check (`AuthServer/TCPComm/Engine.cpp:117-133`), and with a time of 19 characters they do not fit if device
  and account have 80 or more together; the model takes the overrun to end the process, as the stack check of the
  default build does. And `UpdateUserInfo` asks the socket for its remote address (95-96), which throws when the socket
  is closed or the peer is gone, and no handler catches it. `AbortExact` proves that a step ends the process if and only
  if it handles a login request of which an account passes the checks while its token does not fit or the session has
  no peer; `LoginManyKeeps` says which ids are given before that. `LongDeviceOccurs` and `LoginAfterDisconnectOccurs`
  give inputs. `LoginAfterDisconnect` says what it means for a session that was disconnected before its request is
  handled: any account that passes the checks ends the process, and no id is ever given to the dead session.
- **The server does not reset the users table when it starts** (`AuthServer/TCServerDlg.cpp:206-216`; the reset is behind
  a button, 287-291). `TableAgrees` proves, row by row and for every run, that a row is right at the end if and only if
  it was clear at the start, or a reset was made, or its id has been held meanwhile. `UnclearRowOccurs` gives an input.
- **Some strings are not read back.** The reader cuts the length of a wide string to `MAX_PATH`, not its bytes, and
  `CString::Append` stops at a zero character. `FieldsRoundTrip` proves that a body reads back as its fields if and only
  if every string is free of zeros and no wide string is longer than `MAX_PATH`; `UnreadableOccur` gives inputs.
- **An encrypted buffer comes back exactly when its key ends in a letter or a digit.** `RoundTrip` proves both
  directions, `KeyLostOccurs` gives an input.
- **A search tree of more than 100 nodes is read in part.** `ReadsWholeTree` proves that all keys are found if and
  only if the tree has at most 100 nodes; `LongChainOccurs` gives a tree of 101.

## Model

| member | source | states |
|---|---|---|
| Shuffle.ShuffleInPlace | AuthServer/TCPComm/Encrypt.hpp:51-71 | the in-place loops compute the n/2 rounds of reverse, swap, swap over the first n cells and touch no other cell |
| Shuffle.UnshuffleInPlace | AuthServer/TCPComm/Encrypt.hpp:145-163 | the downward loop computes the inverse rounds in the opposite order |
| Shuffle.ShuffleInverse | AuthServer/TCPComm/Encrypt.hpp:51-163 | the decoder's rounds undo the encoder's and the other way round, for every length and every number of rounds |
| Shuffle.RoundsPermute | AuthServer/TCPComm/Encrypt.hpp:55-71 | the rounds lose and invent no byte |
| Shuffle.RoundMoves | AuthServer/TCPComm/Encrypt.hpp:55-71 | the place that each byte of a round comes from, and the order of the rounds |
| Chain.ChainInPlace | AuthServer/TCPComm/Encrypt.hpp:93-103 | the column-by-column loops compute the flat recurrence c[x] = p[x] ^ (x < k ? key[x] : c[x-k]) |
| Chain.UnchainInPlace | AuthServer/TCPComm/Encrypt.hpp:115-124 | the column-descending loops XOR every cell outside the first row with the ciphertext cell above it |
| Chain.ChainedCells | AuthServer/TCPComm/Encrypt.hpp:93-103 | each cell XOR its plain text is the key byte in the first row and the chained cell above it elsewhere |
| Chain.UnchainRevealsAllButFirstRow | AuthServer/TCPComm/Encrypt.hpp:94-140 | without the key, everything but the first row is recovered, and the first row is left masked by the key |
| Chain.FirstRowMaskTwice | AuthServer/TCPComm/Encrypt.hpp:137-140 | XOR of the first row with the recovered key restores it |
| Codec.PadInPlace | AuthServer/TCPComm/Encrypt.hpp:25-49 | the message is kept and followed by the marker, padding and, if needed, one byte that makes the length even |
| Codec.PaddedBytes | AuthServer/TCPComm/Encrypt.hpp:25-49 | the byte behind the message is the at sign, then come punctuation bytes by the next random values modulo 16, and the evening byte modulo 10 |
| Codec.TailBytes | AuthServer/TCPComm/Encrypt.hpp:76-90 | the bytes behind the key are punctuation by the next random values modulo 10 |
| Codec.EncryptBuffer | AuthServer/TCPComm/Encrypt.hpp:21-108 | the returned length, the ciphertext, the terminator, and that nothing behind the terminator is written |
| Codec.EncryptedLengthExact | AuthServer/TCPComm/Encrypt.hpp:25-107 | with n = k*(len/k+2) the length is n+k for even n and n+2k for odd n, a multiple of k, at most len+4k |
| Codec.KeyScanExact | AuthServer/TCPComm/Encrypt.hpp:126-135 | the first backward scan stops at the key's last byte exactly when that byte is a letter or a digit |
| Codec.MessageScanExact | AuthServer/TCPComm/Encrypt.hpp:165-171 | the second scan stops at the index of the marker, which is the message length, so no byte of the message is inspected |
| Codec.RoundTrip | AuthServer/TCPComm/Encrypt.hpp:21-174 | decryption, given only the key's length, returns the message and the key if and only if the key ends in a letter or digit, for every message and all random values |
| Codec.KeyLostOccurs | AuthServer/TCPComm/Encrypt.hpp:126-135 | a message and a key, ending in neither letter nor digit, that do not come back |
| Codec.Scan | AuthServer/TCPComm/Encrypt.hpp:126-128 | the loop stops where the backward scan over the buffer is defined to stop |
| Codec.UnwrapInPlace | AuthServer/TCPComm/Encrypt.hpp:129-163 | taking the key, unmasking the first row and undoing the rounds leave the unwrapped text in front of a terminator |
| Codec.DecryptBuffer | AuthServer/TCPComm/Encrypt.hpp:110-174 | on any buffer on which the scans have a stopping place, the in-place procedure leaves exactly the decrypted text |
| Codec.EncryptThenDecrypt | AuthServer/TCPComm/Encrypt.hpp:21-174 | one procedure after the other on one array: the message is back in its place with its length and the key, and nothing behind the terminator of the ciphertext was written |
| Fields.FieldRoundTrip | AuthServer/TCPComm/Buffer.cpp:54-151 | one field of any kind is read back whole with the offset behind it, except a string with a zero character and a wide string longer than MAX_PATH, which never are |
| Fields.FieldsRoundTrip | AuthServer/TCPComm/Buffer.cpp:54-151 | a sequence of fields reads back if and only if every string is free of zeros and no wide string is longer than MAX_PATH, and then the offset ends behind the last field |
| Fields.WireFormat | AuthServer/TCPComm/Buffer.cpp:54-84 | the bytes of every kind of field: integers low byte first, strings behind their lengths, wide characters low byte first |
| Fields.ReadMissing | AuthServer/TCPComm/Buffer.cpp:126-151 | an integer that is not there reads as 0 without a move, a string that is not there as empty with its prefix gone |
| Fields.ReadSized | AuthServer/TCPComm/Buffer.cpp:126-151 | a string of a given size is read without a prefix |
| Fields.MaskSum | AuthServer/TCPComm/Buffer.cpp:36-50 | a masked byte and the byte itself add up to 255 and the key byte, modulo 256 |
| Fields.UnreadableOccur | AuthServer/TCPComm/Buffer.cpp:126-151 | a string with a zero and a wide string of 261 characters that do not come back |
| Fields.MaskTwice | AuthServer/TCPComm/Buffer.cpp:31-51 | masking and unmasking with the same key byte cancel, modulo 256 |
| Buffers.NestedRoundTrip | AuthServer/TCPComm/Buffer.cpp:153-171 | a package written into another comes out with its opcode and body, and the outer offset ends behind it |
| Buffers.Buffer.CreatePackage | AuthServer/TCPComm/Buffer.cpp:91-104 | an empty body, a length field of 0 that agrees with `used`, and the key byte left as it was |
| Buffers.Buffer.AddData | AuthServer/TCPComm/Buffer.cpp:54-60 | the data goes behind the body, the length field grows modulo 2^32, and it keeps agreeing with `used` |
| Buffers.Buffer.AddFields | AuthServer/TCPComm/ASIO.cpp:441-506 | fields added in the order of the format string give the concatenation of their encodings |
| Buffers.Buffer.ReadUint | AuthServer/TCPComm/Buffer.h:257-266 | the little-endian value and the advanced offset, or 0 and no move when the bytes are missing |
| Buffers.Buffer.ReadMultiString | AuthServer/TCPComm/Buffer.cpp:126-137 | the prefixed or given number of bytes, up to the first zero, or an empty string when they are missing |
| Buffers.Buffer.ReadWideString | AuthServer/TCPComm/Buffer.cpp:139-151 | the same for wide strings, a prefixed length being cut to MAX_PATH; the 32-bit sum cannot wrap for it |
| Buffers.Buffer.Read | AuthServer/TCPComm/Buffer.cpp:153-166 | the three outcomes of a nested read and what each leaves in both buffers |
| Buffers.Buffer.Write | AuthServer/TCPComm/Buffer.cpp:168-171 | the whole inner buffer, header included, is appended to the outer body |
| Buffers.Buffer.Copy | AuthServer/TCPComm/Buffer.cpp:106-111 | the used bytes and the read offset of the other buffer |
| Buffers.Buffer.Encrypt | AuthServer/TCPComm/Buffer.cpp:31-37 | the key byte is stored, and every body byte is replaced by the one that adds up with it to 255 and the key byte, modulo 256; opcode and length stay |
| Buffers.Buffer.Decrypt | AuthServer/TCPComm/Buffer.cpp:47-51 | every body byte is replaced by the one that adds up with it to 255 and the stored key byte, modulo 256; the header stays |
| Framing.FragmentationIndependence | AuthServer/TCPComm/ASIO.cpp:204-335 | for every sequence of partial reads the packets, the leftover and the rejection equal those of one parse of the whole stream |
| Framing.ReadsInBounds | AuthServer/TCPComm/ASIO.cpp:210-284 | every read asks for exactly what is missing of the header or the announced body, at least one byte, and ends within the 4000 bytes of the buffer |
| Framing.HeaderRejected | AuthServer/TCPComm/ASIO.cpp:303-319 | a complete header is rejected if and only if 6 and the length in it exceed 4000 |
| Framing.ParseWellFormed | AuthServer/TCPComm/ASIO.cpp:303-313 | a stream of complete packets followed by anything parses into these packets and then the rest |
| Sending.ReachableSafe | AuthServer/TCPComm/ASIO.cpp:132-202 | over every run before disconnection: exactly one outstanding or pending continuation while a packet is in progress and no error occurred, none otherwise; a waiting packet always has a pending start, a disconnection or a sender about to post |
| Sending.WireIsPrefix | AuthServer/TCPComm/ASIO.cpp:137-192 | over every run before disconnection the wire followed by the unsent bytes is the concatenation of all pushed packets, first in first out |
| Sending.WireAlwaysPrefix | AuthServer/TCPComm/ASIO.cpp:132-202 | in every reachable state, closed or not, the wire carries at least the completed packets and a prefix of the pushed ones |
| Sending.QuietMeansSent | AuthServer/TCPComm/ASIO.cpp:137-192 | when no handler, write or sender is pending, everything pushed is on the wire |
| Sending.DrainEnds | AuthServer/TCPComm/ASIO.cpp:159-193 | without new packets and errors a run of progressing steps is no longer than the work at its start |
| Sending.NeverStuck | AuthServer/TCPComm/ASIO.cpp:132-202 | a session that is neither quiet nor closed has a step of its own |
| Sending.Drains | AuthServer/TCPComm/ASIO.cpp:132-202 | from every safe state the session's own steps lead to everything pushed being sent, unless a disconnection is pending or a held packet is marked as the last one, and then they lead to the session being closed |
| Sending.ClosesExactly | AuthServer/TCPComm/ASIO.cpp:132-202 | every run of own steps that ends quiet or closed ends closed if and only if a disconnection was pending or a held packet was marked as the last one |
| Sending.ClosedAfterLast | AuthServer/TCPComm/ASIO.cpp:161-194 | without errors a session is closed only after a packet marked as the last one has been sent completely |
| Sending.ErrorCloses | AuthServer/TCPComm/ASIO.cpp:161-194 | after a failed read or write, every finished run of own steps ends closed |
| Asio.Sender.PushPacket | AuthServer/TCPComm/ASIO.cpp:419-422 | the packet is masked and queued last |
| Asio.Sender.PushFormated | AuthServer/TCPComm/ASIO.cpp:427-508 | the bytes queued are the package of the given fields, masked |
| Asio.Sender.DoWrite | AuthServer/TCPComm/ASIO.cpp:132-160 | the handler takes the step of the sending machine for a start or a continuation |
| Asio.Sender.OnWritten | AuthServer/TCPComm/ASIO.cpp:161-194 | the completion handler takes the step for a partial or full write, and posts what that step posts |
| Asio.Sender.DoDisconnect | AuthServer/TCPComm/ASIO.cpp:406-411 | the queue is emptied and the packet in progress dropped |
| Asio.Receiver.OnHeaderRead | AuthServer/TCPComm/ASIO.cpp:284-328 | the header handler takes the step of the receiving machine for any chunk, and gives the session up if and only if the complete header announces more than the array holds |
| Asio.Receiver.OnBodyRead | AuthServer/TCPComm/ASIO.cpp:210-234 | the body handler takes that step, and a finished packet goes on the queue as a copy |
| Asio.DecryptPacket | AuthServer/TCPComm/ASIO.cpp:36-42 | a processing thread hands on the unmasked bytes of the packet |
| Delivery.ReadsBack | AuthServer/TCPComm/Buffer.cpp:31-151 | an intact packet unmasks to its opcode, and to its fields, with the offset at `used` at the end, if and only if every string of them is readable |
| Delivery.OnWireBytes | AuthServer/TCPComm/Buffer.cpp:31-104 | opcode, length with the low byte first, key byte and masked body stand at their places on the wire |
| Delivery.EndToEnd | AuthServer/TCPComm/ASIO.cpp:132-335 | for all messages of at most 4000 bytes with their headers, any senders, handler order, partial writes and partial reads, whether the sender has closed or not: the packets handed on are the first ones pushed, each reads back as its own fields if and only if these are readable, they are at least the completed ones when the wire has been read, and all of them when nothing is pending |
| Pool.PoolConservation | AuthServer/TCPComm/Buffer.h:115-152 | over every run the live and the free list are duplicate-free and disjoint, together they are all objects ever made, and these are at most peak + 9 |
| Pool.DoubleRelease | AuthServer/TCPComm/Buffer.h:141-150 | releasing an object a second time changes nothing |
| Pool.ReuseQuarantine | AuthServer/TCPComm/Buffer.h:124-130 | a reused object was followed, after its last release, by releases of at least nine different other objects |
| Pool.Storage.Allocate | AuthServer/TCPComm/Buffer.h:120-139 | the oldest free object when ten are free and a new one otherwise, ready and added to the live list |
| Pool.Storage.Release | AuthServer/TCPComm/Buffer.h:141-150 | a live object moves to the end of the free list; any other is ignored |
| LoginSafety.SingleLogin | AuthServer/TCPComm/Engine.cpp:360-510 | over every run from any table at start-up: map and id lists are one relation, no id is held twice, holders are in use, rows of held ids say connected and have a token, and every other row is clear or still as an earlier run left it |
| LoginSafety.StepKeeps | AuthServer/TCPComm/Engine.cpp:260-510 | every step keeps the invariant, whatever the session it is for, and every reset makes the table agree |
| LoginSafety.TableAgrees | AuthServer/TCPComm/Engine.cpp:360-396 | for every run from any table: a row says whether its account is connected if and only if it was clear at start-up, or a reset was made in the run, or its id has been in the session map |
| LoginSafety.NeverHeld | AuthServer/TCPComm/Engine.cpp:360-396 | without a reset, a row whose id is never in the session map ends as it started |
| LoginSafety.UnclearRowOccurs | AuthServer/TCPComm/Engine.cpp:360-396 | a start-up table and a run after which a row is wrong |
| LoginSafety.AbortExact | AuthServer/TCPComm/Engine.cpp:91-136 | a step ends the process if and only if it handles a login request of which an account passes the checks while its token's ingredients do not fit 200 bytes or the peer address is gone |
| LoginSafety.LoginAfterDisconnect | AuthServer/TCPComm/Engine.cpp:398-456 | a login request of a disconnected session ends the process if and only if one of its accounts passes the checks, and gives the session no id |
| LoginSafety.LoginAfterDisconnectOccurs | AuthServer/TCPComm/Engine.cpp:398-456 | an input on which that happens |
| LoginSafety.LongDeviceOccurs | AuthServer/TCPComm/Engine.cpp:113-136 | a device of 100 characters, sent by a connected session, with which the token does not fit |
| LoginSafety.LoginManyKeeps | AuthServer/TCPComm/Engine.cpp:423-453 | a request gives a session without ids exactly the ids of the accounts that pass the checks before the first one that passes them and cannot be completed, each once, whoever held them before; it ends the process exactly when there is such a one, and keeps the invariants either way |
| LoginSafety.AdmittedOnce | AuthServer/TCPComm/Engine.cpp:427-437 | an account that occurs again in a request is refused, so no two admitted accounts of a request share an id |
| LoginSafety.ResetEstablishes | AuthServer/TCPComm/Engine.cpp:360-396 | a reset leaves an empty map, empty id lists and an all-zero table, whatever the table said before |
| LoginSafety.ResetExact | AuthServer/TCPComm/Engine.cpp:360-396 | a reset empties the map if and only if all ids were held by sessions in the live list |
| LoginSafety.NoSilentEviction | AuthServer/TCPComm/Engine.cpp:65-89 | over every run, an id lost without the session's own logout, disconnection or reuse was announced to it by OP_DisconnectAccount for that id or OP_ForceLogout |
| LoginSafety.RunRows | AuthServer/TCPComm/Engine.cpp:174-206 | over every run an account keeps its password and kind, a bound device stays bound, and a started time is neither moved nor extended |
| LoginSafety.DeviceLock | AuthServer/TCPComm/Engine.cpp:177-206 | an account bound to a device is refused from any other device in every later state |
| LoginSafety.FirstDeviceWins | AuthServer/TCPComm/Engine.cpp:177-206 | once an account has been let in from a device, its token fitting and its session having a peer, every run refuses it from any other device |
| LoginSafety.TimeRunsOut | AuthServer/TCPComm/Engine.cpp:180-213 | an account whose started time is over is never let in again, whatever happens in between |
| LoginSafety.AckFits | AuthServer/TCPComm/Engine.cpp:421-453 | an acknowledgement of fewer than 30 accounts with 19-character dates and 40-character tokens is at most 3892 bytes |
| LoginSafety.DigestTextLength | AuthServer/TCPComm/Engine.cpp:21-37 | a token has 40 characters |
| LoginEffects.LoginCodeExact | AuthServer/TCPComm/Engine.cpp:151-224 | the code of every combination: success if and only if nothing is empty, the account has a row, password and device fit it and the end of its time lies ahead; expired if only the last fails; invalid otherwise |
| LoginEffects.GainAuthorized | AuthServer/TCPComm/Engine.cpp:175-224 | an id that is new in a session's list came from a login request of that session with the account's name and the password of its row |
| LoginEffects.HeldByPassword | AuthServer/TCPComm/Engine.cpp:175-224 | over every run, whoever holds an id in the end has sent its account's name and password |
| LoginEffects.LoginTakes | AuthServer/TCPComm/Engine.cpp:65-96 | a login that is completed gives the id to the session alone, tells the former holder, and writes device, times, state and token into the row; a first login starts the time for so many days |
| LoginEffects.DisplaceFreed | AuthServer/TCPComm/Engine.cpp:65-89 | the id leaves the map and every other list, its holder is told with LR_Duplicate, and no other row changes |
| LoginEffects.OwnIdStays | AuthServer/TCPComm/Engine.cpp:65-69 | the holder itself is not displaced |
| LoginEffects.EvictEffect | AuthServer/TCPComm/Engine.cpp:71-83 | only the holder loses the id and is told the reason, and only its row is cleared |
| LoginEffects.DigestReads | AuthServer/TCPComm/Engine.cpp:21-37 | the text of a digest is each of its words in eight lower-case hexadecimal digits |
| LoginEffects.IngredientsAre | AuthServer/TCPComm/Engine.cpp:120-133 | device, account, time and id stand one behind the other, and with a time of 19 characters they fit if and only if device and account have 79 at most |
| LoginEffects.AckBytes | AuthServer/TCPComm/Engine.cpp:440-449 | a result is the code and, on success, the id, the end of the account's time and the token |
| LoginEffects.AckAppends | AuthServer/TCPComm/Engine.cpp:424-453 | results follow one another in the order of the accounts |
| LoginEffects.ResultsAnswer | AuthServer/TCPComm/Engine.cpp:424-439 | result number i is that of account number i, judged by the table as it was before the request |
| LoginEffects.KeepaliveEffect | AuthServer/TCPComm/Engine.cpp:470-473 | a keepalive is answered by one keepalive, and nothing else changes |
| LoginEffects.StrangerEffect | AuthServer/TCPComm/Engine.cpp:476-490 | a session without ids is sent OP_ForceLogout for anything but a login request, and nothing else changes |
| LoginEffects.LoginRequestEffect | AuthServer/TCPComm/Engine.cpp:398-456 | a request handled to its end is acknowledged once, with one result an account |
| LoginEffects.LogoutEffect | AuthServer/TCPComm/Engine.cpp:494-505 | the list of the session is empty, its ids leave the map, their rows are cleared, and nothing else changes |
| LoginEffects.IgnoredEffect | AuthServer/TCPComm/Engine.cpp:408-413 | anything else from a session with ids, and a request with too many accounts, changes nothing |
| LoginEffects.DisconnectEffect | AuthServer/TCPComm/Engine.cpp:260-269 | the same as for a logout, and the session leaves the live list |
| LoginEffects.AcceptEffect | AuthServer/TCPComm/Engine.cpp:254-258 | the session joins the live list, and no list, row or queue changes |
| LoginEffects.ResetEffect | AuthServer/TCPComm/Engine.cpp:360-396 | every session in use is sent OP_ForceLogout, every list and the map are empty, and of the rows only state and token change |
| LoginEffects.ExpireTables | AuthServer/TCPComm/Engine.cpp:317-340 | the expired ids leave the map, their rows are cleared if they were connected, and all others stay |
| LoginEffects.ExpireEffect | AuthServer/TCPComm/Engine.cpp:317-340 | and they leave every list, their holders having been told with LR_Expired |
| LoginEffects.NobodyOverdue | AuthServer/TCPComm/Engine.cpp:305-340 | after a round of the expiry check nobody is logged in whose time is over |
| Engine.RequestRoundTrip | AuthServer/TCPComm/Engine.cpp:408-418 | the server parses from a packet the request a client wrote into it if and only if every string of it is readable |
| Engine.RequestLayout | AuthServer/TCPComm/Engine.cpp:408-418 | the count, then the name and the password of each account in turn, then the device |
| Engine.TooMany | AuthServer/TCPComm/Engine.cpp:408-410 | a request is refused if and only if its count is 30 or more |
| Engine.GenerateToken | AuthServer/TCPComm/Engine.cpp:113-136 | the four copies put the ingredients into the array one behind the other and the token is their digest, or a copy would leave the array, exactly when the ingredients do not fit |
| Engine.Server.CheckAnotherLogin | AuthServer/TCPComm/Engine.cpp:65-89 | a different holder is told, loses the id in both views, and the row is cleared; the same holder keeps it |
| Engine.Server.Check | AuthServer/TCPComm/Engine.cpp:151-214 | the result code for every combination of missing data, unknown account, wrong password, wrong device and expired or unreadable date; success said outright |
| Engine.Server.CheckLogin | AuthServer/TCPComm/Engine.cpp:138-236 | on success the other holder is displaced and the row updated, a first login starting the account's time; when the token does not fit or the peer address is gone the other holder is displaced and the handler gets no further; otherwise nothing changes |
| Engine.Server.UpdateUserInfo | AuthServer/TCPComm/Engine.cpp:91-96 | the row is updated, or nothing is and the process is ending, as the closed socket or the missing peer makes the query's argument throw |
| Engine.Server.ReadRequest | AuthServer/TCPComm/Engine.cpp:408-418 | the loop reads the request at the offset, or refuses 30 accounts and more |
| Engine.Server.HandleLogin | AuthServer/TCPComm/Engine.cpp:398-456 | the tables after all accounts, and one acknowledgement holding every result in order, or none and the tables as they are when the loop cannot be finished; the buffer and its length field stay in step throughout |
| Engine.Server.OnRecvPacket | AuthServer/TCPComm/Engine.cpp:458-510 | the tables, the packets sent, the session's clock and whether the process is ending after any packet, by opcode and by whether the session holds ids |
| Engine.Server.Accept | AuthServer/TCPComm/Engine.cpp:254-258 | a session handed out by the pool joins the live list with an open socket, an empty list of ids and a fresh clock |
| Engine.Server.OnRemoveSession | AuthServer/TCPComm/Engine.cpp:260-269 | every id of the session leaves the map, its rows are cleared and its list emptied |
| Engine.Server.DoDisconnect | AuthServer/TCPComm/ASIO.cpp:396-416 | the same, the socket is closed, and the session leaves the live list |
| Engine.Server.CheckExpired | AuthServer/TCPComm/Engine.cpp:305-340 | each connected account the expiry query returns is evicted with LR_Expired, in the order of the rows; then nobody is logged in whose time is over |
| Engine.Server.CheckSilent | AuthServer/TCPComm/Engine.cpp:342-356 | the sessions silent for more than 120 seconds are disconnected, by a run of disconnection steps, and exactly they leave the live list |
| Engine.Server.InitAllConnections | AuthServer/TCPComm/Engine.cpp:360-396 | the loops and the final query compute the reset of every session in the live list |
| Traversal.UpdateEntities | PoEAttach/Models/EntityListWrapper.cpp:107-148 | on any finite link graph, cyclic or not, every reachable address is visited exactly once, nothing else is, none before one that is fewer links away, and the cache holds the entities in visiting order |
| Traversal.EntitiesAre | PoEAttach/Models/EntityListWrapper.cpp:132-146 | the cached pointers are the non-null ones at offset 0x28 of the visited nodes |
| Traversal.ReadHashMap | PoEAttach/Controllers/GameStateController.cpp:26-58 | the loop over the stack computes the walk with a budget of 100 nodes |
| Traversal.WalkTakes | PoEAttach/Controllers/GameStateController.cpp:35-51 | on trees the walk stores exactly the first nodes, as many as the budget, in the order node, next, previous |
| Traversal.ReadsWholeTree | PoEAttach/Controllers/GameStateController.cpp:26-58 | a tree without repeated keys is read with all its keys and values if and only if it has at most 100 nodes |
| Traversal.LongChainOccurs | PoEAttach/Controllers/GameStateController.cpp:35-51 | a tree of 101 nodes that is not read whole |

## Left out

- Buffers.Buffer.ReadMultiString: a length prefix so large that offset plus length passes 2^32 is excluded, because the wrapped sum has no meaning for the copy that follows.
- Buffers.Buffer.ReadWideString: the same for an explicit size for which offset plus twice the size passes 2^32; a prefixed length cannot be that large.
- Buffers.Buffer.Read: the same for the length of a nested package.
- Buffers.Buffer.AddFields: the format letters `c`, `r` and `p`, which add a `Syncable`, an array of strings and a map, are repetitions of the fields that are modelled.
- Buffers.Buffer.AddData: requires that the package was started and that there is room; the source checks neither.
- Codec.DecryptBuffer: buffers on which a scan would leave the array or classify a byte of 0x80 and more are excluded, because `isalpha` on a negative `char` is undefined, and so are key lengths of 260 and more, for which the array of the key is too short.
- Asio.Sender.PushPacket: `SendPacket` is split into its push and its post, so that other threads can run between them; `PostWrite` is the other half.
- LoginSafety.AbortExact: dates of the table on which the conversion to `CTime` throws (years outside 1970 to 3000) are taken not to occur, nor are numbers of days for which the seconds of an account's time pass 2^31.
- Engine.Server.Check: the query is taken to find the row of the account, and the update to write it, whatever characters the account and the device hold; the text of the queries is not modelled.
- Traversal.UpdateEntities: the list `ids` is never filled by the source, so entities are not told apart by their id; only addresses are visited once.
- `Session` is modelled as three classes (`Sender`, `Receiver`, and the engine's `Session`), each with the fields its handlers use; inheritance of `Packet` from `Buffer` is a field.
- A disconnection in one thread while a login of the same session is handled in another: handlers do not overlap here, except that the peer can go away between two accounts of a request.
- What the operating system does after an exception has left a handler or an array has been overrun: no step is possible in the model, and a new run starts over the table that is left.
- Sockets, threads and locks: every handler is one atomic step; four threads take packets from the receive queue, so only the order of the queue is stated, not that of processing.
- What happens on a session object after `DoDisconnect` has run on it, including late handlers on an object that the pool has handed out again.
- `bufferexternal`, `SendPatch` and `DoReadPatch`: not reached on the normal path.
- `AddData` and `Read` for lists and maps of `Syncable`: repetitions of the fields that are modelled.
- SQL errors: each only writes a log line.
- The array operations of the codec are on unbounded integers; all of them are bounded by the length of the array.
- `EncryptResource`, hexadecimal helpers, the splitting of entities into categories, injection and game memory access.
