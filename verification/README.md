# What this project models

hood is a filtering TLS proxy with a name service and an actor that plays scripted actions. This Dafny project models
its five stateful parts and two small ones they rest on, and proves what they are for.

- **Record reader** (`MessageReader.dfy`, `TlsRecords.dfy`). A TCP byte stream, cut anywhere, becomes whole TLS records
  (section 5.1 of RFC 8446). `Framing.Split` says what the records of a stream are, in three lines and without a buffer;
  the class `MessageReader` with its offsets, compaction and growth is proved against it, for every way the reads cut
  the stream.
- **Hello codec** (`TlsDefinition.dfy`, `TlsWire.dfy`, `TlsEncoder.dfy`, `TlsDecoder.dfy`, `TlsRoundTrip.dfy`,
  `TlsLocality.dfy`, `TlsFrames.dfy`, `TlsReencoding.dfy`, `TlsLayouts.dfy`, `TlsVerdicts.dfy`). The bytes of a record
  are functions of the message tree; the encoder's methods append exactly those bytes and succeed exactly when the
  lengths fit; the decoder's methods compute `TlsReading.MessageAt`, which refuses a record exactly for its length
  fields and types; decoding undoes encoding, and encoding undoes decoding exactly when the record's own length fields
  say so. Sections 4 and 4.1 to 4.2.7 of RFC 8446 and section 3 of RFC 6066 give the layouts.
- **Relay** (`SecurityPolicy.dfy`, `RelaySpec.dfy`, `RelayGates.dfy`, `Context.dfy`, `RelayRuns.dfy`,
  `RelayHosts.dfy`, `RelayHellos.dfy`, `RelaySplits.dfy`, `RelayStops.dfy`, `RelayReads.dfy`, `RelayStreams.dfy`). Two
  linked contexts with queues, one write in flight each, flags and a mutual stop. The class is proved against value
  functions; those make up a transition system whose every run up to the stop conserves records and bytes and passes
  two gates. What comes after the stop is a second one.
- **Certificate checks** (`CertificateStore.dfy`, `CertificateCheck.dfy`, `CertificateRuns.dfy`,
  `CertificateTrust.dfy`, `CertificateCountdown.dfy`, `CertificatePorts.dfy`). A bounded, expiring cache, handlers that
  wait together for one check of a host, what they are handed, a countdown over its endpoints, and what becomes of the
  port a request names.
- **Task executor** (`ActionGraph.dfy`, `NodeKeys.dfy`, `ExecutorSpec.dfy`, `Executor.dfy`, `ExecutorRuns.dfy`,
  `ExecutorOrder.dfy`, `ExecutorProgress.dfy`, `ExecutorMeasure.dfy`, `ActionRuns.dfy`). The graph that `play_in_action`
  builds, and a thread pool as interleaved steps of workers, scheduler and the thread that queues the roots, each step
  as small as one access to shared state or one section under a lock.
- **Address blocks and names** (`Network.dfy`, `Strings.dfy`, `NameService.dfy`). The mask arithmetic that Python and
  C++ do differently, the filter of endpoints, the cache of answers, and the NUL-separated reply.

Methods stand for the code that changes state and are proved against functions; lemmas are about the functions, and say
of each what it is without it: by the bytes, by quantifiers over a list or a log, or by what any run shows. Lists that
are filtered are told by `Sequences.Keeps`. The statement `hide` in some bodies only keeps the verifier from unfolding
definitions it does not need there.

## Where the code does not do what one would expect

Each is proved, with its exact condition.

- A partly buffered header makes the reader ask for five more bytes and not for the missing ones, so a record of at
  most eight bytes can be held back until more data comes (`Framing.HeldBackExactly`; `Framing.ChangeCipherSpecHeldBack`
  shows it of a TLS 1.3 change_cipher_spec record).
- The handler takes a record's size as 16 bits: records arrive whole exactly if no length field is above 65530
  (`Framing.SeenWholeExactly`), and nothing is decoded of one that is not (`TlsRecords.LongRecordRefused`). A read asks
  for 65535 bytes, which the code asserts it does not, exactly with a length field of 65535 and just the header buffered
  (`MessageReader.MessageReader.DoReadStream`).
- The decoder returns good early for an empty server_name and for a list that does not fill its extension, or reaches
  beyond it. What it has read fills the block exactly if no such extension is followed by anything
  (`TlsFrames.ListFilledExactly`); behind an empty server_name it looks at nothing (`TlsFrames.EmptyNameEndsList`).
- A hello is bounded by its record, not by its own handshake message, whose length counts only for where the next one
  begins (`TlsFrames.AnyFrame`). It ends where that length says exactly if the lengths of its parts add up to it
  (`TlsFrames.HelloFilledExactly`); in a longer frame bytes are passed over (`TlsFrames.LongFrame`), of a shorter one
  the end is read again as a message (`TlsFrames.ShortFrame`, `TlsFrames.EndsInMessage`). Headers are read before their
  bound is checked, which changes no verdict (`TlsLocality.Locality`).
- Encoding does not undo decoding (`TlsRoundTrip.EncodeMayNotUndoDecode`). The bytes of an extension come back exactly
  if it does not end its list early, is no single version in a list, and, for a server_name, its list length, which the
  decoder skips, is right (`TlsReencoding.ExtensionBack`). Those of a record do exactly if, besides, no server_name
  list holds an empty name, its one handshake message fills it, and a hello ends where its message says; or if it is no
  handshake record and empty (`TlsReencoding.EncodeUndoesDecodeExactly`). A ServerHello comes back the same from its
  bytes exactly if its retry type is the one its random value announces (`TlsRoundTrip.SameMessageExactly`). The three
  retry tails are equal (`TlsDefinition.RetryTypesSeen`).
- No version of a ClientHello is ever refused, as `HardenVersions` works on a copy and always returns true: what becomes
  of a hello does not depend on the versions it names (`RelayHosts.VersionsIgnored`).
- A second hello for another host before the connection is made has the proxy connect to the first host while the
  context holds the second (`RelayHosts.RenamedMisses`); that is exactly when the two part
  (`RelayHosts.AlignedExactly`).
- A hello for another host than the one connected to stops the connection, but only once it is queued: it is begun to be
  written to the wrong host first, exactly if no write is outstanding when it comes (`RelayHellos.WrittenBeforeStop`,
  `RelayHellos.SecondGoesToFirst`). A hello is written to another host than it names exactly if one comes on an idle
  connection to such a host, or waits and is the next to go out to one (`RelayHellos.ElsewhereExactly`); without hellos
  that rename the host only the first remains (`RelayHellos.ElsewhereUnrenamed`).
- A second hello for the same host splits the client's records over two connections (`RelayHosts.TwoConnections`). A
  live relay can still come to that exactly if two checks were asked for, or its client is neither connected nor
  encrypting (`RelaySplits.SplitExactly`). The second connection is written to and not read, as the reader runs on the
  first until its stream ends (`RelayReads.OnlyFirstRead`, `RelayReads.LastReadExactly`). What that stream leaves over
  is then read in front of the next one, which keeps its own records exactly if nothing is
  (`RelayReads.OwnRecordsExactly`).
- A stopped server context still gets the records that came with the one that stopped it, and calls the client's through
  a link that is gone: exactly if one of those records is one it lets on (`RelayStops.NoLinkExactly`). A stop gives up
  neither checks nor connections, so the client's context may start a server context that is gone: some continuation
  does exactly if one is outstanding, or a record of the client stopped it before it was connected
  (`RelayStops.TooLateExactly`, `RelayStops.StoppedRunExactly`).
- A stopped relay may still write to a server: records that came with the one of the client that stopped it are taken
  by a new server context, which an outstanding check or connection then starts (`RelayStops.WrittenAfterStopExactly`).
- The fallback to the proxy domain resolves under another key, so the handlers of a host whose last resolution yields
  blocked endpoints alone are never called, nor those that come after them
  (`CertificateRuns.LastCallBackSticks`, `CertificateRuns.StuckForever`).
- The port of a request decides that of its endpoints, but the cache and those that wait are kept by the host alone.
  Every handler gets endpoints of its own port, whatever happens, exactly if the requests for one host, or for a host
  and its name in the proxy domain, agree on the port; or if every address is blocked
  (`CertificatePorts.PortsKeptExactly`).
- The Python client takes a reply of up to seven characters for empty, and so loses a single address such as 1.1.1.1
  (`NameService.ReceivedExactly`). The name service never reaches its eviction of expired names
  (`NameService.DnsOverHttpsResolver.Keep`).
- An action without tasks is never reported done (`ActionRuns.NoTasksNeverDone`).

## Model

| member | source | states |
|---|---|---|
| Framing.SplitTiles | proxy/src/message_reader.hpp:106-133 | the records cut out and what is left over make up the stream, and no whole record is left over |
| Framing.SplitYieldsRecords | proxy/src/message_reader.hpp:106-133 | every piece cut out is one record by its own 16-bit length field, which `TlsRecords.RecordExactly` says in bytes |
| Framing.SplitOfRecords | proxy/src/message_reader.hpp:106-133 | any whole records in front of a stream are just what is cut off first |
| TlsRecords.RecordExactly | proxy/src/message_reader.hpp:113-116 | the records are just the bytes that a type, a version and a payload of at most 65535 bytes make |
| TlsRecords.SentRecordsCutOut | proxy/src/message_reader.hpp:106-133 | of any such records sent one after the other, and the beginning of one more, just those are cut out |
| TlsRecords.SentRecordFirst | proxy/src/message_reader.hpp:106-133 | such a record followed by anything is cut off first |
| Framing.SplitResumes | proxy/src/message_reader.hpp:106-184 | a stream may be split in two goes at any byte, what is left of the first put before the second |
| Framing.SeenWholeExactly | proxy/src/message_reader.hpp:45-47 | the 16-bit size argument shows records whole exactly when no length field is above 65530 |
| TlsRecords.LongRecordRefused | proxy/src/message_reader.hpp:45-47 | of a record above that size the handler sees fewer bytes than a header has, and decodes none |
| Framing.HeldBackExactly | proxy/src/message_reader.hpp:135-141 | when too few bytes have come for the pending read, all records of the stream have been delivered, unless and only unless a header was buffered in part and what came completes its record; with a whole header buffered the read completes exactly with its record |
| Framing.ChangeCipherSpecHeldBack | proxy/src/message_reader.hpp:139 | a six-byte record cut after three bytes is whole on the wire and not delivered |
| MessageReader.MessageReader.Reset | proxy/src/message_reader.hpp:52-57 | nothing buffered or pending is left, and the reader is stopped |
| MessageReader.MessageReader.ShowRecords | proxy/src/message_reader.hpp:106-133 | the framing loop ends with no whole record in the window; only the handler's result, not the status, ends it sooner; every byte stays accounted for |
| MessageReader.MessageReader.ShowOne | proxy/src/message_reader.hpp:114-132 | the record in front is shown, its size cut to 16 bits, and consumed; window and records still make up what was received |
| MessageReader.MessageReader.HasRecord | proxy/src/message_reader.hpp:107-116 | the pending size is learnt as soon as the header is there, and a record that is whole is recognised exactly |
| MessageReader.MessageReader.Ask | proxy/src/message_reader.hpp:135-156 | making room keeps the window; the read fits the free tail, asks for at least one byte and at most 65535, and 65535 in one case alone; the buffer stays within 131075 bytes |
| MessageReader.MessageReader.Compact | proxy/src/message_reader.hpp:149-152 | the unconsumed bytes are moved to the front in place, in order |
| MessageReader.MessageReader.Grow | proxy/src/message_reader.hpp:153-155 | the buffer grows and keeps its bytes |
| MessageReader.MessageReader.DoReadStream | proxy/src/message_reader.hpp:92-161 | one turn: a stopped or closed reader notifies and ends; else it ends as the handler's last answer says, and no call of `Stop` ends it; a pending read comes only once all records received so far have been shown |
| MessageReader.MessageReader.OnRead | proxy/src/message_reader.hpp:162-184 | the bytes a read brings follow those before; errors stop the reader, and only some are reported |
| MessageReader.MessageReader.Start | proxy/src/message_reader.hpp:60-75 | a running reader is not started twice; a started one asks for its first bytes |
| MessageReader.ReadStream | proxy/src/message_reader.hpp:60-184 | for every stream, every cut of the reads and every handler: the handler sees the records received, in order, none after one it does not answer with `Read`; reading ends only by such an answer or a call of `Stop`; unconsumed bytes and records make up the stream; while a read is pending these are all its records unless one is held back; the buffer stays bounded |
| TlsDefinition.RetryTypesSeen | proxy/src/tls_definition_raw.hpp:896-908 | only no retry, a TLS 1.3 retry and an unknown one are ever recognised, the second for one random value, the first for all that do not begin as it does |
| TlsDefinition.FindHostName | proxy/src/tls_definition.hpp:38-49 | the name in the server_name extension that no other comes before, empty when there is none |
| TlsWire.HandshakeSizes | proxy/src/tls_message_encoder.cpp:241-284 | the size a caller counts from the parts is the number of bytes of the handshake message |
| TlsLayouts.RecordLayout | proxy/src/tls_definition_raw.hpp:28-33 | type, version, length and payload stand at bytes 0, 1, 3 and 5, numbers with the most significant byte first |
| TlsLayouts.HandshakeLayout | proxy/src/tls_message_encoder.cpp:241-284 | type, length in three bytes and body stand at bytes 0, 1 and 4 |
| TlsLayouts.ClientHelloLayout | proxy/src/tls_message_encoder.cpp:157-195 | version, random, session id, cipher suites, compression methods and extensions stand at their offsets, each behind its length |
| TlsLayouts.ServerHelloLayout | proxy/src/tls_message_encoder.cpp:197-239 | the same for a ServerHello |
| TlsLayouts.ExtensionLayout | proxy/src/tls_message_encoder.cpp:97-151 | type and length stand in front of a body laid out as the type says |
| TlsEncoder.SafeSetLength | proxy/src/tls_message_encoder.cpp:20-27 | a length is written over its field exactly when it fits; nothing else changes |
| TlsEncoder.PatchLength | proxy/src/tls_message_encoder.cpp:79-87 | a back-patched field holds the number of bytes that follow it; the bytes before and after stay |
| TlsEncoder.EncodeBytes | proxy/src/tls_message_encoder.cpp:30-62 | good exactly when the length fits; appends length and bytes |
| TlsEncoder.EncodeNumbers | proxy/src/tls_message_encoder.cpp:30-62 | good exactly when the length in bytes fits; appends it and the numbers, most significant byte first |
| TlsEncoder.EncodeServerName | proxy/src/tls_message_encoder.cpp:64-89 | good exactly for a name that is not empty and whose list fits 16 bits; both lengths are those of what they cover |
| TlsEncoder.EncodeExtension | proxy/src/tls_message_encoder.cpp:97-151 | good exactly for an extension that can be encoded and whose body fits 16 bits; appends type, length and body by the type's own layout; bytes before stay |
| TlsEncoder.EncodeExtensions | proxy/src/tls_message_encoder.cpp:90-155 | good exactly when every extension can be encoded and all fit 16 bits; appends them behind their length |
| TlsEncoder.EncodeClientHello | proxy/src/tls_message_encoder.cpp:157-195 | good exactly when its parts fit their length fields; appends just the bytes of the hello |
| TlsEncoder.EncodeServerHello | proxy/src/tls_message_encoder.cpp:197-239 | the same for a ServerHello |
| TlsEncoder.EncodeHandshake | proxy/src/tls_message_encoder.cpp:241-284 | good exactly when the lengths of 8 and 16 bits inside the message fit; type, 24-bit length and body are appended, the length that of the body cut to 24 bits |
| TlsEncoder.Encode | proxy/src/tls_message_encoder.cpp:286-311 | good exactly when no host name or version list is empty, no multi-version list has over 127 entries, session id and compression list are at most 255 bytes and the payload at most 65535; what stood before is kept, and the record's bytes follow |
| TlsDecoder.DecodeBytes | proxy/src/tls_message_decoder.cpp:19-59 | the vector of bytes at an offset, refused when it would pass the bound |
| TlsDecoder.DecodeNumbers | proxy/src/tls_message_decoder.cpp:19-59 | the vector of 16-bit numbers, refused when its length is odd or it would pass the bound |
| TlsDecoder.DecodeExtension | proxy/src/tls_message_decoder.cpp:255-334 | one extension by its type, with the early good returns |
| TlsDecoder.DecodeExtensions | proxy/src/tls_message_decoder.cpp:237-336 | the loop over the block yields the recursive reading of it |
| TlsDecoder.DecodeClientHello | proxy/src/tls_message_decoder.cpp:199-235 | the hello at an offset, its parts one behind the other |
| TlsDecoder.DecodeServerHello | proxy/src/tls_message_decoder.cpp:94-151 | the hello at an offset, with the retry type of its random value |
| TlsDecoder.DecodeHandshake | proxy/src/tls_message_decoder.cpp:153-197 | the loop over the messages yields the reading of them, refused exactly if one is bad (`TlsVerdicts.RefusedExactly`); the end offset is only set when there is one |
| TlsDecoder.DecodeMessage | proxy/src/tls_message_decoder.cpp:61-92 | the record on the first bytes of a buffer; what is good, and what is then read, the rows from `TlsRecords.OtherRecordRead` to `TlsVerdicts.RefusedExactly` say |
| TlsRoundTrip.DecodeUndoesEncode | proxy/src/tls_message_decoder.cpp:61-92 | for every handshake message the encoder takes, decoding its record, whatever follows it, is good, consumes the record and yields that one message, with its type and record version |
| TlsRecords.FlightRead | proxy/src/tls_message_decoder.cpp:61-92 | a record made of any handshake messages the encoder takes, at most 65535 bytes in all, decodes to just those, whatever follows it; with none the end offset is left as it was |
| TlsRecords.OtherRecordRead | proxy/src/tls_message_decoder.cpp:83-91 | a record of any other type decodes good, to its payload, whatever that is, and is consumed whole |
| TlsVerdicts.ExtensionRefusedExactly | proxy/src/tls_message_decoder.cpp:255-334 | an extension is refused exactly if it passes its block, a name does not fill it or is of another type, or a list of numbers is odd, passes the record or is too short |
| TlsVerdicts.ListRefusedExactly | proxy/src/tls_message_decoder.cpp:237-336 | a block is refused exactly for such an extension, with none before it that ends the block early |
| TlsVerdicts.ExtensionsInOrder | proxy/src/tls_message_decoder.cpp:237-336 | what is taken of a block are its extensions in order, each as decoded at its place, all of them unless one before the last ends it early |
| TlsVerdicts.MessagesInOrder | proxy/src/tls_message_decoder.cpp:153-197 | what is taken of a record are its messages in order, each as decoded where the one before says it ends |
| TlsVerdicts.ClientHelloRefusedExactly | proxy/src/tls_message_decoder.cpp:199-235 | a ClientHello is refused exactly if it has half a cipher suite, passes the record or has a bad block |
| TlsVerdicts.ServerHelloRefusedExactly | proxy/src/tls_message_decoder.cpp:94-151 | a ServerHello is refused exactly if it passes the record or has a bad block |
| TlsVerdicts.RefusedExactly | proxy/src/tls_message_decoder.cpp:61-92 | a record is refused exactly if it is not there whole, or is a handshake record with a message that passes its end or a hello that is refused: length fields and types alone decide |
| TlsRoundTrip.SameMessageExactly | proxy/src/tls_message_decoder.cpp:105-131 | it is the same message exactly unless a ServerHello's retry type is not that of its random value |
| TlsRoundTrip.ExtensionRead | proxy/src/tls_message_decoder.cpp:255-334 | an encoded extension of any kind is read back as it was, up to its end |
| TlsRoundTrip.OtherRecordsComeBackEmpty | proxy/src/tls_message_encoder.cpp:300-311 | a record that is no handshake comes back without content |
| TlsRoundTrip.EncodeMayNotUndoDecode | proxy/src/tls_message_encoder.cpp:122-141 | one version in a list is decoded from seven bytes and encoded in six |
| TlsLocality.Locality | proxy/src/tls_message_decoder.cpp:61-92 | verdict and message depend on the first bytes alone, and a good verdict ends where the record's length says, but for an empty handshake record, whose end offset is left as it was |
| TlsLocality.FramesTile | proxy/src/tls_message_decoder.cpp:153-197 | the handshake messages lie in frames that fill the payload without gap or overlap, each with its own length and type |
| TlsLocality.DecodedWellTyped | proxy/src/tls_message_decoder.cpp:165-190 | every decoded message and extension holds the variant its type calls for |
| TlsFrames.EarlyExactly | proxy/src/tls_message_decoder.cpp:263-333 | an extension that is taken goes to the end its length gives, and ends the list early exactly if its length fields say so |
| TlsFrames.ListFilledExactly | proxy/src/tls_message_decoder.cpp:254-335 | the decoded extensions lie one behind the other from the first on; they reach the end of the block, and are all of them, exactly if no extension that ends the list early is followed by anything |
| TlsFrames.EmptyNameEndsList | proxy/src/tls_message_decoder.cpp:270-274 | behind an empty server_name nothing of the block is read |
| TlsFrames.HelloFilledExactly | proxy/src/tls_message_decoder.cpp:161-194 | a hello ends where its handshake message says exactly if that length is the sum of those of its parts, all of them header fields |
| TlsFrames.AnyFrame | proxy/src/tls_message_decoder.cpp:168-194 | whatever length a hello gives itself, it is decoded the same, and the next message begins where the length says |
| TlsFrames.LongFrame | proxy/src/tls_message_decoder.cpp:168-194 | bytes behind a hello but inside its message are passed over |
| TlsFrames.ShortFrame | proxy/src/tls_message_decoder.cpp:168-194 | a hello whose last bytes are a message, and lie outside its own, is followed by that message |
| TlsFrames.EndsInMessage | proxy/src/tls_message_decoder.cpp:329-332 | there is such a ClientHello for every message |
| TlsReencoding.ExtensionBack | proxy/src/tls_message_decoder.cpp:255-334 | encoding a decoded extension gives its bytes exactly if it does not end the list early, is no single version in a list, and a server_name's list length is right |
| TlsReencoding.ContentBack | proxy/src/tls_message_decoder.cpp:255-334 | what is decoded of any extension, those that do not come back included, stands in its bytes, where its type puts it |
| TlsReencoding.ListBack | proxy/src/tls_message_decoder.cpp:237-336 | the extensions of a block are taken by the encoder and give its bytes exactly if each does, and no server_name list holds an empty name |
| TlsReencoding.BlockBack | proxy/src/tls_message_decoder.cpp:237-336 | the same with the block's own length |
| TlsReencoding.HandshakeBack | proxy/src/tls_message_decoder.cpp:153-235 | a handshake message's bytes come back exactly if it is no hello, or its hello ends where it says and its extensions come back |
| TlsReencoding.EncodeUndoesDecodeExactly | proxy/src/tls_message_decoder.cpp:61-92 | encoding a decoded record gives its bytes exactly if it holds one handshake message that fills it and comes back, or is no handshake record and empty; length fields alone decide |
| SecurityPolicy.CheckCipherSuites | proxy/src/tls_security_policy.hpp:22-30 | true exactly when one suite offered is among the seven allowed |
| SecurityPolicy.HardenVersions | proxy/src/tls_security_policy.hpp:32-41 | hardens a copy, drops it with its verdict, and lets every version pass |
| SecurityPolicy.HardenVersionsInternal | proxy/src/tls_security_policy.hpp:44-67 | raises the version, drops exactly the low ones from version lists and nothing else, and tells whether any allowed version is left |
| SecurityPolicy.HardenedKeepsExactly | proxy/src/tls_security_policy.hpp:44-67 | each version from TLS 1.2 on stays as often as it was, and no lower one |
| SecurityPolicy.HardenedInOrder | proxy/src/tls_security_policy.hpp:44-67 | they stay in order |
| Context.Context.Start | proxy/src/tls_context.hpp:37-61 | a started context writes what waited in its queue |
| Context.Context.Queue | proxy/src/tls_context.cpp:32-37 | a record is taken only from the context this one is paired with |
| Context.Context.DoWrite | proxy/src/tls_context.cpp:277-310 | begins the first queued write if none is outstanding and there is a socket |
| Context.Context.OnWritten | proxy/src/tls_context.cpp:277-310 | a completed write begins the next; a failed one stops both contexts |
| Context.Context.Stop | proxy/src/tls_context.cpp:38-52 | the mutual stop terminates, closes both sockets and leaves neither linked |
| Context.Context.HandleUserMessage | proxy/src/tls_context.cpp:55-153 | a client's record does to the pair what `RelaySpec.OnClientRecord` says, which stops it exactly as `RelayGates.ClientStopsExactly` says, and asks for the host it says; a server context given up at a stop is left with what it had queued and begun to write |
| Context.Context.HandleClientHello | proxy/src/tls_context.cpp:102-145 | versions, cipher suites, pairing back, queueing and host name, in the code's order, and what the server context had begun to write before a stop |
| Context.Context.HandleServerMessage | proxy/src/tls_context.cpp:155-233 | a server's record does to the pair what `RelaySpec.OnServerRecord` says, which stops it exactly as `RelayGates.ServerStopsExactly` says; a context already stopped calls through a missing link exactly if it lets the record on |
| RelayGates.ClientStopsExactly | proxy/src/tls_context.cpp:55-153 | the client's context stops exactly, while its client does not encrypt, for a record that is not decoded, a handshake record below TLS 1.0, and one whose ClientHello with none before it offers no allowed suite, names another host than the one connected to, or none while there is no connection; every other record goes on to the server's side, a hello pairs it back and a change_cipher_spec is noted |
| RelayGates.ServerStopsExactly | proxy/src/tls_context.cpp:155-233 | the server context stops exactly for an empty record and, while the server does not encrypt, for one that is not decoded, a handshake record below TLS 1.0, and one whose ServerHello with none before it is a retry for TLS 1.1 or unknown, or names a suite that is not allowed; every other record is queued for the client |
| RelayGates.HostNameExactly | proxy/src/tls_definition.hpp:38-49 | the host a hello names is the one in the server_name extension with none before it, or none |
| Context.Context.HandleServerTurn | proxy/src/message_reader.hpp:106-133 | over the records of one turn a missing link is called through exactly as `RelaySpec.MeetsNoLink` says |
| Context.Context.DoConnectHost | proxy/src/tls_context.cpp:235-241 | without endpoints everything stops, and otherwise nothing changes yet |
| Context.Context.HandleConnected | proxy/src/tls_context.cpp:246-262 | the connection starts the server context, or stops everything; a server context that is not there is started exactly if the connection is made after a stop |
| RelayRuns.NextKeeps | proxy/src/tls_context.cpp:30-310 | every event keeps the invariant of the relay: flags, links, outstanding checks, order of writes and both gates |
| RelayRuns.EndsExactly | proxy/src/tls_context.cpp:30-310 | an event stops a live relay exactly if it is a record that the client's or the server's context stops for, or the failure of a reader, a check, a connection or a write; nothing comes of any event after that |
| RelayRuns.ClientRecordsConserved | proxy/src/tls_context.cpp:32-37 | in every run the writes towards the server are the client's records from the first accepted hello on, in order and unchanged; with those queued they are all of them; at most one is outstanding, and it is the last |
| RelayRuns.ServerRecordsConserved | proxy/src/tls_context.cpp:32-37 | the same for the server's records, all of them |
| RelayRuns.NothingSentUngated | proxy/src/tls_context.cpp:105-143 | whatever is written to a server goes to a host that an accepted hello of this client names and that endpoints were delivered for, and begins with a hello that offers an allowed suite |
| RelayRuns.NothingReturnedUngated | proxy/src/tls_context.cpp:176-232 | up to the server's change_cipher_spec, every record written to the client decoded good, is no handshake record below TLS 1.0, and holds no ServerHello with none before it that names a suite not allowed or is a retry for TLS 1.1 or unknown |
| RelayRuns.AcceptedHelloExactly | proxy/src/tls_context.cpp:90-143 | an accepted hello is a ClientHello with none before it, in a record of at least TLS 1.0, that offers an allowed suite; the host it names is its first server_name |
| RelayHosts.AlignedExactly | proxy/src/tls_context.cpp:124-143 | the host connected to stays the one the context holds exactly until a hello names another while a check or connection is outstanding |
| RelayHosts.AlignedRun | proxy/src/tls_context.cpp:124-143 | without such a hello it is that host throughout the run |
| RelaySplits.SplitExactly | proxy/src/tls_context.cpp:124-143 | a live connection can still have its client's records written over two connections exactly if two checks were asked for, or the client is neither connected nor encrypting |
| RelayReads.RunsOfTheRelay | proxy/src/tls_context.cpp:246-262 | every run with a reader is one of the relay's runs |
| RelayReads.ReadsMadeRun | proxy/src/message_reader.hpp:60-75 | each of the server's records is read over one connection that was made, none later than the one read now |
| RelayReads.OnlyFirstRead | proxy/src/message_reader.hpp:60-75 | however many connections are made, all records of the server are read over the first until its stream ends |
| RelayReads.LastReadExactly | proxy/src/message_reader.hpp:60-75 | the last connection can still be read, without another being made, exactly if the reader runs on it |
| RelayReads.OwnRecordsExactly | proxy/src/message_reader.hpp:60-184 | as nothing is reset, a later stream's own records are what is read, whatever it brings, exactly if the one before left nothing over |
| RelayHosts.RenamedMisses | proxy/src/tls_context.cpp:124-143 | after two hellos for different hosts, the first one's host is connected to and gets the first hello while the context holds the second |
| RelayHosts.TwoConnections | proxy/src/tls_context.cpp:246-262 | after two hellos for one host, the two go over different connections |
| RelayHosts.HostAcceptedExactly | proxy/src/tls_context.cpp:102-143 | a hello that has the host connected to exists exactly for names of 1 to 65480 bytes |
| RelayHosts.VersionsIgnored | proxy/src/tls_context.cpp:105-145 | what becomes of a hello is the same whatever versions it names |
| RelayHellos.WrittenBeforeStop | proxy/src/tls_context.cpp:122-131 | a hello for another host than the one connected to stops the connection, and is begun to be written to that host first exactly if no write is outstanding |
| RelayHellos.ElsewhereExactly | proxy/src/tls_context.cpp:105-143 | in every run a hello is written to another host than it names exactly if one comes on an idle connection to such a host, or waits and is the next to go out to one |
| RelayHellos.ElsewhereUnrenamed | proxy/src/tls_context.cpp:122-143 | in a run without renaming hellos exactly if one for another host than the one connected to comes while no write is outstanding |
| RelayHellos.SecondGoesToFirst | proxy/src/tls_context.cpp:122-131 | a hello for a second host, once the first's is written, is written to the first host |
| RelayStops.NoLinkExactly | proxy/src/tls_context.cpp:176-232 | in one turn of the server's reader a missing link is called through exactly if a record that stops the context comes before one that it lets on |
| RelayStops.OneSegmentMeetsNoLink | proxy/src/tls_context.cpp:176-232 | such a pair of records in one segment is enough, whatever follows |
| RelayStops.TooLateExactly | proxy/src/tls_context.cpp:246-266 | after a stop, the client's turn over, some continuation starts a context that is not there exactly if a check or connection is outstanding |
| RelayStops.StoppedRunExactly | proxy/src/tls_context.cpp:246-266 | in every run that is stopped, some continuation does so, more records of the turn that stopped it included, exactly if it leaves a check or connection outstanding, or a record of the client stopped it before it was connected |
| RelayStops.WrittenAfterStopExactly | proxy/src/tls_context.cpp:64-143 | in every run that is stopped, some continuation begins a write to a server exactly if a record of the client stopped it, and a connection is outstanding or it was not connected yet |
| RelayStreams.RelayedTail | proxy/src/tls_context.cpp:90-153 | what is relayed begins with the first accepted hello that no change_cipher_spec comes before |
| RelayStreams.ClientBytesConserved | proxy/src/tls_context.cpp:55-153 | the client's byte stream is the records before the first accepted hello, then what was written, what is queued and what is no record yet, in order |
| RelayStreams.ServerBytesConserved | proxy/src/tls_context.cpp:155-233 | the server's whole byte stream goes to the client, is queued, or is no record yet |
| CertificateCheck.Checker.WorkerResultHandler | proxy/src/tls_check_certificate.cpp:46-95 | a good result is cached, making room if need be; a good or last result calls every handler that waits, once, in order, with what is trusted |
| CertificateCheck.Checker.EraseExpired | proxy/src/tls_check_certificate.cpp:53-58 | drops exactly the expired entries and counts them |
| CertificateCheck.Checker.Trust | proxy/src/tls_check_certificate.cpp:50-71 | an endpoint is added behind those trusted of its host; a full cache loses its expired entries, or else its first |
| CertificateTrust.OthersKeptExactly | proxy/src/tls_check_certificate.cpp:50-63 | another host is dropped exactly if the host is new, the cache over its limit, and the other over its lifespan, or none is and it is the first; no other entry changes |
| CertificateTrust.BeforeExactly | proxy/src/tls_check_certificate.cpp:60 | the first is that of the order of their first difference |
| CertificateTrust.FollowUpExactly | proxy/src/tls_check_certificate.cpp:97-143 | checked are all endpoints of version 4 in no block, in order; if there are none the name with the proxy domain's suffix is resolved, unless this one has it |
| CertificateCheck.Checker.OnResolved | proxy/src/tls_check_certificate.cpp:97-143 | what follows a resolution: an error for all that wait, a check of the acceptable endpoints, or another name |
| CertificateCheck.Checker.CheckCertificateOf | proxy/src/tls_check_certificate.cpp:145-170 | answered from the cache with all that is trusted (`CertificateTrust.AnsweredExactly`), joined to those that wait, or the first to wait, whose host is resolved with its port; the port makes no other difference |
| CertificateCheck.Worker.CallHandler | proxy/src/tls_check_certificate_worker.cpp:181-188 | the result is marked the last exactly when no endpoint is left open |
| CertificateRuns.NextKeeps | proxy/src/tls_check_certificate.cpp:46-170 | every event keeps requests conserved, waiting hosts attended to, and cache and calls sound |
| CertificateRuns.RequestsConserved | proxy/src/tls_check_certificate.cpp:46-170 | in every run each handler has been called or waits, never both; none is called twice or for another host |
| CertificateRuns.AllCalledWhenQuiet | proxy/src/tls_check_certificate.cpp:74-94 | with nothing in flight every handler has been called exactly once, but for hosts that are stuck; without the fallback, all of them |
| CertificateRuns.LastCallBackSticks | proxy/src/tls_check_certificate.cpp:120-128 | the last resolution of a host with handlers waiting leaves them stuck exactly if it found endpoints, none acceptable, and the name is not in the proxy domain |
| CertificateRuns.StuckForever | proxy/src/tls_check_certificate.cpp:120-170 | the handlers of a stuck host, and those that join them, are never called, whatever comes |
| CertificateRuns.OneRequestSticks | proxy/src/tls_check_certificate.cpp:120-128 | one request whose host has blocked endpoints alone is enough |
| CertificateRuns.OnlyGoodHandedOut | proxy/src/tls_check_certificate.cpp:46-72 | every endpoint a handler is called with was reported good for its host, and is an unblocked IPv4 one |
| CertificateTrust.HandedOutExactly | proxy/src/tls_check_certificate.cpp:46-170 | in every run, whatever event brings it, a call hands over just the endpoints reported good for its host since the cache took the host in, in order |
| CertificateTrust.AnsweredExactly | proxy/src/tls_check_certificate.cpp:145-170 | in every run a request is answered at once exactly if its host is cached and had its last good result under 30 s ago, with just those endpoints, which are some; else it waits behind the others and the cache drops the host |
| CertificateTrust.CalledExactly | proxy/src/tls_check_certificate.cpp:46-95 | in every run a good or last result calls all that wait for the host, in the order they came, with just those endpoints, the new one behind the others |
| CertificateTrust.TrustedExactly | proxy/src/tls_check_certificate.cpp:46-72 | in every run what the cache trusts of a host is what was reported good since it took the host in, in order |
| CertificateRuns.CacheBounded | proxy/src/tls_check_certificate.cpp:50-72 | the cache holds at most 4097 hosts; a hit comes under 30 s after the host's last good result, with endpoints, all reported good |
| CertificateCountdown.EachEndpointOnce | proxy/src/tls_check_certificate_worker.cpp:70-188 | in every run a worker reports on each endpoint it was made with once, and is at work exactly until it has reported on all |
| CertificateCountdown.LastExactly | proxy/src/tls_check_certificate_worker.cpp:181-188 | of the results of a worker made with n endpoints exactly the n-th is marked the last |
| CertificateCountdown.ResultCallsAll | proxy/src/tls_check_certificate.cpp:74-94 | with a worker's last result, or a good one, every handler that has asked for its host so far has been called |
| CertificatePorts.RunsOfTheChecker | proxy/src/tls_check_certificate.cpp:97-143 | every run with ports is one of the checker's runs, so that all that is proved of those holds of it |
| CertificatePorts.PortsKeptExactly | proxy/src/tls_check_certificate.cpp:145-170 | with only certain requests made, every handler is called with endpoints of its own port in every run exactly if those for one host, or for a host and its name in the proxy domain, agree on the port, or every address is blocked |
| ActionGraph.PlayInAction | scripts/hood-actor.py:493-558 | the graph is built exactly when all names in `before` and `after` exist; then every counter is the number of edges into its node, every list of dependants the edges out of it, and all but the end of everything is queued, once, in the order it was made; delayed are exactly the actions after the first of tasks that say so |
| ActionGraph.QueuedInOrder | scripts/hood-actor.py:502-558 | ends and starts are queued before all actions, both in the order of the tasks, a task's end before its start and its actions in theirs |
| ActionGraph.Anchors | scripts/hood-actor.py:503-516 | each task's start comes before its end, and every end before the end of everything |
| ActionGraph.WireBefore | scripts/hood-actor.py:522-525 | each name in `before` adds one edge from this task's end to that task's start |
| ActionGraph.WireAfter | scripts/hood-actor.py:527-530 | each name in `after` adds one edge from that task's end to this task's start |
| ActionGraph.WireActions | scripts/hood-actor.py:532-556 | the actions follow each other from the task's start to its end |
| NodeKeys.KeysDiffer | scripts/hood-actor.py:503-541 | no two nodes are kept under one string, whatever the tasks are called |
| Executor.HoodExecutor.QueueMultiple | scripts/hood-actor.py:112-117 | the tasks that wait for nothing are appended in order, and the event is set |
| Executor.HoodExecutor.GetTask | scripts/hood-actor.py:119-123 | takes the first task, if there is one |
| Executor.HoodExecutor.DelayTaskIfNotHasBeen | scripts/hood-actor.py:146-164 | a task with a delay is put off unless its delay has ended, which is then forgotten |
| Executor.HoodExecutor.UpdateCountdown | scripts/hood-actor.py:137-143 | every dependant waits for one less, and those that wait for none are collected in order |
| Executor.HoodExecutor.Complete | scripts/hood-actor.py:137-144 | the counters and the queue after a task has run |
| Executor.HoodExecutor.ScanDelayed | scripts/hood-actor.py:166-187 | exactly the tasks whose delay has ended are taken out, though each by the first item equal to it, and noted |
| ExecutorOrder.FilteredInOrder | scripts/hood-actor.py:112-117 | queued are just the tasks that wait for nothing, in order |
| ExecutorOrder.ExpiredInOrder | scripts/hood-actor.py:166-187 | taken out are just the items whose end is before now, kept the others, both in order |
| ExecutorOrder.CollectedInOrder | scripts/hood-actor.py:137-143 | a dependant is collected where its counter comes down to nothing, in the order they are counted down |
| ExecutorOrder.WokenAfterEnd | scripts/hood-actor.py:146-187 | in every run a delay ends at a scan that is later than the time a worker that held the task put it off until |
| ExecutorOrder.FirstInFirstOut | scripts/hood-actor.py:112-123 | in every run tasks leave the queue in the order they came into it, none dropped or doubled |
| ExecutorOrder.SetWakesAll | scripts/hood-actor.py:107-123 | a worker in its wait when the event is set can wake, whatever the other threads do meanwhile |
| ExecutorRuns.CountedDownReady | scripts/hood-actor.py:137-143 | collected is each dependant that waited for nothing else, once, however often it is a dependant |
| ExecutorRuns.NextKeeps | scripts/hood-actor.py:107-199 | every step of any thread keeps the invariant of the pool |
| ExecutorRuns.WaitingIsRemaining | scripts/hood-actor.py:137-143 | in every interleaving a task's counter is the number of its predecessor edges not yet completed |
| ExecutorRuns.AtMostOnePlace | scripts/hood-actor.py:107-187 | a task that waits for nothing more is in one place of queue, delay, threads' hands and completed ones; any other is in none |
| ExecutorRuns.RunsOnceInOrder | scripts/hood-actor.py:129-144 | each task runs at most once, and after all its predecessors |
| ExecutorRuns.DelayedOnce | scripts/hood-actor.py:146-187 | a delayed task runs only once its delay has ended, and that happens at most once |
| ExecutorRuns.WakeUpsNotLost | scripts/hood-actor.py:107-199 | with a task queued the event is set, or a worker will look at the queue, or a thread will set it; the same for the scheduler and delayed tasks |
| ExecutorProgress.SomethingMoves | scripts/hood-actor.py:166-199 | no deadlock: with a worker, a run that is not at rest has a step that moves it on, at the latest when the scheduler scans |
| ExecutorProgress.RestExactly | scripts/hood-actor.py:107-199 | a run at rest has run every task exactly if the tasks wait for each other in no circle and all that wait for nothing were queued |
| ExecutorMeasure.MoveLess | scripts/hood-actor.py:107-199 | every step that is not the scheduler's idling shortens what is left |
| ExecutorMeasure.MovesBounded | scripts/hood-actor.py:107-199 | however long a run, the number of its steps that are not idling is bounded from the start |
| ActionRuns.JobConsistent | scripts/hood-actor.py:497-558 | what is built for an action has the same edges seen from both ends; all that waits for nothing is queued exactly if there is a task |
| ActionRuns.JobStarts | scripts/hood-actor.py:497-558 | the pool's counters start as the graph's |
| ActionRuns.ActionsRunInOrder | scripts/hood-actor.py:538-556 | in every run a task's actions run one after the other |
| ActionRuns.TasksRunInOrder | scripts/hood-actor.py:522-530 | every action of a task runs before each action of one it is to come before |
| ActionRuns.DoneAfterAll | scripts/hood-actor.py:497-559 | the done event comes only after every action of every task has run |
| ActionRuns.AcyclicExactly | scripts/hood-actor.py:519-556 | the graph has no circle exactly if the tasks can be put in an order that `before` and `after` allow |
| ActionRuns.DoneExactly | scripts/hood-actor.py:497-559 | a run at rest has reported the action done exactly if there is a task and the tasks can be put in such an order |
| ActionRuns.NoTasksNeverDone | scripts/hood-actor.py:498-500 | without a task it never is |
| Bits.AndOrBits | scripts/hood-name-service.py:28-32 | the two bitwise operations the masks are built and used with act bit by bit |
| Network.ParseSubnet | scripts/hood-name-service.py:20-32 | the mask built bit by bit is 2^32 less 2^(32 - length), and the base is the address masked |
| Network.IsAddressInBlacklist | scripts/hood-name-service.py:37-46 | true exactly for the addresses in one of the blocks' intervals |
| Network.MasksAgree | proxy/src/network.cpp:42-47 | the mask C++ shifts is the one Python builds |
| Network.SameMasked | proxy/src/network.cpp:42-47 | masked alike means in the same interval of the block's size |
| Network.IsBlockedAddress | proxy/src/network.cpp:70-81 | true exactly for the addresses in one of the blocks' intervals |
| Network.RemoveV6AndBlockedEndpoints | proxy/src/network.hpp:20-30 | in place, exactly the unblocked IPv4 endpoints are kept, in order |
| Network.KeptExactly | proxy/src/network.hpp:20-30 | kept are the endpoints of version 4 in no block, as often as they stand there, in order |
| Strings.SplitOfJoin | proxy/src/name_service_client.cpp:25-39 | splitting what was joined gives the parts back |
| Ipv4Text.ParseExactly | proxy/src/name_service_client.cpp:25-39 | a text is read as an address exactly if it is the address's text |
| Ipv4Text.OctetTextDecimal | proxy/src/name_service_client.cpp:25-39 | the text of each number is its decimal digits without a leading zero |
| NameService.DnsOverHttpsResolver.Lookup | scripts/hood-name-service.py:190-201 | a hit is not older than any accepted record's time or an hour, and holds unblocked IPv4 addresses only; an expired entry is dropped |
| NameService.DnsOverHttpsResolver.ReadRecords | scripts/hood-name-service.py:219-238 | the accepted addresses in order (`NameService.AcceptedExactly`), the shortest time they may be kept, and the last name; no address in a block is among them (`NameService.TextBlockedExactly`) |
| NameService.TextBlockedExactly | scripts/hood-name-service.py:37-46 | the text of an address is in a block of length 8k exactly if it begins with the block's first k numbers |
| NameService.NumberOrdered | scripts/hood-name-service.py:38-40 | numbers of addresses are ordered as their four parts, the first most significant |
| NameService.AcceptedMeans | scripts/hood-name-service.py:222-238 | looked at is what has data and a time and is no text of an address in a block; accepted is that which is the text of an address |
| NameService.AcceptedExactly | scripts/hood-name-service.py:219-238 | the addresses are those of just the records accepted, as often as they come, in order |
| NameService.LastNameExactly | scripts/hood-name-service.py:219-238 | the name is that of the record looked at that no other one looked at comes after |
| NameService.DnsOverHttpsResolver.Digest | scripts/hood-name-service.py:213-259 | what is answered and kept; another name is to be asked for exactly when there is no address, and a name that is not empty and new |
| NameService.DnsOverHttpsResolver.Keep | scripts/hood-name-service.py:246-259 | the cache never holds more than 512 names, so that the eviction is never reached |
| NameService.DnsOverHttpsResolver.KeepingExactly | scripts/hood-name-service.py:245-259 | an answer is kept exactly if each of its addresses may be for over 30 s and under 512 names are; it is for as long as the first of them may be, or an hour |
| NameService.ShortestTtlBounds | scripts/hood-name-service.py:219-238 | the time is the least of the accepted ones, or an hour |
| NameService.DecodeResult | proxy/src/name_service_client.cpp:25-39 | the loop finds the addresses among what stands between the NULs |
| NameService.AddressesExactly | proxy/src/name_service_client.cpp:25-39 | they are those of just the entries that stand for an address, in order |
| NameService.OneAddressExactly | proxy/src/name_service_client.cpp:25-39 | an entry stands for the address of version 4 it is the text of, else for one of version 6, if for any |
| NameService.ReplyDecoded | scripts/hood-name-service.py:288-295 | the proxy gets from a reply exactly the list it was made of |
| NameService.ReceivedExactly | scripts/hood-name-service.py:358-365 | the Python client gets it exactly unless it is one address of seven characters |
| NameService.OneOneOneOneLost | scripts/hood-name-service.py:358-365 | 1.1.1.1 alone is such an address |

## Left out

- Sockets, timers, TLS sessions and X.509 checks are events with any outcome; a worker connects over its whole list of endpoints, so "good for an endpoint" means "reported good for it".
- The reader is modelled for the TLS record header, the one use it has. A handler is a function of the messages shown to it, which may ask for a pause or a stop; `Pause` is never resumed, as in the code. `assert` is not modelled as an abort.
- Relay runs end at the stop; what may come after it is in `RelayStops`, which follows the writes towards servers but not what is sent back. What a call through a missing link does is not modelled: the run ends there. `LimitTaskQueueSize` and the limit on instances, which re-enter the event loop, are not modelled, nor is the local port.
- The encoder's source is not in the list of `proxy/CMakeLists.txt`, and its access to a single handshake message does not fit the message type, which holds a list; it is modelled for one message. It keeps raw pointers across `resize`; here a header is an offset. `Truncate`, a stub, and the table of cipher suites but for the seven allowed are left out.
- Context.Context.Stop: closing a socket does not say which pending operations are cancelled.
- CertificateRuns.RequestsConserved: handlers do not call the checker again while they are called, and the checker's state is that of one thread.
- CertificateCheck.Worker.CallHandler: the instance counter and the retries of a worker are not modelled.
- The name service's client, with retries whose timeout cancels a receive that also calls the handler; the DNS-over-HTTPS client; and the chase of a CNAME, which returns a coroutine nobody awaits: asking for another name is an outcome (`Follow`).
- NameService.DecodeResult: which texts are IPv6 addresses is a parameter, as Boost's parser is not part of this model; IPv4 texts are read as Boost's and Python's parsers do, without leading zeros.
- The UDP reader, `Server`, `Engine`, logging and the parsing of configuration are plumbing.
- The executor: actions do not raise; a task is told from another by identity, where the code compares dictionaries that differ in what they run; the shutdown (`__del__`), the browser's additional producers, and the length of delays, of which only the end counts, are left out. The random delay and the clock are parameters of the steps.
- Page loading, HTML, action scripts, conditions and ages; shell scripts, firewall rules, installation, time
  synchronisation and port forwarding would only add easy members.