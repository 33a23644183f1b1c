# Verified core of dynet

Dafny models of the parts of dynet whose correctness is hard to see from the code, with proofs for all
inputs, all chunkings, all runs or all reachable states. `dafny verify dfyconfig.toml` checks them.

* **VLESS Vision stream** (`TlsDeframer`, `HandshakeSearch`, `FuzzyDeframer`, `VisionUnpad`, `VisionPad`,
  `ServerHello`, `VisionFilter`, `VisionWrite`, `VisionRead`, `VisionDelivery`, `VisionStream`). Padding,
  filtering, deframing and unpadding over an outer TLS session, with mode switches on each side. The
  session is a plaintext queue that accepts any part of what it is offered, a ciphertext queue that TCP drains at will, and a
  function that opens records. The main results are write-side conservation (`WriteConserves`), wire order
  (`WireOrder`), read-side delivery (`ReaderDelivers`), the command of every packet
  (`CommandIff`, over `CountIs`, `Tls12Iff` and `XtlsIff`), and independence of chunking for both deframers and the unpadder.
* **Hot reload** (`ReloadPlan`, `ReloadableEgress`, `RuntimeReload`). A transaction over five stores as a step
  relation with failure and rollback at each step, beside concurrent selections. The object's methods are
  proved to be stretches of that relation, so the results about every run apply to them.
* **Forwarding graph** (`ForwardingGraph`), **Shadowsocks chunks** (`AeadStream`), **DNS** (`DnsNames`,
  `DnsMessages`, `DnsResponses`), **capture hooks** (`CaptureRules`, `CaptureHooks`) and **traffic sessions**
  (`TrafficSession`, `SessionStore`).

`ByteStrings` and `Orders` hold what several modules share.

Where a property does not hold of the code, the model keeps the code's behaviour and states exactly when
the property holds:

* The unpadder drops a first chunk shorter than the UUID: `FirstCutHarmlessIff`, `ShortFirstChunkIsDropped`.
* `pad` truncates the content length to 16 bits: `ContinueRoundTripIff`, `FinalRoundTripIff`. A write of more
  than 65530 bytes can therefore produce a packet that does not come back: `LongWriteIsLost`,
  `LongWriteExample`. `WriteConserves` is stated for packets that fit, and `RunActions` shows that writes up to
  that size only make such packets.
* The acknowledgement of a padded write underflows, or the strict assertion before it fails, exactly in
  the cases `PanicCondition` describes: bytes are held from an unfinished search, the filter is about to
  stop, and the first output is a prefix shorter than the held bytes or a zero-length record equal to
  them. `UnderflowExample` and `EqualityExample` reach both from a new stream, by read-side filter events
  and one write; the comment at the assertion says the second cannot happen.
* A padded write of a non-empty buffer can answer that zero bytes were written, exactly in the cases
  `ZeroCondition` describes, where the released prefix that ends the padding is as long as the held bytes
  (`ZeroExample`), and when TCP blocks behind a record that ends with them.
* The AAAA filter panics on a response of 6 to 11 bytes without questions: `ApplyIpv6Filter`. The
  filtered response is readable exactly when, with the record counts zeroed, every question name is read
  from bytes before the end of the questions: `FilteredIsReadableIff`. Its questions are the original ones
  exactly when zeroing the counts does not change them either: `FilterKeepsQuestionsIff`; a name that points
  into the counts becomes the root: `CountPointerReadsRoot`.
* The traffic-session row computes both intervals from the update's own timestamp, keeps the last target
  port instead of the first, and drops a datagram that comes with a total: `IntervalsAgreeIff`,
  `PortsAgreeIff`, `UpdateMatchesIff`. A session that the store evicted starts anew when it comes back, while
  its row goes on: `StoreMatchesTableIff`, `EvictedSessionDiffers`.
* The router chain's status check looks for the beginning of each wanted source in the listed text, and for
  a single address only for the address. So it accepts a partly installed chain exactly when its guards are
  complete and every wanted mark rule is found among those reached: `RouterMatchesIff`, and for the chain's
  own options `OwnChainMatchesIff`. Some incomplete chain passes exactly when the last source can be mistaken
  for an earlier one: `IncompletePassesIff`; `CutBetweenHosts` and `CutScopeExample` give sources that stay
  uncaptured although the hook is reported ready. The output chain's check accepts only complete chains:
  `OutputMatchesIff`.
* An AEAD stream cut inside a sealed length ends like a complete one: `CutStreamKeepsWholeChunks`.

## Model

| member | source | states |
|---|---|---|
| `TlsDeframing.FrameIsThePrefixRecord` | prototype/vless/src/tls_deframer.rs:89-166 | the answer on a buffer is a record of k bytes if and only if its first k bytes are one well-formed record: known content type, version 3.x, header plus big-endian length, at most 18437 bytes |
| `TlsDeframing.FrameIsStable` | prototype/vless/src/tls_deframer.rs:89-166 | a record or an error that is already determined is not changed by more bytes |
| `TlsDeframing.ParseAll` | prototype/vless/src/tls_deframer.rs:184-192 | one-shot parse: records and rest concatenate to the input, every record is well formed, the rest starts no complete record, the error is the one of the rest |
| `TlsDeframing.ParseIsUnique` | prototype/vless/src/tls_deframer.rs:184-192 | the one-shot parse is the only split of a stream into well-formed records and a record-free rest |
| `TlsDeframing.RunConserves` | prototype/vless/src/tls_deframer.rs:77-166 | over every interleaving of feeds and reads, records plus buffered bytes equal the bytes fed, and every record is well formed |
| `TlsDeframing.DrainedRunIsOneShot` | prototype/vless/src/tls_deframer.rs:77-166 | a drained run, however the stream was cut, has the records, rest and error of the one-shot parse |
| `TlsDeframing.ErrorIsSticky` | prototype/vless/src/tls_deframer.rs:89-166 | after an error no further call adds a record, and every read answers the same error, whatever is fed |
| `TlsDeframing.TlsDeframer.Feed` | prototype/vless/src/tls_deframer.rs:77-87 | appends to the buffer; the ReadingPayload state keeps agreeing with the buffered header |
| `TlsDeframing.TlsDeframer.NextRecord` | prototype/vless/src/tls_deframer.rs:89-166 | the stateful reader answers exactly as the frame function of the buffered bytes and removes exactly the record it returns |
| `TlsDeframing.TlsDeframer.NextRecords` | prototype/vless/src/tls_deframer.rs:184-192 | returns all records of the one-shot parse, or the error, and leaves the rest buffered |
| `HandshakeSearch.PrefixMeansCompletable` | prototype/vless/src/tls_handshake_util.rs:22-59 | a short string passes the prefix test if and only if some continuation makes it a handshake start |
| `HandshakeSearch.FindHandshakeStart` | prototype/vless/src/tls_handshake_util.rs:62-100 | the two-level scan finds the first match of the handshake pattern, or none when there is none |
| `HandshakeSearch.FindPotentialSuffixLen` | prototype/vless/src/tls_handshake_util.rs:103-120 | returns the longest suffix of at most five bytes that passes the prefix test |
| `HandshakeSearch.ReleaseIsExact` | prototype/vless/src/tls_handshake_util.rs:103-120 | with no match in the buffer, releasing n bytes is safe for every continuation if and only if n leaves the potential suffix behind |
| `FuzzyDeframing.NextSplitsTheBuffer` | prototype/vless/src/tls_fuzzy_deframer.rs:99-198 | one call splits the buffer into output and rest; no UnknownPrefix is empty; NeedData while searching leaves at most five bytes that are a pattern prefix |
| `FuzzyDeframing.RunExplained` | prototype/vless/src/tls_fuzzy_deframer.rs:77-198 | over every run: outputs plus buffer equal the bytes fed; while searching, no released byte can start a handshake under any continuation; once deframing, the start is the first match in the whole stream |
| `FuzzyDeframing.DrainedRunIsOneShot` | prototype/vless/src/tls_fuzzy_deframer.rs:99-198 | a drained run, however the stream was cut, has the prefix, records, held bytes and error of one split of the whole stream |
| `FuzzyDeframing.FuzzyTlsDeframer.Feed` | prototype/vless/src/tls_fuzzy_deframer.rs:77-97 | appends to the search buffer or the inner deframer according to state |
| `FuzzyDeframing.FuzzyTlsDeframer.NextRecord` | prototype/vless/src/tls_fuzzy_deframer.rs:99-198 | the stateful search and deframing answer as the pure call and leave its state |
| `FuzzyDeframing.FuzzyTlsDeframer.PendingBytes` | prototype/vless/src/tls_fuzzy_deframer.rs:201-207 | the number of bytes fed and not yet handed out |
| `FuzzyDeframing.FuzzyTlsDeframer.Clear` | prototype/vless/src/tls_fuzzy_deframer.rs:217-223 | back to an empty search |
| `VisionUnpadding.FeedAppend` | prototype/vless/src/vision_unpad.rs:120-361 | parsing a concatenation is parsing the parts one after the other |
| `VisionUnpadding.SessionIsWhole` | prototype/vless/src/vision_unpad.rs:89-371 | a run of calls past the UUID that meets no error before its last chunk has the contents, last command and state of one call on the concatenation |
| `VisionUnpadding.UnpaddingIgnoresChunking` | prototype/vless/src/vision_unpad.rs:89-371 | the same from the start, for every cut whose first chunk holds the UUID and whose final block completes in the last chunk |
| `VisionUnpadding.ShortFirstChunkIsDropped` | prototype/vless/src/vision_unpad.rs:101-104 | a first chunk below 16 bytes is lost: the run goes on as if it had not been there |
| `VisionUnpadding.CutInsideUuidLoses` | prototype/vless/src/vision_unpad.rs:101-118 | a stream cut inside its UUID comes out wrong for a concrete continuation |
| `VisionUnpadding.FirstCutHarmlessIff` | prototype/vless/src/vision_unpad.rs:101-118 | a first cut is harmless for every continuation if and only if the first chunk is empty or holds the whole UUID |
| `VisionUnpadding.VisionUnpadder.Unpad` | prototype/vless/src/vision_unpad.rs:89-371 | the seven-state parser, called on any chunk in any state, returns the result and reaches the state of the byte-by-byte machine |
| `VisionUnpadding.VisionUnpadder.ParseBlocks` | prototype/vless/src/vision_unpad.rs:99-361 | the parsing loop terminates on (bytes left, state rank) and accumulates nothing while the first block is in its header |
| `VisionPadding.PaddingBounds` | prototype/vless/src/vision_pad.rs:47-67 | every padding length the generator may choose stays within the 8171 bytes left by the content, so it fits its field |
| `VisionPadding.Pad` | prototype/vless/src/vision_pad.rs:18-45 | the output is the UUID if given, then the packet encoding with truncated content length and a padding of an allowed length |
| `VisionPadding.PacketsAreParsed` | prototype/vless/src/vision_pad.rs:18-45 | the byte machine reads any list of encodable packets, all Continue but the last, back to their contents and last command |
| `VisionPadding.PadThenUnpad` | prototype/vless/src/vision_pad.rs:18-67 | pad then unpad is the identity for every list of payloads up to 65535 bytes, every padding choice and every cut whose first chunk holds the UUID |
| `VisionPadding.ContinueRoundTripIff` | prototype/vless/src/vision_pad.rs:19-24 | a Continue packet survives the round trip if and only if its content has at most 65535 bytes |
| `VisionPadding.FinalRoundTripIff` | prototype/vless/src/vision_pad.rs:19-24 | an End or Direct packet survives every padding choice if and only if its content fits or the low 16 bits of its length leave no room for padding |
| `ServerHelloParsing.ExtensionsIff` | prototype/vless/src/tls_parse.rs:77-103 | the extension block parser answers a list of extensions if and only if the block is its encoding |
| `ServerHelloParsing.ParseIsSound` | prototype/vless/src/tls_parse.rs:19-109 | whatever is accepted is the encoding of a valid ServerHello with the reported fields |
| `ServerHelloParsing.ParseIsComplete` | prototype/vless/src/tls_parse.rs:19-109 | every valid ServerHello is accepted with its own fields |
| `ServerHelloParsing.ParseDecidesFormat` | prototype/vless/src/tls_parse.rs:19-109 | a frame parses to h if and only if it is the encoding of h |
| `ServerHelloParsing.ScanExtensions` | prototype/vless/src/tls_parse.rs:77-103 | the cursor loop accepts exactly the parsable blocks and reports whether the last supported_versions extension selects 0x0304 |
| `ServerHelloParsing.ParseServerHello` | prototype/vless/src/tls_parse.rs:19-109 | the cursor-driven parser computes cipher suite and TLS 1.3 flag of the parsed message, or fails exactly when there is none |
| `VisionFiltering.VisionFilter.Observe` | prototype/vless/src/vision_filter.rs:83-154 | the in-place update is the step of which CountIs, Tls12Iff and XtlsIff tell the outcome of every run |
| `VisionFiltering.FilterRunAdvances` | prototype/vless/src/vision_filter.rs:48-154 | over every run supports_xtls implies is_tls12_or_above implies is_tls, no flag reverts and the count never rises |
| `VisionFiltering.CountIs` | prototype/vless/src/vision_filter.rs:48-105 | the count from the events alone: eight less one for each event, and zero once a record under five bytes, malformed data, or a first 3.3 ServerHello that is TLS 1.3 or unparsable has ended the filtering |
| `VisionFiltering.Tls12Iff` | prototype/vless/src/vision_filter.rs:91-154 | is_tls12_or_above is set if and only if a 3.3 ServerHello was among the events that count, is_tls if and only if that or a ClientHello was |
| `VisionFiltering.XtlsIff` | prototype/vless/src/vision_filter.rs:107-154 | supports_xtls is set if and only if the first 3.3 ServerHello among the events that count parses as TLS 1.3 with a cipher suite other than 0x1305 |
| `VisionWriting.WriteToSession` | prototype/vless/src/vision_stream.rs:474-505 | the data is appended to the line of plaintext behind everything submitted before, however little the session accepts |
| `VisionWriting.DrainPendingPlain` | prototype/vless/src/vision_stream.rs:373-411 | plaintext moves into the session in order and nothing else changes |
| `VisionWriting.DrainPadding` | prototype/vless/src/vision_stream.rs:413-459 | the drain loop terminates, keeps the line, and reports completion only when buffer and session are empty |
| `VisionWriting.DrainTls` | prototype/vless/src/vision_stream.rs:461-472 | the same without a plaintext buffer |
| `VisionWriting.SendFinal` | prototype/vless/src/vision_stream.rs:1158-1182 | an End or Direct packet is the first one that is not Continue, carries the record, and Direct is sent only for an ApplicationData record with supports_xtls |
| `VisionWriting.HandleRecord` | prototype/vless/src/vision_stream.rs:1132-1246 | a record goes into a packet; it ends the padding exactly when the filter says so, then the switch is to Direct if and only if the filter allows it and to Tls otherwise; an early return acknowledges exactly the buffer bytes in packets; the strict assertion fails exactly on equality; it fails or stops early only if the session or TCP does |
| `VisionWriting.HandlePrefix` | prototype/vless/src/vision_stream.rs:1258-1332 | a prefix goes into a packet; the early return underflows exactly when the prefix is shorter than the held bytes |
| `VisionWriting.HandleError` | prototype/vless/src/vision_stream.rs:1333-1380 | everything left is sent as the End packet and the whole buffer is acknowledged |
| `VisionWriting.FirstRecordPanics` | prototype/vless/src/vision_stream.rs:1184-1185 | the strict assertion fails for the first record if and only if it equals the held bytes and ends the padding |
| `VisionWriting.ProcessBuffer` | prototype/vless/src/vision_stream.rs:1124-1384 | one buffer: what is acknowledged is in packets or held, the return value is within the buffer, and it panics only if, and unless the session fails also if, the stated condition on held bytes, filter and buffer holds |
| `VisionWriting.PollWriteTls` | prototype/vless/src/vision_stream.rs:521-564 | in Tls mode the acknowledged bytes follow everything before them into the session |
| `VisionWriting.CleanupDiscardsNothing` | prototype/vless/src/vision_stream.rs:353-371 | when both sides have switched there is no pending or held byte for post_padding_cleanup to discard |
| `VisionWriting.SwitchKeepsOk` | prototype/vless/src/vision_stream.rs:1110-1122 | the switch happens with nothing pending and keeps every acknowledged byte accounted for |
| `VisionWriting.PollWritePadding` | prototype/vless/src/vision_stream.rs:1085-1385 | response, drain, switch and buffer together: invariant, acknowledgement within the buffer, panic only in the stated case |
| `VisionWriting.PollWrite` | prototype/vless/src/vision_stream.rs:1447-1459 | in every write mode: as long as session and TCP go on taking something the call neither fails nor blocks, and takes the whole buffer unless the padding ends; it panics, and answers zero for a non-empty buffer, exactly in the stated cases |
| `VisionWriting.PollFlush` | prototype/vless/src/vision_stream.rs:1461-1475 | flushing keeps the invariant and, when it completes, leaves nothing in buffer or session |
| `VisionWriting.RunActions` | prototype/vless/src/vision_stream.rs:1443-1475 | over every sequence of writes in any read mode, flushes, read-side filter events and read-side switches with their cleanup: each action has its outcome, a run stops early only for a setback or a panicking write, the invariant holds and the acknowledged bytes are the ones the calls reported |
| `VisionWriting.WriteConserves` | prototype/vless/src/vision_stream.rs:1124-1384 | in every such state, what the peer unpads, then the raw bytes, then the bytes held by the deframer equal the bytes acknowledged, for buffers up to 65530 bytes |
| `VisionWriting.LongWriteIsLost` | prototype/vless/src/vision_stream.rs:1258-1292 | the write of more than 65535 bytes without 0x16 to a new stream, if the session does not fail, acknowledges all of it and leaves the peer with something else |
| `VisionWriting.LongWriteExample` | prototype/vless/src/vision_stream.rs:1258-1292 | the state it leaves when the session takes the packet at once: valid, everything acknowledged, nothing held, the peer short |
| `VisionWriting.WireOrder` | prototype/vless/src/vision_stream.rs:1103-1122 | plaintext reaches TCP in submission order, and no raw byte is written before every padded byte has left the session |
| `VisionWriting.DirectIsGated` | prototype/vless/src/vision_stream.rs:1136-1202 | at most one packet is Direct or End and it is the last; Direct only on ApplicationData after the first examined 3.3 ServerHello allowed it |
| `VisionWriting.CommandIff` | prototype/vless/src/vision_stream.rs:1132-1384 | every packet of every run belongs to one event: it is Continue if and only if that event does not end the padding, and Direct if and only if it is an ApplicationData record and the first 3.3 ServerHello that counts up to there allows it; the final packet is the first whose event ends the padding |
| `VisionWriting.ModeIsLastCommand` | prototype/vless/src/vision_stream.rs:1109-1121 | the stream is in Direct mode, or about to switch to it, if and only if its last packet is Direct; the same for Tls mode and End |
| `VisionWriting.UnderflowExample` | prototype/vless/src/vision_stream.rs:1330-1330 | a new stream whose read side skipped seven prefixes and which was given 16 03 03 16 03 panics on 03: the prefix it releases is shorter than the held bytes |
| `VisionWriting.EqualityExample` | prototype/vless/src/vision_stream.rs:1185-1185 | the same stream, given a zero-length handshake record split at byte 5, fails the strict assertion |
| `VisionWriting.ZeroExample` | prototype/vless/src/vision_stream.rs:1260-1338 | the same stream, given five held bytes and one that releases them as a whole, ends the padding and answers that zero bytes of a non-empty buffer were written |
| `VisionWriting.AlmostDone` | prototype/vless/src/vision_stream.rs:1247-1257 | that state is reached by the stream's own steps and satisfies its invariant |
| `VisionReading.InspectContent` | prototype/vless/src/vision_stream.rs:827-873 | the filter is shown exactly the answers of the inner deframer on the content, one after the other, up to malformed data or the record that finds it done, and nothing once it is done; nothing that decides delivery changes |
| `VisionReading.StaysUnfinished` | prototype/vless/src/vision_stream.rs:976-983 | without a final command the unpadder can be called again, so its Done error is not reached |
| `VisionReading.SwitchReadToTls` | prototype/vless/src/vision_stream.rs:905-975 | after End, the bytes behind the record and later TCP bytes yield exactly the later plaintext |
| `VisionReading.HandlePadded` | prototype/vless/src/vision_stream.rs:815-984 | one piece of plaintext: delivered, buffered and still-to-come bytes keep adding up to the meaning of the TCP stream, for every continuation; the filter is shown its content; it fails only if the bytes read so far hold a bad command byte, a malformed record or one that cannot be opened |
| `VisionReading.ProcessRecords` | prototype/vless/src/vision_stream.rs:706-813 | all complete outer records are handled and the same holds; it fails only on such a fault |
| `VisionReading.PollReadPadding` | prototype/vless/src/vision_stream.rs:690-813 | any chunking of the TCP input keeps the same |
| `VisionReading.PollReadTls` | prototype/vless/src/vision_stream.rs:986-1083 | in Tls mode decrypted plaintext is delivered in order |
| `VisionReading.PollRead` | prototype/vless/src/vision_stream.rs:1393-1441 | the caller gets as many buffered bytes as it has room for, else plaintext the session holds, and nothing only without room or at the end of TCP with every buffer empty; exactly the returned bytes are newly delivered; a read fails only because the connection does or because the bytes read so far are faulty, and waits only when TCP does |
| `VisionReading.DeliveryIsWhole` | prototype/vless/src/vision_stream.rs:690-984 | whenever no record waits, delivered plus buffered bytes are a function of the TCP bytes alone, neither chunking nor the filter matters, and those bytes are free of faults |
| `VisionDelivery.EndDelivers` | prototype/vless/src/vision_stream.rs:905-975 | past the UUID and without a Direct block, what is delivered is the unpadding of all plaintext: block contents, then everything after End; only a part of it where the padding is malformed |
| `VisionDelivery.DirectDelivers` | prototype/vless/src/vision_stream.rs:876-904 | past the UUID and with a Direct block, it is the block contents, then the raw TCP bytes right behind the record that completes it |
| `VisionDelivery.StreamDelivers` | prototype/vless/src/vision_stream.rs:690-984 | the same from the start of a stream, with or without plaintext left over from the response and whatever empty records come first, if the first plaintext holds the UUID |
| `VisionDelivery.ReaderDelivers` | prototype/vless/src/vision_stream.rs:690-984 | read-side delivery: for every TCP chunking and filter, delivered plus buffered bytes are the block contents, then the later plaintext after End, or the raw bytes right behind the record that completes a Direct block |
| `VisionStreaming.TraceAdvances` | prototype/vless/src/vision_stream.rs:827-873 | over interleaved reads and writes the shared filter keeps its flags nested and never goes back |
| `VisionStreaming.VisionStream.constructor` | prototype/vless/src/vision_stream.rs:176-214 | a new stream satisfies both invariants |
| `VisionStreaming.VisionStream.PollWrite` | prototype/vless/src/vision_stream.rs:1447-1459 | a write touches only the write side, keeps both invariants, acknowledges a prefix of the buffer, all of it unless the padding ends or there is a setback, and panics or answers zero exactly in the stated cases |
| `VisionStreaming.VisionStream.PollFlush` | prototype/vless/src/vision_stream.rs:1461-1475 | a completed flush leaves everything submitted on the wire |
| `VisionStreaming.VisionStream.PollRead` | prototype/vless/src/vision_stream.rs:1393-1441 | a read delivers exactly what it returns and leaves acknowledged and pending writes alone, also when it cleans up; what it shows the filter is shown to the filter of the write side, and what a read hands out and when it waits is as for PollRead above |
| `ReloadPlanning.FieldsCover` | crates/dynet-state/src/reload.rs:42-195 | no restart field differs if and only if the frozen parts are equal; no field at all differs if and only if the configurations are equal |
| `ReloadPlanning.PlanReload` | crates/dynet-state/src/reload.rs:19-195 | Noop exactly for equal configurations, Apply exactly when they differ only in forwarding and the three TUN timers; the reported fields are the differing ones in order |
| `EgressGenerations.ReloadableEgress.Install` | crates/dynet-ingress/src/egress/reloadable.rs:33-49 | the new graph is stored and the oldest generations go until at most eight are left |
| `EgressGenerations.ReloadableEgress.Remove` | crates/dynet-ingress/src/egress/reloadable.rs:51-56 | exactly that generation goes |
| `RuntimeReloading.RuntimeReload.Dispatch` | crates/dynet-ingress/src/egress/reloadable.rs:67-81 | a graph found for a decision is the one compiled from the configuration committed under its number, and a decision at most six generations old finds one |
| `RuntimeReloading.StepKeepsInv` | crates/dynet-cli/src/runtime_reload.rs:90-195 | every step of a reload, with failure and rollback at each, and every selection between steps keeps the invariant |
| `RuntimeReloading.ReachableInv` | crates/dynet-cli/src/runtime_reload.rs:90-195 | the invariant holds in every state of every run |
| `RuntimeReloading.GenerationMapShape` | crates/dynet-ingress/src/egress/reloadable.rs:33-56 | retained generations are contiguous, end at the committed one or the one in flight, number at most eight and include the last seven committed, also after failed reloads |
| `RuntimeReloading.RecentDecisionFindsItsGraph` | crates/dynet-ingress/src/egress/reloadable.rs:67-81 | in every reachable state a decision at most six generations old finds its graph, the one compiled from the configuration committed under its number |
| `RuntimeReloading.FreeMeansOneConfig` | crates/dynet-cli/src/runtime_reload.rs:137-188 | whenever no reload holds the mutex, current configuration, stored seed, routing seed, TUN timers and current egress graph all describe one configuration |
| `RuntimeReloading.ConflictIsUnreachable` | crates/dynet-cli/src/runtime_reload.rs:169-173 | with reload as the only writer the commit conflict and the restore after it never happen |
| `RuntimeReloading.FrozenForever` | crates/dynet-cli/src/runtime_reload.rs:101-134 | every restart-required field keeps its start-up value in every reachable state |
| `RuntimeReloading.RuntimeReload.Select` | crates/dynet-runtime/src/lib.rs:312-386 | a selection is stamped with the generation of the routing it used |
| `RuntimeReloading.RuntimeReload.CommitRouting` | crates/dynet-runtime/src/lib.rs:214-229 | commits exactly if the generation is still the one the reload was prepared against |
| `RuntimeReloading.RuntimeReload.ApplyCandidate` | crates/dynet-cli/src/runtime_reload.rs:137-188 | the transaction succeeds if and only if the graph compiles, the store accepts the seed and no other writer moved the generation; it is a stretch of steps that ends with everything switched and the generation one higher, or with configuration, routing and timers as before, and the store too unless another writer interfered and restoring fails |
| `RuntimeReloading.RuntimeReload.Reload` | crates/dynet-cli/src/runtime_reload.rs:90-134 | each of the five outcomes has its exact condition: Applied if and only if the loaded configuration differs only in hot fields, compiles and is stored; then generation, stores and reported fields are the candidate's; otherwise nothing changed; the call is a stretch of steps from a free state to a free state |
| `RuntimeReloading.RunThenStretch` | crates/dynet-cli/src/runtime_reload.rs:90-134 | such a stretch behind a run is a run, so what holds of every run holds of what the calls do |
| `ForwardingGraph.FromParts` | crates/dynet-runtime/src/stores.rs:165-207 | groups by id with the last duplicate winning, members of each group as a sorted permutation of its input members, default group as wanted or the least enabled one |
| `ForwardingGraph.SortMembersSorts` | crates/dynet-runtime/src/stores.rs:192-196 | members are in order of priority, then node id |
| `ForwardingGraph.SelectGroupHop` | crates/dynet-runtime/src/stores.rs:311-361 | which error exactly when; otherwise the node is an eligible member, the selector's choice if it names one, else the least by priority and node id |
| `ForwardingGraph.HopNodeIsEligible` | crates/dynet-runtime/src/stores.rs:329-353 | the node of every hop is an enabled member of its group that the node store holds eligible for the family |
| `ForwardingGraph.RouteNeverRepeats` | crates/dynet-runtime/src/stores.rs:215-260 | a chain of next references that reaches a terminal passes no group twice |
| `ForwardingGraph.WalkIff` | crates/dynet-runtime/src/stores.rs:215-260 | the selector-free walk succeeds with a path and terminal if and only if they are a next-chain of passable groups avoiding the seen ones |
| `ForwardingGraph.SelectGraph` | crates/dynet-runtime/src/stores.rs:215-260 | the selection terminates on every store and has the path, terminal, success and error of that walk whatever the selector answers, with a legal node at every hop |
| `AeadStreaming.IncrementAddsOne` | prototype/shadowsocks/src/aead2017.rs:341-349 | incrementing is plus one modulo 256 to the number of bytes, on the little-endian value |
| `AeadStreaming.IncrementNonce` | prototype/shadowsocks/src/aead2017.rs:341-349 | the in-place loop carries as that function says |
| `AeadStreaming.NoncesAreDistinct` | prototype/shadowsocks/src/aead2017.rs:236-265 | the first 2^96 nonces of a stream are pairwise different and the next one is the first again |
| `AeadStreaming.AeadStream.constructor` | prototype/shadowsocks/src/aead2017.rs:166-177 | a stream starts at the all-zero nonce |
| `AeadStreaming.AeadStream.EncryptChunk` | prototype/shadowsocks/src/aead2017.rs:179-192 | length and payload are sealed under the next two nonces; an over-long payload changes nothing |
| `AeadStreaming.AeadStream.DecryptChunk` | prototype/shadowsocks/src/aead2017.rs:194-234 | one chunk is read as specified: clean end inside the length part, errors for failed opening, bad length, excess size and cut payload |
| `AeadStreaming.OpenAllSealed` | prototype/shadowsocks/src/aead2017.rs:179-234 | reading any number of sealed chunks returns the payloads in order and goes on with what follows |
| `AeadStreaming.CutStreamKeepsWholeChunks` | prototype/shadowsocks/src/aead2017.rs:194-234 | a stream cut anywhere yields exactly the whole chunks, and the cut goes unnoticed if and only if it falls within the sealed length |
| `AeadStreaming.RelayToUpstream` | prototype/shadowsocks/src/aead2017.rs:57-97 | the sending half writes the salt, the sealed header and one sealed chunk per block read, and counts the data bytes; nothing for an over-long header |
| `AeadStreaming.RelayToClient` | prototype/shadowsocks/src/aead2017.rs:99-122 | the receiving half reads the salt, then writes exactly the payloads read until end or error, and counts them |
| `AeadStreaming.RelayRoundTrip` | prototype/shadowsocks/src/aead2017.rs:57-122 | what the sending half writes, the receiving half turns back into header and data |
| `CaptureRules.CapturedIff` | crates/dynet-capture/src/linux/hooks.rs:366-418 | a chain marks a packet if and only if some mark rule matches it and no rule up to there lets it leave |
| `CaptureRules.OutputCapturesIff` | crates/dynet-capture/src/linux/hooks.rs:366-440 | the complete output chain captures exactly the unmarked TCP and UDP packets of other users and enabled families that go to none of the host blocks and are not TCP from or to port 22 |
| `CaptureRules.OutputCapturesOnlyEnabled` | crates/dynet-capture/src/linux/hooks.rs:366-418 | however far its installation got, the output chain never captures the service user, marked packets, or IPv6 when it is off |
| `CaptureRules.OutputMatchesIff` | crates/dynet-capture/src/linux/hooks/status.rs:99-143 | the status check accepts a partly installed output chain if and only if it is complete and built for the same options |
| `CaptureRules.RouterCapturesIff` | crates/dynet-capture/src/linux/router_ingress.rs:390-444 | the complete router chain captures exactly the unmarked TCP and UDP packets that come in on its interface from one of its sources of an enabled family and go neither to the host nor to private blocks |
| `CaptureRules.RouterCapturesOnlyEnabled` | crates/dynet-capture/src/linux/router_ingress.rs:390-444 | however far its installation got, the router chain captures only unmarked packets of its interface and enabled families |
| `CaptureRules.RouterMatchesIff` | crates/dynet-capture/src/linux/router_ingress.rs:307-371 | the status check accepts a partly installed router chain if and only if its guards are complete and built for the same families and every wanted mark rule is found, by the text test for its source, among the mark rules reached |
| `CaptureRules.OwnChainMatchesIff` | crates/dynet-capture/src/linux/router_ingress.rs:307-371 | a chain passes for its own options if and only if every mark rule it is missing is found among those it has |
| `CaptureRules.IncompletePassesIff` | crates/dynet-capture/src/linux/router_ingress.rs:307-371 | some incomplete chain passes for its own options if and only if the source installed last passes for found where an earlier one of its family is listed |
| `CaptureRules.CutBetweenHosts` | crates/dynet-capture/src/linux/router_ingress.rs:361-371 | of two single addresses where the second begins like the first, a chain cut between them is reported ready although packets from the second are not captured |
| `CaptureRules.CutScopeExample` | crates/dynet-capture/src/linux/router_ingress.rs:361-371 | for instance 192.168.20.12/32 and 192.168.20.1/32 |
| `CaptureHooks.GrowingOutputIsServed` | crates/dynet-capture/src/linux/hooks.rs:203-246 | with the links of the enabled families in place, every prefix of the output chain may be installed without an unserved capture |
| `CaptureHooks.GrowingRouterIsServed` | crates/dynet-capture/src/linux/router_ingress.rs:157-200 | the same for the router chain |
| `CaptureHooks.CleanStateIsDetermined` | crates/dynet-capture/src/linux/hooks.rs:143-157 | two states with the same foreign and no owned artifacts are equal, so a complete cleanup restores what was there before |
| `CaptureHooks.Host.EnsureFamilyHooks` | crates/dynet-capture/src/linux/hooks.rs:159-201 | route before rule, each only if missing; on failure at most the route was added; the log undoes to the start |
| `CaptureHooks.Host.DeleteFamilyHooks` | crates/dynet-capture/src/linux/hooks.rs:267-335 | rule before route, each only if owned |
| `CaptureHooks.Host.EnsureOutputChain` | crates/dynet-capture/src/linux/hooks.rs:203-246 | an absent chain is built completely, a ready one is left alone |
| `CaptureHooks.Host.EnsureRouterChain` | crates/dynet-capture/src/linux/router_ingress.rs:157-200 | the same, with the log undoing to the start after every command |
| `CaptureHooks.Host.HooksApply` | crates/dynet-capture/src/linux/hooks.rs:108-137 | refuses exactly on uid 0, a missing skeleton or a collision; otherwise only adds; done means links and chain are ready; broken means the last command failed |
| `CaptureHooks.Host.RollBack` | crates/dynet-capture/src/linux/router_ingress.rs:222-281 | undoes the log backwards: success restores the start state, failure leaves only additions to it |
| `CaptureHooks.Host.RouterApply` | crates/dynet-capture/src/linux/router_ingress.rs:87-133 | a chain that the text test does not accept is refused; a failed apply whose rollback succeeds leaves the host exactly as it was; in no case is anything removed that the apply did not create |
| `CaptureHooks.Host.HooksCleanup` | crates/dynet-capture/src/linux/hooks.rs:143-157 | shared rule and route stay while the router chain exists; otherwise nothing owned is left |
| `CaptureHooks.Host.RouterCleanup` | crates/dynet-capture/src/linux/router_ingress.rs:139-155 | shared rule and route stay while the output chain exists; otherwise nothing owned is left |
| `CaptureHooks.Host.PerformAll` | crates/dynet-capture/src/linux/hooks.rs:108-157 | over every sequence of operations and every pattern of failing commands, each operation has its effect, the record of states after each command grows, and in each of them a captured packet has its family's rule and route and foreign artifacts are untouched |
| `DnsNames.NameAt` | crates/dynet-runtime/src/dns.rs:403-432 | a name ends strictly after its start and within the packet, and reading it terminates on (jumps left, bytes left) |
| `DnsNames.ReadName` | crates/dynet-runtime/src/dns.rs:403-432 | the loop with its pending end offset computes that name on every packet, pointer loops included |
| `DnsNames.NameOfPrefix` | crates/dynet-runtime/src/dns.rs:403-432 | a packet cut short holds exactly the names that are read from the bytes it kept; every other read fails |
| `DnsNames.EndBehindHeader` | crates/dynet-runtime/src/dns.rs:403-432 | a name behind the header ends in the same place whatever the header holds, if it can be read |
| `DnsNames.Utf8SplitsAtAscii` | crates/dynet-runtime/src/dns.rs:352-360 | a UTF-8 string split at an ASCII byte gives UTF-8 parts |
| `DnsNames.JoinSplit` | crates/dynet-runtime/src/dns.rs:352-360 | joining the labels of a domain gives the domain |
| `DnsNames.ReadsWhatWasWritten` | crates/dynet-runtime/src/dns.rs:352-361 | written labels are read back in order, lower-cased |
| `DnsMessages.BuildAQuery` | crates/dynet-runtime/src/dns.rs:339-365 | a query is built if and only if something is left without trailing dots and every label has 1 to 63 bytes; its bytes are header, labels, terminator, type and class |
| `DnsMessages.SniffBuiltQuery` | crates/dynet-runtime/src/dns.rs:152-165 | the query sniffer reads a built query back as the domain without trailing dots, lower-cased, type A, with its identifier |
| `DnsMessages.SniffDnsResponse` | crates/dynet-runtime/src/dns.rs:167-214 | the response sniffer's loops compute the function that SniffEncodedResponse and AnswersIff are about |
| `DnsResponses.SniffEncodedResponse` | crates/dynet-runtime/src/dns.rs:167-214 | any response encoded as header, questions, resource records and whatever follows, with names spelled out or pointing to the first question, is read back: identifier, first question, and in order the four bytes of each A record and the sixteen of each AAAA record, nothing for other records |
| `DnsResponses.AnswersIff` | crates/dynet-runtime/src/dns.rs:186-206 | answers are read if and only if as many records as announced lie one behind the other, whatever their names look like, and the addresses read are those of the address records among them |
| `DnsResponses.OverrunIsUnreadable` | crates/dynet-runtime/src/dns.rs:190-196 | a data length that runs past the packet, behind any number of whole records, makes the response unreadable |
| `DnsMessages.FindQuestionEnd` | crates/dynet-runtime/src/dns.rs:307-316 | the offset behind the last whole question |
| `DnsMessages.Resolution.ApplyIpv6Filter` | crates/dynet-runtime/src/dns.rs:293-305 | malformed exactly without whole questions, panics exactly on 6 to 11 bytes without questions, otherwise zeroes the counts and cuts behind the questions |
| `DnsMessages.FilteredReads` | crates/dynet-runtime/src/dns.rs:293-316 | for every response the filter accepts, names that look anywhere included: what it leaves has the identifier, the questions as they read with the counts zeroed, no answers, and is a fixed point of the filter; or it cannot be read at all |
| `DnsMessages.FilteredIsReadableIff` | crates/dynet-runtime/src/dns.rs:293-316 | the filtered response can be read if and only if, with the counts zeroed, every question name is readable from bytes before the cut |
| `DnsMessages.FilterKeepsQuestionsIff` | crates/dynet-runtime/src/dns.rs:293-316 | it has the questions of the original if and only if, besides, zeroing the counts alone leaves them the same |
| `DnsMessages.FilterKeepsPointerFreeQuestions` | crates/dynet-runtime/src/dns.rs:293-316 | questions without compression are always kept |
| `DnsMessages.CountPointerReadsRoot` | crates/dynet-runtime/src/dns.rs:297-300 | a question whose name points into the record counts becomes a question for the root, with its type unchanged |
| `TrafficSessions.TrafficSession.constructor` | crates/dynet-runtime/src/traffic_session.rs:160-199 | a new session |
| `TrafficSessions.TrafficSession.ApplyUpdate` | crates/dynet-runtime/src/traffic_session.rs:201-260 | the in-place update of all fields is the specified fold step |
| `TrafficSessions.TextsAreBoundInOrder` | crates/dynet-runtime/src/persistence.rs:262-293 | every text column receives the field bound for it |
| `TrafficSessions.InsertMatches` | crates/dynet-runtime/src/persistence.rs:197-212 | the inserted row agrees with a new session after its first update, mixed or not |
| `TrafficSessions.UpdateMatchesIff` | crates/dynet-runtime/src/persistence.rs:213-260 | one more update keeps row and session in agreement if and only if no direction carries both a total and a non-empty datagram |
| `TrafficSessions.FoldsAgreeIff` | crates/dynet-runtime/src/persistence.rs:197-260 | the two folds agree throughout a run of one session if and only if no update after the first is mixed |
| `TrafficSessions.IntervalsInTheRow` | crates/dynet-runtime/src/persistence.rs:200-209 | the row only ever stores zero for duration and first response latency, the session the real intervals |
| `TrafficSessions.IntervalsAgreeIff` | crates/dynet-runtime/src/persistence.rs:227-259 | each interval agrees if and only if its end is not after the session's start |
| `TrafficSessions.PortsAgreeIff` | crates/dynet-runtime/src/persistence.rs:220-220 | the session keeps the first target port, the row the last: they agree if and only if these are equal |
| `SessionStores.TrafficSessionStore.OldestKey` | crates/dynet-runtime/src/traffic_session.rs:147-157 | the least session by last observation, then key |
| `SessionStores.TrafficSessionStore.ApplyUpdate` | crates/dynet-runtime/src/traffic_session.rs:130-144 | the store of session objects stays within 1024, evicts only the oldest and only for a new key in a full store, and changes no other session |
| `SessionStores.TrafficSessionStore.RecordAll` | crates/dynet-runtime/src/traffic_session.rs:130-144 | any run from an empty store leaves for each key it holds the fold of the key's updates since the key was last evicted |
| `SessionStores.RecentIsSuffix` | crates/dynet-runtime/src/traffic_session.rs:130-144 | these are the last updates of all that the key received |
| `SessionStores.FewKeysStay` | crates/dynet-runtime/src/traffic_session.rs:130-157 | a run over at most 1024 keys never evicts: every key keeps all its updates |
| `SessionStores.TableKeepsAll` | crates/dynet-runtime/src/persistence.rs:197-260 | the table holds for each key the fold over all of its updates, whatever comes between them |
| `SessionStores.StoreMatchesTableIff` | crates/dynet-runtime/src/persistence.rs:197-260 | whatever the interleaving and whatever was evicted, a session whose later updates are not mixed agrees with its row if and only if the updates since its eviction fold to the same columns as all of them |
| `SessionStores.StoreMatchesTable` | crates/dynet-runtime/src/persistence.rs:197-260 | so a run over at most 1024 keys leaves store and table in agreement on every such session |
| `SessionStores.EvictedSessionDiffers` | crates/dynet-runtime/src/persistence.rs:197-260 | and a session that was evicted and came back at another time differs from its row |

## Left out

- VisionWriting.PollWrite: the write side is a record value that each method replaces, not fields updated in place, because invariants over many sequence-valued fields of one object are out of the verifier's reach; aliasing between fields is not modelled. `VisionStream` is the object that holds both sides.
- VisionReading.PollRead: the read side is a record value in the same way, and starts when the VLESS response has been consumed; `poll_read_vless_response` is not modelled.
- VisionReading.DeliveryIsWhole: records that the session answers with output of its own, and alerts, are not modelled.
- VisionReading.SwitchReadToTls: calls after a failed read are not modelled; in the source a malformed record behind an End block leaves the outer deframer taken while the mode is still PaddingTls, so later polls hand out the pending bytes and then panic at the `expect` (prototype/vless/src/vision_stream.rs:720-723).
- VisionWriting.WriteConserves: assumes packets that fit the length field, see above.
- VisionWriting.DrainPadding: a session with nothing to send that accepts nothing does so a bounded number of times in Tls mode; without such a bound the loop in `poll_write_tls` need not terminate.
- VisionUnpadding.FirstCutHarmlessIff: a first chunk that already completes a final block is excluded, since the next call is an error by design.
- DnsMessages.BuildAQuery: the transaction identifier, taken from the clock, is a parameter; the total length limit of section 2.3.4 of RFC 1035 is not enforced by the code and not by the model.
- RuntimeReloading.FreeMeansOneConfig: store writes are atomic and reload is the only writer; audit records and fingerprints are not modelled.
- SessionStores.StoreMatchesTableIff: about sessions whose later updates are not mixed and whose counters fit, as in FoldsAgreeIff; intervals and target port have lemmas of their own.
- TrafficSessions.FoldsAgreeIff: byte and datagram counters fit 64 signed bits after every update; beyond that SQLite switches to reals and the in-memory sum overflows.
- CaptureHooks.Host.PerformAll: status reads are truthful and a failed command changes nothing; recognition of artifacts in command output is by facts, except for the sources of the router chain, which are compared as text with a single address listed without its prefix length and every other block as it was given; the log of cleanups is not modelled.
- Eventual emission of held bytes, `poll_shutdown`, wakers and timers: the code promises no progress there.
- Cryptography, key derivation and the Reality handshake: the session and the AEAD are abstract.
- UDP packets of Shadowsocks, DNS upstream racing, fake-answer detection and the observed-domain map.
- Full takeover and its cleanup, the TUN device, nft and ip command text, the systemd and procd artifacts.
- HTTP API, CLI and configuration loading, matrix scoring, persistence maintenance and recovery.
- Trojan, VMess and SOCKS encoders and `SlideBuffer`: they would only add easy members.
