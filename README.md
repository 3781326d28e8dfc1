# GOOSE publisher core, modelled in Dafny

This project models the data plane of a small IEC 61850 GOOSE publisher
written in C. It has three parts:

- **The BER codec** (`iec61850/ber.c`). It covers the X.690 definite length
  forms (short form, and long form `0x80|n` followed by n big-endian
  octets), the encoding and decoding of one tag-length-value element, and
  the encoding and decoding of sequences of elements.
- **The GOOSE frame handles** (`iec61850/goose.c`, `iec61850/goose.h`). A
  static pool of sixteen handles. `goose_init` hands them out in order and
  fills in a fresh frame's header and the tags of its twelve PDU fields. It
  also covers the empty `goose_encode` and `goose_free`.
- **The publisher** (`iec61850/goose_publisher.c`). A registry of sixteen
  message slots with init, register, deregister, notify and process. The
  per-tick retransmission state machine `goose_message_housekeeping` has
  four cases:
  - update: restart the burst and send;
  - wait: count the tick;
  - burst: double the time-allowed-to-live and send;
  - stable: return to the default and send.

Files:

| file | module | contents |
|---|---|---|
| `wrappers.dfy` | `Wrappers` | `Option` |
| `ber.dfy` | `Ber` | Specification functions for lengths and elements. Imperative methods that follow the C loops, proved against those functions, with out-of-buffer reads corrected. |
| `ber_proofs.dfy` | `BerProofs` | Length-form properties: minimality, as DER requires. Round trips of lengths, elements and element sequences. |
| `ber_as_written.dfy` | `BerAsWritten` | The C decoders exactly as written, including their reads past the buffer. Each is compared with the corrected version, with a concrete input for each defect. |
| `goose.dfy` | `Goose` | Frame and handle classes, the handle pool, tag structure, and the order in which handles are issued. |
| `goose_publisher.dfy` | `GoosePublisher` | The housekeeping step as a function, the registry specifications, and the `Publisher` class with its methods. |
| `goose_schedule.dfy` | `GooseSchedule` | Ticks run back to back. Covers the whole schedule after an update, the stable period, and how `goose_publisher_process` drives each slot. |

Integer widths are explicit:

- The `uint32_t` counters stNum and sqNum wrap modulo 2^32 (`IncU32`), and
  the `uint16_t` doubling of the time-allowed-to-live wraps modulo 2^16
  (`DoubleU16`).
- `time_since_last_transmission` cannot wrap: it is only incremented while
  it is below `current_time_allowed_to_live` (goose_publisher.c:141), so it
  never exceeds 65535.
- Buffer sizes are below 2^64 (`Octets`).
- `encode_length` writes up to eight long-form octets, but `parse_length`
  accepts at most four (ber.c:17). An element of 2^32 octets or more is
  therefore encoded but never decoded, and the round trips below hold for
  values below 2^32 octets.

The output callback is modelled as a ghost log `sent` on the publisher. Each
call appends a `Transmission`: the slot's name and the slot's
time-allowed-to-live, stNum and sqNum at the output call.

Facts about the code that shape the model:

- Only register's copy of the caller's parameters (goose_publisher.c:43)
  can set `updated`. `goose_publisher_notify` finds the named slot, but the
  body of its match (goose_publisher.c:78-81) is empty.
- The pool refuses at `handles_in_use == MAX_GOOSE_FRAMES - 1`, so only
  fifteen of its sixteen handles are ever issued.
- The update case sets `burst_count` to 6 (goose_publisher.c:112), so six
  burst transmissions follow, with time-allowed-to-live 6, 12, 24, 48, 96
  and 192.
- A transmission is made on the tick after `time_since_last_transmission`
  reaches `current_time_allowed_to_live`. Transmissions are therefore
  currentTtl + 1 ticks apart.
- `goose_publisher_init` and `goose_publisher_deregister` clear only the
  name, handle, default time-allowed-to-live and burst count. The other
  counters keep their values.
- Register and deregister report nothing. A full registry and a missing
  name leave the registry unchanged.

## Model

| member | source | states |
|---|---|---|
| Ber.EncodeLength | iec61850/ber.c:43-82 | Its output is exactly `EncodeLengthSpec(len)`: one octet for 0..127, otherwise `0x80 + n` and n big-endian octets. The returned width is the output's length. |
| Ber.CountOctets | iec61850/ber.c:56-64 | The shift-by-8 loop counts `OctetCount(len)`, the number of octets the value needs. |
| Ber.FillBigEndian | iec61850/ber.c:74-78 | The loop writes the n low octets of `len`, most significant first, after the first octet, which it leaves unchanged. |
| Ber.ParseLength | iec61850/ber.c:4-41 | On a well-formed field: the length and the width (1, or 1 + n). On a rejected field: length 0, with the caller's width untouched. The window bound is corrected (see Findings). |
| Ber.Encode | iec61850/ber.c:116-135 | Output is tag, length header, value. Total length is 1 plus the header's length plus the value's length. |
| Ber.Decode | iec61850/ber.c:86-114 | Returns `DecodeSpec(bytes)`. That is NULL for short input, a malformed length field or a value running past the buffer; otherwise the value right after the length field. |
| Ber.ReadElement | iec61850/ber.c:153-182 | One loop body of ber_decode_many. It fails exactly when `DecodeHead` fails; otherwise it returns that element and the offset just past it. |
| Ber.DecodeMany | iec61850/ber.c:138-186 | NULL exactly when `DecodeManyFrom(bytes, 0, count)` fails; otherwise the array holds exactly those elements. |
| Ber.EncodeMany | iec61850/ber.c:190-227 | The first pass's total equals the length of the concatenated encodings. The output is their concatenation in order. |
| Ber.DecodeHead | iec61850/ber.c:153-177 | A decoded element spans at least 1 octet and no more than the window holds. |
| Ber.DecodeManyStep | iec61850/ber.c:146-183 | A failed head fails the whole decode. Otherwise the result is the head element prepended to the decode from where it ends. |
| Ber.EncodeManyConcat | iec61850/ber.c:190-227 | Encoding a concatenation is concatenating the encodings. |
| Ber.OctetCountFits | iec61850/ber.c:56-64 | A value below 256^n needs at most n octets. |
| BerProofs.LengthForms | iec61850/ber.c:43-82 | The short form is used exactly for lengths 0..127. The long form's first octet is `0x80 + n`, with 1 <= n <= 8 octets following. |
| BerProofs.LongFormMinimal | iec61850/ber.c:56-78 | The first long-form length octet is nonzero and the short form would not do: the encoding is minimal, as DER (X.690 section 10.1) requires. |
| BerProofs.LengthFormExamples | iec61850/ber.c:43-82 | 127, 128 and 65535 encode as `7F`, `81 80` and `82 FF FF`. |
| BerProofs.ParseEncodeLength | iec61850/ber.c:4-82 | parse_length reads back the length and width that encode_length wrote, for lengths below 2^32. |
| BerProofs.ParseLengthInBounds | iec61850/ber.c:4-41 | A parsed length field lies inside the window. Its value is below 2^32. |
| BerProofs.OctetCountUpper | iec61850/ber.c:56-64 | Every value is below 256^OctetCount. |
| BerProofs.ValueOfBigEndian | iec61850/ber.c:22-24 | Reading n big-endian octets back gives the value they were written from. |
| BerProofs.DecodeEncode | iec61850/ber.c:86-135 | Decoding an encoded element gives it back, for values below 2^32 octets. |
| BerProofs.WideLengthRefused | iec61850/ber.c:4-82 | A length of 2^32 is written with five long-form octets, `85 01 00 00 00 00`, and parse_length refuses that field. |
| BerProofs.DecodeOutcomes | iec61850/ber.c:86-114 | Corrected ber_decode fails exactly on a missing or malformed length field or a value past the buffer. Otherwise the value is the octets right after the field, whatever follows them. |
| BerProofs.DecodeManyEncodeMany | iec61850/ber.c:138-227 | Decoding as many elements as es holds, from any offset where their encodings start, with anything after them, gives es. |
| BerProofs.EncodeManyRoundTrip | iec61850/ber.c:138-227 | ber_decode_many inverts ber_encode_many, for values below 2^32 octets. |
| BerProofs.DecodeManyCount | iec61850/ber.c:138-186 | A successful decode yields exactly `count` elements. |
| BerAsWritten.ParseLengthAsWritten | iec61850/ber.c:4-41 | parse_length exactly as written on the window from the tag on, with its reads past the window as `Overread`. A parsed field has width 1..5 and ends inside the window. |
| BerAsWritten.DecodeAsWritten | iec61850/ber.c:86-114 | ber_decode exactly as written. NULL exactly for fewer than two octets. A decoded value is never longer than the buffer and is the buffer's last octets, whatever the length field said. |
| BerAsWritten.DecodeManyAsWritten | iec61850/ber.c:138-186 | ber_decode_many exactly as written, reads past the stream included. A success has exactly `count` elements. |
| BerAsWritten.ParseLengthCorrected | iec61850/ber.c:4-41 | Wherever parse_length as written stays inside its window, it agrees with the corrected parser. It parses exactly when the corrected one does. |
| BerAsWritten.ParseLengthOverread | iec61850/ber.c:6-23 | parse_length as written reads past its window exactly for a lone tag octet, or for a long-form count of at most four equal to the window length minus one. |
| BerAsWritten.ParseLengthGuardExample | iec61850/ber.c:17 | `04 81` passes the bound check and reads the octet after the window. |
| BerAsWritten.DecodeAsWrittenExact | iec61850/ber.c:86-114 | On an exact encoding, with nothing after the value, ber_decode as written inverts ber_encode. |
| BerAsWritten.DecodeTailExample | iec61850/ber.c:111 | `04 01 AA BB` decodes to value `BB` rather than `AA`. |
| BerAsWritten.DecodeOverrunExample | iec61850/ber.c:103-111 | `04 05 AA` copies from before the buffer. |
| BerAsWritten.DecodeRejectedExample | iec61850/ber.c:95-100 | A rejected length field gives an element with no value, not NULL. |
| BerAsWritten.DecodeManyCorrected | iec61850/ber.c:138-186 | The corrected ber_decode_many is the C loop with each read past the buffer turned into NULL. Both give the same elements otherwise. |
| BerAsWritten.DecodeManyLastTagExample | iec61850/ber.c:146-159 | A tag in the last octet has its length octet read past the end. |
| BerAsWritten.DecodeManyOverrunExample | iec61850/ber.c:170-177 | A value longer than the rest of the stream is copied past its end. |
| Goose.PduTagsIdentify | iec61850/goose.h:15-40 | PDU position k carries the context-specific tag [k]; only allData is constructed. The goosePdu tag is [APPLICATION 1], constructed. |
| Goose.PduTagsDistinct | iec61850/goose.h:28-40 | The twelve field tags are pairwise distinct and differ from the goosePdu tag. |
| Goose.IdentifierOctetFields | iec61850/goose.h:28-40 | The class, form and number can be read back from an identifier octet. |
| Goose.GooseFrame.constructor | iec61850/goose.c:23-46 | Source and destination are copied. Ethertype is 88 B8. app_id, len and the reserved fields are zero. pdu_fields[k] has tag PduTags[k]. |
| Goose.GooseHandle.constructor | iec61850/goose.c:6 | A static handle: no frame, no stream, length 0. |
| Goose.GooseHandle.Encode | iec61850/goose.c:51-54 | Changes nothing. |
| Goose.GooseHandle.Free | iec61850/goose.c:56-81 | Without a frame the handle is unchanged. Otherwise frame and stream become NULL and length 0. |
| Goose.GoosePool.constructor | iec61850/goose.c:6-7 | Sixteen distinct empty handles, none in use. |
| Goose.GoosePool.Init | iec61850/goose.c:9-49 | Covers the counter, the returned handle, and a fresh initialised frame with the header fields. On a failed allocation the slot's frame is NULL. Every other handle is unchanged; when the pool is full nothing changes. |
| Goose.InitSlot | iec61850/goose.c:11-21 | The slot one goose_init issues: none at fifteen handles in use or on a failed allocation, otherwise slot handles_in_use. GoosePool.Init is proved to return it, and IssuedInOrder states what successive calls issue. |
| Goose.InUseAfter | iec61850/goose.c:11-21 | The counter after one goose_init: one more only when a slot was issued. GoosePool.Init is proved to leave it, and IssuedInOrder states its course over successive calls. |
| Goose.IssuedInOrder | iec61850/goose.c:11-21 | Successive goose_init calls issue slots inUse, inUse + 1, ..., one per successful allocation, up to fifteen in all. |
| Goose.NothingIssuedWhenFull | iec61850/goose.c:11 | A pool at fifteen issues nothing. |
| Goose.IssuedFromEmpty | iec61850/goose.c:9-21 | From an empty pool the issued slots are 0, 1, 2, ... and never the sixteenth. |
| GoosePublisher.Housekeep | iec61850/goose_publisher.c:107-194 | The four cases of goose_message_housekeeping, in their order. What they keep, send and change is stated by HousekeepInvariants, HousekeepWaits, HousekeepSends and UpdateSendsAtOnce. |
| GoosePublisher.HousekeepInvariants | iec61850/goose_publisher.c:107-194 | Each tick keeps the name, handle and default, and clears `updated`. It sends at most once, exactly when an update is pending or the time-allowed-to-live has run out. What is sent carries the new counters. Only an update changes stNum, by one modulo 2^32. |
| GoosePublisher.HousekeepWaits | iec61850/goose_publisher.c:141-145 | While waiting, only the time since the last transmission moves, and nothing is sent. |
| GoosePublisher.HousekeepSends | iec61850/goose_publisher.c:148-194 | In a burst or stable send, sqNum steps by one modulo 2^32 and stNum is kept. A burst doubles the time-allowed-to-live modulo 2^16; a stable send resets it to the default. |
| GoosePublisher.FirstFree | iec61850/goose_publisher.c:39-46 | The first slot without a name, or None when all are named. |
| GoosePublisher.FirstMatch | iec61850/goose_publisher.c:56-66 | The first slot with the name, or None when there is none. |
| GoosePublisher.NamedCount | iec61850/goose_publisher.c:39-46 | The number of named slots is at most the registry size. |
| GoosePublisher.NamedCountUpdate | iec61850/goose_publisher.c:43 | Overwriting a slot changes the count by what left and what came in. |
| GoosePublisher.FreeSlotExists | iec61850/goose_publisher.c:39-46 | A free slot exists exactly when fewer than all slots are named. |
| GoosePublisher.RegisterSpec | iec61850/goose_publisher.c:35-49 | Register's effect on the registry: the parameters go into the first free slot, if there is one. Its properties are stated by RegisterCount, RegisterDeregister and DuplicateRegistration. |
| GoosePublisher.DeregisterSpec | iec61850/goose_publisher.c:52-69 | Deregister's effect: the first slot with the name is cleared, if there is one. Its properties are stated by DeregisterCount, RegisterDeregister and DuplicateRegistration. |
| GoosePublisher.Cleared | iec61850/goose_publisher.c:27-30 | The four fields init and deregister clear; Publisher.Init and Publisher.Deregister state the resulting slots. |
| GoosePublisher.RegisterCount | iec61850/goose_publisher.c:35-49 | Registering a named message takes one more slot while one is free. A full registry is left unchanged. |
| GoosePublisher.DeregisterCount | iec61850/goose_publisher.c:52-69 | Deregistering a present name frees exactly one slot; an absent name changes nothing. |
| GoosePublisher.RegisterDeregister | iec61850/goose_publisher.c:35-69 | Deregistering a name just registered, which was not there before, clears the slot it took and restores every name. |
| GoosePublisher.DuplicateRegistration | iec61850/goose_publisher.c:39-66 | Duplicate names are accepted. Deregistering then clears the earlier entry and keeps the new one. |
| GoosePublisher.SlotSentAs | iec61850/goose_publisher.c:92-98 | Everything one slot sends in a process call is sent under that slot's own name. |
| GoosePublisher.SentAsConcat | iec61850/goose_publisher.c:88-104 | The transmissions under one name of two logs run back to back are those of the first, then those of the second. |
| GoosePublisher.ProcessLogOf | iec61850/goose_publisher.c:88-104 | Of one process call's transmissions over the first i slots, those under the name only slot j holds are exactly what housekeeping of slot j sends once j < i, and none before. |
| GoosePublisher.Publisher.constructor | iec61850/goose_publisher.c:6-14 | Static storage: sixteen zero slots, clock 0, nothing sent. |
| GoosePublisher.Publisher.Init | iec61850/goose_publisher.c:17-32 | Every slot loses its name, handle, default and burst count; its other fields are unchanged. |
| GoosePublisher.Publisher.Register | iec61850/goose_publisher.c:35-49 | The registry becomes `RegisterSpec`: the parameters are copied into the first free slot, if any. |
| GoosePublisher.Publisher.Deregister | iec61850/goose_publisher.c:52-69 | The registry becomes `DeregisterSpec`: the first slot with the name is cleared, if any. |
| GoosePublisher.Publisher.Notify | iec61850/goose_publisher.c:72-85 | The registry and the log are unchanged. |
| GoosePublisher.Publisher.Housekeeping | iec61850/goose_publisher.c:107-194 | Slot i becomes `Housekeep(old slot).next` and the log gains what it sent. Other slots and the clock are unchanged. |
| GoosePublisher.Publisher.ProcessSlotAt | iec61850/goose_publisher.c:94-97 | One iteration of the process loop: slot i becomes `ProcessSlot(old slot).next` and the log gains what it sent. A free slot is left as it is. Other slots and the clock are unchanged. |
| GoosePublisher.Publisher.Process | iec61850/goose_publisher.c:88-104 | The registry becomes `ProcessAll(old)`. The log gains each slot's transmissions in index order. The millisecond clock steps by one modulo 2^32. |
| GooseSchedule.RunAdd | iec61850/goose_publisher.c:88-104 | Running a ticks and then b ticks is running a + b ticks: same final state, events concatenated. |
| GooseSchedule.Extend | iec61850/goose_publisher.c:88-104 | Two stretches of ticks with known outcomes chain into one. |
| GooseSchedule.Chain | iec61850/goose_publisher.c:88-104 | n segments with known outcomes, run back to back, give their events in order. |
| GooseSchedule.WaitThenSend | iec61850/goose_publisher.c:141-194 | Without an update, a slot stays silent for currentTtl - timeSince ticks. It then sends once on the next tick, as if it were due. |
| GooseSchedule.BurstSegment | iec61850/goose_publisher.c:141-171 | In a burst, the next transmission comes currentTtl + 1 ticks on, with the time-allowed-to-live doubled and sqNum stepped. |
| GooseSchedule.StableSegment | iec61850/goose_publisher.c:141-194 | Outside a burst, the next transmission comes currentTtl + 1 ticks on, at the default time-allowed-to-live. |
| GooseSchedule.UpdateSendsAtOnce | iec61850/goose_publisher.c:110-138 | An update sends on the very next tick: ttl 3, sqNum 0, stNum + 1, burst count 6. |
| GooseSchedule.BurstStep | iec61850/goose_publisher.c:141-171 | The j-th burst transmission's tick, ttl and sqNum. |
| GooseSchedule.BurstPhase | iec61850/goose_publisher.c:141-171 | After the update's transmission, six bursts follow at +4, +11, +24, +49, +98 and +195 ticks. Their ttls are 6 to 192 and their sqNums 1 to 6. |
| GooseSchedule.UpdateSchedule | iec61850/goose_publisher.c:107-194 | An update is followed by exactly eight transmissions in 389 ticks, at ticks 1, 5, 12, 25, 50, 99, 196 and 389. Their ttls are 3, 6, 12, ..., 192, then the default. Their sqNums are 0..7 under the new stNum. The slot is then settled. |
| GooseSchedule.StablePeriod | iec61850/goose_publisher.c:141-194 | One stable period of default + 1 ticks sends once and steps sqNum. |
| GooseSchedule.StableSchedule | iec61850/goose_publisher.c:141-194 | A stable slot sends every default + 1 ticks at its default, with sqNum counting up modulo 2^32. |
| GooseSchedule.ProcessRun | iec61850/goose_publisher.c:88-104 | After k process calls, each slot is where k of its own ticks have taken it. |
| GooseSchedule.ProcessSlotRun | iec61850/goose_publisher.c:92-98 | A named slot is driven by housekeeping on every call. A free slot never changes and never sends. |
| GooseSchedule.ProcessSchedule | iec61850/goose_publisher.c:88-194 | In the registry, a named slot with an update is settled after 389 process calls. A stable named slot, after k periods of default + 1 calls, is in the state where its sqNum has stepped k times. ProcessCalls shows that k calls of Publisher.Process leave the registry ProcessTimes describes. |
| GooseSchedule.ProcessLogsRun | iec61850/goose_publisher.c:88-194 | Over k process calls, the log's transmissions under a name only slot j holds are exactly those of k ticks of housekeeping on that slot, in order. ProcessCalls shows that k calls of Publisher.Process append ProcessLogs. |
| GooseSchedule.ProcessCalls | iec61850/goose_publisher.c:88-104 | k successive calls of Publisher.Process: the registry becomes `ProcessTimes(old, k)`, the log gains `ProcessLogs(old, k)`, and the clock steps k times modulo 2^32. |
| GooseSchedule.NextCall | iec61850/goose_publisher.c:88-104 | One more Publisher.Process call after i of them takes the registry, the log and the clock to where i + 1 calls put them. |
| GooseSchedule.LastCallSent | iec61850/goose_publisher.c:88-104 | The k-th process call sends, under slot j's name, what the k-th tick of housekeeping on that slot sends. |
| GooseSchedule.ProcessUpdateSent | iec61850/goose_publisher.c:88-194 | In the log of 389 process calls, a slot with an update whose name no other slot holds has exactly the eight transmissions of the update schedule: ttls 3, 6, ..., 192 and then the default, sqNums 0..7. |
| GooseSchedule.ProcessStableSent | iec61850/goose_publisher.c:88-194 | In the log of k periods of default + 1 process calls, a stable slot whose name no other slot holds has exactly k transmissions, all at the default, with sqNums counting up modulo 2^32. |

## Left out

- Semaphores (`semaphore_take`, `semaphore_release`): each public operation is modelled as atomic.
- The output callback: modelled as the ghost log `sent`. The byte stream it would be given is not modelled.
- `ber_set`, `goose_htons`, `goose_htonl` and the PDU writes through `handle->frame->pdu_list`: these are not part of this model. `goose.h` declares no `pdu_list` member of `goose_frame`, so these writes have no definition to model. A `Transmission` records the slot's time-allowed-to-live, stNum and sqNum at the output call.
- The PDU contents at each output call: the update case writes st_num, sq_num and the time-allowed-to-live (goose_publisher.c:130-132); a burst writes only sq_num and the time-allowed-to-live (goose_publisher.c:161-162); a stable send writes sq_num, and the time-allowed-to-live only when it differs from the default (goose_publisher.c:177-186). Until a slot's first update, the PDU's st_num, and in the stable case its time-allowed-to-live, can therefore differ from the values a `Transmission` records.
- Frame serialisation: `goose_encode` is empty in this revision and is modelled as such.
- `time_elapsed_ns` is left out; the millisecond clock is modelled.
- malloc failure is modelled only in `goose_init` (the `allocationSucceeds` parameter). Everywhere else allocation is taken to succeed, and freed memory is not tracked.
- Goose.GooseHandle.Free: does not model the freeing of the PDU field values, the stream and the frame. It models only the NULL and zero assignments that make the handle reusable.
- Goose.GooseFrame.constructor: the PDU field values that malloc leaves uninitialised are modelled as empty.
- The registry's fixed C arrays `message_list` and `handle_list` become a Dafny `array` and a `seq` of handle objects. Names are compared by value, as `strcmp` does.
- A NULL `handle` in a registered slot, which the C housekeeping would dereference, is not distinguished: housekeeping does not touch the handle.
- `test/main.c` is not part of this model.
- Ber.DecodeMany: the allocation size `count * sizeof(ber)` at ber.c:141 is not wrapped at 2^64. The model allocates `count` elements for any `count`, so it does not show that a count of 2^61 or more wraps the size to a too-small buffer.
- Ber.EncodeMany: the `size_t` sum `total_length += temp_len` at ber.c:202 is not wrapped at 2^64. The model's total is exact.
- Ber.Encode: the `size_t` sum `1 + length_bytes_len + length` is not wrapped at 2^64; element values are below 2^64 octets.

## Findings

| source | as written | input that shows it | evidently intended | confidence | as-written member | corrected member |
|---|---|---|---|---|---|---|
| iec61850/ber.c:17 | `numLengthBytes >= len` lets a count of len - 1 through, whose last length octet is past the window | `04 81` (len 2) | the n long-form octets must lie inside the window (n + 2 <= len) | not executed | BerAsWritten.ParseLengthGuardExample | BerProofs.ParseLengthInBounds |
| iec61850/ber.c:6-13 | only an empty window is refused, yet the octet after the tag is read | ber_decode_many on `04` with count 1 | a window without a length octet is refused | not executed | BerAsWritten.DecodeManyLastTagExample | BerAsWritten.DecodeManyCorrected |
| iec61850/ber.c:111 | the value is copied from the last `length` octets of the buffer | `04 01 AA BB` decodes to value `BB` | the value right after the length field, here `AA` | not executed | BerAsWritten.DecodeTailExample | BerProofs.DecodeOutcomes |
| iec61850/ber.c:103-111 | a length larger than the buffer is not checked, and the copy starts before the buffer | `04 05 AA` | NULL | not executed | BerAsWritten.DecodeOverrunExample | BerProofs.DecodeOutcomes |
| iec61850/ber.c:95-100 | parse_length's rejection (0) reads as the length 0, giving an element with no value | `04 85 00 00 00 00 01` | NULL, as ber_decode_many does for the same field | not executed | BerAsWritten.DecodeRejectedExample | BerProofs.DecodeOutcomes |
| iec61850/ber.c:170-177 | the value is copied without checking that it fits in the rest of the stream | ber_decode_many on `04 05 AA` with count 1 | NULL | not executed | BerAsWritten.DecodeManyOverrunExample | BerProofs.DecodeManyEncodeMany |
