# H-NET protocol decoder in Dafny

This project models the core of `HNetProtocolDecoder` (src/hnet_decoder.py). The decoder bridges a Hisense H-NET heat-pump bus to MQTT and Home Assistant. It reads frames that arrive on MQTT as hex text, checks their XOR checksum and decodes three kinds of frame:

- status frames (opcode 0xB1);
- sensor frames (0xB6);
- system-info frames (0xB8).

It publishes every decoded value on `<publish_prefix>/<suffix>`. In Home Assistant mode a value is preceded by an attributes record; otherwise it goes out as a legacy JSON record. Unknown and corrupt frames are archived. On connection the decoder announces a fixed catalogue of 50 sensor entities and records the ones the broker accepted in `ha_discovery_sent`.

## Modules

- `Checksum`: `_verify_checksum`, with Python's `^` defined bit by bit.
- `Hex`:
  - the `%02X` dump;
  - the hex branch of `_on_message` (the last whitespace-separated token, the character test and the two-characters-per-byte loop);
  - `_hex_string_to_int_array`;
  - Python's `int(pair, 16)` for the one- and two-character slices these loops pass.
- `Tables`: `OPERATION_COMMANDS`, `OPERATION_MODES`, the sensor byte map and the discovery catalogue.
- `Fields`: what each decoder publishes for a frame (a sequence of `Reading`s), and what `_decode_frame` publishes and archives.
- `Formatter`: `_publish_mqtt_value`, meaning the publications one call makes, and `Render` over a sequence of readings.
- `Discovery`: the device block, the discovery records, the publications of a discovery run, and the ids it adds to `ha_discovery_sent`.
- `Coverage`: every suffix a frame can publish is the id of a catalogue row.
- `Decoder`: the class `HNetProtocolDecoder`.
  - Its state is everything the object has handed on so far: the publications given to the client, the lines appended to the unknown-frames file, and `ha_discovery_sent`.
  - Each method follows the source's statements one by one.
  - Each method is proved to extend that state by exactly what the functions of `Fields`, `Formatter` and `Discovery` prescribe, and to leave the rest unchanged.

Inputs the object cannot see are parameters:

- `Clock` is a value of `datetime.now()` (its ISO form and the `%Y-%m-%d %H:%M:%S` form). One `Clock` serves a whole frame (see "## Left out").
- `failing` is the set of discovery topics whose `publish` the broker rejects.
- `hasClient` says whether an MQTT client exists.
- `Config` holds the configuration values the core reads.

The code is followed where it differs from the written description of the system:

- The command strings are the ones in the code ("AUTO MODE - CYCLE OFF", …).
- The temperature unit is the label the code spells, the two characters U+00AC U+221E before the `C` (`Tables.Celsius`).
- EVO readings carry the unit "..".

## Model

| member | source | states |
|---|---|---|
| Checksum.VerifyChecksum | src/hnet_decoder.py:466-479 | The loop over `frame[:-1]`, the extra xor with `frame[0]` and the byte mask accept a frame exactly when it has at least four bytes and bytes 1..len-2 xor to the last byte. |
| Checksum.SourceChecksumSkipsAddress | src/hnet_decoder.py:472-479 | The source's sum, which xors the address byte twice, equals the xor of bytes 1..len-2 alone. |
| Checksum.ValidityIgnoresAddress | src/hnet_decoder.py:466-479 | Whether a frame is valid never depends on its source-address byte. |
| Checksum.XorFoldFirst | src/hnet_decoder.py:472-474 | Folding from the left equals the first byte xor-ed with the fold of the rest. |
| Hex.DecodePairs | src/hnet_decoder.py:215-222 | The `for i in range(0, len(payload), 2)` loop yields exactly `PairsFrom(s, 0)`: the `int(pair, 16)` values in order, or the first failing pair with its position. |
| Hex.LastTokenBlank | src/hnet_decoder.py:206 | `split()[-1]` fails (IndexError) exactly when the payload is all whitespace. |
| Hex.LastTokenNoSpace | src/hnet_decoder.py:206 | A last token is nonempty and contains no whitespace. |
| Hex.LastTokenSound | src/hnet_decoder.py:206 | The payload is some prefix ending in whitespace (or empty), then the token, then only whitespace. |
| Hex.LastTokenOfJoin | src/hnet_decoder.py:206 | Whatever precedes the last whitespace, only the final whitespace-free piece is decoded. |
| Hex.TrimEndShape | src/hnet_decoder.py:206 | The trimmed payload is a prefix of it, followed only by whitespace, and ends in a non-space. |
| Hex.LastRunShape | src/hnet_decoder.py:206 | The last run is a whitespace-free suffix with whitespace or nothing before it. |
| Hex.HexShapedPairs | src/hnet_decoder.py:212-222 | A token of hex digits and commas decodes without ValueError exactly when it has no comma. |
| Hex.HexPairsBytes | src/hnet_decoder.py:215-222 | A token of hex digits decodes to `(n + 1) / 2` values, each in 0..255. |
| Hex.CompactRoundTrip | src/hnet_decoder.py:215-222 | Decoding the separator-free dump of a frame, in either letter case, gives back the frame. |
| Hex.ClassifyCompact | src/hnet_decoder.py:201-229 | A frame sent as uppercase or lowercase hex reaches `_decode_frame` unchanged. |
| Hex.CompactShape | src/hnet_decoder.py:567 | The compact dump has two hex digits per byte and no whitespace; in upper case it has no lowercase letter. |
| Hex.HexStringToIntArray | src/hnet_decoder.py:481-512 | The helper as written: removes spaces, upper-cases, rejects odd length, then runs the `int(pair, 16)` loop (`HexStringValues`). |
| Hex.DumpRoundTrip | src/hnet_decoder.py:481-512 | The helper inverts the space-separated `%02X` dump of the logs. |
| Hex.HexStringAcceptsSign | src/hnet_decoder.py:503-510 | The helper as written returns `[-1]` for "-1" and `[1]` for "\t1" instead of raising. |
| Hex.HexStringToByteArray | src/hnet_decoder.py:481-512 | The helper as its docstring describes it: odd length and any non-hex pair are rejected (`HexStringBytes`). |
| Hex.StrictPairsLoop | src/hnet_decoder.py:503-510 | The loop over an even-length string stops at the first pair that is not two hex digits and otherwise yields `StrictPairsFrom(s, 0)`. |
| Hex.StrictPairsAccept | src/hnet_decoder.py:503-510 | On an even string, the strict loop succeeds exactly when every character is a hex digit. |
| Hex.StrictPairsValues | src/hnet_decoder.py:503-510 | On success, byte `k` is `16 * digit(2k) + digit(2k+1)`. |
| Hex.StrictAccepts | src/hnet_decoder.py:481-512 | The corrected helper succeeds exactly when the upper-cased, space-free string is an even number of hex digits. |
| Hex.StrictDumpRoundTrip | src/hnet_decoder.py:481-512 | The corrected helper inverts the log dump, with every value a byte. |
| Hex.StrictRejectsSign | src/hnet_decoder.py:503-510 | The corrected helper rejects "-1" at position 0. |
| Tables.SensorMappingsShape | src/hnet_decoder.py:690-699 | The eight mapped bytes ascend strictly, lie inside the 76-byte gate and have distinct suffixes. |
| Tables.CatalogueIdsDistinct | src/hnet_decoder.py:250-318 | The catalogue has 50 rows, all of domain "sensor", with pairwise distinct ids. |
| Tables.CelsiusRowsAreTemperatures | src/hnet_decoder.py:250-318 | A row carries the temperature unit exactly when its device class is "temperature". |
| Fields.FrameSilence | src/hnet_decoder.py:514-563 | A frame publishes nothing exactly when it is shorter than 10 bytes, is an ACK or has opcode 0. |
| Fields.FrameDispatch | src/hnet_decoder.py:546-563 | A dispatched frame publishes the readings of the decoder its opcode selects (none for an unknown opcode), then "online" on `indoor/status` exactly for the indoor address, and on `outdoor/status` otherwise. |
| Fields.UnknownOpcodeFrame | src/hnet_decoder.py:556-563 | An unknown opcode publishes only the device status; the frame is archived with `unknown_opcode_0xNN` exactly when archiving is on. |
| Fields.InvalidAckArchived | src/hnet_decoder.py:528-536 | An ACK with a bad checksum is archived as "invalid_checksum" and publishes nothing. |
| Fields.UnknownOpcodeReasonSound | src/hnet_decoder.py:559 | The archive reason is "unknown_opcode_0x" followed by two hex digits that parse back to the opcode. |
| Fields.DecoderGates | src/hnet_decoder.py:582-584 | Status, sensor and system-info frames shorter than 48, 76 and 30 bytes publish nothing. |
| Fields.CommandTableReadings | src/hnet_decoder.py:591-609 | An unlisted command byte publishes nothing. A listed one publishes its description, then the mode (AUTO for 0x04/0x05, COOLING for 0x08/0x09, HEATING otherwise), then cycle status ON exactly for 0x05, 0x09 and 0x65. |
| Fields.CycleBits | src/hnet_decoder.py:647-652 | The four cycle flags are the low four bits of byte 16. |
| Fields.IndoorTemperature2Quirk | src/hnet_decoder.py:639-640 | `indoor_temperature_2` carries byte 26 and is published exactly when byte 27 is nonzero. |
| Fields.DecodeDateTimeSound | src/hnet_decoder.py:661-678 | A date is published exactly when all seven bytes are present and nonzero. |
| Fields.DecodeDateTimeValue | src/hnet_decoder.py:666-675 | The date is day `b3 - 32`, month `b2`, year `b0 * 100 + b1`, then hour, minute and second. |
| Fields.FormatDateTimeLayout | src/hnet_decoder.py:675 | For in-range parts the text has the layout "DD/MM/YYYY HH:MM:SS", and each field parses back to its part. |
| Fields.StatusDateTime | src/hnet_decoder.py:655-656 | A status frame publishes its date exactly when bytes 34..40 are all nonzero. |
| Fields.MappedReadingsSound | src/hnet_decoder.py:701-703 | A mapped row is published if and only if its byte is present and neither the sentinel nor zero: every mapped reading comes from such a row, and every such row is published. |
| Fields.PumpStatusQuirk | src/hnet_decoder.py:690-721 | In a sensor frame, byte 11 is published as the pump status, always last. It is published as the inlet temperature exactly when it is neither the sentinel nor zero. |
| Fields.SystemInfoShape | src/hnet_decoder.py:736-758 | A system-info frame ends with system_param_1 (byte 10) and system_param_2 (byte 11). EVO is published with unit "..", although its catalogue row announces "A". |
| Formatter.HaTextRoundTrip | src/hnet_decoder.py:402-418 | The HA payload reads back: "ON"/"OFF" for a flag, decimal text that parses to the number, a string unchanged. |
| Formatter.ValuePublishesShape | src/hnet_decoder.py:387-464 | Without a client, nothing is published. In HA mode the attributes record (unretained, with the unit only when one is given) comes before the value, which carries the requested or configured retain flag. Otherwise one legacy record is published, carrying the value, the timestamp, the unit only when one is given, and the same retain flag. Every record uses the configured QoS. |
| Formatter.TopicInjective | src/hnet_decoder.py:397-421 | Distinct suffixes give distinct topics; the attributes topic is the topic of the suffix plus "/attributes". |
| Formatter.RenderAppend | src/hnet_decoder.py:387-464 | Publishing two reading sequences in turn equals publishing their concatenation. |
| Formatter.RenderHaShape | src/hnet_decoder.py:420-457 | In HA mode reading k publishes records 2k (attributes, unretained) and 2k+1 (its value, with the configured retain). |
| Formatter.RenderWithoutClient | src/hnet_decoder.py:390-392 | Without a client no reading publishes anything. |
| Discovery.IdentifiersInjective | src/hnet_decoder.py:329-330 | Within one domain, the unique id and the discovery topic determine the catalogue id, and the converse holds. |
| Discovery.CatalogueIdentifiersDistinct | src/hnet_decoder.py:250-330 | The 50 rows have pairwise distinct unique ids and discovery topics. |
| Discovery.TopicsAgree | src/hnet_decoder.py:333-368 | A record's state topic and attributes topic are the two topics `_publish_mqtt_value` writes for that id. |
| Discovery.SensorRecord | src/hnet_decoder.py:338-356 | A sensor record copies the row's unit, device class and icon and has no ON/OFF payloads. Availability and the device block are fixed. |
| Discovery.BinarySensorRecord | src/hnet_decoder.py:358-364 | A binary-sensor record carries ON/OFF payloads and no unit. |
| Discovery.CatalogueHasNoBinarySensor | src/hnet_decoder.py:250-364 | With the shipped catalogue the binary-sensor branch is never taken. |
| Discovery.DiscoveryPublishesShape | src/hnet_decoder.py:321-376 | A run publishes one retained record per row, in row order. |
| Discovery.AnnouncedIdsSound | src/hnet_decoder.py:378-380 | An id enters `ha_discovery_sent` exactly when a row carries it and the broker accepted that row's publish. |
| Discovery.AnnouncedCount | src/hnet_decoder.py:378-380 | Rows with distinct ids, all accepted, add one id each. |
| Discovery.CatalogueAnnounced | src/hnet_decoder.py:245-324 | A run in which every publish is accepted announces all 50 rows. |
| Coverage.StatusCatalogued | src/hnet_decoder.py:580-678 | Every suffix a status frame publishes is a catalogue id. |
| Coverage.SensorCatalogued | src/hnet_decoder.py:680-724 | Every suffix a sensor frame publishes is a catalogue id. |
| Coverage.SystemInfoCatalogued | src/hnet_decoder.py:726-761 | Every suffix a system-info frame publishes is a catalogue id. |
| Coverage.FrameReadingsCatalogued | src/hnet_decoder.py:514-563 | Every reading any frame publishes, including the device status, has a catalogue row whose id is its suffix; with `Discovery.TopicsAgree` it therefore lands on that row's state topic. |
| Decoder.DatetimeText | src/hnet_decoder.py:665-675 | The if-chain of `_decode_datetime` computes `DecodeDateTime`: nothing when a byte is zero (or the century is missing), otherwise the formatted date. |
| Decoder.HNetProtocolDecoder.constructor | src/hnet_decoder.py:29-66 | A new decoder has published and archived nothing, and `ha_discovery_sent` is empty. |
| Decoder.HNetProtocolDecoder.PublishMqttValue | src/hnet_decoder.py:387-464 | Appends exactly `ValuePublishes` for the call and changes nothing else. |
| Decoder.HNetProtocolDecoder.SaveUnknownFrame | src/hnet_decoder.py:570-578 | Appends one archive line with the reason and the `%02X` dump. |
| Decoder.HNetProtocolDecoder.DecodeDatetime | src/hnet_decoder.py:661-678 | Publishes exactly the readings of `DateTimeReadings`. |
| Decoder.HNetProtocolDecoder.PublishOperationCommand | src/hnet_decoder.py:591-609 | Publishes exactly `CommandReadings` for byte 10. |
| Decoder.HNetProtocolDecoder.PublishOperationMode | src/hnet_decoder.py:615-618 | Publishes the mode of byte 13 when it is listed in `OPERATION_MODES`, and nothing otherwise. |
| Decoder.HNetProtocolDecoder.PublishSecondTemperature | src/hnet_decoder.py:639-640 | Publishes byte 26 when byte 27 is nonzero. |
| Decoder.HNetProtocolDecoder.PublishNonZero | src/hnet_decoder.py:612-624 | Publishes byte k only when it is present and nonzero. |
| Decoder.HNetProtocolDecoder.PublishCycleSelection | src/hnet_decoder.py:647-652 | Publishes the four cycle flags of byte 16. |
| Decoder.HNetProtocolDecoder.DecodeAdditionalStatusParams | src/hnet_decoder.py:632-659 | Publishes exactly `AdditionalStatusReadings`, in source order. |
| Decoder.HNetProtocolDecoder.DecodeStatusMessage | src/hnet_decoder.py:580-630 | Publishes exactly `StatusReadings` for the frame and its source address. |
| Decoder.HNetProtocolDecoder.PublishMappedSensors | src/hnet_decoder.py:701-703 | The mapping loop publishes exactly `MappedReadings` over the table. |
| Decoder.HNetProtocolDecoder.DecodeSensorData | src/hnet_decoder.py:680-724 | Publishes exactly `SensorReadings`. |
| Decoder.HNetProtocolDecoder.DecodeSystemInfo | src/hnet_decoder.py:726-761 | Publishes exactly `SystemInfoReadings`. |
| Decoder.HNetProtocolDecoder.DispatchOpcode | src/hnet_decoder.py:550-563 | Publishes the selected decoder's readings and the device status. An unknown opcode is archived when archiving is on. |
| Decoder.HNetProtocolDecoder.DecodeFrame | src/hnet_decoder.py:514-568 | Publishes exactly `FrameReadings` and archives exactly `FrameArchive`; `ha_discovery_sent` is unchanged. |
| Decoder.HNetProtocolDecoder.OnMessage | src/hnet_decoder.py:201-232 | A payload classified as a hex frame is decoded as that frame. A blank, JSON, malformed or unrecognised payload publishes and archives nothing. |
| Decoder.HNetProtocolDecoder.PublishSingleHaDiscovery | src/hnet_decoder.py:326-385 | Publishes the row's retained record and adds its unique id only when the publish is accepted. |
| Decoder.HNetProtocolDecoder.PublishHaDiscovery | src/hnet_decoder.py:245-324 | Publishes the catalogue's records in order and adds exactly the accepted ids to `ha_discovery_sent`. |

## Left out

- Configuration loading (YAML file, environment, defaults), logging, signal handling, the MQTT connect/loop lifecycle and `_publish_availability`: these are I/O around the core. `Config` stands for the loaded values.
- The JSON-array branch of `_on_message`: `json.loads` is not modelled. Such a payload is classified and then dropped (the model publishes nothing for it).
- UTF-8 decoding of the payload: payloads are taken as already decoded strings.
- `datetime.now()`: it becomes the `Clock` parameter.
- Decoder.HNetProtocolDecoder.DecodeFrame: one `Clock` stands for every `datetime.now()` read while a frame is decoded (and so for `OnMessage`). The source reads the clock anew for each record: twice per reading in Home Assistant mode (`timestamp` and `last_updated`) and once per legacy record. So the records of one frame may carry different times, which the model does not capture.
- The archive line's timestamp and failures writing the unknown-frames file: the model keeps only the reason and the dump.
- The `print_raw_frames` debug log: it only logs.
- Decoder.HNetProtocolDecoder.PublishMqttValue: float values (`f"{value:.2f}"`) are not modelled, because the decoders never pass a float.
- The commented-out `evo_current` computation (lines 748-752): it is dead code.
- Exceptions raised by `publish`: only the broker's refusal of a discovery publish is modelled, through `failing`.
- Decoder.HNetProtocolDecoder.constructor: whether a client exists is fixed at construction (`hasClient`), so a client created later by `_setup_mqtt` is not modelled.
- Hex.HexStringToIntArray: the source declares `_hex_string_to_int_array` without `self`, so calling it on an instance would raise TypeError, and nothing in the file calls it. The model treats it as a plain function of its string argument.
- Hex.Upper: `str.upper()` is modelled on ASCII letters only. `int()` accepting non-ASCII Unicode digits is not modelled.
- The decoders' `len(frame) > 10/11/13/…` tests, which their length gates already imply, hold trivially in the model.

## Findings

| source | as written | input that shows it | evidently intended | confidence | as-written member | corrected member |
|---|---|---|---|---|---|---|
| src/hnet_decoder.py:503-510 | `int(hex_pair, 16)` accepts a sign or surrounding whitespace, so a pair such as "-1" or "\t1" passes, and the helper returns -1 (not a byte). | "-1" | The docstring promises only hex pairs, so every non-hex pair is rejected and every value is a byte. | not executed | Hex.HexStringAcceptsSign | Hex.StrictRejectsSign, Hex.StrictAccepts, Hex.StrictDumpRoundTrip |
