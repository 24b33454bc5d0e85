# ashowinfo — a Dafny model of Libav's audio frame inspector

`ashowinfo` is a pass-through audio filter. For every frame it:

- computes an Adler-32 checksum of each data plane, starting from seed 0;
- chains those checksums into one aggregate checksum;
- logs a report with the frame number, timestamp, format, layout, rate, sample count and the checksums as `%08X`;
- increments its 64-bit frame counter and hands the same frame downstream.

Its private context holds two things: a scratch array of per-plane checksums, allocated by `config_input` and freed by `uninit`, and the frame counter.

The project models the context as an immutable value that each callback threads through. Each callback is a pure function: `ConfigInput`, `FilterFrame` and `Uninit`. `Run` applies `FilterFrame` to a stream of frames.

Modules:

- `Common` (`common.dfy`): the C integer widths (`uint32_t`, `uint64_t`, `int64_t`, `int`) as subset types, bytes as `bv8`, and `Option`.
- `Adler32` (`adler32.dfy`): `av_adler32_update`. It is written as the Adler-32 reference loop of section 9 of RFC 1950, folded over the bytes. The checksum keeps s1 in the low 16 bits and s2 in the high 16 bits. For each byte, `s1 = (s1 + b) mod 65521` and then `s2 = (s2 + s1) mod 65521`. The module proves two results about it:
  - the chaining rule `Update(Update(a, x), y) == Update(a, x + y)`;
  - the closed form of section 2.2 of RFC 1950 (plain byte sum and weighted byte sum).
- `Hex` (`hex.dfy`): the `%08X` conversion and its inverse.
- `ReportText` (`report.dfy`): the checksum parts of the report text. These are the `checksum:%08X ` field and the `plane_checksums: [ ... ]` list that follows it on the same line and ends that line with `]\n`, together with parsers for both.
- `AShowInfo` (`ashowinfo.dfy`): the context, the three callbacks, the checksum loop, and the properties of a run of frames.

The filter seeds every checksum with 0, not with the 1 that RFC 1950 prescribes. The model follows the filter. As a result, `Update(0, data)` is not the RFC's Adler-32 of `data`. Its low half is the byte sum and its high half is the weighted byte sum, both taken modulo 65521 (`UpdateFromZero`).

The code relies on these assumptions, stated as the precondition `CanFilter` of `FilterFrame`:

- The scratch pointer is configured, not NULL.
- The scratch array holds at least `Planes` slots.
- The frame has at least `Planes` entries in `extended_data`.
- Every plane holds at least `DataSize` bytes.
- `nb_samples`, `block_align` and `data_size` fit in a C `int`.

The code does not check any of these. The framework provides them. The array size is guaranteed when the frame's channel count equals the configured one and the layout is not packed with zero channels. A packed layout always has one plane, even with zero channels, so `config_input` would then allocate nothing while `filter_frame` writes slot 0 (`PlanesWithinChannels`, `ConfiguredFrameFits`).

The scratch array has one slot per channel, not one per plane, because the code allocates it that way. For packed audio it is therefore larger than needed, and the slots past the first are never written (`FilterFrameChecksums`).

## Model

| member | source | states |
|---|---|---|
| `Adler32.Unpack` | libavfilter/af_ashowinfo.c:85-86 | the 32-bit checksum is s2 in the high 16 bits and s1 in the low 16 bits, and the split loses nothing |
| `Adler32.Pack` | libavfilter/af_ashowinfo.c:85-86 | joining the two sums gives a 32-bit value that splits back into the same sums |
| `Adler32.Step` | libavfilter/af_ashowinfo.c:85-86 | one byte of the update leaves both sums reduced below 65521, with s1 advanced by the byte |
| `Adler32.Fold` | libavfilter/af_ashowinfo.c:85-86 | after at least one byte both running sums are reduced below 65521; an empty buffer changes nothing; the sums stay within 16 bits |
| `Adler32.Update` | libavfilter/af_ashowinfo.c:85-86 | `av_adler32_update(adler, data, len)`: once a byte has been absorbed, or from a seed whose halves are already below 65521, both halves of the result are below 65521 |
| `Adler32.FoldAppend` | libavfilter/af_ashowinfo.c:85-86 | running the byte loop over two buffers in turn equals running it over their concatenation |
| `Adler32.UpdateChain` | libavfilter/af_ashowinfo.c:86 | continuing an update from the checksum of `a` over `b` gives the checksum of `a + b` (the chaining rule of RFC 1950 section 2.2) |
| `Adler32.UpdateEmpty` | libavfilter/af_ashowinfo.c:74 | an update over zero bytes returns its seed, so an aggregate that is never updated stays 0 |
| `Adler32.FoldClosedForm` | libavfilter/af_ashowinfo.c:85-86 | after a buffer, s1 is the seed's s1 plus the byte sum, and s2 is the seed's s2 plus the length times the seed's s1 plus the weighted byte sum, all mod 65521 |
| `Adler32.UpdateFromZero` | libavfilter/af_ashowinfo.c:85 | from the seed 0 the filter uses, a plane's checksum is (weighted sum mod 65521) * 65536 + (byte sum mod 65521) |
| `Hex.DigitChar` | libavfilter/af_ashowinfo.c:96 | each value 0..15 is written as one upper-case hex digit that reads back as the same value |
| `Hex.Render` | libavfilter/af_ashowinfo.c:96 | a fixed-width rendering has exactly the requested number of characters, all upper-case hex digits |
| `Hex.ValueOfRender` | libavfilter/af_ashowinfo.c:96 | a number that fits the width reads back from its rendering |
| `Hex.RenderOfValue` | libavfilter/af_ashowinfo.c:96 | every digit string is the rendering of its own value at its own width, so the rendering is unique |
| `Hex.RenderPadsWithZeros` | libavfilter/af_ashowinfo.c:96 | a number that fits k digits is preceded by '0' in every position before its last k |
| `Hex.Hex8` | libavfilter/af_ashowinfo.c:96 | `%08X` always yields exactly 8 upper-case hex digits |
| `Hex.ParseHex8` | libavfilter/af_ashowinfo.c:96 | a string parses as a checksum exactly when it is 8 upper-case hex digits |
| `Hex.ParseOfHex8` | libavfilter/af_ashowinfo.c:96 | the 8 digits of a checksum decode to the same 32-bit value |
| `Hex.Hex8OfParse` | libavfilter/af_ashowinfo.c:96 | any 8-digit string is the `%08X` rendering of the value it parses to |
| `Hex.Hex8LeadingZeros` | libavfilter/af_ashowinfo.c:96 | a checksum below 16^k has at least 8 - k leading zeros (zero padding) |
| `ReportText.ChecksumField` | libavfilter/af_ashowinfo.c:96-100 | the aggregate field is `checksum:`, then 8 digits that decode to the aggregate, then a space |
| `ReportText.Entries` | libavfilter/af_ashowinfo.c:103-104 | the plane list spends exactly 9 characters per plane |
| `ReportText.PlaneLine` | libavfilter/af_ashowinfo.c:102-105 | the plane list that follows the checksum field on the same line opens with `plane_checksums: [ `, spends 9 characters per plane and closes with `]\n` |
| `ReportText.EntryAt` | libavfilter/af_ashowinfo.c:103-104 | entry i of the plane list sits at offset 9i, holds the `%08X` of plane i and ends with a space |
| `ReportText.ParseOfEntries` | libavfilter/af_ashowinfo.c:103-104 | the plane list decodes to exactly the listed checksums, in order |
| `ReportText.ParseOfPlaneLine` | libavfilter/af_ashowinfo.c:102-105 | the `plane_checksums: [ ... ]` list decodes to the plane checksums in ascending plane order |
| `ReportText.PlaneLineEntry` | libavfilter/af_ashowinfo.c:102-105 | the plane list's length is the prefix, 9 characters per plane and `]\n`, and plane i's digits sit right after the prefix at offset 9i |
| `ReportText.ChecksumTailIsOneLine` | libavfilter/af_ashowinfo.c:94-105 | the checksum field and the plane list form one line: the closing `]\n` holds the only newline, and it is the last character |
| `ReportText.ParseOfChecksumTail` | libavfilter/af_ashowinfo.c:96-105 | the checksum field followed by the plane list reads back to the aggregate and the plane checksums, in plane order |
| `AShowInfo.ConfigInput` | libavfilter/af_ashowinfo.c:52-61 | a failed allocation returns AVERROR(ENOMEM) and leaves the scratch pointer NULL; otherwise it returns 0 with exactly `channels` slots; the frame counter is unchanged either way |
| `AShowInfo.Uninit` | libavfilter/af_ashowinfo.c:63-67 | teardown frees the scratch array (the pointer becomes NULL) and keeps the counter |
| `AShowInfo.UninitIdempotent` | libavfilter/af_ashowinfo.c:63-67 | tearing down twice is the same as tearing down once |
| `AShowInfo.BlockAlign` | libavfilter/af_ashowinfo.c:77 | planes times `block_align` is `channels * bytes_per_sample`: one sample of every channel, whether planar or packed |
| `AShowInfo.DataSize` | libavfilter/af_ashowinfo.c:78 | planes times `data_size` is `nb_samples * channels * bytes_per_sample`: the planes together hold every sample of every channel |
| `AShowInfo.PlaneData` | libavfilter/af_ashowinfo.c:83-85 | the checksummed part of each plane is exactly `data_size` bytes |
| `AShowInfo.PlaneChecksums` | libavfilter/af_ashowinfo.c:82-85 | there is one plane checksum per plane |
| `AShowInfo.Chain` | libavfilter/af_ashowinfo.c:82-88 | the aggregate as the loop builds it (plane 0's checksum, then the update continued over each later plane) always has both halves below 65521 |
| `AShowInfo.ChainIsJoined` | libavfilter/af_ashowinfo.c:82-88 | the aggregate after k planes (plane 0's checksum, then chained updates) equals one update from 0 over planes 0..k-1 concatenated in order |
| `AShowInfo.JoinedLength` | libavfilter/af_ashowinfo.c:78-88 | the first k planes contribute `data_size` bytes each to the aggregate |
| `AShowInfo.PlaneBytes` | libavfilter/af_ashowinfo.c:77-79 | planes times `block_align * nb_samples` is `nb_samples * channels * bytes_per_sample` for both planar and packed formats |
| `AShowInfo.JoinedCoversAllSamples` | libavfilter/af_ashowinfo.c:75-79 | with `block_align`, `data_size` and `planes` as derived, the concatenated planes the aggregate covers hold `nb_samples * channels * bytes_per_sample` bytes |
| `AShowInfo.PlanesWithinChannels` | libavfilter/af_ashowinfo.c:79 | `planes <= channels` holds exactly when the format is planar or has at least one channel |
| `AShowInfo.ConfiguredFrameFits` | libavfilter/af_ashowinfo.c:55-85 | after a successful configuration, a frame with the configured channel count has all its plane slots inside the scratch array, unless it is packed with no channels |
| `AShowInfo.FilterFrame` | libavfilter/af_ashowinfo.c:69-109 | the report shows the counter before the increment and the frame's own pts, sample rate and sample count; the counter advances by exactly one modulo 2^64; the same frame is forwarded; the scratch array keeps its size |
| `AShowInfo.FilterFrameChecksums` | libavfilter/af_ashowinfo.c:82-104 | the aggregate is one update from 0 over all planes concatenated; plane i's checksum is one update from 0 over plane i alone; the report lists them in plane order; only scratch slots 0..planes-1 change |
| `AShowInfo.FilterFrameAggregate` | libavfilter/af_ashowinfo.c:74-88 | the aggregate a frame reports is one update from 0 over all its planes concatenated in plane order |
| `AShowInfo.FilterFrameSlots` | libavfilter/af_ashowinfo.c:82-85 | plane i's checksum is one update from 0 over plane i alone, it lands in scratch slot i and in the report at position i, and slots from `planes` on keep their values |
| `AShowInfo.ChecksumLoop` | libavfilter/af_ashowinfo.c:82-88 | the loop as written writes slot i with plane i's checksum for i < planes, leaves every other slot alone, and ends with the aggregate over the concatenated planes |
| `AShowInfo.AggregateOfFewPlanes` | libavfilter/af_ashowinfo.c:74-88 | with one plane the aggregate equals that plane's checksum; with zero planes it stays at its initial 0 |
| `AShowInfo.ReportIgnoresHistory` | libavfilter/af_ashowinfo.c:82-88 | the checksums reported for a frame do not depend on the context, so they do not depend on earlier frames |
| `AShowInfo.PlaneChecksumIsLocal` | libavfilter/af_ashowinfo.c:83-85 | plane i's checksum depends only on the first `data_size` bytes of plane i |
| `AShowInfo.ReportTextDecodes` | libavfilter/af_ashowinfo.c:96-105 | the digits of the printed `checksum:%08X ` field decode to the checksum of the concatenated planes, the printed plane list decodes to the per-plane checksums in order, and the two printed one after the other decode to both together |
| `AShowInfo.Run` | libavfilter/af_ashowinfo.c:69-109 | one report per frame, and the scratch array keeps its size over a run |
| `AShowInfo.TicksAdd` | libavfilter/af_ashowinfo.c:107 | k wrapping `uint64_t` increments add k modulo 2^64 |
| `AShowInfo.RunUnfold` | libavfilter/af_ashowinfo.c:97-107 | a run reports the current counter for its first frame and then continues from the incremented counter |
| `AShowInfo.RunReportAt` | libavfilter/af_ashowinfo.c:97-107 | frame k of a run reports the counter after k wrapping increments |
| `AShowInfo.RunEndTicks` | libavfilter/af_ashowinfo.c:107 | a run leaves the counter after one wrapping increment per frame |
| `AShowInfo.RunTicks` | libavfilter/af_ashowinfo.c:97-107 | frame k of a run reports the counter after k increments, and the run ends after one increment per frame |
| `AShowInfo.RunCounter` | libavfilter/af_ashowinfo.c:97-107 | frame k of a run reports (counter + k) mod 2^64, and the run ends with (counter + frames) mod 2^64 |
| `AShowInfo.FreshRunNumbersFromZero` | libavfilter/af_ashowinfo.c:97-107 | from a freshly configured filter, frame k (counting from 0) reports `n:k`, so the k-th frame counting from 1 reports `n:k-1` |
| `AShowInfo.CounterSurvivesReconfigure` | libavfilter/af_ashowinfo.c:97-107 | configuring again does not reset the counter: the numbering continues from the value before the reconfiguration |

## Left out

- Report text other than the checksums (`av_log` at lines 93-101): the frame number, pts, sample rate and sample count appear in `Report` as integers, not as formatted text. The logging sink itself is left out too.
- `pts_time` (line 97): it is a floating-point product `pts * av_q2d(time_base)`.
- The channel-layout string and the sample-format name (lines 90-91, 98): `av_get_channel_layout_string` and `av_get_sample_fmt_name` are library tables that are not part of this model.
- `av_get_channel_layout_nb_channels`, `av_sample_fmt_is_planar` and `av_get_bytes_per_sample`: their results are taken as inputs. A channel count is at most 64, because it is the population count of a 64-bit mask.
- The optimised `av_adler32_update` of libavutil is not part of this model. The RFC 1950 reference loop stands in for it.
- Memory management: `av_malloc` is an input that either fails or yields a block. The contents of a fresh block are unspecified. They are modelled as zeros and are never read before they are written. A second `config_input` drops the previous block without freeing it. That is a leak, and the model simply replaces the array.
- Filter registration and pad tables (lines 111-137). The return code of `ff_filter_frame` (line 108) is also left out: only "the same frame is forwarded" is modelled.
- Frames that break the framework's guarantees (plane buffers shorter than `data_size`, `int` overflow, or more planes than scratch slots) are excluded by the precondition `CanFilter`. In C these are undefined behaviour, not error returns.
