/**
 * The `ashowinfo` audio filter: a pass-through stage that, for every audio frame,
 * checksums each plane with Adler-32, chains those checksums into one aggregate,
 * reports them with a running frame number and forwards the frame untouched.
 *
 * The filter's private context holds a scratch array of per-plane checksums, sized
 * when the input link is configured, and a 64-bit frame counter. Everything here is
 * a pure function of an immutable context value; each callback returns the next one.
 */
module AShowInfo {
  import opened Common
  import opened Adler32
  import opened Hex
  import opened ReportText

  /** The number of channels of a layout: the population count of a 64-bit mask. */
  type ChannelCount = n: nat | n <= 64

  /** What the filter asks of a sample format: is it planar, how wide is one sample. */
  datatype SampleFormat = SampleFormat(planar: bool, bytesPerSample: nat)

  /**
   * An incoming audio frame: its channel count, sample format, sample count, timestamp,
   * sample rate and one byte buffer per data plane (`extended_data`).
   */
  datatype Frame = Frame(
    channels: ChannelCount,
    format: SampleFormat,
    nbSamples: nat,
    pts: int64,
    sampleRate: int32,
    extendedData: seq<seq<byte>>)

  /** The filter's private context: the scratch checksum array (NULL when absent) and the counter. */
  datatype Context = Context(planeChecksums: Option<seq<uint32>>, frame: uint64)

  /** The private context as the framework hands it over: zero-filled. */
  const Initial: Context := Context(None, 0)

  const ENOMEM: int := 12

  /** Error codes are negated POSIX error numbers. */
  function AVERROR(e: int): int
  {
    -e
  }

  /** Outcome of configuring the input link: the new context and the return code. */
  datatype ConfigResult = ConfigResult(ctx: Context, ret: int)

  /**
   * Configuring the input link allocates a scratch array of one slot per channel; the
   * allocator is modelled by `allocFails`. A failed allocation leaves the scratch pointer
   * NULL and reports out of memory. The frame counter is never touched. The contents of
   * a fresh allocation are unspecified; they are modelled as zeros and never read.
   */
  function ConfigInput(c: Context, channels: ChannelCount, allocFails: bool): (r: ConfigResult)
    ensures r.ctx.frame == c.frame
    ensures allocFails ==> r.ret == AVERROR(ENOMEM) && r.ctx.planeChecksums.None?
    ensures !allocFails ==> r.ret == 0 && r.ctx.planeChecksums.Some?
                            && |r.ctx.planeChecksums.value| == channels
  {
    if allocFails then
      ConfigResult(Context(None, c.frame), AVERROR(ENOMEM))
    else
      ConfigResult(Context(Some(seq(channels, _ => 0)), c.frame), 0)
  }

  /** Tearing the filter down frees the scratch array; the counter is left as it was. */
  function Uninit(c: Context): (r: Context)
    ensures r.planeChecksums.None?
    ensures r.frame == c.frame
  {
    Context(None, c.frame)
  }

  /** Freeing twice is the same as freeing once: the pointer is reset to NULL. */
  lemma UninitIdempotent(c: Context)
    ensures Uninit(Uninit(c)) == Uninit(c)
  {
  }

  /** Bytes per sample frame in one plane: one sample if planar, one per channel if packed. */
  function BlockAlign(f: Frame): (b: nat)
    ensures Planes(f) * b == f.channels * f.format.bytesPerSample
  {
    var b := f.format.bytesPerSample * (if f.format.planar then 1 else f.channels);
    assert Planes(f) * b == f.channels * f.format.bytesPerSample by {
      if f.format.planar {
        assert b == f.format.bytesPerSample;
      } else {
        assert b == f.format.bytesPerSample * f.channels;
      }
    }
    b
  }

  /** Bytes checksummed in each plane; all planes together hold every sample of every channel. */
  function DataSize(f: Frame): (d: nat)
    ensures Planes(f) * d == f.nbSamples * f.channels * f.format.bytesPerSample
  {
    var d := f.nbSamples * BlockAlign(f);
    PlaneBytes(f.format.planar, f.channels, f.nbSamples, f.format.bytesPerSample);
    d
  }

  /** Number of data planes: one per channel if planar, a single interleaved one if packed. */
  function Planes(f: Frame): (p: nat)
  {
    if f.format.planar then f.channels else 1
  }

  /**
   * What the framework guarantees of a frame: the `int` quantities of the code do not
   * overflow and every plane holds at least `DataSize` bytes.
   */
  predicate WellFormed(f: Frame)
  {
    && f.nbSamples <= INT_MAX
    && BlockAlign(f) <= INT_MAX
    && DataSize(f) <= INT_MAX
    && Planes(f) <= |f.extendedData|
    && forall i | 0 <= i < Planes(f) :: DataSize(f) <= |f.extendedData[i]|
  }

  /** The bytes of plane `i` that are checksummed. */
  function PlaneData(f: Frame, i: nat): (d: seq<byte>)
    requires WellFormed(f) && i < Planes(f)
    ensures |d| == DataSize(f)
  {
    f.extendedData[i][..DataSize(f)]
  }

  /** The checksummed bytes of planes 0..k-1 laid end to end, in plane order. */
  function Joined(f: Frame, k: nat): (d: seq<byte>)
    requires WellFormed(f) && k <= Planes(f)
    decreases k
  {
    if k == 0 then [] else Joined(f, k - 1) + PlaneData(f, k - 1)
  }

  /** Each plane's checksum, from seed 0, independent of every other plane. */
  function PlaneChecksums(f: Frame): (cs: seq<uint32>)
    requires WellFormed(f)
    ensures |cs| == Planes(f)
  {
    seq(Planes(f), i requires 0 <= i < Planes(f) => Update(0, PlaneData(f, i)))
  }

  /**
   * The aggregate after the first `k` planes, as the code builds it: plane 0's own
   * checksum, then the update continued over each later plane. Whatever the planes
   * hold, both halves of the aggregate stay below 65521.
   */
  function Chain(f: Frame, k: nat): (r: uint32)
    requires WellFormed(f) && k <= Planes(f)
    ensures Reduced(Unpack(r))
    decreases k
  {
    if k == 0 then 0
    else if k == 1 then Update(0, PlaneData(f, 0))
    else Update(Chain(f, k - 1), PlaneData(f, k - 1))
  }

  /** The aggregate is one checksum over all planes' bytes concatenated in plane order. */
  lemma {:induction false} ChainIsJoined(f: Frame, k: nat)
    requires WellFormed(f) && k <= Planes(f)
    ensures Chain(f, k) == Update(0, Joined(f, k))
    decreases k
  {
    if k == 0 {
      UpdateEmpty(0);
    } else if k == 1 {
      assert Joined(f, 1) == [] + PlaneData(f, 0);
      assert [] + PlaneData(f, 0) == PlaneData(f, 0);
    } else {
      ChainIsJoined(f, k - 1);
      UpdateChain(0, Joined(f, k - 1), PlaneData(f, k - 1));
      assert Joined(f, k) == Joined(f, k - 1) + PlaneData(f, k - 1);
    }
  }

  /** The concatenated planes hold `nb_samples * channels * bytes_per_sample` bytes. */
  lemma JoinedCoversAllSamples(f: Frame)
    requires WellFormed(f)
    ensures |Joined(f, Planes(f))| == f.nbSamples * f.channels * f.format.bytesPerSample
  {
    JoinedLength(f, Planes(f));
  }

  /** Planes times bytes per plane is samples times channels times sample width, either way. */
  lemma PlaneBytes(planar: bool, ch: nat, n: nat, b: nat)
    ensures (if planar then ch else 1) * (n * (b * (if planar then 1 else ch))) == n * ch * b
  {
    if planar {
      assert ch * (n * b) == n * ch * b;
    } else {
      assert n * (b * ch) == n * ch * b;
    }
  }

  /** Planes 0..k-1 contribute `DataSize` bytes each. */
  lemma {:induction false} JoinedLength(f: Frame, k: nat)
    requires WellFormed(f) && k <= Planes(f)
    ensures |Joined(f, k)| == k * DataSize(f)
    decreases k
  {
    if k > 0 {
      JoinedLength(f, k - 1);
    }
  }

  /**
   * The planes fit in the channel count exactly when the format is planar or has at
   * least one channel: a packed zero-channel layout still has one plane.
   */
  lemma PlanesWithinChannels(f: Frame)
    ensures Planes(f) <= f.channels <==> (f.format.planar || f.channels >= 1)
  {
  }

  /** Preconditions of the frame callback: configured scratch large enough, frame well formed. */
  predicate CanFilter(c: Context, f: Frame)
  {
    c.planeChecksums.Some? && WellFormed(f) && Planes(f) <= |c.planeChecksums.value|
  }

  /**
   * After a successful configuration for `channels` channels, a frame with that many
   * channels has all its plane slots inside the scratch array, unless it is packed with
   * no channel at all.
   */
  lemma ConfiguredFrameFits(c: Context, channels: ChannelCount, f: Frame)
    requires WellFormed(f) && f.channels == channels
    requires f.format.planar || channels >= 1
    ensures CanFilter(ConfigInput(c, channels, false).ctx, f)
  {
    PlanesWithinChannels(f);
  }

  /** The integer fields of one report. */
  datatype Report = Report(
    n: uint64,
    pts: int64,
    sampleRate: int32,
    nbSamples: nat,
    checksum: uint32,
    planeChecksums: seq<uint32>)

  /** What the frame callback produces: the next context, the report and the frame passed on. */
  datatype FrameStep = FrameStep(ctx: Context, report: Report, forwarded: Frame)

  /**
   * The frame callback. It overwrites scratch slots 0..Planes-1 with the plane checksums,
   * reports them together with the aggregate and the counter's value before the
   * increment, bumps the 64-bit counter and forwards the same frame. What the checksums
   * are is stated by `FilterFrameChecksums`.
   */
  function FilterFrame(c: Context, f: Frame): (r: FrameStep)
    requires CanFilter(c, f)
    ensures r.forwarded == f
    ensures r.report.n == c.frame
    ensures r.report.pts == f.pts && r.report.sampleRate == f.sampleRate && r.report.nbSamples == f.nbSamples
    ensures r.ctx.frame == (c.frame + 1) % UINT64_MODULUS
    ensures r.ctx.planeChecksums.Some?
    ensures |r.ctx.planeChecksums.value| == |c.planeChecksums.value|
  {
    var scratch := c.planeChecksums.value;
    var slots := PlaneChecksums(f) + scratch[Planes(f)..];
    FrameStep(
      Context(Some(slots), (c.frame + 1) % UINT64_MODULUS),
      Report(c.frame, f.pts, f.sampleRate, f.nbSamples, Chain(f, Planes(f)), slots[..Planes(f)]),
      f)
  }

  /** The aggregate of one frame callback is one update from seed 0 over all planes in order. */
  lemma FilterFrameAggregate(c: Context, f: Frame)
    requires CanFilter(c, f)
    ensures FilterFrame(c, f).report.checksum == Update(0, Joined(f, Planes(f)))
  {
    ChainIsJoined(f, Planes(f));
  }

  /**
   * Plane `i`'s checksum is one update from seed 0 over that plane alone; it is written to
   * scratch slot `i` and reported in plane order, and the other slots keep their values.
   */
  lemma FilterFrameSlots(c: Context, f: Frame)
    requires CanFilter(c, f)
    ensures |FilterFrame(c, f).report.planeChecksums| == Planes(f)
    ensures forall i | 0 <= i < Planes(f) ::
              FilterFrame(c, f).report.planeChecksums[i] == Update(0, PlaneData(f, i))
    ensures forall i | 0 <= i < Planes(f) ::
              FilterFrame(c, f).ctx.planeChecksums.value[i] == Update(0, PlaneData(f, i))
    ensures forall i | Planes(f) <= i < |c.planeChecksums.value| ::
              FilterFrame(c, f).ctx.planeChecksums.value[i] == c.planeChecksums.value[i]
  {
  }

  /**
   * The checksums of one frame callback: the aggregate is one update from seed 0 over
   * all planes' bytes in plane order, plane `i`'s checksum is one update from seed 0
   * over that plane's bytes alone, the report lists them in plane order, and of the
   * scratch array only slots 0..Planes-1 change.
   */
  lemma FilterFrameChecksums(c: Context, f: Frame)
    requires CanFilter(c, f)
    ensures FilterFrame(c, f).report.checksum == Update(0, Joined(f, Planes(f)))
    ensures |FilterFrame(c, f).report.planeChecksums| == Planes(f)
    ensures forall i | 0 <= i < Planes(f) ::
              FilterFrame(c, f).report.planeChecksums[i] == Update(0, PlaneData(f, i))
    ensures forall i | 0 <= i < Planes(f) ::
              FilterFrame(c, f).ctx.planeChecksums.value[i] == Update(0, PlaneData(f, i))
    ensures forall i | Planes(f) <= i < |c.planeChecksums.value| ::
              FilterFrame(c, f).ctx.planeChecksums.value[i] == c.planeChecksums.value[i]
  {
    FilterFrameAggregate(c, f);
    FilterFrameSlots(c, f);
  }

  /**
   * The checksum loop of the frame callback, statement by statement: each iteration
   * writes one scratch slot and extends the aggregate.
   */
  method ChecksumLoop(scratch: seq<uint32>, f: Frame) returns (slots: seq<uint32>, checksum: uint32)
    requires WellFormed(f) && Planes(f) <= |scratch|
    ensures |slots| == |scratch|
    ensures forall i | 0 <= i < Planes(f) :: slots[i] == Update(0, PlaneData(f, i))
    ensures forall i | Planes(f) <= i < |scratch| :: slots[i] == scratch[i]
    ensures checksum == Update(0, Joined(f, Planes(f)))
  {
    var planes := Planes(f);
    var dataSize := DataSize(f);
    slots := scratch;
    checksum := 0;
    var i := 0;
    while i < planes
      invariant 0 <= i <= planes
      invariant |slots| == |scratch|
      invariant forall j | 0 <= j < i :: slots[j] == Update(0, PlaneData(f, j))
      invariant forall j | i <= j < |scratch| :: slots[j] == scratch[j]
      invariant checksum == Chain(f, i)
    {
      var data := f.extendedData[i][..dataSize];
      assert data == PlaneData(f, i);
      slots := slots[i := Update(0, data)];
      checksum := if i != 0 then Update(checksum, data) else slots[0];
      i := i + 1;
    }
    ChainIsJoined(f, planes);
  }

  /** With a single plane the aggregate is that plane's checksum; with none it stays 0. */
  lemma AggregateOfFewPlanes(c: Context, f: Frame)
    requires CanFilter(c, f)
    ensures Planes(f) == 1 ==> FilterFrame(c, f).report.checksum == FilterFrame(c, f).report.planeChecksums[0]
    ensures Planes(f) == 0 ==> FilterFrame(c, f).report.checksum == 0
  {
    FilterFrameChecksums(c, f);
    if Planes(f) == 1 {
      assert Joined(f, 1) == [] + PlaneData(f, 0);
      assert [] + PlaneData(f, 0) == PlaneData(f, 0);
    } else if Planes(f) == 0 {
      UpdateEmpty(0);
    }
  }

  /** The checksums depend on the frame alone, not on the context or earlier frames. */
  lemma ReportIgnoresHistory(c1: Context, c2: Context, f: Frame)
    requires CanFilter(c1, f) && CanFilter(c2, f)
    ensures FilterFrame(c1, f).report.checksum == FilterFrame(c2, f).report.checksum
    ensures FilterFrame(c1, f).report.planeChecksums == FilterFrame(c2, f).report.planeChecksums
  {
    FilterFrameChecksums(c1, f);
    FilterFrameChecksums(c2, f);
  }

  /** A plane's checksum depends only on that plane's first `DataSize` bytes. */
  lemma PlaneChecksumIsLocal(f: Frame, g: Frame, i: nat)
    requires WellFormed(f) && WellFormed(g) && i < Planes(f) && i < Planes(g)
    requires PlaneData(f, i) == PlaneData(g, i)
    ensures PlaneChecksums(f)[i] == PlaneChecksums(g)[i]
  {
  }

  /** The report text reads back to the aggregate and to the plane checksums in plane order. */
  lemma ReportTextDecodes(c: Context, f: Frame)
    requires CanFilter(c, f)
    ensures var field := ChecksumField(FilterFrame(c, f).report.checksum);
            ParseHex8(field[|ChecksumTag|..|ChecksumTag| + 8]) == Some(Update(0, Joined(f, Planes(f))))
    ensures ParsePlaneLine(PlaneLine(FilterFrame(c, f).report.planeChecksums)) == Some(PlaneChecksums(f))
    ensures var r := FilterFrame(c, f).report;
            ParseChecksumTail(ChecksumTail(r.checksum, r.planeChecksums))
            == Some((Update(0, Joined(f, Planes(f))), PlaneChecksums(f)))
  {
    FilterFrameChecksums(c, f);
    var r := FilterFrame(c, f).report;
    ParseOfPlaneLine(r.planeChecksums);
    ParseOfChecksumTail(r.checksum, r.planeChecksums);
    assert r.planeChecksums == PlaneChecksums(f);
  }

  /** Every frame of a stream is well formed and has at most `slots` planes. */
  predicate FramesFit(slots: nat, fs: seq<Frame>)
    decreases |fs|
  {
    |fs| == 0 || (WellFormed(fs[0]) && Planes(fs[0]) <= slots && FramesFit(slots, fs[1..]))
  }

  /** Every frame of a run fits the context's scratch array. */
  predicate AllFit(c: Context, fs: seq<Frame>)
  {
    c.planeChecksums.Some? && FramesFit(|c.planeChecksums.value|, fs)
  }

  datatype RunResult = RunResult(ctx: Context, reports: seq<Report>)

  /** The frame callback applied to a stream of frames in arrival order. */
  function Run(c: Context, fs: seq<Frame>): (r: RunResult)
    requires AllFit(c, fs)
    ensures |r.reports| == |fs|
    ensures r.ctx.planeChecksums.Some? && |r.ctx.planeChecksums.value| == |c.planeChecksums.value|
    decreases |fs|
  {
    if |fs| == 0 then RunResult(c, [])
    else
      var step := FilterFrame(c, fs[0]);
      var rest := Run(step.ctx, fs[1..]);
      RunResult(rest.ctx, [step.report] + rest.reports)
  }

  /** The counter after `k` increments of `uint64_t` from `a`. */
  function Ticks(a: uint64, k: nat): uint64
    decreases k
  {
    if k == 0 then a else Ticks((a + 1) % UINT64_MODULUS, k - 1)
  }

  /** `k` wrapping increments add `k` modulo 2^64. */
  lemma {:induction false} TicksAdd(a: uint64, k: nat)
    ensures Ticks(a, k) == (a + k) % UINT64_MODULUS
    decreases k
  {
    if k == 0 {
      ModSmall(a);
    } else {
      var b := (a + 1) % UINT64_MODULUS;
      TicksAdd(b, k - 1);
      ModAddU64(a + 1, b, k - 1);
    }
  }

  /** How a non-empty run unfolds: the first report, then the run of the rest. */
  lemma RunUnfold(c: Context, fs: seq<Frame>)
    requires AllFit(c, fs) && |fs| > 0
    ensures FilterFrame(c, fs[0]).ctx.frame == (c.frame + 1) % UINT64_MODULUS
    ensures AllFit(FilterFrame(c, fs[0]).ctx, fs[1..])
    ensures Run(c, fs).reports[0].n == c.frame
    ensures Run(c, fs).reports[1..] == Run(FilterFrame(c, fs[0]).ctx, fs[1..]).reports
    ensures Run(c, fs).ctx == Run(FilterFrame(c, fs[0]).ctx, fs[1..]).ctx
  {
    var step := FilterFrame(c, fs[0]);
    var rest := Run(step.ctx, fs[1..]);
    assert Run(c, fs).reports == [step.report] + rest.reports;
  }

  /** Frame `k` of a run reports the counter after `k` increments. */
  lemma {:induction false} RunReportAt(c: Context, fs: seq<Frame>, k: nat)
    requires AllFit(c, fs) && k < |fs|
    ensures Run(c, fs).reports[k].n == Ticks(c.frame, k)
    decreases k
  {
    RunUnfold(c, fs);
    if k > 0 {
      var next := FilterFrame(c, fs[0]).ctx;
      RunReportAt(next, fs[1..], k - 1);
      assert Run(c, fs).reports[k] == Run(next, fs[1..]).reports[k - 1];
    }
  }

  /** A run leaves the counter incremented once per frame. */
  lemma {:induction false} RunEndTicks(c: Context, fs: seq<Frame>)
    requires AllFit(c, fs)
    ensures Run(c, fs).ctx.frame == Ticks(c.frame, |fs|)
    decreases |fs|
  {
    if |fs| > 0 {
      RunUnfold(c, fs);
      RunEndTicks(FilterFrame(c, fs[0]).ctx, fs[1..]);
    }
  }

  /**
   * Frame `k` of a run reports the counter after `k` increments, and the run leaves the
   * counter incremented once per frame.
   */
  lemma RunTicks(c: Context, fs: seq<Frame>)
    requires AllFit(c, fs)
    ensures forall k | 0 <= k < |fs| :: Run(c, fs).reports[k].n == Ticks(c.frame, k)
    ensures Run(c, fs).ctx.frame == Ticks(c.frame, |fs|)
  {
    forall k | 0 <= k < |fs|
      ensures Run(c, fs).reports[k].n == Ticks(c.frame, k)
    {
      RunReportAt(c, fs, k);
    }
    RunEndTicks(c, fs);
  }

  /**
   * Frame `k` of a run reports the counter plus `k`, and the run advances the counter by
   * the number of frames, all modulo 2^64.
   */
  lemma RunCounter(c: Context, fs: seq<Frame>)
    requires AllFit(c, fs)
    ensures forall k | 0 <= k < |fs| :: Run(c, fs).reports[k].n == (c.frame + k) % UINT64_MODULUS
    ensures Run(c, fs).ctx.frame == (c.frame + |fs|) % UINT64_MODULUS
  {
    RunTicks(c, fs);
    forall k | 0 <= k <= |fs|
      ensures Ticks(c.frame, k) == (c.frame + k) % UINT64_MODULUS
    {
      TicksAdd(c.frame, k);
    }
  }

  /** From a freshly configured filter, frame number k (counting from 0) reports n = k. */
  lemma FreshRunNumbersFromZero(channels: ChannelCount, fs: seq<Frame>)
    requires AllFit(ConfigInput(Initial, channels, false).ctx, fs)
    requires |fs| <= UINT64_MODULUS
    ensures forall k | 0 <= k < |fs| :: Run(ConfigInput(Initial, channels, false).ctx, fs).reports[k].n == k
  {
    var c := ConfigInput(Initial, channels, false).ctx;
    assert c.frame == 0;
    forall k | 0 <= k < |fs|
      ensures Run(c, fs).reports[k].n == k
    {
      RunReportAt(c, fs, k);
      TicksAdd(0, k);
      ModSmall(k);
    }
  }

  /**
   * Reconfiguring does not reset the counter: a run after a new configuration continues
   * numbering from the counter the filter had before it.
   */
  lemma CounterSurvivesReconfigure(c: Context, channels: ChannelCount, fs: seq<Frame>)
    requires AllFit(ConfigInput(c, channels, false).ctx, fs)
    ensures forall k | 0 <= k < |fs| ::
              Run(ConfigInput(c, channels, false).ctx, fs).reports[k].n == (c.frame + k) % UINT64_MODULUS
  {
    var c' := ConfigInput(c, channels, false).ctx;
    assert c'.frame == c.frame;
    forall k | 0 <= k < |fs|
      ensures Run(c', fs).reports[k].n == (c.frame + k) % UINT64_MODULUS
    {
      RunReportAt(c', fs, k);
      TicksAdd(c.frame, k);
    }
  }

  lemma ModSmall(x: nat)
    requires x < UINT64_MODULUS
    ensures x % UINT64_MODULUS == x
  {
  }

  lemma ModAddU64(a: nat, m: nat, k: nat)
    requires m == a % UINT64_MODULUS
    ensures (m + k) % UINT64_MODULUS == (a + k) % UINT64_MODULUS
  {
    var q := a / UINT64_MODULUS;
    assert a + k == q * UINT64_MODULUS + (a % UINT64_MODULUS + k);
  }
}
