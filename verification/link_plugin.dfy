/**
  The camera-mirror algorithm link (cameraMirrorLink_algPlugin.c): the
  channel set-up of `AlgorithmLink_CameraMirrorCreate` and the per-call
  buffer handling of `AlgorithmLink_CameraMirrorProcess`, as pure functions
  over an immutable link object.

  The framework's queues become values: the buffers a call takes from the
  previous link are a sequence, and what it puts to output queue 0 and
  releases back are sequences in the result. A forwarded frame carries the
  words `Alg_CameraMirrorProcess`, as written, leaves in it.
 */
module MirrorLink {
  import opened SysTypes
  import opened RowSwaps
  import opened MirrorSpec
  import opened MirrorAlgo

  /** `SYSTEM_BUFFER_TYPE_VIDEO_FRAME` and every other buffer type code. */
  datatype BufferType = VideoFrame | OtherBufferType(code: nat)

  /** The parts of `System_LinkChInfo` the link reads: frame size, first-plane pitch in bytes, data format. */
  datatype ChannelInfo = ChannelInfo(width: UInt32, height: UInt32, pitch: UInt32, format: DataFormat)

  /** A `System_Buffer` with its video frame payload: type, channel, and the words of the first plane. */
  datatype SysBuffer = SysBuffer(bufType: BufferType, chNum: UInt32, frame: seq<Word>)

  /** A queue's `numCh` and channel infos, as `System_linkGetInfo` reports them for the previous link. */
  datatype QueueInfo = QueueInfo(numCh: nat, chInfo: seq<ChannelInfo>)

  /** Per-channel counters of `System_LinkStatistics`. */
  datatype ChannelStats = ChannelStats(inBufRecvCount: nat, inBufProcessCount: nat, outBufCount: nat)

  /** The link counters this plugin updates. */
  datatype LinkStats = LinkStats(newDataCmdCount: nat, inBufErrorCount: nat, chStats: seq<ChannelStats>)

  /** What Create fixes for the life of the link: the number of input channels and their infos. */
  datatype Config = Config(numInputChannels: nat, inputChInfo: seq<ChannelInfo>)

  /** `AlgorithmLink_CameraMirrorObj` without its handles: configuration, output queue info, first-frame latch, counters. */
  datatype LinkObj = LinkObj(config: Config, outputQueue: QueueInfo, isFirstFrameRecv: bool, stats: LinkStats)

  /** One buffer handed back to the previous link, with the drop flag passed alongside it. */
  datatype Release = Release(buffer: SysBuffer, dropped: bool)

  /**
    The result of handling input buffers: the new state, the buffers put to
    output queue 0 (each followed by a new-data command to the next link) and
    the buffers released, in order; or `Halted` when `UTILS_assert` fails.
   */
  datatype Outcome<S> = Running(state: S, forwarded: seq<SysBuffer>, released: seq<Release>) | Halted

  /** Every input channel has its info and its counters. */
  predicate Valid(cfg: Config, st: LinkStats) {
    |cfg.inputChInfo| == cfg.numInputChannels && |st.chStats| == cfg.numInputChannels
  }

  /** The well-formed link object. */
  predicate ValidLink(obj: LinkObj) {
    Valid(obj.config, obj.stats)
  }

  /** All counters zero for `n` channels: the effect taken for `Utils_resetLinkStatistics`. */
  function ZeroStats(n: nat): (st: LinkStats)
    ensures |st.chStats| == n && st.newDataCmdCount == 0 && st.inBufErrorCount == 0
    ensures forall ch :: 0 <= ch < n ==> st.chStats[ch] == ChannelStats(0, 0, 0)
  {
    LinkStats(0, 0, seq(n, _ => ChannelStats(0, 0, 0)))
  }

  /**
    `AlgorithmLink_CameraMirrorCreate`: the link takes the previous link's
    channel count and copies that many channel infos both into its own input
    channel table and into its output queue info; the first-frame latch starts
    clear. The returned status is the one `System_linkGetInfo` gave.
   */
  function Create(prev: QueueInfo, linkInfoStatus: Status): (r: (Status, LinkObj))
    requires prev.numCh <= |prev.chInfo|
    ensures r.0 == linkInfoStatus
    ensures r.1.config.numInputChannels == prev.numCh && r.1.outputQueue.numCh == prev.numCh
    ensures |r.1.config.inputChInfo| == prev.numCh && |r.1.outputQueue.chInfo| == prev.numCh
    ensures forall ch :: 0 <= ch < prev.numCh ==>
      r.1.config.inputChInfo[ch] == prev.chInfo[ch] && r.1.outputQueue.chInfo[ch] == prev.chInfo[ch]
    ensures !r.1.isFirstFrameRecv && ValidLink(r.1)
  {
    var infos := prev.chInfo[..prev.numCh];
    (linkInfoStatus, LinkObj(Config(prev.numCh, infos), QueueInfo(prev.numCh, infos), false, ZeroStats(prev.numCh)))
  }

  /** A buffer is dropped when it is not a video frame or its channel is not an input channel. */
  predicate Dropped(cfg: Config, b: SysBuffer) {
    b.bufType != VideoFrame || b.chNum >= cfg.numInputChannels
  }

  /** An accepted buffer whose channel format is neither YUYV nor YUV420SP trips `UTILS_assert(0)`. */
  predicate Faults(cfg: Config, b: SysBuffer) {
    !Dropped(cfg, b) && b.chNum < |cfg.inputChInfo| && cfg.inputChInfo[b.chNum].format.OtherFormat?
  }

  /** The geometry `Alg_CameraMirrorProcess` computes from a channel's width, height and pitch. */
  function ChannelGeometry(info: ChannelInfo): Geometry {
    AsWritten(info.width, info.height, info.pitch)
  }

  /**
    The frame of an accepted YUYV buffer holds every word the algorithm call
    addresses. A frame can fit its buffer and still fail this
    (`MirrorFinding.AsWrittenLeavesBuffer`); such calls write outside the
    buffer and are not modelled.
   */
  predicate FrameFitsBuffer(cfg: Config, b: SysBuffer) {
    Dropped(cfg, b) || b.chNum >= |cfg.inputChInfo| || cfg.inputChInfo[b.chNum].format != Yuv422iYuyv ||
    InBounds(ChannelGeometry(cfg.inputChInfo[b.chNum]), |b.frame|)
  }

  /** Every buffer of a call fits. */
  predicate FramesFit(cfg: Config, bs: seq<SysBuffer>) {
    forall i :: 0 <= i < |bs| ==> FrameFitsBuffer(cfg, bs[i])
  }

  /**
    The buffer after the algorithm call: an accepted YUYV frame is flipped
    with the geometry the algorithm computes; anything else keeps its words, the YUV420SP frame included, because the
    `EFAIL` the algorithm returns for it is ignored.
   */
  function Output(cfg: Config, b: SysBuffer): (r: SysBuffer)
    requires FrameFitsBuffer(cfg, b)
    ensures r.bufType == b.bufType && r.chNum == b.chNum && |r.frame| == |b.frame|
    ensures multiset(r.frame) == multiset(b.frame)
  {
    if !Dropped(cfg, b) && b.chNum < |cfg.inputChInfo| && cfg.inputChInfo[b.chNum].format == Yuv422iYuyv then
      FlipPermutes(b.frame, ChannelGeometry(cfg.inputChInfo[b.chNum]));
      b.(frame := Flip(b.frame, ChannelGeometry(cfg.inputChInfo[b.chNum])))
    else b
  }

  /** The receive counter of the buffer's channel, raised for every buffer whose channel exists, before any check. */
  function CountReceived(cfg: Config, st: LinkStats, b: SysBuffer): LinkStats
    requires Valid(cfg, st)
  {
    if b.chNum < cfg.numInputChannels then
      var c := st.chStats[b.chNum];
      st.(chStats := st.chStats[b.chNum := c.(inBufRecvCount := c.inBufRecvCount + 1)])
    else st
  }

  /** The process and output counters of channel `ch`, raised after the algorithm call on an accepted buffer. */
  function CountProcessed(st: LinkStats, ch: nat): LinkStats
    requires ch < |st.chStats|
  {
    var c := st.chStats[ch];
    st.(chStats := st.chStats[ch := c.(inBufProcessCount := c.inBufProcessCount + 1, outBufCount := c.outBufCount + 1)])
  }

  /** 1 when `c` holds, else 0. */
  function Ind(c: bool): nat {
    if c then 1 else 0
  }

  /**
    One iteration of the buffer loop of `AlgorithmLink_CameraMirrorProcess`.
    The buffer is released exactly once with its drop flag; a dropped buffer
    raises the error counter, an accepted one is flipped, counted as
    processed and output on its channel, and forwarded. The receive counter
    moves for every buffer on an existing channel. An accepted buffer of an
    unsupported format halts the link.
   */
  function HandleBuffer(cfg: Config, st: LinkStats, b: SysBuffer): (o: Outcome<LinkStats>)
    requires Valid(cfg, st) && FrameFitsBuffer(cfg, b)
    ensures o.Halted? <==> Faults(cfg, b)
    ensures o.Running? ==>
      Valid(cfg, o.state) &&
      o.released == [Release(Output(cfg, b), Dropped(cfg, b))] &&
      o.forwarded == (if Dropped(cfg, b) then [] else [Output(cfg, b)]) &&
      o.state.newDataCmdCount == st.newDataCmdCount &&
      o.state.inBufErrorCount == st.inBufErrorCount + Ind(Dropped(cfg, b))
    ensures o.Running? ==> forall ch :: 0 <= ch < cfg.numInputChannels ==>
      o.state.chStats[ch].inBufRecvCount == st.chStats[ch].inBufRecvCount + Ind(b.chNum == ch) &&
      o.state.chStats[ch].inBufProcessCount == st.chStats[ch].inBufProcessCount + Ind(b.chNum == ch && !Dropped(cfg, b)) &&
      o.state.chStats[ch].outBufCount == st.chStats[ch].outBufCount + Ind(b.chNum == ch && !Dropped(cfg, b))
  {
    var received := CountReceived(cfg, st, b);
    if Dropped(cfg, b) then
      Running(received.(inBufErrorCount := received.inBufErrorCount + 1), [], [Release(b, true)])
    else if cfg.inputChInfo[b.chNum].format.OtherFormat? then
      Halted
    else
      var out := Output(cfg, b);
      Running(CountProcessed(received, b.chNum), [out], [Release(out, false)])
  }

  /** The buffer loop over the whole input list, in order; a halt ends the call. */
  function HandleAll(cfg: Config, st: LinkStats, bs: seq<SysBuffer>): (o: Outcome<LinkStats>)
    requires Valid(cfg, st) && FramesFit(cfg, bs)
    ensures o.Running? ==> Valid(cfg, o.state) && o.state.newDataCmdCount == st.newDataCmdCount
    decreases |bs|
  {
    if |bs| == 0 then Running(st, [], [])
    else
      match HandleBuffer(cfg, st, bs[0])
      case Halted => Halted
      case Running(st1, f1, r1) =>
        match HandleAll(cfg, st1, bs[1..])
        case Halted => Halted
        case Running(st2, f2, r2) => Running(st2, f1 + f2, r1 + r2)
  }

  /** Number of dropped buffers in a list. */
  function DropCount(cfg: Config, bs: seq<SysBuffer>): nat {
    if |bs| == 0 then 0 else Ind(Dropped(cfg, bs[0])) + DropCount(cfg, bs[1..])
  }

  /** Number of buffers of a list on channel `ch`. */
  function ChannelCount(bs: seq<SysBuffer>, ch: nat): nat {
    if |bs| == 0 then 0 else Ind(bs[0].chNum == ch) + ChannelCount(bs[1..], ch)
  }

  /** Number of accepted buffers of a list on channel `ch`. */
  function AcceptedCount(cfg: Config, bs: seq<SysBuffer>, ch: nat): nat {
    if |bs| == 0 then 0 else Ind(bs[0].chNum == ch && !Dropped(cfg, bs[0])) + AcceptedCount(cfg, bs[1..], ch)
  }

  /** The buffers of the releases not flagged as dropped, in order. */
  function Kept(rs: seq<Release>): seq<SysBuffer> {
    if |rs| == 0 then [] else (if rs[0].dropped then [] else [rs[0].buffer]) + Kept(rs[1..])
  }

  /** The call halts exactly when some accepted buffer has an unsupported format. */
  lemma {:induction false} HandleAllHalts(cfg: Config, st: LinkStats, bs: seq<SysBuffer>)
    requires Valid(cfg, st) && FramesFit(cfg, bs)
    ensures HandleAll(cfg, st, bs).Halted? <==> exists i :: 0 <= i < |bs| && Faults(cfg, bs[i])
    decreases |bs|
  {
    if |bs| > 0 {
      var o := HandleBuffer(cfg, st, bs[0]);
      if o.Running? {
        HandleAllHalts(cfg, o.state, bs[1..]);
        if exists i :: 0 <= i < |bs| && Faults(cfg, bs[i]) {
          var i :| 0 <= i < |bs| && Faults(cfg, bs[i]);
          assert i > 0 && Faults(cfg, bs[1..][i - 1]);
        }
        if exists i :: 0 <= i < |bs[1..]| && Faults(cfg, bs[1..][i]) {
          var i :| 0 <= i < |bs[1..]| && Faults(cfg, bs[1..][i]);
          assert Faults(cfg, bs[i + 1]);
        }
      }
    }
  }

  /**
    Every input buffer is released exactly once, in input order, with the drop
    flag of its own check and the words the algorithm left in it.
   */
  lemma {:induction false} HandleAllReleases(cfg: Config, st: LinkStats, bs: seq<SysBuffer>)
    requires Valid(cfg, st) && FramesFit(cfg, bs)
    ensures var o := HandleAll(cfg, st, bs);
      o.Running? ==> (|o.released| == |bs| &&
        forall i :: 0 <= i < |bs| ==> o.released[i] == Release(Output(cfg, bs[i]), Dropped(cfg, bs[i])))
    decreases |bs|
  {
    if |bs| > 0 {
      var o1 := HandleBuffer(cfg, st, bs[0]);
      if o1.Running? {
        HandleAllReleases(cfg, o1.state, bs[1..]);
        var o := HandleAll(cfg, st, bs);
        if o.Running? {
          var rest := HandleAll(cfg, o1.state, bs[1..]);
          assert o.released == o1.released + rest.released;
          forall i | 1 <= i < |bs|
            ensures o.released[i] == Release(Output(cfg, bs[i]), Dropped(cfg, bs[i]))
          {
            assert o.released[i] == rest.released[i - 1];
            assert bs[1..][i - 1] == bs[i];
          }
        }
      }
    }
  }

  /** The forwarded buffers are exactly the released buffers whose drop flag is clear, in the same order. */
  lemma {:induction false} HandleAllForwards(cfg: Config, st: LinkStats, bs: seq<SysBuffer>)
    requires Valid(cfg, st) && FramesFit(cfg, bs)
    ensures var o := HandleAll(cfg, st, bs);
      o.Running? ==> o.forwarded == Kept(o.released) && |o.forwarded| + DropCount(cfg, bs) == |bs|
    decreases |bs|
  {
    if |bs| > 0 {
      var o1 := HandleBuffer(cfg, st, bs[0]);
      if o1.Running? {
        HandleAllForwards(cfg, o1.state, bs[1..]);
        var o := HandleAll(cfg, st, bs);
        if o.Running? {
          var rest := HandleAll(cfg, o1.state, bs[1..]);
          KeptAppend(o1.released, rest.released);
        }
      }
    }
  }

  /** `Kept` of a one-release prefix. */
  lemma KeptAppend(r1: seq<Release>, r2: seq<Release>)
    requires |r1| == 1
    ensures Kept(r1 + r2) == Kept(r1) + Kept(r2)
  {
    assert (r1 + r2)[1..] == r2;
  }

  /** Over a call, the error counter grows by the number of dropped buffers. */
  lemma {:induction false} HandleAllErrorCount(cfg: Config, st: LinkStats, bs: seq<SysBuffer>)
    requires Valid(cfg, st) && FramesFit(cfg, bs)
    ensures var o := HandleAll(cfg, st, bs);
      o.Running? ==> o.state.inBufErrorCount == st.inBufErrorCount + DropCount(cfg, bs)
    decreases |bs|
  {
    if |bs| > 0 {
      var o1 := HandleBuffer(cfg, st, bs[0]);
      if o1.Running? {
        HandleAllErrorCount(cfg, o1.state, bs[1..]);
      }
    }
  }

  /**
    Over a call, channel `ch`'s receive counter grows by the number of its
    buffers, and its process and output counters by the number of its
    accepted buffers.
   */
  lemma {:induction false} HandleAllChannelCounts(cfg: Config, st: LinkStats, bs: seq<SysBuffer>, ch: nat)
    requires Valid(cfg, st) && FramesFit(cfg, bs) && ch < cfg.numInputChannels
    ensures var o := HandleAll(cfg, st, bs);
      o.Running? ==>
        o.state.chStats[ch].inBufRecvCount == st.chStats[ch].inBufRecvCount + ChannelCount(bs, ch) &&
        o.state.chStats[ch].inBufProcessCount == st.chStats[ch].inBufProcessCount + AcceptedCount(cfg, bs, ch) &&
        o.state.chStats[ch].outBufCount == st.chStats[ch].outBufCount + AcceptedCount(cfg, bs, ch)
    decreases |bs|
  {
    if |bs| > 0 {
      var o1 := HandleBuffer(cfg, st, bs[0]);
      if o1.Running? {
        HandleAllChannelCounts(cfg, o1.state, bs[1..], ch);
      }
    }
  }

  /**
    `AlgorithmLink_CameraMirrorProcess`: the new-data command is counted on
    every call; an empty input list changes nothing else. The first call with
    buffers sets the first-frame latch and resets the statistics (after the
    command was counted) before the buffers are handled; later calls keep the
    latch set and count on top of the current statistics.
   */
  function Process(obj: LinkObj, bs: seq<SysBuffer>): (o: Outcome<LinkObj>)
    requires ValidLink(obj) && FramesFit(obj.config, bs)
    ensures o.Running? ==> ValidLink(o.state) && o.state.config == obj.config && o.state.outputQueue == obj.outputQueue
    ensures o.Running? ==> o.state.isFirstFrameRecv == (obj.isFirstFrameRecv || |bs| > 0)
    ensures |bs| == 0 ==> o == Running(obj.(stats := obj.stats.(newDataCmdCount := obj.stats.newDataCmdCount + 1)), [], [])
  {
    if |bs| == 0 then
      Running(obj.(stats := obj.stats.(newDataCmdCount := obj.stats.newDataCmdCount + 1)), [], [])
    else
      match HandleAll(obj.config, ProcessStart(obj), bs)
      case Halted => Halted
      case Running(st, f, r) => Running(obj.(isFirstFrameRecv := true, stats := st), f, r)
  }

  /**
    After a call that does not trip the latch, the command counter has grown
    by one and the error counter by the number of dropped buffers. On the call
    that trips it, both start again from the reset: the command counter is 0
    and the error counter is the number of dropped buffers of that call.
   */
  lemma ProcessCounters(obj: LinkObj, bs: seq<SysBuffer>)
    requires ValidLink(obj) && FramesFit(obj.config, bs)
    ensures var o := Process(obj, bs);
      o.Running? ==>
        (obj.isFirstFrameRecv || |bs| == 0 ==>
          o.state.stats.newDataCmdCount == obj.stats.newDataCmdCount + 1 &&
          o.state.stats.inBufErrorCount == obj.stats.inBufErrorCount + DropCount(obj.config, bs)) &&
        (!obj.isFirstFrameRecv && |bs| > 0 ==>
          o.state.stats.newDataCmdCount == 0 &&
          o.state.stats.inBufErrorCount == DropCount(obj.config, bs))
  {
    if |bs| > 0 {
      var start := ProcessStart(obj);
      HandleAllErrorCount(obj.config, start, bs);
      ProcessHandles(obj, bs);
    }
  }

  /** The statistics the buffer loop starts from: the counted command, or the reset on the latching call. */
  function ProcessStart(obj: LinkObj): (st: LinkStats)
    requires ValidLink(obj)
    ensures Valid(obj.config, st)
    ensures obj.isFirstFrameRecv ==> st == obj.stats.(newDataCmdCount := obj.stats.newDataCmdCount + 1)
    ensures !obj.isFirstFrameRecv ==> st == ZeroStats(obj.config.numInputChannels)
  {
    if obj.isFirstFrameRecv then obj.stats.(newDataCmdCount := obj.stats.newDataCmdCount + 1)
    else ZeroStats(obj.config.numInputChannels)
  }

  /** A call with buffers is the buffer loop run from `ProcessStart`. */
  lemma ProcessHandles(obj: LinkObj, bs: seq<SysBuffer>)
    requires ValidLink(obj) && FramesFit(obj.config, bs) && |bs| > 0
    ensures var h := HandleAll(obj.config, ProcessStart(obj), bs);
      Process(obj, bs) == if h.Halted? then Halted else Running(obj.(isFirstFrameRecv := true, stats := h.state), h.forwarded, h.released)
  {
  }

  /** A call releases every input buffer once, with its drop flag, and forwards exactly the kept ones. */
  lemma ProcessReleasesAll(obj: LinkObj, bs: seq<SysBuffer>)
    requires ValidLink(obj) && FramesFit(obj.config, bs)
    ensures Process(obj, bs).Halted? <==> exists i :: 0 <= i < |bs| && Faults(obj.config, bs[i])
    ensures var o := Process(obj, bs);
      o.Running? ==> (|o.released| == |bs| && o.forwarded == Kept(o.released) &&
        forall i :: 0 <= i < |bs| ==> o.released[i] == Release(Output(obj.config, bs[i]), Dropped(obj.config, bs[i])))
  {
    if |bs| > 0 {
      var start := ProcessStart(obj);
      HandleAllHalts(obj.config, start, bs);
      HandleAllReleases(obj.config, start, bs);
      HandleAllForwards(obj.config, start, bs);
      ProcessHandles(obj, bs);
    }
  }

  /**
    What the algorithm leaves in a buffer: type and channel never change, and
    every buffer other than an accepted YUYV frame keeps its words. An
    accepted YUYV frame keeps its multiset of words; when no two rows the call
    addresses share a word, each pair of rows is exchanged; and when the pitch
    is exactly one row and the frame stays below 2^32 words, the frame is
    vertically mirrored with every word outside its rows kept.
   */
  lemma OutputMirrors(cfg: Config, b: SysBuffer)
    requires FrameFitsBuffer(cfg, b)
    ensures Output(cfg, b).bufType == b.bufType && Output(cfg, b).chNum == b.chNum
    ensures |Output(cfg, b).frame| == |b.frame|
    ensures (Dropped(cfg, b) || b.chNum >= |cfg.inputChInfo| || cfg.inputChInfo[b.chNum].format != Yuv422iYuyv)
      ==> Output(cfg, b).frame == b.frame
    ensures multiset(Output(cfg, b).frame) == multiset(b.frame)
    ensures !Dropped(cfg, b) && b.chNum < |cfg.inputChInfo| && cfg.inputChInfo[b.chNum].format == Yuv422iYuyv ==>
      var g := ChannelGeometry(cfg.inputChInfo[b.chNum]);
      RowsApart(g) ==> AllPairsExchanged(b.frame, Output(cfg, b).frame, g.Rows(), g.wordWidth)
    ensures !Dropped(cfg, b) && b.chNum < |cfg.inputChInfo| && cfg.inputChInfo[b.chNum].format == Yuv422iYuyv ==>
      var info := cfg.inputChInfo[b.chNum];
      var g := ChannelGeometry(info);
      g.stride == g.wordWidth && info.height * g.wordWidth < TWO_32 && FrameFits(g, |b.frame|) ==>
        RowsMirrored(b.frame, Output(cfg, b).frame, g) &&
        forall k :: 0 <= k < |b.frame| && OutsideFrame(g, k) ==> Output(cfg, b).frame[k] == b.frame[k]
  {
    if !Dropped(cfg, b) && b.chNum < |cfg.inputChInfo| && cfg.inputChInfo[b.chNum].format == Yuv422iYuyv {
      var info := cfg.inputChInfo[b.chNum];
      var g := ChannelGeometry(info);
      FlipPermutes(b.frame, g);
      if RowsApart(g) {
        FlipExchangesPairs(b.frame, g);
      }
      if g.stride == g.wordWidth && info.height * g.wordWidth < TWO_32 && FrameFits(g, |b.frame|) {
        PackedStartsAtLastRow(info.width, info.height, info.pitch);
        FlipMirrors(b.frame, g);
      }
    }
  }

  /** The control commands the link tells apart. */
  datatype ControlCmd = PrintStatistics | OtherCommand(code: nat)

  /** A call that either returns a status or stops at a failed `UTILS_assert`. */
  datatype Checked = Returned(status: Status) | AssertFailed

  /**
    `AlgorithmLink_CameraMirrorControl`: statistics printing, or the command
    passed on to the algorithm, whose status is returned. Either way the
    link reports success.
   */
  function Control(cmd: ControlCmd): (s: Status)
    ensures s == Sok
  {
    match cmd
    case PrintStatistics => Sok
    case OtherCommand(_) => AlgControl()
  }

  /**
    `AlgorithmLink_CameraMirrorDelete`: the statistics collector is released
    (its status comes from the framework) and must report 0, then the
    algorithm is deleted and must report success. Only the first check can
    fail, and otherwise the link reports success.
   */
  function Delete(collectorStatus: int): (r: Checked)
    ensures r.AssertFailed? <==> collectorStatus != 0
    ensures r.Returned? ==> r.status == Sok
  {
    if collectorStatus != 0 then AssertFailed
    else if AlgDelete() != Sok then AssertFailed
    else Returned(Sok)
  }

  /** The cache region invalidated before and written back after the algorithm call: `height * pitch` bytes, in `UInt32` arithmetic. */
  function CacheRegionBytes(info: ChannelInfo): (n: UInt32) {
    (info.height * info.pitch) % TWO_32
  }

  /**
    When the frame's size in bytes stays below 2^32 and its pitch covers a
    row, the cache region of the channel holds every row of the frame and
    every word the algorithm call reads or writes in a buffer where the call
    stays in bounds.
   */
  lemma CacheRegionCoversMirror(info: ChannelInfo, bufWords: nat)
    requires info.height * info.pitch < TWO_32
    requires ChannelGeometry(info).wordWidth <= ChannelGeometry(info).stride
    requires InBounds(ChannelGeometry(info), bufWords)
    ensures FrameFits(ChannelGeometry(info), CacheRegionBytes(info) / 4)
    ensures InBounds(ChannelGeometry(info), CacheRegionBytes(info) / 4)
  {
    var g := ChannelGeometry(info);
    var n := CacheRegionBytes(info) / 4;
    CacheWordsCoverStrides(info.height, info.pitch);
    FrameFitsWithin(g, n);
    var rows := g.Rows();
    forall r | 0 <= r < |rows| && g.wordWidth > 0
      ensures 0 <= rows[r].top && rows[r].top + g.wordWidth <= n
      ensures 0 <= rows[r].bot && rows[r].bot + g.wordWidth <= n
    {
      assert rows[r] == RowPair(g.Top(r), g.Bot(r));
      CacheRowEnds(info, n, r);
    }
  }

  /** Both rows of pair `r`, as the algorithm computes them, end within `n` words when `height` strides do. */
  lemma CacheRowEnds(info: ChannelInfo, n: nat, r: int)
    requires ChannelGeometry(info).wordWidth <= ChannelGeometry(info).stride
    requires Times(info.height, ChannelGeometry(info).stride) <= n < TWO_32
    requires 0 <= r < ChannelGeometry(info).Pairs()
    ensures 0 <= ChannelGeometry(info).Top(r)
    ensures ChannelGeometry(info).Top(r) + ChannelGeometry(info).wordWidth <= n
    ensures ChannelGeometry(info).Bot(r) + ChannelGeometry(info).wordWidth <= n
  {
    var g := ChannelGeometry(info);
    TimesStrideMono(g.height, g.wordWidth, g.stride);
    var hw := Times(g.height, g.wordWidth);
    assert 0 <= hw < TWO_32 && hw % TWO_32 == hw;
    assert g.base == hw - g.wordWidth;
    TimesMono(0, r, g.stride);
    TimesMono(r + 1, g.height, g.stride);
    assert Times(r + 1, g.stride) == Times(r, g.stride) + g.stride;
  }

  /** `h` strides of `p / 4` words fit in the words of `h * p` bytes, when that product fits in 32 bits. */
  lemma CacheWordsCoverStrides(h: nat, p: nat)
    requires h * p < TWO_32
    ensures Times(h, p / 4) <= ((h * p) % TWO_32) / 4
  {
    QuarterStrides(h, p);
    TimesIsProduct(h, p);
  }

  /** Four times `h` steps of `p / 4` stay within `h` steps of `p`. */
  lemma {:induction false} QuarterStrides(h: nat, p: nat)
    ensures 4 * Times(h, p / 4) <= Times(h, p)
  {
    if h > 0 {
      QuarterStrides(h - 1, p);
    }
  }
}
