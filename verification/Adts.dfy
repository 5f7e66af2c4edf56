/** AAC packets in ADTS framing, Annex 1.A of ISO/IEC 14496-3 (src/audio.rs). */
module Adts {
  import opened Common
  import opened GuestMemory

  const SAMPLE_RATES: seq<nat> :=
    [96000, 88200, 64000, 48000, 44100, 32000, 24000, 22050, 16000, 12000, 11025, 8000, 7350]
  const HEADER_SIZE := 7
  const MAX_FRAME := 0x1FFF

  type Bytes = seq<Byte>

  /** `packetOffsets` has one entry per packet and one for the end. */
  datatype AacPackets = AacPackets(sampleRate: nat, channels: nat, packetBytes: Bytes, packetOffsets: seq<nat>)
  {
    function PacketCount(): nat {
      if packetOffsets == [] then 0 else |packetOffsets| - 1
    }

    /** Offset and size of a packet. */
    function PacketInfo(index: nat): Option<(int, int)> {
      if index + 1 >= |packetOffsets| then None
      else Some((packetOffsets[index] as int, packetOffsets[index + 1] as int - packetOffsets[index]))
    }

    /** The packets lie one after another and make up all the bytes. */
    ghost predicate Tiled() {
      && |packetOffsets| >= 2 && packetOffsets[0] == 0 && packetOffsets[|packetOffsets| - 1] == |packetBytes|
      && forall i: nat {:trigger Nonempty(i)} :: i < PacketCount() ==> Nonempty(i)
    }

    ghost predicate Nonempty(i: nat)
      requires i < PacketCount()
    {
      packetOffsets[i] < packetOffsets[i + 1] <= |packetBytes|
    }
  }

  // ----- writing

  /** The header of a frame; shifts and masks are written as divisions and remainders. */
  function Header(sampleRateIndex: nat, channelConfig: nat, payloadLen: nat): (h: Bytes)
    requires sampleRateIndex < |SAMPLE_RATES| && 1 <= channelConfig <= 7 && payloadLen + HEADER_SIZE <= MAX_FRAME
    ensures |h| == HEADER_SIZE
  {
    var frameLen := payloadLen + HEADER_SIZE;
    [0xFF, 0xF1,
     0x40 + 4 * sampleRateIndex + channelConfig / 4,
     0x40 * (channelConfig % 4) + (frameLen / 0x800) % 4,
     (frameLen / 8) % 0x100,
     0x20 * (frameLen % 8) + 0x1F,
     0xFC]
  }

  ghost predicate Fit(payloads: seq<Bytes>) {
    forall p :: p in payloads ==> |p| + HEADER_SIZE <= MAX_FRAME
  }

  function Frame(sampleRateIndex: nat, channelConfig: nat, payload: Bytes): (f: Bytes)
    requires sampleRateIndex < |SAMPLE_RATES| && 1 <= channelConfig <= 7 && |payload| + HEADER_SIZE <= MAX_FRAME
    ensures |f| == HEADER_SIZE + |payload|
  {
    Header(sampleRateIndex, channelConfig, |payload|) + payload
  }

  function FramesOf(sampleRateIndex: nat, channelConfig: nat, payloads: seq<Bytes>): (fs: seq<Bytes>)
    requires sampleRateIndex < |SAMPLE_RATES| && 1 <= channelConfig <= 7 && Fit(payloads)
    ensures |fs| == |payloads| && forall i :: 0 <= i < |fs| ==>
      payloads[i] in payloads && fs[i] == Frame(sampleRateIndex, channelConfig, payloads[i])
  {
    seq(|payloads|, i requires 0 <= i < |payloads| => assert payloads[i] in payloads;
      Frame(sampleRateIndex, channelConfig, payloads[i]))
  }

  function Concat(parts: seq<Bytes>): Bytes {
    if parts == [] then [] else Concat(parts[..|parts| - 1]) + parts[|parts| - 1]
  }

  /** Where each part of a concatenation starts, and where the last one ends. */
  function Starts(parts: seq<Bytes>): (s: seq<nat>)
    ensures |s| == |parts| + 1 && s[|parts|] == |Concat(parts)| && s[0] == 0
  {
    if parts == [] then [0] else Starts(parts[..|parts| - 1]) + [|Concat(parts)|]
  }

  ghost predicate Concatenated(parts: seq<Bytes>, bytes: Bytes, starts: seq<nat>) {
    bytes == Concat(parts) && starts + [|bytes|] == Starts(parts)
  }

  lemma {:induction false} OneMorePart(parts: seq<Bytes>, bytes: Bytes, starts: seq<nat>, part: Bytes)
    requires Concatenated(parts, bytes, starts)
    ensures Concatenated(parts + [part], bytes + part, starts + [|bytes|])
  {
    assert (parts + [part])[..|parts|] == parts;
  }

  lemma {:induction false} OneMoreFrame(sri: nat, cc: nat, payloads: seq<Bytes>, i: nat, frames: seq<Bytes>)
    requires sri < |SAMPLE_RATES| && 1 <= cc <= 7 && i < |payloads| && |payloads[i]| + HEADER_SIZE <= MAX_FRAME
    requires Fit(payloads[..i]) && frames == FramesOf(sri, cc, payloads[..i])
    ensures Fit(payloads[..i + 1]) && frames + [Frame(sri, cc, payloads[i])] == FramesOf(sri, cc, payloads[..i + 1])
  {
    assert payloads[..i + 1] == payloads[..i] + [payloads[i]];
  }

  /** The wrapping loop of `try_parse_caf_aac`; a payload that is too long makes it give up. */
  method WrapPackets(sampleRateIndex: nat, channelConfig: nat, payloads: seq<Bytes>) returns (r: Option<AacPackets>)
    requires sampleRateIndex < |SAMPLE_RATES| && 1 <= channelConfig <= 7
    ensures r.None? <==> !Fit(payloads)
    ensures r.Some? ==> var frames := FramesOf(sampleRateIndex, channelConfig, payloads);
      r.value == AacPackets(SAMPLE_RATES[sampleRateIndex], channelConfig, Concat(frames), Starts(frames))
  {
    var packetBytes: Bytes, packetOffsets: seq<nat> := [], [];
    ghost var frames: seq<Bytes> := [];
    for i := 0 to |payloads|
      invariant Fit(payloads[..i]) && frames == FramesOf(sampleRateIndex, channelConfig, payloads[..i])
      invariant Concatenated(frames, packetBytes, packetOffsets)
    {
      var payload := payloads[i];
      if |payload| + 7 > 0x1FFF {
        return None;
      }
      OneMoreFrame(sampleRateIndex, channelConfig, payloads, i, frames);
      OneMorePart(frames, packetBytes, packetOffsets, Frame(sampleRateIndex, channelConfig, payload));
      packetOffsets := packetOffsets + [|packetBytes|];
      packetBytes := packetBytes + Frame(sampleRateIndex, channelConfig, payload);
      frames := frames + [Frame(sampleRateIndex, channelConfig, payload)];
    }
    assert payloads[..|payloads|] == payloads;
    packetOffsets := packetOffsets + [|packetBytes|];
    return Some(AacPackets(SAMPLE_RATES[sampleRateIndex], channelConfig, packetBytes, packetOffsets));
  }

  /** Packet `k` of a wrapped list is its header followed by payload `k`. */
  lemma {:induction false} PartAt(parts: seq<Bytes>, k: nat)
    requires k < |parts|
    ensures Starts(parts)[k] + |parts[k]| == Starts(parts)[k + 1] <= |Concat(parts)|
    ensures Concat(parts)[Starts(parts)[k]..Starts(parts)[k + 1]] == parts[k]
    decreases |parts|
  {
    var front := parts[..|parts| - 1];
    if k < |front| {
      PartAt(front, k);
      assert Concat(parts)[Starts(parts)[k]..Starts(parts)[k + 1]] ==
        Concat(front)[Starts(front)[k]..Starts(front)[k + 1]];
    }
  }

  // ----- reading

  predicate Sync(bytes: Bytes, pos: nat)
    requires pos + HEADER_SIZE <= |bytes|
  {
    bytes[pos] == 0xFF && bytes[pos + 1] / 0x10 == 0xF
  }

  function FrameLength(bytes: Bytes, pos: nat): nat
    requires pos + HEADER_SIZE <= |bytes|
  {
    0x800 * (bytes[pos + 3] as int % 4) + 8 * (bytes[pos + 4] as int) + bytes[pos + 5] as int / 0x20
  }

  function HeaderSize(bytes: Bytes, pos: nat): (n: nat)
    requires pos + HEADER_SIZE <= |bytes|
    ensures n >= HEADER_SIZE
  {
    if bytes[pos + 1] % 2 == 1 then 7 else 9
  }

  /** A complete frame stands at `pos`. */
  predicate FrameAt(bytes: Bytes, pos: nat) {
    pos + HEADER_SIZE <= |bytes| && Sync(bytes, pos) &&
    HeaderSize(bytes, pos) <= FrameLength(bytes, pos) && pos + FrameLength(bytes, pos) <= |bytes|
  }

  /** Size of the frame at a position, 0 where there is none. */
  function FrameSize(bytes: Bytes): nat -> nat {
    p => if FrameAt(bytes, p) then FrameLength(bytes, p) else 0
  }

  /** Positions reached from `pos` by steps of the given sizes, up to the first that is 0 or too long. */
  function Chain(size: nat -> nat, end: nat, pos: nat): (s: seq<nat>)
    requires pos <= end
    ensures |s| >= 1 && s[0] == pos && s[0] <= s[|s| - 1] <= end
    decreases end - pos
  {
    if 0 < size(pos) <= end - pos then [pos] + Chain(size, end, pos + size(pos)) else [pos]
  }

  /** `before` are the positions in front of `pos`. */
  ghost predicate Reached(size: nat -> nat, end: nat, pos: nat, before: seq<nat>)
    requires pos <= end
  {
    before + Chain(size, end, pos) == Chain(size, end, 0)
  }

  lemma {:induction false} NextStep(size: nat -> nat, end: nat, pos: nat, before: seq<nat>)
    requires pos <= end && 0 < size(pos) <= end - pos && Reached(size, end, pos, before)
    ensures Reached(size, end, pos + size(pos), before + [pos])
  {
    var rest := Chain(size, end, pos + size(pos));
    assert before + [pos] + rest == before + ([pos] + rest);
  }

  ghost predicate StepAt(size: nat -> nat, s: seq<nat>, i: nat)
    requires i + 1 < |s|
  {
    0 < size(s[i]) && s[i + 1] == s[i] + size(s[i]) && s[i + 1] <= s[|s| - 1]
  }

  lemma {:induction false} ChainSteps(size: nat -> nat, end: nat, pos: nat)
    requires pos <= end
    ensures var s := Chain(size, end, pos);
      && !(0 < size(s[|s| - 1]) <= end - s[|s| - 1])
      && forall i: nat {:trigger StepAt(size, s, i)} :: i + 1 < |s| ==> StepAt(size, s, i)
    decreases end - pos
  {
    if 0 < size(pos) <= end - pos {
      ChainSteps(size, end, pos + size(pos));
      var s, rest := Chain(size, end, pos), Chain(size, end, pos + size(pos));
      forall i: nat | i + 1 < |s|
        ensures StepAt(size, s, i)
      {
        if i > 0 {
          assert StepAt(size, rest, i - 1);
        }
      }
    }
  }

  datatype Format = Format(sampleRate: nat, channels: nat)

  function FormatAt(bytes: Bytes, pos: nat): Format
    requires pos + HEADER_SIZE <= |bytes|
  {
    var sfi := (bytes[pos + 2] / 4) % 0x10;
    var chCfg := 4 * (bytes[pos + 2] as int % 2) + bytes[pos + 3] as int / 0x40;
    Format(if sfi < |SAMPLE_RATES| then SAMPLE_RATES[sfi] else 44100, if chCfg == 0 then 2 else chCfg)
  }

  function Parsed(bytes: Bytes): AacPackets
    requires FrameAt(bytes, 0)
  {
    var f := Chain(FrameSize(bytes), |bytes|, 0);
    AacPackets(FormatAt(bytes, 0).sampleRate, FormatAt(bytes, 0).channels, bytes[..f[|f| - 1]], f)
  }

  /** The frames in front of `pos` have been taken over. */
  ghost predicate Parsing(bytes: Bytes, pos: nat, packetBytes: Bytes, packetOffsets: seq<nat>) {
    && pos <= |bytes| && packetBytes == bytes[..pos]
    && Reached(FrameSize(bytes), |bytes|, pos, packetOffsets)
    && (packetOffsets == [] <==> pos == 0)
    && (pos > 0 ==> FrameAt(bytes, 0))
  }

  lemma {:induction false} ParseStart(bytes: Bytes)
    ensures Parsing(bytes, 0, [], [])
  {
  }

  lemma {:induction false} ParseStep(bytes: Bytes, pos: nat, packetBytes: Bytes, packetOffsets: seq<nat>)
    requires Parsing(bytes, pos, packetBytes, packetOffsets) && FrameAt(bytes, pos)
    ensures Parsing(bytes, pos + FrameLength(bytes, pos), packetBytes + bytes[pos..pos + FrameLength(bytes, pos)],
      packetOffsets + [|packetBytes|])
  {
    NextStep(FrameSize(bytes), |bytes|, pos, packetOffsets);
  }

  lemma {:induction false} ParseEnd(bytes: Bytes, pos: nat, packetBytes: Bytes, packetOffsets: seq<nat>)
    requires Parsing(bytes, pos, packetBytes, packetOffsets) && !FrameAt(bytes, pos)
    ensures packetOffsets == [] ==> !FrameAt(bytes, 0)
    ensures FrameAt(bytes, 0) ==>
      packetOffsets != [] && packetOffsets + [|packetBytes|] == Parsed(bytes).packetOffsets
      && packetBytes == Parsed(bytes).packetBytes
  {
    assert FrameSize(bytes)(pos) == 0;
  }

  method ParseAdtsAac(bytes: Bytes) returns (r: Option<AacPackets>)
    ensures r.Some? <==> FrameAt(bytes, 0)
    ensures r.Some? ==> r.value == Parsed(bytes)
  {
    hide FrameLength, HeaderSize, FormatAt, Reached, FrameSize, Chain;
    var pos := 0;
    var format := Format(44100, 2);
    var packetBytes: Bytes, packetOffsets: seq<nat> := [], [];
    var first := true;
    ParseStart(bytes);
    while pos + 7 <= |bytes|
      invariant Parsing(bytes, pos, packetBytes, packetOffsets)
      invariant first <==> pos == 0
      invariant !first ==> format == FormatAt(bytes, 0)
      decreases |bytes| - pos
    {
      if !Sync(bytes, pos) {
        if packetOffsets == [] {
          assert !FrameAt(bytes, 0);
          return None;
        }
        assert !FrameAt(bytes, pos);
        break;
      }
      var headerSize, frameLength := HeaderSize(bytes, pos), FrameLength(bytes, pos);
      if first {
        format, first := FormatAt(bytes, pos), false;
      }
      if frameLength < headerSize || pos + frameLength > |bytes| {
        assert !FrameAt(bytes, pos);
        break;
      }
      assert FrameAt(bytes, pos);
      ParseStep(bytes, pos, packetBytes, packetOffsets);
      packetOffsets := packetOffsets + [|packetBytes|];
      packetBytes := packetBytes + bytes[pos..pos + frameLength];
      pos := pos + frameLength;
    }
    ParseEnd(bytes, pos, packetBytes, packetOffsets);
    if packetOffsets == [] {
      return None;
    }
    packetOffsets := packetOffsets + [|packetBytes|];
    return Some(AacPackets(format.sampleRate, format.channels, packetBytes, packetOffsets));
  }

  /** Whatever parses, the packets are frames that tile the longest possible prefix of the input. */
  lemma {:induction false} ParsedTilesInput(bytes: Bytes)
    requires FrameAt(bytes, 0)
    ensures var p := Parsed(bytes);
      && p.Tiled() && p.packetBytes <= bytes && !FrameAt(bytes, |p.packetBytes|)
      && forall i: nat {:trigger p.PacketInfo(i)} :: i < p.PacketCount() ==>
           FrameAt(bytes, p.packetOffsets[i]) && p.PacketInfo(i) ==
             Some((p.packetOffsets[i] as int, FrameLength(bytes, p.packetOffsets[i]) as int))
  {
    var size, p := FrameSize(bytes), Parsed(bytes);
    ChainSteps(size, |bytes|, 0);
    forall i: nat | i < p.PacketCount()
      ensures p.Nonempty(i) && FrameAt(bytes, p.packetOffsets[i])
      ensures p.PacketInfo(i) == Some((p.packetOffsets[i] as int, FrameLength(bytes, p.packetOffsets[i]) as int))
    {
      assert StepAt(size, p.packetOffsets, i);
    }
    assert FrameAt(bytes, 0) && size(0) > 0;
  }

  // ----- round trip

  lemma {:induction false} LengthFields(frameLen: nat, cc: nat)
    requires frameLen <= MAX_FRAME && cc <= 7
    ensures var b3, b4, b5 := 0x40 * (cc % 4) + (frameLen / 0x800) % 4, (frameLen / 8) % 0x100,
      0x20 * (frameLen % 8) + 0x1F;
      0x800 * (b3 % 4) + 8 * b4 + b5 / 0x20 == frameLen && b3 / 0x40 == cc % 4
  {
    var q := frameLen / 8;
    assert frameLen / 0x800 == q / 0x100;
  }

  lemma {:induction false} RateFields(sri: nat, cc: nat)
    requires sri < 0x10 && cc <= 7
    ensures var b2 := 0x40 + 4 * sri + cc / 4; (b2 / 4) % 0x10 == sri && b2 % 2 == cc / 4
  {
  }

  lemma {:induction false} HeaderReadsBack(bytes: Bytes, pos: nat, sri: nat, cc: nat, n: nat)
    requires sri < |SAMPLE_RATES| && 1 <= cc <= 7 && n + HEADER_SIZE <= MAX_FRAME
    requires pos + HEADER_SIZE + n <= |bytes| && bytes[pos..pos + HEADER_SIZE] == Header(sri, cc, n)
    ensures FrameAt(bytes, pos) && FrameLength(bytes, pos) == n + HEADER_SIZE
    ensures pos == 0 ==> FormatAt(bytes, 0) == Format(SAMPLE_RATES[sri], cc)
  {
    var h := Header(sri, cc, n);
    var b := bytes[pos..pos + HEADER_SIZE];
    assert b[0] == bytes[pos] && b[1] == bytes[pos + 1] && b[2] == bytes[pos + 2];
    assert b[3] == bytes[pos + 3] && b[4] == bytes[pos + 4] && b[5] == bytes[pos + 5];
    LengthFields(n + HEADER_SIZE, cc);
    RateFields(sri, cc);
  }

  lemma {:induction false} FrameReadsBack(sri: nat, cc: nat, payloads: seq<Bytes>, k: nat)
    requires sri < |SAMPLE_RATES| && 1 <= cc <= 7 && Fit(payloads) && k < |payloads|
    ensures var fs := FramesOf(sri, cc, payloads);
      var bytes, pos := Concat(fs), Starts(fs)[k];
      && FrameAt(bytes, pos) && FrameLength(bytes, pos) == |fs[k]|
      && (k == 0 ==> FormatAt(bytes, 0) == Format(SAMPLE_RATES[sri], cc))
  {
    var fs := FramesOf(sri, cc, payloads);
    PartAt(fs, k);
    var bytes, pos, n := Concat(fs), Starts(fs)[k], |payloads[k]|;
    assert fs[k] == Frame(sri, cc, payloads[k]);
    assert bytes[pos..pos + HEADER_SIZE] == bytes[pos..pos + |fs[k]|][..HEADER_SIZE] == Header(sri, cc, n);
    HeaderReadsBack(bytes, pos, sri, cc, n);
  }

  /** A chain that agrees with `starts` step by step is `starts`. */
  lemma {:induction false} ChainIs(size: nat -> nat, end: nat, starts: seq<nat>, k: nat)
    requires k < |starts| && starts[|starts| - 1] == end && size(end) == 0 && starts[k] <= end
    requires forall i: nat {:trigger StepAt(size, starts, i)} :: i + 1 < |starts| ==> StepAt(size, starts, i)
    ensures Chain(size, end, starts[k]) == starts[k..]
    decreases |starts| - k
  {
    if k + 1 < |starts| {
      assert StepAt(size, starts, k);
      ChainIs(size, end, starts, k + 1);
    }
  }

  lemma {:induction false} StartsBelow(parts: seq<Bytes>, k: nat)
    requires k <= |parts|
    ensures Starts(parts)[k] <= |Concat(parts)|
  {
    if k < |parts| {
      PartAt(parts, k);
    }
  }

  /** Wrapping and parsing again gives the same packets, sample rate and channel count. */
  lemma {:induction false} AdtsRoundTrip(sri: nat, cc: nat, payloads: seq<Bytes>)
    requires sri < |SAMPLE_RATES| && 1 <= cc <= 7 && Fit(payloads) && payloads != []
    ensures var fs := FramesOf(sri, cc, payloads);
      FrameAt(Concat(fs), 0) && Parsed(Concat(fs)) == AacPackets(SAMPLE_RATES[sri], cc, Concat(fs), Starts(fs))
  {
    var fs := FramesOf(sri, cc, payloads);
    var bytes, starts := Concat(fs), Starts(fs);
    var size := FrameSize(bytes);
    FrameReadsBack(sri, cc, payloads, 0);
    forall i: nat | i + 1 < |starts|
      ensures StepAt(size, starts, i)
    {
      FrameReadsBack(sri, cc, payloads, i);
      PartAt(fs, i);
      StartsBelow(fs, i + 1);
    }
    ChainIs(size, |bytes|, starts, 0);
    assert bytes[..|bytes|] == bytes;
  }

  // ----- the fields of a header

  /** The fixed and the variable header of a frame, field by field. */
  datatype Fields = Fields(syncword: nat, id: nat, layer: nat, protectionAbsent: nat, profile: nat,
    samplingFrequencyIndex: nat, privateBit: nat, channelConfiguration: nat, copyrightBits: nat, frameLength: nat,
    bufferFullness: nat, blocks: nat)
  {
    predicate InRange() {
      && syncword < 0x1000 && id < 2 && layer < 4 && protectionAbsent < 2 && profile < 4
      && samplingFrequencyIndex < 16 && privateBit < 2 && channelConfiguration < 8 && copyrightBits < 16
      && frameLength < 0x2000 && bufferFullness < 0x800 && blocks < 4
    }

    /** The seven bytes that fields of 12, 1, 2, 1, 2, 4, 1, 3, 4, 13, 11 and 2 bits make up. */
    predicate AreAt(bytes: Bytes, pos: nat) {
      && InRange() && pos + 7 <= |bytes|
      && bytes[pos] as int == syncword / 16
      && bytes[pos + 1] as int == 16 * (syncword % 16) + 8 * id + 2 * layer + protectionAbsent
      && bytes[pos + 2] as int == 64 * profile + 4 * samplingFrequencyIndex + 2 * privateBit + channelConfiguration / 4
      && bytes[pos + 3] as int == 64 * (channelConfiguration % 4) + 4 * copyrightBits + frameLength / 0x800
      && bytes[pos + 4] as int == frameLength / 8 % 0x100
      && bytes[pos + 5] as int == 32 * (frameLength % 8) + bufferFullness / 64
      && bytes[pos + 6] as int == 4 * (bufferFullness % 64) + blocks
    }
  }

  lemma {:induction false} ByteParts(b: Byte)
    ensures var n := b as int;
      && n == 16 * (n / 16) + 8 * (n / 8 % 2) + 2 * (n / 2 % 4) + n % 2
      && n == 64 * (n / 64) + 4 * (n / 4 % 16) + 2 * (n / 2 % 2) + n % 2
      && n == 64 * (n / 64) + 4 * (n / 4 % 16) + n % 4
  {
    var n := b as int;
    var half, quarter, eighth := n / 2, n / 4, n / 8;
    Quotients(n);
    assert n == 2 * half + n % 2 && half == 4 * eighth + half % 4 && eighth == 2 * (n / 16) + eighth % 2;
    assert half == 2 * quarter + half % 2 && quarter == 16 * (n / 64) + quarter % 16 && n == 4 * quarter + n % 4;
  }

  lemma {:induction false} Quotients(n: nat)
    ensures n / 2 / 4 == n / 8 && n / 8 / 2 == n / 16 && n / 2 / 2 == n / 4 && n / 4 / 16 == n / 64
  {
  }

  lemma {:induction false} Recombine(high: nat, low: nat, base: nat)
    requires base in {4, 16, 64} && low < base
    ensures (base * high + low) / base == high && (base * high + low) % base == low
  {
  }

  lemma {:induction false} LengthParts(high: nat, middle: nat, low: nat)
    requires high < 4 && middle < 0x100 && low < 8
    ensures var n := 0x800 * high + 8 * middle + low;
      n < 0x2000 && n / 0x800 == high && n / 8 % 0x100 == middle && n % 8 == low
  {
    var n := 0x800 * high + 8 * middle + low;
    assert n / 8 == 0x100 * high + middle;
  }

  /** Any seven bytes are those of some fields. */
  lemma {:induction false} SomeFields(bytes: Bytes, pos: nat) returns (f: Fields)
    requires pos + 7 <= |bytes|
    ensures f.AreAt(bytes, pos)
  {
    var b1, b2, b3 := bytes[pos + 1] as int, bytes[pos + 2] as int, bytes[pos + 3] as int;
    var b5, b6 := bytes[pos + 5] as int, bytes[pos + 6] as int;
    ByteParts(bytes[pos + 1]);
    ByteParts(bytes[pos + 2]);
    ByteParts(bytes[pos + 3]);
    Recombine(bytes[pos], b1 / 16, 16);
    Recombine(b2 % 2, b3 / 64, 4);
    Recombine(b5 % 32, b6 / 4, 64);
    LengthParts(b3 % 4, bytes[pos + 4], b5 / 32);
    var syncword, channels, fullness := 16 * (bytes[pos] as int) + b1 / 16, 4 * (b2 % 2) + b3 / 64,
      64 * (b5 % 32) + b6 / 4;
    var length := 0x800 * (b3 % 4) + 8 * (bytes[pos + 4] as int) + b5 / 32;
    f := Fields(syncword, b1 / 8 % 2, b1 / 2 % 4, b1 % 2, b2 / 64, b2 / 4 % 16, b2 / 2 % 2, channels, b3 / 4 % 16,
      length,
      fullness, b6 % 4);
  }

  /**
   What is read of a header are its fields: any frame with the syncword is taken, of MPEG-4 or MPEG-2; the header is
   two bytes longer if there is a checksum; an unknown rate is read as 44100 and an unknown configuration as stereo.
   */
  lemma {:induction false} ReadsFields(bytes: Bytes, pos: nat, f: Fields)
    requires f.AreAt(bytes, pos)
    ensures Sync(bytes, pos) <==> f.syncword == 0xFFF
    ensures HeaderSize(bytes, pos) == 9 - 2 * f.protectionAbsent && FrameLength(bytes, pos) == f.frameLength
    ensures FormatAt(bytes, pos) == Format(RateOf(f.samplingFrequencyIndex),
      if f.channelConfiguration == 0 then 2 else f.channelConfiguration)
  {
    ReadsSync(bytes, pos, f);
    ReadsLength(bytes, pos, f);
    ReadsFormat(bytes, pos, f);
  }

  lemma {:induction false} ReadsSync(bytes: Bytes, pos: nat, f: Fields)
    requires f.AreAt(bytes, pos)
    ensures Sync(bytes, pos) <==> f.syncword == 0xFFF
    ensures HeaderSize(bytes, pos) == 9 - 2 * f.protectionAbsent
  {
    Recombine(f.syncword % 16, 8 * f.id + 2 * f.layer + f.protectionAbsent, 16);
  }

  lemma {:induction false} ReadsLength(bytes: Bytes, pos: nat, f: Fields)
    requires f.AreAt(bytes, pos)
    ensures FrameLength(bytes, pos) == f.frameLength
  {
    var n := f.frameLength;
    assert n / 0x800 < 4 && n == 8 * (n / 8) + n % 8 && n / 8 == 0x100 * (n / 0x800) + n / 8 % 0x100;
  }

  lemma {:induction false} ReadsFormat(bytes: Bytes, pos: nat, f: Fields)
    requires f.AreAt(bytes, pos)
    ensures FormatAt(bytes, pos) == Format(RateOf(f.samplingFrequencyIndex),
      if f.channelConfiguration == 0 then 2 else f.channelConfiguration)
  {
    var c := f.channelConfiguration;
    Recombine(16 * f.profile + f.samplingFrequencyIndex, 2 * f.privateBit + c / 4, 4);
    Recombine(f.profile, f.samplingFrequencyIndex, 16);
    Recombine(c % 4, 4 * f.copyrightBits + f.frameLength / 0x800, 64);
  }

  /** The table of the standard. */
  function RateOf(index: nat): nat {
    match index
    case 0 => 96000
    case 1 => 88200
    case 2 => 64000
    case 3 => 48000
    case 4 => 44100
    case 5 => 32000
    case 6 => 24000
    case 7 => 22050
    case 8 => 16000
    case 9 => 12000
    case 10 => 11025
    case 11 => 8000
    case 12 => 7350
    case _ => 44100
  }

  /** The header written is that of an MPEG-4 AAC LC frame of variable bit rate without checksum. */
  lemma {:induction false} WritesFields(sampleRateIndex: nat, channelConfig: nat, payloadLen: nat)
    requires sampleRateIndex < |SAMPLE_RATES| && 1 <= channelConfig <= 7 && payloadLen + HEADER_SIZE <= MAX_FRAME
    ensures Fields(0xFFF, 0, 0, 1, 1, sampleRateIndex, 0, channelConfig, 0, payloadLen + 7, 0x7FF, 0).AreAt(
      Header(sampleRateIndex, channelConfig, payloadLen), 0)
    ensures SAMPLE_RATES[sampleRateIndex] == RateOf(sampleRateIndex)
  {
  }
}
