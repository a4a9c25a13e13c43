# Covert timing channel: detector, receiver and sender, in Dafny

This project models the core of a covert-timing-channel testbed. A sender hides a
bitstream in the gaps between UDP datagrams: each bit becomes `bit_repeat_len`
packets, each followed by a short pause for '0' or a long pause for '1'. A
receiver averages the inter-packet delays (IPDs) of each group back into bits.
On the network path, a sliding-window detector scores the IPDs for the
signature of such a channel.

The modules follow the source files:

| module | file | models |
|---|---|---|
| `Fifo` | `fifo.dfy` | `deque(maxlen=n)` as values: keep the last n entries |
| `Statistics` | `statistics.dfy` | sum, mean, population variance, min and max over exact reals |
| `Scoring` | `scoring.dfy` | the body of `detect`: four sub-scores, the clamped total and the verdict |
| `Detector` | `detector.dfy` | class `CovertChannelDetector`: `__init__`, `add_packet`, `detect`, `get_detection_stats` |
| `Bitstream` | `bitstream.dfy` | `create_bitstream_from_message` (both sender scripts), and a reference decoder for the round trip |
| `Sender` | `sender.dfy` | the bit → (repeat, pause) loops of the sender |
| `Receiver` | `receiver.dfy` | the listening loop of the receiver, as a per-datagram step function and as an imperative loop |
| `Experiment` | `experiment.dfy` | the phase-2 trial loop: bit errors over `zip`, BER, capacity and the three result lists |
| `Channel` | `channel.dfy` | sender and receiver together: under ideal timing the receiver recovers the bitstream |

Main results:

- **Detector.** `AddPacket` keeps every buffer equal to a closed form of all
  timestamps added so far (`Detector.Consistent`):
  - the last 2·window_size timestamps;
  - the last history_length·window_size IPDs;
  - the first 100 IPDs below 0.2 s;
  - "established" exactly when that baseline is full.

  `AddPacketIpds` and `AddPacketBaseline` state the effect of one packet on each
  buffer. `Detect` returns what the pure scorer `Scoring.Evaluate` computes. It
  fails closed on short windows, and its counter moves only on positive verdicts.
  The scores are clamped sums of fixed weights. The sub-scores that use a square
  root are tested on squares, and lemmas show these tests agree with the source's
  `std / mean < 0.7` and `|z| > 2` tests.
- **Receiver.** `Listen` is the source's loop over a finite sequence of arrival
  times. It is proved to compute `Receiver.Run`, a fold of the per-datagram step
  `OnPacket`. Lemmas about `OnPacket` and `Run` give the decode rule, the reset at
  `bitstream_len` and the binary, fixed-length replies. They also give the one way
  the modelled loop dies: `mean([])` when `bit_repeat_len <= 1`.
- **Encoder.** The output is always binary, and a binary message is returned
  unchanged. For text whose character codes are below 256, the output has eight
  digits per character, and reading eight-digit groups back recovers the text.
- **Channel round trip.** `Channel.RoundTrip` assumes three things:
  - the receiver is configured with the sender's `bit_repeat_len`;
  - every gap equals the pause the sender took;
  - the delays are `Separated`.

  Then the receiver never dies, and the bits it sends back, followed by those
  still accumulating, are exactly the bitstream sent. Because the pause after the
  last packet of a bit is the gap before the next bit's first packet, every group
  after the first holds one gap of the previous bit. `Separated` is the condition
  under which such a mixed group still decodes right. The defaults (0.3 s / 0.9 s,
  threshold 0.6 s, five packets per bit) satisfy it (`DefaultsSeparated`). With two
  packets per bit the bitstream "10" is read back as "11"
  (`TwoPacketsPerBitMisreads`).

Behaviour of the code that a reader might not expect, which the model keeps:

- `detect`'s first guard counts held timestamps, not IPDs.
- The second guard lets a window of `window_size - 1` IPDs through.
- The bimodal count ratio is `min(counts) / max(counts)` over every distinct
  rounded value (line 72 overwrites line 69), not over the top two.
- The bimodal spread is `max(unique) - min(unique)` over every distinct value.
- The fine pattern check can only set the same 0.4 again, so the pattern score is
  0.4 when either check passes.
- `window_size == 0` is not rejected:
  - Python's `[-0:]` then takes the whole IPD history;
  - the timestamp deque holds nothing, so no IPD is ever computed.
- IPDs are not required to be non-negative. They are differences of whatever
  timestamps are given.

## Model

| member | source | states |
|---|---|---|
| Fifo.BoundedAppend | code/python-processor/detector/covert_channel_detector.py:19-20 | a deque append never leaves more than `maxlen` entries: the new length is min(old length + 1, maxlen) |
| Fifo.BoundedAppendEvictsOldest | code/python-processor/detector/covert_channel_detector.py:19-20 | below capacity the entry is appended; at capacity exactly the oldest entry is evicted; a zero-capacity deque stays empty |
| Fifo.LastAppend | code/python-processor/detector/covert_channel_detector.py:34 | appending to the kept suffix and trimming again equals trimming the whole history once |
| Fifo.LastNewest | code/python-processor/detector/covert_channel_detector.py:37 | the newest entry always survives the trim |
| Fifo.Take | code/python-processor/detector/covert_channel_detector.py:41-42 | the first n entries, in order |
| Fifo.TakeAppend | code/python-processor/detector/covert_channel_detector.py:41-42 | an append to a prefix below n entries extends it; otherwise the prefix is unchanged |
| Statistics.Variance | code/python-processor/detector/covert_channel_detector.py:87 | `np.std` squared (ddof 0) is never negative |
| Statistics.Min | code/python-processor/detector/covert_channel_detector.py:80 | an element of the sample, no larger than any element |
| Statistics.Max | code/python-processor/detector/covert_channel_detector.py:80 | an element of the sample, no smaller than any element |
| Scoring.RoundMs | code/python-processor/detector/covert_channel_detector.py:64 | millisecond rounding moves a delay by at most half a millisecond |
| Scoring.Top | code/python-processor/detector/covert_channel_detector.py:74 | a most frequent value; among equally frequent values the largest |
| Scoring.Rarest | code/python-processor/detector/covert_channel_detector.py:72 | a least frequent value: its count is `min(counts)` |
| Scoring.TwoValuesIffSpread | code/python-processor/detector/covert_channel_detector.py:66 | the guard `len(unique_delays) >= 2` holds exactly when the smallest rounded delay is below the largest |
| Scoring.TopTwo | code/python-processor/detector/covert_channel_detector.py:114-116 | a valid result of the descending argsort: two distinct values, the first of maximal count, the second of maximal count among the rest |
| Scoring.BimodalTest | code/python-processor/detector/covert_channel_detector.py:72-81 | for any top pair the sort may return: 0.5 exactly when the count ratio exceeds 0.5 and the values differ by more than a factor two and a spread of 0.2 |
| Scoring.TieOrderMatters | code/python-processor/detector/covert_channel_detector.py:74-81 | in a window of equally frequent 0.3, 0.6 and 0.9, both (0.9, 0.6) and (0.9, 0.3) are valid top pairs and they give bimodal scores 0 and 0.5; the model takes (0.9, 0.6) |
| Scoring.BimodalScore | code/python-processor/detector/covert_channel_detector.py:63-84 | the bimodal sub-score is 0 or 0.5, and 0.5 only when the rounded window holds two distinct values |
| Scoring.CvDivisor | code/python-processor/detector/covert_channel_detector.py:87 | the mean floored at 0.001, so never below 0.001 |
| Scoring.RegularityScore | code/python-processor/detector/covert_channel_detector.py:86-93 | the regularity sub-score is 0 or 0.3; an empty window, whose mean is NaN, scores 0 |
| Scoring.RegularityIsCvTest | code/python-processor/detector/covert_channel_detector.py:87-91 | the squared test awards 0.3 exactly when std / max(mean, 0.001) < 0.7 |
| Scoring.BaselineScore | code/python-processor/detector/covert_channel_detector.py:95-108 | the baseline sub-score is 0 or 0.2; 0.2 only with an established, non-empty baseline whose std is positive |
| Scoring.BaselineIsZScoreTest | code/python-processor/detector/covert_channel_detector.py:97-105 | the squared test awards 0.2 exactly when std > 0 and abs(mean - baseline mean) / std > 2 |
| Scoring.NearCount | code/python-processor/detector/covert_channel_detector.py:123-124 | the number of delays within the tolerance of a centre is at most the window length |
| Scoring.PatternScore | code/python-processor/detector/covert_channel_detector.py:110-138 | the pattern sub-score is 0 or 0.4 |
| Scoring.PatternEitherTest | code/python-processor/detector/covert_channel_detector.py:121-135 | 0.4 exactly when the larger top value exceeds 0.5, the smaller exceeds 0.1, and the coarse or the fine cluster test passes |
| Scoring.Window | code/python-processor/detector/covert_channel_detector.py:52 | the window holds `window_size` IPDs, or all of them when fewer are held or `window_size` is 0 |
| Scoring.WindowIsNewest | code/python-processor/detector/covert_channel_detector.py:52 | the window is the newest part of the IPD history, in arrival order |
| Scoring.TotalIsClampedSum | code/python-processor/detector/covert_channel_detector.py:141 | the sum of the four sub-scores lies in [0, 1.4]; the total is min(1, sum), one of 0, 0.2, …, 1.0 |
| Scoring.Evaluate | code/python-processor/detector/covert_channel_detector.py:48-55 | fewer than `window_size` timestamps give (False, 0.0, total only); the score lies in [0, 1]; a scored verdict is positive exactly when the clamped total exceeds the threshold |
| Detector.Gaps | code/python-processor/detector/covert_channel_detector.py:36-38 | n timestamps give n - 1 IPDs |
| Detector.GapsAt | code/python-processor/detector/covert_channel_detector.py:37 | IPD i is timestamp i + 1 minus timestamp i |
| Detector.LowDelays | code/python-processor/detector/covert_channel_detector.py:41 | only IPDs below 0.2 s are offered to the baseline |
| Detector.ObservedAppend | code/python-processor/detector/covert_channel_detector.py:36-38 | a timestamp adds one IPD, against the previous timestamp, unless it is the first or `window_size` is 0 |
| Detector.TimesStep | code/python-processor/detector/covert_channel_detector.py:34-37 | the timestamp deque holds two entries exactly when there is a previous arrival; its last two entries are the new and the previous timestamp |
| Detector.AddWithoutIpd | code/python-processor/detector/covert_channel_detector.py:33-36 | the branch without an IPD keeps the buffers consistent with the arrivals |
| Detector.AddWithIpd | code/python-processor/detector/covert_channel_detector.py:36-44 | the branch with an IPD keeps the buffers consistent with the arrivals |
| Detector.BaselineOffer | code/python-processor/detector/covert_channel_detector.py:41-44 | the offer appends only below capacity and below 0.2 s, never evicts, and sets the flag exactly when the baseline becomes full |
| Detector.AddPacketIpds | code/python-processor/detector/covert_channel_detector.py:33-38 | the IPD deque receives exactly the new timestamp minus the previous arrival, except for the first arrival or a zero window |
| Detector.AddPacketBaseline | code/python-processor/detector/covert_channel_detector.py:40-44 | the baseline takes that IPD only while below 100 entries and only below 0.2 s; a full baseline never changes |
| Detector.TimesNewest | code/python-processor/detector/covert_channel_detector.py:34-37 | the newest held timestamp is the latest arrival |
| Detector.FullWindow | code/python-processor/detector/covert_channel_detector.py:48-55 | once `window_size` timestamps are held and the IPD capacity covers a window, the window has `window_size` or `window_size - 1` IPDs |
| Detector.DetectScoresFullWindow | code/python-processor/detector/covert_channel_detector.py:48-55 | with such a capacity the second guard of `detect` never fires: a full timestamp window is always scored |
| Detector.CovertChannelDetector.constructor | code/python-processor/detector/covert_channel_detector.py:9-29 | empty deques, zero counters, unestablished baseline, IPD capacity history_length·window_size |
| Detector.CovertChannelDetector.AddPacket | code/python-processor/detector/covert_channel_detector.py:31-44 | the arrival is recorded and every buffer, the packet counter and the flag stay the closed form of all arrivals; detection state is untouched |
| Detector.CovertChannelDetector.Detect | code/python-processor/detector/covert_channel_detector.py:46-156 | the verdict is the scorer's; the counter rises by one and the time is recorded exactly on a positive verdict; fewer than `window_size` timestamps give (False, 0.0); with history_length ≥ 1 a full window is always scored |
| Detector.CovertChannelDetector.GetDetectionStats | code/python-processor/detector/covert_channel_detector.py:158-166 | rate · max(1, total packets) equals the detection count, the rate is non-negative, and the other fields are the counters; nothing changes |
| Bitstream.Format08b | code/sec/covert_channel_sender.py:10 | `format(n, '08b')` is binary and at least eight digits long |
| Bitstream.ValueOfBinary | code/sec/covert_channel_sender.py:10 | the binary numeral of n reads back as n |
| Bitstream.ValueOfFormat | code/sec/covert_channel_sender.py:10 | the padded numeral reads back as the character code |
| Bitstream.FormatLength | code/sec/covert_channel_sender.py:10 | the padded numeral has exactly eight digits iff the code is below 256 |
| Bitstream.CreateBitstream | code/sec/covert_channel_sender.py:7-11 | the output is binary; a message of only '0' and '1' (or empty) is returned unchanged |
| Bitstream.EncodeChars | code/sec/phase2_experiment_sender.py:11 | the joined character codes are binary |
| Bitstream.Decode | code/sec/covert_channel_sender.py:10 | reference reader: one character per eight digits, each below 256 |
| Bitstream.DecodeEncode | code/sec/covert_channel_sender.py:10 | reading eight-digit groups back recovers any text with codes below 256 |
| Bitstream.EncodeLength | code/sec/phase2_experiment_sender.py:11 | text with codes below 256 becomes eight digits per character |
| Bitstream.CreateBitstreamLength | code/sec/phase2_experiment_sender.py:8-12 | the bitstream is as long as a binary message, else eight digits per character |
| Bitstream.CreateBitstreamRoundTrip | code/sec/covert_channel_sender.py:7-11 | a non-binary message with codes below 256 is recovered from its bitstream |
| Sender.BitDelay | code/sec/covert_channel_sender.py:27-30 | '0' pauses for `zero_bit_delay`, '1' for `one_bit_delay` |
| Sender.Copies | code/sec/covert_channel_sender.py:46-49 | the burst for a bit is n identical (bit, pause) packets |
| Sender.ScheduleLength | code/sec/covert_channel_sender.py:44-47 | len(bitstream) · max(bit_repeat_len, 0) packets are sent |
| Sender.ScheduleAt | code/sec/covert_channel_sender.py:44-49 | packet q·bit_repeat_len + d belongs to bit q and pauses for that bit's delay |
| Sender.DeliveredPrefix | code/sec/covert_channel_sender.py:44-54 | the packets that go out are a prefix of the schedule: all of it when no pause is negative, else up to and including the first negative pause |
| Sender.DeliveredAppend | code/sec/covert_channel_sender.py:44-49 | a leading part without negative pauses goes out in full before the rest |
| Sender.ScheduleSplit | code/sec/covert_channel_sender.py:44 | the schedule of a bitstream is that of its first bits followed by that of the rest |
| Sender.SendBurst | code/sec/covert_channel_sender.py:46-49 | the inner loop produces `bit_repeat_len` copies of the bit's packet (none when it is not positive) |
| Sender.Interrupted | code/sec/covert_channel_sender.py:49-54 | when a bit's pause is negative, its first packet is the last one sent and the loops raise |
| Sender.SendMessage | code/sec/covert_channel_sender.py:41-54 | the loops send the schedule of `create_bitstream_from_message(message)` up to the first negative pause, where `time.sleep` raises; they raise exactly when some scheduled pause is negative |
| Receiver.DecodeBit | code/insec/covert_channel_receiver.py:46-47 | the bit is '0' iff the mean queued IPD is below `sender_bit_delay + given_delay_threshold` |
| Receiver.GapQueued | code/insec/covert_channel_receiver.py:40-42 | an IPD is queued only after a previous arrival, and it is the time since that arrival |
| Receiver.BitDecoded | code/insec/covert_channel_receiver.py:44-57 | a decode empties the queue, sets the first-bit flag, appends one bit, and sends and resets the stream at `bitstream_len` |
| Receiver.CrashIff | code/insec/covert_channel_receiver.py:44-46 | `mean([])` raises exactly on the first datagram with `bit_repeat_len <= 1` |
| Receiver.OnPacketPreserves | code/insec/covert_channel_receiver.py:44-57 | each step keeps the stream binary and shorter than `bitstream_len`; the flag is never cleared; replies are `bitstream_len` binary digits |
| Receiver.RunWellFormed | code/insec/covert_channel_receiver.py:33-57 | every state reached is well formed and every reply is binary with `bitstream_len` digits |
| Receiver.RunCrashIff | code/insec/covert_channel_receiver.py:44-46 | the loop dies iff some datagram arrives and `bit_repeat_len <= 1` |
| Receiver.RunStarted | code/insec/covert_channel_receiver.py:36 | after a datagram the newest arrival time is known |
| Receiver.CrashIsFinal | code/insec/covert_channel_receiver.py:46 | after the exception nothing more is decoded or sent |
| Receiver.Listen | code/insec/covert_channel_receiver.py:27-57 | the loop sends exactly the replies of `Run` and dies exactly when `Run` does |
| Experiment.Errors | code/sec/phase2_experiment_sender.py:61 | at most the length of either string (`zip` truncates) |
| Experiment.NoErrorsIffPrefixesAgree | code/sec/phase2_experiment_sender.py:61 | no errors exactly when the compared prefixes are equal |
| Experiment.ErrorsSymmetric | code/sec/phase2_experiment_sender.py:61 | the count does not depend on which string is sent |
| Experiment.DifferenceCounts | code/sec/phase2_experiment_sender.py:61 | any differing compared position counts |
| Experiment.BitErrorRate | code/sec/phase2_experiment_sender.py:62 | fails exactly on an empty bitstream; otherwise lies in [0, 1] and is 0 iff there are no errors |
| Experiment.Capacity | code/sec/phase2_experiment_sender.py:63 | fails exactly on a zero duration; capacity · time = len(received) - errors, which is never negative |
| Experiment.Trial | code/sec/phase2_experiment_sender.py:54-67 | a trial completes iff a reply came, the bitstream is non-empty and the time is non-zero; its BER is in [0, 1] |
| Experiment.Completed | code/sec/phase2_experiment_sender.py:40-41 | the number of leading trials that succeed: all before it succeed, the one at it fails |
| Experiment.CompletedIsFirstFailure | code/sec/phase2_experiment_sender.py:79-80 | the first failing trial ends the count |
| Experiment.RunTrials | code/sec/phase2_experiment_sender.py:37-67 | the three lists have equal length, one entry per completed trial, each the trial's metrics; `failed` iff fewer than 100 trials complete |
| Experiment.EmptyMessageKeepsNothing | code/sec/phase2_experiment_sender.py:62 | an empty message makes the first trial fail, so no results are kept |
| Channel.Repeated | code/sec/covert_channel_sender.py:46-49 | m gaps of the same delay |
| Channel.SumRepeated | code/insec/covert_channel_receiver.py:46 | m gaps of delay x sum to m·x |
| Channel.PureSide | code/insec/covert_channel_receiver.py:47 | under separation, a group of equal gaps averages below the threshold exactly for the zero delay |
| Channel.MixedSide | code/insec/covert_channel_receiver.py:47 | under separation, a group with one foreign gap averages below the threshold exactly for the zero delay |
| Channel.PureGroupBit | code/insec/covert_channel_receiver.py:44-47 | the first group (`bit_repeat_len - 1` gaps of the first bit) decodes to the first bit |
| Channel.MixedGroupBit | code/insec/covert_channel_receiver.py:44-47 | a later group (one gap of the previous bit, `bit_repeat_len - 1` of its own) decodes to its own bit |
| Channel.SeparatedGroupsDecode | code/insec/covert_channel_receiver.py:44-47 | separated delays make every group the receiver can see decode correctly |
| Channel.ScheduleBursts | code/sec/covert_channel_sender.py:44-49 | the schedule in burst coordinates: packet Start(q) + d is bit q's |
| Channel.TraceStep | code/insec/covert_channel_receiver.py:33-57 | each trace is the loop's step from the previous one |
| Channel.TracesRun | code/insec/covert_channel_receiver.py:33-57 | the trace after k arrivals is the loop's run over them |
| Channel.FirstBurst | code/insec/covert_channel_receiver.py:40-44 | inside the first burst the gaps queue and nothing is decoded |
| Channel.FirstBit | code/insec/covert_channel_receiver.py:44-50 | the first bit is decoded from `bit_repeat_len - 1` gaps |
| Channel.WithinBurst | code/insec/covert_channel_receiver.py:40-44 | inside a later burst one more gap queues and nothing is decoded |
| Channel.NextBit | code/insec/covert_channel_receiver.py:44-50 | the last packet of each later bit decodes that bit |
| Channel.Burst | code/insec/covert_channel_receiver.py:33-57 | after k = (q + 1)·bit_repeat_len + d arrivals exactly the first q + 1 bits are decoded |
| Channel.BitstreamRoundTrip | code/sec/covert_channel_sender.py:44-49 | for any bitstream whose groups decode, the receiver survives and recovers the bitstream |
| Channel.RoundTrip | code/insec/covert_channel_receiver.py:40-57 | with separated delays and ideal timing, the bits sent back, then those pending, are exactly `create_bitstream_from_message(message)` |
| Channel.DefaultsSeparated | code/insec/covert_channel_receiver.py:63-65 | the default receiver threshold 0.3 + 0.3 and five packets per bit separate the default delays 0.3 and 0.9 |
| Channel.TwoPacketsPerBitMisreads | code/insec/covert_channel_receiver.py:44-47 | with two packets per bit and ideal timing, "10" decodes as "11": the mixed group averages 0.6, not below 0.6 |

## Left out

- The mitigator (`random.uniform` over a delay range) and the relay in `main.py`
  are not part of this model. The relay never calls the detector.
- Sockets, `recvfrom`/`sendto`, datagram payloads and the reply address are not
  modelled. Neither are `print`, `logging`, `argparse`, or the
  `INSECURENET_HOST_IP` lookup with its early return. The receiver gets a finite
  sequence of arrival times instead of `while True`. The experiment gets each
  trial's reply and duration as parameters.
- `time.time()` is a parameter (`now` in the constructor and in `Detect`).
  `time.sleep` is the pause recorded in each sent packet. A negative pause raises,
  and `Sender.SendMessage` stops there.
- Floating point is not modelled: delays and scores are exact reals.
  - `np.round` is modelled as round-half-even on exact values.
  - A standard deviation is compared through its square.
  - An empty window (NaN in numpy) makes every comparison false, which is
    modelled.
- Scoring.TopTwo: numpy's default `argsort` is not stable, so the order of values
  with equal counts is unspecified. The model fixes the larger value first.
  `BimodalTest` is stated for any valid top pair, and `TieOrderMatters` shows the
  choice can change the bimodal sub-score. The pattern sub-score depends on the
  same choice.
- The step function `Receiver.OnPacket` (and `Receiver.Listener`) keeps only the
  last entry of the receiver's `timestamps` list, the only one it reads.
  `Receiver.Listen` keeps the whole list. An undecodable reply in the experiment (`response.decode()` raising) is
  modelled as a trial without a reply.
- Detector.CovertChannelDetector.AddPacket: its contract states the new state
  through `Valid()` and the ghost history of arrivals, not field by field.
  `AddPacketIpds`, `AddPacketBaseline` and `TimesNewest` spell out the effect on
  each buffer.
- Receiver.RunCrashIff: covers only the `mean([])` exception. `print(data.decode())`
  at line 39 raises on a datagram that is not UTF-8 and also ends the loop.
  Payloads are not modelled, so that crash is not either.
- Receiver.Listen: likewise dies only on `mean([])`, not on the line-39 decode
  error for a non-UTF-8 datagram.
- Detector.CovertChannelDetector.constructor: takes `window_size` and
  `history_length` as naturals. The source's `deque(maxlen=…)` raises ValueError
  on a negative `maxlen`, which happens for a negative `window_size`, or a negative
  `history_length` with a positive `window_size`. That error path is not modelled.
- Experiment.RunTrials: the sending loops of a trial are not modelled, only the
  reply and the duration. A negative delay for a bit that occurs in the bitstream
  (with `bit_repeat_len > 0`) makes `time.sleep` raise in the first trial. That
  ends the experiment with empty lists.
- Experiment.EmptyMessageKeepsNothing: assumes a reply arrives. With an empty
  bitstream the source sends nothing and would wait for a reply.
- Channel.RoundTrip: assumes ideal timing (every gap equals the pause), not
  network jitter. It also assumes the receiver's `bit_repeat_len` matches the
  sender's.
- Printing the three result lists at the end of the experiment is not modelled.
