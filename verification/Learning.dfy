/** What the detector learns over whole runs: how its noise estimate follows the energies. */
module Learning {
  import opened Bytes
  import opened FixedPoint
  import opened FilterBank
  import opened Vad
  import opened Detector

  /** Where a run starts: noise levels of 100 times the bias, their reciprocals, 60 ms of hangover. */
  lemma InitialLevels()
    ensures InitialState() == VadState(Sections(0, 0), Sections(0, 0), Sections(0, 0), 0, [0, 0, 0, 0],
                                       [Noise(5000, 429496), Noise(2500, 858993), Noise(1600, 1342177),
                                        Noise(1200, 1789569)], 15, 60)
  {
  }

  /** Frames analysed in a run of packets. */
  function FramesHeard(packets: seq<seq<int>>, framelen: nat): nat {
    if packets == [] then 0
    else
      FramesHeard(packets[..|packets| - 1], framelen)
      + if LongEnough(packets[|packets| - 1], framelen) then 3 else 0
  }

  lemma {:induction false} CounterAfterFrames(s: VadState, pcm: seq<int>, framelen: nat, k: nat)
    requires Bounded(s) && Samples(pcm, framelen) && LongEnough(pcm, framelen) && k <= 3
    ensures AfterFrames(Machine, s, pcm, framelen, k).counter == Min(s.counter + k, 1000)
  {
    hide BandsOf, FrameNoise, FrameScore, Fits;
    if k > 0 {
      CounterAfterFrames(s, pcm, framelen, k - 1);
    }
  }

  /** The counter counts the frames heard, up to 985 of them. */
  lemma {:induction false} CounterAfterPackets(packets: seq<seq<int>>, framelen: nat)
    requires AllSamples(packets, framelen)
    ensures AfterPackets(Machine, packets, framelen).counter == Min(15 + FramesHeard(packets, framelen), 1000)
  {
    hide AfterFrames, ActiveFrames, Activities, Fits;
    if packets != [] {
      var before := packets[..|packets| - 1];
      CounterAfterPackets(before, framelen);
      if LongEnough(packets[|packets| - 1], framelen) {
        CounterAfterFrames(AfterPackets(Machine, before, framelen), packets[|packets| - 1], framelen, 3);
      }
    }
  }

  /** Over whole runs: how frame i of the packet after a run moves the noise level of band b. */
  lemma RunLearns(packets: seq<seq<int>>, pcm: seq<int>, framelen: nat, i: nat, b: nat, s: VadState)
    requires AllSamples(packets, framelen) && Samples(pcm, framelen) && LongEnough(pcm, framelen) && i < 3 && b < BANDS
    requires s == AfterFrames(Machine, AfterPackets(Machine, packets, framelen), pcm, framelen, i)
    ensures Bounded(s)
    ensures var nrg := FrameTotals(Machine, s, BandsOf(Machine, s, FrameAt(pcm, framelen, i)))[b];
            var r := AfterFrames(Machine, AfterPackets(Machine, packets, framelen), pcm, framelen, i + 1);
            && 0 <= nrg && r.noise[b].inv >= 1
            && Learned(s.noise[b], Biased(b, nrg), LeastCoef(FramesHeard(packets, framelen) + i), r.noise[b])
  {
    hide Learned, LeastCoef, Biased, FrameTotals, BandsOf, AfterPackets, FramesHeard, Analyse, Fits, FrameAt;
    var start := AfterPackets(Machine, packets, framelen);
    CounterAfterPackets(packets, framelen);
    CounterAfterFrames(start, pcm, framelen, i);
    FrameLearns(s, FrameAt(pcm, framelen, i), FramesHeard(packets, framelen) + i, b);
  }

  lemma LeastCoefCapped(k: nat)
    ensures LeastCoef(Min(15 + k, 1000) - 15) == LeastCoef(k)
  {
  }

  lemma FrameLearns(s: VadState, frame: seq<int>, k: nat, b: nat)
    requires Bounded(s) && Frame(frame) && b < BANDS && s.counter == Min(15 + k, 1000)
    ensures var nrg := FrameTotals(Machine, s, BandsOf(Machine, s, frame))[b];
            var r := Analyse(Machine, s, frame).0;
            && 0 <= nrg && |r.noise| == BANDS && r.noise[b].inv >= 1
            && Learned(s.noise[b], Biased(b, nrg), LeastCoef(k), r.noise[b])
  {
    hide Learned, BandsOf, LeastCoef, Biased;
    var a := BandsOf(Machine, s, frame);
    AnalyseForm(s, frame, a);
    AllLearn(s.noise, FrameTotals(Machine, s, a), s.counter, b);
    LeastCoefCapped(k);
  }
}
