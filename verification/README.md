# meowcaller, modelled in Dafny

A model of the parts of the meowcaller VoIP stack in which state, wire formats and
arithmetic meet, with proofs of what they promise. Every main result is a statement about
all inputs, all runs or all interleavings. `dafny verify dfyconfig.toml` checks it.

| file | models |
|---|---|
| `Bytes.dfy` | bytes, exclusive-or, big-endian numbers |
| `Crypto.dfy` | primitives as arbitrary functions, the two counter modes |
| `E2e.dfy` | end-to-end keys, counter block, rollover-counter trackers |
| `Hbh.dfy` | hop-by-hop AES-ICM and its agreement with the end-to-end cipher |
| `Rtp.dfy` | RTP header codec and send-side sequencer |
| `Session.dfy` | the media pipeline and recovery over an unreliable network |
| `FixedPoint.dfy`, `FilterBank.dfy`, `Vad.dfy`, `Detector.dfy` | the SILK voice-activity detector |
| `Response.dfy`, `Scoring.dfy`, `Learning.dfy` | how its filters respond, what its score means, what it learns |
| `Checked.dfy`, `CheckedDetector.dfy` | the same detector with every operation checked |
| `H264.dfy`, `AnnexB.dfy` | H.264 packetization and Annex-B splitting |
| `Stun.dfy` | STUN encoding, its verification, two attribute walkers |
| `Sframe.dfy` | SFrame trailers and sessions |
| `Resampler.dfy`, `Framing.dfy`, `Wav.dfy` | streaming resampler, framer, and the WAVE path through both |
| `Player.dfy` | the player's locked sections and all their interleavings |

How to read it. An object whose methods update fields is a class; each method is proved
equal to a function on the values of those fields, and the results about runs are lemmas
about that function. Cryptographic primitives are arbitrary functions of the right types,
so a result holds for every cipher, MAC and checksum; of GCM it is assumed that opening
undoes sealing. The detector's arithmetic is written once for two readings, `Machine` (every
32-bit result wraps, every int16 cast truncates) and `Exact` (unbounded integers), and a second
time operation by operation in `Checked`, where a result that does not fit, a cast that loses
bits or a division by zero fails the whole run. That a run succeeds there is what is meant by
saying that nothing overflows. The player is a transition system whose world holds the
fields under the mutex and what each caller in mid-call still owes.

## Where the code falls short of a law

The model follows the code; each case below has its exact condition as a lemma.

- A rollover guess at distance exactly 2^15 is right on one side only (`E2e.GuessExactIff`).
- Payloads of zero bytes are sealed but refused on receipt (`Session.UnprotectSealed`,
  `Sframe.OpenInvertsSeal`).
- The two ciphers part beyond 2^20 bytes (`Hbh.CiphersAgreeIff`).
- An RTP extension that is not a multiple of four bytes, or too long for its length field,
  hides the end of the header (`Rtp.HeaderEndFoundIff`).
- The sigmoid drops at two steps (`FixedPoint.SigmRisesIff`).
- The in-place split goes wrong where its high band starts among the unread pairs
  (`FilterBank.InPlaceIff`): a fresh detector that hears one click forgets it in frames of 12 to
  15 samples, of 20 to 23, and so on (`Detector.HalvingsIff`). Frames of 2, 3, 6 and 7 samples
  index out of range (`Detector.FitsIff`). From 1024 samples on the first frame of a run can
  overflow (`CheckedDetector.RunSucceedsIff`); the state stays bounded even then
  (`Detector.AnalyseKeeps`). The documented 320 is clear of all three.
- Small units of type 0 or above 23 do not survive packetization (`H264.PackageRoundTripIff`).
- The last Annex-B unit keeps its trailing zeros (`AnnexB.SplitIff`).
- A caller's own MESSAGE-INTEGRITY attribute misleads a verifier (`Stun.IntegrityAcceptedIff`),
  and the two STUN walkers disagree on a message cut off inside its error attribute
  (`Stun.WalkersAgreeIff`, with such a message in `Stun.CutResponse`).
- `WAVFile` drops the bytes of each 8192-byte read that do not fill a channel group, so files
  with three channels, for example, lose samples (`Wav.BufferedExactIff`), lose step with their
  channels (`Wav.SecondReadShifted`) and play other frames (`Wav.WavFramesIff`). Its
  documentation makes no such exception.
- `Play(nil)` leaves a player that says it is playing without a source (`Player.IdleIff`),
  and playing a source a second time makes a closed source active (`Player.ReplayIff`).

## Model

| member | source | states |
|---|---|---|
| `Session.EndToEndRecovery` | meowcaller/session.go:188-251 | For any payloads and any delivery with loss, repetition and reordering inside the window, the mirrored receiver returns each delivered nonempty payload with its fixed header fields and refuses exactly the empty ones |
| `Session.ReceiverFollows` | meowcaller/session.go:225-251 | Throughout any delivery whose packets are within reach, ties included, the receive tracker stands at the highest index accepted so far |
| `Session.OneReceived` | meowcaller/session.go:225-251 | One delivered packet within reach, from any receiver state: what is returned and how the tracker moves |
| `Session.UnprotectSealed` | meowcaller/session.go:225-251 | An intact packet: refused with the tracker untouched if the payload is empty, otherwise header restored and payload decrypted under the guessed counter |
| `Session.RecoveredIff` | meowcaller/session.go:242-243 | The payload comes back under every block cipher if and only if the guessed rollover counter is the one used to send |
| `Session.DeliveredIff` | meowcaller/session.go:188-251 | One delivered nonempty packet comes back under every cipher if and only if its index lies within 2^15 of the highest accepted, or at distance 2^15 on the tie side |
| `Session.RunRecoveredIff` | meowcaller/session.go:188-251 | Over a whole delivery every nonempty packet comes back under every cipher if and only if each lies in that window of the tracker as the packets before left it |
| `Session.SentPacketForm` | meowcaller/session.go:188-203 | The k-th packet of any run is sealed under 48-bit index exactly k + 1, with its header given by facts about the run |
| `Session.AfterSendsForm` | meowcaller/session.go:188-203 | Sequencer and send tracker after any run of payloads, in closed form |
| `Session.RunBlocksDistinctIff` | meowcaller/session.go:188-203 | Two packets of a run share a counter block if and only if their numbers are congruent modulo 2^48 and it is the same block number; so none repeats in the first 2^48 |
| `Session.MediaPipeline.New` | meowcaller/session.go:161-184 | A pipeline comes out exactly for call keys of at least 32 bytes; its send keys are derived from the own id and its receive keys from the id of the peer |
| `Session.MediaPipeline.WithKeys` | meowcaller/session.go:177-183 | Fresh sequencer and trackers, piggybacking off |
| `Session.MediaPipeline.ProtectAudio` | meowcaller/session.go:188-203 | The object computes and moves as the one-packet specification does |
| `Session.MediaPipeline.UnprotectAudio` | meowcaller/session.go:225-251 | Likewise on receipt, every refusal coming before the tracker moves |
| `Session.SealedUnderOwnId` | meowcaller/session.go:161-203 | Packet k of any run of a pipeline is sealed under the keys derived from its own id |
| `Session.PeerPacketOpens` | meowcaller/session.go:161-251 | After any packets whatever, what is sealed under the keys derived from the id of the peer opens to its payload and fixed fields, if its index lies in the window |
| `Session.ReceivesKeepKeys` | meowcaller/session.go:225-251 | No packet received changes the receive keys |
| `Session.TagLayout` | meowcaller/srtp/warp.go:40-62 | The tag is the first four bytes of the HMAC over packet and big-endian rollover counter, and stands last |
| `Session.SealedParts` | meowcaller/session.go:188-203 | A packet is header, payload under AES counter mode from the block of section 4.1.1 of RFC 3711, and the tag over both under the authentication key |
| `Session.RefusedIff` | meowcaller/session.go:225-247 | Refused are exactly packets below 16 bytes and, without their tag, those of malformed header or empty payload; a refused packet leaves everything as it was |
| `Session.FirstHeaderBytes` | meowcaller/session.go:188-203 | The header of the first speech packet of a run, byte by byte |
| `E2e.BuildE2eRtpIV` | meowcaller/srtp/e2e.go:103-122 | The in-place construction gives the block of section 4.1.1 of RFC 3711, for salts of up to 14 bytes |
| `E2e.IndexBytes` | meowcaller/srtp/e2e.go:112-120 | The 16 + 32 bit split of the packet index spells rollover counter and sequence number |
| `E2e.PacketMaskNumber` | meowcaller/srtp/e2e.go:110-120 | What is folded into the salt is the number SSRC * 2^64 + index * 2^16 |
| `E2e.KdfIsStandard` | meowcaller/srtp/e2e.go:26-38 | The key derivation is AES counter mode from (salt XOR label * 2^48) * 2^16, section 4.3 of RFC 3711 |
| `E2e.KeysAreStandard` | meowcaller/srtp/e2e.go:42-81 | Cipher key, authentication key and salt have labels 0, 1 and 2 over the HKDF output of the first 32 bytes of the call key and the id |
| `E2e.AdvanceExactIff` | meowcaller/srtp/e2e.go:149-164 | From a tracker that spells an index, a packet d further on moves it to spell the new index if and only if d is below 2^15 or no wrap lies between |
| `E2e.AdvanceKeeps` | meowcaller/srtp/e2e.go:149-164 | A packet at most 2^15 behind leaves the counter alone |
| `E2e.CounterBlocksDistinct` | meowcaller/srtp/e2e.go:103-138 | Under one salt, equal counter blocks within 2^16 blocks force equal SSRC, rollover counter, sequence number and block number |
| `E2e.RocTracker.constructor` | meowcaller/srtp/e2e.go:141-146 | A fresh send tracker |
| `E2e.RocTracker.Advance` | meowcaller/srtp/e2e.go:149-164 | The counter moves on, modulo 2^32, exactly when a sequence number falls more than 32768 below its predecessor |
| `E2e.ConsecutiveRoc` | meowcaller/srtp/e2e.go:149-164 | On a gapless run of any length the tracker spells the 48-bit index |
| `E2e.RecvRocTracker.constructor` | meowcaller/srtp/e2e.go:168-173 | A fresh receive tracker |
| `E2e.RecvRocTracker.GuessRoc` | meowcaller/srtp/e2e.go:176-209 | The branching estimator with its uint32 wrap-around returns the counter of the nearest index congruent to the sequence number, and advances to the larger index |
| `E2e.GuessExactIff` | meowcaller/srtp/e2e.go:176-209 | The guess is the true index if and only if it lies within 2^15 of the highest, or at distance 2^15 on the side ties are broken towards |
| `E2e.GuessedRocIff` | meowcaller/srtp/e2e.go:176-209 | A tracker at any highest index, over unbounded runs, guesses the true counter if and only if the index lies in that window |
| `E2e.GuessInWindow` | meowcaller/srtp/e2e.go:176-209 | Inside the window the guess is exact modulo 2^32 and the highest index becomes the maximum, over unbounded runs |
| `E2e.GuessFirst` | meowcaller/srtp/e2e.go:176-186 | The first packet seeds the tracker with counter 0 |
| `E2e.HighestNeverRetreats` | meowcaller/srtp/e2e.go:176-209 | On any input the highest index moves forward by at most 2^15 |
| `Crypto.CtrCryptInvolutive` | meowcaller/srtp/e2e.go:125-138 | Counter mode under the same key and block undoes itself |
| `Crypto.CountersAgreeIff` | meowcaller/srtp/hbh.go:133-136 | The two-byte counter and the 128-bit counter give the same block if and only if the low 16 bits have not wrapped |
| `Hbh.LoadCounter` | meowcaller/srtp/hbh.go:112-116 | The counter block starts as the zero-padded salt with the nonce folded in |
| `Hbh.StepCounter` | meowcaller/srtp/hbh.go:133-136 | The single carry from byte 15 into byte 14 is addition modulo 2^16 on those bytes |
| `Hbh.CryptBlock` | meowcaller/srtp/hbh.go:123-137 | One turn of the block loop, the last block possibly short |
| `Hbh.AesIcmCrypt` | meowcaller/srtp/hbh.go:108-139 | The block loop masks byte i with byte i mod 16 of the encryption of counter block i / 16 |
| `Hbh.IcmIsCounterMode` | meowcaller/srtp/hbh.go:108-139 | Up to 2^20 bytes from a zero counter, AES-ICM is plain 128-bit counter mode |
| `Hbh.ExpansionsAgree` | meowcaller/srtp/hbh.go:142-173 | libsrtp key expansion and the end-to-end derivation produce the same three session keys from the same master |
| `Hbh.CiphersAgree` | meowcaller/srtp/hbh.go:177-199 | Equal key, salt, SSRC and index: hop-by-hop and end-to-end encryption give the same bytes, up to 2^20 of them |
| `Hbh.CiphersDiffer` | meowcaller/srtp/hbh.go:177-199 | Past 2^20 bytes some block cipher tells them apart |
| `Hbh.CiphersAgreeIff` | meowcaller/srtp/hbh.go:177-199 | Agreement under every block cipher holds if and only if the payload has at most 2^20 bytes |
| `Rtp.EncodeRtpHeader` | meowcaller/rtp/rtp.go:192-227 | Filling the buffer field by field gives the wire form of section 5.1 of RFC 3550 with the extension header of section 5.3.1 |
| `Rtp.ParseInvertsEncode` | meowcaller/rtp/rtp.go:172-227 | Parsing restores every fixed field, whatever follows the header |
| `Rtp.HeaderEndFoundIff` | meowcaller/rtp/rtp.go:131-163 | The end of an encoded header is found if and only if its extension is a multiple of 4 bytes below 2^18 |
| `Rtp.HeaderLayout` | meowcaller/rtp/rtp.go:192-227 | Every fixed field stands at its place of section 5.1 of RFC 3550, most significant byte first, and the extension length counts words |
| `Rtp.ExtensionLayout` | meowcaller/rtp/rtp.go:192-227 | Extension word or bytes stand behind that length, in full |
| `Rtp.AnyHeaderLength` | meowcaller/rtp/rtp.go:131-163 | The end of any well-formed header, CSRC list and extension included, is where its payload starts |
| `Rtp.HeaderEndIff` | meowcaller/rtp/rtp.go:131-163 | On every byte string: a header has an end exactly if the packet is of version 2 with its CSRC list and flagged extension in full, and the payload starts there |
| `Rtp.CutHeaderRefused` | meowcaller/rtp/rtp.go:131-163 | A header cut short anywhere has no end |
| `Rtp.DtxIff` | meowcaller/rtp/rtp.go:51-68 | Which payloads are comfort noise, by length and first byte |
| `Rtp.SpeechIff` | meowcaller/rtp/rtp.go:274-276 | Speech is everything but comfort noise and the two priming frames |
| `Rtp.RtpStream.constructor` | meowcaller/rtp/rtp.go:242-253 | A stream starts at sequence number 1 and timestamp 0 |
| `Rtp.RtpStream.ResolveWarpExtension` | meowcaller/rtp/rtp.go:257-269 | When the extension word is sent, and that only non-DTX packets under piggybacking are counted |
| `Rtp.RtpStream.NextPacket` | meowcaller/rtp/rtp.go:272-293 | Header and next state of one packet, with 16- and 32-bit wrap-around |
| `Rtp.AfterPacketsForm` | meowcaller/rtp/rtp.go:272-293 | The sequencer after any run, from facts about the run: its length, whether it held speech, how many packets were not comfort noise |
| `Rtp.RunHeader` | meowcaller/rtp/rtp.go:257-293 | Header k of a run: number k + 1, stamp k * spp, marker exactly on the first speech packet, extension exactly on comfort noise or past the second audio packet under piggybacking |
| `FixedPoint.AddPosSatCaps` | meowcaller/mlow/vad.go:41-46 | On nonnegative operands the unsigned trick is addition capped at 2^31 - 1 |
| `FixedPoint.FracIsMantissa` | meowcaller/mlow/vad.go:50-61 | Rotation and mask give the seven bits below the leading one |
| `FixedPoint.Lin2LogInOctave` | meowcaller/mlow/vad.go:64-67 | The logarithm stays inside the octave of its argument and the machine computes it exactly |
| `FixedPoint.Lin2LogRises` | meowcaller/mlow/vad.go:64-67 | It never falls as its argument rises |
| `FixedPoint.SqrtApproxBound` | meowcaller/mlow/vad.go:69-82 | Below 2^24 the root stays below 4096 and the machine computes it exactly |
| `FixedPoint.SigmRange` | meowcaller/mlow/vad.go:85-102 | From -128 on the sigmoid lies in [589, 32767] |
| `FixedPoint.SigmRisesIff` | meowcaller/mlow/vad.go:85-102 | The sigmoid rises at every step except exactly 159 to 160 and -160 to -159 |
| `Scoring.Lin2LogAtQuarters` | meowcaller/mlow/vad.go:64-67 | At (4 + j) * 2^k the logarithm is 128 * (k + 2) and 0, 40, 75 or 104 more |
| `Scoring.RootInOctave` | meowcaller/mlow/vad.go:69-82 | For arguments from 4^k on and below 4^(k + 1) the root lies from 2^k on and below 2^(k + 1) |
| `Scoring.SigmoidSymmetric` | meowcaller/mlow/vad.go:85-102 | The sigmoid of x and of -x add up to 32767, or to 32768 below 32 |
| `FilterBank.EvenSectionExact` | meowcaller/mlow/vad.go:191-195 | Inside its bound the even all-pass section is exact and stays in the bound |
| `FilterBank.OddSectionExact` | meowcaller/mlow/vad.go:197-201 | Likewise the odd section |
| `FilterBank.SplitExact` | meowcaller/mlow/vad.go:188-206 | One pair of samples: machine arithmetic equals unbounded arithmetic, bounds kept, 16-bit outputs |
| `FilterBank.BlockExact` | meowcaller/mlow/vad.go:188-206 | A whole block of any length: machine arithmetic equals unbounded arithmetic, state bounded, bands 16-bit |
| `Response.EvenIsAllPass` | meowcaller/mlow/vad.go:191-195 | The even section is the first-order all-pass filter of coefficient 36214/65536, up to two units in 65536ths |
| `Response.OddIsAllPass` | meowcaller/mlow/vad.go:197-201 | The odd section likewise, with 7788/65536 |
| `Response.BandsAreHalves` | meowcaller/mlow/vad.go:203-205 | The low band is half the sum of the two sections, the high band half their difference, rounded and clipped |
| `Response.ConstantIsLow` | meowcaller/mlow/vad.go:188-206 | From any bounded state, after 24 pairs a constant signal is all in the low band and nothing of it in the high band |
| `Response.AlternatingIsHigh` | meowcaller/mlow/vad.go:188-206 | An alternating signal, once settled, is all in the high band |
| `FilterBank.AnaFiltBank1` | meowcaller/mlow/vad.go:188-206 | The out-of-place loop computes both bands and the end state and leaves the rest of the buffer alone |
| `FilterBank.AnaFiltBank1Inplace` | meowcaller/mlow/vad.go:210-228 | The in-place loop, wherever its high band goes, computes its turn-by-turn specification, each turn reading what the turns before left |
| `FilterBank.ClearSplits` | meowcaller/mlow/vad.go:188-228 | When the high band is clear of the unread pairs, that leaves, for every splitting rule, state and buffer, exactly the low band, high band and state of the out-of-place split, and nothing behind them changed |
| `FilterBank.InPlaceIff` | meowcaller/mlow/vad.go:188-228 | The filter splits every 16-bit buffer in place as out of place, from every bounded state, if and only if the high band starts past all pairs, or there is one pair and it starts at 1 |
| `Detector.FitsIff` | meowcaller/mlow/vad.go:265-277 | The band layout stays inside the work buffer at every frame length except 2, 3, 6 and 7, where the source indexes out of range |
| `Detector.ClearLengthIff` | meowcaller/mlow/vad.go:265-279 | The offsets keep both in-place splits clear if and only if the frame length modulo 8 is below 4 or the length is below 8 |
| `Detector.HalvingsIff` | meowcaller/mlow/vad.go:264-285 | The detector yields three true halvings with their states, from every bounded state and for every 16-bit frame of a length, if and only if the length is one of these |
| `Detector.ClickForgotten` | meowcaller/mlow/vad.go:264-285 | At any other length a fresh detector that hears one click forgets it in its second split |
| `FilterBank.HighPassExact` | meowcaller/mlow/vad.go:177-184 | One high-pass step: exact, bounded state, 16-bit output |
| `FilterBank.HpOutputAgrees` | meowcaller/mlow/vad.go:177-184 | The same for a whole block |
| `FilterBank.FiltHP` | meowcaller/mlow/vad.go:177-184 | The in-place filter loop computes the block specification and touches nothing past its length |
| `Response.HighPassIsFirstOrder` | meowcaller/mlow/vad.go:177-184 | An output is 53084/65536 of the one before less 59310/65536 of the rise of the input, clipped |
| `Response.ConstantDies` | meowcaller/mlow/vad.go:177-184 | Under a constant input each output is 53084/65536 of the one before |
| `Vad.BandEnergyExact` | meowcaller/mlow/vad.go:287-313 | Energies of bands below 512 samples are exact and nonnegative |
| `Vad.BandEnergyFits` | meowcaller/mlow/vad.go:287-313 | The energy of any band, however long or loud, ends nonnegative in the machine |
| `Scoring.EnergyOfParts` | meowcaller/mlow/vad.go:287-313 | The energy of a band: the squares of the eighths of its samples, three quarters in full, the last one half now and in full in the next frame, capped |
| `Vad.MeasureBand` | meowcaller/mlow/vad.go:287-313 | The nested loop computes the band energy and the carried last subframe |
| `Vad.InverseMovesBetween` | meowcaller/mlow/vad.go:249-252 | The inverse noise level moves only between its old value and the reciprocal of the energy |
| `Vad.NoiseStep` | meowcaller/mlow/vad.go:231-261 | One update keeps 1 <= invNl <= MaxInt32 / bias and bias <= nl <= 0x00FFFFFF |
| `Vad.NoiseFacts` | meowcaller/mlow/vad.go:231-261 | Every intermediate of an update is exact and no divisor is zero |
| `Vad.NoiseStepExact` | meowcaller/mlow/vad.go:231-261 | Machine and unbounded arithmetic give the same update |
| `Vad.RisesSlowly` | meowcaller/mlow/vad.go:240-256 | A band above eight times its level moves the inverse level 128/65536 of the way to the reciprocal of its energy, or the minimum if that is more |
| `Vad.FallsFast` | meowcaller/mlow/vad.go:240-256 | A band below its level moves it 1024/65536 of the way, or the minimum |
| `Vad.MovesByRatio` | meowcaller/mlow/vad.go:240-256 | In between the fraction is 1024 times level over energy, up to 10, over 65536 |
| `Vad.StepLearns` | meowcaller/mlow/vad.go:231-261 | The three cases in one statement |
| `Detector.AllLearn` | meowcaller/mlow/vad.go:231-261 | They hold of every band, with the bias of the band and the minimum of the frame |
| `Learning.RunLearns` | meowcaller/mlow/vad.go:162-261 | Over whole runs of packets: how each frame moves the level of each band, the minimum given by the number of frames heard |
| `Learning.CounterAfterPackets` | meowcaller/mlow/vad.go:231-236 | The counter is 15 more than the frames of all packets accepted, up to 1000 |
| `Learning.InitialLevels` | meowcaller/mlow/vad.go:162-174 | Where a run starts, in numbers |
| `Vad.SnrRange` | meowcaller/mlow/vad.go:317-333 | The ratio of one band lies in [-128, 2943], in both readings |
| `Vad.SnrSumRange` | meowcaller/mlow/vad.go:317-336 | The summed squares stay within 4 * 9 * 2^20, in both readings |
| `Vad.ScoreRange` | meowcaller/mlow/vad.go:337-348 | The score lies in [4, 255], in both readings |
| `Scoring.SnrOctaves` | meowcaller/mlow/vad.go:320-328 | The whole octaves of the ratio of a band are those of 256 times energy over level, up to 256 in the level |
| `Scoring.RootAbove16` | meowcaller/mlow/vad.go:337-338 | The root of the mean square is 17 or more if and only if the mean is 296 or more |
| `Scoring.ActiveScoreIff` | meowcaller/mlow/vad.go:337-348 | A sum of squares scores above 12 if and only if it is 1184 or more |
| `Scoring.FrameActivity` | meowcaller/mlow/vad.go:264-349 | One frame: above 12 exactly when the squared ratios of the bands above their level reach 1184; one band at twice its level plus 256 suffices; no band above its level scores 4 |
| `Detector.AnalyseKeeps` | meowcaller/mlow/vad.go:264-349 | One frame of any length the source survives: the state stays bounded and the activity lies in [4, 255] |
| `Detector.AnalyseExact` | meowcaller/mlow/vad.go:264-349 | One frame below 1024 samples: machine arithmetic equals unbounded arithmetic |
| `Detector.PacketKeeps` | meowcaller/mlow/vad.go:352-392 | A packet of frames of any length keeps the state bounded |
| `Detector.PacketExact` | meowcaller/mlow/vad.go:352-392 | A packet of frames below 1024 samples is exact, too short packets included |
| `Detector.RunExact` | meowcaller/mlow/vad.go:162-392 | Over any run of 16-bit packets of frames below 1024 samples, from the initial state, machine arithmetic equals unbounded arithmetic |
| `Checked.Lin2LogSucceeds` | meowcaller/mlow/vad.go:64-67 | No operation of the logarithm overflows |
| `Checked.SqrtApproxSucceeds` | meowcaller/mlow/vad.go:69-82 | No operation of the root overflows below 2^24 |
| `Checked.SigmSucceeds` | meowcaller/mlow/vad.go:85-102 | No operation of the sigmoid overflows |
| `Checked.SplitSucceeds` | meowcaller/mlow/vad.go:188-206 | Inside the bounds no operation of the two sections overflows, and the checked split is the exact one |
| `Checked.SplitInPlaceSucceeds` | meowcaller/mlow/vad.go:210-228 | Nor does any turn of the in-place loop, wherever its high band goes |
| `Checked.HighPassSucceeds` | meowcaller/mlow/vad.go:177-184 | Nor any operation of the high-pass filter |
| `Checked.BandEnergySucceeds` | meowcaller/mlow/vad.go:287-313 | Nor any operation of the energy of a band below 512 samples |
| `Checked.BandEnergySucceedsIff` | meowcaller/mlow/vad.go:287-313 | No 16-bit band of n samples overflows its energy if and only if n is below 512 |
| `CheckedDetector.NoiseStepSucceeds` | meowcaller/mlow/vad.go:231-261 | No operation of a noise update overflows, no cast loses bits and no divisor is zero |
| `CheckedDetector.SnrSumsSucceed` | meowcaller/mlow/vad.go:317-336 | Nor any operation of the ratios, of their squares, and of the input tilt that the source throws away |
| `CheckedDetector.ScoreSucceeds` | meowcaller/mlow/vad.go:337-348 | Nor any operation of the score |
| `CheckedDetector.SplitBandsSucceeds` | meowcaller/mlow/vad.go:264-285 | Nor any operation of the three splits and the high-pass filter |
| `CheckedDetector.AnalyseSucceeds` | meowcaller/mlow/vad.go:264-349 | One frame from any bounded state: every operation succeeds, with the exact result |
| `CheckedDetector.FirstFrameOverflows` | meowcaller/mlow/vad.go:264-349 | At 1024 samples and more the loudest alternating frame overflows a fresh detector at once |
| `CheckedDetector.AnalyseSucceedsIff` | meowcaller/mlow/vad.go:264-349 | Frames of n samples succeed from every bounded state if and only if n is below 1024 |
| `CheckedDetector.PacketSucceeds` | meowcaller/mlow/vad.go:352-392 | The same for a packet |
| `CheckedDetector.RunSucceeds` | meowcaller/mlow/vad.go:162-392 | Over any run of 16-bit packets of frames below 1024 samples, from the initial state, every operation succeeds, and the state is that of the machine |
| `CheckedDetector.RunSucceedsIff` | meowcaller/mlow/vad.go:162-392 | From the initial state every run of 16-bit packets succeeds if and only if frames are below 1024 samples |
| `Detector.HangPacket` | meowcaller/mlow/vad.go:378-391 | Three frames: coded if and only if there was speech or hangover was left; afterwards hangover is 0, 20, 40 or 60 and positive if and only if there was speech |
| `Detector.PacketVerdict` | meowcaller/mlow/vad.go:352-392 | The same in terms of the packet analysis |
| `Scoring.PacketReports` | meowcaller/mlow/vad.go:352-392 | An accepted packet reports each activity over 256, and is coded exactly when one is above 12/256 or hangover was left |
| `Scoring.FramesInOrder` | meowcaller/mlow/vad.go:352-377 | The three frames of a packet are analysed in order, each from the state the one before left; samples behind them are not looked at |
| `Detector.HangoverAfter` | meowcaller/mlow/vad.go:378-391 | After packet p of a run, of frames of any length the source survives, hangover is 0, 20, 40 or 60, and left if and only if p contained speech |
| `Detector.CodedIff` | meowcaller/mlow/vad.go:352-392 | Over any run a packet is coded as active voice if and only if it is accepted and none was accepted before it, or it or the last accepted before it contains speech |
| `Detector.StateSinceAccepted` | meowcaller/mlow/vad.go:359-361 | Packets too short for three frames leave the state where the last accepted one left it |
| `Detector.SmplVadState.constructor` | meowcaller/mlow/vad.go:162-174 | The object starts in the initial state |
| `Detector.SmplVadState.GetNoiseLevels` | meowcaller/mlow/vad.go:231-261 | The band loop moves every level slowly up, fast down, and by the ratio in between, and steps the counter up to 1000 |
| `Detector.SplitFrame` | meowcaller/mlow/vad.go:269-277 | The first split fills the silent work buffer |
| `Detector.SplitIntoBands` | meowcaller/mlow/vad.go:264-285 | Three splits over one buffer, the lowest band high-passed, leave the four specified bands |
| `Detector.ScoreBands` | meowcaller/mlow/vad.go:317-348 | The loop over bands computes the summed ratios and the score |
| `Detector.SmplVadState.MeasureBands` | meowcaller/mlow/vad.go:287-313 | Energies of all bands, carries stored in the state |
| `Detector.SmplVadState.GetSAQ8` | meowcaller/mlow/vad.go:264-349 | The object analyses one frame as specified |
| `Detector.SmplVadState.AnalyseFrames` | meowcaller/mlow/vad.go:352-377 | Three frames in order |
| `Detector.SmplVadState.Hangover` | meowcaller/mlow/vad.go:378-391 | The hangover loop |
| `Detector.SmplVadState.ProcessPacket` | meowcaller/mlow/vad.go:352-392 | The object processes one packet as specified |
| `H264.PackageH264NALU` | meowcaller/rtp/h264.go:19-64 | The fragmenting loop produces the specified payloads |
| `H264.PayloadShape` | meowcaller/rtp/h264.go:19-64 | Units up to 800 bytes go whole; a larger one becomes fragments of 800 bytes, the last possibly shorter, each with the indicator bits and type of the unit, start bit only on the first and end bit only on the last |
| `H264.FragmentsShape` | meowcaller/rtp/h264.go:38-63 | The same from any offset, with the exact number of fragments left |
| `H264.PackageH264STAPA` | meowcaller/rtp/h264.go:68-100 | The two loops compute the specified aggregate or refuse |
| `H264.AggregateHeader` | meowcaller/rtp/h264.go:68-100 | An aggregate comes out if and only if there are at least two units, none empty or above 65535 bytes, within 800 bytes together; its header has type 24 and the highest reference indicator among them |
| `H264.SplitStapIff` | meowcaller/rtp/h264.go:176-189 | On every byte string: the units are those in front of the first length that is cut short, zero or beyond the end |
| `H264.H264Depacketizer.constructor` | meowcaller/rtp/h264.go:150-155 | A fresh depacketizer |
| `H264.SplitAggregate` | meowcaller/rtp/h264.go:176-189 | The aggregate loop yields the length-prefixed units up to the first that does not fit |
| `H264.H264Depacketizer.Depacketize` | meowcaller/rtp/h264.go:159-232 | One payload: next state and completed units, by type |
| `H264.PackageRoundTrip` | meowcaller/rtp/h264.go:19-232 | From any depacketizer state the payloads of a carriable unit yield exactly that unit |
| `H264.PackageRoundTripIff` | meowcaller/rtp/h264.go:19-232 | This holds from every state if and only if the unit is nonempty, within 4 MiB, and of type 1 to 23 when sent whole |
| `H264.RunLarge` | meowcaller/rtp/h264.go:159-232 | A fragmented unit above 4 MiB yields nothing, any other exactly itself |
| `H264.RunHolds` | meowcaller/rtp/h264.go:159-232 | After any payloads a fresh depacketizer is in the middle of a unit exactly when the latest payloads are a start fragment and continuations within 4 MiB, and it holds what these carry; anything else in between ends it |
| `H264.EndCompletes` | meowcaller/rtp/h264.go:195-228 | After any payloads an end fragment completes exactly that unit, or nothing |
| `H264.Resynchronises` | meowcaller/rtp/h264.go:159-232 | Whatever payloads come before and after, a unit whose payloads arrive together comes out between them |
| `H264.StreamRoundTrip` | meowcaller/rtp/h264.go:19-232 | A whole stream of carriable units comes back, from any state |
| `H264.SplitInvertsBody` | meowcaller/rtp/h264.go:92-189 | Splitting an aggregate body inverts building it |
| `H264.AggregateRoundTrip` | meowcaller/rtp/h264.go:68-189 | An aggregate fits 800 bytes and depacketizes to its list of units, from any state |
| `AnnexB.TrimEnd` | meowcaller/rtp/h264.go:112-116 | Only zeros lie behind the end found, and none in front of it |
| `AnnexB.SplitAnnexB` | meowcaller/rtp/h264.go:104-131 | The scanning loop yields the specified units |
| `AnnexB.SplitsInto` | meowcaller/rtp/h264.go:104-131 | Bytes before the first start code are ignored, zeros in front of a start code are dropped, and every nonempty run between start codes is one unit |
| `AnnexB.Decompose` | meowcaller/rtp/h264.go:104-131 | Every byte string consists of such parts |
| `AnnexB.SplitIff` | meowcaller/rtp/h264.go:104-131 | On every byte string the units are exactly the nonempty segments of its parts |
| `AnnexB.SplitSeparable` | meowcaller/rtp/h264.go:104-131 | On every byte string the units are nonempty and free of start codes, and only the last may end in zero |
| `AnnexB.SplitInvertsJoinIff` | meowcaller/rtp/h264.go:104-146 | Whatever bytes without a start code come first and however many zeros pad each start code, splitting gives back the joined units if and only if they have that form |
| `AnnexB.SplitJoinSplit` | meowcaller/rtp/h264.go:104-146 | Split, join, split equals split on every byte string |
| `Stun.EncodeStunRequest` | meowcaller/stun/stun.go:92-132 | The growing buffer equals header, attributes, integrity and fingerprint as specified |
| `Stun.HeaderAccepted` | meowcaller/stun/stun.go:82-90 | Type, magic cookie 2112A442 and transaction id stand at their places of section 6 of RFC 5389 |
| `Stun.AttrLayout` | meowcaller/stun/stun.go:63-71 | Type and length as 16-bit numbers, the value, zeros up to a multiple of four |
| `Stun.ParseStunAttributes` | meowcaller/stun/stun.go:273-297 | The walking loop lists the attributes up to the first cut short; it ends on every byte string |
| `Stun.ListIff` | meowcaller/stun/stun.go:273-297 | On every message the attributes listed are those in front of the first that is cut short, whatever bytes pad them, the last one possibly with its padding cut |
| `Stun.NotStunIff` | meowcaller/stun/stun.go:206-280 | Nothing is listed of what is below 20 bytes or not zero in its first two bits |
| `Stun.ParseInvertsEncodeAttrs` | meowcaller/stun/stun.go:63-71 | Walking encoded attributes lists them again |
| `Stun.ParseInvertsEncode` | meowcaller/stun/stun.go:92-297 | Parsing an encoded message returns the attributes sent, then integrity and fingerprint where asked for |
| `Stun.LengthOkIff` | meowcaller/stun/stun.go:119-131 | The length field is right if and only if the body fits 16 bits |
| `Stun.VerifierAccepts` | meowcaller/stun/stun.go:92-132 | A verifier written from sections 15.4 and 15.5 of RFC 5389 accepts length and fingerprint for every MAC and CRC, and the integrity unless the caller passed a MESSAGE-INTEGRITY of its own |
| `Stun.IntegrityAcceptedIff` | meowcaller/stun/stun.go:92-112 | The integrity check accepts under every MAC if and only if the caller passed no MESSAGE-INTEGRITY attribute of its own |
| `Stun.ParseStunErrorCode` | meowcaller/stun/stun.go:300-328 | The error-code loop computes its specification; it ends on every byte string |
| `Stun.WalkersAgreeIff` | meowcaller/stun/stun.go:273-328 | On an error response with a right length field both walkers find the same code or none, if and only if the message is not cut off inside its first error attribute |
| `Stun.CutResponse` | meowcaller/stun/stun.go:300-328 | Such a message exists: one walker finds 401, the other lists nothing |
| `Stun.WholeResponse` | meowcaller/stun/stun.go:273-328 | On every error response made of whole attributes the error-code walker finds the first error code among them, or none |
| `Stun.ErrorIsRead` | meowcaller/stun/stun.go:300-328 | The code read is 100 times byte 2 plus byte 3 of the first error attribute within the declared length, whatever lies behind |
| `Stun.NoErrorToRead` | meowcaller/stun/stun.go:300-328 | Without an error attribute of four bytes within that length there is no code |
| `Stun.ErrorResponseIff` | meowcaller/stun/stun.go:211-310 | Error responses are those of type 0x0111 or 0x0113, and no other message has a code |
| `Sframe.UvarintInverts` | meowcaller/srtp/sframe.go:83-109 | Decoding a base-128 varint inverts encoding, within ten bytes and 64 bits |
| `Sframe.UvarintLayout` | meowcaller/srtp/sframe.go:83-90 | Byte i of a varint holds the group of weight 128^i, with the continuation bit on all but the last, and no group is wasted |
| `Sframe.HeaderRoundTrip` | meowcaller/srtp/sframe.go:83-109 | Header parse inverts header build for all 64-bit counters and key ids |
| `Sframe.NoncesDistinct` | meowcaller/srtp/sframe.go:74-79 | Different counters give different nonces |
| `Sframe.NonceLayout` | meowcaller/srtp/sframe.go:74-79 | Eight zero bytes, then the counter, the byte of weight 256^i at place 8 + i |
| `Sframe.KeyDirections` | meowcaller/srtp/sframe.go:48-58 | Encryption under the key derived for the id of the peer, decryption under that for the own id, salt and key material the two halves of the call key |
| `Sframe.SframeSession.New` | meowcaller/srtp/sframe.go:157-177 | A session comes out exactly for call keys of 32 bytes, with these keys |
| `Sframe.OpensForSelf` | meowcaller/srtp/sframe.go:157-232 | Whatever is sealed under the key derived for the own id opens |
| `Sframe.FrameLayout` | meowcaller/srtp/sframe.go:180-196 | Ciphertext and tag, counter as a varint, key id zero, length of the trailer |
| `Sframe.TrailerExample` | meowcaller/srtp/sframe.go:83-90 | Two trailers byte by byte |
| `Sframe.SframeSession.constructor` | meowcaller/srtp/sframe.go:157-177 | A session starts at counter 0 |
| `Sframe.SframeSession.Encrypt` | meowcaller/srtp/sframe.go:180-196 | A frame is sealed under the counter as it was, which then moves on modulo 2^64 |
| `Sframe.SframeSession.Decrypt` | meowcaller/srtp/sframe.go:201-232 | The guards in order compute the specified classification, and no state is kept |
| `Sframe.OpenInvertsSeal` | meowcaller/srtp/sframe.go:180-232 | A sealed frame opens to its plaintext, an empty plaintext is refused |
| `Sframe.RunRecovery` | meowcaller/srtp/sframe.go:157-232 | The mirrored receiver, which keeps no state, opens every nonempty frame of any run of encryptions |
| `Sframe.RunNoncesDistinctIff` | meowcaller/srtp/sframe.go:180-196 | Two frames of a run share a nonce if and only if their numbers are congruent modulo 2^64 |
| `Resampler.DownmixResampler.constructor` | meowcaller/source.go:76-78 | A fresh resampler |
| `Resampler.DownmixResampler.Process` | meowcaller/source.go:83-122 | The emitting loop and the carried fields compute the one-call specification |
| `Resampler.CountExact` | meowcaller/source.go:105-116 | Output k exists if and only if an input sample lies after position k * inRate / 16000 |
| `Resampler.WindowEmits` | meowcaller/source.go:92-116 | Emission inside the buffer of one chunk, carried-over sample included, is emission inside the whole stream |
| `Resampler.CallExtends` | meowcaller/source.go:83-122 | One call after any stream returns exactly what the longer stream resamples to beyond the shorter one, and leaves the state of the longer stream |
| `Resampler.RunResamples` | meowcaller/source.go:83-122 | The same for any number of calls |
| `Resampler.RunOnLines` | meowcaller/source.go:83-122 | However the stream is cut: with p = k * inRate / 16000 and i its floor, output k is sample i if p is whole, and otherwise exceeds it by (p - i) times the step from sample i to sample i + 1 |
| `Resampler.RunKeepsLines` | meowcaller/source.go:83-122 | A stream a * i + b resamples to a * p + b, however it is cut |
| `Resampler.CallOnLines` | meowcaller/source.go:83-122 | Within one call each output lies on the line between the samples around its position, the carried one included |
| `Resampler.ChunkInvariance` | meowcaller/source.go:83-122 | Any cutting into chunks gives the outputs and the final state of one call |
| `Resampler.CountIsCeiling` | meowcaller/source.go:83-122 | N >= 1 samples give ceil((N - 1) * 16000 / inRate) outputs when inRate is not 16000 |
| `Framing.FrameSource.constructor` | meowcaller/source.go:19-24 | An empty buffer in front of a decoder |
| `Framing.FrameSource.Push` | meowcaller/source.go:27-29 | Appends |
| `Framing.FrameSource.ReadFrame` | meowcaller/source.go:33-50 | The pulling loop computes the one-read specification |
| `Framing.FramesConserve` | meowcaller/source.go:19-50 | Frames all have the frame length, hold every sample once and in order, and end in fewer than a frame of zeros |
| `Framing.ReadTakes` | meowcaller/source.go:33-50 | A read takes the first frame off what remains; it reports end of file exactly when nothing remains, and an error loses no sample |
| `Framing.RunIsIdeal` | meowcaller/source.go:33-50 | Any run of reads on any decoder gives the frames of the stream, then end of file forever, with errors only in between and no more of them than the decoder has calls |
| `Framing.ErrorFreeRun` | meowcaller/source.go:33-50 | Without errors read k is frame k or end of file, whatever the sizes of the pushes |
| `Wav.Sum` | meowcaller/source.go:170-174 | A sum of n 16-bit samples lies within n * 2^15 |
| `Wav.WavMono` | meowcaller/source.go:166-178 | The nested loops average each channel group, and the 32-bit sum never overflows for any channel count a header can hold |
| `Wav.MonoIsMean` | meowcaller/source.go:166-178 | For any frames of 16-bit samples, interleaved low byte first: sample k of the mono signal times 32768 times the channels is the sum of frame k |
| `Wav.SumGroup` | meowcaller/source.go:170-174 | The inner loop sums one channel group |
| `Wav.BufferedExact` | meowcaller/source.go:139-161 | When the 8192-byte buffer holds whole channel groups, reading through it loses nothing |
| `Wav.BufferedExactIff` | meowcaller/source.go:147-154 | Every file decodes to its mono signal if and only if 8192 is a multiple of the group size |
| `Wav.ScriptDelivers` | meowcaller/source.go:139-161 | What the reads push adds up to the resampling of what they decode, whichever flag the last read returns |
| `Wav.SecondReadShifted` | meowcaller/source.go:139-161 | The first group decoded from the second read starts where the buffer ended, not where the groups of the first read did |
| `Wav.WavFrames` | meowcaller/source.go:126-163 | The whole path: when the buffer holds whole groups, reading a file frame by frame gives the frames of its resampled mono signal, then end of file forever |
| `Wav.FileMisread` | meowcaller/source.go:126-163 | Otherwise, whatever the frame length and the flag of the last short read, some 16 kHz file is read with other frames |
| `Wav.WavFramesIff` | meowcaller/source.go:126-163 | For every frame length: all files at all rates read as their mono signals do if and only if 8192 is a multiple of the group size |
| `Player.Player.constructor` | meowcaller/player.go:33-35 | An idle player |
| `Player.Player.Play` | meowcaller/player.go:39-48 | The locked section of Play, and the source it owes a close |
| `Player.Player.Pause` | meowcaller/player.go:51-57 | Only a playing player pauses |
| `Player.Player.Resume` | meowcaller/player.go:60-66 | Only a paused player resumes |
| `Player.Player.Stop` | meowcaller/player.go:69-78 | The locked section of Stop, and the source it owes a close |
| `Player.Player.OnFinish` | meowcaller/player.go:89-93 | Replaces the callback and nothing else |
| `Player.Player.BeginFrame` | meowcaller/player.go:98-106 | nextFrame goes on to read a source exactly when the player is playing and that source is set |
| `Player.Player.EndFrame` | meowcaller/player.go:112-120 | Its second locked section: idle and the callback captured exactly when the source is still the active one |
| `Player.StepKeepsInv` | meowcaller/player.go:39-129 | Every step of every caller keeps the invariant: sources played are partitioned into active, retired and ended; closes and callbacks made or owed are conserved |
| `Player.RunKeepsInv` | meowcaller/player.go:39-129 | So does every interleaving in which no source is played twice |
| `Player.NoLeak` | meowcaller/player.go:39-129 | Every source ever played is active, closed, or about to be closed |
| `Player.ActiveStaysOpen` | meowcaller/player.go:39-129 | The active source is neither closed nor about to be |
| `Player.FiresOnce` | meowcaller/player.go:98-129 | OnFinish fires at most once per source, only for one that ended by itself and is closed, never for one replaced or stopped |
| `Player.Quiescent` | meowcaller/player.go:39-129 | Once all callers have returned: how often exactly each source is closed, and that every announced ending fired exactly once |
| `Player.ReadsBeginIff` | meowcaller/player.go:98-106 | In any interleaving a read of a source begins only by a nextFrame that finds the player playing it |
| `Player.PullsIff` | meowcaller/player.go:39-129 | After any interleaving, the next nextFrame reads s if and only if some Play(s) was followed by no other Play, no Stop, no failed read of s, and no Pause without a later Resume |
| `Player.PausedPullsNothing` | meowcaller/player.go:51-66 | From a Pause on, until the next Play or Resume, no read begins |
| `Player.ResumeReads` | meowcaller/player.go:51-66 | If the source is still active after such a stretch, a Resume and a nextFrame read it again |
| `Player.CallbackIsLast` | meowcaller/player.go:89-93 | After any interleaving the callback is the one registered last |
| `Player.EndingCallsIff` | meowcaller/player.go:112-128 | A failed read owes a callback exactly when the source was played, not replaced, stopped or exhausted since, and the callback registered last is not nil |
| `Player.ReplayIff` | meowcaller/player.go:39-48 | Play makes a source active that is closed or about to be if and only if it was played before |
| `Player.IdleIff` | meowcaller/player.go:39-78 | Throughout a run the state is idle exactly when no source is set, if and only if the run never plays a nil source |

## Left out

- Detector.SmplVadState.GetSAQ8: asks for a frame length at which the source does not index out of range; `Detector.FitsIff` shows that these are all but 2, 3, 6 and 7.
- Detector.RunExact: asks for frames below 1024 samples; `CheckedDetector.RunSucceedsIff` shows that this is exact.
- FilterBank.FiltHP: filter states of two elements are values passed in and handed back rather than array elements.
- FixedPoint.SigmRisesIff: -2^31, whose negation overflows, is excluded; the source indexes out of range there and the detector never reaches it.
- E2e.GuessExactIff: asks that the true index lies within 2^47 of the highest; farther away 48-bit indices repeat.
- Crypto.CountersAgreeIff: covers the first 2^63 blocks, far beyond any payload.
- Session.RunRecoveredIff: likewise, as `Session.DeliveredIff`, asks that packets lie within 2^47 of the highest accepted.
- Player.RunKeepsInv: asks that no source is played twice; `Player.ReplayIff` shows what happens otherwise.
- The WAVE header (its chunk walk) and read errors of the file: reads are complete except at the end of the data.
- Framing.FrameSource.ReadFrame: the decoder behind it is a finite script of pushes and outcomes; closing is not modelled.
- Resampler.DownmixResampler.Process: positions and samples are exact reals, so float rounding is not modelled; nor is it in `Wav.WavMono`.
- The internals of AES, HMAC, HKDF, GCM and CRC-32.
- Formatting of participant ids: ids are taken as formatted.
- Verification of the WARP tag, which the receiver strips without checking, and any claim about its strength.
- `ProtectRTP` and video sequencing, which share a rollover tracker with audio and are marked unvalidated in the source; `NextPreSpeechPacket`, `DeriveE2eKeysFromRaw` and wire-size estimates.
- Detector fields that are never assigned (noise update speed, non-binariness, high-pass sharpness) are constants of their zero value; the input tilt, which the source computes and discards, is carried in the checked reading only.
- Counter mode of Go's standard library is modelled as a big-endian number modulo 2^128, and its varints as base-128 groups with the ten-byte, 64-bit limit; their source is not part of this model.
- Units whose middle fragments are lost: the depacketizer never sees sequence numbers.
- STUN request builders and their protobuf helpers, RTCP, SSRC choice, the MLow table of contents, call-session transitions: settled by reading one function.
- Relay sockets, signaling stanzas, decoders, recorders and logging.
