/** The DSM501 dust-sensor engine: two channels (PM10 and PM2.5) whose fields live in
    per-channel arrays updated in place. Each method is proved to move the channel
    it touches exactly as the channel functions of module Dsm501Channel say and to
    leave the other channel alone; what those functions keep invariant (the ring
    buffer tracks the last ten window totals and the ratio their average) is proved
    there. */
module Dsm501Sensor {
  import opened Bits
  import opened Dsm501Channel
  import opened AirQuality

  /** `dsm501_coeff`: the coefficient `begin` installs. */
  const DefaultCoeff: Byte := 1

  class Dsm501 {
    const pin: array<int>
    const state: array<State>
    const lowTotal: array<U32>
    const winStart: array<U32>
    const sigStart: array<U32>
    const safSum: array<U32>
    const safEnt: array2<U32>
    const safIdx: array<U32>
    const lastLowRatio: array<Double>
    var coeff: Byte

    /** Every per-channel array has one entry per channel, the ring buffer has its
        ten slots per channel, and the counters are separate arrays. */
    predicate Shaped()
    {
      pin.Length == 2 && state.Length == 2 && lowTotal.Length == 2 &&
      winStart.Length == 2 && sigStart.Length == 2 && safSum.Length == 2 &&
      safIdx.Length == 2 && lastLowRatio.Length == 2 &&
      safEnt.Length0 == 2 && safEnt.Length1 == SafWinMax &&
      lowTotal != winStart && lowTotal != sigStart && lowTotal != safSum &&
      lowTotal != safIdx && winStart != sigStart && winStart != safSum &&
      winStart != safIdx && sigStart != safSum && sigStart != safIdx &&
      safSum != safIdx
    }

    /** Row i of the ring buffer. */
    function Row(i: nat): (r: seq<U32>)
      requires Shaped() && i < 2
      reads safEnt
      ensures |r| == SafWinMax
      ensures forall j :: 0 <= j < SafWinMax ==> r[j] == safEnt[i, j]
    {
      seq(SafWinMax, j requires 0 <= j < SafWinMax reads safEnt => safEnt[i, j])
    }

    /** The channel the index i selects. */
    function Chan(i: nat): Channel
      requires Shaped() && i < 2
      reads state, lowTotal, winStart, sigStart, safSum, safEnt, safIdx, lastLowRatio
    {
      Channel(state[i], lowTotal[i], winStart[i], sigStart[i], safSum[i], Row(i),
              safIdx[i], lastLowRatio[i])
    }

    /** `ChannelOk` for both channels: an idle timer has no recorded start. The
        ring-buffer invariants (running sum equal to the slot sum, slots holding the
        last ten window totals, ratio equal to their sliding average) are not kept
        here: each method is proved equal to a channel function (`SignalBegin`,
        `SignalEnd`, `Poll`, `ReadRatio`, a window restart), each of those is a `Step`
        of module Dsm501Channel, and `CloseKeepsSlotSum`, `ReadKeepsFilter` and `Run`
        prove the invariants for any sequence of such steps. */
    predicate Valid()
      reads state, sigStart
    {
      Shaped() &&
      (state[Pm10Idx] == Idle ==> sigStart[Pm10Idx] == 0) &&
      (state[Pm25Idx] == Idle ==> sigStart[Pm25Idx] == 0)
    }

    /** The constructor: both channels idle, empty windows starting at time 0, an
        all-zero ring, NaN ratios. The coefficient is left unset until `Begin`. */
    constructor (pin10: int, pin25: int)
      ensures Valid()
      ensures pin[Pm10Idx] == pin10 && pin[Pm25Idx] == pin25
      ensures Chan(Pm10Idx) == InitialChannel() && Chan(Pm25Idx) == InitialChannel()
    {
      pin := new int[2];
      state := new State[2];
      lowTotal := new U32[2];
      winStart := new U32[2];
      sigStart := new U32[2];
      safSum := new U32[2];
      safEnt := new U32[2, SafWinMax];
      safIdx := new U32[2];
      lastLowRatio := new Double[2];
      new;
      pin[Pm10Idx] := pin10;
      pin[Pm25Idx] := pin25;
      for i := 0 to 2
        modifies state, lowTotal, winStart, sigStart, safSum, safEnt, safIdx, lastLowRatio
        invariant i > Pm10Idx ==> Chan(Pm10Idx) == InitialChannel()
        invariant i > Pm25Idx ==> Chan(Pm25Idx) == InitialChannel()
      {
        ClearChannel(i);
        if i == Pm25Idx {
          assert Chan(Pm25Idx) == InitialChannel();
        }
      }
    }

    /** One pass of the constructor's loop: channel i idle, its window empty and
        starting at 0, its ring slots zeroed one by one, its ratio NaN. */
    method ClearChannel(i: nat)
      requires Shaped() && i < 2
      modifies state, lowTotal, winStart, sigStart, safSum, safEnt, safIdx, lastLowRatio
      ensures Chan(i) == InitialChannel()
      ensures Chan(1 - i) == old(Chan(1 - i))
    {
      winStart[i] := 0;
      lowTotal[i] := 0;
      state[i] := Idle;
      sigStart[i] := 0;
      lastLowRatio[i] := NaN;
      safSum[i] := 0;
      safIdx[i] := 0;
      ghost var kept := Row(1 - i);
      for j := 0 to SafWinMax
        modifies safEnt
        invariant forall k :: 0 <= k < j ==> safEnt[i, k] == 0
        invariant Row(1 - i) == kept
      {
        safEnt[i, j] := 0;
        assert Row(1 - i) == kept;
      }
      assert Row(i) == seq(SafWinMax, _ => 0);
    }

    /** `begin`: install the default coefficient and start both windows at `now`
        (the pin configuration is not modelled). */
    method Begin(now: U32)
      requires Valid()
      modifies this, winStart
      ensures Valid()
      ensures coeff == DefaultCoeff
      ensures Chan(Pm10Idx) == old(Chan(Pm10Idx)).(winStart := now)
      ensures Chan(Pm25Idx) == old(Chan(Pm25Idx)).(winStart := now)
    {
      coeff := DefaultCoeff;
      winStart[Pm10Idx] := now;
      winStart[Pm25Idx] := now;
    }

    /** `reset`: restart both windows at `now`, keeping the running totals. */
    method Reset(now: U32)
      requires Valid()
      modifies winStart
      ensures Valid()
      ensures Chan(Pm10Idx) == old(Chan(Pm10Idx)).(winStart := now)
      ensures Chan(Pm25Idx) == old(Chan(Pm25Idx)).(winStart := now)
    {
      winStart[Pm10Idx] := now;
      winStart[Pm25Idx] := now;
    }

    /** `setCoeff`: store the coefficient and return it. */
    method SetCoeff(c: Byte) returns (r: Byte)
      modifies this
      ensures coeff == c && GetCoeff() == c && r == c
    {
      coeff := c;
      r := coeff;
    }

    /** `getCoeff` */
    function GetCoeff(): (c: Byte)
      reads this
      ensures c == coeff
    {
      coeff
    }

    /** `signal_begin` on channel i. */
    method SignalBegin(i: nat, now: U32)
      requires Valid() && i < 2
      modifies state, sigStart
      ensures Valid()
      ensures Chan(i) == Dsm501Channel.SignalBegin(old(Chan(i)), now)
      ensures Chan(1 - i) == old(Chan(1 - i))
    {
      if now >= winStart[i] {
        sigStart[i] := now;
        state[i] := Start;
      }
      assert Row(1 - i) == old(Row(1 - i));
      assert Row(i) == old(Row(i));
    }

    /** `signal_end` on channel i. */
    method SignalEnd(i: nat, now: U32)
      requires Valid() && i < 2
      modifies state, sigStart, lowTotal
      ensures Valid()
      ensures Chan(i) == Dsm501Channel.SignalEnd(old(Chan(i)), now)
      ensures Chan(1 - i) == old(Chan(1 - i))
    {
      if sigStart[i] != 0 {
        if Sub32(now, sigStart[i]) <= MaxSigSpan && Sub32(now, sigStart[i]) >= MinSigSpan {
          lowTotal[i] := Add32(lowTotal[i], Sub32(now, sigStart[i]));
        }
        sigStart[i] := 0;
      }
      state[i] := Idle;
      assert Row(1 - i) == old(Row(1 - i));
      assert Row(i) == old(Row(i));
    }

    /** `update`: poll both pins once, the levels read at `now` given as
        parameters. */
    method Update(level10: Level, level25: Level, now: U32)
      requires Valid()
      modifies state, sigStart, lowTotal
      ensures Valid()
      ensures Chan(Pm10Idx) == Poll(old(Chan(Pm10Idx)), level10, now)
      ensures Chan(Pm25Idx) == Poll(old(Chan(Pm25Idx)), level25, now)
    {
      if state[Pm10Idx] == Idle && level10 == Low {
        SignalBegin(Pm10Idx, now);
      } else if state[Pm10Idx] == Start && level10 == High {
        SignalEnd(Pm10Idx, now);
      }
      ghost var mid := Chan(Pm10Idx);
      if state[Pm25Idx] == Idle && level25 == Low {
        SignalBegin(Pm25Idx, now);
      } else if state[Pm25Idx] == Start && level25 == High {
        SignalEnd(Pm25Idx, now);
      }
      assert Chan(Pm10Idx) == mid;
    }

    /** `getLowRatio`: close the window of channel i if it has elapsed, and return
        the stored ratio divided by the coefficient. */
    method GetLowRatio(i: nat, now: U32) returns (r: Double)
      requires Valid() && i < 2 && coeff >= 1 && safIdx[i] < Modulus32 - 1
      modifies lowTotal, winStart, safSum, safEnt, safIdx, lastLowRatio
      ensures Valid()
      ensures Chan(i) == ReadRatio(old(Chan(i)), now)
      ensures Chan(1 - i) == old(Chan(1 - i))
      ensures r == Scaled(Chan(i).lastLowRatio, coeff)
    {
      var span := Sub32(now, winStart[i]);
      if now < winStart[i] {
        span := MinWinSpan;
      }
      if span >= MinWinSpan {
        CloseWindowAt(i, now);
      }
      r := Scaled(lastLowRatio[i], coeff);
    }

    /** The closing branch of `getLowRatio`: advance the counter, replace the slot it
        selects in the ring and in the running sum, store the new average, and
        restart the window at `now`. */
    method CloseWindowAt(i: nat, now: U32)
      requires Valid() && i < 2 && safIdx[i] < Modulus32 - 1
      modifies lowTotal, winStart, safSum, safEnt, safIdx, lastLowRatio
      ensures Valid()
      ensures Chan(i) == CloseWindow(old(Chan(i)), now)
      ensures Chan(1 - i) == old(Chan(1 - i))
    {
      ghost var c := Chan(i);
      ghost var other := Chan(1 - i);
      safIdx[i] := safIdx[i] + 1;
      var idx := safIdx[i] % SafWinMax;
      safSum[i] := Sub32(safSum[i], safEnt[i, idx]);
      safEnt[i, idx] := lowTotal[i];
      safSum[i] := Add32(safSum[i], lowTotal[i]);
      if safIdx[i] < SafWinMax {
        lastLowRatio[i] := Finite((safSum[i] as real) * 100.0 / ((MinWinSpan * safIdx[i]) as real));
      } else {
        lastLowRatio[i] := Finite((safSum[i] as real) * 100.0 / ((MinWinSpan * SafWinMax) as real));
      }
      winStart[i] := now;
      lowTotal[i] := 0;
      assert Row(i) == c.safEnt[idx := c.lowTotal];
      assert Row(1 - i) == other.safEnt;
    }

    /** `getParticalWeight`: the regression applied to the ratio `getLowRatio`
        returns, clamped at zero. */
    method GetParticalWeight(i: nat, now: U32) returns (w: Double)
      requires Valid() && i < 2 && coeff >= 1 && safIdx[i] < Modulus32 - 1
      modifies lowTotal, winStart, safSum, safEnt, safIdx, lastLowRatio
      ensures Valid()
      ensures Chan(i) == ReadRatio(old(Chan(i)), now)
      ensures Chan(1 - i) == old(Chan(1 - i))
      ensures w == Weight(Scaled(Chan(i).lastLowRatio, coeff))
    {
      var r := GetLowRatio(i, now);
      w := Weight(r);
    }

    /** `getAQI`: read the weight of channel 0, then of channel 1, and map their
        difference through the breakpoint table. */
    method GetAQI(now: U32) returns (aqi: int)
      requires Valid() && coeff >= 1
      requires safIdx[Pm10Idx] < Modulus32 - 1 && safIdx[Pm25Idx] < Modulus32 - 1
      modifies lowTotal, winStart, safSum, safEnt, safIdx, lastLowRatio
      ensures Valid()
      ensures Chan(Pm10Idx) == ReadRatio(old(Chan(Pm10Idx)), now)
      ensures Chan(Pm25Idx) == ReadRatio(old(Chan(Pm25Idx)), now)
      ensures aqi == Aqi(Delta(Weight(Scaled(Chan(Pm10Idx).lastLowRatio, coeff)),
                               Weight(Scaled(Chan(Pm25Idx).lastLowRatio, coeff))))
      ensures aqi >= -1
    {
      var w10 := GetParticalWeight(Pm10Idx, now);
      var w25 := GetParticalWeight(Pm25Idx, now);
      aqi := Aqi(Delta(w10, w25));
    }
  }
}
