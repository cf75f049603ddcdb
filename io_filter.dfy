/** The digital-input filter of hw_config.c: `ioStatus` holds a counter of calls
    and, per input channel, a high and a low sample count and three flags. Each
    call to IO_Control samples the pins and then, channel by channel, settles the
    filtered bit from the counts, clears the counts and flags a change. The pins
    are parameters here: `pins[0]` .. `pins[3]` are the reads of AVLIO1 ..
    AVLIO4, `pins[4]` the read of AVLIO5 after the LED pin is released. */
module IoFilter {

  /** IO_FILLTER_CNT: samples a channel needs before its bit follows them. */
  const FilterCnt: nat := 1

  /** The channels the filter loop of IO_Control visits. */
  const Channels: nat := 5

  /** One entry of `ioStatus.din`; the flags only ever hold 0 or 1. */
  datatype Din = Din(bitNew: bool, bitOld: bool, highCnt: nat, lowCnt: nat, newUpdate: bool)

  /** The entry after one more sample at level `high`. */
  function Count(d: Din, high: bool): Din {
    if high then d.(highCnt := d.highCnt + 1) else d.(lowCnt := d.lowCnt + 1)
  }

  /** The sampling part of IO_Control: channels 0 to 2 count the reads of AVLIO1
      to AVLIO3, channel 3 counts both AVLIO4 and AVLIO5, and channel 4 and any
      further channel count nothing. */
  function Sampled(ds: seq<Din>, pins: seq<bool>): (r: seq<Din>)
    requires |ds| >= Channels && |pins| == 5
    ensures |r| == |ds|
    ensures forall i :: 0 <= i < 3 ==> r[i] == Count(ds[i], pins[i])
    ensures r[3] == Count(Count(ds[3], pins[3]), pins[4])
    ensures forall i :: 4 <= i < |ds| ==> r[i] == ds[i]
  {
    ds[0 := Count(ds[0], pins[0])]
      [1 := Count(ds[1], pins[1])]
      [2 := Count(ds[2], pins[2])]
      [3 := Count(Count(ds[3], pins[3]), pins[4])]
  }

  /** The filtered bit a channel settles on: set after exactly FilterCnt high
      samples and no low one, cleared after exactly FilterCnt low samples and no
      high one, kept otherwise. */
  function NewBit(d: Din): (b: bool)
    ensures b <==> (d.highCnt == FilterCnt && d.lowCnt == 0)
                   || (d.bitNew && !(d.highCnt == 0 && d.lowCnt == FilterCnt))
  {
    if d.highCnt == FilterCnt && d.lowCnt == 0 then true
    else if d.highCnt == 0 && d.lowCnt == FilterCnt then false
    else d.bitNew
  }

  /** One pass of the filter loop on a channel: the bit settles, the counts are
      cleared, and a change of the bit since the last pass is flagged. */
  function Settle(d: Din): (r: Din)
    ensures r.bitNew == NewBit(d) && r.bitOld == r.bitNew
    ensures r.highCnt == 0 && r.lowCnt == 0
    ensures r.newUpdate <==> d.newUpdate || NewBit(d) != d.bitOld
  {
    var b := NewBit(d);
    Din(b, b, 0, 0, if b != d.bitOld then true else d.newUpdate)
  }

  /** No channel the filter visits holds a sample not yet settled. */
  ghost predicate Quiet(ds: seq<Din>)
    requires |ds| >= Channels
  {
    forall i :: 0 <= i < Channels ==> ds[i].highCnt == 0 && ds[i].lowCnt == 0
  }

  /** The channels after the filter part of IO_Control: sampled, then the first
      Channels of them settled; any further channel is left alone. Afterwards
      every visited channel is quiet, its last bit is its current bit, and a
      change flag once raised stays raised. */
  function Pass(ds: seq<Din>, pins: seq<bool>): (r: seq<Din>)
    requires |ds| >= Channels && |pins| == 5
    ensures |r| == |ds|
    ensures forall i :: 0 <= i < Channels ==> r[i] == Settle(Sampled(ds, pins)[i])
    ensures forall i :: Channels <= i < |ds| ==> r[i] == ds[i]
    ensures Quiet(r)
    ensures forall i :: 0 <= i < Channels ==> r[i].bitOld == r[i].bitNew
    ensures forall i :: 0 <= i < Channels ==> ds[i].newUpdate ==> r[i].newUpdate
  {
    var s := Sampled(ds, pins);
    seq(|ds|, i requires 0 <= i < |ds| => if i < Channels then Settle(s[i]) else s[i])
  }

  /** From a quiet state, channels 0 to 2 take the level just read on their pin,
      and each flags a change exactly when that level differs from its last bit
      (a flag already raised stays raised). */
  lemma PassFollowsPins(ds: seq<Din>, pins: seq<bool>, i: nat)
    requires |ds| >= Channels && |pins| == 5 && Quiet(ds) && i < 3
    ensures Pass(ds, pins)[i].bitNew == pins[i]
    ensures Pass(ds, pins)[i].newUpdate <==> ds[i].newUpdate || pins[i] != ds[i].bitOld
  {
    var s := Sampled(ds, pins);
    assert s[i] == Count(ds[i], pins[i]);
  }

  /** From a quiet state, the bits of channels 3 and 4 never change, whatever the
      pins read: channel 3 counts two samples per pass, which is never exactly
      FilterCnt of one level and none of the other, and channel 4 counts none. */
  lemma PassFreezesLastChannels(ds: seq<Din>, pins: seq<bool>)
    requires |ds| >= Channels && |pins| == 5 && Quiet(ds)
    ensures Pass(ds, pins)[3].bitNew == ds[3].bitNew
    ensures Pass(ds, pins)[4].bitNew == ds[4].bitNew
  {
    var s := Sampled(ds, pins);
    assert s[3].highCnt + s[3].lowCnt == 2;
    assert s[4] == ds[4];
  }

  /** Two passes on the same pin levels leave what one pass leaves: after the
      first, the bits already follow the pins and every change is flagged. */
  lemma PassIdempotent(ds: seq<Din>, pins: seq<bool>)
    requires |ds| >= Channels && |pins| == 5 && Quiet(ds)
    ensures Pass(Pass(ds, pins), pins) == Pass(ds, pins)
  {
    var p := Pass(ds, pins);
    PassFreezesLastChannels(ds, pins);
    PassFreezesLastChannels(p, pins);
    forall i | 0 <= i < 3
      ensures Pass(p, pins)[i] == p[i]
    {
      PassFollowsPins(ds, pins, i);
      PassFollowsPins(p, pins, i);
    }
    assert Pass(p, pins)[3] == p[3];
    assert Pass(p, pins)[4] == p[4];
  }

  /** The global `ioStatus`. */
  class IoStatus {
    var updateCnt: nat
    /** `din[0]` .. `din[4]` at least: the filter loop visits five channels. */
    const din: array<Din>

    predicate Valid() {
      din.Length >= Channels
    }

    /** The global as C zero-initialises it before IO_Init runs. */
    constructor (size: nat)
      requires size >= Channels
      ensures Valid() && fresh(din) && din.Length == size
      ensures updateCnt == 0
      ensures forall i :: 0 <= i < size ==> din[i] == Din(false, false, 0, 0, false)
    {
      updateCnt := 0;
      din := new Din[size](_ => Din(false, false, 0, 0, false));
    }

    /** IO_Init: the call counter and channels 0 to 3 are cleared; the change
        flags and every other channel keep their values. */
    method IoInit()
      requires Valid()
      modifies this, din
      ensures updateCnt == 0
      ensures forall i :: 0 <= i < 4 ==>
        din[i] == old(din[i]).(bitNew := false, bitOld := false, highCnt := 0, lowCnt := 0)
      ensures forall i :: 4 <= i < din.Length ==> din[i] == old(din[i])
      ensures old(din[4].highCnt) == 0 && old(din[4].lowCnt) == 0 ==> Quiet(din[..])
    {
      updateCnt := 0;
      for i := 0 to 4
        invariant updateCnt == 0
        invariant forall j :: 0 <= j < i ==>
          din[j] == old(din[j]).(bitNew := false, bitOld := false, highCnt := 0, lowCnt := 0)
        invariant forall j :: i <= j < din.Length ==> din[j] == old(din[j])
      {
        din[i] := din[i].(bitNew := false, bitOld := false, highCnt := 0, lowCnt := 0);
      }
    }

    /** IO_Control: one more call is counted, and on every FilterCnt-th call (so
        on every call) the pins are sampled and the channels settled. */
    method IoControl(pins: seq<bool>)
      requires Valid() && |pins| == 5
      modifies this, din
      ensures updateCnt == old(updateCnt) + 1
      ensures din[..] == Pass(old(din[..]), pins) && Quiet(din[..])
    {
      updateCnt := updateCnt + 1;
      if updateCnt % FilterCnt == 0 {
        Sample(pins);
        SettleAll();
      }
    }

    /** One more sample at level `high` on channel `k`. */
    method Tally(k: nat, high: bool)
      requires Valid() && k < Channels
      modifies din
      ensures din[..] == old(din[..])[k := Count(old(din[k]), high)]
    {
      if high {
        din[k] := din[k].(highCnt := din[k].highCnt + 1);
      } else {
        din[k] := din[k].(lowCnt := din[k].lowCnt + 1);
      }
    }

    /** The sampling part of IO_Control. */
    method Sample(pins: seq<bool>)
      requires Valid() && |pins| == 5
      modifies din
      ensures din[..] == Sampled(old(din[..]), pins)
    {
      Tally(0, pins[0]);
      Tally(1, pins[1]);
      Tally(2, pins[2]);
      Tally(3, pins[3]);
      Tally(3, pins[4]);
    }

    /** The filter loop of IO_Control over the first Channels channels. */
    method SettleAll()
      requires Valid()
      modifies din
      ensures forall i :: 0 <= i < Channels ==> din[i] == Settle(old(din[i]))
      ensures forall i :: Channels <= i < din.Length ==> din[i] == old(din[i])
    {
      for i := 0 to Channels
        invariant forall j :: 0 <= j < i ==> din[j] == Settle(old(din[j]))
        invariant forall j :: i <= j < din.Length ==> din[j] == old(din[j])
      {
        var d := din[i];
        if d.highCnt == FilterCnt && d.lowCnt == 0 {
          d := d.(bitNew := true);
        } else if d.highCnt == 0 && d.lowCnt == FilterCnt {
          d := d.(bitNew := false);
        }
        d := d.(highCnt := 0, lowCnt := 0);
        if d.bitNew != d.bitOld {
          d := d.(newUpdate := true, bitOld := d.bitNew);
        }
        din[i] := d;
      }
    }
  }
}
