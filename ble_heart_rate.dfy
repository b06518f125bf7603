/**
 * The Bluetooth heart-rate device: decoding of a Heart Rate Measurement
 * characteristic value (the flags byte, an 8- or 16-bit little-endian rate,
 * and the first RR interval in units of 1/1024 s), and the ordered list of
 * sample listeners.
 */
module BleHeartRate {
  import opened Options
  import opened DeviceTypes

  /** An octet of the characteristic value (a DataView `getUint8`). */
  newtype byte = x: int | 0 <= x < 0x100

  /** The little-endian 16-bit value at `off`. */
  function Uint16LE(value: seq<byte>, off: nat): nat
    requires off + 1 < |value|
  {
    value[off] as nat + 256 * value[off + 1] as nat
  }

  /** Flags bit 0 (`flags & 0x01`): the rate is a 16-bit field. */
  predicate Rate16Bits(flags: byte) {
    flags % 2 == 1
  }

  /** Flags bit 3 (`flags & 0x08`): an Energy Expended field follows the rate. */
  predicate EnergyPresent(flags: byte) {
    (flags / 8) % 2 == 1
  }

  /** Flags bit 4 (`(flags >> 4) & 0x01`): RR intervals follow. */
  predicate RrIntervalPresent(flags: byte) {
    (flags / 16) % 2 == 1
  }

  /** An RR field in 1/1024 s, converted to ms. */
  function RrToMs(raw: nat): real {
    (raw as real / 1024.0) * 1000.0
  }

  /** Where the field after the rate starts. */
  function RateEnd(flags: byte): nat {
    if Rate16Bits(flags) then 3 else 2
  }

  /**
   * `parseHeartRate`, with the clock reading as a parameter. A value too short
   * for the flags or the rate gives None, where the source's DataView read
   * throws and no sample is sent. Flags bit 3 (Energy Expended) is not
   * consulted, so an energy field would be read as the RR interval.
   */
  function ParseHeartRate(value: seq<byte>, now: real): Option<HeartRateSample> {
    if |value| < 1 || |value| < RateEnd(value[0]) then None
    else
      var flags := value[0];
      var bpm := if Rate16Bits(flags) then Uint16LE(value, 1) else value[1] as nat;
      var offset := RateEnd(flags);
      var rr := if RrIntervalPresent(flags) && |value| >= offset + 2 then Some(RrToMs(Uint16LE(value, offset))) else None;
      Some(HeartRateSample(now, bpm as real, rr))
  }

  /** Two little-endian bytes of a 16-bit value. */
  function Le16(x: nat): seq<byte>
    requires x < 0x1_0000
  {
    [(x % 256) as byte, (x / 256) as byte]
  }

  /** The flags byte announcing a 16-bit rate and an RR field as requested. */
  function FlagsByte(wide: bool, rr: bool): byte {
    (if wide then 0x01 else 0x00) + (if rr then 0x10 else 0x00)
  }

  lemma FlagsByteBits(wide: bool, rr: bool)
    ensures Rate16Bits(FlagsByte(wide, rr)) == wide
    ensures RrIntervalPresent(FlagsByte(wide, rr)) == rr
  {
  }

  /** A measurement value with the given rate width and optional first RR field, and no Energy Expended field. */
  function EncodeHeartRate(bpm: nat, wide: bool, rrRaw: Option<nat>): seq<byte>
    requires bpm < (if wide then 0x1_0000 else 0x100)
    requires rrRaw.Some? ==> rrRaw.value < 0x1_0000
  {
    [FlagsByte(wide, rrRaw.Some?)] + (if wide then Le16(bpm) else [bpm as byte]) + (if rrRaw.Some? then Le16(rrRaw.value) else [])
  }

  lemma Le16Decodes(x: nat, value: seq<byte>, off: nat)
    requires x < 0x1_0000 && off + 1 < |value|
    requires value[off] == Le16(x)[0] && value[off + 1] == Le16(x)[1]
    ensures Uint16LE(value, off) == x
  {
  }

  /**
   * Decoding inverts encoding: the rate comes back exactly in either width,
   * and the RR field comes back converted to ms, whatever trailing bytes
   * (further RR intervals) follow.
   */
  lemma ParseEncode(bpm: nat, wide: bool, rrRaw: Option<nat>, more: seq<byte>, now: real)
    requires bpm < (if wide then 0x1_0000 else 0x100)
    requires rrRaw.Some? ==> rrRaw.value < 0x1_0000
    requires rrRaw == None ==> more == []
    ensures ParseHeartRate(EncodeHeartRate(bpm, wide, rrRaw) + more, now) ==
      Some(HeartRateSample(now, bpm as real, if rrRaw.Some? then Some(RrToMs(rrRaw.value)) else None))
  {
    var v := EncodeHeartRate(bpm, wide, rrRaw) + more;
    var flags := FlagsByte(wide, rrRaw.Some?);
    FlagsByteBits(wide, rrRaw.Some?);
    assert v[0] == flags;
    if wide {
      Le16Decodes(bpm, v, 1);
    } else {
      assert v[1] == bpm as byte;
    }
    if rrRaw.Some? {
      Le16Decodes(rrRaw.value, v, RateEnd(flags));
    }
  }

  /**
   * The decoding rules: bit 0 clear reads the rate from byte 1 (at most 255)
   * and bit 0 set from bytes 1-2 (at most 65535); bit 4 clear gives no RR
   * whatever follows; bit 4 set gives the RR at the end of the rate field
   * exactly when two bytes remain there.
   */
  lemma ParseRules(value: seq<byte>, now: real)
    ensures ParseHeartRate(value, now) == None <==> |value| == 0 || |value| < RateEnd(value[0])
    ensures ParseHeartRate(value, now).Some? ==>
      var s := ParseHeartRate(value, now).value;
      var flags := value[0];
      && s.timestamp == now
      && (!Rate16Bits(flags) ==> s.bpm == value[1] as real && s.bpm <= 255.0)
      && (Rate16Bits(flags) ==> s.bpm == Uint16LE(value, 1) as real && s.bpm <= 65535.0)
      && (!RrIntervalPresent(flags) ==> s.rrMs == None)
      && (RrIntervalPresent(flags) ==>
            (s.rrMs.Some? <==> |value| >= RateEnd(flags) + 2) &&
            (s.rrMs.Some? ==> s.rrMs == Some(RrToMs(Uint16LE(value, RateEnd(flags))))))
  {
  }

  /** `flags | 0x08` and `flags & 0xF7`: flags bit 3 set and cleared. */
  function SetBit3(f: byte): byte {
    if EnergyPresent(f) then f else f + 8
  }

  function ClearBit3(f: byte): byte {
    if EnergyPresent(f) then f - 8 else f
  }

  /** Adding 8 to a byte whose bit 3 is clear sets bit 3 and keeps bits 0 and 4. */
  lemma AddBit3(f: byte)
    requires !EnergyPresent(f)
    ensures f as int + 8 < 0x100
    ensures EnergyPresent(f + 8)
    ensures Rate16Bits(f + 8) == Rate16Bits(f) && RrIntervalPresent(f + 8) == RrIntervalPresent(f)
  {
    var q := f as int / 16;
    var r := f as int % 16;
    assert f as int == 16 * q + r;
    assert r / 8 == (f as int / 8) % 2;
    assert r < 8;
  }

  /** Setting or clearing flags bit 3 (Energy Expended present) never changes the decoded sample. */
  lemma EnergyFlagIgnored(value: seq<byte>, now: real)
    requires |value| > 0
    ensures EnergyPresent(SetBit3(value[0])) && !EnergyPresent(ClearBit3(value[0]))
    ensures ParseHeartRate(value[0 := SetBit3(value[0])], now) == ParseHeartRate(value[0 := ClearBit3(value[0])], now)
  {
    var f := value[0];
    var g := ClearBit3(f);
    if EnergyPresent(f) {
      assert f as int >= 8;
      assert !EnergyPresent(g);
      AddBit3(g);
      assert SetBit3(f) == g + 8;
    } else {
      AddBit3(f);
    }
    SameFlagBitsSameSample(value[0 := SetBit3(f)], value[0 := g], now);
  }

  /** Only flags bits 0 and 4 and the bytes after the flags decide the sample. */
  lemma SameFlagBitsSameSample(a: seq<byte>, b: seq<byte>, now: real)
    requires |a| == |b| > 0 && a[1..] == b[1..]
    requires Rate16Bits(a[0]) == Rate16Bits(b[0]) && RrIntervalPresent(a[0]) == RrIntervalPresent(b[0])
    ensures ParseHeartRate(a, now) == ParseHeartRate(b, now)
  {
    assert forall i :: 1 <= i < |a| ==> a[i] == a[1..][i - 1];
    assert forall i :: 1 <= i < |b| ==> b[i] == b[1..][i - 1];
  }

  /** Raw 1024 is exactly one second; raw 819 is just under 800 ms. */
  lemma RrToMsExamples()
    ensures RrToMs(1024) == 1000.0
    ensures RrToMs(819) == 799.8046875
    ensures RrToMs(512) == 500.0
  {
  }

  /** A subscribed callback, identified by reference. */
  type Listener = nat

  datatype Delivery = Delivery(listener: Listener, sample: HeartRateSample)

  /** `filter(l => l !== c)`. */
  function Without(ls: seq<Listener>, c: Listener): seq<Listener> {
    if |ls| == 0 then []
    else Without(ls[..|ls| - 1], c) + (if ls[|ls| - 1] != c then [ls[|ls| - 1]] else [])
  }

  /** Every occurrence of c goes and every other listener stays; the list shrinks by the number of occurrences. */
  lemma {:induction false} WithoutSpec(ls: seq<Listener>, c: Listener)
    ensures forall l :: l in Without(ls, c) <==> l in ls && l != c
    ensures |Without(ls, c)| == |ls| - multiset(ls)[c]
    ensures c !in ls ==> Without(ls, c) == ls
  {
    if |ls| > 0 {
      var t := ls[..|ls| - 1];
      WithoutSpec(t, c);
      assert ls == t + [ls[|ls| - 1]];
    }
  }

  /** Every other listener stays registered as many times as before, and the callback not at all. */
  lemma {:induction false} WithoutMultiset(ls: seq<Listener>, c: Listener)
    ensures multiset(Without(ls, c)) == multiset(ls)[c := 0]
  {
    if |ls| > 0 {
      var t: seq<Listener> := ls[..|ls| - 1];
      var x: Listener := ls[|ls| - 1];
      WithoutMultiset(t, c);
      assert ls == t + [x];
      var tail: seq<Listener> := if x != c then [x] else [];
      assert Without(ls, c) == Without(t, c) + tail;
      var mt: multiset<Listener> := multiset(t);
      var ml: multiset<Listener> := multiset(ls);
      var mw: multiset<Listener> := multiset(Without(ls, c));
      assert ml == mt + multiset{x};
      assert mw == mt[c := 0] + multiset(tail);
      forall l: Listener ensures mw[l] == ml[c := 0][l] {
        if l != c {
          assert ml[c := 0][l] == ml[l];
          assert mt[c := 0][l] == mt[l];
        }
      }
      assert mw == ml[c := 0];
    }
  }

  /** Removal distributes over concatenation, so the remaining listeners keep their order. */
  lemma {:induction false} WithoutAppend(a: seq<Listener>, b: seq<Listener>, c: Listener)
    ensures Without(a + b, c) == Without(a, c) + Without(b, c)
    decreases |b|
  {
    if |b| > 0 {
      var b0 := b[..|b| - 1];
      WithoutAppend(a, b0, c);
      assert (a + b)[..|a + b| - 1] == a + b0;
    } else {
      assert a + b == a;
    }
  }

  /** Subscribing a new callback and then unsubscribing it restores the list. */
  lemma SubscribeUnsubscribe(ls: seq<Listener>, c: Listener)
    requires c !in ls
    ensures Without(ls + [c], c) == ls
  {
    WithoutSpec(ls, c);
    assert (ls + [c])[..|ls|] == ls;
  }

  /** One delivery per listener, in list order. */
  function Deliveries(ls: seq<Listener>, sample: HeartRateSample): (d: seq<Delivery>)
    ensures |d| == |ls|
    ensures forall i :: 0 <= i < |ls| ==> d[i] == Delivery(ls[i], sample)
  {
    if |ls| == 0 then [] else Deliveries(ls[..|ls| - 1], sample) + [Delivery(ls[|ls| - 1], sample)]
  }

  class BleHeartRateDevice {
    var listeners: seq<Listener>

    constructor ()
      ensures listeners == []
    {
      listeners := [];
    }

    method OnSample(callback: Listener)
      modifies this
      ensures listeners == old(listeners) + [callback]
    {
      listeners := listeners + [callback];
    }

    method OffSample(callback: Listener)
      modifies this
      ensures listeners == Without(old(listeners), callback)
    {
      listeners := Without(listeners, callback);
    }

    /** `forEach` over the listeners: returns the calls made, in order. */
    method NotifyListeners(sample: HeartRateSample) returns (delivered: seq<Delivery>)
      ensures delivered == Deliveries(listeners, sample)
    {
      delivered := [];
      var i := 0;
      while i < |listeners|
        invariant 0 <= i <= |listeners|
        invariant delivered == Deliveries(listeners[..i], sample)
      {
        assert listeners[..i + 1][..i] == listeners[..i];
        delivered := delivered + [Delivery(listeners[i], sample)];
        i := i + 1;
      }
      assert listeners[..i] == listeners;
    }

    /** A characteristic value arriving at clock reading `now`: decoded and, when decodable, sent to every listener. */
    method HandleValue(value: seq<byte>, now: real) returns (delivered: seq<Delivery>)
      ensures ParseHeartRate(value, now) == None ==> delivered == []
      ensures ParseHeartRate(value, now).Some? ==> delivered == Deliveries(listeners, ParseHeartRate(value, now).value)
    {
      var sample := ParseHeartRate(value, now);
      if sample == None {
        return [];
      }
      delivered := NotifyListeners(sample.value);
    }
  }
}
