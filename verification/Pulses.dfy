/** The data a pulse mask selects from: maps from DOM keys to vectors of pulses. */
module Pulses {

  datatype OMKey = OMKey(str: int, om: nat, pmt: nat)

  datatype RecoPulse = RecoPulse(time: real, charge: real, width: real, flags: nat)

  datatype Entry = Entry(key: OMKey, pulses: seq<RecoPulse>)

  /** A `std::map`, written as its entries in iteration order. */
  type PulseMap = seq<Entry>

  predicate KeyLess(a: OMKey, b: OMKey) {
    a.str < b.str || (a.str == b.str && (a.om < b.om || (a.om == b.om && a.pmt < b.pmt)))
  }

  /** What every `std::map` keeps: its keys strictly increase. */
  ghost predicate Sorted(m: PulseMap) {
    forall i, j :: 0 <= i < j < |m| ==> KeyLess(m[i].key, m[j].key)
  }

  /** The lengths of the vectors of a map. */
  function Lens(m: PulseMap): (r: seq<nat>)
    ensures |r| == |m|
  {
    seq(|m|, i requires 0 <= i < |m| => |m[i].pulses|)
  }

  /** The number of pulses in a map. */
  function Total(m: PulseMap): nat {
    if m == [] then 0 else |m[0].pulses| + Total(m[1..])
  }

  /** A map without its keys that have no pulse. */
  function DropEmpty(m: PulseMap): PulseMap {
    if m == [] then []
    else if m[0].pulses == [] then DropEmpty(m[1..])
    else [m[0]] + DropEmpty(m[1..])
  }
}
