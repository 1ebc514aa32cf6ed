/**
 * `transpondersByRaceId`: the transponder codes of the riders entered in a
 * race. The Mongo queries become inputs: the race's entries and the rider
 * collection in the order the store returns it.
 */
module Transponders {
  import opened Collections
  import opened Records

  predicate IsEntered(entries: seq<Entry>, id: Id) {
    exists e :: e in entries && e.riderId == id
  }

  /** `_.compact` keeps a value only when JavaScript considers it truthy. */
  predicate Truthy(t: Option<Transponder>) {
    t.Some? && t.value != ""
  }

  /** `Rider.find({$or: [{_id: entry.riderId}, ...]})`: the entered riders, in store order. */
  function EnteredRiders(entries: seq<Entry>, riders: seq<Rider>): (r: seq<Rider>)
    ensures forall x :: x in r <==> x in riders && IsEntered(entries, x.id)
  {
    if riders == [] then []
    else if IsEntered(entries, riders[0].id) then [riders[0]] + EnteredRiders(entries, riders[1..])
    else EnteredRiders(entries, riders[1..])
  }

  /** `_.compact(_.map(riders, 'transponder'))`. */
  function CompactTransponders(riders: seq<Rider>): (r: seq<Transponder>)
    ensures |r| <= |riders|
    ensures forall t :: t in r <==> t != "" && exists x :: x in riders && x.transponder == Some(t)
  {
    if riders == [] then []
    else
      var rest := CompactTransponders(riders[1..]);
      assert forall x :: x in riders <==> x == riders[0] || x in riders[1..];
      if Truthy(riders[0].transponder) then [riders[0].transponder.value] + rest else rest
  }

  /**
   * No entries short-circuits to `[]`; otherwise the transponders of the
   * entered riders, falsy ones dropped and repeats kept.
   */
  function TranspondersByRace(entries: seq<Entry>, riders: seq<Rider>): (r: seq<Transponder>)
    ensures entries == [] ==> r == []
    ensures forall t :: t in r <==>
      t != "" && exists x :: x in riders && IsEntered(entries, x.id) && x.transponder == Some(t)
  {
    if |entries| == 0 then [] else CompactTransponders(EnteredRiders(entries, riders))
  }
}
