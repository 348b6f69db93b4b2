/**
 Two device heads per aggregate node (server/src/schema.rs).

 A node remembers only its two greatest admissions from distinct devices, yet
 must answer "the greatest admission by anybody but D" for every device D.
 The value type `Heads` carries the arithmetic; the class `HistoricalHeads`
 is the record the server updates in place.
 */
module DeviceHeads {
  import opened Types

  datatype DeviceAdmission = DeviceAdmission(device: DeviceId, at: nat)

  datatype Heads = Heads(first: DeviceAdmission, second: DeviceAdmission)
  {
    predicate Valid() {
      && first.at >= second.at
      && (second.at == 0 || first.device != second.device)
    }

    function MaxSeq(): nat { Max(first.at, second.at) }

    function MaxExcluding(device: DeviceId): nat {
      if first.device != device then first.at else second.at
    }

    /** The greatest admission, with or without a device left out. */
    function Greatest(excluded: Option<DeviceId>): nat {
      match excluded
      case None => MaxSeq()
      case Some(device) => MaxExcluding(device)
    }
  }

  const NOBODY := DeviceAdmission([0, 0, 0, 0, 0, 0, 0, 0, 0, 0, 0, 0, 0, 0, 0, 0], 0)

  const EMPTY_HEADS := Heads(NOBODY, NOBODY)

  /** The same question put to the whole list of observations. */
  function Scan(history: seq<DeviceAdmission>, excluded: Option<DeviceId>): nat {
    if history == [] then 0
    else
      var rest := Scan(history[..|history| - 1], excluded);
      var last := history[|history| - 1];
      if excluded == Some(last.device) then rest else Max(rest, last.at)
  }

  function Place(h: Heads, seen: DeviceAdmission): Heads {
    if h.first.at == 0 then h.(first := seen)
    else if h.first.device == seen.device then
      h.(first := DeviceAdmission(seen.device, Max(h.first.at, seen.at)))
    else if h.second.at == 0 then h.(second := seen)
    else if h.second.device == seen.device then
      h.(second := DeviceAdmission(seen.device, Max(h.second.at, seen.at)))
    else if seen.at > h.second.at then h.(second := seen)
    else h
  }

  function Observe(h: Heads, seen: DeviceAdmission): (r: Heads)
    ensures h.Valid() ==> r.Valid()
    ensures h.Valid() ==> forall who: Option<DeviceId> ::
              r.Greatest(who) == if who == Some(seen.device) then h.Greatest(who) else Max(h.Greatest(who), seen.at)
  {
    var p := Place(h, seen);
    if p.second.at > p.first.at then Heads(p.second, p.first) else p
  }

  function ObserveAll(h: Heads, history: seq<DeviceAdmission>): Heads {
    if history == [] then h
    else Observe(ObserveAll(h, history[..|history| - 1]), history[|history| - 1])
  }

  function Merge(h: Heads, other: Heads): Heads {
    var one := if other.first.at != 0 then Observe(h, other.first) else h;
    if other.second.at != 0 then Observe(one, other.second) else one
  }

  /** Whatever was observed, in whatever order, the two heads answer like a full scan. */
  lemma {:induction false} HeadsAnswerLikeScan(history: seq<DeviceAdmission>, excluded: Option<DeviceId>)
    ensures ObserveAll(EMPTY_HEADS, history).Valid()
    ensures ObserveAll(EMPTY_HEADS, history).Greatest(excluded) == Scan(history, excluded)
  {
    if history != [] {
      HeadsAnswerLikeScan(history[..|history| - 1], excluded);
    }
  }

  lemma {:induction false} ScanConcat(a: seq<DeviceAdmission>, b: seq<DeviceAdmission>, excluded: Option<DeviceId>)
    ensures Scan(a + b, excluded) == Max(Scan(a, excluded), Scan(b, excluded))
  {
    if b == [] {
      assert a + b == a;
    } else {
      ScanConcat(a, b[..|b| - 1], excluded);
      assert (a + b)[..|a + b| - 1] == a + b[..|b| - 1];
    }
  }

  lemma {:induction false} MergeGreatest(h: Heads, other: Heads, excluded: Option<DeviceId>)
    requires h.Valid() && other.Valid()
    ensures Merge(h, other).Valid()
    ensures Merge(h, other).Greatest(excluded) == Max(h.Greatest(excluded), other.Greatest(excluded))
  {}

  /** Merging two summaries answers as observing both histories would. */
  lemma {:induction false} MergeIsUnion(a: seq<DeviceAdmission>, b: seq<DeviceAdmission>, excluded: Option<DeviceId>)
    ensures Merge(ObserveAll(EMPTY_HEADS, a), ObserveAll(EMPTY_HEADS, b)).Greatest(excluded)
         == ObserveAll(EMPTY_HEADS, a + b).Greatest(excluded)
  {
    HeadsAnswerLikeScan(a, excluded);
    HeadsAnswerLikeScan(b, excluded);
    HeadsAnswerLikeScan(a + b, excluded);
    ScanConcat(a, b, excluded);
    MergeGreatest(ObserveAll(EMPTY_HEADS, a), ObserveAll(EMPTY_HEADS, b), excluded);
  }

  /** The record itself, updated in place. */
  class HistoricalHeads {
    var first: DeviceAdmission
    var second: DeviceAdmission

    function Value(): Heads
      reads this
    {
      Heads(first, second)
    }

    constructor ()
      ensures Value() == EMPTY_HEADS
    {
      first, second := NOBODY, NOBODY;
    }

    method ObserveOne(device: DeviceId, at: nat)
      modifies this
      ensures Value() == Observe(old(Value()), DeviceAdmission(device, at))
    {
      var observed := DeviceAdmission(device, at);
      if first.at == 0 {
        first := observed;
      } else if first.device == device {
        first := first.(at := Max(first.at, at));
      } else if second.at == 0 {
        second := observed;
      } else if second.device == device {
        second := second.(at := Max(second.at, at));
      } else if at > second.at {
        second := observed;
      }
      if second.at > first.at {
        first, second := second, first;
      }
    }

    method MergeFrom(other: Heads)
      modifies this
      ensures Value() == Merge(old(Value()), other)
    {
      var heads := [other.first, other.second];
      var i := 0;
      while i < 2
        invariant 0 <= i <= 2
        invariant i == 0 ==> Value() == old(Value())
        invariant i == 1 ==> Value() == if other.first.at != 0 then Observe(old(Value()), other.first) else old(Value())
        invariant i == 2 ==> Value() == Merge(old(Value()), other)
      {
        if heads[i].at != 0 {
          ObserveOne(heads[i].device, heads[i].at);
        }
        i := i + 1;
      }
    }
  }
}
