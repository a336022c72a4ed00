/** Numbered slots that fill one at a time: the shape both reassemblers share. */
module Slots {
  import opened Bytes

  function Indices(n: nat): (r: set<nat>)
    ensures forall i :: i in r <==> 0 <= i < n
    ensures |r| == n
  {
    if n == 0 then {} else Indices(n - 1) + {n - 1}
  }

  lemma {:induction false} FullWhenAllSeen(seen: set<nat>, n: nat)
    requires seen <= Indices(n)
    ensures |seen| <= n && (|seen| == n <==> seen == Indices(n))
  {
    assert Indices(n) == seen + (Indices(n) - seen);
  }

  /** The numbers of the slots that hold something. */
  function Filled<T>(slots: seq<Option<T>>): (r: set<nat>)
    ensures r <= Indices(|slots|)
    ensures |r| <= |slots|
  {
    var r := set i: nat | i in Indices(|slots|) && slots[i].Some?;
    FullWhenAllSeen(r, |slots|);
    r
  }

  lemma {:induction false} SlotFills<T>(slots: seq<Option<T>>, i: nat, value: T)
    requires i < |slots| && slots[i].None?
    ensures |Filled(slots[i := Some(value)])| == |Filled(slots)| + 1
  {
    assert Filled(slots[i := Some(value)]) == Filled(slots) + {i};
  }

  lemma {:induction false} FullSlots<T>(slots: seq<Option<T>>)
    ensures |Filled(slots)| == |slots| <==> forall i :: 0 <= i < |slots| ==> slots[i].Some?
  {
    FullWhenAllSeen(Filled(slots), |slots|);
    if |Filled(slots)| == |slots| {
      forall i | 0 <= i < |slots| ensures slots[i].Some? {
        assert i in Indices(|slots|);
        assert i in Filled(slots);
      }
    }
    if forall i :: 0 <= i < |slots| ==> slots[i].Some? {
      assert Filled(slots) == Indices(|slots|);
    }
  }

  function Vacant<T>(n: nat): (r: seq<Option<T>>)
    ensures |r| == n && forall i :: 0 <= i < n ==> r[i] == None
  {
    seq(n, _ => None)
  }

  lemma {:induction false} VacantIsEmpty<T>(n: nat)
    ensures |Filled(Vacant<T>(n))| == 0
  {
    assert Filled(Vacant<T>(n)) == {};
  }

  /** The filled slots' bytes, in slot order. */
  function Joined(slots: seq<Option<Bytes>>): (r: Bytes) {
    if slots == [] then []
    else Joined(slots[..|slots| - 1]) +
         (match slots[|slots| - 1] case Some(b) => b case None => [])
  }

  function Values<T>(slots: seq<Option<T>>): (r: seq<T>)
    requires forall i :: 0 <= i < |slots| ==> slots[i].Some?
    ensures |r| == |slots|
  {
    seq(|slots|, i requires 0 <= i < |slots| => slots[i].value)
  }

  lemma {:induction false} JoinedIsConcat(slots: seq<Option<Bytes>>)
    requires forall i :: 0 <= i < |slots| ==> slots[i].Some?
    ensures Joined(slots) == Concat(Values(slots))
  {
    if slots != [] {
      var n := |slots| - 1;
      JoinedIsConcat(slots[..n]);
      assert Values(slots) == Values(slots[..n]) + [slots[n].value];
      ConcatAppend(Values(slots[..n]), [slots[n].value]);
      assert Concat([slots[n].value]) == slots[n].value + Concat([]);
    }
  }
}
