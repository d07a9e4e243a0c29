/** Presence-tracking slots. The second pass gives every field that still asks
    for explicit presence tracking the next value of a counter local to its
    message; here that counter is stated as a count over the fields' final
    conditional kinds, and the count is shown to number those fields 0, 1, ...,
    k-1 in field order, with no gap and no duplicate. */
module Presence {
  import opened Descriptors
  import opened Wrappers

  /** The number of fields in `cs` that take a presence-tracking slot. */
  function Slots(cs: seq<ConditionalKind>): (r: nat)
    ensures r <= |cs|
  {
    if cs == [] then 0
    else Slots(cs[..|cs| - 1]) + (if cs[|cs| - 1] == FieldPresence then 1 else 0)
  }

  /** Appending one field adds one slot exactly when that field tracks presence. */
  lemma SlotsAppend(cs: seq<ConditionalKind>, c: ConditionalKind)
    ensures Slots(cs + [c]) == Slots(cs) + (if c == FieldPresence then 1 else 0)
  {
    assert (cs + [c])[..|cs|] == cs;
  }

  /** Slots never decrease along the fields, and grow past every presence field. */
  lemma {:induction false} SlotsGrow(cs: seq<ConditionalKind>, i: nat, j: nat)
    requires i < j <= |cs|
    ensures Slots(cs[..i]) <= Slots(cs[..j])
    ensures cs[i] == FieldPresence ==> Slots(cs[..i]) < Slots(cs[..j])
    decreases j
  {
    assert cs[..j][..j - 1] == cs[..j - 1];
    if i < j - 1 {
      SlotsGrow(cs, i, j - 1);
    } else {
      assert cs[..j][j - 1] == cs[i];
    }
  }

  /** A presence field's slot is below the message's slot count. */
  lemma SlotBelowTotal(cs: seq<ConditionalKind>, i: nat)
    requires i < |cs| && cs[i] == FieldPresence
    ensures Slots(cs[..i]) < Slots(cs)
  {
    SlotsGrow(cs, i, |cs|);
    assert cs[..|cs|] == cs;
  }

  /** Two presence fields get slots in field order, so never the same slot. */
  lemma SlotsIncrease(cs: seq<ConditionalKind>, i: nat, j: nat)
    requires i < j < |cs| && cs[i] == FieldPresence
    ensures Slots(cs[..i]) < Slots(cs[..j])
  {
    SlotsGrow(cs, i, j);
  }

  /** Every slot below the count belongs to some presence field: there are no gaps. */
  lemma {:induction false} SlotsGapFree(cs: seq<ConditionalKind>, k: nat)
    requires k < Slots(cs)
    ensures exists i :: 0 <= i < |cs| && cs[i] == FieldPresence && Slots(cs[..i]) == k
  {
    var init := cs[..|cs| - 1];
    assert cs[..|cs| - 1] == init;
    if k < Slots(init) {
      SlotsGapFree(init, k);
      var i :| 0 <= i < |init| && init[i] == FieldPresence && Slots(init[..i]) == k;
      assert init[..i] == cs[..i];
      assert cs[i] == FieldPresence && Slots(cs[..i]) == k;
    } else {
      assert cs[|cs| - 1] == FieldPresence && Slots(cs[..|cs| - 1]) == k;
    }
  }

  /** The fields numbered by the counter: the i-th field, when it tracks
      presence, carries the number of presence-tracking fields before it. */
  predicate Numbered(cs: seq<ConditionalKind>, slots: seq<Option<nat>>)
  {
    && |cs| == |slots|
    && forall i :: 0 <= i < |cs| && cs[i] == FieldPresence ==> slots[i] == Some(Slots(cs[..i]))
  }

  /** The slots that the presence-tracking fields carry. */
  function TakenSlots(cs: seq<ConditionalKind>, slots: seq<Option<nat>>): set<nat>
    requires |cs| == |slots|
  {
    set i | 0 <= i < |cs| && cs[i] == FieldPresence && slots[i].Some? :: slots[i].value
  }

  /** The presence-tracking fields carry the slots 0, 1, ..., k-1 in field
      order, where k is their number: each has a slot, the slots increase along
      the fields (so none is shared), and together they are exactly 0 .. k-1. */
  predicate Dense(cs: seq<ConditionalKind>, slots: seq<Option<nat>>)
  {
    && |cs| == |slots|
    && (forall i :: 0 <= i < |cs| && cs[i] == FieldPresence ==> slots[i].Some?)
    && (forall i, j :: 0 <= i < j < |cs| && cs[i] == FieldPresence && cs[j] == FieldPresence ==>
          slots[i].Some? && slots[j].Some? && slots[i].value < slots[j].value)
    && TakenSlots(cs, slots) == SlotRange(Slots(cs))
  }

  /** The slots 0 .. n-1. */
  function SlotRange(n: nat): (r: set<nat>)
    ensures forall k :: k in r <==> 0 <= k < n
  {
    if n == 0 then {} else SlotRange(n - 1) + {n - 1}
  }

  /** Numbering the fields with the counter leaves the slots dense. */
  lemma NumberedDense(cs: seq<ConditionalKind>, slots: seq<Option<nat>>)
    requires Numbered(cs, slots)
    ensures Dense(cs, slots)
  {
    forall i, j | 0 <= i < j < |cs| && cs[i] == FieldPresence && cs[j] == FieldPresence
      ensures slots[i].Some? && slots[j].Some? && slots[i].value < slots[j].value
    {
      SlotsIncrease(cs, i, j);
    }
    forall k | k in TakenSlots(cs, slots)
      ensures k < Slots(cs)
    {
      var i :| 0 <= i < |cs| && cs[i] == FieldPresence && slots[i].Some? && slots[i].value == k;
      SlotBelowTotal(cs, i);
    }
    forall k: nat | k < Slots(cs)
      ensures k in TakenSlots(cs, slots)
    {
      SlotsGapFree(cs, k);
      var i :| 0 <= i < |cs| && cs[i] == FieldPresence && Slots(cs[..i]) == k;
      assert slots[i] == Some(k);
    }
  }
}
