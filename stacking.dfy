/** Placing fungible units: "top up same-item stacks below stack_max in slot order,
    then fill empty slots in slot order, each up to stack_max". Every add path of
    every bot follows this rule; the ones that plan on copies use PlanStackAdd. */
module Stacking {
  import opened Slots

  /** One step of the top-up pass: a partial stack of `id` takes min(stack_max - quantity, rem) units. */
  function RaiseStep(s: Slot, id: ItemId, max: StackMax, rem: int): (Slot, int)
  {
    if rem > 0 && s.Stack? && s.item == id && s.qty < max then
      var can := Min(max - s.qty, rem);
      (Stack(id, s.qty + can), rem - can)
    else (s, rem)
  }

  /** One step of the fill pass: an empty slot takes min(stack_max, rem) units. */
  function PutStep(s: Slot, id: ItemId, max: StackMax, rem: int): (Slot, int)
  {
    if rem > 0 && s.Empty? then
      var put := Min(max, rem);
      (Stack(id, put), rem - put)
    else (s, rem)
  }

  /** The top-up pass over the slots, with `rem` units still to place. */
  function TopUp(slots: seq<Slot>, id: ItemId, max: StackMax, rem: int): (r: (seq<Slot>, int))
    ensures |r.0| == |slots|
  {
    if slots == [] then ([], rem)
    else
      var st := RaiseStep(slots[0], id, max, rem);
      var rest := TopUp(slots[1..], id, max, st.1);
      ([st.0] + rest.0, rest.1)
  }

  /** The fill pass over the empty slots, with `rem` units still to place. */
  function Fill(slots: seq<Slot>, id: ItemId, max: StackMax, rem: int): (r: (seq<Slot>, int))
    ensures |r.0| == |slots|
  {
    if slots == [] then ([], rem)
    else
      var st := PutStep(slots[0], id, max, rem);
      var rest := Fill(slots[1..], id, max, st.1);
      ([st.0] + rest.0, rest.1)
  }

  /** The placement plan for `qty` units and what is left unplaced (0 when everything fits). */
  function AddStackPlan(slots: seq<Slot>, id: ItemId, max: StackMax, qty: int): (r: (seq<Slot>, int))
    ensures |r.0| == |slots|
  {
    var t := TopUp(slots, id, max, qty);
    if t.1 > 0 then Fill(t.0, id, max, t.1) else t
  }

  /** Room left in the partial stacks of `id`. */
  function PartialRoom(slots: seq<Slot>, id: ItemId, max: int): nat
  {
    if slots == [] then 0
    else
      (if slots[0].Stack? && slots[0].item == id && slots[0].qty < max then max - slots[0].qty else 0)
      + PartialRoom(slots[1..], id, max)
  }

  /** Empty slots used when `rem` units are put `max` per slot. */
  function Needed(rem: int, max: StackMax): nat
    decreases rem
  {
    if rem <= 0 then 0 else 1 + Needed(rem - max, max)
  }

  /** A slot that the top-up pass raised: a partial stack of `id` grown towards `max`. */
  predicate Raised(before: Slot, after: Slot, id: ItemId, max: int)
  {
    before.Stack? && after.Stack? && before.item == id && after.item == id && before.qty < after.qty <= max
  }

  /** A slot that the fill pass used: an empty slot now holding a stack of `id` of at most `max`. */
  predicate Filled(before: Slot, after: Slot, id: ItemId, max: int)
  {
    before.Empty? && after.Stack? && after.item == id && after.qty <= max
  }

  // ---------------------------------------------------------------------------
  // The loops over local copies (addItemsAtomic and canReceiveAll plan this way)

  /** The top-up loop over a copy of the slots. */
  method PlanTopUp(slots: seq<Slot>, id: ItemId, max: StackMax, qty: int) returns (plan: seq<Slot>, remaining: int)
    ensures (plan, remaining) == TopUp(slots, id, max, qty)
  {
    plan, remaining := slots, qty;
    var i := 0;
    assert plan[..0] + TopUp(slots[0..], id, max, qty).0 == TopUp(slots, id, max, qty).0;
    while i < |plan| && remaining > 0
      invariant 0 <= i <= |plan| == |slots|
      invariant plan[i..] == slots[i..]
      invariant TopUp(slots, id, max, qty) ==
        (plan[..i] + TopUp(slots[i..], id, max, remaining).0, TopUp(slots[i..], id, max, remaining).1)
    {
      ghost var plan0, rem0 := plan, remaining;
      var s := plan[i];
      if s.Stack? && s.item == id && s.qty < max {
        var can := Min(max - s.qty, remaining);
        plan := plan[i := Stack(id, s.qty + can)];
        remaining := remaining - can;
      }
      PlanTopUpStep(slots, id, max, qty, plan0, i, rem0, plan, remaining);
      i := i + 1;
    }
    TopUpIdle(slots[i..], id, max, remaining);
    assert plan[..i] + plan[i..] == plan;
  }

  /** One step of the top-up loop over the copy: slot i is raised if it is a partial stack of `id`. */
  lemma PlanTopUpStep(slots: seq<Slot>, id: ItemId, max: StackMax, qty: int, plan: seq<Slot>, i: nat, rem: int,
                     plan2: seq<Slot>, rem2: int)
    requires i < |plan| == |slots| && rem > 0 && plan[i..] == slots[i..]
    requires TopUp(slots, id, max, qty) == (plan[..i] + TopUp(slots[i..], id, max, rem).0, TopUp(slots[i..], id, max, rem).1)
    requires var s := plan[i];
      if s.Stack? && s.item == id && s.qty < max then
        plan2 == plan[i := Stack(id, s.qty + Min(max - s.qty, rem))] && rem2 == rem - Min(max - s.qty, rem)
      else plan2 == plan && rem2 == rem
    ensures |plan2| == |slots| && plan2[i + 1..] == slots[i + 1..]
    ensures TopUp(slots, id, max, qty) ==
      (plan2[..i + 1] + TopUp(slots[i + 1..], id, max, rem2).0, TopUp(slots[i + 1..], id, max, rem2).1)
  {
    var prefix := plan[..i];
    assert plan[i] == plan[i..][0];
    PeelTopUp(prefix, slots[i..], id, max, rem);
    var st := RaiseStep(slots[i], id, max, rem);
    assert plan2[i] == st.0 && rem2 == st.1;
    assert plan2[..i + 1] == prefix + [st.0];
    assert slots[i..][1..] == slots[i + 1..];
  }

  /** The fill loop over a copy of the slots. */
  method PlanFill(slots: seq<Slot>, id: ItemId, max: StackMax, qty: int) returns (plan: seq<Slot>, remaining: int)
    ensures (plan, remaining) == Fill(slots, id, max, qty)
  {
    plan, remaining := slots, qty;
    var i := 0;
    assert plan[..0] + Fill(slots[0..], id, max, qty).0 == Fill(slots, id, max, qty).0;
    while i < |plan| && remaining > 0
      invariant 0 <= i <= |plan| == |slots|
      invariant plan[i..] == slots[i..]
      invariant Fill(slots, id, max, qty) ==
        (plan[..i] + Fill(slots[i..], id, max, remaining).0, Fill(slots[i..], id, max, remaining).1)
    {
      ghost var prefix := plan[..i];
      PeelFill(prefix, slots[i..], id, max, remaining);
      ghost var st := PutStep(slots[i], id, max, remaining);
      var s := plan[i];
      if s.Empty? {
        var put := Min(max, remaining);
        plan := plan[i := Stack(id, put)];
        remaining := remaining - put;
      }
      assert plan[i] == st.0 && remaining == st.1;
      assert plan[..i + 1] == prefix + [st.0];
      assert slots[i..][1..] == slots[i + 1..];
      i := i + 1;
    }
    FillIdle(slots[i..], id, max, remaining);
    assert plan[..i] + plan[i..] == plan;
  }

  lemma PeelTopUp(prefix: seq<Slot>, suffix: seq<Slot>, id: ItemId, max: StackMax, rem: int)
    requires suffix != []
    ensures var st := RaiseStep(suffix[0], id, max, rem);
      prefix + TopUp(suffix, id, max, rem).0 == (prefix + [st.0]) + TopUp(suffix[1..], id, max, st.1).0 &&
      TopUp(suffix, id, max, rem).1 == TopUp(suffix[1..], id, max, st.1).1
  {
  }

  lemma PeelFill(prefix: seq<Slot>, suffix: seq<Slot>, id: ItemId, max: StackMax, rem: int)
    requires suffix != []
    ensures var st := PutStep(suffix[0], id, max, rem);
      prefix + Fill(suffix, id, max, rem).0 == (prefix + [st.0]) + Fill(suffix[1..], id, max, st.1).0 &&
      Fill(suffix, id, max, rem).1 == Fill(suffix[1..], id, max, st.1).1
  {
  }

  /** The two passes of the add, run on a copy of the slots; nothing is written. */
  method PlanStackAdd(slots: seq<Slot>, id: ItemId, max: StackMax, qty: int) returns (plan: seq<Slot>, remaining: int)
    ensures (plan, remaining) == AddStackPlan(slots, id, max, qty)
  {
    plan, remaining := PlanTopUp(slots, id, max, qty);
    if remaining > 0 {
      plan, remaining := PlanFill(plan, id, max, remaining);
    }
  }

  lemma {:induction false} TopUpIdle(slots: seq<Slot>, id: ItemId, max: StackMax, rem: int)
    requires rem <= 0 || slots == []
    ensures TopUp(slots, id, max, rem) == (slots, rem)
  {
    if slots != [] {
      TopUpIdle(slots[1..], id, max, rem);
      assert [slots[0]] + slots[1..] == slots;
    }
  }

  lemma {:induction false} FillIdle(slots: seq<Slot>, id: ItemId, max: StackMax, rem: int)
    requires rem <= 0 || slots == []
    ensures Fill(slots, id, max, rem) == (slots, rem)
  {
    if slots != [] {
      FillIdle(slots[1..], id, max, rem);
      assert [slots[0]] + slots[1..] == slots;
    }
  }

  // ---------------------------------------------------------------------------
  // What the top-up pass does

  /** Top-up touches only partial stacks of `id`, raising them to at most `max`. */
  lemma {:induction false} TopUpShape(slots: seq<Slot>, id: ItemId, max: StackMax, rem: int)
    ensures |TopUp(slots, id, max, rem).0| == |slots|
    ensures forall i :: 0 <= i < |slots| ==>
      TopUp(slots, id, max, rem).0[i] == slots[i] || Raised(slots[i], TopUp(slots, id, max, rem).0[i], id, max)
    ensures rem <= 0 ==> TopUp(slots, id, max, rem).1 == rem
    ensures rem > 0 ==> 0 <= TopUp(slots, id, max, rem).1 <= rem
  {
    if slots != [] {
      var s := slots[0];
      var r := TopUp(slots, id, max, rem);
      if rem > 0 && s.Stack? && s.item == id && s.qty < max {
        var can := Min(max - s.qty, rem);
        TopUpShape(slots[1..], id, max, rem - can);
        assert r.0[1..] == TopUp(slots[1..], id, max, rem - can).0;
      } else {
        TopUpShape(slots[1..], id, max, rem);
        assert r.0[1..] == TopUp(slots[1..], id, max, rem).0;
      }
    }
  }

  /** Top-up places exactly what it no longer has to place, and only units of `id`. */
  lemma {:induction false} TopUpCount(slots: seq<Slot>, id: ItemId, max: StackMax, rem: int, j: ItemId)
    ensures Count(TopUp(slots, id, max, rem).0, j) ==
      Count(slots, j) + (if j == id then rem - TopUp(slots, id, max, rem).1 else 0)
    ensures FreeCount(TopUp(slots, id, max, rem).0) == FreeCount(slots)
  {
    if slots != [] {
      var s := slots[0];
      var r := TopUp(slots, id, max, rem);
      if rem > 0 && s.Stack? && s.item == id && s.qty < max {
        var can := Min(max - s.qty, rem);
        TopUpCount(slots[1..], id, max, rem - can, j);
        assert r.0[1..] == TopUp(slots[1..], id, max, rem - can).0;
      } else {
        TopUpCount(slots[1..], id, max, rem, j);
        assert r.0[1..] == TopUp(slots[1..], id, max, rem).0;
      }
    }
  }

  /** Top-up leaves unplaced exactly what exceeds the room in the partial stacks. */
  lemma {:induction false} TopUpLeft(slots: seq<Slot>, id: ItemId, max: StackMax, rem: int)
    requires rem > 0
    ensures TopUp(slots, id, max, rem).1 == Max(0, rem - PartialRoom(slots, id, max))
  {
    if slots != [] {
      var s := slots[0];
      if s.Stack? && s.item == id && s.qty < max {
        var can := Min(max - s.qty, rem);
        if rem - can > 0 {
          TopUpLeft(slots[1..], id, max, rem - can);
        } else {
          TopUpIdle(slots[1..], id, max, rem - can);
        }
      } else {
        TopUpLeft(slots[1..], id, max, rem);
      }
    }
  }

  /** Units still unplaced after top-up mean every partial stack of `id` was raised to `max`. */
  lemma {:induction false} TopUpFull(slots: seq<Slot>, id: ItemId, max: StackMax, rem: int)
    requires TopUp(slots, id, max, rem).1 > 0
    ensures PartialRoom(TopUp(slots, id, max, rem).0, id, max) == 0
  {
    TopUpShape(slots, id, max, rem);
    if slots != [] {
      var s := slots[0];
      var r := TopUp(slots, id, max, rem);
      if s.Stack? && s.item == id && s.qty < max {
        var can := Min(max - s.qty, rem);
        TopUpShape(slots[1..], id, max, rem - can);
        TopUpFull(slots[1..], id, max, rem - can);
        assert r.0[1..] == TopUp(slots[1..], id, max, rem - can).0;
      } else {
        TopUpFull(slots[1..], id, max, rem);
        assert r.0[1..] == TopUp(slots[1..], id, max, rem).0;
      }
    }
  }

  /** Top-up works left to right: once a later stack is raised, every earlier partial stack is full. */
  lemma {:induction false} TopUpInOrder(slots: seq<Slot>, id: ItemId, max: StackMax, rem: int)
    ensures |TopUp(slots, id, max, rem).0| == |slots|
    ensures forall i, j ::
      (0 <= i < j < |slots| && slots[i].Stack? && slots[i].item == id && slots[i].qty < max &&
       TopUp(slots, id, max, rem).0[j] != slots[j]) ==> TopUp(slots, id, max, rem).0[i] == Stack(id, max)
  {
    TopUpShape(slots, id, max, rem);
    if slots != [] {
      var s := slots[0];
      var r := TopUp(slots, id, max, rem);
      if rem > 0 && s.Stack? && s.item == id && s.qty < max {
        var can := Min(max - s.qty, rem);
        TopUpInOrder(slots[1..], id, max, rem - can);
        assert r.0[1..] == TopUp(slots[1..], id, max, rem - can).0;
        if can < max - s.qty {
          TopUpIdle(slots[1..], id, max, rem - can);
        }
      } else {
        TopUpInOrder(slots[1..], id, max, rem);
        assert r.0[1..] == TopUp(slots[1..], id, max, rem).0;
        if rem <= 0 {
          TopUpIdle(slots, id, max, rem);
        }
      }
      FullBeforeCons(slots, r.0, id, max);
    }
  }

  /** Earlier-stacks-full extends from the tail to the whole list when a first partial stack left short means
      nothing after it was raised. */
  lemma FullBeforeCons(slots: seq<Slot>, r: seq<Slot>, id: ItemId, max: StackMax)
    requires |r| == |slots| > 0
    requires forall i, j ::
      (0 <= i < j < |slots[1..]| && slots[1..][i].Stack? && slots[1..][i].item == id && slots[1..][i].qty < max &&
       r[1..][j] != slots[1..][j]) ==> r[1..][i] == Stack(id, max)
    requires slots[0].Stack? && slots[0].item == id && slots[0].qty < max && r[0] != Stack(id, max) ==>
      forall j :: 1 <= j < |slots| ==> r[j] == slots[j]
    ensures forall i, j ::
      (0 <= i < j < |slots| && slots[i].Stack? && slots[i].item == id && slots[i].qty < max && r[j] != slots[j]) ==>
        r[i] == Stack(id, max)
  {
    forall i, j | 0 <= i < j < |slots| && slots[i].Stack? && slots[i].item == id && slots[i].qty < max && r[j] != slots[j]
      ensures r[i] == Stack(id, max)
    {
      if i > 0 {
        assert slots[1..][i - 1] == slots[i] && r[1..][j - 1] == r[j] && slots[1..][j - 1] == slots[j];
        assert r[1..][i - 1] == r[i];
      }
    }
  }

  /** Top-up changes no empty slot and leaves other items' partial stacks alone. */
  lemma {:induction false} TopUpOthers(slots: seq<Slot>, id: ItemId, max: StackMax, rem: int, k: ItemId, m: int)
    requires k != id
    ensures PartialRoom(TopUp(slots, id, max, rem).0, k, m) == PartialRoom(slots, k, m)
  {
    if slots != [] {
      var s := slots[0];
      var r := TopUp(slots, id, max, rem);
      if rem > 0 && s.Stack? && s.item == id && s.qty < max {
        var can := Min(max - s.qty, rem);
        TopUpOthers(slots[1..], id, max, rem - can, k, m);
        assert r.0[1..] == TopUp(slots[1..], id, max, rem - can).0;
      } else {
        TopUpOthers(slots[1..], id, max, rem, k, m);
        assert r.0[1..] == TopUp(slots[1..], id, max, rem).0;
      }
    }
  }

  // ---------------------------------------------------------------------------
  // What the fill pass does

  /** Fill touches only empty slots, putting at most `max` units of `id` in each. */
  lemma {:induction false} FillShape(slots: seq<Slot>, id: ItemId, max: StackMax, rem: int)
    ensures |Fill(slots, id, max, rem).0| == |slots|
    ensures forall i :: 0 <= i < |slots| ==>
      Fill(slots, id, max, rem).0[i] == slots[i] || Filled(slots[i], Fill(slots, id, max, rem).0[i], id, max)
    ensures rem <= 0 ==> Fill(slots, id, max, rem).1 == rem
    ensures rem > 0 ==> 0 <= Fill(slots, id, max, rem).1 <= rem
  {
    if slots != [] {
      var r := Fill(slots, id, max, rem);
      if rem > 0 && slots[0].Empty? {
        var put := Min(max, rem);
        FillShape(slots[1..], id, max, rem - put);
        assert forall i :: 1 <= i < |slots| ==> r.0[i] == Fill(slots[1..], id, max, rem - put).0[i - 1];
      } else {
        FillShape(slots[1..], id, max, rem);
        assert forall i :: 1 <= i < |slots| ==> r.0[i] == Fill(slots[1..], id, max, rem).0[i - 1];
      }
    }
  }

  /** Fill places exactly what it no longer has to place, and only units of `id`. */
  lemma {:induction false} FillCount(slots: seq<Slot>, id: ItemId, max: StackMax, rem: int, j: ItemId)
    ensures Count(Fill(slots, id, max, rem).0, j) ==
      Count(slots, j) + (if j == id then rem - Fill(slots, id, max, rem).1 else 0)
  {
    if slots != [] {
      var r := Fill(slots, id, max, rem);
      if rem > 0 && slots[0].Empty? {
        var put := Min(max, rem);
        FillCount(slots[1..], id, max, rem - put, j);
        assert r.0[1..] == Fill(slots[1..], id, max, rem - put).0;
      } else {
        FillCount(slots[1..], id, max, rem, j);
        assert r.0[1..] == Fill(slots[1..], id, max, rem).0;
      }
    }
  }

  /** Fill leaves unplaced exactly what exceeds stack_max units per empty slot. */
  lemma {:induction false} FillLeft(slots: seq<Slot>, id: ItemId, max: StackMax, rem: int)
    requires rem > 0
    ensures Fill(slots, id, max, rem).1 == Max(0, rem - max * FreeCount(slots))
  {
    if slots == [] {
      assert max * FreeCount(slots) == 0;
    } else {
      var f := FreeCount(slots[1..]);
      assert max * f >= 0;
      if slots[0].Empty? {
        var put := Min(max, rem);
        assert max * FreeCount(slots) == max * f + max;
        if rem - put > 0 {
          FillLeft(slots[1..], id, max, rem - put);
        } else {
          FillIdle(slots[1..], id, max, rem - put);
        }
      } else {
        FillLeft(slots[1..], id, max, rem);
      }
    }
  }

  /** Fill succeeds exactly when Needed(rem) empty slots exist, and then uses that many. */
  lemma {:induction false} FillUses(slots: seq<Slot>, id: ItemId, max: StackMax, rem: int)
    requires rem > 0
    ensures Fill(slots, id, max, rem).1 == 0 <==> Needed(rem, max) <= FreeCount(slots)
    ensures Fill(slots, id, max, rem).1 == 0 ==> FreeCount(Fill(slots, id, max, rem).0) == FreeCount(slots) - Needed(rem, max)
  {
    if slots != [] {
      var r := Fill(slots, id, max, rem);
      if slots[0].Empty? {
        var put := Min(max, rem);
        assert r.0[1..] == Fill(slots[1..], id, max, rem - put).0;
        if rem - put > 0 {
          FillUses(slots[1..], id, max, rem - put);
        } else {
          FillIdle(slots[1..], id, max, rem - put);
          assert Needed(rem - max, max) == 0;
        }
      } else {
        FillUses(slots[1..], id, max, rem);
        assert r.0[1..] == Fill(slots[1..], id, max, rem).0;
      }
    }
  }

  /** Fill works left to right: once a later empty slot is used, every earlier empty slot holds a full stack. */
  lemma {:induction false} FillInOrder(slots: seq<Slot>, id: ItemId, max: StackMax, rem: int)
    ensures |Fill(slots, id, max, rem).0| == |slots|
    ensures forall i, j :: 0 <= i < j < |slots| && slots[i].Empty? && Fill(slots, id, max, rem).0[j] != slots[j] ==>
      Fill(slots, id, max, rem).0[i] == Stack(id, max)
  {
    FillShape(slots, id, max, rem);
    if slots != [] {
      var r := Fill(slots, id, max, rem);
      if rem > 0 && slots[0].Empty? {
        var put := Min(max, rem);
        FillInOrder(slots[1..], id, max, rem - put);
        assert forall i :: 1 <= i < |slots| ==> r.0[i] == Fill(slots[1..], id, max, rem - put).0[i - 1];
        if put < max {
          FillIdle(slots[1..], id, max, rem - put);
        }
      } else {
        FillInOrder(slots[1..], id, max, rem);
        assert forall i :: 1 <= i < |slots| ==> r.0[i] == Fill(slots[1..], id, max, rem).0[i - 1];
        if rem <= 0 {
          FillIdle(slots, id, max, rem);
        }
      }
    }
  }

  /** Fill creates stacks of `id` only, so other items' partial stacks keep their room. */
  lemma {:induction false} FillOthers(slots: seq<Slot>, id: ItemId, max: StackMax, rem: int, k: ItemId, m: int)
    requires k != id
    ensures PartialRoom(Fill(slots, id, max, rem).0, k, m) == PartialRoom(slots, k, m)
  {
    if slots != [] {
      var r := Fill(slots, id, max, rem);
      if rem > 0 && slots[0].Empty? {
        var put := Min(max, rem);
        FillOthers(slots[1..], id, max, rem - put, k, m);
        assert r.0[1..] == Fill(slots[1..], id, max, rem - put).0;
      } else {
        FillOthers(slots[1..], id, max, rem, k, m);
        assert r.0[1..] == Fill(slots[1..], id, max, rem).0;
      }
    }
  }

  /** Putting `rem` units `max` per slot fits in `free` empty slots exactly when rem <= max * free. */
  lemma {:induction false} NeededFits(rem: int, max: StackMax, free: nat)
    ensures Needed(rem, max) <= free <==> rem <= max * free
    decreases free
  {
    if rem > 0 && free > 0 {
      NeededFits(rem - max, max, free - 1);
      assert max * free == max * (free - 1) + max;
    }
  }

  // ---------------------------------------------------------------------------
  // The whole add

  /** The add fits exactly when qty is at most the room in the partial stacks plus stack_max per empty slot;
      otherwise the excess is what remains unplaced. */
  lemma AddPlanRoom(slots: seq<Slot>, id: ItemId, max: StackMax, qty: int)
    requires qty > 0
    ensures AddStackPlan(slots, id, max, qty).1 == Max(0, qty - PartialRoom(slots, id, max) - max * FreeCount(slots))
  {
    TopUpLeft(slots, id, max, qty);
    TopUpCount(slots, id, max, qty, id);
    var t := TopUp(slots, id, max, qty);
    assert max * FreeCount(slots) >= 0;
    if t.1 > 0 {
      FillLeft(t.0, id, max, t.1);
    }
  }

  /** The plan holds qty - remaining more units of `id` and the same amount of every other item. */
  lemma AddPlanCount(slots: seq<Slot>, id: ItemId, max: StackMax, qty: int, j: ItemId)
    ensures Count(AddStackPlan(slots, id, max, qty).0, j) ==
      Count(slots, j) + (if j == id then qty - AddStackPlan(slots, id, max, qty).1 else 0)
  {
    TopUpCount(slots, id, max, qty, j);
    var t := TopUp(slots, id, max, qty);
    if t.1 > 0 {
      FillCount(t.0, id, max, t.1, j);
    }
  }

  /** The plan changes only partial stacks of `id` (raised to at most stack_max) and empty slots
      (now a stack of `id` of at most stack_max). */
  lemma AddPlanShape(slots: seq<Slot>, id: ItemId, max: StackMax, qty: int)
    ensures |AddStackPlan(slots, id, max, qty).0| == |slots|
    ensures forall i :: 0 <= i < |slots| ==>
      var p := AddStackPlan(slots, id, max, qty).0[i];
      p == slots[i] || Raised(slots[i], p, id, max) || Filled(slots[i], p, id, max)
    ensures qty <= 0 ==> AddStackPlan(slots, id, max, qty) == (slots, qty)
    ensures qty > 0 ==> 0 <= AddStackPlan(slots, id, max, qty).1 <= qty
  {
    TopUpShape(slots, id, max, qty);
    var t := TopUp(slots, id, max, qty);
    if t.1 > 0 {
      FillShape(t.0, id, max, t.1);
      forall i | 0 <= i < |slots|
        ensures var p := AddStackPlan(slots, id, max, qty).0[i];
          p == slots[i] || Raised(slots[i], p, id, max) || Filled(slots[i], p, id, max)
      {
        var p := Fill(t.0, id, max, t.1).0[i];
        if p != t.0[i] {
          assert Filled(t.0[i], p, id, max);
          assert t.0[i].Empty?;
          assert t.0[i] == slots[i];
        }
      }
    } else if qty <= 0 {
      TopUpIdle(slots, id, max, qty);
    }
  }

  /** Empty slots are used only once no partial stack of `id` has room left. */
  lemma AddPlanTopUpFirst(slots: seq<Slot>, id: ItemId, max: StackMax, qty: int)
    ensures |AddStackPlan(slots, id, max, qty).0| == |slots|
    ensures forall i, j ::
      (0 <= i < |slots| && 0 <= j < |slots| &&
       slots[i].Stack? && slots[i].item == id && slots[i].qty < max &&
       slots[j].Empty? && !AddStackPlan(slots, id, max, qty).0[j].Empty?) ==>
      AddStackPlan(slots, id, max, qty).0[i] == Stack(id, max)
  {
    AddPlanShape(slots, id, max, qty);
    TopUpShape(slots, id, max, qty);
    var t := TopUp(slots, id, max, qty);
    if t.1 > 0 {
      TopUpFull(slots, id, max, qty);
      FillShape(t.0, id, max, t.1);
      forall i | 0 <= i < |slots| && slots[i].Stack? && slots[i].item == id && slots[i].qty < max
        ensures t.0[i] == Stack(id, max)
      {
        PartialRoomZero(t.0, id, max, i);
      }
    } else {
      forall j | 0 <= j < |slots| && slots[j].Empty?
        ensures AddStackPlan(slots, id, max, qty).0[j].Empty?
      {
      }
    }
  }

  lemma {:induction false} PartialRoomZero(slots: seq<Slot>, id: ItemId, max: int, i: nat)
    requires PartialRoom(slots, id, max) == 0 && i < |slots|
    requires slots[i].Stack? && slots[i].item == id
    ensures slots[i].qty >= max
  {
    if i > 0 {
      PartialRoomZero(slots[1..], id, max, i - 1);
    }
  }

  /** Empty slots are used lowest slot first: a used empty slot below a later used one holds a full stack. */
  lemma AddPlanFillInOrder(slots: seq<Slot>, id: ItemId, max: StackMax, qty: int)
    ensures |AddStackPlan(slots, id, max, qty).0| == |slots|
    ensures forall i, j ::
      (0 <= i < j < |slots| && slots[i].Empty? && slots[j].Empty? &&
       !AddStackPlan(slots, id, max, qty).0[j].Empty?) ==> AddStackPlan(slots, id, max, qty).0[i] == Stack(id, max)
  {
    AddPlanShape(slots, id, max, qty);
    TopUpShape(slots, id, max, qty);
    var t := TopUp(slots, id, max, qty);
    if t.1 > 0 {
      FillInOrder(t.0, id, max, t.1);
    }
  }

  /** A successful add uses Needed(leftover) empty slots, where leftover is what the partial stacks
      could not take. */
  lemma AddPlanFree(slots: seq<Slot>, id: ItemId, max: StackMax, qty: int)
    requires qty > 0 && AddStackPlan(slots, id, max, qty).1 == 0
    ensures FreeCount(AddStackPlan(slots, id, max, qty).0) ==
      FreeCount(slots) - Needed(Max(0, qty - PartialRoom(slots, id, max)), max)
    ensures Needed(Max(0, qty - PartialRoom(slots, id, max)), max) <= FreeCount(slots)
  {
    TopUpLeft(slots, id, max, qty);
    TopUpCount(slots, id, max, qty, id);
    var t := TopUp(slots, id, max, qty);
    if t.1 > 0 {
      FillUses(t.0, id, max, t.1);
    }
  }

  /** The add leaves every other item's partial-stack room unchanged. */
  lemma AddPlanOthers(slots: seq<Slot>, id: ItemId, max: StackMax, qty: int, k: ItemId, m: int)
    requires k != id
    ensures PartialRoom(AddStackPlan(slots, id, max, qty).0, k, m) == PartialRoom(slots, k, m)
  {
    TopUpOthers(slots, id, max, qty, k, m);
    var t := TopUp(slots, id, max, qty);
    if t.1 > 0 {
      FillOthers(t.0, id, max, t.1, k, m);
    }
  }

  /** The plan keeps every slot within the catalogue's stack limits. */
  lemma AddPlanConforms(slots: seq<Slot>, cat: Catalog, id: ItemId, qty: int)
    requires Conforms(slots, cat) && id in cat && cat[id] > 1
    ensures Conforms(AddStackPlan(slots, id, cat[id], qty).0, cat)
  {
    AddPlanShape(slots, id, cat[id], qty);
  }

  /** Ten empty slots, stack_max 16, add 40: slots 1-3 hold 16, 16 and 8, the other seven stay empty. */
  lemma ScenarioFortyUnits(id: ItemId)
    ensures AddStackPlan(seq(10, _ => Empty), id, 16, 40) ==
      ([Stack(id, 16), Stack(id, 16), Stack(id, 8)] + seq(7, _ => Empty), 0)
  {
    var e := seq(10, _ => Empty);
    TopUpAllEmpty(e, id, 16, 40);
    var e1, e2, e3 := e[1..], e[2..], e[3..];
    assert e1[1..] == e2 && e2[1..] == e3 && e3 == seq(7, _ => Empty);
    FillIdle(e3, id, 16, 0);
    assert e[0].Empty? && e1[0].Empty? && e2[0].Empty?;
    assert Fill(e2, id, 16, 8) == ([Stack(id, 8)] + e3, 0);
    assert [Stack(id, 16)] + ([Stack(id, 8)] + e3) == [Stack(id, 16), Stack(id, 8)] + e3;
    assert [Stack(id, 16)] + ([Stack(id, 16), Stack(id, 8)] + e3) == [Stack(id, 16), Stack(id, 16), Stack(id, 8)] + e3;
    assert Fill(e1, id, 16, 24) == ([Stack(id, 16), Stack(id, 8)] + e3, 0);
    assert Fill(e, id, 16, 40) == ([Stack(id, 16), Stack(id, 16), Stack(id, 8)] + e3, 0);
  }

  lemma {:induction false} TopUpAllEmpty(slots: seq<Slot>, id: ItemId, max: StackMax, rem: int)
    requires forall i :: 0 <= i < |slots| ==> slots[i].Empty?
    ensures TopUp(slots, id, max, rem) == (slots, rem)
  {
    if slots != [] {
      TopUpAllEmpty(slots[1..], id, max, rem);
      assert [slots[0]] + slots[1..] == slots;
    }
  }
  // ---------------------------------------------------------------------------
  // Unique units: one per free slot, in slot order, each with a fresh instance id

  /** The first `k` empty slots each get one unit of `id`; instance ids next, next+1, ... in slot order. */
  function PlaceUniques(slots: seq<Slot>, id: ItemId, next: InstanceId, k: int, dur: Option<int>, durMax: Option<int>): (r: seq<Slot>)
    ensures |r| == |slots|
  {
    if slots == [] then []
    else if k > 0 && slots[0].Empty? then
      [Unique(id, next, dur, durMax)] + PlaceUniques(slots[1..], id, next + 1, k - 1, dur, durMax)
    else [slots[0]] + PlaceUniques(slots[1..], id, next, k, dur, durMax)
  }

  /** A slot the unique placement used: formerly empty, now one unit of `id` with an id from next..next+k-1. */
  predicate Placed(before: Slot, after: Slot, id: ItemId, lo: int, hi: int, dur: Option<int>, durMax: Option<int>)
  {
    before.Empty? && after.Unique? && after.item == id && lo <= after.instance < hi &&
    after.durability == dur && after.durabilityMax == durMax
  }

  /** The unique loop over a copy of the slots, visiting the free slots in slot order. */
  method PlanUniques(slots: seq<Slot>, id: ItemId, next: InstanceId, k: int, dur: Option<int>, durMax: Option<int>)
    returns (plan: seq<Slot>)
    ensures plan == PlaceUniques(slots, id, next, k, dur, durMax)
  {
    plan := slots;
    var i, n, left := 0, next, k;
    assert plan[..0] + PlaceUniques(slots[0..], id, n, left, dur, durMax) == PlaceUniques(slots, id, next, k, dur, durMax);
    while i < |plan|
      invariant 0 <= i <= |plan| == |slots|
      invariant plan[i..] == slots[i..]
      invariant PlaceUniques(slots, id, next, k, dur, durMax) == plan[..i] + PlaceUniques(slots[i..], id, n, left, dur, durMax)
    {
      ghost var plan0, n0, left0 := plan, n, left;
      if left > 0 && plan[i].Empty? {
        plan := plan[i := Unique(id, n, dur, durMax)];
        n, left := n + 1, left - 1;
      }
      PlanUniquesStep(slots, id, next, k, dur, durMax, plan0, i, n0, left0, plan, n, left);
      i := i + 1;
    }
    assert plan[..i] == plan;
  }

  /** One step of the unique placement loop over the copy: slot i takes the next id if it is empty and units remain. */
  lemma PlanUniquesStep(slots: seq<Slot>, id: ItemId, next: InstanceId, k: int, dur: Option<int>, durMax: Option<int>,
                       plan: seq<Slot>, i: nat, n: InstanceId, left: int, plan2: seq<Slot>, n2: InstanceId, left2: int)
    requires i < |plan| == |slots| && plan[i..] == slots[i..]
    requires PlaceUniques(slots, id, next, k, dur, durMax) == plan[..i] + PlaceUniques(slots[i..], id, n, left, dur, durMax)
    requires if left > 0 && plan[i].Empty? then plan2 == plan[i := Unique(id, n, dur, durMax)] && n2 == n + 1 && left2 == left - 1
      else plan2 == plan && n2 == n && left2 == left
    ensures |plan2| == |slots| && plan2[i + 1..] == slots[i + 1..]
    ensures PlaceUniques(slots, id, next, k, dur, durMax) == plan2[..i + 1] + PlaceUniques(slots[i + 1..], id, n2, left2, dur, durMax)
  {
    assert slots[i..][0] == plan[i] && slots[i..][1..] == slots[i + 1..];
    assert plan2[..i + 1] == plan[..i] + [plan2[i]];
  }

  /** Placing k <= FreeCount units: k more of `id`, k fewer empty slots, nothing else changes, and every
      used slot is a formerly empty one holding a fresh id from next..next+k-1. */
  lemma {:induction false} PlaceUniquesFacts(slots: seq<Slot>, id: ItemId, next: InstanceId, k: int,
                                            dur: Option<int>, durMax: Option<int>, j: ItemId)
    requires 0 <= k <= FreeCount(slots)
    ensures var r := PlaceUniques(slots, id, next, k, dur, durMax);
      Count(r, j) == Count(slots, j) + (if j == id then k else 0) &&
      FreeCount(r) == FreeCount(slots) - k &&
      forall i :: 0 <= i < |slots| ==> r[i] == slots[i] || Placed(slots[i], r[i], id, next, next + k, dur, durMax)
  {
    if slots != [] {
      var r := PlaceUniques(slots, id, next, k, dur, durMax);
      if k > 0 && slots[0].Empty? {
        PlaceUniquesFacts(slots[1..], id, next + 1, k - 1, dur, durMax, j);
        assert r[1..] == PlaceUniques(slots[1..], id, next + 1, k - 1, dur, durMax);
      } else {
        PlaceUniquesFacts(slots[1..], id, next, k, dur, durMax, j);
        assert r[1..] == PlaceUniques(slots[1..], id, next, k, dur, durMax);
      }
      assert forall i :: 1 <= i < |slots| ==> r[i] == r[1..][i - 1] && slots[i] == slots[1..][i - 1];
    }
  }

  /** The ids handed out grow with the slot number, so no two placed units share one. */
  lemma {:induction false} PlaceUniquesDistinct(slots: seq<Slot>, id: ItemId, next: InstanceId, k: int,
                                               dur: Option<int>, durMax: Option<int>)
    ensures var r := PlaceUniques(slots, id, next, k, dur, durMax);
      forall a, b :: 0 <= a < b < |slots| && r[a] != slots[a] && r[b] != slots[b] ==>
        r[a].Unique? && r[b].Unique? && r[a].instance < r[b].instance
  {
    if slots != [] {
      var r := PlaceUniques(slots, id, next, k, dur, durMax);
      var k1, n1 := if k > 0 && slots[0].Empty? then k - 1 else k, if k > 0 && slots[0].Empty? then next + 1 else next;
      PlaceUniquesDistinct(slots[1..], id, n1, k1, dur, durMax);
      PlaceUniquesFacts(slots[1..], id, n1, Max(0, Min(k1, FreeCount(slots[1..]))), dur, durMax, id);
      PlaceUniquesClamp(slots[1..], id, n1, k1, dur, durMax);
      assert r[1..] == PlaceUniques(slots[1..], id, n1, k1, dur, durMax);
      assert forall i :: 1 <= i < |slots| ==> r[i] == r[1..][i - 1] && slots[i] == slots[1..][i - 1];
    }
  }

  /** Asking for more units than free slots places one per free slot. */
  lemma {:induction false} PlaceUniquesClamp(slots: seq<Slot>, id: ItemId, next: InstanceId, k: int,
                                            dur: Option<int>, durMax: Option<int>)
    ensures PlaceUniques(slots, id, next, k, dur, durMax) ==
      PlaceUniques(slots, id, next, Max(0, Min(k, FreeCount(slots))), dur, durMax)
  {
    if slots != [] {
      if k > 0 && slots[0].Empty? {
        PlaceUniquesClamp(slots[1..], id, next + 1, k - 1, dur, durMax);
      } else {
        PlaceUniquesClamp(slots[1..], id, next, k, dur, durMax);
        if k > 0 {
          assert Max(0, Min(k, FreeCount(slots))) == Max(0, Min(k, FreeCount(slots[1..])));
        } else {
          PlaceUniquesIdle(slots, id, next, k, dur, durMax);
          PlaceUniquesIdle(slots, id, next, 0, dur, durMax);
        }
      }
    }
  }

  lemma {:induction false} PlaceUniquesIdle(slots: seq<Slot>, id: ItemId, next: InstanceId, k: int,
                                           dur: Option<int>, durMax: Option<int>)
    requires k <= 0
    ensures PlaceUniques(slots, id, next, k, dur, durMax) == slots
  {
    if slots != [] {
      PlaceUniquesIdle(slots[1..], id, next, k, dur, durMax);
      assert [slots[0]] + slots[1..] == slots;
    }
  }

  /** Free slots are used lowest first: a used slot means every lower free slot was used too. */
  lemma {:induction false} PlaceUniquesInOrder(slots: seq<Slot>, id: ItemId, next: InstanceId, k: int,
                                              dur: Option<int>, durMax: Option<int>)
    ensures var r := PlaceUniques(slots, id, next, k, dur, durMax);
      forall a, b :: 0 <= a < b < |slots| && slots[a].Empty? && r[b] != slots[b] ==> r[a] != slots[a]
  {
    if slots != [] {
      var r := PlaceUniques(slots, id, next, k, dur, durMax);
      var k1, n1 := if k > 0 && slots[0].Empty? then k - 1 else k, if k > 0 && slots[0].Empty? then next + 1 else next;
      PlaceUniquesInOrder(slots[1..], id, n1, k1, dur, durMax);
      if k <= 0 {
        PlaceUniquesIdle(slots, id, next, k, dur, durMax);
      }
      assert r[1..] == PlaceUniques(slots[1..], id, n1, k1, dur, durMax);
      LowestFirstCons(slots, r);
    }
  }

  /** Lowest-first use extends from the tail to the whole list when an unused free first slot means nothing
      after it was used either. */
  lemma LowestFirstCons(slots: seq<Slot>, r: seq<Slot>)
    requires |r| == |slots| > 0
    requires forall a, b :: 0 <= a < b < |slots[1..]| && slots[1..][a].Empty? && r[1..][b] != slots[1..][b] ==>
      r[1..][a] != slots[1..][a]
    requires slots[0].Empty? && r[0] == slots[0] ==> forall b :: 1 <= b < |slots| ==> r[b] == slots[b]
    ensures forall a, b :: 0 <= a < b < |slots| && slots[a].Empty? && r[b] != slots[b] ==> r[a] != slots[a]
  {
    forall a, b | 0 <= a < b < |slots| && slots[a].Empty? && r[b] != slots[b]
      ensures r[a] != slots[a]
    {
      if a > 0 {
        assert slots[1..][a - 1] == slots[a] && r[1..][b - 1] == r[b] && slots[1..][b - 1] == slots[b];
        assert r[1..][a - 1] == r[a];
      }
    }
  }
}
