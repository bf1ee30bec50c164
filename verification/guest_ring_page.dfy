/** ring_push() and ring_pop() as one guest calls them, tied to their accesses. */
module GuestRingPage {
  import opened Words
  import opened GuestRing

  /** The values waiting, oldest first. */
  function Waiting(widx: u32, ridx: u32, slots: seq<u64>): seq<u64>
    requires |slots| == SLOTS
  {
    seq(Minus32(widx, ridx), j requires 0 <= j < Minus32(widx, ridx) => slots[Spot(ridx + j)])
  }

  class SharedRing {
    var widx: u32
    var ridx: u32
    const slots: array<u64>

    ghost predicate Valid()
      reads this, slots
    {
      slots.Length == SLOTS && Minus32(widx, ridx) <= SLOTS
    }

    ghost function Contents(): seq<u64>
      reads this, slots
      requires Valid()
    {
      Waiting(widx, ridx, slots[..])
    }

    /** The ring with both guests outside their calls, counted from `popped` on. */
    ghost function View(pushed: seq<u64>, popped: nat, base: nat): Ring
      reads this, slots
      requires slots.Length == SLOTS
    {
      Ring(widx, ridx, slots[..], Idle, Resting, base, pushed, popped)
    }

    constructor ()
      ensures Valid() && fresh(slots) && Contents() == []
    {
      widx, ridx := 0, 0;
      slots := new u64[SLOTS](_ => 0);
      new;
      ModUnique(0, 0, 0, TWO_32);
    }

    /** 0 when full. */
    method Push(value: u64) returns (pushed: bool)
      requires Valid()
      modifies this, slots
      ensures Valid() && (pushed <==> |old(Contents())| < SLOTS)
      ensures Contents() == if pushed then old(Contents()) + [value] else old(Contents())
      ensures !pushed ==> slots[..] == old(slots[..]) && widx == old(widx)
      ensures ridx == old(ridx)
      ensures pushed ==> forall before: seq<u64>, popped: nat, base: nat ::
                Run(old(View(before, popped, base)), [BeginPush(value), CheckRoom, StoreSlot, Publish]) ==
                Some(View(before + [value], popped, base))
    {
      var w, r := widx, ridx;
      if Minus32(w, r) == SLOTS {
        return false;
      }
      ghost var was := slots[..];
      slots[w % SLOTS] := value;
      widx := (w + 1) % TWO_32;
      assert slots[..] == was[Spot(w) := value];
      OneMoreWaits(w, r, was, value);
      forall before: seq<u64>, popped: nat, base: nat {
        PushSteps(Ring(w, r, was, Idle, Resting, base, before, popped), value);
      }
      return true;
    }

    /** 0 when empty. */
    method Pop() returns (value: Option<u64>)
      requires Valid()
      modifies this
      ensures Valid() && slots[..] == old(slots[..]) && widx == old(widx)
      ensures value.None? <==> old(Contents()) == []
      ensures value.None? ==> ridx == old(ridx)
      ensures value.Some? ==> old(Contents()) == [value.value] + Contents()
      ensures forall pushed: seq<u64>, popped: nat, base: nat ::
                Run(old(View(pushed, popped, base)), if value.None? then [BeginPop, CheckAny] else POP) ==
                Some(View(pushed, if value.None? then popped else popped + 1, base))
    {
      var r, w := ridx, widx;
      EmptyWhenEqual(w, r);
      if w == r {
        forall pushed: seq<u64>, popped: nat, base: nat {
          PopFinds(Ring(w, r, slots[..], Idle, Resting, base, pushed, popped));
        }
        return None;
      }
      value := Some(slots[r % SLOTS]);
      ridx := (r + 1) % TWO_32;
      OneFewerWaits(w, r, slots[..]);
      forall pushed: seq<u64>, popped: nat, base: nat {
        PopSteps(Ring(w, r, slots[..], Idle, Resting, base, pushed, popped));
      }
    }
  }

  /** ring_pop()'s accesses when something waits. */
  const POP: seq<Step> := [BeginPop, CheckAny, TakeSlot, FreeSlot]

  lemma PopFinds(s: Ring)
    requires |s.slots| == SLOTS && s.consumer.Resting? && s.widx == s.ridx
    ensures Run(s, [BeginPop, CheckAny]) == Some(s)
  {
    var a := Apply(s, BeginPop);
    assert Apply(a, CheckAny) == s;
    assert [BeginPop, CheckAny][1..] == [CheckAny] && [CheckAny][1..] == [];
    assert Run(s, []) == Some(s) && Run(a, [CheckAny]) == Some(s);
  }

  lemma PopSteps(s: Ring)
    requires |s.slots| == SLOTS && s.consumer.Resting? && s.widx != s.ridx
    ensures Run(s, POP) == Some(s.(ridx := Wrap(s.ridx + 1), popped := s.popped + 1))
  {
    var a := Apply(s, BeginPop);
    var b := Apply(a, CheckAny);
    var c := Apply(b, TakeSlot);
    var d := Apply(c, FreeSlot);
    assert d == s.(ridx := Wrap(s.ridx + 1), popped := s.popped + 1);
    assert POP[1..] == [CheckAny, TakeSlot, FreeSlot] && [CheckAny, TakeSlot, FreeSlot][1..] == [TakeSlot, FreeSlot];
    assert [TakeSlot, FreeSlot][1..] == [FreeSlot] && [FreeSlot][1..] == [];
    assert Run(d, []) == Some(d);
    assert Run(c, [FreeSlot]) == Some(d);
    assert Run(b, [TakeSlot, FreeSlot]) == Some(d);
    assert Run(a, [CheckAny, TakeSlot, FreeSlot]) == Some(d);
  }

  lemma EmptyWhenEqual(widx: u32, ridx: u32)
    ensures Minus32(widx, ridx) == 0 <==> widx == ridx
  {
    BackMod(widx, ridx, TWO_32);
    ModUnique(ridx, 0, ridx, TWO_32);
    ModUnique(0, 0, 0, TWO_32);
  }

  lemma OneMoreWaits(widx: u32, ridx: u32, slots: seq<u64>, value: u64)
    requires |slots| == SLOTS && Minus32(widx, ridx) < SLOTS
    ensures Waiting(Wrap(widx + 1), ridx, slots[Spot(widx) := value]) == Waiting(widx, ridx, slots) + [value]
  {
    var n := Minus32(widx, ridx);
    OneFurther(widx, ridx);
    var after := Waiting(Wrap(widx + 1), ridx, slots[Spot(widx) := value]);
    var before := Waiting(widx, ridx, slots) + [value];
    forall j | 0 <= j < n + 1 ensures after[j] == before[j] {
      if j < n {
        SlotsDistinct(ridx + j, ridx + n, SLOTS);
        assert Spot(ridx + j) != Spot(ridx + n);
      } else {
        assert after[j] == slots[Spot(widx) := value][Spot(ridx + n)];
      }
    }
  }

  lemma OneFurther(widx: u32, ridx: u32)
    requires Minus32(widx, ridx) < SLOTS
    ensures Minus32(Wrap(widx + 1), ridx) == Minus32(widx, ridx) + 1
    ensures Spot(ridx + Minus32(widx, ridx)) == Spot(widx)
  {
    var n := Minus32(widx, ridx);
    BackMod(widx, ridx, TWO_32);
    NextMod(ridx + n, TWO_32);
    ModUnique(ridx, 0, ridx, TWO_32);
    MinusMod(ridx + n + 1, ridx, TWO_32);
    SpotOfWrap(ridx + n);
  }

  lemma OneFewerWaits(widx: u32, ridx: u32, slots: seq<u64>)
    requires |slots| == SLOTS && 0 < Minus32(widx, ridx) <= SLOTS
    ensures Minus32(widx, Wrap(ridx + 1)) == Minus32(widx, ridx) - 1
    ensures Waiting(widx, ridx, slots) == [slots[Spot(ridx)]] + Waiting(widx, Wrap(ridx + 1), slots)
  {
    var n := Minus32(widx, ridx);
    BackMod(widx, ridx, TWO_32);
    MinusMod(ridx + n, ridx + 1, TWO_32);
    var left, right := Waiting(widx, ridx, slots), [slots[Spot(ridx)]] + Waiting(widx, Wrap(ridx + 1), slots);
    forall j | 0 <= j < n ensures left[j] == right[j] {
      if j > 0 {
        SameSpot(ridx, j);
      }
    }
  }

  lemma SameSpot(ridx: u32, j: nat)
    requires j > 0
    ensures Spot(Wrap(ridx + 1) + (j - 1)) == Spot(ridx + j)
  {
    ModSplit(ridx + 1, TWO_32);
    var q := (ridx + 1) / TWO_32;
    assert ridx + j == Wrap(ridx + 1) + (j - 1) + q * TWO_32;
    ModShift(Wrap(ridx + 1) + (j - 1), q, TWO_32);
    SpotOfWrap(Wrap(ridx + 1) + (j - 1));
    SpotOfWrap(ridx + j);
  }

  /** The call is its four accesses, when nothing comes between them. */
  lemma PushSteps(s: Ring, value: u64)
    requires |s.slots| == SLOTS && s.producer.Idle? && Minus32(s.widx, s.ridx) != SLOTS
    ensures Run(s, [BeginPush(value), CheckRoom, StoreSlot, Publish]) ==
            Some(s.(widx := Wrap(s.widx + 1), slots := s.slots[Spot(s.widx) := value], pushed := s.pushed + [value]))
  {
    var a := Apply(s, BeginPush(value));
    var b := Apply(a, CheckRoom);
    var c := Apply(b, StoreSlot);
    var d := Apply(c, Publish);
    var steps := [BeginPush(value), CheckRoom, StoreSlot, Publish];
    assert steps[1..] == [CheckRoom, StoreSlot, Publish] && steps[1..][1..] == [StoreSlot, Publish];
    assert Run(b, [StoreSlot, Publish]) == Run(c, [Publish]) by { assert [StoreSlot, Publish][1..] == [Publish]; }
    assert Run(c, [Publish]) == Some(d) by { assert [Publish][1..] == []; }
    assert Run(a, steps[1..]) == Run(b, [StoreSlot, Publish]);
  }
}
