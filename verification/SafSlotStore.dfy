/** The Android record store: two slot documents written in turn, each with a checksum
    and a generation. A slot that was torn by a stop does not pass its checksum. */
module SafSlotStore {
  import opened Volumes

  datatype Which = A | B {
    function Other(): Which {
      if A? then B else A
    }
  }

  datatype Slot<+P> = Absent | Torn | Whole(generation: nat, payload: P)

  datatype Slots<+P> = Slots(a: Slot<P>, b: Slot<P>) {
    function Get(which: Which): Slot<P> {
      if which.A? then a else b
    }
  }

  function Put<P>(s: Slots<P>, which: Which, slot: Slot<P>): Slots<P> {
    if which.A? then s.(a := slot) else s.(b := slot)
  }

  datatype Loaded<+P> = Loaded(which: Which, payload: P, generation: nat)

  function Parse<P>(s: Slots<P>, which: Which): Option<Loaded<P>> {
    var slot := s.Get(which);
    if slot.Whole? && slot.generation >= 1 then Some(Loaded(which, slot.payload, slot.generation)) else None
  }

  /** The readable slot with the greatest generation. */
  function LoadOf<P>(s: Slots<P>): Option<Loaded<P>> {
    var a, b := Parse(s, A), Parse(s, B);
    if a.Some? && (b.None? || b.value.generation <= a.value.generation) then a else b
  }

  /** The slot the next record goes to: never the one that holds the current record. */
  function NextSlot<P>(current: Option<Loaded<P>>): Which {
    if current.Some? && current.value.which == A then B else A
  }

  function NextGeneration<P>(current: Option<Loaded<P>>): nat {
    if current.Some? then current.value.generation + 1 else 1
  }

  /** What is loaded is a record in one of the slots, and no record has a greater generation. */
  lemma LoadedIsGreatest<P>(s: Slots<P>)
    ensures LoadOf(s).None? <==>
              (s.a.Whole? ==> s.a.generation == 0) && (s.b.Whole? ==> s.b.generation == 0)
    ensures LoadOf(s).Some? ==>
              var loaded := LoadOf(s).value;
              && (if loaded.which == A then s.a else s.b) == Whole(loaded.generation, loaded.payload)
              && loaded.generation >= 1
              && (s.a.Whole? ==> s.a.generation <= loaded.generation)
              && (s.b.Whole? ==> s.b.generation <= loaded.generation)
  {
  }

  /** Two readable slots never carry the same generation. */
  predicate Distinct<P>(s: Slots<P>) {
    s.a.Whole? && s.b.Whole? ==> s.a.generation != s.b.generation
  }

  /** What a write of `payload` can leave: nothing done, a torn slot, or the new record. */
  function TornWrite<P>(s: Slots<P>): Slots<P> {
    Put(s, NextSlot(LoadOf(s)), Torn)
  }

  function WholeWrite<P>(s: Slots<P>, payload: P): Slots<P> {
    Put(s, NextSlot(LoadOf(s)), Whole(NextGeneration(LoadOf(s)), payload))
  }

  function NewRecord<P>(s: Slots<P>, payload: P): Loaded<P> {
    Loaded(NextSlot(LoadOf(s)), payload, NextGeneration(LoadOf(s)))
  }

  lemma TornWriteIsInvisible<P>(s: Slots<P>)
    requires Distinct(s)
    ensures Distinct(TornWrite(s)) && LoadOf(TornWrite(s)) == LoadOf(s)
  {
  }

  /** From then on the new record is loaded, one generation above the one before, which
      is still there. */
  lemma WholeWriteIsLoaded<P>(s: Slots<P>, payload: P)
    requires Distinct(s)
    ensures Distinct(WholeWrite(s, payload)) && LoadOf(WholeWrite(s, payload)) == Some(NewRecord(s, payload))
    ensures LoadOf(s).Some? ==> WholeWrite(s, payload).Get(LoadOf(s).value.which) == s.Get(LoadOf(s).value.which)
    ensures var t := LoadOf(WholeWrite(s, payload));
            && t.Some? && t.value.payload == payload
            && (LoadOf(s).None? ==> t.value.which == A && t.value.generation == 1)
            && (LoadOf(s).Some? ==>
                  t.value.which != LoadOf(s).value.which && t.value.generation == LoadOf(s).value.generation + 1)
  {
  }

  /** One durable moment after another: a write tears its slot first and then fills it. */
  ghost predicate WriteStep<P(!new)>(s: Slots<P>, t: Slots<P>) {
    t == TornWrite(s) || exists payload :: t == WholeWrite(s, payload)
  }

  class SlotStore<P(==, !new)> {
    var slots: Slots<P>

    /** Whether a document write can fail or be cut short. */
    const fails: bool

    /** Every state of the two slots that has been durable, the present one last. */
    ghost var trail: seq<Slots<P>>

    ghost predicate Valid()
      reads this
    {
      trail != [] && trail[|trail| - 1] == slots && Distinct(slots)
    }

    constructor (fails: bool)
      ensures Valid() && slots == Slots(Absent, Absent) && this.fails == fails
    {
      slots, this.fails := Slots(Absent, Absent), fails;
      trail := [slots];
    }

    function Load(): Option<Loaded<P>>
      reads this
    {
      LoadOf(slots)
    }

    /** Creating or truncating the document comes first, so a cut leaves a torn slot. */
    method Write(which: Which, slot: Slot<P>) returns (ok: bool)
      requires Valid() && which == NextSlot(Load())
      requires slot.Whole? && slot.generation == NextGeneration(Load())
      modifies this
      ensures Valid() && |old(trail)| <= |trail| && trail[..|old(trail)|] == old(trail)
      ensures forall i | |old(trail)| <= i < |trail| :: WriteStep(trail[i - 1], trail[i])
      ensures forall i | |old(trail)| <= i < |trail| ::
                trail[i] in {TornWrite(old(slots)), WholeWrite(old(slots), slot.payload)}
      ensures slots in {old(slots), TornWrite(old(slots)), WholeWrite(old(slots), slot.payload)}
      ensures ok ==> slots == WholeWrite(old(slots), slot.payload)
      ensures !fails ==> ok
    {
      ok := true;
      if fails {
        ok := *;
        if !ok {
          return;
        }
      }
      TornWriteIsInvisible(slots);
      WholeWriteIsLoaded(slots, slot.payload);
      slots := Put(slots, which, Torn);
      trail := trail + [slots];
      if fails {
        ok := *;
        if !ok {
          return;
        }
      }
      slots := Put(slots, which, slot);
      trail := trail + [slots];
      assert trail[|trail| - 1] == WholeWrite(trail[|trail| - 2], slot.payload);
      if fails {
        ok := *;
      }
    }

    /** Persist is atomic against a stop at any point: what can be loaded is the old record
        or the new one at every durable moment. A `previous` that is not the current
        record is refused with neither slot touched. */
    method Persist(payload: P, previous: Option<Loaded<P>>) returns (result: Option<Loaded<P>>)
      requires Valid()
      modifies this
      ensures Valid() && |old(trail)| <= |trail| && trail[..|old(trail)|] == old(trail)
      ensures forall i | |old(trail)| <= i < |trail| :: WriteStep(trail[i - 1], trail[i])
      ensures forall i | |old(trail)| <= i < |trail| ::
                Distinct(trail[i]) && LoadOf(trail[i]) in {old(Load()), Some(NewRecord(old(slots), payload))}
      ensures result.Some? ==>
                result == Load() == Some(NewRecord(old(slots), payload)) && Current(previous, old(Load()))
      ensures result.Some? ==>
                && result.value.payload == payload
                && (old(Load()).None? ==>
                      previous.None? && slots == old(slots).(a := Whole(1, payload)))
                && (old(Load()).Some? ==>
                      var before := old(Load()).value;
                      && previous.Some? && previous.value.which == before.which
                      && previous.value.generation == before.generation
                      && slots == if before.which == A
                                  then old(slots).(b := Whole(before.generation + 1, payload))
                                  else old(slots).(a := Whole(before.generation + 1, payload)))
      ensures (&& !fails && previous.Some? == old(Load()).Some?
               && (previous.Some? ==> && previous.value.which == old(Load()).value.which
                                      && previous.value.generation == old(Load()).value.generation)) ==>
                result.Some?
      ensures result.None? ==> Load() in {old(Load()), Some(NewRecord(old(slots), payload))}
      ensures !Current(previous, old(Load())) ==> result.None? && slots == old(slots) && trail == old(trail)
      ensures !fails ==> (result.Some? <==> Current(previous, old(Load())))
      ensures old(Load()).Some? ==> slots.Get(old(Load()).value.which) == old(slots).Get(old(Load()).value.which)
    {
      var current := Load();
      if previous.Some? && (current.None? || current.value.which != previous.value.which
                            || current.value.generation != previous.value.generation) {
        return None;
      }
      if previous.None? && current.Some? {
        return None;
      }
      var generation := (if previous.Some? then previous.value.generation else 0) + 1;
      var next := if previous.Some? && previous.value.which == A then B else A;
      TornWriteIsInvisible(slots);
      WholeWriteIsLoaded(slots, payload);
      var ok := Write(next, Whole(generation, payload));
      if !ok {
        return None;
      }
      result := Parse(slots, next);
    }
  }

  /** `previous` names the record that is current. */
  predicate Current<P>(previous: Option<Loaded<P>>, current: Option<Loaded<P>>) {
    match previous
    case None => current.None?
    case Some(p) => current.Some? && current.value.which == p.which && current.value.generation == p.generation
  }

  // ---------------------------------------------------------------- whole histories

  /** Records of odd generations are in `a`, those of even ones in `b`. */
  predicate InTurn<P>(s: Slots<P>) {
    (s.a.Whole? ==> s.a.generation % 2 == 1) && (s.b.Whole? ==> s.b.generation % 2 == 0)
  }

  lemma {:induction false} HistoryTakesTurns<P(!new)>(history: seq<Slots<P>>, i: nat)
    requires i < |history| && history[0] == Slots(Absent, Absent)
    requires forall k | 0 <= k < i :: WriteStep(history[k], history[k + 1])
    ensures InTurn(history[i])
  {
    if i > 0 {
      HistoryTakesTurns(history, i - 1);
      assert WriteStep(history[i - 1], history[i - 1 + 1]);
    }
  }

  /** Once there is a record, there always is one; it is never replaced by an older one,
      and never by another of the same generation. */
  lemma {:induction false} HistoryMovesForward<P(!new)>(history: seq<Slots<P>>, i: nat, j: nat)
    requires i <= j < |history| && Distinct(history[i])
    requires forall k | i <= k < j :: WriteStep(history[k], history[k + 1])
    ensures Distinct(history[j])
    ensures LoadOf(history[i]).Some? ==>
              && LoadOf(history[j]).Some?
              && LoadOf(history[i]).value.generation <= LoadOf(history[j]).value.generation
              && (LoadOf(history[i]).value.generation == LoadOf(history[j]).value.generation ==>
                    LoadOf(history[i]) == LoadOf(history[j]))
  {
    if i < j {
      HistoryMovesForward(history, i, j - 1);
      var s, t := history[j - 1], history[j - 1 + 1];
      assert WriteStep(s, t);
      if t != TornWrite(s) {
        var payload :| t == WholeWrite(s, payload);
        WholeWriteIsLoaded(s, payload);
      } else {
        TornWriteIsInvisible(s);
      }
    }
  }
}
