/**
 The ledger of anchors: one per account and origin, ordered against what is
 recorded and against what a removal left behind. It refuses what goes backwards;
 that a generation is used once is up to who offers it.
 */
module Ledger {
  import opened Common

  datatype Key = Key(uid: nat, origin: string)

  /** How far an application has come: its generation, and the generation of the signed state if it is signed. */
  datatype Mark = Mark(generation: nat, signed: Option<nat>)

  /** Records, and the tombstones removals leave. */
  datatype Ledger = Ledger(records: map<Key, Mark>, tombstones: map<Key, Mark>)

  datatype Action =
    | Offer(key: Key, mark: Mark)
    | Forget(key: Key, unlinked: bool)  // the tombstone is written before the record is unlinked
    | Clear(key: Key)

  const EMPTY := Ledger(map[], map[])

  /** What was reached may be followed by what is offered: no lower generation, and no signature lost or older. */
  predicate OrdersAfter(reached: Mark, offered: Mark)
  {
    && offered.generation >= reached.generation
    && (reached.signed.Some? ==> offered.signed.Some? && offered.signed.value >= reached.signed.value)
  }

  predicate Admits(l: Ledger, key: Key, offered: Mark)
  {
    && (key in l.records ==> OrdersAfter(l.records[key], offered))
    && (key in l.tombstones ==> OrdersAfter(l.tombstones[key], offered))
  }

  function Higher(a: nat, b: nat): nat { if a > b then a else b }

  /** The higher of every half. */
  function RaisedBy(t: Mark, other: Mark): Mark
  {
    Mark(Higher(t.generation, other.generation),
         if t.signed.None? then other.signed
         else if other.signed.None? then t.signed
         else Some(Higher(t.signed.value, other.signed.value)))
  }

  /** The tombstone of a record: never lower than one already there. */
  function Entombed(l: Ledger, key: Key): Mark
    requires key in l.records
  {
    if key in l.tombstones then RaisedBy(l.records[key], l.tombstones[key]) else l.records[key]
  }

  function Act(l: Ledger, a: Action): Ledger
  {
    match a
    case Offer(key, mark) => if Admits(l, key, mark) then l.(records := l.records[key := mark]) else l
    case Forget(key, unlinked) =>
      var l' := if key in l.records then l.(tombstones := l.tombstones[key := Entombed(l, key)]) else l;
      if unlinked then l'.(records := l'.records - {key}) else l'
    case Clear(key) => l.(tombstones := l.tombstones - {key})
  }

  /** The highest generation already reached, wherever the ledger still has it: what an enrolment counts from. */
  function Floor(l: Ledger, key: Key): nat
  {
    Higher(if key in l.records then l.records[key].generation else 0,
           if key in l.tombstones then l.tombstones[key].generation else 0)
  }

  function Final(l: Ledger, run: seq<Action>): Ledger
  {
    if run == [] then l else Act(Final(l, run[..|run| - 1]), run[|run| - 1])
  }

  predicate Accepts(l: Ledger, a: Action, key: Key) { a.Offer? && a.key == key && Admits(l, key, a.mark) }

  /** What a run records for one key, in order. */
  function Recorded(l: Ledger, run: seq<Action>, key: Key): seq<Mark>
  {
    if run == [] then []
    else
      var rest, last := run[..|run| - 1], run[|run| - 1];
      Recorded(l, rest, key) + if Accepts(Final(l, rest), last, key) then [last.mark] else []
  }

  ghost predicate NeverCleared(run: seq<Action>, key: Key)
  {
    forall a | a in run :: a != Clear(key)
  }

  /** The ledger still remembers having come this far. */
  ghost predicate Remembers(l: Ledger, key: Key, mark: Mark)
  {
    || (key in l.records && OrdersAfter(mark, l.records[key]))
    || (key in l.tombstones && OrdersAfter(mark, l.tombstones[key]))
  }

  lemma ActRemembers(l: Ledger, a: Action, key: Key, mark: Mark)
    requires Remembers(l, key, mark) && a != Clear(key)
    ensures Remembers(Act(l, a), key, mark)
  {
  }

  /** Neither counter of a later mark is below that of an earlier one, and its signature is not lost. */
  ghost predicate NotBack(earlier: Mark, later: Mark)
  {
    && earlier.generation <= later.generation
    && match earlier.signed
       case None => true
       case Some(n) => later.signed.Some? && n <= later.signed.value
  }

  ghost predicate NeverBackwards(marks: seq<Mark>)
  {
    forall i, j | 0 <= i < j < |marks| :: NotBack(marks[i], marks[j])
  }

  lemma NeverBackwardsGrows(marks: seq<Mark>, m: Mark)
    requires NeverBackwards(marks) && forall x | x in marks :: NotBack(x, m)
    ensures NeverBackwards(marks + [m])
  {
  }

  /**
   Over every run of offers, removals and clearings, for any accounts and
   origins in any order: what is recorded for one of them never goes back, in
   neither counter, and a signature once recorded is never lost, as long as its
   own tombstone is not cleared.
   */
  lemma {:induction false} RecordsNeverGoBack(l: Ledger, run: seq<Action>, key: Key)
    requires NeverCleared(run, key)
    ensures NeverBackwards(Recorded(l, run, key))
    ensures forall m | m in Recorded(l, run, key) :: Remembers(Final(l, run), key, m)
  {
    if run != [] {
      var rest, last := run[..|run| - 1], run[|run| - 1];
      assert last in run && forall a | a in rest :: a in run;
      RecordsNeverGoBack(l, rest, key);
      forall m | m in Recorded(l, rest, key)
        ensures Remembers(Final(l, run), key, m)
        ensures Accepts(Final(l, rest), last, key) ==> NotBack(m, last.mark)
      {
        ActRemembers(Final(l, rest), last, key, m);
      }
      if Accepts(Final(l, rest), last, key) {
        NeverBackwardsGrows(Recorded(l, rest, key), last.mark);
      }
    }
  }

  // ---------- generations ----------

  /** Every offer that was accepted for the key was above the floor it met. */
  ghost predicate AlwaysAbove(l: Ledger, run: seq<Action>, key: Key)
  {
    run == [] ||
    (var rest, last := run[..|run| - 1], run[|run| - 1];
     && AlwaysAbove(l, rest, key)
     && (Accepts(Final(l, rest), last, key) ==> last.mark.generation > Floor(Final(l, rest), key)))
  }

  ghost predicate Increasing(marks: seq<Mark>)
  {
    && (marks != [] ==> marks[0].generation > 0)
    && forall i, j | 0 <= i < j < |marks| :: marks[i].generation < marks[j].generation
  }

  function Reached(marks: seq<Mark>): nat
  {
    if marks == [] then 0 else marks[|marks| - 1].generation
  }

  lemma FloorMoves(l: Ledger, a: Action, key: Key)
    requires a != Clear(key)
    ensures Floor(Act(l, a), key) == if Accepts(l, a, key) then a.mark.generation else Floor(l, key)
  {
  }

  lemma IncreasingGrows(marks: seq<Mark>, m: Mark)
    requires NeverBackwards(marks + [m])
    ensures Increasing(marks + [m]) <==> Increasing(marks) && m.generation > Reached(marks)
  {
    var longer := marks + [m];
    assert forall i | 0 <= i < |marks| :: longer[i] == marks[i];
    assert longer[|marks|] == m;
    if Increasing(longer) && marks != [] { assert longer[|marks| - 1].generation < longer[|marks|].generation; }
    if Increasing(longer) && marks == [] { assert longer[0] == m; }
  }

  /**
   From a ledger that knows nothing of the account and origin, through removals
   and reinstalls and whatever happens to others: the floor is the generation
   recorded last, and every generation is used once exactly when every accepted
   offer was above the floor it met.
   */
  lemma {:induction false} GenerationsIncrease(run: seq<Action>, key: Key)
    requires NeverCleared(run, key)
    ensures Floor(Final(EMPTY, run), key) == Reached(Recorded(EMPTY, run, key))
    ensures Increasing(Recorded(EMPTY, run, key)) <==> AlwaysAbove(EMPTY, run, key)
  {
    if run != [] {
      var rest, last := run[..|run| - 1], run[|run| - 1];
      assert last in run && forall a | a in rest :: a in run;
      GenerationsIncrease(rest, key);
      FloorMoves(Final(EMPTY, rest), last, key);
      RecordsNeverGoBack(EMPTY, run, key);
      if Accepts(Final(EMPTY, rest), last, key) {
        IncreasingGrows(Recorded(EMPTY, rest, key), last.mark);
      } else {
        assert Recorded(EMPTY, rest, key) + [] == Recorded(EMPTY, rest, key);
      }
    }
  }

  /** Two enrolments that read the same floor before either was recorded are both recorded, with one generation. */
  lemma {:induction false} SameFloorTwice(key: Key, generation: nat)
    ensures var mark := Mark(generation, None);
            Recorded(EMPTY, [Offer(key, mark), Offer(key, mark)], key) == [mark, mark]
  {
    var mark := Mark(generation, None);
    var a := Offer(key, mark);
    assert [a, a][..1] == [a] && [a][..0] == [];
    assert Final(EMPTY, [a]) == Act(EMPTY, a);
    assert Recorded(EMPTY, [a], key) == [mark];
  }

  /**
   An offer is admitted exactly when it is not below the floor, and neither loses
   nor goes back behind a signature that is recorded or was when it was removed.
   One above the floor is never refused for its generation.
   */
  lemma AdmittedFromFloor(l: Ledger, key: Key, generation: nat, signed: Option<nat>)
    ensures Admits(l, key, Mark(generation, signed)) <==>
            && generation >= Floor(l, key)
            && (key in l.records && l.records[key].signed.Some? ==>
                  signed.Some? && signed.value >= l.records[key].signed.value)
            && (key in l.tombstones && l.tombstones[key].signed.Some? ==>
                  signed.Some? && signed.value >= l.tombstones[key].signed.value)
  {
  }

  /**
   The order of the ledger admits an unsigned enrolment one above the floor exactly
   when neither a record nor a removal says that a publisher has answered for the
   application.
   */
  lemma UnsignedIsAdmitted(l: Ledger, key: Key)
    ensures Accepts(l, Offer(key, Mark(Floor(l, key) + 1, None)), key) <==>
            (key in l.records ==> l.records[key].signed.None?)
            && (key in l.tombstones ==> l.tombstones[key].signed.None?)
  {
  }
}
