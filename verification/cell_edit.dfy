/**
 Editing one cell of the order calendar: the quantity of one menu on one date.
 The edit maps over the day list; a day whose date text equals the target gets
 a copy of its quantities with that one menu overwritten, and every other day is
 passed through as it is.
 */
module CellEdit {
  import opened Wrappers
  import opened CivilDate
  import opened OrderCalendar

  /** Largest quantity the selector offers. */
  const MaxQuantity: nat := 10

  /** The quantity selector's options, 0 through 10 in order. */
  function QuantityOptions(): (r: seq<nat>)
    ensures |r| == MaxQuantity + 1
    ensures forall i :: 0 <= i < |r| ==> r[i] == i
  {
    seq(MaxQuantity + 1, i requires 0 <= i => i as nat)
  }

  /** A quantity is offered by the selector exactly when it lies in 0..10. */
  lemma SelectorOffersZeroToTen(q: nat)
    ensures q in QuantityOptions() <==> q <= MaxQuantity
  {
    var r := QuantityOptions();
    if q <= MaxQuantity {
      assert r[q] == q;
    }
  }

  /** Every quantity of the day is one the selector offers. */
  predicate InSelectorRange(day: Day) {
    forall m :: m in day.quantities ==> day.quantities[m] <= MaxQuantity
  }

  /** Every key of `m1` other than `key` is in `m2` with the same value. */
  predicate SameExcept(m1: map<string, nat>, m2: map<string, nat>, key: string) {
    forall k :: k in m1 && k != key ==> k in m2 && m2[k] == m1[k]
  }

  /** One day as the edit leaves it. */
  function EditDay(day: Day, date: string, menu: string, q: nat): Day {
    if day.date == date then day.(quantities := day.quantities[menu := q]) else day
  }

  /**
   Sets the quantity of `menu` to `q` on every day whose date text is `date`.
   The list keeps its length, order and dates; a day with another date is
   returned unchanged; on a matching day `menu` maps to `q` (the key is added
   if it was missing) and every other menu keeps its quantity.
   */
  function UpdateCell(days: seq<Day>, date: string, menu: string, q: nat): (r: seq<Day>)
    ensures |r| == |days|
    ensures forall i :: 0 <= i < |days| ==> r[i].date == days[i].date
    ensures forall i :: 0 <= i < |days| && days[i].date != date ==> r[i] == days[i]
    ensures forall i :: 0 <= i < |days| && days[i].date == date ==>
              && menu in r[i].quantities
              && r[i].quantities[menu] == q
              && r[i].quantities.Keys == days[i].quantities.Keys + {menu}
              && SameExcept(days[i].quantities, r[i].quantities, menu)
  {
    if days == [] then []
    else [EditDay(days[0], date, menu, q)] + UpdateCell(days[1..], date, menu, q)
  }

  /** No day before index `k` is dated `date`. */
  predicate FirstDated(days: seq<Day>, date: string, k: int)
    requires 0 <= k <= |days|
  {
    forall j :: 0 <= j < k ==> days[j].date != date
  }

  /**
   The quantity of `menu` on the first day dated `date`, if there is one: the
   first day with the date decides, and a missing menu reads as nothing.
   */
  function Lookup(days: seq<Day>, date: string, menu: string): (r: Option<nat>)
    ensures (forall i :: 0 <= i < |days| ==> days[i].date != date) ==> r == None
    ensures r.Some? ==> exists i :: 0 <= i < |days| && days[i].date == date
                                 && menu in days[i].quantities && days[i].quantities[menu] == r.value
    ensures forall k :: 0 <= k < |days| && days[k].date == date && FirstDated(days, date, k) ==>
              r == (if menu in days[k].quantities then Some(days[k].quantities[menu]) else None)
  {
    if days == [] then None
    else if days[0].date == date then
      (if menu in days[0].quantities then Some(days[0].quantities[menu]) else None)
    else Lookup(days[1..], date, menu)
  }

  /** Editing a date that is not in the list gives back the same list. */
  lemma UpdateAbsentDate(days: seq<Day>, date: string, menu: string, q: nat)
    requires forall i :: 0 <= i < |days| ==> days[i].date != date
    ensures UpdateCell(days, date, menu, q) == days
  {
  }

  /** Of two edits of the same cell the second wins. */
  lemma {:induction false} LastWriteWins(days: seq<Day>, date: string, menu: string, q1: nat, q2: nat)
    ensures UpdateCell(UpdateCell(days, date, menu, q1), date, menu, q2) == UpdateCell(days, date, menu, q2)
  {
    if days != [] {
      var d := days[0];
      LastWriteWins(days[1..], date, menu, q1, q2);
      assert UpdateCell(days, date, menu, q1)[1..] == UpdateCell(days[1..], date, menu, q1);
      assert d.quantities[menu := q1][menu := q2] == d.quantities[menu := q2];
      assert EditDay(EditDay(d, date, menu, q1), date, menu, q2) == EditDay(d, date, menu, q2);
    }
  }

  /** Repeating an edit changes nothing. */
  lemma UpdateIdempotent(days: seq<Day>, date: string, menu: string, q: nat)
    ensures UpdateCell(UpdateCell(days, date, menu, q), date, menu, q) == UpdateCell(days, date, menu, q)
  {
    LastWriteWins(days, date, menu, q, q);
  }

  /** Edits of two different cells can be applied in either order. */
  lemma {:induction false} UpdatesCommute(days: seq<Day>, d1: string, m1: string, q1: nat,
                                          d2: string, m2: string, q2: nat)
    requires d1 != d2 || m1 != m2
    ensures UpdateCell(UpdateCell(days, d1, m1, q1), d2, m2, q2)
         == UpdateCell(UpdateCell(days, d2, m2, q2), d1, m1, q1)
  {
    if days != [] {
      var d := days[0];
      UpdatesCommute(days[1..], d1, m1, q1, d2, m2, q2);
      if m1 != m2 {
        assert d.quantities[m1 := q1][m2 := q2] == d.quantities[m2 := q2][m1 := q1];
      }
      assert EditDay(EditDay(d, d1, m1, q1), d2, m2, q2) == EditDay(EditDay(d, d2, m2, q2), d1, m1, q1);
      assert UpdateCell(days, d1, m1, q1)[1..] == UpdateCell(days[1..], d1, m1, q1);
      assert UpdateCell(days, d2, m2, q2)[1..] == UpdateCell(days[1..], d2, m2, q2);
    }
  }

  /** After an edit, reading the edited cell gives the new quantity. */
  lemma {:induction false} ReadAfterWrite(days: seq<Day>, date: string, menu: string, q: nat)
    requires exists i :: 0 <= i < |days| && days[i].date == date
    ensures Lookup(UpdateCell(days, date, menu, q), date, menu) == Some(q)
  {
    if days[0].date != date {
      var i :| 0 <= i < |days| && days[i].date == date;
      assert days[1..][i - 1].date == date;
      ReadAfterWrite(days[1..], date, menu, q);
      assert UpdateCell(days, date, menu, q)[1..] == UpdateCell(days[1..], date, menu, q);
    }
  }

  /** An edit leaves every other cell reading as before. */
  lemma {:induction false} ReadOtherCell(days: seq<Day>, date: string, menu: string, q: nat,
                                         date': string, menu': string)
    requires date' != date || menu' != menu
    ensures Lookup(UpdateCell(days, date, menu, q), date', menu') == Lookup(days, date', menu')
  {
    if days != [] {
      ReadOtherCell(days[1..], date, menu, q, date', menu');
      assert UpdateCell(days, date, menu, q)[1..] == UpdateCell(days[1..], date, menu, q);
    }
  }

  /**
   An edited day still holds one quantity per catalog menu exactly when the
   edited menu belongs to the catalog; other menus would be added as new keys.
   */
  lemma UpdateCatalogKeys(days: seq<Day>, date: string, menu: string, q: nat)
    requires forall i :: 0 <= i < |days| ==> HasCatalogKeys(days[i])
    ensures menu in Menus ==>
              forall i :: 0 <= i < |days| ==> HasCatalogKeys(UpdateCell(days, date, menu, q)[i])
    ensures menu !in Menus ==>
              forall i :: 0 <= i < |days| && days[i].date == date ==>
                !HasCatalogKeys(UpdateCell(days, date, menu, q)[i])
  {
  }

  /** Quantities drawn from the selector keep every cell within 0..10. */
  lemma UpdateStaysInRange(days: seq<Day>, date: string, menu: string, q: nat)
    requires forall i :: 0 <= i < |days| ==> InSelectorRange(days[i])
    requires q in QuantityOptions()
    ensures forall i :: 0 <= i < |days| ==> InSelectorRange(UpdateCell(days, date, menu, q)[i])
  {
  }

  /**
   On a horizon, whose dates are distinct, editing the date of day `k` changes
   day `k` alone, and the result is still a horizon from the same day.
   */
  lemma UpdateHorizonDay(days: seq<Day>, today: Date, k: int, menu: string, q: nat)
    requires DatesFrom(days, today)
    requires 0 <= k < |days|
    ensures DatesFrom(UpdateCell(days, days[k].date, menu, q), today)
    ensures forall i :: 0 <= i < |days| && i != k ==> UpdateCell(days, days[k].date, menu, q)[i] == days[i]
  {
    HorizonDistinctDates(days, today);
  }
}
