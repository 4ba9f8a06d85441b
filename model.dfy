/**
 * src/model.js: the web side's access to the `prices` table. A report names
 * a weekday and a half-day, which select one of the 13 slots of the user's
 * price vector; the slot is overwritten with `parseInt(price)`.
 */
module Model {
  import opened Wrappers
  import opened Store
  import JsText

  /** `dayMap`: Chinese and Arabic weekday numerals, Monday = 1 .. Saturday = 6. */
  const DayMap: map<string, int> := map[
    "一" := 1, "二" := 2, "三" := 3, "四" := 4, "五" := 5, "六" := 6,
    "1" := 1, "2" := 2, "3" := 3, "4" := 4, "5" := 5, "6" := 6]

  /** `timeMap`: morning and afternoon spellings, normalised to "a" and "p". */
  const TimeMap: map<string, string> := map[
    "上" := "a", "下" := "p", "a" := "a", "p" := "p", "A" := "a", "P" := "p"]

  const ZhDays: seq<string> := ["一", "二", "三", "四", "五", "六"]
  const DigitDays: seq<string> := ["1", "2", "3", "4", "5", "6"]

  lemma DayMapKeys()
    ensures forall d :: d in DayMap <==> d in ZhDays || d in DigitDays
    ensures forall i :: 0 <= i < 6 ==> DayMap[ZhDays[i]] == i + 1 && DayMap[DigitDays[i]] == i + 1
  {
  }

  /** `timeMap[ampm] === "a"`; an unknown spelling gives `undefined`, which is not "a". */
  predicate IsMorning(ampm: string) {
    ampm in TimeMap && TimeMap[ampm] == "a"
  }

  lemma TimeMapNormalises(ampm: string)
    ensures ampm in TimeMap <==> ampm in {"上", "下", "a", "p", "A", "P"}
    ensures IsMorning(ampm) <==> ampm in {"上", "a", "A"}
    ensures ampm in TimeMap && !IsMorning(ampm) ==> TimeMap[ampm] == "p"
  {
  }

  function DayNumber(day: string): (n: int)
    requires day in DayMap
    ensures 1 <= n <= 6
  {
    DayMap[day]
  }

  /**
   * The slot `updatePrice` writes. With both day and half-day given it is
   * `(dayMap[day] - 1) * 2 + (morning ? 1 : 2)`; a day that is not a key of
   * `dayMap` makes that NaN (`None`); without both it is slot 0, the buy price.
   */
  function SlotIndex(dayOfWeek: Option<string>, ampm: Option<string>): (index: Option<nat>)
    ensures dayOfWeek.None? || ampm.None? ==> index == Some(0)
    ensures dayOfWeek.Some? && ampm.Some? ==> (index.Some? <==> dayOfWeek.value in DayMap)
    ensures dayOfWeek.Some? && ampm.Some? && index.Some? ==>
      1 <= index.value <= 12 && (index.value % 2 == 1 <==> IsMorning(ampm.value))
    ensures index.Some? ==> index.value < SlotCount
  {
    if dayOfWeek.Some? && ampm.Some? then
      if dayOfWeek.value in DayMap then
        Some((DayNumber(dayOfWeek.value) - 1) * 2 + (if IsMorning(ampm.value) then 1 else 2))
      else None
    else Some(0)
  }

  /** The slot gives back the day and the half-day it was computed from. */
  lemma SlotIndexDecodes(day: string, ampm: string)
    requires day in DayMap
    ensures SlotIndex(Some(day), Some(ampm)).Some?
    ensures var i := SlotIndex(Some(day), Some(ampm)).value;
      DayMap[day] == (i + 1) / 2 && (IsMorning(ampm) <==> i % 2 == 1)
  {
  }

  /** Distinct (day, half-day) pairs never share a slot. */
  lemma SlotIndexInjective(d1: string, a1: string, d2: string, a2: string)
    requires d1 in DayMap && d2 in DayMap
    requires SlotIndex(Some(d1), Some(a1)) == SlotIndex(Some(d2), Some(a2))
    ensures DayMap[d1] == DayMap[d2]
    ensures IsMorning(a1) <==> IsMorning(a2)
  {
    SlotIndexDecodes(d1, a1);
    SlotIndexDecodes(d2, a2);
  }

  /** Every half-day slot 1..12 is named by some day and half-day. */
  lemma SlotIndexOnto(j: int)
    requires 1 <= j <= 12
    ensures exists d, a :: d in DayMap && SlotIndex(Some(d), Some(a)) == Some(j)
  {
    var k := (j - 1) / 2;
    assert 0 <= k < 6 && (j == 2 * k + 1 || j == 2 * k + 2);
    var d := DigitDays[k];
    var a := if j % 2 == 1 then "a" else "p";
    assert d in DayMap && DayMap[d] == k + 1 by { DayMapKeys(); }
    assert IsMorning(a) <==> j % 2 == 1;
    assert SlotIndex(Some(d), Some(a)) == Some(j);
  }

  /** `JSON.parse(JSON.stringify(parseInt(price)))`: NaN is stored as null. */
  function ParsedCell(price: string): (c: Cell)
    ensures c.Null? || c.Num?
  {
    match JsText.ParseInt(price)
    case Some(n) => Num(n)
    case None => Null
  }

  lemma ParsedCellOfNumeral(n: nat)
    ensures ParsedCell(JsText.DecimalString(n)) == Num(n)
  {
    JsText.ParseIntDecimalString(n);
  }

  /** The table after `updatePrice(userId, price, dayOfWeek, ampm)`. */
  function AfterUpdatePrice(t: Table, userId: string, price: string,
                            dayOfWeek: Option<string>, ampm: Option<string>): Table
    requires TableOk(t)
  {
    WriteValues(t, userId, SlotIndex(dayOfWeek, ampm), ParsedCell(price))
  }

  /**
   * The write half of `updatePrice`: when the user's first row has a
   * `values` key, slot `index` of that vector is set to `c` and the result
   * is stored on every row of the user; otherwise a row holding 13 zeros
   * but for `c` at `index` is inserted.
   */
  function WriteValues(t: Table, userId: string, index: Option<nat>, c: Cell): (r: Table)
    requires TableOk(t)
    requires index.Some? ==> index.value < SlotCount
    ensures TableOk(r)
    ensures r.Keys == t.Keys + {userId}
    ensures forall u :: u != userId ==> RowsOf(r, u) == RowsOf(t, u)
  {
    var rows := RowsOf(t, userId);
    if |rows| > 0 && rows[0].values.Some? then
      assert RowOk(rows[0]);
      t[userId := SetValues(rows, WriteSlot(rows[0].values.value, index, c))]
    else
      Insert(t, userId, Row(Some(WriteSlot(Zeros(), index, c)), None))
  }

  /** What `getPrices(userId)` resolves to; with no row it throws a TypeError. */
  function PricesOf(t: Table, userId: string): (r: Result<seq<Cell>, string>)
    ensures r.Failure? <==> RowsOf(t, userId) == []
    ensures TableOk(t) && r.Success? ==> |r.value| == SlotCount
  {
    var rows := RowsOf(t, userId);
    if |rows| == 0 then Failure("TypeError")
    else if rows[0].values.Some? then Success(rows[0].values.value)
    else Success(Zeros())
  }

  /** The vector an update starts from: the stored one, or 13 zeros for a new row. */
  function CurrentOrZeros(t: Table, userId: string): seq<Cell> {
    match PricesOf(t, userId)
    case Success(v) => v
    case Failure(_) => Zeros()
  }

  /** The table after `deletePrices(userId)`. */
  function AfterDelete(t: Table, userId: string): Table {
    t - {userId}
  }

  method UpdatePrice(db: PricesTable, userId: string, price: string,
                     dayOfWeek: Option<string>, ampm: Option<string>)
    requires db.Valid()
    modifies db
    ensures db.Valid()
    ensures db.rows == AfterUpdatePrice(old(db.rows), userId, price, dayOfWeek, ampm)
  {
    var index := SlotIndex(dayOfWeek, ampm);
    var rows := RowsOf(db.rows, userId);
    if |rows| > 0 && rows[0].values.Some? {
      // already exists: parse, write one slot, store back on every row of the user
      assert RowOk(rows[0]);
      var prices := ParseAndWrite(rows[0].values.value, index, ParsedCell(price));
      db.rows := db.rows[userId := SetValues(rows, prices)];
      assert db.rows == WriteValues(old(db.rows), userId, index, ParsedCell(price));
    } else {
      // no usable row: insert a fresh 13-slot vector
      var prices := ParseAndWrite(Zeros(), index, ParsedCell(price));
      db.rows := Insert(db.rows, userId, Row(Some(prices), None));
      assert db.rows == WriteValues(old(db.rows), userId, index, ParsedCell(price));
    }
  }

  method GetPrices(db: PricesTable, userId: string) returns (r: Result<seq<Cell>, string>)
    requires db.Valid()
    ensures r == PricesOf(db.rows, userId)
    ensures r.Success? <==> userId in db.rows
    ensures r.Success? ==> |r.value| == SlotCount
  {
    r := PricesOf(db.rows, userId);
  }

  method DeletePrices(db: PricesTable, userId: string)
    requires db.Valid()
    modifies db
    ensures db.Valid()
    ensures db.rows == AfterDelete(old(db.rows), userId)
  {
    db.rows := db.rows - {userId};
  }

  /**
   * Reading back after an update: slot `index` holds `parseInt(price)`,
   * every other slot is what it was (or 0 for a new user), and the vector
   * keeps its 13 slots.
   */
  lemma UpdateThenGet(t: Table, userId: string, price: string,
                      dayOfWeek: Option<string>, ampm: Option<string>)
    requires TableOk(t)
    requires userId !in t || t[userId][0].values.Some?
    ensures var after := PricesOf(AfterUpdatePrice(t, userId, price, dayOfWeek, ampm), userId);
      && after.Success?
      && |after.value| == SlotCount
      && forall j :: 0 <= j < SlotCount ==>
           after.value[j] == if SlotIndex(dayOfWeek, ampm) == Some(j) then ParsedCell(price)
                             else CurrentOrZeros(t, userId)[j]
  {
    if userId in t {
      assert RowOk(t[userId][0]);
    }
  }

  /**
   * When the user's first row has no `values` key (a row the chat bot
   * inserted), the update appends a new row after the user's rows, which
   * `getPrices` never reads: the reported price is invisible.
   */
  lemma UpdateHiddenBehindRowWithoutValues(t: Table, userId: string, price: string,
                                           dayOfWeek: Option<string>, ampm: Option<string>)
    requires TableOk(t)
    requires userId in t && t[userId][0].values.None?
    ensures var t' := AfterUpdatePrice(t, userId, price, dayOfWeek, ampm);
      && PricesOf(t', userId) == PricesOf(t, userId) == Success(Zeros())
      && |RowsOf(t', userId)| == |RowsOf(t, userId)| + 1
      && RowsOf(t', userId)[..|RowsOf(t, userId)|] == RowsOf(t, userId)
  {
  }

  /** Repeating the same report changes nothing more, once the user's first row has `values`. */
  lemma UpdateIdempotent(t: Table, userId: string, price: string,
                         dayOfWeek: Option<string>, ampm: Option<string>)
    requires TableOk(t)
    requires userId !in t || t[userId][0].values.Some?
    ensures TableOk(AfterUpdatePrice(t, userId, price, dayOfWeek, ampm))
    ensures var once := AfterUpdatePrice(t, userId, price, dayOfWeek, ampm);
      AfterUpdatePrice(once, userId, price, dayOfWeek, ampm) == once
  {
    if userId in t {
      WriteValuesTwiceExisting(t, userId, SlotIndex(dayOfWeek, ampm), ParsedCell(price));
    } else {
      WriteValuesTwiceNew(t, userId, SlotIndex(dayOfWeek, ampm), ParsedCell(price));
    }
  }

  lemma WriteValuesTwiceExisting(t: Table, userId: string, index: Option<nat>, c: Cell)
    requires TableOk(t)
    requires index.Some? ==> index.value < SlotCount
    requires userId in t && t[userId][0].values.Some?
    ensures var once := WriteValues(t, userId, index, c);
      TableOk(once) && WriteValues(once, userId, index, c) == once
  {
    var rs := t[userId];
    assert RowOk(rs[0]);
    var w := WriteSlot(rs[0].values.value, index, c);
    var once := t[userId := SetValues(rs, w)];
    assert TableOk(once) by {
      assert forall i :: 0 <= i < |rs| ==> RowOk(rs[i]);
    }
    WriteSlotTwice(rs[0].values.value, index, c);
    SetValuesTwice(rs, w);
    assert WriteValues(once, userId, index, c) == once[userId := SetValues(SetValues(rs, w), w)];
  }

  lemma WriteValuesTwiceNew(t: Table, userId: string, index: Option<nat>, c: Cell)
    requires TableOk(t)
    requires index.Some? ==> index.value < SlotCount
    requires userId !in t
    ensures var once := WriteValues(t, userId, index, c);
      TableOk(once) && WriteValues(once, userId, index, c) == once
  {
    var w := WriteSlot(Zeros(), index, c);
    var row := Row(Some(w), None);
    var once := t[userId := [row]];
    assert RowsOf(t, userId) + [row] == [row];
    assert WriteValues(t, userId, index, c) == once;
    WriteSlotTwice(Zeros(), index, c);
    assert SetValues([row], w) == [row];
    assert WriteValues(once, userId, index, c) == once[userId := [row]];
  }

  /** After `deletePrices`, `getPrices` throws for that user and answers as before for everyone else. */
  lemma DeleteThenGet(t: Table, userId: string, other: string)
    requires other != userId
    ensures PricesOf(AfterDelete(t, userId), userId).Failure?
    ensures PricesOf(AfterDelete(t, userId), other) == PricesOf(t, other)
    ensures TableOk(t) ==> TableOk(AfterDelete(t, userId))
  {
  }
}
