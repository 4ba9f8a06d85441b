/**
 * The `prices` table that src/model.js and src/server.js share.
 *
 * The table has no uniqueness constraint on `user_id`, so a user may own
 * several rows; they are kept in insertion order, and `.first()` is the
 * first of them. Each stored column holds a JSON array, kept here as the
 * value that `JSON.parse` gives back. The web model writes the `values`
 * column, the chat bot a `prices` column; both are kept apart so that the
 * two writers do not see each other's data, as in the code.
 */
module Store {
  import opened Wrappers

  /** An element of a stored JSON price vector. */
  datatype Cell = Null | Num(n: int) | Text(s: string)

  /** One row; a column is `None` when the row object has no such key. */
  datatype Row = Row(values: Option<seq<Cell>>, prices: Option<seq<Cell>>)

  /** User id to that user's rows, oldest first. */
  type Table = map<string, seq<Row>>

  /** Slot 0 is the buy price; slots 1..12 are Monday morning .. Saturday afternoon. */
  const SlotCount: nat := 13

  /** `new Array(13).fill(0)`. */
  function Zeros(): (z: seq<Cell>)
    ensures |z| == SlotCount
    ensures forall i :: 0 <= i < |z| ==> z[i] == Num(0)
  {
    seq(SlotCount, _ => Num(0))
  }

  predicate VectorOk(v: Option<seq<Cell>>) {
    v.Some? ==> |v.value| == SlotCount
  }

  predicate RowOk(r: Row) {
    VectorOk(r.values) && VectorOk(r.prices)
  }

  predicate RowsOk(rs: seq<Row>) {
    |rs| > 0 && forall i :: 0 <= i < |rs| ==> RowOk(rs[i])
  }

  /** Every user present has a row, and every stored vector has 13 slots. */
  predicate TableOk(t: Table) {
    forall u :: u in t ==> RowsOk(t[u])
  }

  /** `knex("prices").where("user_id", u)`: the user's rows, none if absent. */
  function RowsOf(t: Table, u: string): seq<Row> {
    if u in t then t[u] else []
  }

  /** `insert`: appends one row for `u`; nobody else's rows change. */
  function Insert(t: Table, u: string, row: Row): (t': Table)
    ensures RowsOf(t', u) == RowsOf(t, u) + [row]
    ensures forall v :: v != u ==> RowsOf(t', v) == RowsOf(t, v)
    ensures t'.Keys == t.Keys + {u}
  {
    t[u := RowsOf(t, u) + [row]]
  }

  /** `update({ values: v })` on all of a user's rows. */
  function SetValues(rs: seq<Row>, v: seq<Cell>): (rs': seq<Row>)
    ensures |rs'| == |rs|
    ensures forall i :: 0 <= i < |rs| ==> rs'[i] == rs[i].(values := Some(v))
  {
    seq(|rs|, i requires 0 <= i < |rs| => rs[i].(values := Some(v)))
  }

  /** `update({ prices: v })` on all of a user's rows. */
  function SetPrices(rs: seq<Row>, v: seq<Cell>): (rs': seq<Row>)
    ensures |rs'| == |rs|
    ensures forall i :: 0 <= i < |rs| ==> rs'[i] == rs[i].(prices := Some(v))
  {
    seq(|rs|, i requires 0 <= i < |rs| => rs[i].(prices := Some(v)))
  }

  /** `prices[index] = c` on a 13-slot vector; an index of NaN (`None`) adds no element. */
  function WriteSlot(v: seq<Cell>, index: Option<nat>, c: Cell): (w: seq<Cell>)
    requires index.Some? ==> index.value < |v|
    ensures |w| == |v|
    ensures forall j :: 0 <= j < |v| ==> w[j] == if index == Some(j) then c else v[j]
  {
    if index.Some? then v[index.value := c] else v
  }

  /** Writing the same cell into the same slot twice is writing it once. */
  lemma WriteSlotTwice(v: seq<Cell>, index: Option<nat>, c: Cell)
    requires index.Some? ==> index.value < |v|
    ensures WriteSlot(WriteSlot(v, index, c), index, c) == WriteSlot(v, index, c)
  {
  }

  /** Storing the same vector on every row twice is storing it once. */
  lemma SetValuesTwice(rs: seq<Row>, v: seq<Cell>)
    ensures SetValues(SetValues(rs, v), v) == SetValues(rs, v)
  {
  }

  /**
   * `JSON.parse` of a stored vector, `prices[index] = c` on the fresh array,
   * and the array read back for `JSON.stringify`.
   */
  method ParseAndWrite(stored: seq<Cell>, index: Option<nat>, c: Cell) returns (w: seq<Cell>)
    requires index.Some? ==> index.value < |stored|
    ensures w == WriteSlot(stored, index, c)
  {
    var prices := new Cell[|stored|](i requires 0 <= i < |stored| => stored[i]);
    if index.Some? {
      prices[index.value] := c;
    }
    w := prices[..];
  }

  /** The database connection, as the state both modules read and write. */
  class PricesTable {
    var rows: Table

    predicate Valid()
      reads this
    {
      TableOk(rows)
    }

    constructor ()
      ensures Valid() && rows == map[]
    {
      rows := map[];
    }
  }
}
