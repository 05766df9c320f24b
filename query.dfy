/**
 The part of the ORM's query builder the controller uses for its existence
 checks: a chain of `where` conditions over the `tables` relation, finished by
 `exists()`. A pending query is the sequence of its conditions; running it
 keeps the rows that pass every condition, applied one after the other.
 */
module Query {
  import opened Ascii
  import opened TableModel

  /** One `where` of the chain. */
  datatype Condition =
    | LowerNameIs(param: string)   // whereRaw('LOWER(name) = ?', [param])
    | TablenumIs(tablenum: int)    // where('tablenum', tablenum)
    | IdIsNot(id: nat)             // where('id', '!=', id)

  predicate Holds(c: Condition, r: Row) {
    match c
    case LowerNameIs(param) => LowerStr(r.name) == param
    case TablenumIs(n) => r.tablenum == n
    case IdIsNot(id) => r.id != id
  }

  predicate HoldsAll(q: seq<Condition>, r: Row) {
    forall c :: c in q ==> Holds(c, r)
  }

  /** The rows that pass one condition, in their stored order. */
  function Where(rows: seq<Row>, c: Condition): (sel: seq<Row>)
    ensures |sel| <= |rows|
    ensures forall r :: r in sel <==> r in rows && Holds(c, r)
  {
    if rows == [] then []
    else (if Holds(c, rows[0]) then [rows[0]] else []) + Where(rows[1..], c)
  }

  /** The rows a chain of conditions selects, each condition narrowing the previous result. */
  function Get(rows: seq<Row>, q: seq<Condition>): (sel: seq<Row>)
    ensures |sel| <= |rows|
    ensures forall r :: r in sel <==> r in rows && HoldsAll(q, r)
    decreases q
  {
    if q == [] then rows else Get(Where(rows, q[0]), q[1..])
  }

  /** `exists()`: whether the query selects at least one row. */
  predicate Exists(rows: seq<Row>, q: seq<Condition>) {
    Get(rows, q) != []
  }

  /** `exists()` answers yes exactly when some stored row passes every condition. */
  lemma ExistsIff(rows: seq<Row>, q: seq<Condition>)
    ensures Exists(rows, q) <==> exists i :: 0 <= i < |rows| && HoldsAll(q, rows[i])
  {
    var sel := Get(rows, q);
    if sel != [] {
      assert sel[0] in sel;
      var i :| 0 <= i < |rows| && rows[i] == sel[0];
    }
    if i :| 0 <= i < |rows| && HoldsAll(q, rows[i]) {
      assert rows[i] in rows;
      assert rows[i] in sel;
    }
  }
}
