/**
 The table registry of the API's `TablesController`: creating, renaming and
 deleting restaurant tables, guarded by existence queries that keep table
 names and numbers from colliding.

 The persisted `tables` relation is the field `rows` of the class below, and
 `nextId` is the relation's auto-increment counter. Each guard is a read-only
 method that runs the same `where ... exists()` query as the controller and
 answers with the field the error is keyed by; the mutating methods either
 answer with that error and leave the rows as they were, or change the rows.
 */
module TablesApi {
  import opened Ascii
  import opened TableModel
  import opened Query

  /** The request field a uniqueness error is reported under (the key of `errors`). */
  datatype Field = NameField | TablenumField

  /** What a uniqueness guard decides. */
  datatype Verdict = Accept | Reject(field: Field)

  /** What `store` and `update` answer: the saved row, or a 422 keyed by a field. */
  datatype Response = Saved(table: Row) | Rejected(field: Field) {
    /** The guard verdict this answer carries. */
    function Outcome(): Verdict {
      match this
      case Saved(_) => Accept
      case Rejected(f) => Reject(f)
    }
  }

  // ---------------------------------------------------------------------------
  // Rows and ids

  predicate IdsUnique(rows: seq<Row>) {
    forall i, j :: 0 <= i < j < |rows| ==> rows[i].id != rows[j].id
  }

  predicate HasId(rows: seq<Row>, id: nat) {
    exists i :: 0 <= i < |rows| && rows[i].id == id
  }

  /** Where the row with a given id sits: the lookup that binds `Table $table` to a route id. */
  function IndexOf(rows: seq<Row>, id: nat): (k: nat)
    requires HasId(rows, id)
    ensures k < |rows| && rows[k].id == id
    ensures forall j :: 0 <= j < k ==> rows[j].id != id
  {
    if rows[0].id == id then 0
    else
      var i :| 0 <= i < |rows| && rows[i].id == id;
      assert rows[1..][i - 1].id == id;
      1 + IndexOf(rows[1..], id)
  }

  /** The rows with the one at index `k` deleted, the others kept in order. */
  function Removed(rows: seq<Row>, k: nat): (r: seq<Row>)
    requires k < |rows|
    ensures |r| == |rows| - 1
    ensures forall i :: 0 <= i < k ==> r[i] == rows[i]
    ensures forall i :: k <= i < |r| ==> r[i] == rows[i + 1]
  {
    rows[..k] + rows[k + 1..]
  }

  // ---------------------------------------------------------------------------
  // The existence checks, stated over the rows

  /**
   The create check as written: some row's lower-cased name equals the
   submitted name exactly as given, and its number equals the submitted number.
   */
  predicate CreateConflict(rows: seq<Row>, name: string, tablenum: int) {
    exists i :: 0 <= i < |rows| && LowerStr(rows[i].name) == name && rows[i].tablenum == tablenum
  }

  /** Some row already has this name up to case and this number: the composite key collision. */
  predicate CaseInsensitiveDuplicate(rows: seq<Row>, name: string, tablenum: int) {
    exists i :: 0 <= i < |rows| && LowerStr(rows[i].name) == LowerStr(name) && rows[i].tablenum == tablenum
  }

  /** The submitted name differs from the stored one other than by case. */
  predicate NameChanged(cur: Row, name: string) {
    LowerStr(name) != LowerStr(cur.name)
  }

  predicate TablenumChanged(cur: Row, tablenum: int) {
    tablenum != cur.tablenum
  }

  /** A row other than the one with `id` has this name up to case, whatever its number. */
  predicate NameTakenByOther(rows: seq<Row>, id: nat, name: string) {
    exists i :: 0 <= i < |rows| && rows[i].id != id && LowerStr(rows[i].name) == LowerStr(name)
  }

  /** A row other than the one with `id` has this number, whatever its name. */
  predicate TablenumTakenByOther(rows: seq<Row>, id: nat, tablenum: int) {
    exists i :: 0 <= i < |rows| && rows[i].id != id && rows[i].tablenum == tablenum
  }

  /** Both update checks pass: each field is either unchanged or free among the other rows. */
  predicate UpdateAllowed(rows: seq<Row>, cur: Row, name: string, tablenum: int) {
    && (NameChanged(cur, name) ==> !NameTakenByOther(rows, cur.id, name))
    && (TablenumChanged(cur, tablenum) ==> !TablenumTakenByOther(rows, cur.id, tablenum))
  }

  /**
   The verdict of the update checks on the stored row `cur`, in their order:
   `name` when the name changed other than by case and another row has it;
   otherwise `tablenum` when the number changed and another row has it;
   otherwise acceptance.
   */
  predicate UpdateVerdict(rows: seq<Row>, cur: Row, name: string, tablenum: int, v: Verdict) {
    && (v == Reject(NameField)
        <==> NameChanged(cur, name) && NameTakenByOther(rows, cur.id, name))
    && (v == Reject(TablenumField)
        <==> !(NameChanged(cur, name) && NameTakenByOther(rows, cur.id, name))
             && TablenumChanged(cur, tablenum) && TablenumTakenByOther(rows, cur.id, tablenum))
    && (v == Accept <==> UpdateAllowed(rows, cur, name, tablenum))
  }

  /** `$table->update($validated)`: the validated name and number over the stored row. */
  function Updated(cur: Row, name: string, tablenum: int): (r: Row)
    ensures r.id == cur.id && r.state == cur.state
    ensures r.name == name && r.tablenum == tablenum
  {
    cur.(name := name, tablenum := tablenum)
  }

  // ---------------------------------------------------------------------------
  // Uniqueness properties of the stored rows

  /** No two rows share a name up to case together with a number. */
  predicate CompositeUnique(rows: seq<Row>) {
    forall i, j :: 0 <= i < j < |rows| ==>
      !(LowerStr(rows[i].name) == LowerStr(rows[j].name) && rows[i].tablenum == rows[j].tablenum)
  }

  /** No two rows share a name up to case. */
  predicate NamesUnique(rows: seq<Row>) {
    forall i, j :: 0 <= i < j < |rows| ==> LowerStr(rows[i].name) != LowerStr(rows[j].name)
  }

  /** No two rows share a number. */
  predicate TablenumsUnique(rows: seq<Row>) {
    forall i, j :: 0 <= i < j < |rows| ==> rows[i].tablenum != rows[j].tablenum
  }

  // ---------------------------------------------------------------------------
  // The create check

  /**
   The create check fires exactly when the submitted name is already lower-case
   and some row matches it up to case with the same number: it is
   case-insensitive only for lower-case input.
   */
  lemma CreateConflictIff(rows: seq<Row>, name: string, tablenum: int)
    ensures CreateConflict(rows, name, tablenum)
        <==> IsLowercase(name) && CaseInsensitiveDuplicate(rows, name, tablenum)
  {
  }

  /** A submitted name with an upper-case letter never trips the create check. */
  lemma UppercaseNameNeverConflicts(rows: seq<Row>, name: string, tablenum: int)
    requires exists i :: 0 <= i < |name| && IsUpper(name[i])
    ensures !CreateConflict(rows, name, tablenum)
  {
  }

  /**
   So the check admits a second "Mesa 1" with number 1 beside the first one,
   leaving two rows with the same name and number.
   */
  lemma ExactDuplicateAdmitted()
    ensures var rows := [Row(1, "Mesa 1", 1, true)];
      && !CreateConflict(rows, "Mesa 1", 1)
      && !CompositeUnique(rows + [Row(2, "Mesa 1", 1, true)])
  {
    var rows := [Row(1, "Mesa 1", 1, true)];
    assert IsUpper("Mesa 1"[0]);
    UppercaseNameNeverConflicts(rows, "Mesa 1", 1);
    var after := rows + [Row(2, "Mesa 1", 1, true)];
    assert LowerStr(after[0].name) == LowerStr(after[1].name);
  }

  /** For a lower-case name, a row the check accepts keeps the composite key unique. */
  lemma AcceptedCreateKeepsCompositeUnique(rows: seq<Row>, id: nat, name: string, tablenum: int, state: bool)
    requires CompositeUnique(rows)
    requires IsLowercase(name)
    requires !CreateConflict(rows, name, tablenum)
    ensures CompositeUnique(rows + [Row(id, name, tablenum, state)])
  {
  }

  // ---------------------------------------------------------------------------
  // The update checks

  /**
   The row being updated never counts against itself: with unique ids the
   name check looks at exactly the rows at other positions.
   */
  lemma NameCheckExcludesSelf(rows: seq<Row>, k: nat, name: string)
    requires IdsUnique(rows) && k < |rows|
    ensures NameTakenByOther(rows, rows[k].id, name)
        <==> exists j :: 0 <= j < |rows| && j != k && LowerStr(rows[j].name) == LowerStr(name)
  {
  }

  /** Likewise for the number check. */
  lemma TablenumCheckExcludesSelf(rows: seq<Row>, k: nat, tablenum: int)
    requires IdsUnique(rows) && k < |rows|
    ensures TablenumTakenByOther(rows, rows[k].id, tablenum)
        <==> exists j :: 0 <= j < |rows| && j != k && rows[j].tablenum == tablenum
  {
  }

  /**
   An update the checks allow keeps the name-up-to-case plus number pair
   unique: the pair the create check guards.
   */
  lemma AllowedUpdateKeepsCompositeUnique(rows: seq<Row>, k: nat, name: string, tablenum: int)
    requires IdsUnique(rows) && k < |rows| && CompositeUnique(rows)
    requires UpdateAllowed(rows, rows[k], name, tablenum)
    ensures CompositeUnique(rows[k := Updated(rows[k], name, tablenum)])
  {
    var after := rows[k := Updated(rows[k], name, tablenum)];
    NameCheckExcludesSelf(rows, k, name);
    TablenumCheckExcludesSelf(rows, k, tablenum);
    forall i, j | 0 <= i < j < |after|
      ensures !(LowerStr(after[i].name) == LowerStr(after[j].name) && after[i].tablenum == after[j].tablenum)
    {
      if i == k {
        assert after[j] == rows[j];
      } else if j == k {
        assert after[i] == rows[i];
      }
    }
  }

  /**
   An update the checks allow keeps names unique up to case, on rows where
   they were. The registry does not keep that property itself: `store` admits
   the same name under another number.
   */
  lemma AllowedUpdateKeepsNamesUnique(rows: seq<Row>, k: nat, name: string, tablenum: int)
    requires IdsUnique(rows) && k < |rows| && NamesUnique(rows)
    requires UpdateAllowed(rows, rows[k], name, tablenum)
    ensures NamesUnique(rows[k := Updated(rows[k], name, tablenum)])
  {
  }

  /**
   An update the checks allow keeps numbers unique, on rows where they were.
   The registry does not keep that property itself: `store` admits the same
   number under another name.
   */
  lemma AllowedUpdateKeepsTablenumsUnique(rows: seq<Row>, k: nat, name: string, tablenum: int)
    requires IdsUnique(rows) && k < |rows| && TablenumsUnique(rows)
    requires UpdateAllowed(rows, rows[k], name, tablenum)
    ensures TablenumsUnique(rows[k := Updated(rows[k], name, tablenum)])
  {
  }

  // ---------------------------------------------------------------------------
  // Deletion

  /** Deleting a row keeps every uniqueness property the rows had. */
  lemma RemovalKeepsUniqueness(rows: seq<Row>, k: nat)
    requires k < |rows|
    ensures IdsUnique(rows) ==> IdsUnique(Removed(rows, k))
    ensures CompositeUnique(rows) ==> CompositeUnique(Removed(rows, k))
    ensures NamesUnique(rows) ==> NamesUnique(Removed(rows, k))
    ensures TablenumsUnique(rows) ==> TablenumsUnique(Removed(rows, k))
  {
  }

  /**
   With unique ids, deleting the row at `k` deletes exactly the rows with its
   id: every other row is kept and no row with that id is left.
   */
  lemma RemovalKeepsOthers(rows: seq<Row>, k: nat)
    requires IdsUnique(rows) && k < |rows|
    ensures forall r :: r in Removed(rows, k) <==> r in rows && r.id != rows[k].id
    ensures !HasId(Removed(rows, k), rows[k].id)
  {
    var after := Removed(rows, k);
    forall r ensures r in after <==> r in rows && r.id != rows[k].id {
      if r in rows && r.id != rows[k].id {
        var i :| 0 <= i < |rows| && rows[i] == r;
        if i < k { assert after[i] == r; } else { assert after[i - 1] == r; }
      }
      if r in after {
        var i :| 0 <= i < |after| && after[i] == r;
        if i < k { assert rows[i] == r; } else { assert rows[i + 1] == r; }
      }
    }
  }

  // ---------------------------------------------------------------------------
  // The controller over the persisted rows

  class TablesController {
    var rows: seq<Row>
    var nextId: nat

    /** Ids are unique and all below the auto-increment counter. */
    ghost predicate Valid()
      reads this
    {
      IdsUnique(rows) && forall i :: 0 <= i < |rows| ==> rows[i].id < nextId
    }

    constructor ()
      ensures Valid() && rows == [] && nextId == 1
    {
      rows := [];
      nextId := 1;
    }

    /** The existence query of `store` and its early return. */
    method CreateGuard(name: string, tablenum: int) returns (v: Verdict)
      ensures v == Reject(NameField) <==> CreateConflict(rows, name, tablenum)
      ensures v == Accept <==> !CreateConflict(rows, name, tablenum)
    {
      var q := [LowerNameIs(name), TablenumIs(tablenum)];
      ExistsIff(rows, q);
      forall r: Row ensures HoldsAll(q, r) <==> LowerStr(r.name) == name && r.tablenum == tablenum {
        assert q[0] in q && q[1] in q;
      }
      if Exists(rows, q) {
        v := Reject(NameField);
      } else {
        v := Accept;
      }
    }

    /**
     The two existence queries of `update`, in order: the name query only when
     the name changed other than by case, then the number query only when the
     number changed, each leaving out the row being updated.
     */
    method UpdateGuard(id: nat, name: string, tablenum: int) returns (v: Verdict)
      requires HasId(rows, id)
      ensures UpdateVerdict(rows, rows[IndexOf(rows, id)], name, tablenum, v)
    {
      var cur := rows[IndexOf(rows, id)];
      if LowerStr(name) != LowerStr(cur.name) {
        var q := [LowerNameIs(LowerStr(name)), IdIsNot(cur.id)];
        ExistsIff(rows, q);
        forall r: Row ensures HoldsAll(q, r) <==> LowerStr(r.name) == LowerStr(name) && r.id != id {
          assert q[0] in q && q[1] in q;
        }
        if Exists(rows, q) {
          return Reject(NameField);
        }
      }
      if tablenum != cur.tablenum {
        var q := [TablenumIs(tablenum), IdIsNot(cur.id)];
        ExistsIff(rows, q);
        forall r: Row ensures HoldsAll(q, r) <==> r.tablenum == tablenum && r.id != id {
          assert q[0] in q && q[1] in q;
        }
        if Exists(rows, q) {
          return Reject(TablenumField);
        }
      }
      v := Accept;
    }

    /** `store`: create a table unless the existence check finds a match. */
    method Store(name: string, tablenum: int, state: bool) returns (res: Response)
      requires Valid()
      modifies this
      ensures Valid()
      ensures res.Rejected? <==> CreateConflict(old(rows), name, tablenum)
      ensures res.Rejected? ==> res.field == NameField && rows == old(rows) && nextId == old(nextId)
      ensures res.Saved? ==>
        && res.table == Row(old(nextId), name, tablenum, state)
        && rows == old(rows) + [res.table]
        && nextId == old(nextId) + 1
    {
      var v := CreateGuard(name, tablenum);
      if v.Reject? {
        return Rejected(v.field);
      }
      var row := Row(nextId, name, tablenum, state);
      rows := rows + [row];
      nextId := nextId + 1;
      res := Saved(row);
    }

    /** `update`: rename and renumber the table with `id` unless a check fails. */
    method Update(id: nat, name: string, tablenum: int) returns (res: Response)
      requires Valid() && HasId(rows, id)
      modifies this
      ensures Valid() && nextId == old(nextId)
      ensures var k := IndexOf(old(rows), id);
        var cur := old(rows)[k];
        && UpdateVerdict(old(rows), cur, name, tablenum, res.Outcome())
        && (res.Rejected? ==> rows == old(rows))
        && (res.Saved? ==> res.table == Updated(cur, name, tablenum) && rows == old(rows)[k := res.table])
    {
      var v := UpdateGuard(id, name, tablenum);
      if v.Reject? {
        return Rejected(v.field);
      }
      var k := IndexOf(rows, id);
      var row := Updated(rows[k], name, tablenum);
      rows := rows[k := row];
      res := Saved(row);
    }

    /** `destroy`: delete the table with `id`. */
    method Destroy(id: nat)
      requires Valid() && HasId(rows, id)
      modifies this
      ensures Valid() && nextId == old(nextId)
      ensures rows == Removed(old(rows), IndexOf(old(rows), id))
      ensures !HasId(rows, id)
      ensures forall r :: r in rows <==> r in old(rows) && r.id != id
    {
      var k := IndexOf(rows, id);
      RemovalKeepsUniqueness(rows, k);
      RemovalKeepsOthers(rows, k);
      rows := Removed(rows, k);
    }
  }
}
