/**
 Request sequences against the controller, checked from the method contracts
 alone, as a client of `TablesController` sees them.
 */
module Scenarios {
  import opened Ascii
  import opened TableModel
  import opened TablesApi

  /**
   Create "Mesa 1" number 1; then "mesa 1" number 1 is refused under `name`;
   then "mesa 1" number 2 is created. A second "Mesa 1" number 1, written with
   its capital, is created too.
   */
  method CreateSequence()
  {
    var c := new TablesController();
    var r1 := c.Store("Mesa 1", 1, true);
    assert r1 == Saved(Row(1, "Mesa 1", 1, true));

    assert LowerStr("Mesa 1") == "mesa 1";
    assert CreateConflict(c.rows, "mesa 1", 1) by {
      assert c.rows[0].name == "Mesa 1";
    }
    var r2 := c.Store("mesa 1", 1, true);
    assert r2 == Rejected(NameField);

    var r3 := c.Store("mesa 1", 2, true);
    assert r3 == Saved(Row(2, "mesa 1", 2, true));

    UppercaseNameNeverConflicts(c.rows, "Mesa 1", 1) by {
      assert IsUpper("Mesa 1"[0]);
    }
    var r4 := c.Store("Mesa 1", 1, true);
    assert r4.Saved? && |c.rows| == 3;
  }

  /**
   With rows X number 1 and Y number 2, renaming Y to "X" is refused under
   `name` although the numbers differ; renaming it to "y" (case only) while
   renumbering it to 1 is refused under `tablenum`; renaming it to "y" alone
   is accepted.
   */
  method UpdateSequence()
  {
    var c := new TablesController();
    var a := c.Store("X", 1, true);
    var b := c.Store("Y", 2, true);
    assert c.rows == [Row(1, "X", 1, true), Row(2, "Y", 2, true)];
    assert LowerStr("X") == "x" && LowerStr("Y") == "y";
    assert HasId(c.rows, 2) by { assert c.rows[1].id == 2; }
    assert NameTakenByOther(c.rows, 2, "X") by { assert c.rows[0].id != 2; }

    var u1 := c.Update(2, "X", 2);
    assert u1 == Rejected(NameField);

    assert LowerStr("y") == "y";
    assert TablenumTakenByOther(c.rows, 2, 1) by { assert c.rows[0].id != 2; }
    var u2 := c.Update(2, "y", 1);
    assert u2 == Rejected(TablenumField);

    var u3 := c.Update(2, "y", 2);
    assert u3 == Saved(Row(2, "y", 2, true));
    assert c.rows == [Row(1, "X", 1, true), Row(2, "y", 2, true)];

    assert HasId(c.rows, 1) by { assert c.rows[0].id == 1; }
    c.Destroy(1);
    assert c.rows == [Row(2, "y", 2, true)];
  }
}
