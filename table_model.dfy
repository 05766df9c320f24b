/**
 A row of the `tables` relation behind the `Table` model: a restaurant table
 with its system-assigned `id`, its display `name`, its number `tablenum` and
 its `state` flag (active or not).
 */
module TableModel {

  datatype Row = Row(id: nat, name: string, tablenum: int, state: bool)
}
