# Restaurant table registry

A model of the table registry behind the API's `TablesController` in a
restaurant administration panel. Every restaurant table is one row: its
system-assigned `id`, its `name`, its number `tablenum` and its `state` flag.
The controller creates, renames/renumbers and deletes rows. Before it creates
or updates a row, it runs existence queries so that names and numbers do not
collide. When a query finds a clash, the controller answers 422 with an error
keyed by the offending field (`name` or `tablenum`) and writes nothing.

Files:

- `ascii.dfy` (module `Ascii`): lower-casing as `strtolower` and the
  database's `LOWER(...)` do it, on ASCII.
- `table_model.dfy` (module `TableModel`): the row.
- `query.dfy` (module `Query`): the ORM's `where ... exists()` chain. It is
  modelled as a filter over the rows, and the lemma `ExistsIff` proves it
  equal to "some row satisfies every condition".
- `tables_controller.dfy` (module `TablesApi`): the existence checks as
  predicates over the rows, and the uniqueness properties those checks
  protect. The class `TablesController` holds the persisted rows and the
  auto-increment counter. Its read-only guard methods run the same queries as
  the controller. `Store`, `Update` and `Destroy` change the rows.
- `scenarios.dfy` (module `Scenarios`): two client request sequences, checked
  from the method contracts alone.

## The create check and the update checks differ

`store` compares the lower-cased stored name with the submitted name *as
given*. The submitted name is not lower-cased
(`app/Http/Controllers/Api/TablesController.php:42`). `update` lower-cases
both sides (lines 79-80). The model keeps the code as written:

- `CreateConflictIff` proves that the create check fires exactly when the
  submitted name has no upper-case letter and some row matches it up to case
  with the same number.
- `UppercaseNameNeverConflicts` follows from it: a name with a capital letter
  is never refused. `ExactDuplicateAdmitted` shows the result. A second
  "Mesa 1" with number 1 is created beside the first, and the rows then break
  the composite name-plus-number uniqueness.
- `AcceptedCreateKeepsCompositeUnique` gives the positive side. For a
  lower-case name, an accepted create keeps that uniqueness.

The error the create check answers with (line 48) says that a table with
this name and number already exists. The `LOWER(name)` on the stored side
shows the comparison is meant to ignore case. As written, it ignores case
only for lower-case input, and the model follows the code. A database whose
collation compares case-insensitively would hide the difference. Collation
is outside this model.

The update rules also differ from the create rule. A changed name must be
free among all other rows, whatever their numbers. A changed number must be
free among all other rows, whatever their names. Each check runs only when
its field changed. The name check runs first and returns at once, so when
both fields clash only the `name` error is reported.
`AllowedUpdateKeepsCompositeUnique` proves that an allowed update keeps the
name-plus-number pair unique, which is the pair the create check guards.
Names alone and numbers alone are not kept unique by the registry, because
`store` admits the same name under another number. The two lemmas about them
hold only on rows where that uniqueness already holds.

## Model

| member | source | states |
|---|---|---|
| `Ascii.Lower` | app/Http/Controllers/Api/TablesController.php:79-80 | an upper-case ASCII letter becomes the lower-case letter at the same place in the alphabet; every other character is unchanged; the result is never upper-case |
| `Ascii.LowerStr` | app/Http/Controllers/Api/TablesController.php:79-80 | lower-casing a name keeps its length and lower-cases it character by character, in order |
| `Ascii.LowerStrIsLowercase` | app/Http/Controllers/Api/TablesController.php:80 | a lower-cased name holds no upper-case letter |
| `Ascii.LowerStrFixedIff` | app/Http/Controllers/Api/TablesController.php:42 | a name equals its lower-cased form exactly when it has no upper-case letter |
| `Ascii.LowerStrIdempotent` | app/Http/Controllers/Api/TablesController.php:79-80 | lower-casing twice is the same as lower-casing once |
| `Query.Where` | app/Http/Controllers/Api/TablesController.php:42-43 | one `where` keeps exactly the stored rows that satisfy its condition and never adds rows |
| `Query.Get` | app/Http/Controllers/Api/TablesController.php:80-81 | a chain of `where` conditions keeps exactly the stored rows that satisfy all of them |
| `Query.ExistsIff` | app/Http/Controllers/Api/TablesController.php:42-44 | `exists()` on a chain is true exactly when some stored row satisfies every condition of the chain |
| `TablesApi.IndexOf` | app/Http/Controllers/Api/TablesController.php:72 | the bound `$table` is the first stored row whose id is the requested id |
| `TablesApi.Removed` | app/Http/Controllers/Api/TablesController.php:114 | deleting the row at one position keeps every other row, in order, with one row fewer |
| `TablesApi.Updated` | app/Http/Controllers/Api/TablesController.php:104 | `$table->update` gives the row the validated name and number and keeps its id and state |
| `TablesApi.CreateConflictIff` | app/Http/Controllers/Api/TablesController.php:42-46 | the create check fires if and only if the submitted name is lower-case and some row has that name up to case and the same number |
| `TablesApi.UppercaseNameNeverConflicts` | app/Http/Controllers/Api/TablesController.php:42-46 | a submitted name with an upper-case letter never trips the create check |
| `TablesApi.ExactDuplicateAdmitted` | app/Http/Controllers/Api/TablesController.php:42-52 | with "Mesa 1" number 1 stored, a second "Mesa 1" number 1 passes the check, and the resulting rows break name-plus-number uniqueness |
| `TablesApi.AcceptedCreateKeepsCompositeUnique` | app/Http/Controllers/Api/TablesController.php:42-52 | for a lower-case name, a row accepted by the create check keeps name-up-to-case plus number unique |
| `TablesApi.NameCheckExcludesSelf` | app/Http/Controllers/Api/TablesController.php:80-82 | with unique ids, the update name query finds a clash if and only if a row at another position has the name up to case; the updated row never counts |
| `TablesApi.TablenumCheckExcludesSelf` | app/Http/Controllers/Api/TablesController.php:93-95 | with unique ids, the update number query finds a clash if and only if a row at another position has the number |
| `TablesApi.AllowedUpdateKeepsCompositeUnique` | app/Http/Controllers/Api/TablesController.php:78-104 | with unique ids, an update allowed by the checks keeps the name-up-to-case plus number pair unique if it was |
| `TablesApi.AllowedUpdateKeepsNamesUnique` | app/Http/Controllers/Api/TablesController.php:78-104 | if names were unique up to case, an update allowed by the checks keeps them unique, including a case-only rename that skips the check |
| `TablesApi.AllowedUpdateKeepsTablenumsUnique` | app/Http/Controllers/Api/TablesController.php:91-104 | if numbers were unique, an update allowed by the checks keeps them unique, including one that leaves the number unchanged |
| `TablesApi.RemovalKeepsUniqueness` | app/Http/Controllers/Api/TablesController.php:112-114 | deleting a row keeps ids, names up to case, numbers and name-plus-number pairs unique if they were |
| `TablesApi.RemovalKeepsOthers` | app/Http/Controllers/Api/TablesController.php:114 | with unique ids, deleting a row keeps exactly the rows with other ids, and no row with the deleted id remains |
| `TablesApi.TablesController.CreateGuard` | app/Http/Controllers/Api/TablesController.php:42-50 | rejects under `name` exactly when some row's lower-cased name equals the submitted name as given and its number matches; accepts otherwise |
| `TablesApi.TablesController.UpdateGuard` | app/Http/Controllers/Api/TablesController.php:78-102 | rejects under `name` if and only if the name changed other than by case and another row has it up to case; otherwise rejects under `tablenum` if and only if the number changed and another row has it; accepts exactly when neither applies |
| `TablesApi.TablesController.Store` | app/Http/Controllers/Api/TablesController.php:36-58 | on a create clash, answers a `name` error and leaves rows and counter unchanged; otherwise appends one row with the next id and the submitted fields, leaving every earlier row as it was |
| `TablesApi.TablesController.Update` | app/Http/Controllers/Api/TablesController.php:72-110 | gives the same verdict as the guard (`UpdateVerdict`: `name` first, then `tablenum`, otherwise success); a rejection changes nothing; a success overwrites only the target row's name and number, keeping its id, its state, the other rows and the row count |
| `TablesApi.TablesController.Destroy` | app/Http/Controllers/Api/TablesController.php:112-119 | removes exactly the row with the given id; every other row stays, in order, and ids remain unique |

## Left out

- Authorization (`Gate::authorize`, lines 20, 38, 63, 74 and 113): the policy layer is not part of this model. Every modelled request is taken to be authorized.
- Request validation (`StoreTableRequest`, `UpdateTableRequest`): these classes are not part of this model. The validated input is taken as well-typed. `store` receives name, number and state. `update` is assumed to receive name and number only. If the update request also validates `state`, then `$table->update($validated)` at line 104 overwrites it. In that case the "keeps its state" clauses of `TablesApi.Updated` and `TablesApi.TablesController.Update` would not hold.
- `index`, with its `FilterByName`/`FilterByState` pipeline and pagination: the filter classes are not part of this model, and pagination is database behaviour.
- `show`: a lookup that route-model binding does. `TablesApi.IndexOf` models that binding for `update` and `destroy`. An unknown id is a 404 before the controller runs, so `Update` and `Destroy` require an existing id.
- Response shaping: `TableResource`, `refresh()`, the JSON bodies and the Spanish messages are not modelled. Only the field an error is keyed by is kept.
- Character encoding and collation: `LOWER`/`strtolower` are modelled as ASCII lower-casing on characters. A case-insensitive database collation would make the create check case-insensitive anyway.
- PHP's strict `!==` at line 92, which compares a request value with a stored value that may be a string or an integer: `tablenum` is an unbounded integer here.
- Concurrency: the window between each existence query and the following write is not modelled. Each request runs on its own against the current rows.
- `app/Http/Controllers/Web/InputWebController.php` and `app/Models/Presentation.php`: the first only authorizes and renders a view, and the second only declares fields. Neither has behaviour to model.
