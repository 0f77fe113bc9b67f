# Spreadsheet rows to key/attribute items

A Dafny model of `get_json_items` in `app.py`. This is the part of the pipeline that turns a
spreadsheet into upload-ready items. It reads the sheet into a DataFrame and gives the rows a
1-based index. It replaces the zero-currency placeholder `' $-   '` in the `Discounts` column
with `'0.0'`. Then it serialises the frame to pandas' "table" JSON form, which has a schema (a
field list and the primary-key names) and a list of rows. From that form it builds one item per
row, `{Key, Attributes: [{Name, Type, Value}]}`: the primary-key cell becomes `Key` as a string,
and every other field becomes an attribute, in schema-field order.

Modules:

- `Wrappers` (`wrappers.dfy`): `Option` and `Result`.
- `Values` (`values.dfy`): decoded cells (integer, float, string, boolean, null) and Python's
  `str()` on them. `str()` is concrete on integers and comes with an inverse reader. Also the
  two exceptions the modelled steps raise (`KeyError`, `IndexError`).
- `Frame` (`frame.dfy`): the DataFrame as a value (well formed: every row has exactly the
  frame's columns and the index has one entry per row), the row-index assignment (a method with the
  loop of the list comprehension) and the `Discounts` replacement.
- `Items` (`items.dfy`): the schema, rows, attributes and items. It has specification functions
  for the result, `GetItems` (the two nested loops of the source, proved equal to the
  specification function), and lemmas about that result.

A lookup of a field that a row lacks raises `KeyError` in the source (`row[field['name']]`).
An empty primary-key list raises `IndexError` (`['primaryKey'][0]`). The model reports both as
a `Failure` instead of excluding them with a precondition. The `KeyError` names the same
field Python would hit first: rows in order, and within a row the fields in schema order.

## Model

| member | source | states |
|---|---|---|
| `Frame.AssignRowIndex` | app.py:21 | the new index is 1, 2, ..., n for the n rows, in row order: strictly increasing, so no two rows share it; columns and rows are unchanged and the frame stays well formed |
| `Frame.ReplaceDiscounts` | app.py:24 | KeyError("Discounts") exactly when there is no Discounts column; otherwise a Discounts cell that equals `' $-   '` becomes `'0.0'`, and every other cell, row key set, column and the index are unchanged, and the frame stays well formed |
| `Frame.ReplaceDiscountsIdempotent` | app.py:24 | after the replacement no Discounts cell is the placeholder, so replacing again changes nothing |
| `Values.IntToString` | app.py:44 | `str()` of an int is non-empty and starts with '-' exactly for negative values |
| `Values.Str` | app.py:44 | `str()` of a cell: text that reads back as the int for an int cell, the printed text for a float, the string itself, `"True"`/`"False"` for a boolean, `"None"` for null |
| `Values.IntRoundTrip` | app.py:44 | the decimal text `str()` gives for an int reads back as that int |
| `Values.IntToStringInjective` | app.py:44 | two ints have the same `str()` text if and only if they are equal |
| `Items.FirstMissing` | app.py:39-40 | None exactly when every schema field can be looked up in the row; otherwise a field name of the schema that the row lacks |
| `Items.FirstMissingAt` | app.py:39-40 | if fields before position j are present and field j is absent, the KeyError names field j |
| `Items.FirstMissingIn` | app.py:35-40 | None exactly when every row has every schema field; otherwise a schema field that some row lacks |
| `Items.FirstMissingInAt` | app.py:35-40 | if rows before i are complete and row i is not, the KeyError is row i's first missing field |
| `Items.KeyOf` | app.py:36-44 | defined as the fold of the field loop: the key starts as `''` and each field that is the primary key overwrites it with `str()` of its cell; proved: the result is `str()` of the row's primary-key cell (present in the row) when some field is the primary key, and `''` otherwise, so the last write winning changes nothing |
| `Items.KeyErrorNamesFirstMissing` | app.py:35-40 | when rows before row i are complete and field j is the first field row i lacks, the result is a KeyError naming field j: the first missing field in row-major order |
| `Items.FieldPrefixStep` | app.py:39-53 | one pass of the field loop: field j either sets the key to `str()` of the row's primary-key cell (when it is the primary key) or appends one attribute with its name, type and cell, and leaves the rest unchanged |
| `Items.AttributesOf` | app.py:46-53 | at most one attribute per field, and no attribute is named after the primary key |
| `Items.GetItemsSpec` | app.py:30-55 | IndexError when the primary-key list is empty; success exactly when there is a primary key and every row has every field, and then one item per row; a failure with a primary key is a KeyError for a schema field that some row lacks |
| `Items.GetItems` | app.py:30-55 | the outer loop over rows and the inner loop over fields give exactly GetItemsSpec, errors included |
| `Items.NonKeyFields` | app.py:43-46 | the fields other than the primary key: a field is kept exactly when it is in the schema and its name is not the primary key |
| `Items.NonKeyFieldsSnoc` | app.py:39-53 | filtering the non-key fields distributes over appending one field, so it follows the field loop |
| `Items.AttributesFollowFields` | app.py:39-53 | a row's attributes are exactly the non-key fields in schema order, each with the field's name and type and the row's cell for it, unchanged |
| `Items.ItemsFollowRows` | app.py:32-55 | one item per row in row order (none for no rows); item i's key is `str()` of row i's primary-key cell, or '' when no field is the primary key; its attributes are the non-key fields with row i's cells, none named after the primary key |
| `Items.IndexKeysDistinct` | app.py:43-44 | when the primary key is the row index 1..n (app.py:21), item i's key is the decimal text of i+1 and reads back as i+1, so keys increase with row order and are pairwise distinct |

## Left out

- Reading the spreadsheet (`pd.read_excel`, app.py:18): file I/O. The DataFrame is an input.
- `.astype(float)` on the Discounts column (app.py:24): floating-point conversion. It could also raise `ValueError` on non-numeric text. Only the token replacement is modelled, so a replaced cell stays the string `'0.0'`.
- `df.to_json(orient='table')` and `json.loads` (app.py:27): pandas' schema inference and JSON parsing are library code that is not part of this model. The decoded table (schema fields, primary-key names, rows) is an input of `GetItems`. `IndexKeysDistinct` takes as a hypothesis what that serialisation does with the index: the primary-key column holds row i's index, i+1.
- A schema with no `primaryKey` entry at all, or a field without `name`/`type`: the schema datatype always has them. pandas writes `primaryKey` only for a unique index. Here the index is always unique, because app.py:21 assigns 1..n, and the list is then the one-element `[index name]`. So the `IndexError` branch for an empty primary-key list is modelled but cannot be reached from `app.py`.
- Other exceptions: `read_excel` (app.py:18) can raise on a missing or unreadable file, and `.astype(float)` (app.py:24) can raise `ValueError`. Only the `KeyError` and `IndexError` of the modelled steps are modelled.
- Float cells are kept as the text Python's `str()` prints for them. Float formatting is not modelled.
- `json.dumps` (app.py:58): serialising the item list is library code. The model returns the item list itself.
- `main` and the `__main__` block (app.py:8-14, 60-68): choosing the collection name from a command-line flag, and printing.
- The DataFrame is changed in place (`df.index = ...`, `df['Discounts'] = ...`). It is a local object that nothing else refers to, so it is modelled as a value that each step replaces. The item dictionary that the inner loop mutates is modelled as two local variables (`key`, `attrs`).
- Authentication, batched upload and post-upload validation: `app.py` contains no code for them, so there is nothing to model.
- Duplicate-key detection and the datetime-to-date type downgrade: `app.py` does neither. Keys are copied as they are, and so are field types.
