# Editable table, action names and JWT authentication — a Dafny model

This project models the pieces of the spec-genius repository that hold sequential logic. Everything else there is view code or HTTP plumbing.

- **The editable table** (`frontend/src/components/Table.tsx`):
  - for both `DraggableTable` and the compact `DynamicWidget`:
    - the local state: a column order and the rows;
    - how that state is derived from the `columns`/`rows` inputs and re-synced;
    - the default cell editor;
  - for `DraggableTable` only:
    - the drag-end handler. It routes a gesture to the column axis or the row axis and runs the drag library's `arrayMove` there;
    - the insert zones and the indices they request;
    - the header rename editor.
- **`createActions`** (`frontend/lib/utils.ts`): the namespaced action-type table, `name -> "prefix.name"`.
- **`create_jwt` and `verify_jwt`** (`accounts/utils.py`): the two payloads of a token pair, their lifetimes, and the type check on decoding.
- **`UserJWTAuthentification.authenticate`** (`accounts/authentification.py`): the header check, token extraction, verification and user lookup. The result is one of:
  - anonymous;
  - failed;
  - authenticated as a user;
  - an escaping `KeyError`.

## Modules

| file | module | what |
|---|---|---|
| `wrappers.dfy` | `Wrappers` | `Option` |
| `sequences.dfy` | `Sequences` | `IndexOf`, and `ArrayMove` with its permutation, placement and inverse laws |
| `table_model.dfy` | `TableModel` | columns, rows, table state, deriving the column order, the input-sync effects |
| `drag_reorder.dfy` | `DragReorder` | the drag-end handler and its properties |
| `insert_zones.dfy` | `InsertZones` | the indices the column and row insert zones request |
| `header_edit.dfy` | `HeaderEdit` | the header rename editor as an event machine |
| `cell_edit.dfy` | `CellEdit` | the default cell editor as an event machine |
| `action_types.dfy` | `ActionTypes` | `createActions` |
| `py_text.dfy` | `PyText` | Python's `startswith`, `replace(p, "")` and `strip()` |
| `jwt.dfy` | `Jwt` | payloads, `create_jwt`, `verify_jwt` |
| `authentication.dfy` | `Authentication` | `authenticate` |

### Modelling choices

- **`arrayMove`** belongs to the drag library, whose code is not part of this model. It is defined as the library documents it: remove the element at `from`, then insert it at `to`. Both indices must be in range.
- **Routing.** A drag is routed by membership of the dragged id in the column order, exactly as the handler tests it. So a row whose id is also a column id is routed to the columns.
- **How `DynamicWidget` differs from `DraggableTable`:**
  - it has no effect that re-syncs its rows from the `rows` input;
  - it installs no table `meta`, so the cell editor's `meta?.updateData(...)` on blur does nothing there;
  - it shows each header as a plain label. So it has no rename editor, no column insert zones and no delete buttons;
  - it renders no sortable header or row, so its drag handler never fires (see below);
  - it sets no `getRowId`;
  - its row insert zones have no `onAdd`, so they request nothing.

  `TableModel.RowsChanged` and `CellEdit.Step` model the first two differences. `HeaderEdit` and `InsertZones` model `DraggableTable` only.
- **The cell draft's re-sync effect** depends on the cell value. It fires only when the value read from the row differs from the last rendered one. An unchanged value therefore leaves a typed draft in place.
- **The header editor** reads its draft from the header text once, on mount. It has no cancel key: Enter behaves as blur, and both always report the draft.
- **`__proto__` in `createActions`.** In a plain object, `results["__proto__"] = "..."` goes to the prototype setter, which ignores a string. So that name never becomes a key.
- **Time in `create_jwt`.** The clock is read twice, once per payload, so the model takes two readings. Times are whole seconds.
- **Signing and decoding** (HS256, RFC 7519) are function parameters `encode` and `decode`. Decoding yields the payload, an expired signature, or an invalid token.
- **The header name.** The authenticator reads the header named `Autorization`, spelled as in the code. Lookup is by exact name.
- **The compact widget's drag handler.** `DynamicWidget` defines the same handler inside a drag context. It renders no sortable header or row, though, so no gesture reaches it. The shared model of the handler therefore matters only for `DraggableTable`.
- **Ids seen by the table library.** The header and column ids the table library reports are taken to equal the host's column ids. The library derives them from `accessorKey: col.id`.
- **A row is one object.** Its `id` field doubles as the value of a column whose id is `id`. The cell editor reads that column's value from the row's own id.
- **The committed row.** The cell commit carries the data row. The code passes the table library's row object wrapping it, together with that object's index.

## Model

| member | source | states |
|---|---|---|
| Sequences.IndexOf | frontend/src/components/Table.tsx:460-465 | the position found holds the id, and no earlier position does |
| Sequences.IndexOfDistinct | frontend/src/components/Table.tsx:460 | in a duplicate-free order, the index found for the element at `i` is `i` |
| Sequences.RemoveAt | frontend/src/components/Table.tsx:460 | removal shifts later elements left by one and takes exactly the removed element out of the multiset |
| Sequences.InsertAt | frontend/src/components/Table.tsx:460 | insertion places the element at `i`, shifts later elements right by one, and adds exactly that element to the multiset |
| Sequences.ArrayMove | frontend/src/components/Table.tsx:460 | the moved element lands at `to`; every other position holds the element its index mapping names; the result is a permutation of the input |
| Sequences.ArrayMoveSameIndex | frontend/src/components/Table.tsx:460 | moving an element onto its own index changes nothing |
| Sequences.ArrayMoveInverse | frontend/src/components/Table.tsx:459-461 | moving back from `to` to `from` restores the original sequence |
| Sequences.ArrayMoveSameElements | frontend/src/components/Table.tsx:459-461 | a move neither loses nor adds elements, in both directions of membership |
| Sequences.ArrayMoveKeepsDistinct | frontend/src/components/Table.tsx:459-461 | a move introduces no duplicates |
| Sequences.ArrayMoveKeepsRelativeOrder | frontend/src/components/Table.tsx:459-461 | two positions other than `to` after the move come from positions in the same order, neither of them `from` |
| Sequences.ArrayMoveKeepsOthersInOrder | frontend/src/components/Table.tsx:459-461 | in a duplicate-free sequence, two elements other than the moved one are in the same order after the move as before (iff) |
| Sequences.ArrayMoveShifts | frontend/src/components/Table.tsx:460 | elements strictly between the indices shift one place towards `from`; elements outside both stay put |
| Sequences.ArrayMoveDisplacedNeighbour | frontend/src/components/Table.tsx:460 | the element that was at `to` ends right beside the moved one, on the side the moved one came from |
| TableModel.ColumnIds | frontend/src/components/Table.tsx:343 | the derived order lists each column's id in column order, names no other id, and is duplicate-free when the column ids are |
| TableModel.RowIds | frontend/src/components/Table.tsx:464-465 | the row ids `findIndex` searches, one per row, in row order |
| TableModel.Mount | frontend/src/components/Table.tsx:342-343 | initial state: the rows as given and the column ids in column order |
| TableModel.ColumnsChanged | frontend/src/components/Table.tsx:347-349 | a new `columns` input rederives the column order exactly as on mount and leaves the rows alone |
| TableModel.RowsChanged | frontend/src/components/Table.tsx:351-353 | the full table adopts new rows and keeps its column order; the compact widget keeps its whole state |
| DragReorder.HandleDragEnd | frontend/src/components/Table.tsx:454-469 | a no-op leaves the state unchanged; a column drag changes only the column order, as a permutation with the dragged id at the target's old index; a row drag changes only the rows, as a permutation with the dragged row at the target's old index |
| DragReorder.ColumnDragKeepsPermutation | frontend/src/components/Table.tsx:459-461 | a column drag on a duplicate-free order gives a duplicate-free order of the same ids |
| DragReorder.ColumnDragPlacement | frontend/src/components/Table.tsx:460 | the dragged id takes the target's index, and the target ends beside it on the side the dragged id came from |
| DragReorder.ColumnDragShifts | frontend/src/components/Table.tsx:460 | ids between the two positions shift by one; ids outside both stay put |
| DragReorder.ColumnDragKeepsOthersInOrder | frontend/src/components/Table.tsx:459-461 | on a duplicate-free column order, any two ids other than the dragged one keep their relative order (iff) |
| DragReorder.ColumnDragBackRestores | frontend/src/components/Table.tsx:459-461 | on a duplicate-free column order, dragging the same column back onto the id now at its old index restores the original state |
| DragReorder.RowDragPlacement | frontend/src/components/Table.tsx:463-467 | the dragged row, contents and all, takes the target's index; the target row ends beside it; the column order stays |
| DragReorder.RowDragKeepsPermutation | frontend/src/components/Table.tsx:463-467 | a row drag keeps the same rows, and distinct row ids stay distinct |
| DragReorder.RowIdsOfMove | frontend/src/components/Table.tsx:464-466 | moving rows moves their ids the same way |
| DragReorder.SharedIdRoutesToColumns | frontend/src/components/Table.tsx:458 | an id that is both a column id and a row id is routed to the columns; the rows do not move |
| DragReorder.ColumnsChangeDropsReorder | frontend/src/components/Table.tsx:347-349 | after a column drag, a new `columns` input gives the same state as if no drag had happened |
| DragReorder.RowDragShifts | frontend/src/components/Table.tsx:463-467 | rows between the two positions shift by one; rows outside both stay put |
| DragReorder.RowDragKeepsOthersInOrder | frontend/src/components/Table.tsx:463-467 | with distinct row ids, any two rows other than the dragged one keep their relative order (iff) |
| DragReorder.RowDragBackRestores | frontend/src/components/Table.tsx:463-467 | with distinct row ids, dragging the same row back onto the row now at its old index restores the original state |
| DragReorder.RowsChangeDropsReorder | frontend/src/components/Table.tsx:351-353 | in the full table, after a row drag, a new `rows` input gives the same state as if no drag had happened |
| InsertZones.ColumnZoneTargets | frontend/src/components/Table.tsx:486-506 | a header row with `n` headers offers every column insertion index 0..n exactly once, in order (leftmost zone 0, then `i+1` after header `i`) |
| InsertZones.RowZoneTargets | frontend/src/components/Table.tsx:517-539 | with rows, the zones offer every row insertion index 0..m in order (0 above the first row, `index+1` below each); an empty table offers none |
| InsertZones.RowZoneSpan | frontend/src/components/Table.tsx:523 | a row zone spans one cell per header cell: the column count plus one |
| HeaderEdit.Mount | frontend/src/components/Table.tsx:65-66 | the editor starts closed with the header text as its draft |
| HeaderEdit.Step | frontend/src/components/Table.tsx:85-123 | a rename is reported iff the open input is blurred or gets Enter, and it then carries the draft as it stands; changes alter only the draft; a click opens the input; other keys and events on unrendered elements change nothing |
| HeaderEdit.HandleBlur | frontend/src/components/Table.tsx:85-88 | closing the input keeps the draft and reports exactly one rename with this header's id, index and the draft |
| HeaderEdit.Run | frontend/src/components/Table.tsx:85-88 | every reported rename carries this header's id and index; at most one per event |
| HeaderEdit.TypingOnlyChangesDraft | frontend/src/components/Table.tsx:112 | while the input is open, typing reports nothing and leaves the last text typed as the draft |
| HeaderEdit.EditSession | frontend/src/components/Table.tsx:85-123 | click, type, then blur or Enter reports exactly one rename, carrying the last text typed or the unchanged header text |
| HeaderEdit.RunAppend | frontend/src/components/Table.tsx:107-123 | running two event sequences one after the other is running their concatenation |
| CellEdit.ValueOf | frontend/src/components/Table.tsx:358 | a column whose id is `id` reads the row's own id; any other column reads the row's entry for it, and `undefined` when there is none |
| CellEdit.Mount | frontend/src/components/Table.tsx:358-360 | the draft starts as the cell's value |
| CellEdit.Step | frontend/src/components/Table.tsx:355-370 | input replaces the draft; blur in the full table commits `(row, index, column, draft)` and in the compact widget commits nothing; a re-render resets the draft iff the value changed |
| CellEdit.TypeThenBlurCommits | frontend/src/components/Table.tsx:363-365 | typing then leaving the cell commits the typed text for that row, index and column |
| CellEdit.DraftSurvivesUnchangedValue | frontend/src/components/Table.tsx:368-370 | a re-render with the same value keeps the typed draft, and a later blur commits it |
| CellEdit.ChangedValueOverwritesDraft | frontend/src/components/Table.tsx:368-370 | a changed outside value replaces an uncommitted draft, and a later blur commits that value |
| ActionTypes.CreateActions | frontend/lib/utils.ts:9-17 | the keys are exactly the listed names other than `__proto__`; the value of `t` is prefix, dot, `t` |
| ActionTypes.ValuesAreNamespaced | frontend/lib/utils.ts:13 | every value starts with the prefix and a dot and ends with its key |
| ActionTypes.EmptyTypes | frontend/lib/utils.ts:10-16 | an empty list gives an empty table |
| ActionTypes.RepeatIsIdempotent | frontend/lib/utils.ts:12-14 | repeating a listed name changes nothing |
| ActionTypes.OnlyTheSetOfNamesMatters | frontend/lib/utils.ts:12-14 | lists naming the same set of names give the same table, whatever the order and repetition |
| ActionTypes.KeysIgnorePrefix | frontend/lib/utils.ts:13 | the keys do not depend on the prefix |
| ActionTypes.ProtoNameCreatesNoKey | frontend/lib/utils.ts:13 | for any list, `__proto__` never becomes a key, and appending it changes nothing |
| Jwt.CreatePayloads | accounts/utils.py:14-25 | both payloads have exactly `user_id`, `exp` and `type`, with the user's id in both; types are `access` and `refresh`; expiries are reading + 3600 s and reading + 7200 s; the refresh expiry is later unless the clock went back an hour between the readings |
| Jwt.CreateJwt | accounts/utils.py:26-29 | the access token and the refresh token are the encodings of the two payloads, in that order |
| Jwt.VerifyJwt | accounts/utils.py:32-43 | an expired or invalid token gives no payload; a payload is returned, unchanged, iff its `type` is the expected one; a missing `type` escapes as `KeyError` |
| Jwt.IssuedTokensCheckByType | accounts/utils.py:14-43 | a fresh access token checks out only as `access`, and a fresh refresh token only as `refresh` |
| PyText.RemoveAll | accounts/authentification.py:23 | removal never lengthens the text and introduces no character |
| PyText.RemoveAllWithoutOccurrence | accounts/authentification.py:23 | text in which the pattern does not occur is left as it is |
| PyText.RemoveAllDrop | accounts/authentification.py:23 | an occurrence at the front is dropped and scanning carries on after it |
| PyText.RemoveAllKeep | accounts/authentification.py:23 | a character where no occurrence of the non-empty pattern starts is kept and scanning carries on after it |
| PyText.MismatchBlocksOccurrence | accounts/authentification.py:23 | one character differing from the pattern rules out an occurrence at that position |
| PyText.StartsWith | accounts/authentification.py:20 | holds iff the prefix is no longer than the text and agrees with it character by character |
| PyText.IsSpaceLatin1 | accounts/authentification.py:23 | the whitespace `strip()` removes, within Latin-1, is exactly space, tab to carriage return, the four information separators, next-line and no-break space |
| PyText.LeadingSpace | accounts/authentification.py:23 | counts exactly the whitespace prefix: all of it is whitespace, and the next character is not |
| PyText.TrailingSpace | accounts/authentification.py:23 | counts exactly the whitespace suffix: all of it is whitespace, and the character before it is not |
| PyText.Strip | accounts/authentification.py:23 | the stripped text neither starts nor ends with whitespace |
| PyText.StripIsSlice | accounts/authentification.py:23 | the stripped text is the stretch of the input right after its leading whitespace |
| PyText.StripCutsOnlyEnds | accounts/authentification.py:23 | stripping removes only a whitespace prefix and a whitespace suffix |
| PyText.StripAfterSpace | accounts/authentification.py:23 | a leading whitespace character makes no difference to the result |
| PyText.StripUntrimmed | accounts/authentification.py:23 | text without surrounding whitespace is left as it is |
| PyText.StripIdempotent | accounts/authentification.py:23 | stripping twice is stripping once |
| Authentication.LookupUser | accounts/authentification.py:29-32 | a user found is stored and has the id; nothing found means no stored user has it |
| Authentication.Authenticate | accounts/authentification.py:14-24 | anonymous iff the header is missing or empty; a header not starting with `Bearer` fails; otherwise the extracted token decides |
| Authentication.ExtractToken | accounts/authentification.py:23 | the extracted token is no longer than the header, uses only the header's characters, and has no whitespace at either end |
| Authentication.AuthenticateToken | accounts/authentification.py:24-34 | authenticated iff the token decodes to an `access` payload whose integer `user_id` names a stored user, and then as that user; undecodable or other-typed tokens fail; an integer id naming no stored user fails; a string id fails; a payload without `type`, or an access payload without `user_id`, raises |
| Authentication.ExtractAfterKeyword | accounts/authentification.py:23 | after a leading `Bearer `, the token is the rest of the header with every `Bearer` removed, stripped |
| Authentication.ExtractBearerToken | accounts/authentification.py:23 | `Bearer <token>` gives back a token with no whitespace and no `Bearer` inside |
| Authentication.ExtractTokenRemovesInnerKeyword | accounts/authentification.py:23 | every `Bearer` is removed, not only the prefix: `Bearer xBearery` gives `xy` |
| Authentication.ExtractTokenCanLeaveKeyword | accounts/authentification.py:23 | removal in one pass can join the remainder into a new `Bearer`: `Bearer BBearerearer` gives `Bearer` |
| Authentication.RemoveAllRejoins | accounts/authentification.py:23 | removing the inner keyword from `B` + `Bearer` + `earer` leaves `Bearer` |
| Authentication.RemoveAllMatch | accounts/authentification.py:23 | a leading `Bearer` is removed and scanning carries on after it |
| Authentication.RemoveAllMiss | accounts/authentification.py:23 | a character where no `Bearer` starts is kept and scanning carries on after it |
| Authentication.BearerHeaderReachesToken | accounts/authentification.py:15-24 | a `Bearer <token>` header, for a token with no whitespace and no `Bearer` inside, is judged by the token alone |
| Authentication.IssuedAccessTokenAuthenticates | accounts/authentification.py:14-34 | a freshly issued access token with no whitespace and no `Bearer` inside, sent in a `Bearer` header, authenticates as the stored user with the token's id |
| Authentication.IssuedRefreshTokenRefused | accounts/authentification.py:24-27 | a freshly issued refresh token sent the same way fails, because only `access` is accepted |
| Authentication.ExtractTokenIntended | accounts/authentification.py:23 | the intended extraction (cut the keyword once, then strip) gives a token with no whitespace at either end |
| Authentication.AuthenticateIntended | accounts/authentification.py:14-34 | `authenticate` with the intended extraction: anonymous iff no header; no `Bearer` prefix fails; otherwise the extracted token decides |
| Authentication.ExtractIntendedRoundTrip | accounts/authentification.py:23 | the intended extraction gives back every token without surrounding whitespace, including one that contains `Bearer` |
| Authentication.AuthenticateAgreesWithIntended | accounts/authentification.py:23 | for a token with no whitespace and no `Bearer` inside, the code as written and the intended extraction give the same outcome |
| Authentication.InnerKeywordRefusesIssuedToken | accounts/authentification.py:23-27 | as written, an issued access token `xBearery` that authenticates on its own is refused when sent as `Bearer xBearery` (the mangled `xy` does not decode); the intended extraction accepts it |
| Authentication.IssuedAccessTokenAuthenticatesIntended | accounts/authentification.py:14-34 | with the intended extraction, every fresh access token without surrounding whitespace authenticates as the stored user |
| Authentication.StandardHeaderNameIsIgnored | accounts/authentification.py:15-18 | a request carrying only the standard `Authorization` header stays anonymous |

## Findings

The model keeps `Authentication.Authenticate` as written, because that is what the code does. The intended extraction sits beside it with its own end-to-end lemma.

| source | as written | input that shows it | evidently intended | confidence | as-written member | corrected member |
|---|---|---|---|---|---|---|
| accounts/authentification.py:23 | `auth_header.replace("Bearer", "")` removes every `Bearer` in the header, including any inside the token | an issued access token `xBearery` (base64url can contain these letters) sent as `Bearer xBearery`: the text checked is `xy`, which does not decode, so the request fails | remove only the leading keyword, e.g. `auth_header[len(self.keyword):].strip()` | medium; not executed | Authentication.InnerKeywordRefusesIssuedToken | Authentication.IssuedAccessTokenAuthenticatesIntended |

## Left out

- HeaderEdit.Step: the host's `onRenameColumn` is assumed to be passed. The code calls it unguarded, so without it a blur or Enter throws instead of reporting. The only call site passes just `rows` and `columns`.
- HeaderEdit.HandleBlur: same assumption as `HeaderEdit.Step`. A missing `onRenameColumn` throws a TypeError here.
- CellEdit.Step: in the full table, `meta` is always installed and `?.` guards only `meta`. So a blur with no `onRenameCell` passed throws rather than committing. The model assumes the host passes it.
- InsertZones.ColumnZoneTargets: the requested indices are modelled. A missing `onAddColumn` would make the click throw. The model assumes it is passed.
- InsertZones.RowZoneTargets: the same assumption, for `onAddRow`.
- Authentication.IssuedAccessTokenAuthenticates: proved only for tokens with no whitespace and no `Bearer` inside. A base64url token can contain those letters, and then `replace` damages it; see "## Findings".
- Authentication.BearerHeaderReachesToken: the same condition on the token, for the same reason.
- CellEdit.ValueOf: a column id containing a dot would read a nested field in the table library. The model reads a flat field.
- JSX rendering, styling, popovers, tabs, checkboxes and the expanded-row panels. They are view-only and hold no state the handlers read.
- Pointer sensing and collision detection in the drag library. The model starts from the `(active, over)` pair it reports.
- TanStack table internals: column sizes (`width || 150`), resizing, the expanded row model, and `getRowId`. `Column.width` and `Column.metadata` are carried but not interpreted.
- DragReorder.HandleDragEnd: requires both ids to be on the axis the gesture is routed to, so the -1 that `indexOf`/`findIndex` return for a missing id is not modelled. The drag library's `arrayMove` behaviour at -1 is not part of this model. The case can happen: one drag context with closest-centre collision holds both axes. A header released nearest a row makes `old.indexOf(over.id)` return -1.
- Duplicate ids. The reordering lemmas that need distinct ids say so. With duplicates, `indexOf`/`findIndex` pick the first match and dragging back need not restore the order. Rows are not guaranteed distinct ids: rows without an `id` field all get `undefined`.
- The compact widget's row insert zones. They have no `onAdd` (it is commented out), so they request nothing.
- The delete buttons. They call the host directly: the header's button passes `(header.id, index)`, the row's passes the table library's row object and its index. Neither touches the local state.
- HeaderEdit.Step: the blur a browser may fire when the input unmounts right after Enter is not modelled. Enter and blur each report once.
- Django's case-insensitive header lookup. Header names are compared exactly.
- Authentication.AuthenticateToken: a string `user_id` is treated as matching no user. The ORM would instead coerce it or raise. Issued tokens always carry an integer id.
- Authentication.AuthenticateToken: the `not payload` test is modelled, but an accepted payload always has a `type` claim, so that test never fails there.
- Jwt.CreatePayloads: "the refresh token expires later" is stated only when the second clock reading is not an hour or more before the first. The two readings are independent inputs, and clock monotonicity is not assumed.
- PyText.RemoveAll: its own contract states only length and character provenance. The left-to-right occurrence semantics is stated by `PyText.RemoveAllDrop` (an occurrence at the front is dropped) and `PyText.RemoveAllKeep` (any other first character is kept), which together fix the result for every non-empty pattern, with `PyText.RemoveAllWithoutOccurrence` for text without the pattern.
- HS256 signing and signature checking. `encode` and `decode` are parameters.
- The Django views, URL routes, models, serializers and backends.
  - `accounts/views/refresh.py` calls `create_jwt(user.id)`, while `create_jwt` reads `.id` from its argument. That mismatch lies outside this model.
- The login pages, dashboard, sidebar, layout, routing and the store setup. The store's `ducks.ts` only calls `createActions`.
