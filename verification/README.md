# mis-cuentas registries in Dafny

This project models the two small registries of the *mis-cuentas* expense
tracker:

- `src/utils/mediosPago.js` keeps payment methods as `{id, nombre, icono}`.
- `src/utils/categorias.js` keeps spending categories as `{id, nombre, color}`.

Each registry is one JSON array kept under a fixed browser-storage key. The
first read of an empty key seeds the array with defaults and writes them back.
Add, delete and edit each re-read the array (which seeds it if nothing is
stored); when they succeed they change it and write it back whole, and when
they refuse they write nothing beyond that seeding.
A record added later gets an id that is a slug derived from its display name;
the seeded ids were chosen by hand, and two of them (`debito`, `credito`) are
not the slugs of their names. Two names with the
same slug collide, and the add is refused. The five seeded payment methods are
protected: delete and edit refuse their ids. Categories have no such
protection.

The Dafny modules follow that structure:

- `Slugs` (`slug.dfy`) holds the five-stage id derivation. The stages are
  lower case, canonical decomposition, removal of combining marks U+0300 to
  U+036F, whitespace runs becoming `-`, and removal of everything outside
  `[a-z0-9-]`. The module also has lemmas on how each stage behaves.
- `Registry` (`registry.dfy`) holds the logic both files share. It takes a
  `Config` with the defaults, the default attribute and the protected ids.
  The storage key is a `Store`: `None` while nothing has been written, and
  `Some(items)` afterwards. Reading returns the list together with the store
  it leaves behind; add, delete and edit return an `Outcome` together with
  that store. The module also holds lemmas about any sequence
  of calls.
- `PaymentMethods` (`payment_methods.dfy`) and `Categories`
  (`categories.dfy`) instantiate `Registry` with each file's constants. They
  restate the contracts in each registry's own terms.

The stored value is tested with JavaScript truthiness, and a stored `"[]"` is a
non-empty string. So an emptied list stays empty and is not reseeded: the
model returns `Some([])` as it is.

In the edit operations, `nuevoNombre || actual` keeps the current value when the
new one is omitted or empty. In the model, `None` stands for an omitted value
and `Some("")` for an empty one, and both keep the current value.

The identifier rule is sometimes summarised as decompose, strip accents, then
lower-case. The code lower-cases first (`mediosPago.js` line 30), and the model
follows the code.

## Model

| member | source | states |
|---|---|---|
| Slugs.Lower | src/utils/mediosPago.js:30 | `toLowerCase` on one character leaves no ASCII capital, leaves slug characters and whitespace as they are, and neither creates nor removes whitespace or combining marks |
| Slugs.Decompose | src/utils/mediosPago.js:31 | NFD of one character is the character itself or, for a precomposed Latin-1 letter, an ASCII base letter followed by one combining mark |
| Slugs.Slug | src/utils/mediosPago.js:30-34 | every character of a derived id is in `[a-z0-9-]`, and a name that already consists of such characters is its own id |
| Slugs.SlugIdempotent | src/utils/mediosPago.js:30-34 | deriving an id from an id gives the same id |
| Slugs.KeepSlugCharsSpec | src/utils/mediosPago.js:34 | the last stage leaves only `[a-z0-9-]` and leaves a string of such characters unchanged; it removes every other character and keeps each slug character as often as the input has it |
| Slugs.StripMarksSpec | src/utils/mediosPago.js:32 | after `replace(/[\u0300-\u036f]/g, '')` no combining mark U+0300 to U+036F is left, and text without one is unchanged; the marks are removed, not replaced, and every other character is kept as often as the input has it |
| Slugs.SlugsAreFixed | src/utils/mediosPago.js:30-33 | lower-casing, decomposition, mark removal and hyphenation all leave a string of `[a-z0-9-]` characters unchanged |
| Slugs.HyphenateSpec | src/utils/mediosPago.js:33 | after `replace(/\s+/g, '-')` no whitespace is left, and whitespace-free text is unchanged |
| Slugs.HyphenateRun | src/utils/mediosPago.js:33 | a maximal whitespace run between two pieces of text becomes exactly one `-` |
| Slugs.FoldKeepsSpaces | src/utils/mediosPago.js:30-32 | lower-casing, decomposition and mark removal neither create nor remove whitespace |
| Slugs.FoldAppend | src/utils/mediosPago.js:30-32 | the first three stages work character by character, so they distribute over concatenation |
| Slugs.SlugSplitsAtRun | src/utils/mediosPago.js:30-34 | splitting a name at a whitespace run splits its id at one hyphen into the ids of the two parts |
| Slugs.SlugJoinsWords | src/utils/mediosPago.js:30-34 | two whitespace-free words joined by any whitespace run give the two words' ids joined by one `-` |
| Slugs.AsciiWordSlug | src/utils/mediosPago.js:30-34 | the id of a word of ASCII letters is that word in lower case |
| Slugs.SlugJoinsThreeWords | src/utils/mediosPago.js:30-34 | three whitespace-free words joined by single spaces give their ids joined by `-`, when the middle word does not fold to nothing |
| Slugs.SlugOfAsciiPrefix | src/utils/mediosPago.js:30-34 | the id of a name that starts with a word of ASCII letters starts with that word in lower case, whatever follows |
| Slugs.SlugExample | src/utils/mediosPago.js:30-34 | "Café Con Leche" has the id `cafe-con-leche` |
| Registry.IndexOf | src/utils/mediosPago.js:72 | `findIndex` gives -1 exactly when no record has the id, and otherwise the first position holding it |
| Registry.RemoveId | src/utils/mediosPago.js:61 | `filter(id !== …)` drops every record with the id, keeps each other record as often as it occurred, in its order, and leaves a list without the id as it was |
| Registry.List | src/utils/mediosPago.js:4-23 | a missing key yields the defaults and stores them; a stored list, even an empty one, is returned unchanged |
| Registry.ListIdempotent | src/utils/mediosPago.js:4-23 | reading twice gives what reading once gives |
| Registry.NewRecord | src/utils/mediosPago.js:26-42 | a new record carries the slug of its name, the name, and the given attribute or the registry's default |
| Registry.Add | src/utils/mediosPago.js:26-49 | the add is refused exactly when the slug is already an id, and the store then holds the listed items; otherwise the new record is appended, every earlier record is kept in place, and distinct ids stay distinct |
| Registry.Delete | src/utils/mediosPago.js:52-67 | the delete is refused exactly for a protected id; any other id succeeds and leaves the old list with exactly the records of that id removed, in order, with distinct ids staying distinct |
| Registry.Edit | src/utils/mediosPago.js:70-95 | an absent id is reported as not found before a protected one is refused; a successful edit rewrites only the first record with the id, keeps its id, keeps each old value whose replacement is omitted or empty, and changes no other position |
| Registry.Apply | src/utils/mediosPago.js:4-95 | after any call the storage key holds a list |
| Registry.RemoveIdOfAppended | src/utils/mediosPago.js:43-61 | filtering out the id of a record appended to a list that lacked it gives back the list |
| Registry.AddThenDeleteRestores | src/utils/mediosPago.js:26-67 | deleting the record just added undoes the add, when its id is not protected |
| Registry.DeleteThenAddSucceeds | src/utils/mediosPago.js:36-61 | once the id a name slugs to is deleted, adding the name is accepted and creates the record |
| Registry.EmptyEditChangesNothing | src/utils/mediosPago.js:84-89 | an edit with no new name and an empty new attribute reports success and leaves the list as it was |
| Registry.ApplyKeepsUniqueIds | src/utils/mediosPago.js:36-39 | no single call makes two records share an id |
| Registry.RunKeepsUniqueIds | src/utils/mediosPago.js:36-39 | no sequence of calls makes two records share an id |
| Registry.ApplyKeepsProtected | src/utils/mediosPago.js:52-95 | a listed record with a protected id is still listed, unchanged, after any call |
| Registry.RunKeepsProtected | src/utils/mediosPago.js:52-95 | a listed record with a protected id survives every sequence of calls unchanged |
| Registry.DeletingEveryIdEmpties | src/utils/categorias.js:57-65 | deleting unprotected ids that cover every listed record leaves an empty stored list, not a reseeded one |
| PaymentMethods.List | src/utils/mediosPago.js:4-23 | a fresh store yields the five default methods with distinct ids; a stored list is returned as it is |
| PaymentMethods.Add | src/utils/mediosPago.js:26-49 | a name whose slug is taken is refused; otherwise `{slug, name, icon}` is appended, with the icon defaulting to `credit-card` |
| PaymentMethods.Delete | src/utils/mediosPago.js:52-67 | the five default ids are refused and the list is kept; any other id succeeds, present or not, and removes exactly its records |
| PaymentMethods.Edit | src/utils/mediosPago.js:70-95 | an id the list lacks is not found, even a default one; a listed default id is refused; otherwise only the first record with the id is rewritten |
| PaymentMethods.DefaultsCannotBeDeleted | src/utils/mediosPago.js:55-59 | deleting any default method is refused, and the method stays listed |
| PaymentMethods.DefaultsAlwaysPresent | src/utils/mediosPago.js:52-95 | from a fresh store, every default method is still listed, unchanged, after any sequence of calls |
| PaymentMethods.IdsAlwaysUnique | src/utils/mediosPago.js:36-39 | from a fresh store, no sequence of calls yields two methods with one id |
| PaymentMethods.AddingDefaultNameFails | src/utils/mediosPago.js:16-39 | adding "Otro" to a fresh store is refused, because it slugs to the seeded id `otro` |
| PaymentMethods.ReaddingCardNameIsAccepted | src/utils/mediosPago.js:12-13 | the two card methods' names, in both the as-written and the corrected spelling, do not slug to their seeded ids, so adding either name to a fresh store seeded with that spelling is accepted |
| PaymentMethods.CardNameIsNew | src/utils/mediosPago.js:11-39 | a name starting with "Ta" has an id starting with `ta`, which no seeded id does, so adding it to a fresh store is accepted |
| PaymentMethods.EditReportsNotFoundFirst | src/utils/mediosPago.js:72-82 | editing a default id in an empty list reports not-found, not protection |
| PaymentMethods.SeedNamesAsWritten | src/utils/mediosPago.js:12-13 | the card names as written hold the text `u00e9` where an accented letter belongs; ids and icons agree with the corrected list |
| PaymentMethods.SeedNamesCorrected | src/utils/mediosPago.js:11-17 | the corrected card names hold `é`, and the seeded ids are exactly the protected ids, in order, and distinct |
| Categories.List | src/utils/categorias.js:4-28 | a fresh store yields the ten default categories with distinct ids; a stored list, even an empty one, is returned as it is |
| Categories.Add | src/utils/categorias.js:31-54 | a name whose slug is taken is refused; otherwise `{slug, name, colour}` is appended, with the colour defaulting to `#6b7280` |
| Categories.Delete | src/utils/categorias.js:57-65 | the delete always succeeds, on default ids too, and removes exactly the records with the id |
| Categories.Edit | src/utils/categorias.js:68-87 | an absent id is not found; otherwise only the first record with the id is rewritten, default or not |
| Categories.AddingDefaultNameFails | src/utils/categorias.js:21-44 | "Otros" is refused while the seeded `otros` is listed, and accepted once it was deleted |
| Categories.DeletingAllDefaultsLeavesEmpty | src/utils/categorias.js:4-65 | after the ten defaults are deleted from a fresh store, reading gives the empty list, not the defaults again |
| Categories.IdsAlwaysUnique | src/utils/categorias.js:41-44 | from a fresh store, no sequence of calls yields two categories with one id |

## Left out

- Browser storage and JSON: `localStorage.getItem`/`setItem` and `JSON.parse`/`JSON.stringify` become the `Store` value. A corrupt stored string, which makes `JSON.parse` throw, is not modelled.
- The human-readable `mensaje` strings and the `{exito, …}` result objects become the `Outcome` constructors.
- Concurrent writes from other tabs are not modelled; each call is atomic.
- Slugs.Lower: the lower-case table covers ASCII and the Latin-1 capitals only. Special mappings such as `İ` to two characters, and capitals of other scripts, are left out, because the names these registries hold are Spanish.
- Slugs.Decompose: the decomposition table covers ASCII and Latin-1 only. Canonical reordering of several combining marks is not modelled, because every combining mark is removed by stage 3 (U+0300 to U+036F) or stage 5 (any other).
- Arguments that are not strings are not modelled: JavaScript allows them, and `nombre.toLowerCase()` then throws. The falsy non-string edit values `null`, `0` and `false` are left out for the same reason; among strings only `""` is falsy, and the model covers it.
- An explicit `null` icon or colour passed to add is stored as given in the source; the model has only the omitted and string cases.
- PaymentMethods.List: the seeded card names are the corrected "Tarjeta de Débito" and "Tarjeta de Crédito", not the `u00e9` spelling of lines 12-13 (see "## Findings"); List, Add, Delete, Edit and every lemma over sequences of calls use the corrected list. Ids, icons and order are as written, and `PaymentMethods.ReaddingCardNameIsAccepted` also covers the as-written spelling.
- Registry.Edit: fields beyond `id`, `nombre` and the attribute, which the spread `...actual` would copy, are not modelled. Records have exactly three fields.
- Categories: the `Config` of the category registry has no protected ids. The protected branches of `Registry.Delete` and `Registry.Edit` therefore never fire for categories, as in the source, which has no such check.

## Findings

| source | as written | input that shows it | evidently intended | confidence | as-written member | corrected member |
|---|---|---|---|---|---|---|
| src/utils/mediosPago.js:12-13 | the seeded names are `'Tarjeta de Du00e9bito'` and `'Tarjeta de Cru00e9dito'`: the `é` escape lost its backslash | the first `obtenerMediosPago()` on an empty store lists "Tarjeta de Du00e9bito" | "Tarjeta de Débito" and "Tarjeta de Crédito" | medium, not executed; the file's comments (`Funciu00f3n`) show the same loss, so the text may have been damaged in storage rather than in authoring | PaymentMethods.SeedNamesAsWritten | PaymentMethods.SeedNamesCorrected |
