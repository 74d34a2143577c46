# duck-ui application state, in Dafny

duck-ui is a small browser SQL IDE built on Reflex and DuckDB. The only logic
with rules of its own is the `AppState` class of `duck_ui/duck_ui.py`. This
project models that class and proves what its two parts do:

- **File browser.** `current_path` and `refresh_trigger` are the state. The
  listing of the current path drops hidden names (leading `.`). It sorts the
  names with `sorted(...)`, then stable-sorts the entries by
  `(not is_dir, name.lower())`. A missing directory resets the path to `"."`.
  `..` moves to the POSIX `dirname`; any other name moves to the POSIX `join`.
  The clipboard path is the same `join`.
- **Query runner.** `is_loading`, `error_message` and `result_df` are updated
  around one run of the engine on `sql_query`.

Files:

- `paths.dfy` (module `Paths`): `os.path.join` and `os.path.dirname` under
  posixpath rules, as string functions, with the round-trip lemma.
- `sorting.dfy` (module `Sorting`): Python's stable list sort, modelled as
  insertion sort over a "does not sort after" relation. It is proved sorted
  and a permutation. A lemma shows a sorted permutation is unique under a
  total order.
- `listing.dfy` (module `Listing`): entries, Python's string order, the sort
  key of the re-sort, the hidden-name filter, and the proof that the stable
  re-sort of a name-sorted list gives the full order
  (directories, lower-cased name, plain name).
- `query.dfy` (module `Query`): the result table, the engine outcome and the
  error text.
- `app_state.dfy` (module `DuckUi`): the class `AppState` with the source's
  fields and methods, plus the sidebar's `".."` guard.

Inputs taken as parameters instead of I/O:

- the directory listing (`os.listdir` plus `os.path.isdir`) is a `DirListing`
  value: either `NotFound`, or the reported names and the set of those that
  are directories;
- the engine is a function from SQL text to an `Outcome`, either `Rows(table)`
  or `Failed(message)`. `RunQuery` applies it once, to `sqlQuery`.
- the clipboard receives the string that `CopyToClipboard` returns.

Only `FileNotFoundError` resets the path (duck_ui/duck_ui.py:83); other
listing failures, such as permission or not-a-directory errors, propagate.

## Model

| member | source | states |
|---|---|---|
| `Paths.LastSlash` | duck_ui/duck_ui.py:99 | The index of the last `/` in the path, or -1 when there is none: no `/` occurs after it. |
| `Paths.RStripSlashes` | duck_ui/duck_ui.py:99 | The result is a prefix of the input that does not end in `/`. Only slashes were removed after it. |
| `Paths.Join` | duck_ui/duck_ui.py:102 | `os.path.join(p, n)` always ends with `n`. When `n` is relative, the result starts with `p`. |
| `Paths.Dirname` | duck_ui/duck_ui.py:99 | `os.path.dirname(p)` is a prefix of `p`. It is empty when `p` has no `/`. It does not end in `/` unless it consists of slashes only. |
| `Paths.JoinIsDot` | duck_ui/duck_ui.py:102 | `join(p, n)` is `"."` if and only if `p` is empty and `n` is `"."`. |
| `Paths.DirnameOfJoin` | duck_ui/duck_ui.py:97-102 | For a name without `/` and a path that does not end in `/` (or is all slashes), `dirname(join(p, n)) == p`. Going into an entry and then up restores the path. |
| `Sorting.Insert` | duck_ui/duck_ui.py:81 | Inserting into a sorted sequence keeps it sorted and adds exactly the one element. |
| `Sorting.InsertPlaces` | duck_ui/duck_ui.py:81 | Insert puts the element right after the elements that sort strictly before it, and so ahead of every element it ties with. Since `Sort` inserts earlier input elements into the sorted rest, ties keep their input order: the sort is stable. |
| `Sorting.Sort` | duck_ui/duck_ui.py:73 | Python's sort returns an ordered permutation of its input. |
| `Sorting.SortedUnique` | duck_ui/duck_ui.py:73-81 | Under a total order, two sorted sequences with the same elements are equal. It covers `sorted(...)` on names, where only equal strings tie. It does not cover the key sort, whose key lets distinct entries tie; for that, see `StableSort` and `ListingUnique`. |
| `Listing.Hidden` | duck_ui/duck_ui.py:75 | A name is hidden when it starts with `.`. |
| `Listing.NameLE` | duck_ui/duck_ui.py:73 | Python's `<=` on strings: lexicographic by code point, a proper prefix first. |
| `Listing.LowerChar` | duck_ui/duck_ui.py:81 | ASCII lower case of one character: the result is never an ASCII capital, and other characters are unchanged. |
| `Listing.Lower` | duck_ui/duck_ui.py:81 | `name.lower()`, restricted to ASCII: same length, no ASCII capitals. |
| `Listing.KeyLE` | duck_ui/duck_ui.py:81 | The re-sort's key `(not is_dir, name.lower())` compared as a tuple: directories first, then lower-cased names. |
| `Listing.ListingLE` | duck_ui/duck_ui.py:73-81 | The order of the finished listing: directories first, then lower-cased name, then plain name. |
| `Listing.NameLEIsTotalOrder` | duck_ui/duck_ui.py:73 | Python's string comparison is total, transitive and antisymmetric. |
| `Listing.KeyLEIsTotalPreorder` | duck_ui/duck_ui.py:81 | The key `(not is_dir, name.lower())` gives a total preorder, so the re-sort is well defined. |
| `Listing.ListingLEIsTotalOrder` | duck_ui/duck_ui.py:81 | Directory flag, then lower-cased name, then plain name is a total order on entries. |
| `Listing.Visible` | duck_ui/duck_ui.py:72-79 | Every entry the filter loop appends has a listed, non-hidden name and that name's own is-directory flag. |
| `Listing.VisibleCounts` | duck_ui/duck_ui.py:72-79 | The loop adds and drops nothing. Each entry occurs exactly as often as its name is listed, provided the name is not hidden and the flag is its own; otherwise the entry never occurs. |
| `Listing.VisibleSorted` | duck_ui/duck_ui.py:73-79 | Filtering a name-sorted listing keeps the entries in plain name order. |
| `Listing.StableInsert` | duck_ui/duck_ui.py:81 | Inserting an entry whose name sorts before all names already placed keeps the full listing order. |
| `Listing.StableSort` | duck_ui/duck_ui.py:73-81 | The stable key sort of a name-sorted list is in full listing order. Ties between equal lower-cased names keep plain string order. |
| `Listing.ListingUnique` | duck_ui/duck_ui.py:64-82 | Two sequences that are both the listing of the same names and flags are equal. |
| `Listing.ListingMembers` | duck_ui/duck_ui.py:72-79 | An entry is in the listing if and only if its name is listed, not hidden and paired with its own is-directory flag. |
| `Listing.ListedOnce` | duck_ui/duck_ui.py:72-79 | When the directory reports each name once, no name appears twice in the listing. |
| `Listing.ListingOrder` | duck_ui/duck_ui.py:81 | In a listing every directory comes before every file. Within a group, lower-cased names never decrease. Names that lower-case alike keep plain string order. |
| `Query.FailureMessage` | duck_ui/duck_ui.py:123 | The error text is `"Error al ejecutar la consulta: "` followed by the engine's message verbatim, so it is never empty. |
| `DuckUi.ShowsParentEntry` | duck_ui/duck_ui.py:193 | The sidebar offers `".."` exactly when the current path is not `"."`. |
| `DuckUi.EnteringShowsParent` | duck_ui/duck_ui.py:193 | After entering any name other than `"."`, the sidebar offers `".."`. |
| `DuckUi.AppState.constructor` | duck_ui/duck_ui.py:46-62 | The initial field values: the welcome query, an empty table, not loading, no error, path `"."` and counter 0. |
| `DuckUi.AppState.DirectoryContents` | duck_ui/duck_ui.py:64-85 | On a found directory, the path is unchanged and the result is the listing of its names (`IsListingOf`: listing order and exact counts). On `FileNotFoundError`, the path becomes `"."` and the result is empty. No other field changes. |
| `DuckUi.AppState.RefreshFileList` | duck_ui/duck_ui.py:87-91 | `refreshTrigger` grows by exactly one and no other field changes. |
| `DuckUi.AppState.ChangeDirectory` | duck_ui/duck_ui.py:93-102 | `".."` sets the path to `dirname` of the old path; any other name sets it to `join(old, name)`. No other field changes. |
| `DuckUi.AppState.CopyToClipboard` | duck_ui/duck_ui.py:104-109 | Returns `join(currentPath, name)`, which extends the current path for a relative name. The state is unchanged. |
| `DuckUi.AppState.RunQuery` | duck_ui/duck_ui.py:111-125 | On success, the result is the engine's table and the error is empty. On failure, the result is the empty table (cleared before the attempt) and the error is the prefixed message. `isLoading` is false afterwards. `sqlQuery` and the browser fields are unchanged. |
| `DuckUi.EnterThenLeave` | duck_ui/duck_ui.py:97-102 | `ChangeDirectory(name)` followed by `ChangeDirectory("..")` restores `currentPath`, for a slash-free name other than `".."` and a path not ending in `/` (or all slashes). For example, `"."` becomes `"./docs"` and then `"."` again. |

## Left out

- The UI (`file_explorer_item`, `sidebar`, `main_content`, `index`, `app`), the style dictionaries and `rxconfig.py` are presentation and framework configuration with no logic.
- DuckDB's SQL semantics and pandas DataFrames are foreign libraries. The engine is a function parameter and a table is a plain value.
- `os.listdir` and `os.path.isdir` are I/O. Their results are the `DirListing` input. Errors other than `FileNotFoundError` propagate in the source and have no counterpart in the model.
- `DuckUi.AppState.DirectoryContents`: lower-casing is ASCII only. Python's `str.lower()` on other Unicode letters is not modelled.
- `Paths.Join` and `Paths.Dirname`: only POSIX rules are modelled; Windows (`ntpath`) rules are left out, as are bytes and path-like arguments.
- `Sorting.Sort`: Python sorts with Timsort; the model uses a stable insertion sort (`Sorting.InsertPlaces`). For `sorted(...)` on names, `Sorting.SortedUnique` shows any sort gives the same result. For the key sort, `Listing.StableSort` shows the model's stable sort of a name-sorted list is in `ListingLE` order, and `Listing.ListingUnique` shows only one permutation is. That Timsort's output is also in that order follows from its stability; this step is not proved.
- Reflex's reactive recomputation is left out. So are the `refresh_trigger` dependency read at line 70 and overlapping or concurrent `run_query` calls. With no concurrency, the intermediate `is_loading == true` is never observed, and the contract states only the final state.
- The clipboard effect of `rx.set_clipboard` is left out; the model returns the path handed to it.
- `DuckUi.AppState.RunQuery`: the engine is an abstraction, a function of the SQL text. The real engine is not: a fresh in-memory connection isolates only the catalog, and a query can still read files or call `random()` or `now()`. The model makes no claim that running a query twice gives the same table.
- `con.close()` raising after `result_df` was assigned is not modelled: a run either yields a table or fails as a whole.
