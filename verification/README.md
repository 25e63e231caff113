# Photo gallery: title derivation, folder sync and detail navigation

A Dafny model of the logic at the heart of a small photo-gallery web
application (`app/main.py`). The application keeps a `photos` table in step
with a folder of image files, derives a display title from each file name,
and links every photo's detail view to its neighbours in the gallery's
newest-first order. The model has four parts:

- **File-name titles** (`_filename_to_title`). The steps are as follows,
  with `pathlib` as in CPython 3.13 and earlier:
  - take the pathlib stem (module `PathName`);
  - replace every maximal run of `_`, `-` and `.` with one space (`Title.Collapse`);
  - strip surrounding whitespace (`Title.Strip`);
  - title-case the result (`Title.TitleCase`);
  - fall back to the raw name when nothing is left (`Title.FilenameToTitle`).
- **The extension filter** of `scan_photos_folder` (module `Extensions`). A
  name is accepted when its lower-cased pathlib suffix is one of the
  lower-cased `SUPPORTED_EXTENSIONS`.
- **Folder/table reconciliation** (`scan_photos_folder`).
  - Module `Sync` holds the two loops for any key and row type: add the
    missing keys, then delete the vanished ones, counting both.
  - Module `Reconcile` instantiates them for photos and adds the printed
    `Photo sync: +A added, -R removed` line.
  - The table is a map from file name to row. This makes the unique,
    non-null `filename` column a key by construction.
- **Detail navigation** (`get_photo_detail`, module `Detail`). It returns
  not-found, or the ids before and after the photo in the newest-first list.

Effects become values:
- The directory listing is a set of regular-file names.
- The table is a map.
- The `order_by(uploaded_at.desc())` query result is an id sequence.
- `datetime.utcnow()` is a `Timestamp` parameter.
- The printed line is an `Option<string>` result.

The add loop walks a Python `set`, whose order is arbitrary. The remove
loop walks the `db_photos` dict, which follows the query's row order. Both
loops pick their next element with `:|`, so every contract holds for any
visiting order, and for both of these orders in particular.

On navigation, the code's convention is this: "previous" is the entry at the
index before the photo, "next" the one after. The list is newest first, so
"previous" is the newer neighbour and "next" the older one. The model follows
the code and proves this orientation (`Detail.PrevIsNewerNextIsOlder`).

## Model

| member | source | states |
|---|---|---|
| PathName.LastDot | app/main.py:29 | The position found holds a dot, and no dot comes after it. None means the name has no dot at all. |
| PathName.Suffix | app/main.py:43 | The suffix is a tail of the name. It is either empty, or a dot followed by at least one non-dot character, strictly shorter than the whole name. |
| PathName.Stem | app/main.py:29 | The stem followed by the suffix gives back the name. The stem is non-empty whenever there is a suffix. |
| PathName.SuffixEmptyIff | app/main.py:29 | A name has no suffix exactly when no dot sits strictly inside it, or when it ends in a dot. |
| PathName.SuffixAt | app/main.py:43 | For an inner position k, the suffix is the tail from k exactly when k holds the last dot of the name. |
| Title.Collapse | app/main.py:31 | The output is never longer than the input. CollapseSplit, CollapseAfterRun and WordThenRun give the run-by-run behaviour of the substitution. |
| Title.CollapseNoSeparator | app/main.py:31 | No `_`, `-` or `.` survives the substitution. |
| Title.CollapseIdentity | app/main.py:31 | The substitution leaves a string unchanged exactly when it contains no separator. |
| Title.CollapseAfterRun | app/main.py:31 | A non-empty run of separators, followed by a non-separator or by nothing, becomes one space. |
| Title.CollapseSplit | app/main.py:31 | The substitution works piecewise around any character that is not a separator. |
| Title.WordThenRun | app/main.py:31 | A separator-free word followed by a maximal separator run becomes the word plus exactly one space. |
| Title.CollapseBlank | app/main.py:31 | The substituted text is all whitespace exactly when the stem holds only separators and whitespace. |
| Title.Strip | app/main.py:31 | The result has no whitespace at either end. It is the block of the input that starts after the leading whitespace. Everything after it is whitespace. |
| Title.StripEmptyIff | app/main.py:31 | Stripping leaves nothing exactly when the input is all whitespace. |
| Title.StripUnique | app/main.py:31 | Whitespace, then a trimmed core, then whitespace, strips to exactly that core. |
| Title.TitleFrom | app/main.py:31 | Only letter case changes. A letter becomes upper case exactly when the character just before it is not a letter (at the start: when the carried state is false). |
| Title.TitleCase | app/main.py:31 | Only letter case changes, and the result is title-shaped. |
| Title.TitleCaseIff | app/main.py:31 | A string is the title-cased input if and only if it differs from the input only in case and is title-shaped. This is a reference characterisation in both directions. |
| Title.SameFoldKeepsNonLetters | app/main.py:31 | Changing case leaves every non-letter character as it was. |
| Title.DerivedTitle | app/main.py:29-31 | The title before the fallback is never longer than the stem. DerivedTitleEmptyIff and DerivedTitleWellFormed give its other properties. |
| Title.DerivedTitleEmptyIff | app/main.py:29-32 | The derived title is empty exactly when the stem holds only separators and whitespace, i.e. exactly when the fallback applies. |
| Title.DerivedTitleWellFormed | app/main.py:29-31 | A derived title has no `_`, `-` or `.`, no surrounding whitespace, and title shape. |
| Title.FilenameToTitle | app/main.py:27-32 | A non-empty name gives a non-empty title. A blank stem gives the raw name back. Otherwise the title has no separators, is trimmed and is title-shaped. |
| TitleExamples.DocstringExample | app/main.py:28 | `my_photo_2024.jpg` becomes `My Photo 2024`. |
| TitleExamples.HyphenExample | app/main.py:29-31 | `my_photo-2024.jpg` also becomes `My Photo 2024`: a hyphen separates words like an underscore, and only the extension is dropped. |
| TitleExamples.FallbackExample | app/main.py:32 | `___.png` keeps its raw name as the title. |
| TitleExamples.DigitStartsWord | app/main.py:31 | `2nd` title-cases to `2Nd`, because a digit is not a letter. |
| Extensions.LoweredExtensions | app/main.py:43 | Lower-casing the nine listed extensions leaves exactly the five: `.jpg .jpeg .png .webp .gif`. |
| Extensions.SuffixOfEnding | app/main.py:43 | A name that ends, in any case, with a single extension has that extension as its lower-cased suffix. |
| Extensions.IsSupported | app/main.py:43 | An accepted name has a suffix and a non-empty stem before it. SupportedIff characterises acceptance in both directions. |
| Extensions.SupportedIff | app/main.py:40-44 | The filter accepts a name if and only if the name ends, in any case, with one of the five extensions, and something precedes that extension. |
| Extensions.UpperCaseGifAccepted | app/main.py:43 | `sunset.GIF` is accepted, although only `.gif` is listed. |
| Extensions.BareExtensionRejected | app/main.py:43 | A bare `.jpg` has no suffix and is rejected. |
| Extensions.LastExtensionCounts | app/main.py:43 | `photo.jpg.txt` is rejected: only the last extension counts. |
| Sync.Reconciled | app/main.py:50-66 | The reference table has exactly the present keys. ReconciledShape fixes its rows, and Sync.Reconcile proves the two loops produce it. |
| Sync.ReconciledShape | app/main.py:50-66 | The reference table has exactly the present keys. It keeps old rows for keys it already had and creates rows for the rest. |
| Sync.AddMissing | app/main.py:50-59 | After the add loop, the keys are the old keys plus the present ones. Old rows are untouched, each new key gets the created row, and the count is the number of present keys the table lacked. |
| Sync.GrownCount | app/main.py:50-59 | A key set that grew by exactly the missing present keys grew by their number. |
| Sync.RemoveVanished | app/main.py:62-66 | After the remove loop, exactly the previously known keys that are no longer present are gone. Surviving rows are untouched, and the count is the number of vanished keys. |
| Sync.ShrunkCount | app/main.py:62-66 | A key set that lost exactly the vanished keys shrank by their number. |
| Sync.Reconcile | app/main.py:47-66 | Both loops together yield the reference table. `added` counts the new keys and `removed` counts the dropped ones. |
| Sync.ReconcileIdempotent | app/main.py:47-66 | Reconciling a reconciled table against the same keys changes nothing, whatever rows would be created. |
| Reconcile.DiskFiles | app/main.py:40-44 | `disk_files` is a subset of the listing, and every name in it has a non-empty stem. DiskFilesMembers characterises membership in both directions. |
| Reconcile.NewPhoto | app/main.py:53-57 | A new row carries a title, which is non-empty for a non-empty name, and the clock reading as `uploadedAt`. Every other column is empty. |
| Reconcile.DiskFilesMembers | app/main.py:40-44 | A listed file is taken for a photo exactly when its name ends, in any case, with one of the five image extensions. |
| Reconcile.ScanPhotosFolder | app/main.py:35-70 | See the four points after this table. |
| Reconcile.SyncMessage | app/main.py:69-70 | A line is printed exactly when something was added or removed. |
| Reconcile.SyncMessageInjective | app/main.py:69-70 | The printed line determines both counts: equal lines mean equal counts. |
| Reconcile.FieldsDetermined | app/main.py:70 | Two digit fields, each closed by text that starts with a non-digit, read back unambiguously. |
| Reconcile.RescanIsIdempotent | app/main.py:35-70 | A second scan of an unchanged directory adds 0, removes 0, leaves the table as it was and prints nothing, whatever the clock says. |
| Numerals.Decimal | app/main.py:70 | A count prints as a non-empty string of digits with no leading zero. |
| Numerals.DecimalRoundTrip | app/main.py:70 | Reading the printed digits back gives the count. |
| Numerals.DecimalInjective | app/main.py:70 | Different counts print differently. |
| Numerals.DigitsThenNonDigit | app/main.py:70 | A run of digits followed by a non-digit splits off in only one way. |
| Detail.IndexOf | app/main.py:115-118 | The position of the first occurrence of the id, or -1 exactly when the id is not in the list. |
| Detail.PhotoDetail | app/main.py:104-121 | See the four points after this table. |
| Detail.NeighboursAt | app/main.py:115-121 | In a list without repeats, the photo at position i links to positions i-1 and i+1 where they exist, and to nothing otherwise. |
| Detail.NextThenPrev | app/main.py:120-121 | In a list without repeats, the photo that a "next" link leads to has a "previous" link back. |
| Detail.PrevThenNext | app/main.py:120-121 | In a list without repeats, the photo that a "previous" link leads to has a "next" link back. |
| Detail.NextPrevInverse | app/main.py:120-121 | In a list without repeats, b is the "next" of a exactly when a is the "previous" of b. |
| Detail.PrevIsNewerNextIsOlder | app/main.py:111-121 | Over a list ordered newest first: "previous" was uploaded no earlier than the photo, and "next" no later. |
| Detail.DetailExamples | app/main.py:107-121 | Worked cases: a middle, first and last photo; a lone photo; a photo missing from the list; an id missing from the table. |

`Reconcile.ScanPhotosFolder` states four things:
- The table's files are exactly the accepted files on disk.
- Rows of files still on disk are untouched.
- Each new file gets one row, with the derived title and the clock reading.
- `added` is the number of accepted disk files not in the table, and `removed` the number of table files not on disk. The message matches those counts.

`Detail.PhotoDetail` states four things:
- The result is not-found exactly when the id is not in the table.
- "Previous" exists exactly when the id is listed and is not first.
- "Next" exists exactly when the id is listed before the last position.
- Each link is a neighbour of the id in the list. When the id is unlisted, or the list has one element, both links are absent.

## Left out

- Directory effects (`mkdir` and `iterdir` at app/main.py:37 and 42): the listing is passed in as a set of entry names.
- `is_file` (app/main.py:43): the listing holds regular files only.
- Entry names are modelled as plain strings without `/`. pathlib's handling of directory separators in `Path(filename)` is outside the model, because directory entries have no separators.
- The database session, `db.add`, `db.delete` and the commit at app/main.py:68: the table is a value, so the scan is all-or-nothing.
- Query ordering at app/main.py:112 is an input sequence. Ties in `uploaded_at` come in whatever order that sequence has.
- Reconcile.ScanPhotosFolder: the source reads `datetime.utcnow()` once per new row, while the model uses one clock reading per scan. New rows added in one scan therefore carry the same `uploadedAt`.
- Store-assigned ids: `Reconcile.Photo` has no `id`, because ids are assigned by the database. `Detail` takes ids directly.
- `print` at app/main.py:70: the line is returned as `Option<string>` instead of written to standard output.
- Unicode in `str.strip` and `str.title`: only ASCII whitespace (tab through carriage return, 0x1C-0x1F, space) and ASCII letters are modelled. Python also strips and cases non-ASCII characters.
- The regular-expression engine: `re.sub(r"[_\-\.]+", " ", ...)` is modelled by the direct run-collapsing function `Title.Collapse`, with lemmas that every maximal run becomes one space.
- Detail.PhotoDetail: the 404 response body and the template rendering are reduced to the `NotFound`/`Found` outcome.
- `pathlib` from CPython 3.14 on: there a trailing single dot counts as a suffix and leading dots are skipped before the search, so a name such as `..jpg` would be rejected. The model follows the rule of 3.13 and earlier, under which `..jpg` is accepted.
- FastAPI routes, Jinja templates, the startup hook and static mounting (app/main.py:73-101, 123-139): web plumbing with no logic of its own.
- `app/seed_data.py`: a one-off loader of fixed example rows.
- `get_tags`/`set_tags` (app/models.py:22-33): JSON encoding is not modelled. `tags` is the decoded list, which is empty for a new row.
