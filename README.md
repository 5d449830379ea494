# Kyrix agent search: a verified model of the data engine and the dossier

This is a Dafny model of the data side of the Kyrix Intelligence Command agent search app (`app.py`), which is a Streamlit application. The app reads one CSV export of real-estate agents whose first rows carry a two-level header:

- a **group row** of section labels ("General Info", "Enriched Contacts", ...), written only where a section starts;
- a **header row** of field names.

From these the app derives:

- `group_map`, a dictionary from field to group, built by forward-filling each label across the blank cells after it;
- `all_groups`, the distinct groups in first-seen order.

It also does the following:

- cleans the data rows: it drops rows without a firm name and rows that repeat banner text, and rewrites ratings as stars;
- filters the rows by a case-insensitive search on one column;
- renders one agent's profile twice: as a plain-text dossier for download, and as an on-screen card layout with one panel per group.

The modules, in dependency order:

| file | module | what it holds |
|---|---|---|
| `cells.dfy` | `Cells` | `Option`, `Result`, a `Cell` (a string or pandas' NaN) and its `str()` |
| `text.dfy` | `Text` | Python's `strip`, ASCII `lower`/`upper`, substring search |
| `seqs.dfy` | `Seqs` | distinct-in-first-seen-order, order-preserving filter, subsequence |
| `group_map.dfy` | `GroupMaps` | `group_map` as an insertion-ordered association list |
| `header_taxonomy.dfy` | `HeaderTaxonomy` | the header parse loop and its specification |
| `records.dfy` | `Records` | banner filter, rating map, search mask, profile pick |
| `dossier.dfy` | `Dossier` | the text export loop, the card layout, and the "each field once" theorems |

The core has three loops:

- the header scan of `load_data` (`app.py:80-90`);
- the nested loops of `generate_dossier_text` (`app.py:107-114`);
- the nested loops of the profile view (`app.py:183-203`).

The first two build a value step by step. They are modelled as methods with loop invariants: `HeaderTaxonomy.ParseHeaders` and `Dossier.GenerateDossierText`. Each method is proved equal to a recursive specification function, and the properties are proved as lemmas about those functions.

The third loop only emits markup, card by card. It is modelled as the values it shows: `Dossier.ScreenPanels`, `Dossier.GroupCards` and `Dossier.RegularCards` give the panels and cards, in display order. The rest of the core is expression-level pandas and list code, so it is modelled as functions.

Helper methods take each loop's per-step work. `ReadGroupCell` and `FileHeader` handle one column of the header scan. `AppendSection` and `AppendFieldLines` are the outer and inner loop bodies of the dossier export. They do exactly what the inline code does.

Two details of the code are kept as written:

- the "nan" label test at `app.py:82` is made on the unstripped label, so a label `" nan "` does open a group, named `nan`;
- the header test at `app.py:89` is case-sensitive.

## Model

| member | source | states |
|---|---|---|
| `Text.StripTrims` | app.py:82-83 | `strip()` is empty exactly for an all-whitespace label; otherwise it starts and ends on a non-space |
| `Seqs.DistinctSpec` | app.py:85-86 | the "append if not yet listed" list has no repeats, holds exactly the elements seen, and is no longer than the input |
| `Seqs.DistinctFirstSeenOrder` | app.py:85-86 | an element listed earlier was first seen earlier |
| `Seqs.DistinctHead` | app.py:85-86 | the first element seen is listed first |
| `Seqs.Keep` | app.py:94-95 | a boolean-mask selection keeps row order, and keeps each row exactly as often as the input has it when the mask holds, otherwise never |
| `GroupMaps.Lookup` | app.py:90 | a key has a value exactly when it is a key of the dictionary, and that value is stored with it |
| `GroupMaps.Put` | app.py:90 | `m[k] = v` appends a new key, keeps an existing key in place, and then maps `k` to `v` |
| `GroupMaps.PutOthers` | app.py:90 | `m[k] = v` leaves every other key's value unchanged |
| `GroupMaps.PutEntries` | app.py:90 | `m[k] = v` stores no pair other than `(k, v)` and the pairs already there |
| `GroupMaps.LookupStored` | app.py:110 | with distinct keys, a pair `(c, g)` is among `items()` exactly when `c` maps to `g` |
| `GroupMaps.FieldsOf` | app.py:110 | the fields of a group are the keys mapped to that group, in dictionary order |
| `GroupMaps.FieldsOfNoDup` | app.py:110 | a group's field list has no repeats |
| `HeaderTaxonomy.ReadGroupCell` | app.py:81-83 | a usable group cell makes its stripped label the current group; any other cell leaves it unchanged |
| `HeaderTaxonomy.FileHeader` | app.py:88-90 | a non-blank, non-"nan" stripped header is filed under the current group; other headers change nothing; key distinctness is kept |
| `HeaderTaxonomy.ParseHeaders` | app.py:76-90 | the loop returns the specified `group_map` and `all_groups`; `all_groups` has no repeats, keys are distinct, and every mapped group is listed |
| `HeaderTaxonomy.AllGroupsGrow` | app.py:85-86 | `all_groups` never loses a group and always lists the current column's group |
| `HeaderTaxonomy.ForwardFillFromLabel` | app.py:81-83 | a column belongs to the label of the last usable group cell at or before it |
| `HeaderTaxonomy.ForwardFillDefault` | app.py:76-83 | a column with no usable group cell at or before it belongs to "General Info" |
| `HeaderTaxonomy.PastGroupRowInherits` | app.py:81 | columns past the end of the group row inherit the previous column's group |
| `HeaderTaxonomy.AllGroupsShape` | app.py:78-86 | `all_groups` has no repeats, holds exactly the columns' groups, is non-empty iff there is a column, and starts with column 0's group |
| `HeaderTaxonomy.AllGroupsFirstSeen` | app.py:85-86 | groups are listed in the order their first column appears |
| `HeaderTaxonomy.GroupMapKeysAreAssignedKeys` | app.py:88-90 | the dictionary's keys are the usable headers in order of first occurrence, without repeats |
| `HeaderTaxonomy.GroupMapKeys` | app.py:88-90 | a string is a key iff some column's stripped header is it and is usable; "" and "nan" are never keys |
| `HeaderTaxonomy.AssignedKeysListHeaders` | app.py:88-89 | the assigned keys are exactly the usable stripped headers |
| `HeaderTaxonomy.GroupMapLastWins` | app.py:80-90 | a repeated header maps to the group of its last column |
| `HeaderTaxonomy.GroupMapValuesAreListed` | app.py:80-90 | every group a field maps to is in `all_groups` |
| `Records.DropBanners` | app.py:94-95 | without a `Firm Name` column the load fails; otherwise the columns stay, row order is kept, and exactly the rows with a present firm name free of any banner keyword (ignoring case) survive, each as often as before |
| `Records.RatingStars` | app.py:98 | a rating shows as many stars as the highest of 5, 4, 3 among its digits, and a dash when it has none of them |
| `Records.MapRatings` | app.py:97-98 | with a `Rating` column every rating becomes its star string and no other cell changes; without one the table is untouched |
| `Records.SearchRows` | app.py:150-151 | the search result keeps row order and holds exactly the rows whose stringified cell contains the query ignoring case, each as often as before |
| `Records.SearchEmptyQueryKeepsAll` | app.py:150-151 | the empty query keeps every row |
| `Records.SearchIdempotent` | app.py:150-151 | searching the result again with the same field and query changes nothing |
| `Records.FirmNames` | app.py:164 | the firm-name column of the search result holds exactly the firm names present on some row, missing names skipped |
| `Records.SelectProfile` | app.py:166 | the chosen profile exists iff some row carries that firm name, and it is the first such row |
| `Records.OfferedProfilesResolve` | app.py:164-166 | every firm name offered in the profile selector resolves to a row with that name |
| `Dossier.PresentEntriesSound` | app.py:111-113 | each field line is a listed field the row has, with the row's value |
| `Dossier.PresentEntriesOrder` | app.py:111-113 | the lines come in the order of the group's field list |
| `Dossier.SectionInMapOrder` | app.py:110-113 | a section's lines come in dictionary order of `group_map`, where a re-assigned key keeps its first position |
| `Dossier.PresentEntriesCount` | app.py:111-113 | a listed field the row has gets exactly one line; any other field none |
| `Dossier.ExportSectionsShape` | app.py:107-113 | one section per listed group in `all_groups` order; every line is a field of that group that the row has, with its value |
| `Dossier.ExportSectionsInMapOrder` | app.py:107-113 | within every section of the export, the lines come in dictionary order of `group_map` |
| `Dossier.ExportListsFieldOnce` | app.py:107-113 | a field appears exactly once in the export when the row has it and its group is listed; otherwise never |
| `Dossier.DossierText` | app.py:103-117 | the export opens with the title and timestamp lines and ends with `END OF DOSSIER` |
| `Dossier.AppendFieldLines` | app.py:111-113 | the inner loop appends the rendered field lines of the group |
| `Dossier.AppendSection` | app.py:108-114 | the outer loop body appends the heading, the field lines and a blank line |
| `Dossier.GenerateDossierText` | app.py:102-118 | the loop builds exactly the specified export text |
| `Dossier.RegularCards` | app.py:192-196 | a group's own cards are listed fields the row has, never `Unnamed` or special, with their shown values |
| `Dossier.RegularCardsOrder` | app.py:192-196 | a group's own cards come in the order of its field list |
| `Dossier.PanelInMapOrder` | app.py:189-196 | a panel opens with its regular cards, in dictionary order of `group_map` |
| `Dossier.SpecialCards` | app.py:199-203 | each special field the row has gets exactly one card, and only special fields get one |
| `Dossier.GroupCards` | app.py:189-203 | special cards come after all regular ones, only in "Enriched" groups; every card is a field the row has with its shown value; regular cards belong to the group and are not `Unnamed` |
| `Dossier.ScreenPanels` | app.py:183-187 | one panel per listed group, alternating left and right from the left, highlighted exactly for "Enriched" groups |
| `Dossier.RegularCardsCount` | app.py:192-196 | a regular listed field the row has gets exactly one card in its group; any other none |
| `Dossier.ScreenShowsRegularFieldOnce` | app.py:183-196 | on screen a regular field appears exactly once when the row has it and its group is listed; otherwise never |
| `Dossier.SpecialFieldPlacement` | app.py:194-203 | a special field is shown once in each "Enriched" group when the row has it, and in no other group |
| `Dossier.ParsedExportListsFieldOnce` | app.py:80-113 | with the parsed map and groups, every mapped field the row has is exported exactly once, under its own group; other fields never |
| `Dossier.ParsedScreenShowsFieldOnce` | app.py:183-196 | with the parsed map and groups, every regular mapped field the row has is shown exactly once; other fields never |

## Left out

- Page layout: the Streamlit layout, CSS and HTML markup are not modelled. Panels and cards are modelled as values, not markup. The same goes for the tabs, the data-frame view, the agent-count badge, the download button and its file name. These are display only.
- The access gate (`app.py:121-136`) is not modelled. It is UI state.
- CSV input: finding and reading the CSV file, and the cache, are not modelled. The group row, the header row and the table come in as parameters.
- Column-name stripping (`app.py:93`) and pandas' renaming of blank or repeated header names (`Unnamed: n`, `X.1`) are not modelled. The table's column names are taken as given.
- The map and analytics tabs, Plotly, and the random jitter of map points (`app.py:205` onwards) are not modelled. They are charts only.
- `Dossier.GenerateDossierText`: `datetime.now()` and its `strftime` formatting are not modelled. The formatted timestamp is a parameter.
- `Records.SearchRows`: the query is matched as a literal substring. pandas `str.contains` reads it as a regular expression, so queries with regex metacharacters are not modelled.
- `Text.Lower`: case folding covers ASCII letters only. Python's `lower`/`upper` also map non-ASCII letters.
- `Cells.Str`: every cell is a string or NaN. Cells that pandas parses as numbers, whose `str()` is for example `4.0`, are represented by their text.
- `Dossier.ParsedExportListsFieldOnce`: "exactly once" is stated over the structure the export is rendered from (sections of field/value entries), not over the rendered text. A value containing a line break or `name: ` could make the text look otherwise.
