# WolfBite menu service, modelled in Dafny

WolfBite is a chat bot that tells NC State students what the dining halls
serve. Its core fetches a hall's menu from the NetNutrition site, reads the
HTML into a dict, formats that dict as chat text, and translates the strings.
This project models that core and proves what it computes:

- `services/menu_query.py`, module `MenuQuery` (`menu_query.dfy`):
  - `_parse_unit_menu_panel` builds the index `date -> meal -> menu id` from the unit page's day cards.
  - `_get_unit_menus` checks the unit response and finds its `menuPanel`.
  - `fetch_menu_data` looks up the menu id, requests the menu and parses its `itemPanel`.
- `services/menu_query.py:36-38`, module `Dates` (`dates.dfy`): the header conversion `strptime(…, "%A, %B %d, %Y").strftime("%Y-%m-%d")`.
- `utils/parser.py`, module `MenuParser` (`parser.dfy`): `parse_menu`, which turns category blocks into `{name: [{dish, diets}]}`.
- `utils/formatter.py`, module `Formatter` (`formatter.dfy`): `format_menu`.
- `utils/translator.py`, module `Translator` (`translator.dfy`): `load_translations`, `log_untranslated` and `translate_text`.

Shared modules:

- `Wrappers`: `Option` and `Result`.
- `Seqs`: first index, removing repeats, filter-map.
- `Dicts`: Python's insertion-ordered `dict` as an association list.
  - `Get` is `d[k]`; `Set` is `d[k] = v`.
  - `SetAll` is a series of assignments.
  - Lemmas prove that the last assignment wins, that keys keep the order in which they were first assigned, and that keys stay distinct.
- `Text`: the string operations used.
  - `Strip` is `str.strip()`, with the full `str.isspace` set.
  - Also ASCII `capitalize` and `lower`.
  - `FirstParenNumber` is `re.search(r"\((\d+)\)", s)` followed by `int(group(1))`.

Each loop in the source is a method with the same loop. Each method is proved equal to a recursive specification function (`ParseMenu`, `ParseUnitMenuPanel`, `FormatMenu`). The lemmas then state what those functions mean.

HTML arrives already split into the elements the code reads:

- `CategoryDiv(h4, lis)` and `Li(a, imgAlts)` for `parse_menu`.
- `Card(header, links)` and `Link(text, onclick)` for the unit page.

An attribute error on a missing element is a `Result` error. The HTTP responses are parameters, and the requests sent are returned as a trace. The translation files are parameters too; a missing file is `None`.

## Model

| member | source | states |
|---|---|---|
| Text.Strip | utils/parser.py:9 | the result has no whitespace at either end and is the run of the input that starts at the first non-space character; only whitespace follows it in the input |
| Text.StripPadded | utils/parser.py:14 | stripping text that has only whitespace around a trimmed string gives that string back |
| Text.StripIdempotent | utils/parser.py:9 | stripping twice is stripping once |
| Text.Capitalize | services/menu_query.py:69 | same length, first letter upper case, every other letter lower case |
| Text.CapitalizeLower | services/menu_query.py:69 | strings equal up to letter case capitalise to the same string |
| Text.FirstParenNumber | services/menu_query.py:43-44 | None exactly when `(digits)` occurs nowhere; otherwise the number at the first place it occurs |
| Text.ParenNumberFound | services/menu_query.py:43-44 | an `onclick` of the form `p(<digits of n>)q`, with no `(` in `p`, yields `n` |
| Dates.IsoDate | services/menu_query.py:38 | `%Y-%m-%d`: ten characters, dashes at 4 and 7, the digit fields read back as year, month and day |
| Dates.ParseDate | services/menu_query.py:36-38 | a key it returns is the ISO text of an existing date |
| Dates.ParseDateHeader | services/menu_query.py:36-38 | the text is read as `k` exactly when it is laid out as `%A, %B %d, %Y` (weekday name, `,`, whitespace, month name, whitespace, one or two day digits, `,`, whitespace, four year digits ending the text) and its fields name an existing date whose ISO text is `k`; every other text fails |
| Dates.ParseDateShape | services/menu_query.py:36-38 | a key that is returned comes from a header with that layout, and is the ISO text of the date the header names |
| Dates.HeaderParse | services/menu_query.py:36-38 | a header with that layout gives the ISO text of its date when the date exists, and fails otherwise |
| Dates.DateRoundTrip | services/menu_query.py:36-38 | any header `Weekday, Month D, YYYY` gives the ISO date when the date exists and fails otherwise. This holds in any letter case, with any non-empty whitespace runs, and with the day in one digit or two |
| Dates.OneDigitDay | services/menu_query.py:36-38 | `Monday, January 6, 2025` is read as the ISO date of 6 January 2025 |
| Dates.HeaderMatch | services/menu_query.py:36-37 | the compiled format reads year, month and day from where the header holds them |
| Dicts.Get | services/menu_query.py:69 | `d[k]` succeeds exactly when `k` is a key, and returns a value stored under `k` |
| Dicts.GetSet | utils/parser.py:20 | after `d[k] = v`, `k` holds `v` and every other key what it held |
| Dicts.KeysSet | utils/parser.py:20 | `d[k] = v` keeps the keys in place and appends a new key at the end |
| Dicts.SetTwice | services/menu_query.py:40-44 | assigning a key twice is assigning the second value once |
| Dicts.GetSetAll | utils/parser.py:8-20 | after a series of assignments each key holds the last value assigned to it |
| Dicts.KeysSetAll | utils/parser.py:8-20 | the keys are the assigned keys without repeats, in order of first assignment |
| Dicts.GetSetAllLast | utils/parser.py:8-20 | a key assigned for the last time by pair `i` holds pair `i`'s value |
| Dicts.SetUnique | utils/parser.py:20 | assignment keeps the keys pairwise distinct |
| Dicts.SetAllUnique | utils/parser.py:7-20 | a dict built by assignments from `{}` has pairwise distinct keys |
| Seqs.DistinctKeepsFirstOrder | utils/parser.py:20 | two keys are ordered as their first assignments are |
| MenuParser.AltsSpec | utils/parser.py:15-16 | a diet is listed exactly when some image carries it as `alt`; at most one per image |
| MenuParser.AltsAppend | utils/parser.py:15-16 | the alts of two runs of images are the first run's followed by the second's |
| MenuParser.DishOf | utils/parser.py:14-18 | an `li` gives `{dish: stripped link text, diets: alts}` exactly when it has an `a`; otherwise the attribute error |
| MenuParser.DishList | utils/parser.py:10-18 | the item list succeeds exactly when every `li` has an `a`, with one record per `li` |
| MenuParser.DishListItem | utils/parser.py:13-18 | record `i` of the item list is the record of the `i`-th `li` |
| MenuParser.CategoryOf | utils/parser.py:9-20 | a block gives `(stripped h4 text, item list)` exactly when it has an `h4` and its items succeed; otherwise `NoHeading` or `NoLink` |
| MenuParser.ParseMenu | utils/parser.py:3-22 | the loop returns exactly the specification `MenuOf` (the dict, or the first error raised) |
| MenuParser.MenuOfEntries | utils/parser.py:8-20 | the parse succeeds exactly when every block does, and is then the assignments `menu_dict[name] = items` in document order |
| MenuParser.MenuKeys | utils/parser.py:7-22 | the keys are the stripped `h4` texts without repeats, in order of first appearance; no blocks give `{}` |
| MenuParser.MenuLastBlockWins | utils/parser.py:20 | a name holds the items of the last block with that name |
| MenuParser.EmptyCategoryKept | utils/parser.py:10-20 | a block with no `li` stores an empty list under its name |
| MenuParser.MenuItems | utils/parser.py:12-18 | in a parsed menu, each block's list has one record per `li`, in order, with the stripped link text and the alts |
| MenuParser.FirstBad | utils/parser.py:8-14 | the first block that raises: every earlier block parses, and this one does not |
| MenuParser.MenuError | utils/parser.py:9-14 | the parse fails exactly when some block raises, with the error of the first such block |
| MenuParser.ErrorSticks | utils/parser.py:8-9 | once a block has raised, later blocks do not change the outcome |
| Formatter.FormatMenu | utils/formatter.py:1-12 | the loop returns exactly the specification `MenuText` |
| Formatter.MenuTextAppend | utils/formatter.py:7-11 | the text of two runs of categories is the first run's text followed by the second's |
| Formatter.MenuTextEmpty | utils/formatter.py:6-12 | the text is empty exactly when the menu is |
| Formatter.MenuTextEnd | utils/formatter.py:11 | a non-empty text ends with the blank line `"\n\n"` |
| Formatter.MenuTextLines | utils/formatter.py:7-11 | the text is the lines `name:`, `    • item` for each item, and an empty line, for each category, each ending in a newline |
| Formatter.SplitTerminated | utils/formatter.py:8-11 | cutting newline-terminated lines at the newlines gives the lines back |
| Formatter.FormatRoundTrip | utils/formatter.py:1-12 | when no name or item contains a newline, reading the categories back from the text gives the menu |
| Translator.LoadTranslations | utils/translator.py:4-12 | the table in the file, or `{}` when the file is missing |
| Translator.LogSpec | utils/translator.py:14-27 | a missing log becomes `{language: [text]}`; otherwise the text goes to the end of the language's list unless already there, in which case the log is unchanged |
| Translator.LogContains | utils/translator.py:19-27 | after logging, the text is in the language's list |
| Translator.LogOtherLanguages | utils/translator.py:19-24 | logging does not change the list of any other language |
| Translator.LogIdempotent | utils/translator.py:21-24 | logging the same text twice gives the log that logging it once gives |
| Translator.LogKeepsNoRepeats | utils/translator.py:19-22 | a log with distinct languages and no repeated strings keeps both properties |
| Translator.LogUntranslated | utils/translator.py:14-27 | the language is a key of the file afterwards. An existing file keeps its languages in order, and a new language is added at the end |
| Translator.TranslateText | utils/translator.py:30-40 | the result is the text or its table entry. The log is either unchanged or exactly the result of logging this text under the language. It is unchanged for English and for a string in the table. When it changes, the text is in the language's list |
| Translator.TranslateEnglish | utils/translator.py:34-35 | English text comes back unchanged and nothing is logged |
| Translator.TranslateHit | utils/translator.py:36-40 | a string in the table is replaced by its entry and nothing is logged |
| Translator.TranslateMiss | utils/translator.py:36-39 | a string with no entry, or no table file, comes back unchanged and is logged under the language |
| MenuQuery.MealEntry | services/menu_query.py:42-44 | a link assigns `stripped text -> id` exactly when its `onclick` holds `(digits)` |
| MenuQuery.MealPairsSpec | services/menu_query.py:41-44 | a `(meal, id)` assignment is made exactly by a link with that stripped text and that id |
| MenuQuery.MealsLookup | services/menu_query.py:41-44 | in a day's meals, a meal holds the id of the last link naming it |
| MenuQuery.ParseUnitMenuPanel | services/menu_query.py:30-45 | the loops return exactly the specification `CardsIndex` |
| MenuQuery.DateKeyHeader | services/menu_query.py:33-38 | a card's date key is `k` exactly when its stripped header is laid out as `%A, %B %d, %Y` and names an existing date whose ISO text is `k`; whitespace around the header does not change the key |
| MenuQuery.HeaderlessSkipped | services/menu_query.py:33-35 | a card without a header changes nothing |
| MenuQuery.CardErrorSticks | services/menu_query.py:36-38 | once a header fails to parse, later cards do not change the outcome |
| MenuQuery.FirstBadCard | services/menu_query.py:32-38 | the first card whose header is present but not a date |
| MenuQuery.CardsError | services/menu_query.py:32-38 | the parse fails exactly when some header is not a date, with the first such header |
| MenuQuery.CardsEntries | services/menu_query.py:32-44 | a successful parse is the assignments `out[date_key] = meals`, card by card |
| MenuQuery.CardsLookup | services/menu_query.py:40-45 | a date holds the meals of the last card with that date; dates are keyed in order of first appearance |
| MenuQuery.PanelIndex | services/menu_query.py:57 | the position of the first panel with the id |
| MenuQuery.FindPanel | services/menu_query.py:57 | None exactly when no panel has the id; otherwise the HTML of the first one that does |
| MenuQuery.IsJsonSpec | services/menu_query.py:51 | a response counts as JSON exactly when its `Content-Type` is `application/json` followed by anything; a response without the header never does |
| MenuQuery.GetUnitMenus | services/menu_query.py:47-58 | a non-JSON response is an error whatever its panels, and so is a missing `menuPanel`. Otherwise the result is exactly what `_parse_unit_menu_panel` makes of the first `menuPanel`: the index, or `BadDate` for the first header that is not a date |
| MenuQuery.LookupMenuSpec | services/menu_query.py:68-72 | the lookup fails (`KeyError`, so `None`) exactly when the date is not in the index or the capitalised meal is not among that date's meals; otherwise it gives an id stored there |
| MenuQuery.FetchMenuData | services/menu_query.py:61-83 | the handshake and the unit request always come first; a menu request follows exactly when the trace has three requests |
| MenuQuery.FetchMenuFails | services/menu_query.py:74-82 | once a menu id is found, a non-JSON menu response ends the call with `MenuNotJson`, and a JSON one without an `itemPanel` ends it with `NoItemPanel`; both happen after the menu request |
| MenuQuery.FetchUnitFails | services/menu_query.py:65-66 | a failing unit request ends the call with its error, before any menu request |
| MenuQuery.FetchLookup | services/menu_query.py:68-78 | with no id for the date and capitalised meal the call returns None after two requests; otherwise it requests exactly that id |
| MenuQuery.FetchParses | services/menu_query.py:79-83 | with a JSON menu response that has an `itemPanel`, the result is what `parse_menu` makes of it |
| MenuQuery.LookupIgnoresMealCase | services/menu_query.py:69 | meal names equal up to letter case find the same menu |

## Left out

- HTTP and the session:
  - The session, its headers, the handshake `GET` and the timeouts are a `Home` entry in the request trace.
  - The responses are parameters: the `Content-Type` header and the decoded `panels`.
  - Network errors, HTTP status codes and a body that is not valid JSON are not modelled.
  - A panel without `id` or `html` is not modelled.
- The text of a `RuntimeError` is not modelled: its message and the first 300 characters of the body are dropped, and only the error kind is kept.
- HTML parsing is not modelled; BeautifulSoup is not part of this model.
  - The HTML reaches the code as the elements it selects.
  - `get_text(strip=True)`, which joins stripped text fragments, is modelled as stripping the element's whole text.
  - `find_all("li")` is taken to list the block's items; nested lists are not distinguished.
- Text.Capitalize: `str.capitalize` and case-insensitive matching are modelled on ASCII letters only; other Unicode case mappings are not.
- Text.FirstParenNumber: `\d` is modelled as ASCII digits; other Unicode decimal digits are not.
- Dates.ParseDate: `\d` in the `%d` and `%Y` patterns is modelled as ASCII digits. Python's `re` also matches other Unicode decimal digits there, and `int()` reads them; that is not modelled.
- Dates.ParseDate:
  - The month and weekday names are those of the C/English locale.
  - The weekday is read but, as in `strptime`, not checked against the date.
- `print` calls are left out; this includes the warning `fetch_menu_data` prints before returning None.
- File I/O in the translator:
  - Files are given as their decoded contents; malformed JSON and file permissions are not modelled.
  - `json.dump` with `indent=4` after `seek(0)` without truncation is modelled as replacing the file's content. When the new text is shorter than the old, the real file keeps the old tail.
- `format_menu`: items are taken as the strings the f-string renders. The `repr` of the `{dish, diets}` dicts that `parse_menu` returns is not modelled.
- Dates.IsoDate: always pads the year to four digits. For years before 1000, what CPython's `strftime("%Y")` prints depends on the platform's C library (glibc does not pad), so those keys are not modelled.
- A JSON body without a `panels` key, or a panel without `id` or `html`, makes `resp.json()["panels"]` or `p["id"]` raise `KeyError` (services/menu_query.py:57,82). Responses are modelled as already holding their panels, so this error path is not modelled.
- The bots (`bots/`) and `config/` are not part of this model. Neither is the unused `UNIT_MAP` constant.
