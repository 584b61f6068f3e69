# UCF garage skill: scrape-and-speak core

This project models the logic of the Alexa skill for UCF parking garages.
The skill reads the garage table of the UCF parking site and builds a
dictionary from garage name to percentage text. From that dictionary it
makes the sentences Alexa speaks:

- the occupancy of one garage, including the apology for an unknown one;
- the occupancy of every garage, in one sentence;
- the garage or garages that are least full.

All of it is in `lambda_function.py`. The model starts from the garage
table's rows, each given as the texts of its cells. It does not start from
the web page.

Modules:

- `Errors`: the Python exceptions the core can raise (`IndexError`,
  `ValueError`, `KeyError`), and `Result` and `Option`.
- `PyStr`: the string methods the core calls. These are `strip`, `find`,
  slicing with clamped bounds, `replace`, `upper`, `lower` and `capitalize`.
  Each is stated by a lemma about what it returns.
- `PyInt`: `int(text)` and the `%d` format, with the round trip
  `int('%d' % n) == n`.
- `Snapshot`: the insertion-ordered dictionary, kept as its items in
  order. `d[k] = v` keeps an existing key in place and appends a new one.
- `Extraction`: the row loop of `get_garage_data`. It covers the name
  cleaning, the percentage cut, the clamp to [0, 100], and storing into the
  dictionary. `GetGarageData` is the loop itself, proved against the fold
  `GarageData`.
- `Speech`: `get_specific_garage_data`, `get_all_garage_data_as_string`,
  and the reply of `SpecificGarageIntentHandler.handle`.
- `Ranking`: `get_lowest_percentage`. This covers Python's order on
  `(int, str)` tuples, the sort, the prefix tied at the least percentage,
  and the sentence whose shape depends on how many garages are tied.

Every function that calls `get_garage_data()` is modelled twice:

- as a method on the rows (`GetSpecificGarageData`,
  `GetAllGarageDataAsString`, `GetLowestPercentage`,
  `HandleSpecificGarage`), which passes on the row loop's exceptions;
- as a function or method on a dictionary that was already built, which is
  what the lemmas talk about.

Where the code and the way the skill is usually described differ, the
model follows the code:

- The LIBRA clause of the all-garages sentence is spoken at LIBRA's own
  position in the dictionary. It is not necessarily spoken last
  (`AllGaragesClauseAt`). The clause starts with "and" wherever it falls.
- Suppose two garages are tied and the dictionary has only those two. The
  reply is "Garages A and B are the least full ...", not "All garages ..."
  (`TwoTiedExample`). "All garages" needs at least three garages, all tied.
- The handler decides the word order from the slot as heard, with only its
  dots removed. The slot "LIBRA" is spoken "Libra Garage is at ...". The
  slot "libra" finds the same item but is spoken "Garage Libra is at ..."
  (`SpecificLibra`, `LowercaseLibra`).
- The comma search at line 46 ends the slice one character after the comma.
  The comma removal at line 50 deletes that character again, so a well-formed
  cell gives exactly the number (`CutBetweenMarkerAndComma`). A cell with no
  comma after the marker gives an empty slice, and `int()` raises
  ValueError (`CutWithoutComma`).

## Model

| member | source | states |
|---|---|---|
| Extraction.GetGarageData | lambda_function.py:36-59 | the loop returns the fold of the rows: the first failing row's error, or the dictionary of every row in order; every dictionary it returns has distinct keys and percentages in [0, 100] |
| Extraction.GarageRows | lambda_function.py:37 | `rows[5:-1]`: rows 5 to the one before the last, none when there are at most six |
| Extraction.ClampSpec | lambda_function.py:52-56 | text that is not an integer is a ValueError; a negative value is stored as the text "0" and one above 100 as the text "100"; an in-range text is stored unchanged; the stored text parses to the value moved into [0, 100] |
| Extraction.ParseRowSpec | lambda_function.py:41-56 | a row fails with IndexError exactly when it has fewer than three cells and with ValueError exactly when its percentage does not parse; otherwise its entry is the cleaned name with the clamped percentage, which is valid |
| Extraction.CleanNameUpper | lambda_function.py:42 | the key contains no lower-case letter |
| Extraction.CleanNameExample | lambda_function.py:42 | the cell " Garage A " gives the key "A" |
| Extraction.CutBetweenMarkerAndComma | lambda_function.py:44-50 | when a comma follows "percent: ", the stored text is what lies between the marker and the first comma, without spaces |
| Extraction.CommaAfterMarker | lambda_function.py:45-46 | the comma search starts at the colon of the marker and finds the first comma after it |
| Extraction.CutWithoutComma | lambda_function.py:46-53 | with no comma after the marker the slice is empty and `int()` fails on it |
| Extraction.CollectSpec | lambda_function.py:40-56 | the loop succeeds exactly when every row does, keeping row i's entry at i; otherwise it stops with the first failing row's error |
| Extraction.StoreAllValid | lambda_function.py:58 | storing valid percentages keeps the keys distinct and every value valid |
| Extraction.StoreAllKeepsOrder | lambda_function.py:58 | keys already present keep their positions and new keys come after them |
| Extraction.StoreAllKeys | lambda_function.py:58 | a name is a key afterwards exactly when it was before or some row carries it |
| Extraction.StoreAllLastWins | lambda_function.py:58 | the value under a name is that of the last row with that name |
| Extraction.StoreAllUntouched | lambda_function.py:58 | a name that no row carries reads as before |
| Extraction.GarageDataValid | lambda_function.py:36-59 | any dictionary the row loop returns has distinct keys and percentages in [0, 100] |
| Extraction.GarageDataKeys | lambda_function.py:37-58 | for a table the loop accepts, every garage row has three cells, and a name is a key exactly when it is the cleaned name of some garage row |
| Extraction.GarageDataLastRow | lambda_function.py:41-58 | for a table the loop accepts, the value under a name is the clamped percentage of the last garage row with that name |
| Extraction.GarageDataFirstOrder | lambda_function.py:40-58 | for a table the loop accepts, keys come in the order in which their names first occur among the garage rows |
| Extraction.StoreAllFirstOrder | lambda_function.py:58 | a name first stored by entry j comes after the name of any earlier entry |
| Extraction.StoreAllAppend | lambda_function.py:40-58 | storing two runs of entries is storing the first, then the second |
| Extraction.GarageDataErrors | lambda_function.py:40-56 | the row loop raises only IndexError and ValueError, never KeyError |
| Snapshot.Get | lambda_function.py:64 | a value is found exactly for a key; it is the value of the item with that key |
| Snapshot.Put | lambda_function.py:58 | an existing key keeps its position and takes the new value, other items are unchanged, a new key is appended, keys stay distinct |
| Snapshot.PutGet | lambda_function.py:58 | after `d[k] = v`, `d[k]` is v and every other key reads as before |
| Snapshot.GetAt | lambda_function.py:72-76 | in a dictionary, the value under item i's key is item i's value |
| PyStr.StripSpec | lambda_function.py:42 | `strip()` gives the piece of the text between leading and trailing whitespace, neither end of which is whitespace |
| PyStr.StripIdempotent | lambda_function.py:42 | stripping twice is stripping once |
| PyStr.StripUnchanged | lambda_function.py:44 | a text that neither starts nor ends with whitespace is its own strip |
| PyStr.FindSpec | lambda_function.py:45 | `find` gives the first occurrence, or -1 when there is none |
| PyStr.FindChar | lambda_function.py:46 | for one character, `find` is -1 exactly when it is absent, and otherwise the index of its first occurrence |
| PyStr.Slice | lambda_function.py:48 | a slice with bounds in range is the subsequence, and an empty one when the end is not after the start |
| PyStr.ReplaceCharIsRemove | lambda_function.py:50 | replacing one character by "" deletes every copy of it |
| PyStr.RemoveSpec | lambda_function.py:50 | the deleted character is gone, every other character stays, a text without it is unchanged |
| PyStr.RemoveAppend | lambda_function.py:50 | deleting a character from a concatenation deletes it from each part |
| PyStr.ReplaceAbsent | lambda_function.py:42 | a text without the pattern is left unchanged by `replace` |
| PyStr.ReplacePrefix | lambda_function.py:42 | a leading pattern is replaced and the rest is processed after it |
| PyStr.UpperSpec | lambda_function.py:42 | `upper()` maps each character and leaves no lower-case letter |
| PyStr.UpperUpper | lambda_function.py:148 | upper-casing twice is upper-casing once |
| PyStr.UpperLower | lambda_function.py:148 | upper-casing a lower-cased text is upper-casing the text |
| PyStr.RemoveUpper | lambda_function.py:148 | deleting dots commutes with upper-casing |
| PyStr.RemoveLower | lambda_function.py:148 | deleting dots commutes with lower-casing |
| PyStr.RemoveCapitalize | lambda_function.py:151 | deleting dots commutes with `capitalize()` unless the text starts with a dot |
| PyInt.ParseDecimal | lambda_function.py:103 | `int('%d' % n) == n` for every integer |
| PyInt.DecimalCanonical | lambda_function.py:103 | `%d` writes "0" for zero, no leading zero otherwise, and "-" only before a negative value's digits |
| PyInt.ParseBounds | lambda_function.py:54-56 | the texts "0" and "100" stored by the clamp parse to 0 and 100 |
| PyInt.ParseBlank | lambda_function.py:53 | an empty or all-whitespace text is not an integer |
| Speech.Lookup | lambda_function.py:64 | `data[name]` succeeds exactly when name is a key, with its stored value, and otherwise raises KeyError(name) |
| Speech.GetSpecificGarageData | lambda_function.py:62-64 | the row loop's error, or the lookup in its dictionary; a value found is a valid percentage |
| Speech.ValidLookup | lambda_function.py:62-64 | a value read from a dictionary the row loop built parses to an integer in [0, 100] |
| Speech.HandleSpecificGarage | lambda_function.py:145-155 | only the KeyError becomes the apology; a failure of the row loop escapes; otherwise the reply about the found garage |
| Speech.SpecificMissing | lambda_function.py:154-155 | an unknown garage gets the apology, which repeats the slot exactly as heard |
| Speech.SpecificFound | lambda_function.py:150-151 | a found garage whose slot is not "LIBRA" is spoken "Garage X is at P percent capacity." with P the stored value; X is the slot without dots, capitalised, or, when the slot starts with a dot, lower-cased, because the capitalising happens before the dots are removed |
| Speech.LeadingDotExample | lambda_function.py:148-151 | the slot ".a" finds the key "A" and is spoken "Garage a is at 5 percent capacity." |
| Speech.SpecificLibra | lambda_function.py:152-153 | the slot "LIBRA" is spoken "Libra Garage is at P percent capacity." |
| Speech.LowercaseLibra | lambda_function.py:148-151 | the slot "libra" finds the LIBRA item but is spoken "Garage Libra is at P percent capacity." |
| Speech.SlotKeyIgnoresCase | lambda_function.py:148 | lower- and upper-casing the slot does not change the key it looks up |
| Speech.AllGaragesSentence | lambda_function.py:71-78 | the loop builds the clauses of the items in dictionary order |
| Speech.GetAllGarageDataAsString | lambda_function.py:68-78 | the row loop's error, or the clauses of its dictionary's items |
| Speech.AllGaragesAppend | lambda_function.py:72-76 | the sentence for two runs of items is the two sentences one after the other |
| Speech.AllGaragesClauseAt | lambda_function.py:72-76 | every item, LIBRA included, is spoken at its own position: the clauses before it, its clause, the clauses after it |
| Speech.AllGaragesEmpty | lambda_function.py:71-78 | the sentence is empty exactly when the dictionary is |
| Speech.AllGaragesEnding | lambda_function.py:73-76 | the sentence ends with "." exactly when the last key is LIBRA, and with ", " otherwise |
| Speech.LibraClause | lambda_function.py:76 | the LIBRA item is spoken "and Libra Garage is at P percent capacity." |
| Ranking.StrLtTotal | lambda_function.py:86 | two different strings are ordered one way or the other |
| Ranking.StrLtTransitive | lambda_function.py:86 | Python's string order is transitive |
| Ranking.LeTotal | lambda_function.py:86 | any two `(int, str)` pairs are comparable |
| Ranking.LeTransitive | lambda_function.py:86 | the tuple order is transitive |
| Ranking.LeAntisymmetric | lambda_function.py:86 | two pairs each at most the other are equal |
| Ranking.SortSpec | lambda_function.py:86 | `sorted` gives a list in tuple order holding the same pairs |
| Ranking.SortedUnique | lambda_function.py:86 | two sorted lists of the same pairs are equal, so any correct sort gives this list |
| Ranking.RankAllSpec | lambda_function.py:86 | the pairs exist exactly when every value parses, and pair i is `(int(value_i), key_i)`; otherwise ValueError |
| Ranking.LeastSpec | lambda_function.py:88 | the first sorted percentage is at most every pair's and is some pair's |
| Ranking.TakeLeSpec | lambda_function.py:90-95 | on a sorted list, the loop's prefix holds exactly the pairs at or below the bound |
| Ranking.TiedPrefix | lambda_function.py:90-95 | the loop with `break` collects the sorted pairs up to the first one above the minimum |
| Ranking.TiedMembers | lambda_function.py:88-95 | the tied group is non-empty and holds exactly the pairs whose percentage is the least |
| Ranking.TiedOrder | lambda_function.py:86-95 | the tied names come in ascending string order |
| Ranking.TiedEverything | lambda_function.py:88-95 | the tied group is every garage exactly when all percentages are equal |
| Ranking.LeastFullSentence | lambda_function.py:98-116 | the sentence chosen by the number tied: singular, two names, a comma list, or "All garages" |
| Ranking.ListSentence | lambda_function.py:107-114 | the loop writes "Garages ", each name but the last followed by ", ", "and" with the last name, and the percentage |
| Ranking.CommaListAppend | lambda_function.py:109-110 | the comma list of two runs of names is the two lists one after the other |
| Ranking.LowestPercentage | lambda_function.py:84-118 | the reply is that of the sorted pairs' tied group, or the error of a missing value or an empty dictionary |
| Ranking.GetLowestPercentage | lambda_function.py:81-118 | the row loop's error, or the reply for its dictionary |
| Ranking.LeastFullShape | lambda_function.py:100-116 | the reply starts "All " exactly when at least three garages are tied and they are all of them, and "Garage " exactly when one is |
| Ranking.LeastFullNamesAll | lambda_function.py:102-114 | unless the reply is "All garages ...", it names every tied garage |
| Ranking.LeastFullPercent | lambda_function.py:103-116 | the reply ends with the tied percentage: "M percent full." for all garages and "M percent capacity." otherwise |
| Ranking.LowestSpeaksLeast | lambda_function.py:86-116 | the reply for a dictionary ends with its least value |
| Ranking.LowestErrors | lambda_function.py:86-88 | ValueError when some value is not an integer, IndexError on an empty dictionary, success on any non-empty dictionary the row loop returns |
| Ranking.LowestGroup | lambda_function.py:86-95 | for each garage: the least value is at most its value and is some garage's, and it is tied exactly when its value is the least |
| Ranking.LowestNamesEveryTied | lambda_function.py:86-114 | unless the reply is "All garages ...", it names every garage with the least value |
| Ranking.LowestAllEqual | lambda_function.py:115-116 | three or more garages all at v give "All garages are v percent full." |
| Ranking.TwoTiedExample | lambda_function.py:104-105 | A:30 and B:30 give "Garages A and B are the least full with 30 percent capacity." |

## Left out

- The HTTP request for the page, the BeautifulSoup parsing and the search
  for the garage table (lines 21-34) are I/O and library calls. The model
  starts from the table's rows as cell texts. When no table is found, the
  code prints an error and then fails on `None`; that branch is not
  modelled.
- Sentry, the logger and the `print` at line 34 are telemetry with no
  effect on the replies.
- The request-handler classes, their `can_handle` tests, the response
  builder and the skill builder (lines 120-264) are routing over the ASK
  SDK. Only the reply text of `SpecificGarageIntentHandler.handle` is
  modelled. The other handlers speak fixed texts or call the modelled
  functions.
- A slot with no value (`None`) raises AttributeError in the handler. The
  model takes the slot as a string.
- PyInt.ParseInt: Python's `int()` also accepts underscores between digits
  and non-ASCII decimal digits. The model accepts surrounding whitespace,
  one sign and ASCII digits, which covers every text the clamp stores.
- PyStr.Upper, PyStr.Lower, PyStr.Capitalize: only ASCII letters change
  case. Python also maps non-ASCII letters.
- PyStr.IsSpace: the whitespace set is the ASCII and Latin-1 whitespace
  that `str.strip()` removes. Other Unicode spaces are not included.
- Ranking.Sort: an insertion sort stands for Python's sort. SortedUnique
  shows that every sort that returns an ordered permutation returns this
  same list, so the choice does not change any reply.
- The integers are unbounded, as Python's are.
