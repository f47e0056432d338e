# Contact manager — a Dafny model

`contact_manager.c` is a console address book. It keeps up to `MAX_PEOPLE`
(1000) records in an array with a `count`. Each record holds a first name, a
last name, a phone number and an `int` age. At start-up it loads the records
from `people.txt` with `fscanf("%s %s %s %d")`. A menu then lets the user
add, delete, search and list records. On EXIT it writes every record back
as one `"%s %s %s %d\n"` line.

This project models that core in Dafny:

- `people.dfy` (module `People`): the record, `MAX_PEOPLE`, C's `isspace`,
  and the records whose saved line reads back as themselves (`Storable`).
- `format.dfy` (module `Format`): the text side of the people file.
  - `fscanf` is a character-level scanner (`ScanFrom`) for `%s` and `%d`:
    blanks are skipped, a `%s` takes a run of non-blank characters, and a
    `%d` takes an optional sign and at least one digit.
  - `ReadPeople` is the sequence of records `load_people` reads.
  - `Serialize` is the text `save_people` writes.
  - The lemmas prove that saving and then loading gives the records back.
- `persistence.dfy` (module `Persistence`): `load_people` and `save_people`
  as loops over an `array<Person>`, each proved equal to its function in
  `Format`.
- `store.dfy` (module `Store`): main's `people` array and `count` as the
  class `ContactStore`. Its methods are `add_person`, `list_people`,
  `search_person` and `delete_person`. Each method is proved against a
  function over the records (`SearchOf`, `ListOf`, `DeleteOf`). Lemmas then
  prove what those functions promise.
- `menu.dfy` (module `MainMenu`): `enum Menu`, the dispatch of one menu
  answer, and one round of main's loop on the store.

Console input is not read. Every value a function reads with `scanf` is a
parameter instead: the new record, the name to search for or delete, the
number chosen, and the menu answer. The people file is a parameter too: an
`Option<string>` holding the file's text, or `None` when `fopen` fails. What
the C code prints becomes a report value (`SearchReport`, `ListReport`,
`DeleteReport`, `Outcome`), and each report names the branch that prints
it.

## Model

| member | source | states |
|---|---|---|
| Format.ReadPeople | contact_manager.c:57-64 | load_people never reads more than `max` records. |
| Format.LoadFile | contact_manager.c:49-68 | A file that cannot be opened gives no records. At most `max` records are read, and a file without NUL bytes gives storable records only. |
| Format.ScanFromRest | contact_manager.c:58-62 | What fscanf leaves unread is a suffix of its input: it only consumes text from the front. |
| Format.ScanFromValues | contact_manager.c:58-62 | fscanf keeps the values already stored and adds at most one value per conversion of the format. |
| People.SpaceCharacters | contact_manager.c:58-62 | The white space `%s` and `%d` skip, and that ends a `%s`, is exactly blank, tab, newline, vertical tab, form feed and carriage return. |
| Format.HornerOfNatDigits | contact_manager.c:90-94 | The digits `%d` prints for a non-negative number read back as that number. |
| Format.NatDigits | contact_manager.c:90-94 | `%d` prints a non-negative number as a non-empty run of digits with no leading zero. |
| Format.Decimal | contact_manager.c:90-94 | `%d` prints a minus sign exactly for a negative value, then a non-empty run of digits, with no leading zero, whose value is the magnitude. |
| Format.Line | contact_manager.c:90-94 | Every line save_people writes ends in a newline. |
| Format.OneLine | contact_manager.c:90-94 | For a storable record, the closing newline is the line's only newline. |
| Format.Serialize | contact_manager.c:89-95 | The saved text is empty exactly when there is no record, and otherwise ends in a newline. |
| Format.SerializeConcat | contact_manager.c:89-95 | The text saved for two runs of records is the text of the first run followed by that of the second. |
| Format.ScanDecimal | contact_manager.c:58-62 | Scanning `%d` over the printed form of any `int` (sign included), followed by a non-digit, converts exactly that value and leaves the rest of the text unread. |
| Format.ScanToken | contact_manager.c:58-62 | A `%s` over a non-blank word followed by a blank or the end of the text stores exactly that word. |
| Format.ScanFromTokens | contact_manager.c:58-62 | On input without NUL bytes, every text a `%s` conversion stores is non-empty and holds neither white space nor NUL. |
| Format.ReadPeopleStorable | contact_manager.c:57-64 | Every record load_people reads from a file without NUL bytes has three non-empty names free of white space and NUL. |
| Format.SerializeSnoc | contact_manager.c:89-95 | save_people's text for one more record is the old text followed by that record's line. |
| Format.FscanfOfLine | contact_manager.c:58-62 | One fscanf group over a saved line converts the record's four fields and stops at the line's newline. |
| Format.ReadLineThen | contact_manager.c:57-63 | Reading a saved line gives its record, followed by whatever the rest of the text gives. |
| Format.ReadSerializedThen | contact_manager.c:57-64 | Reading saved storable records followed by any text, with room for them, gives those records, then what the rest of the text gives with that many slots fewer. |
| Format.StopsAtMalformed | contact_manager.c:57-64 | When the text after the saved records does not start with a complete group, loading gives exactly the saved records. |
| Format.SaveLoadRoundTrip | contact_manager.c:49-68 | Loading what save_people wrote gives back the same records, in the same order. |
| Format.LoadCapped | contact_manager.c:57 | Loading a saved file with more than `max` records gives its first `max`. |
| Persistence.ReadGroup | contact_manager.c:57-63 | One fscanf test of the loop either ends the reading or yields the next record of `ReadPeople` and the text after it. |
| Persistence.LoadPeople | contact_manager.c:49-68 | A missing file gives 0. Otherwise people[0..count) are exactly the records `ReadPeople` reads, and `count` lies within the array. |
| Persistence.SavePeople | contact_manager.c:81-98 | The text written is one line per record of people[0..count), in order (empty when `count` <= 0). |
| Store.Matches | contact_manager.c:223-233 | The positions whose first name equals the name, in strictly ascending order: each one is a match, and every match is among them. |
| Store.SearchOf | contact_manager.c:168-196 | search_person reports "No people to search" exactly for an empty list. When it finds something, it prints at least one row, and every row shows a record with that first name. |
| Store.ListOf | contact_manager.c:142-156 | list_people reports "No people found" exactly for an empty list, and otherwise lists every record in array order. |
| Store.DeleteOf | contact_manager.c:209-256 | "No people to delete" exactly for an empty list, and "No person found" exactly when a non-empty list has no match. A record is deleted exactly when `1 <= choice <= foundCount`, and an invalid choice is the remaining case. The candidates printed are the matches in list order, numbered from 1 in that order. The deleted record bears the name and is the candidate numbered `choice`. |
| Store.RemoveAt | contact_manager.c:250-254 | The left shift keeps the records before the deleted slot and moves each later record down by one; the length drops by one. |
| Store.ContactStore.Load | contact_manager.c:267-268 | The store starts with the records load_people reads from the file, capped at MAX_PEOPLE. |
| Store.ContactStore.Save | contact_manager.c:296-297 | The text saved on EXIT is one line per record of the store. |
| Store.ContactStore.Add | contact_manager.c:110-130 | add_person refuses exactly when `count >= MAX_PEOPLE` and then changes nothing. Otherwise the record is appended at slot `count` and every other slot is left as it was. |
| Store.ContactStore.List | contact_manager.c:142-156 | list_people reports "No people found" for an empty store, and otherwise every record in array order. |
| Store.ContactStore.Search | contact_manager.c:168-196 | search_person's result equals `SearchOf` on the records: nothing to search, not found, or the matching rows numbered i + 1. |
| Store.ContactStore.CollectMatches | contact_manager.c:223-233 | indexes[0..foundCount) are exactly the matching positions, in ascending order, and the rows printed are numbered by foundCount. |
| Store.ContactStore.RemoveSlot | contact_manager.c:248-254 | The shift loop removes slot `d`, decrements `count`, and leaves the slots from the old last record onward untouched. |
| Store.ContactStore.Delete | contact_manager.c:209-256 | delete_person's result equals `DeleteOf` on the records. A valid choice removes the chosen record by left shift. An empty store, no match, or an invalid choice leaves the array and `count` unchanged. |
| Store.MatchesPrefix | contact_manager.c:223-225 | The matches among the first k records are a prefix of all the matches; the matches after that prefix lie at k or later. |
| Store.SearchFoundIff | contact_manager.c:172-195 | "No people to search" iff the store is empty. Found iff some record has that first name. |
| Store.SearchRows | contact_manager.c:181-191 | Each printed search row shows a record with that first name, numbered by its 1-based position. The numbers ascend, and every matching record is printed with its own number. |
| Store.DeleteChoosesRank | contact_manager.c:223-248 | The record removed bears the name and has exactly `choice - 1` matches before it: it is the choice-th match. |
| Store.MatchesCount | contact_manager.c:223-225 | foundCount equals the number of records bearing the name. |
| Store.DeleteCounts | contact_manager.c:248-254 | A delete lowers the name's count by one and keeps every other name's count. The records left plus the removed one form the records before the delete (as a multiset). |
| Store.AddThenSearch | contact_manager.c:110-196 | After an add, searching for its first name finds it, numbered count + 1, as the last row. |
| Store.AddThenDelete | contact_manager.c:110-256 | Choosing the last match for an added record's first name deletes that record and restores the records before the add. |
| MainMenu.Code | contact_manager.c:13-19 | The enum's values lie in 1..5. |
| MainMenu.FromAnswer | contact_manager.c:283-302 | The switch selects an action exactly for answers 1..5, and the action it selects has that answer as its code. |
| MainMenu.Dispatch | contact_manager.c:277-302 | Input that is not a number gives "Invalid input". A number runs an action iff it is in 1..5, and that action's code is the number. Anything else is "Invalid choice". |
| MainMenu.CodeRoundTrip | contact_manager.c:13-19 | Codes are distinct, and each code selects its action back. |
| MainMenu.OnlyExitEnds | contact_manager.c:296-299 | Only the answer 5 leads to EXIT. |
| MainMenu.After | contact_manager.c:283-302 | A round keeps at most MAX_PEOPLE records. Only ADD and DELETE change the records. |
| MainMenu.AfterStorable | contact_manager.c:116-252 | A round keeps every record storable when the record it would add is. |
| MainMenu.RunRound | contact_manager.c:277-302 | One pass of main's loop runs the selected function on the store. Its new records are `After`, and it reports what that function reports. |

## Left out

- Console input and output. Every `scanf` value is a parameter, and `printf` output becomes a report value. The text layout of the listing, search and delete lines is not modelled.
- `fopen` and `fclose`. A file that cannot be opened for reading is `None`. The write-error path of save_people (lines 82-87) is not modelled: `SavePeople` returns the text that would be written.
- Buffer widths. `char firstName[50]`, `lastName[50]`, `phoneNumber[15]` and `searchName`/`deleteName[50]` are unbounded strings here. The overflow an over-long `%s` causes in C is not modelled.
- Format.ScanFrom: a `%d` whose value does not fit in an `int` is undefined behaviour in C. The model converts it exactly, and `Complete` rejects the group, so loading stops there.
- Format.ReadPeople: when a group fails part-way, fscanf has already written the first fields into `people[count]`. That slot lies beyond `count` and is never read, so the model does not write it.
- Store.ContactStore.Add: when the age is not a number, `scanf("%d")` leaves `age` unchanged and the C code still stores the record. The model takes the record as a parameter.
- Store.ContactStore.Delete: when `scanf("%d", &choice)` fails, `choice` is uninitialised in C. The model takes the choice as a parameter.
- The endless `while (1)` of main (lines 273-303) and the `getchar` drain after invalid input (lines 277-281). The model covers one round (`RunRound`); the loop is the repetition of rounds. The drain `while (getchar() != '\n');` never ends when the input ends before a newline, because `getchar` then returns EOF forever; the model only reports `InvalidInput`.
- NUL bytes in names. C strings end at the first NUL, so `strcmp` and `printf` would see a name that holds a NUL cut short there, while the model compares and writes the whole character sequence. `Storable` and `ReadPeopleStorable` therefore require names and files without NUL, and the save-then-load round trip is proved for those only.
- Names are compared with `strcmp`, which for NUL-free names is equality of the character sequences. Locale and encoding are not modelled.
