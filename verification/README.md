# Pet adoption center — a Dafny model

`main.py` is a small console program for a pet adoption center. It keeps two
in-memory lists: the pets still available (dogs, cats and birds, each with an
id, name, age, breed and health status) and the registered adopters, each
holding the pets it has adopted. Between runs the lists live in two text
files. `pets.txt` has one comma-separated line per available pet, led by its
class name. `adopters.txt` has one line per adopter, ending in the ids of its
pets.

This project models the parts of the program that carry the logic:

- the record codec: `Pet.to_line` / `Pet.from_line` and `Adopter.to_line` /
  `Adopter.from_line`, down to `str.strip()`, `str.split(',')`,
  `','.join(...)`, `int(...)` and `str(int)`;
- the store operations `add_pet`, `remove_pet`, `register_adopter`,
  `remove_adopter` and `adopt_pet`;
- `load_data` as a fold over the lines of both files, including the
  re-attachment of adopted pets by id;
- `save_data` as the lines it writes.

Modules, one concept each:

| file | module | contents |
|---|---|---|
| wrappers.dfy | `Wrappers` | `Option`, `Result` |
| seqs.dfy | `Seqs` | concatenation facts reused by the proofs |
| text.dfy | `Text` | `Strip`, `Split`, `Join` |
| numerals.dfy | `Numerals` | `ParseInt` (`int()`), `FormatInt` (`str()`) |
| keyed.dfy | `Keyed` | the list idioms the program uses to look records up by id |
| records.dfy | `Records` | `Pet`, `Adopter`, and their line codecs |
| center.dfy | `Center` | `Store` and the five store operations |
| persistence.dfy | `Persistence` | `Load`, `Save`, their round trips, and the worked example |

Modelling choices:

- A pet line decodes to one of three outcomes:
  - `Decoded(pet)`;
  - `Skipped`, where `from_line` returns `None`: the wrong field count or an unknown class tag;
  - `BadAge`, where `int(age)` raises.
- The exception from `int(age)` escapes `load_data`, so `Load` returns a
  `Result` whose failure names the first bad line.
- A missing file is `None`, and `load_data` then starts from empty lists.
- `Strip` uses the whitespace set of `str.isspace` restricted to what a
  Latin-1 read can produce. The files are read as Latin-1 and written as
  UTF-8, so the round-trip lemmas require ASCII fields (`SafeField`).
- A class instance is a `Pet` value with a `species` field. The store keeps
  values, not references. An adopted pet is therefore the value appended to
  its adopter's `pets`, and it is removed by position from the available
  list, as `list.remove` does.

Three behaviours of the code that a reader might not expect are modelled as
written:

- `Adopter.to_line` always writes a fourth field, so an adopter without pets
  is written as `id,name,contact,` (main.py:64-65). `Adopter.from_line` reads
  that back as the single candidate id `""` (main.py:69-74), not as no
  candidates (`Records.AdopterRoundTrip`). This only matters if a pet has the
  empty id.
- `load_data` re-attaches adopters' pets by id (main.py:146-150), but
  `save_data` never writes owned pets (main.py:123-124). Save followed by load
  therefore loses adoptions; see "## Findings".
- `add_pet` and `register_adopter` do not reject a duplicate id
  (main.py:83-85, 91-93). `Center.AddPet` and `Center.RegisterAdopter` append
  duplicates, and the lemmas that need unique ids take them as a
  precondition.

## Model

| member | source | states |
|---|---|---|
| Text.Strip | main.py:24 | The result has no whitespace at either end. It is an infix of the input with only whitespace before and after it. |
| Text.StripLine | main.py:19-24 | A line whose content has no whitespace at either end loses exactly its line terminator to `strip()`. |
| Text.Split | main.py:24 | `split(',')` yields at least one part. No part contains the separator. Joining the parts gives back the input. |
| Text.Join | main.py:64 | `','.join`. It has no contract of its own. `Text.Split` states that joining split parts gives the input back, and `Text.SplitJoin` states the converse. |
| Text.SplitJoin | main.py:63-72 | Splitting the join of comma-free parts (at least one) gives back exactly those parts. |
| Numerals.ParseInt | main.py:29 | `int()` succeeds exactly on an optional minus sign followed by one or more digits. Its value is fixed by `ParseFormat`, `FormatParse` and `ParseIntLeadingZero`. |
| Numerals.ParseIntLeadingZero | main.py:29 | Leading zeros do not change the value `int()` reads, with or without a minus sign, and `-0` reads as zero. Together with `FormatParse`, this fixes the value of every accepted literal. |
| Numerals.FormatNat | main.py:20 | `str()` of a natural number is a digit string without leading zeros whose value is that number. |
| Numerals.FormatInt | main.py:20 | `str()` of an integer starts with a minus sign exactly when the integer is negative, and it is spelled canonically: no superfluous leading zero and no `-0`. `ParseFormat` states that `int()` reads it back. |
| Numerals.ParseFormat | main.py:19-29 | Reading back the age a pet line writes gives the same age. |
| Numerals.FormatParse | main.py:19-29 | A canonically spelled age parses, and writing it again gives the same text. |
| Records.ParseSpecies | main.py:28-34 | A class tag selects a species exactly when it is that species' class name. |
| Records.EncodePet | main.py:19-20 | `Pet.to_line`. It has no contract of its own. `Records.PetRoundTrip` and `Records.DecodedPetReencodes` state that it and `DecodePet` invert each other. |
| Records.DecodePet | main.py:22-34 | `Pet.from_line`. It has no contract of its own. `Records.DecodePetFields` characterises its three outcomes on the stripped, split line, and the two round-trip lemmas relate it to `EncodePet`. |
| Records.DecodePetFields | main.py:24-34 | Skipped exactly on a field count other than six or an unknown tag. BadAge exactly on a known tag with an unparsable age. Otherwise each field of the pet is the field at its position. |
| Records.PetRoundTrip | main.py:19-34 | `from_line(to_line(p))` gives back `p` when its fields are free of commas, line breaks and non-ASCII characters and its health status has no trailing whitespace. |
| Records.DecodedPetReencodes | main.py:19-34 | A line that decodes to a pet, with a canonically spelled age, is what that pet writes, up to `strip()`. |
| Records.EncodeAdopter | main.py:63-65 | `Adopter.to_line`. It has no contract of its own. `Records.AdopterRoundTrip` states what `DecodeAdopter` reads back from it. |
| Records.DecodeAdopter | main.py:67-75 | No record exactly when the stripped line splits into fewer than three fields. Otherwise the record's id, name, contact and candidate ids, joined by commas, are the stripped line, and none of them contains a comma. |
| Records.AdopterRoundTrip | main.py:63-75 | Decoding a safe adopter's line gives its id, name and contact, and its pet ids as candidates. An adopter without pets yields the single candidate `""`. |
| Keyed.RemoveKey | main.py:88 | The filtered list keeps exactly the records whose id differs, each with its original multiplicity. It equals the input when the id is absent. |
| Keyed.RemoveKeyAppend | main.py:96 | Filtering distributes over concatenation, so survivors keep their order. |
| Keyed.FindKey | main.py:112-113 | `None` exactly when no record carries the id. Otherwise the result is the first position carrying it. |
| Keyed.FindFirst | main.py:147 | A record carrying the id with none before it is the one found. |
| Keyed.RemoveAt | main.py:116 | `list.remove` of the found record drops exactly that position. The multiset loses that one element. |
| Keyed.RemoveAtUnique | main.py:116 | With unique ids, the removed record's id is no longer present, and ids stay unique. |
| Center.AddPet | main.py:83-85 | The pet is appended at the end, duplicates included. Adopters are unchanged. The pet count grows by exactly that pet. |
| Center.RemovePet | main.py:87-89 | Exactly the available pets with that id are gone, and the others keep their multiplicity. Adopters are untouched. An absent id changes nothing. |
| Center.RegisterAdopter | main.py:91-93 | The adopter is appended at the end. The pets are unchanged. |
| Center.RemoveAdopter | main.py:95-97 | Exactly the adopters with that id are gone. The available pets are unchanged, so the removed adopters' pets do not return to availability. |
| Center.AdoptPet | main.py:111-119 | Adopted exactly when both ids exist, and otherwise nothing changes. On adoption the first matching adopter gets the first matching pet appended, that one pet leaves the available list, and every other adopter is unchanged. |
| Center.AdoptConserves | main.py:111-119 | Adoption moves a pet from available to owned. No pet is created or lost. |
| Center.AdoptLeavesNoAvailableCopy | main.py:111-119 | With unique ids, an adopted pet's id is no longer available, and ids stay unique. |
| Center.RemovePetUndoesAddPet | main.py:83-89 | Removing a pet whose id was new restores the store it was added to. |
| Center.RemoveAdopterUndoesRegister | main.py:91-97 | Removing an adopter whose id was new restores the store it was registered in. |
| Center.RemoveAdopterDropsOwnedPets | main.py:95-97 | The owned pets after `remove_adopter`, together with the removed adopters' pets, are exactly the owned pets before. |
| Persistence.CollectPets | main.py:130-137 | Success exactly when no line has an unreadable age. Otherwise the failure names the first such line. The loaded pets are exactly the decoded ones. |
| Persistence.LoadPets | main.py:130-137 | The pets half of `load_data` fails exactly when some line has an unreadable age, and the failure names the first such line. Otherwise the loaded pets are exactly the decoded ones; `CollectPetsAppend` gives their file order. |
| Persistence.CollectPetsAppend | main.py:132-135 | Loading two halves of a readable file loads them one after the other, so pets keep file order. |
| Persistence.LoadEncodedPets | main.py:121-137 | Reading back the pets file written for safe pets gives the same pets in the same order. |
| Persistence.ResolveCandidates | main.py:146-150 | An adopter's owned pets are extended at the end by at most one pet per candidate id. `ResolveSkip` and `ResolveFound`, with `Keyed.FindKey`, fix each step of the loop. |
| Persistence.ResolveSkip | main.py:146-148 | A candidate id with no available match is dropped, and the ids after it are still resolved against the same available pets. |
| Persistence.ResolveFound | main.py:146-150 | A candidate id whose first available match is at position `j` moves exactly that pet to the end of the adopter's pets. The ids after it are resolved against what remains. |
| Persistence.ResolveConserves | main.py:146-150 | Resolving candidate ids only moves pets from available to owned. |
| Persistence.ResolveUnmatched | main.py:146-150 | Candidate ids that match no available pet move nothing. |
| Persistence.ResolveOwnPets | main.py:146-150 | With unique ids, an adopter's own pet ids, resolved in order, take back exactly its pets from where they sit. |
| Persistence.AddAdopterRecord | main.py:142-151 | Each decoded line appends exactly one adopter, with the line's id, name and contact, whether or not any candidate resolved. That adopter's pets, and the pets left available, are what its candidate ids resolve to. |
| Persistence.AddAdopterRecordConserves | main.py:142-151 | Adding one decoded adopter does not change the multiset of all pets. |
| Persistence.Present | main.py:142-143 | The adopter lines that decode are kept and the others are dropped: every kept record comes from a line, and every decoded line's record is kept. |
| Persistence.PresentAppend | main.py:141-143 | Filtering two runs of lines keeps their records one after the other, so records keep file order. |
| Persistence.AddAdopterRecords | main.py:139-153 | One adopter per decoded line, in file order, after the existing ones, with that line's id, name and contact. `AddAdopterRecordsOne` and `AddAdopterRecordsAppend` fix which pets each one gets. |
| Persistence.AddAdopterRecordsOne | main.py:141-151 | One record is resolved against the store as it stands. |
| Persistence.AddAdopterRecordsAppend | main.py:141-151 | Lines are processed in file order. Each later line is resolved against the pets the earlier lines left available. |
| Persistence.EarlierLineWins | main.py:141-151 | Worked example: when two adopter lines both name Rex's id, the earlier line gets Rex and the later adopter gets nothing. |
| Persistence.AddAdopterRecordsConserves | main.py:139-153 | Loading adopters never creates or loses a pet. |
| Persistence.Load | main.py:129-153 | Success exactly when the pets file is missing or all its ages are readable. A missing adopters file gives no adopters, and the available pets are then the loaded pets in file order. Otherwise there is one adopter per decodable line, in order, with that line's id, name and contact. Two missing files give the empty store. |
| Persistence.LoadConservesPets | main.py:129-153 | When no pet line has an unreadable age, so that loading succeeds, the available plus owned pets are exactly the pets decoded from the pets file. |
| Persistence.DecodeEncodedAdopters | main.py:125-127 | For codec-safe adopters, every written adopter line decodes, in order, to its written record. |
| Persistence.AddUnmatchedRecords | main.py:139-153 | Adopter lines whose candidate ids match no available pet add adopters without pets and leave the pets alone. |
| Persistence.Save | main.py:121-127 | `save_data`. It has no contract of its own. `SaveThenLoad` states what loading its files gives back, and `SaveThenLoadLosesAdoption` shows the adoption it loses. |
| Persistence.SaveThenLoad | main.py:121-153 | `save_data` followed by `load_data` gives back the available pets exactly. The adopters come back in order with every pet dropped. |
| Persistence.LoadWorkedExample | main.py:129-153 | Worked example: the pets file holds `Dog,P1,Rex,3,Labrador,Healthy` and the adopters file holds `A1,Jane,555-1234,P1`. Loading gives no available pets and Jane owning Rex. |
| Persistence.SaveWorkedExample | main.py:121-127 | Saving that store writes an empty pets file and the adopters line `A1,Jane,555-1234,P1`. |
| Persistence.SaveThenLoadLosesAdoption | main.py:121-127 | Loading those saved files gives Jane without Rex, which differs from the store that was saved. |
| Persistence.ResolveSavedOwners | main.py:139-153 | For pet ids, available and owned, that are unique and non-empty, loading the corrected save's adopter lines against the available pets followed by all owned pets returns every adopter its pets. It leaves exactly the available pets. |
| Persistence.SaveKeepingOwnedThenLoad | main.py:121-153 | For codec-safe records whose pet ids, available and owned, are unique and non-empty, load after the corrected save reproduces the store exactly, adoptions included. With a duplicate id a saved adopter line can still take the wrong pet. |
| Persistence.SaveKeepingOwnedWorkedExample | main.py:121-127 | In the worked example, the corrected save also writes Rex's line `Dog,P1,Rex,3,Labrador,Healthy`. By `LoadWorkedExample`, loading those files gives Jane back with Rex. |

## Left out

- The menu loop `main()` (main.py:155-224). It is console I/O. Its
  case-insensitive type choice only picks a constructor, which is a `Pet`
  with a `species` in the model.
- `print` output, `display`, `list_pets` and `list_adopters`
  (main.py:16-17, 55-61, 85, 89, 93, 97, 99-109, 117-119). They only format
  text. `adopt_pet`'s two messages become the `AdoptOutcome` result.
- `get_health_status` and `set_health_status` (main.py:10-14). The private
  health attribute is a plain record field.
- File handling. Opening, reading lines, writing and the encodings are left
  out. `Load` takes each file as its lines, or `None` when it is missing, and
  `Save` returns the lines it would write.
- Numerals.ParseInt: Python's `int()` also accepts surrounding whitespace, a
  leading `+` and `_` digit separators. The model accepts only an optional
  `-` followed by ASCII digits. The model also has no length limit. Since
  CPython 3.11 (and the 3.7.14, 3.8.14, 3.9.14 and 3.10.7 security releases), `int()` raises
  `ValueError` on a decimal string of more than 4300 digits. Such an age at
  main.py:29 would abort `load_data`, but the model decodes it.
- Numerals.FormatInt: likewise, `str()` of an integer with more
  than 4300 digits raises in CPython 3.11 and later, so `to_line` would fail.
  The model writes the digits.
- Text.Strip: the whitespace set covers the characters a Latin-1 read can
  produce. Other Unicode whitespace cannot appear in a line read that way.
- Records.PetRoundTrip: requires the health status to have no trailing
  whitespace, because `strip()` removes it from the line's last field. The id
  cannot lose leading whitespace, since the class tag leads the line.
- Records.AdopterRoundTrip: requires the adopter id to have no leading
  whitespace and the last pet id to have no trailing whitespace, for the same
  reason.
- Persistence.ResolveCandidates: its contract states only that owned pets are
  extended at the end by at most one pet per id. The step lemmas
  `ResolveSkip` and `ResolveFound` state what each id does.
- Persistence.SaveThenLoad: stated for codec-safe records whose written
  candidate ids, including the `""` of an adopter without pets, match no
  available pet. Otherwise a saved adopter line can capture an available pet
  on load.
- Object identity. Two equal pets are indistinguishable in the model, while
  Python's `list.remove` compares by equality too. Since `Pet` defines no
  `__eq__`, that comparison is by identity, which agrees with removing the
  found position.

## Findings

| source | as written | input that shows it | evidently intended | confidence | as-written member | corrected member |
|---|---|---|---|---|---|---|
| main.py:121-127 | `save_data` writes only the available pets. Adopted pets sit only in their adopter's list and get no line in `pets.txt`. On the next load their ids in `adopters.txt` resolve to nothing, and the adoption is lost. The exception is an available pet that shares the id, which is then captured instead. | A store with no available pets and adopter A1 (Jane) owning pet P1 (Rex, a 3-year-old Labrador). Save writes an empty `pets.txt` and `A1,Jane,555-1234,P1`. Loading gives Jane with no pets. | For codec-safe records whose pet ids, available and owned, are unique and non-empty, save then load reproduces the store, adoptions included. Owned pets are also written to `pets.txt`, and the existing load loop moves them back to their adopters. | not executed | Persistence.SaveThenLoadLosesAdoption | Persistence.SaveKeepingOwnedThenLoad |
