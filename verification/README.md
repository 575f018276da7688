# Client registry (cadastro de clientes) in Dafny

A model of the core of a small client registry. Each client has a name
(`nome`), an email, a phone (`telefone`), a CPF and a birth date
(`data_nascimento`). The model covers:

- **Validators** (`src/clientes/validators.py`): `validar_email`,
  `validar_cpf` and `validar_data`. Each accepts the empty string, because
  the field is optional.
  - The email must match `^[\w\.-]+@[\w\.-]+\.\w+$`.
  - The CPF must hold exactly eleven decimal digits once everything else is
    removed.
  - The date must be accepted by `strptime(..., "%d/%m/%Y")`.
- **Repository** (`src/clientes/repository.py`): the `clientes` table with
  its `AUTOINCREMENT` id, and the insert, list, get-by-id, search-by-name
  (`nome LIKE '%part%'`), update and delete operations.
- **Batch service** (`src/clientes/service.py`): `processar_lote_clientes`.
  - It rejects a payload that is not a list.
  - It trims every field of every item and collects the failed checks into
    `erros`.
  - It reports each rejected item with its position, and inserts the rest.
- **Terminal front end** (`src/utils/email.py`):
  - `input_cliente`, with an empty answer keeping the previous value and a
    retry loop per checked field;
  - the register, edit and delete options.

  That file also repeats the validators (`email.py:35-54`) and the CRUD
  operations (`email.py:60-118`) line for line. The same members model both
  copies.

Modules, one per file:

| file | module | what it holds |
|---|---|---|
| `wrappers.dfy` | `Wrappers` | `Option` and `Result` |
| `text.dfy` | `Text` | `str.strip` over Python's whitespace set, and the search and case helpers |
| `validators.dfy` | `Validators` | the three validators, each with an independent description of the text it accepts |
| `like.dfy` | `SqlLike` | SQLite's `LIKE` matching, and what `'%' + q + '%'` means |
| `repository.dfy` | `Repository` | `ClientTable`, a class whose `rows` map and `nextId` counter the operations update in place |
| `service.dfy` | `Service` | the batch: a specification by functions, and the loop as a method proved against it |
| `terminal.dfy` | `Terminal` | the prompts as functions over the sequence of typed answers, the `while True` loops as methods proved against them, and the menu options acting on the table |

Each checked operation is paired with an independent description:

- `ValidEmail` with the existence of a split matching the pattern;
- `ParseDate` with the existence of a layout matching `%d/%m/%Y`;
- `SearchByName` with case-insensitive substring containment;
- the batch functions with their partition, order and append lemmas;
- each loop method with the function it computes.

The interactive input is a sequence of answers. Running out of answers
(end of input) gives `None` and changes nothing.

## Model

| member | source | states |
|---|---|---|
| Text.Strip | src/clientes/service.py:19-23 | `str.strip()` removes whitespace at both ends and never lengthens the text |
| Text.StripEnds | src/clientes/service.py:19-23 | a stripped text is empty or starts and ends with a non-whitespace character |
| Text.StripIsSlice | src/clientes/service.py:19-23 | the stripped text is a contiguous slice of the input with only whitespace before and after it |
| Text.StripEmptyIffBlank | src/utils/email.py:147-148 | the stripped answer is empty exactly when the answer is all whitespace, which is when a name is refused |
| Text.StripIdempotent | src/clientes/service.py:19-23 | stripping twice is stripping once |
| Text.IndexOf | src/clientes/validators.py:38-42 | the position of the first occurrence, or the length when the character is absent, with no occurrence before it |
| Text.LastIndexOf | src/clientes/validators.py:13-14 | the position of the last occurrence, or -1, with no occurrence after it |
| Text.AsciiLower | src/utils/email.py:270 | `.lower()` restricted to ASCII: keeps the length and lowers exactly `A`–`Z`, which decides `== "s"` as `.lower()` does (see Terminal.ConfirmsExactly) |
| Validators.EmailShape | src/clientes/validators.py:13-14 | the first-`@`/last-`.` reading of the pattern; whatever it accepts is at least `x@y.z` long, neither starts with `@` nor ends with `.` |
| Validators.ValidEmail | src/clientes/validators.py:5-14 | the empty address is accepted |
| Validators.EmailShapeIsPattern | src/clientes/validators.py:13-14 | splitting at the first `@` and the last `.` after it succeeds exactly when some split matches `[\w\.-]+@[\w\.-]+\.\w+` |
| Validators.ValidEmailIsPatternMatch | src/clientes/validators.py:5-14 | an address is accepted iff it is empty, or the whole of it matches the pattern, or it is a match followed by one newline (`$` before a final `\n`) |
| Validators.AcceptedEmailHasOneAt | src/clientes/validators.py:13-14 | an accepted non-empty address holds exactly one `@`, neither first nor last |
| Validators.EmailExamples | src/clientes/validators.py:13-14 | `a@b.co` is accepted, and so is `a@b.co` followed by a newline |
| Validators.EmailRejectExamples | src/clientes/validators.py:13-14 | texts without an `@` (`bad`, `not-an-email`) are rejected |
| Validators.DigitsOf | src/clientes/validators.py:26 | `re.sub(r"\D", "", cpf)` leaves only digits and never lengthens the text |
| Validators.DigitsOfCountsDigits | src/clientes/validators.py:26-27 | the length of the kept text is the number of digit positions of the input |
| Validators.ValidCpf | src/clientes/validators.py:17-27 | the empty CPF is accepted |
| Validators.ValidCpfCountsDigits | src/clientes/validators.py:17-27 | a non-empty CPF is accepted iff exactly eleven of its characters are digits |
| Validators.CpfIgnoresNonDigits | src/clientes/validators.py:26-27 | inserting non-digit characters inside a non-empty CPF does not change the verdict |
| Validators.CpfMaskedExample | src/clientes/validators.py:26-27 | `111.222.333-44` is accepted |
| Validators.CpfPlainExample | src/clientes/validators.py:26-27 | `12345678901` is accepted |
| Validators.CpfShortRejected | src/clientes/validators.py:26-27 | `123` is rejected |
| Validators.DayValue | src/clientes/validators.py:39 | a day matched by `%d` reads as 1 to 31 |
| Validators.MonthValue | src/clientes/validators.py:39 | a month matched by `%m` reads as 1 to 12 |
| Validators.DaysInMonth | src/clientes/validators.py:38-42 | months have 28 to 31 days, and February has 29 exactly in Gregorian leap years |
| Validators.ParseDate | src/clientes/validators.py:39 | the matching half of `strptime`: a date it reads has day 1 to 31 and month 1 to 12 (the layout itself is `ParseDateIsFormat`) |
| Validators.IsCalendarDate | src/clientes/validators.py:39 | the range check of `datetime(year, month, day)`: day at most 31, a 29 February only in leap years, no 31st in February, April, June, September or November |
| Validators.ParseDateSound | src/clientes/validators.py:39 | whatever the parser reads, the whole text matches `%d/%m/%Y` with those fields |
| Validators.ParseDateComplete | src/clientes/validators.py:39 | every text matching `%d/%m/%Y` is read by the parser, with its fields |
| Validators.ParseDateIsFormat | src/clientes/validators.py:39 | the parser returns `d` iff the text matches `%d/%m/%Y` with fields `d` |
| Validators.ValidDate | src/clientes/validators.py:30-42 | the empty date is accepted |
| Validators.ValidDateIsCalendarDate | src/clientes/validators.py:30-42 | a date is accepted iff it is empty, or matches `%d/%m/%Y` and names a real Gregorian date from year 1 on |
| Validators.DateRejectsTrailingText | src/clientes/validators.py:38-42 | text after an accepted date makes it rejected ("unconverted data remains") |
| Validators.FormatDateParses | src/clientes/validators.py:39 | writing a date as `dd/mm/yyyy` and parsing it gives the same date back (round trip) |
| Validators.LeapDayAccepted | src/clientes/validators.py:38-42 | 29/02/2020 is accepted |
| Validators.NonLeapDayRejected | src/clientes/validators.py:38-42 | 29/02/2021 is rejected |
| Validators.OutOfCalendarExamples | src/clientes/validators.py:38-42 | 31/04/2024 and year 0000 are rejected |
| Validators.OneDigitDayAndMonthAccepted | src/clientes/validators.py:39 | one-digit day and month (`5/8/1990`) are accepted as well as two-digit ones |
| SqlLike.Like | src/clientes/repository.py:64 | SQLite `LIKE` with `%`, `_` and ASCII case folding; a pattern without `%` matches only texts of its own length (its full meaning for the search pattern is SqlLike.SubstringSearch) |
| SqlLike.SubstringPattern | src/clientes/repository.py:66 | `f"%{part}%"` is the part between two `%` |
| SqlLike.PercentMatchesAll | src/clientes/repository.py:64 | `%` alone matches every name |
| SqlLike.LeadingPercent | src/clientes/repository.py:64 | a leading `%` matches iff the rest of the pattern matches some suffix |
| SqlLike.PrefixThenPercent | src/clientes/repository.py:64 | a wildcard-free text followed by `%` matches iff it is a case-insensitive prefix |
| SqlLike.SubstringSearch | src/clientes/repository.py:64-66 | for a wildcard-free part, `nome LIKE '%part%'` holds iff the part occurs in the name up to ASCII case |
| SqlLike.EmptyNeedleMatchesAll | src/clientes/repository.py:64-66 | the empty part matches every name |
| Repository.FilterByName | src/clientes/repository.py:62-68 | the kept rows are exactly those whose name is LIKE the pattern, in ascending id order |
| Repository.FilterKeepsAllMatching | src/clientes/repository.py:62-68 | when every row matches, the filter keeps all rows |
| Repository.ClientTable.constructor | src/clientes/database.py:26-33 | a new table is empty and its next id is 1 |
| Repository.ClientTable.Insert | src/clientes/repository.py:4-18 | the new row gets the next `AUTOINCREMENT` id, above every id in use, nothing else changes, and lookup by the new id gives the five fields back |
| Repository.ClientTable.List | src/clientes/repository.py:21-32 | the listing holds exactly the stored rows, each once, in ascending id order |
| Repository.ClientTable.Get | src/clientes/repository.py:35-51 | `None` iff the id is absent; otherwise the row with that id and its stored fields |
| Repository.ClientTable.SearchByName | src/clientes/repository.py:54-70 | the result is exactly the listed rows whose name is LIKE `%part%`, in id order |
| Repository.ClientTable.Update | src/clientes/repository.py:73-88 | an existing id gets the new fields; an unknown id changes nothing; ids are not consumed |
| Repository.ClientTable.Delete | src/clientes/repository.py:91-99 | the id's row is removed and nothing else; an unknown id changes nothing, so a second delete is a no-op |
| Repository.GetAgreesWithList | src/clientes/repository.py:35-51 | lookup by id finds a row iff the listing has a row with that id, and it is that row |
| Repository.SearchEmptyListsAll | src/clientes/repository.py:54-70 | searching for the empty part lists every row |
| Repository.SearchIsSubstringMatch | src/clientes/repository.py:54-70 | for a wildcard-free part, a row is found iff it is stored and its name contains the part, ignoring ASCII case |
| Service.Fails | src/clientes/service.py:27-34 | the four checks; an empty email, CPF or date never fails, since those fields are optional |
| Service.Field | src/clientes/service.py:19-23 | `(cliente.get(key) or "").strip()`: a missing key or `None` reads as "", and a field never starts or ends with whitespace |
| Service.Trimmed | src/clientes/service.py:19-23 | the five trimmed fields; each missing key gives an empty field |
| Service.CheckReason | src/clientes/service.py:27-34 | one check contributes its reason exactly when it fails |
| Service.Reasons | src/clientes/service.py:25-34 | at most four reasons per item |
| Service.ReasonsAreFailedChecks | src/clientes/service.py:25-34 | a reason is listed iff its check fails on the trimmed fields: every check runs |
| Service.ReasonsInCheckOrder | src/clientes/service.py:27-34 | the reasons appear in the order nome, email, cpf, data, each at most once |
| Service.Outcome | src/clientes/service.py:19-34 | at most four reasons for the trimmed item |
| Service.AcceptedIffAllChecksPass | src/clientes/service.py:25-45 | an item is inserted iff its name is not blank and its email, CPF and date pass the validators |
| Service.BlankNameAlwaysRejected | src/clientes/service.py:19-28 | a missing, `None` or all-whitespace name is always rejected with `nome obrigatório` |
| Service.TelefoneNeverChecked | src/clientes/service.py:21-34 | the phone plays no part in the verdict |
| Service.Accepted | src/clientes/service.py:44-45 | `criadas` is never longer than the payload |
| Service.Rejections | src/clientes/service.py:36-42 | `falhas` is never longer than the payload |
| Service.BatchPartition | src/clientes/service.py:18-45 | each item lands in exactly one of `criadas` and `falhas` |
| Service.AcceptedArePassing | src/clientes/service.py:44-45 | an item is in `criadas` iff it is in the payload and passes every check |
| Service.RejectionsDescribeFailures | src/clientes/service.py:36-42 | each failure records the item's position, the item as sent and its non-empty reasons, by increasing position |
| Service.FailingItemIsReported | src/clientes/service.py:36-42 | every failing item appears in `falhas` at its own position |
| Service.Shifted | src/clientes/service.py:18 | renumbering keeps the length |
| Service.ShiftedMovesPositions | src/clientes/service.py:18 | renumbering moves each position by the offset and keeps item and reasons |
| Service.AcceptedAppend | src/clientes/service.py:18-45 | the batch of `a + b` accepts what `a` accepts, then what `b` accepts |
| Service.RejectionsAppend | src/clientes/service.py:18-42 | the failures of `a + b` are those of `a`, then those of `b` with positions moved by `|a|` |
| Service.TrimmedAll | src/clientes/service.py:19-23 | one trimmed record per item, in order |
| Service.WithInserted | src/clientes/service.py:44 | the table after the batch's inserts holds exactly the old ids plus the new ids `start` to `start + n - 1` (its contents: Service.WithInsertedLookup) |
| Service.WithInsertedLookup | src/clientes/service.py:44 | after the batch, the k-th accepted record sits at id `start + k`, and older ids keep their rows |
| Service.CheckItem | src/clientes/service.py:25-34 | the four `if ...: erros.append(...)` steps build exactly `Reasons` |
| Service.HandleItem | src/clientes/service.py:19-45 | one loop pass: computes the item's reasons and inserts its trimmed fields only when there are none |
| Service.ProcessBatch | src/clientes/service.py:6-47 | a non-list gives the error message and changes nothing; a list gives `(criadas, falhas)` as specified and inserts the trimmed accepted items at consecutive new ids |
| Terminal.KeepPrevious | src/utils/email.py:156-158 | an answer that is blank after `.strip()` keeps the previous value; any other answer replaces it with its stripped, non-empty text (the same rule at lines 164-166, 169-171, 181-182) |
| Terminal.AskChecked | src/utils/email.py:155-186 | the value is the first merged answer that passes the check, every earlier answer failed, and `None` means all answers failed |
| Terminal.AskName | src/utils/email.py:146-153 | when creating, the first non-blank answer after blank ones; when editing, one answer with blank keeping the old name; `None` iff the answers run out first |
| Terminal.AskPhone | src/utils/email.py:164-166 | one answer, no check, blank keeps the previous phone |
| Terminal.AskUntilValid | src/utils/email.py:155-162 | the `while True` loop returns what `AskChecked` specifies |
| Terminal.AskNameLoop | src/utils/email.py:146-153 | the name loop returns what `AskName` specifies |
| Terminal.InputClient | src/utils/email.py:135-188 | `input_cliente` returns what `InputOutcome` specifies |
| Terminal.Previous | src/utils/email.py:140-144 | the previous values are the stored record when editing and all empty when creating |
| Terminal.InputOutcome | src/utils/email.py:135-188 | what `input_cliente` returns passes the email, CPF and date validators, and a new client's name is never empty |
| Terminal.BlankAnswersKeepRecord | src/utils/email.py:140-188 | editing a valid record with five blank answers gives the record back unchanged |
| Terminal.CreatingSkipsBlankNames | src/utils/email.py:146-153 | when creating, blank names are skipped and the first non-blank one is taken, trimmed |
| Terminal.Confirms | src/utils/email.py:270-271 | `input(...).strip().lower() == "s"`; a confirming answer strips to a single character (exactly which: Terminal.ConfirmsExactly) |
| Terminal.ConfirmsExactly | src/utils/email.py:270-271 | deletion is confirmed iff the trimmed answer is `s` or `S` |
| Terminal.Register | src/utils/email.py:190-194 | the read client is inserted at the next id; nothing changes when input runs out |
| Terminal.Edit | src/utils/email.py:234-254 | an unknown id changes nothing; otherwise the row gets the fields read with the stored ones as defaults |
| Terminal.Remove | src/utils/email.py:256-275 | the row is deleted iff the id exists and the answer confirms |

## Left out

- `\w`, `\d`, Python's `str.lower()` and SQLite's case folding are modelled on ASCII only. Python's `re` treats every Unicode letter and digit as `\w`/`\d`.
- Validators.ValidEmail: an address with non-ASCII letters or digits is rejected by the model and may be accepted by the source.
- Validators.ValidCpf: non-ASCII digits can change the verdict in either direction. The source keeps them and the model drops them, so `12345678901` followed by U+0663 is accepted by the model and rejected by the source.
- Text.AsciiLower lowers `A`–`Z` only. Its one use, the `== "s"` comparison of the delete confirmation, decides exactly as `.lower()` does, since no other character lowers to `s`.
- Names are never matched against `\w`. They are only stripped and tested for emptiness.
- `str.strip()` is modelled with the whitespace set of `str.isspace` (ASCII blanks, the separators U+001C–U+001F, U+0085, U+00A0, U+1680, U+2000–U+200A, U+2028, U+2029, U+202F, U+205F, U+3000).
- SQLite itself is not modelled: files, connections, commits, locking, constraint errors, and the maximum rowid with its "database full" error. `AUTOINCREMENT` is modelled as a counter that only grows.
- `nome TEXT NOT NULL` (src/clientes/database.py:28) is not modelled. Every path in the model passes a string for the name.
- The listing order: `SELECT` without `ORDER BY` gives no promised order. The model lists rows by ascending id, which is SQLite's usual rowid scan order.
- Repository.ClientTable.Update and Repository.ClientTable.Delete: the source reports nothing about an unknown id (no row count, no error), and so does the model.
- Service.ProcessBatch:
  - items that are not dictionaries, and field values that are not strings (which raise `AttributeError` in the source), are not modelled: an item is a map from keys to optional strings;
  - the `ValueError` for a payload that is not a list is modelled as a `Failure` carrying its message.
- The Flask application (`src/web/app.py`) and the table creation (`src/clientes/database.py`) are not part of this model, beyond the schema's id counter.
- Terminal I/O is not modelled: the prompts and messages printed, `exibir_menu`, `opcao_listar`, `opcao_buscar_por_id`, `opcao_buscar_por_nome` and the `main` loop. These only print what the repository members return.
- The `int(input(...))` id prompts and their `ValueError` are not modelled. Terminal.Edit and Terminal.Remove take the id as already read.
- End of input (`EOFError`) is modelled as `None` with the table unchanged.
- Terminal.Register: the source inserts whatever `input_cliente` returns. The model does the same, and adds only that nothing is inserted when the answers run out.

### Where the code is looser than its documented behaviour

- The date is documented as `dd/mm/aaaa`, but `strptime` also accepts:
  - one-digit days and months (`5/8/1990`);
  - a day written with a leading blank (`" 5/08/1990"`).

  The model follows the code (`OneDigitDayAndMonthAccepted`, `DayText`).
- The email pattern ends in `$`, which also matches before a single final newline, so `a@b.co\n` is accepted (`ValidEmailIsPatternMatch`). Every caller strips its input first, so this cannot reach the table.
- Searching by name for an empty text returns every row, and `%` and `_` inside the searched text act as wildcards (`SearchEmptyListsAll`, `SearchIsSubstringMatch` requires a wildcard-free part).
