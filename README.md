# sql-test-data-generator, modelled in Dafny

`sql-test-data-generator` reads `CREATE TABLE` files and writes
`INSERT INTO` statements with random test data. A list of shared fields can
give a column the same value in every table. The model covers the four
pieces of text processing at its heart:

- **`parse_data_type`** (`type_parser.dfy`, module `TypeParser`) splits a
  column type such as `DECIMAL(5, 2) NOT NULL` into four parts:
  - an upper-cased base word;
  - an optional length and an optional precision;
  - a `NOT NULL` flag.

  The anchored regular expression becomes an explicit scanner, with `\w`
  and `\d` read as their ASCII classes. The scanner is proved to agree with a declarative description
  of the shape the pattern accepts. Parsing is proved to invert a canonical
  rendering.
- **`SchemaParser.parse_schema`** (`schema_parser.dfy`, module
  `SchemaParser`) runs on a file's text:
  - it finds the table name, leftmost match first;
  - it extracts the column block with the depth-counting loop;
  - it splits the block on commas at depth zero;
  - it skips constraint lines and builds the ordered column dictionary.

  Each loop is a `method` proved equal to a function. The lemmas about these
  functions state what the source promises: the depth never goes below
  zero, nothing is lost in the split, first-occurrence order is kept, the
  last type wins, and each of the three errors is raised exactly when its
  condition holds.
- **`DataGenerator.generate_value`** (`data_generator.dfy`, module
  `DataGenerator`, with the calendar in `dates.dfy`) dispatches on the base
  word. The random source is an explicit stream of draws (`Rng`). Every
  branch is proved to return a literal of a reference predicate
  (`MayGenerate`) for every stream. For the text, integer, date and boolean
  branches, "covers" lemmas show that every allowed literal is produced by
  some stream. Two Python quirks are kept as written:
  - `base_type in ('DATE')` tests substrings;
  - a length or precision of 0 counts as absent.
- **`SQLGenerator`** (`sql_generator.dfy`, module `SqlGenerator`) covers:
  - reading the shared fields list and validating it;
  - generating the shared values;
  - the nested loops that assemble the statements;
  - the error paths of `generate_insert_statements`.

  Each loop is a `method` proved against a specification function. The
  whole run is proved to match a function `Run`. Lemmas about `Run` give
  exactly when it fails and with which message, the shape of its output
  (one entry per schema, `num_records` statements each, columns in declared
  order), and that a shared field has the same value in every table.

`basics.dfy` holds `Option`, `Result` and `Outcome`. `strings.dfy` holds:
- the character classes: `\w` and `\d` on ASCII, and white space as Python
  defines it for `\s` and `str.strip`;
- `str.strip`, and `str.upper` on ASCII letters only;
- `str.split`, `str.join` and `str(n)`.

 `types.dfy` models a Python dictionary as `Dict`, a sequence of
entries in insertion order with distinct keys. It also holds the
`Schema = (table, columns)` pair and the `(table, statements)` pairs.

## Model

| member | source | states |
|---|---|---|
| TypeParser.ParseDataType | sql_generator/utils.py:18-28 | Fails, with the `Invalid data type format: ` message, exactly when the text is empty or does not start with a word character, so trailing text never causes failure. Otherwise the base type is the maximal leading word run, upper-cased, and a precision is reported only together with a length. |
| TypeParser.ParseArgsMatches | sql_generator/utils.py:18 | The argument group is recognised at a position with given run ends exactly when the text there has the accepted shape: `(`, digits, white space, then `)` or `,` white space digits `)`. |
| TypeParser.ParseArgsSound | sql_generator/utils.py:18 | Whatever the scanner recognises as an argument list has the accepted shape. |
| TypeParser.ParseArgsComplete | sql_generator/utils.py:18 | Every argument list of the accepted shape is recognised, whatever follows it. |
| TypeParser.LengthPresentIff | sql_generator/utils.py:18-25 | A length is reported exactly when an argument list of the accepted shape follows the base word and its optional white space. |
| TypeParser.NotNullIff | sql_generator/utils.py:18-26 | The flag is set exactly when case-insensitive `NOT`, white space and `NULL` come after the base word or argument list with only white space between, so `INT UNSIGNED NOT NULL` does not set it. |
| TypeParser.NotNullFlagIff | sql_generator/utils.py:18 | Where no word continues across the position, the `\b` before `NOT` has no effect on the flag. |
| TypeParser.OneArgAt | sql_generator/utils.py:24 | `(M)` is recognised with length `int(M)`. |
| TypeParser.TwoArgsAt | sql_generator/utils.py:24-25 | `(M,D)` is recognised with length `int(M)` and precision `int(D)`. |
| TypeParser.ArgTextAt | sql_generator/utils.py:24-25 | A canonical argument list reads back as the numbers it spells, 0 included, and ends where the list ends. |
| TypeParser.RenderParse | sql_generator/utils.py:18-28 | Parsing inverts the canonical rendering for every well-formed descriptor, length 0 included, and any text after `NOT NULL` leaves the result unchanged. |
| SchemaParser.TableAt | sql_generator/schema_parser.py:30 | A name captured by `CREATE\s+TABLE\s+(\w+)\s*\(` at one position is a non-empty word. |
| SchemaParser.FindTableNone | sql_generator/schema_parser.py:30-32 | No table name is found exactly when the pattern matches at no position. |
| SchemaParser.FindTableLeftmost | sql_generator/schema_parser.py:30-33 | A name found is the one captured at the leftmost matching position, with its case kept. |
| SchemaParser.BlockEndSpec | sql_generator/schema_parser.py:41-54 | Up to where the block ends, the depth never goes below zero and every `)` is met at positive depth. The block ends at the text's end or at a `)` at depth zero. |
| SchemaParser.ExtractColumnBlock | sql_generator/schema_parser.py:37-54 | The loop collects exactly the text after the first `(` up to the `)` that closes it, or to the end; nothing without a `(`. |
| SchemaParser.SplitColumnDefs | sql_generator/schema_parser.py:61-77 | The loop gives exactly the raw pieces cut at depth-zero commas, each stripped, the blank ones dropped, in order. |
| SchemaParser.KeptTrimmed | sql_generator/schema_parser.py:71-77 | Every definition kept is stripped and not blank. |
| SchemaParser.PiecesJoin | sql_generator/schema_parser.py:65-75 | Joining the raw pieces with `,` gives the text back, so the split loses nothing but the separating commas. |
| SchemaParser.PiecesWhole | sql_generator/schema_parser.py:65-75 | A text whose commas all lie inside parentheses, such as `DECIMAL(5,2)`, stays one piece. |
| SchemaParser.JoinPieces | sql_generator/schema_parser.py:65-75 | Balanced definitions joined with commas split back into exactly those definitions. |
| SchemaParser.SplitDefsJoin | sql_generator/schema_parser.py:61-77 | Stripped, balanced definitions joined with commas are split back into exactly those definitions, in order. |
| SchemaParser.ConstraintSkipped | sql_generator/schema_parser.py:84-86 | A definition whose upper-cased text starts with `PRIMARY`, `FOREIGN` or `CONSTRAINT` declares no column, even an ordinary column such as `primary_email`. |
| SchemaParser.TypeStart | sql_generator/schema_parser.py:88 | Where `(.+)` starts after `\s+` backtracks: the last position in range that holds a character other than a line feed, or none. |
| SchemaParser.MatchColumn | sql_generator/schema_parser.py:88 | A match has a non-empty word as its name and a non-empty rest containing no line feed. |
| SchemaParser.MatchStripped | sql_generator/schema_parser.py:88 | On a stripped definition the type starts after all the white space following the name and runs to the first line feed. |
| SchemaParser.StripBackticksWord | sql_generator/schema_parser.py:90 | `strip('`')` leaves a captured name unchanged, because a word contains no backtick. |
| SchemaParser.ColumnOfShape | sql_generator/schema_parser.py:84-92 | A declared column has a word for its name and a stripped, non-empty, upper-case type. |
| SchemaParser.ColumnOfRender | sql_generator/schema_parser.py:84-92 | A definition written as name, white space and a one-line type, and not a constraint, declares that column with the type upper-cased. |
| SchemaParser.BuildColumns | sql_generator/schema_parser.py:80-95 | The loop builds exactly the dictionary that assigning each declared column in turn gives. |
| SchemaParser.ColumnsSpec | sql_generator/schema_parser.py:80-92 | Each column appears once, at the place of its first definition, with the type of its last definition. |
| SchemaParser.ColumnsShape | sql_generator/schema_parser.py:80-97 | The dictionary has distinct, well-shaped columns and is empty exactly when no definition declares a column. |
| SchemaParser.ParseSchema | sql_generator/schema_parser.py:29-103 | The method's result on the file's text, or on its read error, is the function `SchemaOf`. |
| SchemaParser.SchemaErrorWrapped | sql_generator/schema_parser.py:102-103 | Every failure, a read error included, is raised again as `Error parsing schema <path>: ...`. |
| SchemaParser.SchemaRefused | sql_generator/schema_parser.py:30-98 | A text is refused exactly when the table pattern matches nowhere, when the column block is blank, or when no definition declares a column. |
| SchemaParser.SchemaAccepted | sql_generator/schema_parser.py:30-101 | A parsed schema has the leftmost captured table name and at least one column. The column names are distinct words and the types are stripped, non-empty and upper-case. |
| DataGenerator.RandInt | sql_generator/data_generator.py:31 | `random.randint(lo, hi)` is within `[lo, hi]` and takes one draw. |
| DataGenerator.Choice | sql_generator/data_generator.py:75 | `random.choice` returns a member of the population and takes one draw. |
| DataGenerator.AsciiLettersSpec | sql_generator/data_generator.py:28 | `string.ascii_letters` holds exactly the ASCII letters. |
| DataGenerator.RandomLetters | sql_generator/data_generator.py:28 | `random.choices(ascii_letters, k=n)` gives `n` ASCII letters, one draw each. |
| DataGenerator.RandomLettersCover | sql_generator/data_generator.py:28 | Every string of ASCII letters is drawn by the streams that spell it. |
| DataGenerator.RandomDigits | sql_generator/data_generator.py:52 | The fraction gives `n` decimal digits, one draw each. |
| DataGenerator.TextValue | sql_generator/data_generator.py:26-29 | `CHAR`/`VARCHAR` gives a quoted run of ASCII letters: exactly `length` of them when the length is non-zero, otherwise 5 to 20. |
| DataGenerator.TextValueCovers | sql_generator/data_generator.py:26-29 | Every such literal is produced by some stream. |
| DataGenerator.IntegerValue | sql_generator/data_generator.py:30-35 | `INT`/`INTEGER`, `BIGINT` and `BIT` give `str(n)` for an `n` in the branch's range. |
| DataGenerator.IntegerValueCovers | sql_generator/data_generator.py:30-35 | Every number of the range is produced by the streams whose next draw is its offset. |
| DataGenerator.SizedDecimalValue | sql_generator/data_generator.py:37-54 | `DECIMAL(M[,D])` with `M` non-zero gives `'0.0'` when `D > M`. Otherwise it gives an integer part below `10^(M-D)` and, only when `D > 0`, possibly a point followed by 1 to `D` digits. |
| DataGenerator.FloatValue | sql_generator/data_generator.py:59-63 | `FLOAT`/`DOUBLE` gives the text of some float rounded to the precision, or to 2 places when the precision is absent or 0, and takes one draw. |
| DataGenerator.DateValue | sql_generator/data_generator.py:64-68 | `DATE` gives a quoted `YYYY-MM-DD` naming a valid day from 2020-01-01 to 1825 days later. |
| DataGenerator.DateValueCovers | sql_generator/data_generator.py:64-68 | Every day of that window is produced by the stream whose next draw is its offset. |
| DataGenerator.DateTimeValue | sql_generator/data_generator.py:69-73 | `DATETIME` gives a quoted `YYYY-MM-DD` of a day from 1825 days before today to today. |
| DataGenerator.DateTimeValueCovers | sql_generator/data_generator.py:69-73 | Every day of that window is produced by some stream. |
| DataGenerator.BooleanValue | sql_generator/data_generator.py:74-75 | `BOOLEAN` gives unquoted `TRUE` or `FALSE`. |
| DataGenerator.BooleanValueCovers | sql_generator/data_generator.py:74-75 | An even draw gives `TRUE` and an odd one `FALSE`. |
| DataGenerator.DateParts | sql_generator/data_generator.py:64 | `DATE`, `AT` and `TE` all take the `DATE` branch, because `in ('DATE')` tests substrings. |
| DataGenerator.DateTimeParts | sql_generator/data_generator.py:69 | `TIME` and `DATETIME` take the `DATETIME` branch. |
| DataGenerator.NotDateParts | sql_generator/data_generator.py:64-77 | `TIMESTAMP` and `DATETIME2` take neither date branch and fall to `'Unknown'`. |
| DataGenerator.ValueFor | sql_generator/data_generator.py:26-77 | Every branch gives a literal `MayGenerate` allows for the parsed type, and any other base type gives `'Unknown'`. |
| DataGenerator.GenerateValue | sql_generator/data_generator.py:21-77 | A type that does not parse gives `'Unknown'` and takes no draw. Otherwise the literal is one `MayGenerate` allows for the parsed type. |
| Dates.AddDays | sql_generator/data_generator.py:67 | `d + timedelta(days=n)` is a valid date `n` days later. |
| Dates.SubDays | sql_generator/data_generator.py:70 | `d - timedelta(days=n)` is a valid date `n` days earlier. |
| Dates.SubAddDays | sql_generator/data_generator.py:70-72 | Going back `n` days undoes going forward `n` days. |
| Dates.AddSubDays | sql_generator/data_generator.py:70-72 | Going forward `n` days undoes going back `n` days. |
| Dates.OrdinalInjective | sql_generator/data_generator.py:67 | Two valid dates with the same day number are the same date. |
| Dates.FormatDate | sql_generator/data_generator.py:68 | `strftime('%Y-%m-%d')` is ten characters with `-` at positions 4 and 7. |
| Dates.ReadFormatDate | sql_generator/data_generator.py:68 | The formatted text reads back as the date it was made from. |
| Dates.FormatReadDate | sql_generator/data_generator.py:68 | A text that reads as a valid date is that date's formatted text. |
| Types.Get | sql_generator/sql_generator.py:35 | `d.get(k)` is present exactly when `k` is a key. |
| Types.SetKeys | sql_generator/schema_parser.py:92 | Assigning a key keeps an existing key where it is and appends a new one. |
| Types.SetGet | sql_generator/schema_parser.py:92 | After assigning `k`, `k` holds the new value and every other key keeps its own. |
| Types.SetKeyed | sql_generator/schema_parser.py:92 | Assignment keeps the keys distinct. |
| Types.FromPairsSpec | sql_generator/schema_parser.py:80-92 | The dictionary built by assigning pairs in turn has each key once, in order of first occurrence, holding its last value. |
| Strings.Trim | sql_generator/sql_generator.py:25 | `str.strip()` gives a stripped text, empty exactly when the input is all white space. |
| Strings.TrimPadded | sql_generator/sql_generator.py:25 | Stripping removes exactly the white space padded around a stripped text. |
| Strings.TrimUnicodePadded | sql_generator/sql_generator.py:25 | White space outside ASCII is stripped too: a no-break space before a name and an ideographic space after it are removed. |
| Strings.TrimIdempotent | sql_generator/schema_parser.py:82 | Stripping a second time changes nothing. |
| Strings.ToUpperIdempotent | sql_generator/schema_parser.py:91 | Upper-casing twice is upper-casing once, and keeps a stripped text stripped. |
| Strings.Span | sql_generator/utils.py:18 | A greedy run ends at the first character outside the class, or at the end. |
| Strings.NatToString | sql_generator/data_generator.py:31 | `str(n)` has no leading zero and reads back as `n`. |
| Strings.SplitOnJoin | sql_generator/sql_generator.py:25 | Joining the pieces of `line.split(',')` with `,` gives the line back. |
| Strings.JoinSplitOn | sql_generator/sql_generator.py:25 | Splitting comma-free names joined by `,` gives them back. |
| SqlGenerator.ReadSharedFields | sql_generator/sql_generator.py:23-27 | The loop gives the stripped, non-empty comma-separated entries of every line, in order, repeats kept. Each is a name without comma or surrounding white space. |
| SqlGenerator.SharedFieldsNamed | sql_generator/sql_generator.py:25 | Every field read is non-empty, stripped and comma-free. |
| SqlGenerator.LineFieldsOfLine | sql_generator/sql_generator.py:25 | A line of names written `a, b, c` with a line break reads back as those names. |
| SqlGenerator.ReadWrittenFields | sql_generator/sql_generator.py:23-27 | A file of such lines reads back as all its names, line after line. |
| SqlGenerator.FirstMissingUnique | sql_generator/sql_generator.py:33-36 | The first field missing and the first table missing it are determined, so the error message is. |
| SqlGenerator.ValidateSharedFields | sql_generator/sql_generator.py:31-36 | Passes exactly when every field is a column of every table; types are not compared. Otherwise it fails naming the first missing field, in list order, and the first table lacking it. |
| SqlGenerator.Validation | sql_generator/sql_generator.py:31-36 | The same outcome as a value: pass exactly when all fields are present, fail with the first missing pair. |
| SqlGenerator.FieldTypeFirst | sql_generator/sql_generator.py:44 | `next(...)` finds a type exactly when some table has the field, and then it is the type in the first such table. |
| SqlGenerator.FitsMeaning | sql_generator/sql_generator.py:45 | A value drawn with `generate_value` is one `MayGenerate` allows for the parsed type, or `'Unknown'` when the type does not parse. |
| SqlGenerator.SharedPairsFit | sql_generator/sql_generator.py:43-45 | Each shared value is one the generator can give for the field's type in the first table that has it. |
| SqlGenerator.SharedValuesOf | sql_generator/sql_generator.py:40-47 | There is exactly one record per requested record. |
| SqlGenerator.SharedValuesRecords | sql_generator/sql_generator.py:38-47 | Every record is keyed by exactly the shared fields, once each in order of first mention, each holding a value drawn for the field's type in the first table that has it. |
| SqlGenerator.SharedRecordOf | sql_generator/sql_generator.py:42-45 | The inner loop builds the dictionary of the record's assignments, in field order. |
| SqlGenerator.GenerateSharedValues | sql_generator/sql_generator.py:38-47 | The loops return exactly the records `SharedValuesOf` describes and hand on the rest of the stream. |
| SqlGenerator.RowValuesFit | sql_generator/sql_generator.py:80-85 | Each value of a row is the record's shared value for a shared field, while there are shared values, and otherwise a value drawn for the column's type. |
| SqlGenerator.SharedColumnsAgree | sql_generator/sql_generator.py:81-82 | Two tables that both have a shared field list the same value for it in one record's rows, and it is the record's shared value. |
| SqlGenerator.TableRowFits | sql_generator/sql_generator.py:77-85 | Row `i` of a table lists, column by column, the values record `i` allows. |
| SqlGenerator.StatementsAt | sql_generator/sql_generator.py:86-87 | Statement `i` is `INSERT INTO` the table, the column names joined by `, ` in declared order, then `VALUES` with row `i`'s values joined the same way. |
| SqlGenerator.AllRowFits | sql_generator/sql_generator.py:75-88 | Every row of every table is one its record allows. |
| SqlGenerator.InsertsAt | sql_generator/sql_generator.py:74-88 | Entry `k` of the output is table `k`'s name with the statements of its rows. |
| SqlGenerator.RowOf | sql_generator/sql_generator.py:79-85 | The innermost loop lists exactly the values `RowValues` describes. |
| SqlGenerator.TableStatements | sql_generator/sql_generator.py:76-87 | The record loop gives exactly the statements of the table's value rows. |
| SqlGenerator.AssembleInserts | sql_generator/sql_generator.py:74-90 | The table loop gives exactly one entry per schema, in order, each holding its table's statements. |
| SqlGenerator.CollectAccepted | sql_generator/sql_generator.py:59-60 | The parse loop succeeds exactly when every parse does, and then holds the schemas in order. |
| SqlGenerator.CollectRefused | sql_generator/sql_generator.py:59-60 | Otherwise it fails with the error of the first parse that raises. |
| SqlGenerator.SchemasOfMeaning | sql_generator/sql_generator.py:59-60 | The files give schemas exactly when each parses, and then those schemas, in file order. |
| SqlGenerator.SchemasOfFirstError | sql_generator/sql_generator.py:59-60 | A failing parse loop gives the error of the first file that does not parse. |
| SqlGenerator.ParseSchemas | sql_generator/sql_generator.py:59-60 | The loop over the schema files gives what `SchemasOf` describes with `parse_schema` as the parser. |
| SqlGenerator.SharedFieldsFrom | sql_generator/sql_generator.py:64-67 | No shared fields file gives no fields, and an unreadable one the wrapped read error. A readable one gives its fields once validation passes, and then every field is in every table. |
| SqlGenerator.Prepared | sql_generator/sql_generator.py:51-67 | Success gives one schema per file, at least one of them, with the validated fields. |
| SqlGenerator.PresentDeclared | sql_generator/sql_generator.py:44 | Validated fields are all in the first table, so `next(...)` finds each. |
| SqlGenerator.SharedOfReady | sql_generator/sql_generator.py:70 | The shared records hold every shared field, so every lookup at line 82 succeeds. |
| SqlGenerator.RunRows | sql_generator/sql_generator.py:74-88 | One row list per schema file, with `num_records` rows each. |
| SqlGenerator.GenerateInsertStatements | sql_generator/sql_generator.py:49-90 | The whole method, drawing values with `generate_value` and parsing with `parse_schema`, returns exactly `Run`. |
| SqlGenerator.RunOutcome | sql_generator/sql_generator.py:49-90 | A run succeeds exactly when there is a schema file, every file parses, the shared fields file, if it exists, can be read, and each field it lists is in every table. |
| SqlGenerator.RunNoFiles | sql_generator/sql_generator.py:55-57 | With no schema files the run fails at once with `No schema files found in <dir>`. |
| SqlGenerator.RunSchemaError | sql_generator/sql_generator.py:59-60 | A file that does not parse ends the run with the error of the first such file. |
| SqlGenerator.RunReadError | sql_generator/sql_generator.py:64-66 | An unreadable shared fields file ends the run with `Error reading shared fields file <path>: <error>`. |
| SqlGenerator.RunMissingField | sql_generator/sql_generator.py:64-67 | A listed field some table lacks ends the run naming the first such field and the first table lacking it. |
| SqlGenerator.RunShape | sql_generator/sql_generator.py:74-88 | The output has one entry per schema file, in file order, each named after the file's table and holding `num_records` statements. |
| SqlGenerator.RunStatement | sql_generator/sql_generator.py:74-88 | Statement `i` of table `k` is the `INSERT INTO` text for the table's columns, in declared order, and row `i`. The row holds the shared value of record `i` for each shared field, and a value the generator can give for the column's type for every other column. |
| SqlGenerator.RunSharedRecords | sql_generator/sql_generator.py:70 | There are shared values exactly when shared fields are listed, every listed field is declared, and there is one record per statement index, each a shared record. |
| SqlGenerator.RunSharedAgree | sql_generator/sql_generator.py:81-82 | In one record's rows, every table having a shared field lists the same literal for it: the record's shared value. |

## Left out

- File and OS access is not modelled. Each `*.sql` file comes as its path with its text or its read error. The shared fields file comes as `None` when it does not exist, or else its lines or the read error. `glob`, `exists`, `open`, `readlines` and `mkdir` are not modelled.
- The order `glob` lists the schema files in is taken as given.
- Paths are strings; the message text `<dir>/shared_fields.txt` is written out. `pathlib` normalisation of the directory name is not modelled.
- `run` (lines 92-117 of `sql_generator/sql_generator.py`) is not modelled: it only prints, writes the output file and calls `exit(1)`.
- No `print` debug trace is modelled; they have no effect on results.
- Neither `generate_sql_inserts.py` (argument parsing, logging) nor `sql_generator/__init__.py` (re-exports) is modelled.
- `sql_generator/exceptions.py` is not part of this model. A `SchemaError` is an `Err` carrying its message, and `str(e)` is taken to be that message.
- Python's `random` internals are not modelled. Each random number drawn takes one draw from an injected stream, reduced into the requested range. So `random.choices(..., k=n)` and the fraction's generator take `n` draws each.
- TypeParser.ParseDataType: `\w` and `\d` are read as their ASCII classes, while Python gives them their Unicode meaning. For `ınt` (dotless i, U+0131) the source matches the word and upper-cases it to `INT`, so `generate_value` gives an integer. The model refuses the text, so `GenerateValue` gives `'Unknown'`.
- TypeParser.ParseDataType: Python's limit of 4300 digits on `int(str)` is not modelled. Reading a length or precision numeral longer than 4300 digits raises `ValueError` (sql_generator/utils.py lines 24-25), which `generate_value` turns into `'Unknown'`. The model reads numerals of any length.
- SchemaParser.ColumnOfRender: `str.upper` is modelled on ASCII letters only, so a type with other letters is stored differently. For `age ınt` the source stores `INT` where the model stores `ıNT`. For `ß` the source gives `SS`.
- SchemaParser.ConstraintSkipped: the constraint test upper-cases on ASCII only, so `prımary_email INT` is skipped by the source, because `ı` upper-cases to `I`, but kept by the model.
- DataGenerator.SizedDecimalValue: Python's limit of 4300 digits on `str(int)` is not modelled. For `DECIMAL(M[,D])` with `M - D` above 4300, `str(integer_part)` raises `ValueError` outside the `try` whenever the drawn integer part has more than 4300 digits, which is nearly every draw, and the error ends `generate_insert_statements`. The model returns the literal.
- SqlGenerator.RunOutcome: because of the digit limit above, a run with such a `DECIMAL` column raises in the source, but `Run` succeeds in the model. The success condition is exact for every other schema.
- Strings are sequences of characters; no encoding is modelled.
- DataGenerator.FloatValue: the value of `round(random.uniform(0, 1000), scale)` is floating point. Its text comes from the injected `Env.floatText` and is left opaque, so only the branch, the scale and the single draw are stated.
- DataGenerator.DateTimeValue: `datetime.now()` is the injected `Env.today`. `ValidEnv` asks that five years back from it is still a date and that its year is below 10000.
- Dates.FormatDate: only years up to 9999 are formatted, the largest `datetime` allows. The year is always padded to four digits, while `strftime('%Y')` on glibc does not pad years below 1000. Only a `DATETIME` column with an injected clock before the year 1005 reaches such a year.
- DataGenerator.SizedDecimalValue: its literals are bounded, but a lemma that every allowed decimal literal is produced by some stream is not part of the model. The text, integer, date and boolean branches have one.
- SqlGenerator.GenerateSharedValues: it requires every field to be a column of some table. The `StopIteration` that `next(...)` would raise is not modelled, because the only caller validates the fields first; `PresentDeclared` proves the requirement holds there.
- SqlGenerator.GenerateInsertStatements: it requires `ValidEnv`, the assumption on the injected clock above.
- The statement loops and `Run` are stated for any value generator and any parser. The method that runs the program passes the real `generate_value` and `parse_schema`, so the lemmas about `Run` hold for it.
