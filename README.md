# Student record store

A model of the student record store in `src/csv_parser.java`. A `Student` has four fields:
name, surname, group and age. It is written as one text line `name,surname,group,age`
(`serializeToString`) and read back from such a line (`deserialize`). A
`CsvManager<Student>` keeps students one per line in a file. It supports these operations:

- append one student (`add`, through `addInternal`);
- append a collection of students (`addAll`);
- truncate the file (`clearAll`);
- read every line back into validated students (`getAll`);
- read back the students that satisfy a predicate (`filter`), such as a `GroupFilter`;
- read back the student on one line (`findByIndex`).

Reading a line goes through `create`. It makes a new student, deserializes the line into it in
place, and validates it: the age must not be negative and the name must not be empty or blank.
Every deserialization or validation error becomes the same runtime failure. That failure ends
the whole read, so no partial list is returned.

The project has four modules:

- `Results`: the `Option`, `Result` and `Outcome` wrappers that stand for `null` and for
  thrown exceptions.
- `JavaText`: the parts of the Java class library the line format depends on:
  - `String.split` with a one-character pattern, including its removal of trailing empty
    strings;
  - the `%d` conversion;
  - `Integer.parseInt` over `int` (`Int32`);
  - `Character.isWhitespace` and `String.isBlank`.
- `Students`: the line format (`Serialize`, `Parse`) with its round-trip properties. It also
  holds the `Student` class, whose `Deserialize` updates the fields in place the way the
  source does: when only the age fails to parse, name, surname and group are already
  overwritten.
- `CsvStore`: validation, `create` as the function `Decode`, and the `CsvManager` class.
  - The backing file is the field `lines: seq<string>`. The writing methods reassign it; the
    reading methods loop over it as the source loops over `readLine`.
  - Each reading method is proved equal to a specification function: `DecodeAll` for
    `getAll`, `Keep` over `DecodeAll` for `filter`, `Lookup` for `findByIndex`.
  - Lemmas prove what those functions promise: fail-fast reading, order, filtering,
    appending and re-reading.

## Model

| member | source | states |
|---|---|---|
| JavaText.Pieces | src/csv_parser.java:221 | the pieces of a string between delimiters contain no delimiter, there is at least one, and joined with the delimiter they give the string back |
| JavaText.DropTrailingEmpty | src/csv_parser.java:221 | the result is a prefix of the parts, ends in a non-empty string (or is empty), and everything removed was an empty string |
| JavaText.Split | src/csv_parser.java:221 | `split(",")`: no part contains a comma; a string without a comma splits into itself alone; otherwise the last part is never empty |
| JavaText.PiecesWithoutDelimiter | src/csv_parser.java:221 | a string without the delimiter is its own only piece |
| JavaText.PiecesConcat | src/csv_parser.java:221 | the pieces of `t + d + e` are the pieces of `t` followed by the pieces of `e` |
| JavaText.PiecesOfDelimited | src/csv_parser.java:221 | a string that contains the delimiter has at least two pieces |
| JavaText.PiecesOfFourFields | src/csv_parser.java:215-216 | the pieces of four strings joined by the delimiter are the pieces of each, in order |
| JavaText.SplitFourFields | src/csv_parser.java:221-222 | four delimiter-free fields, the last non-empty, joined by the delimiter split back into exactly those four fields |
| JavaText.TrailingDelimiterIgnored | src/csv_parser.java:221 | a delimiter appended to a non-empty string does not change the split, because trailing empty strings are dropped |
| JavaText.NatToDecimal | src/csv_parser.java:216 | the decimal text of a natural number is non-empty, consists of digits only, and starts with `0` only for zero (no leading zeros) |
| JavaText.FormatInt | src/csv_parser.java:216 | `%d` output is canonical: non-empty, never a comma (so the age is always one field), a leading `-` exactly for negative numbers, then digits with no leading zero except for zero itself |
| JavaText.ParseInt | src/csv_parser.java:226 | `Integer.parseInt`: an optional sign, then ASCII digits whose value fits in an `int`; its meaning is proved in `ParseIntFormatInt` (it inverts `%d` on every `int`) and `ParseIntRejects` (the empty string, a lone sign and any non-digit give the NumberFormatException) |
| JavaText.DecimalValueOfNatToDecimal | src/csv_parser.java:216 | the value of the decimal digits written for `n` is `n` |
| JavaText.ParseIntFormatInt | src/csv_parser.java:216-226 | `parseInt` of what `%d` wrote for any `int` gives back that `int` |
| JavaText.ParseIntRejects | src/csv_parser.java:226 | `parseInt` rejects the empty string, a lone sign, a bad first character and any later non-digit |
| JavaText.IsWhitespace | src/csv_parser.java:274 | `Character.isWhitespace`, used by `isBlank`: TAB to CR, FS to US, and the Unicode space, line and paragraph separators except the no-break spaces; `IsBlank` states what it decides about a name |
| JavaText.IsBlank | src/csv_parser.java:274 | `isBlank` holds exactly when every character is white space |
| Students.Serialize | src/csv_parser.java:215-217 | `serializeToString`: name, surname, group and age, comma-separated in that order; `SerializedFields` and `RoundTrip` prove that the line splits back into those four fields and deserializes to the same student exactly when the text fields are comma-free |
| Students.Parse | src/csv_parser.java:220-230 | a line is rejected with its part count exactly when it does not split into four parts; every accepted student is comma-free |
| Students.ParseFourFields | src/csv_parser.java:221-228 | a line of four comma-free fields (the last non-empty) is accepted exactly when the fourth field is an `int`, with the first three as name, surname and group and that `int` as the age; otherwise it is rejected with a malformed-number error naming the fourth field |
| Students.SerializedFields | src/csv_parser.java:215-222 | a serialized line splits into name, surname, group and age text, in that order, exactly when no text field holds a comma; otherwise it splits into more than four parts |
| Students.RoundTrip | src/csv_parser.java:215-230 | deserializing a serialized student gives the same student exactly when its text fields are comma-free; otherwise the line is rejected for its field count |
| Students.ParseSerializeParse | src/csv_parser.java:215-230 | serializing a deserialized student and deserializing again gives the same result |
| Students.TrailingDelimiterAccepted | src/csv_parser.java:221-226 | a serialized line followed by an extra comma still deserializes to the same student |
| Students.PlusSignAccepted | src/csv_parser.java:226 | an age written with an explicit `+` is accepted, so text is not read back byte for byte |
| Students.TrailingDelimiterRejected | src/csv_parser.java:221-228 | `name,surname,group,` with an empty age is rejected as a three-part line, not as a bad number |
| Students.Student.constructor | src/csv_parser.java:167-171 | a new student has unset fields and age 0 |
| Students.Student.Create | src/csv_parser.java:205-212 | `Student.create` stores each argument in its own field |
| Students.Student.Deserialize | src/csv_parser.java:220-230 | the outcome and the new fields agree with `Parse`; with a wrong part count nothing changes; with a bad age, name, surname and group are overwritten and the age is kept |
| CsvStore.Validate | src/csv_parser.java:272-280 | validation passes exactly when the age is not negative and the name has a non-white-space character; a failure carries the student |
| CsvStore.Decode | src/csv_parser.java:259-269 | `create` succeeds exactly when the line deserializes and the student validates; a deserialization error and a validation error (`InvalidStudent` carrying the parsed student) are each passed through as the creation failure |
| CsvStore.ReadLines | src/csv_parser.java:243-257 | a successful read of a file yields one record per line |
| CsvStore.ReadLinesAllRead | src/csv_parser.java:243-257 | a file reads exactly when each of its lines does, and then record `i` is line `i` read |
| CsvStore.FailFast | src/csv_parser.java:248-251 | the failure of a read is that of the first line that fails, whatever follows it |
| CsvStore.FirstFailure | src/csv_parser.java:248-251 | a failed read has a first failing line, and every line before it reads |
| CsvStore.ReadLinesConcatLeftFails | src/csv_parser.java:248-251 | when the first part of a file fails, the whole file fails the same way |
| CsvStore.ReadLinesConcatRightFails | src/csv_parser.java:248-251 | when the first part reads and the second fails, the whole file fails as the second part does |
| CsvStore.ReadLinesConcatBothRead | src/csv_parser.java:248-251 | when both parts read, the records of the whole file are those of the first part followed by those of the second |
| CsvStore.ReadLinesConcat | src/csv_parser.java:248-251 | reading a concatenated file is reading each part in turn, failing at the first failure |
| CsvStore.ReadLinesSingle | src/csv_parser.java:249 | a one-line file reads as its line |
| CsvStore.ReadLinesStep | src/csv_parser.java:248-251 | one more line either appends its record or is the failure of the whole file |
| CsvStore.LookupMatchesDecodeAll | src/csv_parser.java:287-303 | when the whole file reads, `findByIndex` gives the record at that index in range and no student outside it |
| CsvStore.Keep | src/csv_parser.java:305-322 | filtering never yields more elements than it was given |
| CsvStore.KeepStep | src/csv_parser.java:312-315 | one more element is added at the end of the filtered list exactly when it passes the predicate |
| CsvStore.KeepSelects | src/csv_parser.java:313-314 | an element is kept exactly when it is present and passes the predicate |
| CsvStore.KeepConcat | src/csv_parser.java:311-316 | the kept elements of a concatenation are those of the first part followed by those of the second |
| CsvStore.GroupFilter.Test | src/csv_parser.java:90-91 | `GroupFilter.test`: the target group equals the student's group; `GroupFilterSelects` proves that filtering with it keeps exactly the students of that group |
| CsvStore.GroupFilterSelects | src/csv_parser.java:82-93 | filtering with `GroupFilter(g)` keeps exactly the students whose group equals `g` |
| CsvStore.SerializeAllStep | src/csv_parser.java:347-348 | writing one more student appends its line |
| CsvStore.ReadBackAll | src/csv_parser.java:346-350 | a file written from storable students alone, one `serializeToString` line each, reads back as exactly those students in order |
| CsvStore.ReadBackAppended | src/csv_parser.java:243-257 | appending storable students to a file makes them its last records, in order, when the file read before; an unreadable file stays unreadable with the same failure |
| CsvStore.InvalidStudentBreaksReads | src/csv_parser.java:324-335 | `add` does not validate: after a comma-free student that fails validation is stored, reading the whole file fails, with that student's error if the earlier lines read |
| CsvStore.CsvManager.constructor | src/csv_parser.java:237-240 | a manager starts on the file's current lines |
| CsvStore.CsvManager.Create | src/csv_parser.java:259-269 | the method that builds, deserializes and validates a new student yields exactly `Decode` of the line |
| CsvStore.CsvManager.GetAll | src/csv_parser.java:243-257 | `getAll` yields exactly `DecodeAll` of the file: every student in file order, or the first failure |
| CsvStore.CsvManager.FindByIndex | src/csv_parser.java:287-303 | `findByIndex` decodes only the line at the index, and gives no student for a negative or too large index |
| CsvStore.CsvManager.Filter | src/csv_parser.java:305-322 | `filter` succeeds exactly when `getAll` would, then yields the students of `getAll` that pass the predicate, in order; otherwise it fails with `getAll`'s failure |
| CsvStore.CsvManager.AddInternal | src/csv_parser.java:324-331 | the student's line is written after the existing lines when appending, and in place of them otherwise |
| CsvStore.CsvManager.Add | src/csv_parser.java:333-335 | the file becomes the old lines followed by the student's line |
| CsvStore.CsvManager.ClearAll | src/csv_parser.java:337-343 | the file is left with no lines |
| CsvStore.CsvManager.AddAll | src/csv_parser.java:346-350 | the file becomes the old lines followed by one line per student, in collection order |
| CsvStore.NewStudents | src/csv_parser.java:19-26 | one student object per value, holding that value, in order |
| CsvStore.WriteDemonstration | src/csv_parser.java:16-30 | after clearing, two adds and an `addAll`, the file holds the two students' lines and then the others' |
| CsvStore.DemonstrationFile | src/csv_parser.java:28-33 | that file reads back as the two students followed by the others |
| CsvStore.DemonstrationFilter | src/csv_parser.java:40 | filtering those students by the first one's group keeps the first student, then the matching others |
| CsvStore.FilterByGroupScenario | src/csv_parser.java:15-49 | the demonstration's `getAll` yields all students in insertion order, its group filter yields the first student then the matching others, and `findByIndex(1)` yields the second student |

## Left out

- File I/O is modelled as a sequence of lines that always opens, reads and writes. The
  `IOException` paths are not modelled: the source prints the stack trace and returns what it
  has so far, which can be an empty or partial list.
- Line terminators are left out. A field holding a line break would split the record across
  `readLine` calls; the model keeps each written string as one line.
- The store is generic over `CsvSerializable`; the model fixes the element type to `Student`.
  As a result, `validate`'s branch for objects that are not students, and the reflective
  `createNewObject` with its `InstantiationException` and `IllegalAccessException`, do not
  appear; creation is `new Student()`.
- `StudentGenerator` (random names, groups and ages) is not modelled. The manager holds it but
  never uses it, and it depends on `java.util.Random`.
- The formatters, `FormatterIterator` and the printing in `main` are not modelled; the
  demonstration returns the three results instead of printing them.
- Null is left out. A new `Student`'s text fields are null in Java and `""` here, and `%s`
  writes a null field as `null`. A student whose name is null makes `validate` throw a
  `NullPointerException`, which `create` does not catch.
- Students.Student.Deserialize: `parseInt` also accepts non-ASCII Unicode decimal digits;
  `ParseInt` accepts ASCII digits only.
- JavaText.FormatInt: `%d` follows the default locale; the model writes ASCII digits with no
  grouping.
- JavaText.IsBlank: `Character.isWhitespace` follows the running JVM's Unicode tables. The
  model fixes the current set of white-space characters.
- CsvStore.CsvManager.GetAll: the reading methods return student values, not fresh `Student`
  objects. The objects a read creates are never shared with anything else, so no aliasing is
  lost.
- CsvStore.CsvManager.Filter: the Java `Predicate<Student>` is modelled as a function on
  student values, so a predicate with side effects or state is not captured.
- CsvStore.CsvManager.AddAll: with I/O that always succeeds, a failure part-way through the
  collection cannot happen. The model therefore does not capture a file left with only some of
  the students.
- Getters and setters are modelled as direct field access.
