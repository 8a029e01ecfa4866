# sql2o named parameters and row mapping, in Dafny

A model of the two pieces of logic at the core of this small sql2o clone.

- **The named-parameter rewriter and binder** (`NamedParameterStatement`):
  - `parseSql` makes one pass over the SQL text and replaces every `:name` parameter with a JDBC `?` placeholder. It records, for each name, the 1-based placeholder positions where that name occurs.
  - `setObject` binds a value to every placeholder of a name, or binds SQL NULL of type `Types.OTHER` when the value is null. `getColumnIndexesBy` rejects a name the text never mentioned.
- **The query** (`Query`):
  - `addParameter` binds through the statement and wraps any failure in a runtime exception.
  - `executeAndFetch` executes the statement and maps each result row onto a new object by column name. It closes the statement on every path.

Modules, one per file:

- `Outcomes` (`outcomes.dfy`): `Option`, `Result` and `Outcome`, plus the `Error` values. Each `Error` value stands for one Java exception.
- `Identifiers` (`identifiers.dfy`): the identifier-start and identifier-part character classes, and valid names.
- `Positions` (`positions.dfy`): the name-to-positions index (`nameColumnIndexesMap`). `Index(ns)` is the index built by recording the names `ns` in order. `IndexSpec` characterises it independently of the update order.
- `SqlParser` (`sql_parser.dfy`): the rewriter.
  - `Scan`/`Parse` follow the Java loop branch for branch. `ParseSql` is the loop itself, with its mutable builder, and is proved equal to `Parse`.
  - An independent reading of the text as a token sequence (`Tokens`: copied character, dropped colon, or parameter) is unique for every text (`TokensUnique`). `ParseIsTokenRewrite` proves that the parser is exactly the rewrite of those tokens. Most of the remaining lemmas are stated over tokens.
- `ParserExamples` (`parser_examples.dfy`): concrete rewrites.
  - The example in the comment above `parseSql`, and the query of `Main.java`.
  - A repeated name, a control character taken into a name, a time literal, a trailing colon, and a PostgreSQL `::` cast.
- `NamedStatement` (`named_statement.dfy`): the prepared statement.
  - It holds the rewritten text, the index, the bound parameter slots (placeholder → value or SQL NULL) and a closed flag.
  - `SetObject` and `ColumnIndexesBy` model the Java methods of the same names.
- `RowMapping` (`row_mapping.dfy`): the column loop of `executeAndFetch`.
  - It runs over a cursor (column names plus rows of values) and a shape (the public fields of the target class, and which values each field accepts).
  - It is proved against a reference object, `RowObject`, that is defined without the loop.
- `Queries` (`queries.dfy`): `AddParameter`, chains of bindings, and `ExecuteAndFetch`.
- `QueryExamples` (`query_examples.dfy`): the demo program's flow on the `User` class.

The driver is not modelled; each interaction with it is a parameter or a flag:

- `ExecuteAndFetch` takes the outcome the driver's `executeQuery` would report (a cursor or an error), and whether closing would fail.
- A closed statement is a flag. With it set, the driver's closed-statement `SQLException` becomes `StatementClosed`, from `setObject` and from `executeQuery` alike.

Two behaviours of the code are easy to misread; the model keeps them as written:

- **A colon not followed by an identifier start.** The inner `if` at `NamedParameterStatement.java:46` has no `else`, so the colon is dropped (`"10:30"` becomes `"1030"`, see `TimeLiteralExample`). A colon in the last position takes the outer `else` and is copied.
- **The last column.** The loop condition `columnIndex < getColumnCount()` (`Query.java:41`) stops one short, so the last column is never read or assigned. The model keeps this (`Visited`, `LastColumnNeverWritten`, `UnknownLastColumnIgnored`).

## Model

| member | source | states |
|---|---|---|
| SqlParser.IdentEnd | src/main/java/com/okada/sql2o/NamedParameterStatement.java:48-51 | the inner loop stops at the first non-identifier-part character at or after its start, or at the end of the text; every character it passes is an identifier part |
| SqlParser.Parse | src/main/java/com/okada/sql2o/NamedParameterStatement.java:34-71 | the rewritten text is never longer than the input |
| SqlParser.ParseSql | src/main/java/com/okada/sql2o/NamedParameterStatement.java:34-71 | the imperative loop (builder, map, counter, `i += name.length()`) computes exactly the functional rewrite |
| SqlParser.ScanCopiesPlainText | src/main/java/com/okada/sql2o/NamedParameterStatement.java:65-66 | a stretch of text without a colon is copied to the output unchanged and records nothing |
| SqlParser.ScanReplacesParameter | src/main/java/com/okada/sql2o/NamedParameterStatement.java:44-63 | `:name`, where name is a maximal identifier run, emits one `?`, records the current placeholder number for name, and resumes right after the name |
| SqlParser.IdentRun | src/main/java/com/okada/sql2o/NamedParameterStatement.java:49-52 | the name taken after a colon is the longest prefix of identifier-part characters |
| SqlParser.ParseIsTokenRewrite | src/main/java/com/okada/sql2o/NamedParameterStatement.java:40-68 | parsing emits the text of the token reading, and its index is the index of the parameter names in order of occurrence |
| SqlParser.SourceOfTokens | src/main/java/com/okada/sql2o/NamedParameterStatement.java:40-68 | the tokens cover the input exactly, in order: nothing is skipped or read twice |
| SqlParser.TokensWellFormed | src/main/java/com/okada/sql2o/NamedParameterStatement.java:44-54 | each parameter name is valid and maximal, a dropped colon is followed by a non-start character, and a copied colon only comes last |
| SqlParser.TokensUnique | src/main/java/com/okada/sql2o/NamedParameterStatement.java:40-68 | there is only one well-formed token reading of a text, so the rewrite is determined by the text |
| SqlParser.RewritePlain | src/main/java/com/okada/sql2o/NamedParameterStatement.java:65-66 | a colon-free prefix passes through to the output and contributes no names |
| SqlParser.RewriteParam | src/main/java/com/okada/sql2o/NamedParameterStatement.java:52-63 | a parameter followed by a non-identifier character becomes one `?` and contributes its name once |
| SqlParser.NoColonUnchanged | src/main/java/com/okada/sql2o/NamedParameterStatement.java:40-66 | a text without a colon is returned unchanged with an empty index |
| SqlParser.NamesValid | src/main/java/com/okada/sql2o/NamedParameterStatement.java:46-52 | every recorded name is non-empty, starts with an identifier start and continues with identifier parts |
| SqlParser.ParsePositions | src/main/java/com/okada/sql2o/NamedParameterStatement.java:57-63 | the names' lists partition the placeholders 1..k (k parameters): each number belongs to exactly one name, and each list is non-empty and strictly increasing |
| SqlParser.PlaceholderCount | src/main/java/com/okada/sql2o/NamedParameterStatement.java:54-66 | the output holds one `?` per parameter on top of the `?` characters already in the input |
| Positions.IndexSpec | src/main/java/com/okada/sql2o/NamedParameterStatement.java:57-62 | a name is a key exactly when it occurs; its list holds exactly the positions where it occurs, in increasing order |
| Positions.ExtendIndex | src/main/java/com/okada/sql2o/NamedParameterStatement.java:38-63 | continuing to record names from the next counter value yields the index of the whole sequence |
| Positions.IndexPartitions | src/main/java/com/okada/sql2o/NamedParameterStatement.java:38-63 | positions lie in 1..k, every position belongs to its name, no position is shared by two names, and no list is empty |
| ParserExamples.ThreeNamesShape | src/main/java/com/okada/sql2o/NamedParameterStatement.java:31-32 | any text shaped like the comment's INSERT rewrites three distinct names to three `?` with positions 1, 2, 3 |
| ParserExamples.DocCommentExample | src/main/java/com/okada/sql2o/NamedParameterStatement.java:31-32 | the INSERT of the comment rewrites to `VALUES (?, ?, ?)` with index {id:[1], name:[2], email:[3]} |
| ParserExamples.TrailingNameShape | src/main/java/com/okada/sql2o/NamedParameterStatement.java:44-63 | a parameter that ends the text is replaced, with position 1 |
| ParserExamples.MainQueryExample | src/main/java/com/okada/sql2o/Main.java:9-10 | the demo query rewrites to `... where name is ?` with index {name:[1]} |
| ParserExamples.RepeatedNameShape | src/main/java/com/okada/sql2o/NamedParameterStatement.java:57-62 | a name used twice gets one list holding both positions, [1, 2] |
| ParserExamples.RepeatedNameExample | src/main/java/com/okada/sql2o/NamedParameterStatement.java:57-62 | `a = :x OR b = :x` gives index {x:[1, 2]} |
| ParserExamples.IgnorableControlExample | src/main/java/com/okada/sql2o/NamedParameterStatement.java:49-52 | an identifier-ignorable control character (BEL) right after a name is taken into the name: `:a` followed by BEL becomes `?`, and the recorded name includes the BEL |
| ParserExamples.TimeLiteralExample | src/main/java/com/okada/sql2o/NamedParameterStatement.java:44-46 | a colon before a digit is dropped: `10:30` becomes `1030` |
| ParserExamples.TrailingColonExample | src/main/java/com/okada/sql2o/NamedParameterStatement.java:44-66 | a colon in the last position is copied |
| ParserExamples.CastShape | src/main/java/com/okada/sql2o/NamedParameterStatement.java:44-54 | a double colon drops the first colon, and the second opens a parameter |
| ParserExamples.CastExample | src/main/java/com/okada/sql2o/NamedParameterStatement.java:44-54 | `x::int` becomes `x?` with index {int:[1]} |
| NamedStatement.Prepare | src/main/java/com/okada/sql2o/NamedParameterStatement.java:23-26 | a new statement is open with nothing bound; its keys are exactly the parameter names of the text, all valid, each with a non-empty list, and the lists are disjoint |
| NamedStatement.SetAll | src/main/java/com/okada/sql2o/NamedParameterStatement.java:74-80 | after the loop, every listed position holds the slot, and every other bound position keeps its slot |
| NamedStatement.SetObject | src/main/java/com/okada/sql2o/NamedParameterStatement.java:73-89 | an unknown name fails before any slot changes; on a closed statement the driver's error also leaves the slots alone; on success every position of the name holds the value (null binds SQL NULL of type OTHER, 1111), and nothing else changes |
| NamedStatement.RebindOverwrites | src/main/java/com/okada/sql2o/NamedParameterStatement.java:73-80 | binding a name twice equals binding it once with the second value: the last write wins |
| NamedStatement.BindingsCommute | src/main/java/com/okada/sql2o/NamedParameterStatement.java:73-80 | with disjoint lists, binding two different names gives the same statement in either order |
| NamedStatement.BindingIsolated | src/main/java/com/okada/sql2o/NamedParameterStatement.java:73-80 | with disjoint lists, binding one name leaves every placeholder of another name as it was |
| NamedStatement.LookupOfPrepared | src/main/java/com/okada/sql2o/NamedParameterStatement.java:83-89 | on a prepared statement a name is found exactly when the text has a parameter of that name, and its positions are exactly the placeholders standing for it |
| RowMapping.FirstIndex | src/main/java/com/okada/sql2o/Query.java:42-43 | reading a value by column name reads the first column of that name |
| RowMapping.FirstError | src/main/java/com/okada/sql2o/Query.java:41-46 | the error of a row that cannot be stored is that of the first visited column that cannot be stored: every visited column before it can be |
| RowMapping.FillRowFrom | src/main/java/com/okada/sql2o/Query.java:41-47 | the column loop fails exactly when a visited column has no field or an unacceptable value, with the first such column's error, and otherwise produces the reference object |
| RowMapping.MapRow | src/main/java/com/okada/sql2o/Query.java:39-47 | one row succeeds exactly when it fits, and then becomes the reference object |
| RowMapping.MapRows | src/main/java/com/okada/sql2o/Query.java:38-50 | one object per row, in cursor order, each the reference object; otherwise the error of the first row that does not fit, and no list |
| Queries.AddParameter | src/main/java/com/okada/sql2o/Query.java:22-29 | success gives the query back with the name bound; every failure, an unknown name included, is wrapped as a runtime exception, with the named cause |
| Queries.LastBinding | src/main/java/com/okada/sql2o/Query.java:22-29 | finds the last binding of a name in a chain, or reports that there is none |
| Queries.ChainStep | src/main/java/com/okada/sql2o/Query.java:22-29 | one more call at the end of a chain keeps every placeholder holding the last value given for its name |
| Queries.ChainBindsLastValue | src/main/java/com/okada/sql2o/Query.java:22-29 | on an open statement, a chain of known names succeeds; every placeholder of a bound name holds the last value given for it; unbound names keep their slots |
| Queries.EveryPlaceholderBound | src/main/java/com/okada/sql2o/Query.java:22-29 | binding every name of a new query fills exactly the placeholders 1..k, each with the last value for the name written there |
| Queries.ChainSlotInRange | src/main/java/com/okada/sql2o/Query.java:22-29 | a chain on a new query binds no slot outside 1..k |
| Queries.ChainSlotOfPlaceholder | src/main/java/com/okada/sql2o/Query.java:22-29 | after binding every name, placeholder k+1 holds the last value given for the name of the (k+1)-th parameter, `ns[k]` |
| Queries.AddParametersKeys | src/main/java/com/okada/sql2o/Query.java:22-29 | a chain only adds slots at placeholders of recorded names |
| Queries.AddParametersPositions | src/main/java/com/okada/sql2o/Query.java:22-29 | a chain never changes the index |
| Queries.ExecuteAndFetch | src/main/java/com/okada/sql2o/Query.java:31-62 | the statement is closed on every path; success holds exactly when the statement was open, execution succeeded and every row fits, and then gives one reference object per row; every failure is wrapped as a runtime exception, with the cause named |
| Queries.CloseFailureDoesNotMask | src/main/java/com/okada/sql2o/Query.java:53-58 | a failing close changes neither the result nor the query; it is only logged |
| Queries.FetchedQueryIsSpent | src/main/java/com/okada/sql2o/Query.java:53-55 | after a fetch, binding again or fetching again fails with the closed-statement error |
| Queries.LastColumnNeverWritten | src/main/java/com/okada/sql2o/Query.java:41 | a field named only by the last column keeps its default in every fetched object |
| Queries.NarrowCursorDefaults | src/main/java/com/okada/sql2o/Query.java:41 | with zero or one column, every row becomes an object with all fields at their defaults, and nothing can fail |
| Queries.FirstColumnOfNameWins | src/main/java/com/okada/sql2o/Query.java:42-46 | a field gets, unconverted, the value of the first column with its name |
| QueryExamples.MainBindsNull | src/main/java/com/okada/sql2o/Main.java:9-10 | binding the demo's parameter to null puts SQL NULL of type OTHER at placeholder 1 |
| QueryExamples.UserRowObject | src/main/java/com/okada/sql2o/User.java:7-10 | a `select *` row of t_user fits `User`, and its reference object leaves `birthday` at its default |
| QueryExamples.UserRowLosesLastColumn | src/main/java/com/okada/sql2o/Query.java:41-49 | fetching that row gives a user with id, name and age set, and birthday at its default |
| QueryExamples.NullAgeFails | src/main/java/com/okada/sql2o/Query.java:45-52 | a null in the `int` age column fails the whole fetch with that field's error, wrapped |
| QueryExamples.UnknownLastColumnIgnored | src/main/java/com/okada/sql2o/Query.java:41-45 | a last column matching no field is never looked up, so the fetch succeeds |

## Left out

- `Sql2o.java` (connection creation via `DriverManager`) is I/O. `CreateQuery` takes the text alone and assumes a connection.
- `Main.java` runs against a live MySQL server. Only its query and its null binding are used, as examples. `User.toString` is not modelled.
- `connection.prepareStatement`, `executeQuery`, `executeUpdate` and `close` (`NamedParameterStatement.java:25`, `91-101`) are foreign calls.
  - The outcome of executing is a parameter of `ExecuteAndFetch`, and a failing close is a flag.
  - `executeUpdate` has no caller in the core and is not modelled.
- The `Query` constructor catches `SQLException` and leaves a null statement behind (`Query.java:15-19`). This is printing plumbing: a failed preparation is not modelled.
- `Character.isJavaIdentifierStart/Part` cover all of Unicode. The model decides them on ASCII only, where it agrees with Java: letters, `_` and `$` start an identifier; digits and the identifier-ignorable controls U+0000–U+0008, U+000E–U+001B and U+007F may also continue one. Every non-ASCII character is treated as neither, although Java accepts many (accented letters, currency signs, other ignorable format characters).
- Driver errors from `setObject`/`setNull` other than a closed statement are not modelled. The driver's own placeholder counting is left out too:
  - a literal `?` in the input that the driver counts is an extra placeholder (`PlaceholderCount` shows it is kept), so later parameters bind one position early and the last placeholders stay unbound;
  - a `:name` inside a quoted string literal is still replaced by `?`, but the driver does not count that `?`, so a recorded position can lie beyond the driver's placeholder count and its binding fails.
- Reflection is reduced to a shape of public field names and a predicate of acceptable values:
  - a failure of `pojo.newInstance()` is not modelled;
  - `Field.set`'s widening conversions are folded into that predicate.
- Column labels versus column names in `getColumnName` are not distinguished.
- RowMapping.FirstIndex: compares column names exactly. JDBC's `ResultSet.getObject(String)` (`Query.java:43`) matches a column label case-insensitively and takes the first match. With columns `ID`, `id`, `x`, a row `1, 2, 3` and fields `ID` and `id`, the program sets field `id` to 1 (`getObject("id")` matches `ID` first), but the model sets it to 2. Case folding is left out of the model.
- The result set itself is never closed in the code (only the statement is). This is not modelled.
- `addParameter` returns the same mutable `Query` object. The model returns the updated query value, so object identity is not modelled.
