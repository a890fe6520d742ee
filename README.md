# TfsQueryContext parameter substitution, in Dafny

`TfsQueryContext` (migration tools for Azure DevOps / TFS work items) holds a work item
query text (`Query`) and a dictionary of named parameters. Because passing parameters to
the server failed with a SOAP error, the class substitutes them into the text itself:
for each registered key, in the dictionary's enumeration order, every `@key` in the query
is replaced by the value. Values that `int.TryParse` accepts are inserted bare, and all
others are inserted between single quotes. `Execute` and `ExecuteLinksQuery` overwrite
`Query` with the substituted text before sending it to the work item store.

The project models this as follows:

- `wrappers.dfy`: an `Option` type.
- `string_replace.dfy` (`StringReplace`): ordinal `String.Replace`, which scans left to
  right, replaces non-overlapping matches and does not rescan inserted text. It comes with
  an independent reference definition built on `IndexOf` (replace the first match, then
  continue after it) and a proof that the two agree.
- `int32_parse.dfy` (`Int32Parse`): `int.TryParse` with `NumberStyles.Integer` and the
  invariant culture. It accepts optional white space, an optional `+` or `-`, one or more
  decimal digits and optional white space, with the value in the Int32 range. It is
  characterised in both directions against that grammar, and round-tripped against
  decimal formatting.
- `query_substitution.dfy` (`QuerySubstitution`): the rendering of one value, the
  substitution as a left fold of `Replace` over the parameters, and the
  `WorkAroundForSOAPError` loop proved equal to that fold.
- `substitution_scenarios.dfy` (`SubstitutionScenarios`): consequences of those rules
  that a caller meets:
  - names match as plain substrings;
  - every occurrence is replaced;
  - no rescan happens within one key;
  - the result depends on the order of the keys;
  - a second substitution quotes again.
- `query_context.dfy` (`TfsQuery`): the dictionary (an insertion-ordered sequence with
  distinct names and its map view) and `Dictionary.Add`. It also holds the class
  `TfsQueryContext` with `Query` and `parameters` as fields, and `AddParameter`,
  `Execute` and `ExecuteLinksQuery` as methods that update them.

`Execute` changes state beyond `Query`. Once the store has answered, it adds
`CollectionUrl` and `Query` to the same dictionary, and each of those `Add` calls throws
when its key is already present. The model keeps this step. The store's success is a
parameter (`storeAnswers`), and "throws" is a `false` result. The consequence is proved:
a context completes `Execute` at most once. `ExecuteOnlyOnce` shows that after a
completed run, any later call fails, whatever the query text. That holds for any
dictionary that extends the one the completed run left, and `AddParameter` and
`Execute` only ever extend it or leave it as it is. The later call still substitutes
the query first, now including the recorded `Query` and `CollectionUrl` entries.

## Model

| member | source | states |
|---|---|---|
| StringReplace.ReplaceIsFirstMatchScan | src/VstsSyncMigrator.Core/Execution/ComponentContext/TfsQueryContext.cs:40 | `Replace` equals the reference scan: find the first ordinal occurrence, replace it, continue after it, and stop when none is left |
| StringReplace.IndexOf | src/VstsSyncMigrator.Core/Execution/ComponentContext/TfsQueryContext.cs:40 | a found index is a real occurrence of the pattern |
| StringReplace.IndexOfIsFirst | src/VstsSyncMigrator.Core/Execution/ComponentContext/TfsQueryContext.cs:40 | the found index is the leftmost occurrence, and nothing is found exactly when the pattern does not occur |
| StringReplace.ReplaceLength | src/VstsSyncMigrator.Core/Execution/ComponentContext/TfsQueryContext.cs:40 | the result's length is the input's length plus the number of non-overlapping matches times (\|rep\| - \|pat\|) |
| StringReplace.CountZeroIffAbsent | src/VstsSyncMigrator.Core/Execution/ComponentContext/TfsQueryContext.cs:40 | the number of matches is zero exactly when the pattern does not occur |
| StringReplace.ReplaceAbsentIsIdentity | src/VstsSyncMigrator.Core/Execution/ComponentContext/TfsQueryContext.cs:40 | a text without the pattern is returned unchanged |
| StringReplace.ReplaceWithItself | src/VstsSyncMigrator.Core/Execution/ComponentContext/TfsQueryContext.cs:40 | replacing a pattern by itself gives the text back |
| StringReplace.PrefixOfLongerWordIsReplaced | src/VstsSyncMigrator.Core/Execution/ComponentContext/TfsQueryContext.cs:40 | a match at the front is replaced even when more word characters follow, because matching is not token-bounded |
| StringReplace.ReplaceCopiesText | src/VstsSyncMigrator.Core/Execution/ComponentContext/TfsQueryContext.cs:40 | text lacking the pattern's first character is copied to the output unchanged |
| StringReplace.ReplacementIsNotRescanned | src/VstsSyncMigrator.Core/Execution/ComponentContext/TfsQueryContext.cs:40 | the text that replaces a match is not searched again, even when it contains the pattern |
| Int32Parse.TryParse | src/VstsSyncMigrator.Core/Execution/ComponentContext/TfsQueryContext.cs:45-50 | every accepted value lies in [-2^31, 2^31 - 1] |
| Int32Parse.TrimStartSplits | src/VstsSyncMigrator.Core/Execution/ComponentContext/TfsQueryContext.cs:45-50 | leading white space trimming removes exactly a white prefix and stops at a non-white character |
| Int32Parse.TrimEndSplits | src/VstsSyncMigrator.Core/Execution/ComponentContext/TfsQueryContext.cs:45-50 | trailing white space trimming removes exactly a white suffix and stops at a non-white character |
| Int32Parse.ParseSignedDigitsOf | src/VstsSyncMigrator.Core/Execution/ComponentContext/TfsQueryContext.cs:45-50 | an optional sign followed by one or more digits parses to the signed value when it is in Int32 range, and is refused otherwise |
| Int32Parse.ParseOfParts | src/VstsSyncMigrator.Core/Execution/ComponentContext/TfsQueryContext.cs:45-50 | white space, an optional sign, one or more digits and white space parse to the signed value exactly when it is in Int32 range |
| Int32Parse.PartsOfParse | src/VstsSyncMigrator.Core/Execution/ComponentContext/TfsQueryContext.cs:45-50 | conversely, every accepted string is white space, an optional sign, digits and white space, and its value is the signed digit value |
| Int32Parse.DecimalDigits | src/VstsSyncMigrator.Core/Execution/ComponentContext/TfsQueryContext.cs:45-50 | the decimal rendering of n is a non-empty digit string whose value is n |
| Int32Parse.FormatRoundTrip | src/VstsSyncMigrator.Core/Execution/ComponentContext/TfsQueryContext.cs:45-50 | every integer written in decimal parses back to itself when it fits in Int32, and is refused otherwise |
| Int32Parse.NonNumericStartIsNotInteger | src/VstsSyncMigrator.Core/Execution/ComponentContext/TfsQueryContext.cs:45-50 | a string that starts with a character other than white space, a sign or a digit is not an integer |
| Int32Parse.DigitIsInteger | src/VstsSyncMigrator.Core/Execution/ComponentContext/TfsQueryContext.cs:45-50 | a single digit is an integer, with its digit value |
| Int32Parse.DecimalDigitsNearBounds | src/VstsSyncMigrator.Core/Execution/ComponentContext/TfsQueryContext.cs:45-50 | the decimal renderings of 2147483647, 2147483648 and 2147483649 |
| Int32Parse.Int32Boundaries | src/VstsSyncMigrator.Core/Execution/ComponentContext/TfsQueryContext.cs:45-50 | "2147483647" and "-2147483648" are integers, while "2147483648" and "-2147483649" overflow and are not |
| QuerySubstitution.Placeholder | src/VstsSyncMigrator.Core/Execution/ComponentContext/TfsQueryContext.cs:40 | the searched text is '@' followed by the key |
| QuerySubstitution.Rendered | src/VstsSyncMigrator.Core/Execution/ComponentContext/TfsQueryContext.cs:35-39 | the value is inserted unchanged exactly when it is an integer; otherwise it is wrapped in one pair of single quotes |
| QuerySubstitution.SubstituteOneEffect | src/VstsSyncMigrator.Core/Execution/ComponentContext/TfsQueryContext.cs:35-40 | one key's pass changes the length by n·(\|rendering\| - \|key\| - 1); the rendering is \|value\| or \|value\| + 2 long; a query without `@key` is unchanged |
| QuerySubstitution.SubstituteWithoutPlaceholders | src/VstsSyncMigrator.Core/Execution/ComponentContext/TfsQueryContext.cs:33-42 | with no parameters, or when no key's placeholder occurs, the query comes back unchanged |
| QuerySubstitution.SubstituteWithoutAtSign | src/VstsSyncMigrator.Core/Execution/ComponentContext/TfsQueryContext.cs:33-42 | a query without any '@' comes back unchanged, whatever the parameters |
| QuerySubstitution.SubstituteSingle | src/VstsSyncMigrator.Core/Execution/ComponentContext/TfsQueryContext.cs:33-41 | one parameter means one `Replace` of `@key` by the rendered value |
| QuerySubstitution.SubstituteAppend | src/VstsSyncMigrator.Core/Execution/ComponentContext/TfsQueryContext.cs:33-41 | the fold splits over concatenated parameter lists, so later keys work on the output of earlier keys |
| QuerySubstitution.SubstituteSnoc | src/VstsSyncMigrator.Core/Execution/ComponentContext/TfsQueryContext.cs:33-41 | one more parameter at the end adds one more `Replace` pass at the end |
| QuerySubstitution.WorkAroundForSoapError | src/VstsSyncMigrator.Core/Execution/ComponentContext/TfsQueryContext.cs:31-43 | the loop's result is the left fold of single-key `Replace` passes over the parameters in enumeration order |
| SubstitutionScenarios.PlaceholderIsQuoted | src/VstsSyncMigrator.Core/Execution/ComponentContext/TfsQueryContext.cs:35-40 | a value of the form `@name` is never an integer, so it is quoted |
| SubstitutionScenarios.QuotedPlaceholderIsReplaced | src/VstsSyncMigrator.Core/Execution/ComponentContext/TfsQueryContext.cs:40 | in `'@name'` the placeholder is replaced and the quotes around it stay |
| SubstitutionScenarios.NameMatchesInsideLongerName | src/VstsSyncMigrator.Core/Execution/ComponentContext/TfsQueryContext.cs:40 | key `id` also rewrites the `@id` at the front of `@idx`, and the rest of the word is left behind |
| SubstitutionScenarios.EveryOccurrenceReplaced | src/VstsSyncMigrator.Core/Execution/ComponentContext/TfsQueryContext.cs:35-40 | every occurrence of `@key` is replaced by the same rendering (`@x = @x` becomes `5 = 5`) |
| SubstitutionScenarios.ValueIsNotRescanned | src/VstsSyncMigrator.Core/Execution/ComponentContext/TfsQueryContext.cs:33-41 | a key's own pass does not rescan its inserted value, even when the value contains `@key` |
| SubstitutionScenarios.OrderMatters | src/VstsSyncMigrator.Core/Execution/ComponentContext/TfsQueryContext.cs:33-41 | a later key rewrites a placeholder that an earlier key inserted, and the two orders of two such keys give different texts |
| SubstitutionScenarios.SecondPassQuotesAgain | src/VstsSyncMigrator.Core/Execution/ComponentContext/TfsQueryContext.cs:66 | substituting already substituted text quotes again: `'@a'` becomes `''@a''` |
| TfsQuery.Add | src/VstsSyncMigrator.Core/Execution/ComponentContext/TfsQueryContext.cs:24-27 | refused exactly when the name is already present; otherwise the new pair is appended, and distinct names stay distinct |
| TfsQuery.AsMapKeys | src/VstsSyncMigrator.Core/Execution/ComponentContext/TfsQueryContext.cs:13 | the dictionary has a key exactly for each registered name |
| TfsQuery.AsMapOfDistinct | src/VstsSyncMigrator.Core/Execution/ComponentContext/TfsQueryContext.cs:13 | with distinct names, the dictionary has one entry per parameter, and each name looks up its own value |
| TfsQuery.AddExtendsMap | src/VstsSyncMigrator.Core/Execution/ComponentContext/TfsQueryContext.cs:24-27 | a successful Add extends the dictionary by exactly that one pair |
| TfsQuery.ExecuteEffect | src/VstsSyncMigrator.Core/Execution/ComponentContext/TfsQueryContext.cs:128-134 | `Query` becomes the substituted text. `Execute` completes exactly when the store answers and neither `CollectionUrl` nor `Query` is registered yet; on completion both entries are appended. When the store fails, or `CollectionUrl` is already present, the dictionary is unchanged. When only `Query` is already present, just `CollectionUrl` is appended. Distinct names are kept |
| TfsQuery.ExecuteOnlyOnce | src/VstsSyncMigrator.Core/Execution/ComponentContext/TfsQueryContext.cs:128-134 | after a completed `Execute`, every later `Execute` substitutes its query and then fails at the duplicate `CollectionUrl`. This holds on any query text and on any dictionary that extends the one the completed run left |
| TfsQuery.ReservedNameBreaksExecute | src/VstsSyncMigrator.Core/Execution/ComponentContext/TfsQueryContext.cs:133-134 | a user parameter named `Query` makes every `Execute` that reaches the store fail |
| TfsQuery.TfsQueryContext.constructor | src/VstsSyncMigrator.Core/Execution/ComponentContext/TfsQueryContext.cs:15-19 | a new context has an empty dictionary |
| TfsQuery.TfsQueryContext.AddParameter | src/VstsSyncMigrator.Core/Execution/ComponentContext/TfsQueryContext.cs:24-27 | a fresh name appends exactly that pair; a duplicate fails and leaves the dictionary unchanged; `Query` is never touched; names stay distinct |
| TfsQuery.TfsQueryContext.Execute | src/VstsSyncMigrator.Core/Execution/ComponentContext/TfsQueryContext.cs:128-134 | the new `Query` and dictionary and the completion flag are those of `ExecuteEffect` on the old state |
| TfsQuery.TfsQueryContext.ExecuteLinksQuery | src/VstsSyncMigrator.Core/Execution/ComponentContext/TfsQueryContext.cs:66 | `Query` becomes the substituted text, which is also the text sent, and the dictionary is unchanged |

## Left out

- The work item store: `Store.Query`, `RunLinkQuery`, `GetWorkItem` and the lazy `Title` read. Whether the store answers is the `storeAnswers` parameter of `Execute`. The returned work item collections are not modelled.
- The per-item `DeniedOrNotExistException` skip in `ExecuteLinksQuery`. It depends only on the store.
- Telemetry, `Debug`/`Trace` output, `Stopwatch` and `DateTime.UtcNow` timing, and the catch-and-rethrow blocks. The rethrown exception is the `false` result of `Execute`.
- `storeContext` and the collection address: the address is the `collectionUrl` parameter of `Execute`.
- TfsQuery.TfsQueryContext.constructor: `Query` starts as `""`, not `null`. Strings in the model are never null, so three source behaviours are not modelled:
  - a null key makes `Dictionary.Add` throw `ArgumentNullException`;
  - a null value is not an integer and renders as `''`, so `@key` becomes `''`;
  - a null `Query` with an empty dictionary passes through the substitution unchanged, while with a non-empty dictionary the first `Replace` on it throws `NullReferenceException`.
- Strings: a Dafny `char` is a Unicode scalar value, while a .NET string is a sequence of UTF-16 code units. The lengths in `ReplaceLength` and `SubstituteOneEffect` count scalar values, not code units, and strings holding lone surrogates cannot be represented.
- Int32Parse.TryParse: culture-specific sign symbols are not modelled; the invariant culture's `+` and `-` are. Trailing `'\0'` characters, which .NET also accepts after the number, are not modelled.
- Dictionary enumeration order: .NET does not guarantee it. The model enumerates in insertion order, which is what a dictionary that is only ever added to yields. `OrderMatters` shows that the result depends on this order.
