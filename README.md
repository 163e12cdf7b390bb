# Environment-variable interpolation for Dataverse records

This project models the interpolation engine of the
`Cds.EnvironmentVariable.Interpolation.Plugins` assembly and the two plug-ins
that drive it.

When a record is retrieved, a plug-in reads a configured string attribute. If
the value starts with the sentinel `$`, the plug-in:

- strips the sentinel;
- finds every token `{prefix:Name}` (or `{Name}` when no prefix is configured);
- resolves each token against the environment-variable store;
- writes the result into a configured output attribute.

The output attribute is the input attribute itself when no output is
configured.

The store holds `environmentvariabledefinition` records (a schema name and an
optional default) and `environmentvariablevalue` records (an optional override
that references a definition). Each token resolves as follows:

- **No definition** with its name: the token is left alone.
- **A value record** references the first definition with that name: the first
  such value wins. A null value substitutes the empty string, as
  `String.Replace` with a null replacement removes the match.
- **No value record**: the definition's default is used. A null default falls
  back to the token text itself, so the substitution changes nothing.

Modules, one per concern of the source:

| module | models |
|---|---|
| `Options` | null references as `Option`, `??` as `GetOr` |
| `Text` | ordinal `String.Replace`, ASCII case folding, the `\w` class |
| `Lookup` | the store as two sequences; `FirstOrDefault` as "first index" |
| `Scanner` | `Regex.Matches` for `\{prefix:\w+}` with `IgnoreCase`: left to right, non-overlapping |
| `Interpolation` | the engine: the specification function `Expand`, the loop `SubstituteMatches`, the record class `Entity` and the class `EntityInterpolation` |
| `Settings` | the plug-in configuration as a map; a missing setting reads as `""` |
| `Retrieve` | the single-record plug-in, which inlines the engine |
| `RetrieveMultiple` | the multi-record plug-in, over an array of records |
| `Templates` | the engine on any text of brace-free pieces and tokens, with any number of tokens |
| `Scenarios` | concrete runs of the engine with their outputs |

Behaviour follows the code where it is more specific than a prose description:

- **Every match triggers its own lookup.** The matches are found once, in the
  stripped text. Duplicates are included, so a duplicate triggers another
  lookup. Each `Replace` acts on the current working string, so a value
  inserted for one token can be rewritten by a later token
  (`Scenarios.LaterTokenRewritesInsertedValue`).
- **Name extraction is case-sensitive, matching is not.** `{PFX:A}` matches
  under prefix `pfx` but is looked up as `{PFX:A`.
- **The multi-record plug-in stops one short.** Its loop runs while
  `i < Count - 1`, so the last record of a collection is never interpolated,
  and a collection of at most one record is left as it was. The model keeps
  this loop bound as written.
- **A missing input attribute is an error in the single-record plug-in.** It
  reads the input attribute without checking that it is present. A record that
  lacks it ends in the `KeyNotFound` outcome, with the record unchanged.

## Model

| member | source | states |
|---|---|---|
| `Interpolation.EntityInterpolation.Interpolate` | src/Cds.EnvironmentVariable.Interpolation.Plugins/EntityInterpolation.cs:22-96 | returns the same record; its attributes become `Interpolated` of the old attributes |
| `Interpolation.Interpolated` | src/Cds.EnvironmentVariable.Interpolation.Plugins/EntityInterpolation.cs:24-91 | a record without the input attribute, or whose input value does not start with `$`, is unchanged; otherwise the keys gain only the output attribute, which receives the expansion of the value without its first character; every other attribute keeps its value |
| `Interpolation.InterpolatedInPlace` | src/Cds.EnvironmentVariable.Interpolation.Plugins/EntityInterpolation.cs:91 | with output equal to input, the expansion overwrites the input value and no attribute is added |
| `Interpolation.SubstituteMatches` | src/Cds.EnvironmentVariable.Interpolation.Plugins/EntityInterpolation.cs:56-88 | the lookup-and-replace loop over the matches yields exactly `Expand` of the stripped text |
| `Interpolation.Resolve` | src/Cds.EnvironmentVariable.Interpolation.Plugins/EntityInterpolation.cs:64-83 | how one match resolves: `None` when no definition has its schema name (the `continue`), else the first referencing value (null giving `""`), else the non-null default, else the match text; no ensures of its own, described completely by `ResolveUndefined`, `ResolveOverride` and `ResolveDefault` |
| `Interpolation.ResolveUndefined` | src/Cds.EnvironmentVariable.Interpolation.Plugins/EntityInterpolation.cs:64-70 | a match is skipped exactly when no definition has its schema name |
| `Interpolation.ResolveOverride` | src/Cds.EnvironmentVariable.Interpolation.Plugins/EntityInterpolation.cs:76-83 | the first value referencing the first definition of the name wins, a null value giving `""` |
| `Interpolation.ResolveDefault` | src/Cds.EnvironmentVariable.Interpolation.Plugins/EntityInterpolation.cs:72-78 | with no value referencing the first definition of the name, its default applies, and a null default gives the match text |
| `Interpolation.SchemaName` | src/Cds.EnvironmentVariable.Interpolation.Plugins/EntityInterpolation.cs:61 | the name looked up for a match: its text with `{` + prefix string removed, then every `}` removed, both case-sensitively; no ensures of its own, described by `SchemaNameOfToken`, `SchemaNameExactPrefix` and `SchemaNameOtherPrefix` |
| `Interpolation.SchemaNameOfToken` | src/Cds.EnvironmentVariable.Interpolation.Plugins/EntityInterpolation.cs:61 | the looked-up name is the bare name when the match spells the prefix as configured, and otherwise the match minus its closing brace (case-sensitive removal) |
| `Interpolation.SchemaNameExactPrefix` | src/Cds.EnvironmentVariable.Interpolation.Plugins/EntityInterpolation.cs:61 | a match spelling the prefix as configured loses `{`, the prefix and `}` |
| `Interpolation.SchemaNameOtherPrefix` | src/Cds.EnvironmentVariable.Interpolation.Plugins/EntityInterpolation.cs:61 | a match spelling the prefix in another case loses only its `}` |
| `Interpolation.PrefixedToken` | src/Cds.EnvironmentVariable.Interpolation.Plugins/EntityInterpolation.cs:51-61 | `{` + prefix string + name + `}` is a match and is looked up under that name |
| `Interpolation.TokenBraces` | src/Cds.EnvironmentVariable.Interpolation.Plugins/EntityInterpolation.cs:52 | every match is `Delimited`: it opens with `{`, closes with `}`, and holds no other brace of either kind |
| `Interpolation.Substitute` | src/Cds.EnvironmentVariable.Interpolation.Plugins/EntityInterpolation.cs:66-85 | one pass of the loop: an unresolved match leaves the working string as it is, a resolved one `Replace`s every occurrence of its text by its resolution; no ensures of its own, described by `SubstituteAllStep` and `Templates.SubstituteAsReplace` |
| `Interpolation.SubstituteAll` | src/Cds.EnvironmentVariable.Interpolation.Plugins/EntityInterpolation.cs:59-88 | the passes for a list of matches, in order, each acting on the result of the previous ones; no ensures of its own, described by `SubstituteAllOne`, `SubstituteAllTwo`, `SubstituteAllStep`, `SubstituteAllInert` and `Templates.SubstituteTemplate` |
| `Interpolation.Expand` | src/Cds.EnvironmentVariable.Interpolation.Plugins/EntityInterpolation.cs:56-88 | the matches found once in the stripped text, then substituted in order into the working string; no ensures of its own, described by `SubstituteMatches` (the loop computes it), `ExpandInert`, `ExpandWithoutBraces`, `ExpandWithoutDefinitions`, `Templates.ExpandTemplate` and `Templates.ExpandKeepsInert` |
| `Interpolation.SubstituteAllInert` | src/Cds.EnvironmentVariable.Interpolation.Plugins/EntityInterpolation.cs:59-85 | matches that resolve to nothing or to their own text leave the working string unchanged |
| `Interpolation.ExpandInert` | src/Cds.EnvironmentVariable.Interpolation.Plugins/EntityInterpolation.cs:59-85 | text whose every match is skipped or resolves to itself comes out verbatim |
| `Interpolation.ExpandWithoutBraces` | src/Cds.EnvironmentVariable.Interpolation.Plugins/EntityInterpolation.cs:56-85 | text without `{` comes out verbatim |
| `Interpolation.ExpandWithoutDefinitions` | src/Cds.EnvironmentVariable.Interpolation.Plugins/EntityInterpolation.cs:64-70 | a store with no definitions leaves every text verbatim |
| `Interpolation.SubstituteAllOne` | src/Cds.EnvironmentVariable.Interpolation.Plugins/EntityInterpolation.cs:59-85 | one match means one substitution step |
| `Interpolation.SubstituteAllTwo` | src/Cds.EnvironmentVariable.Interpolation.Plugins/EntityInterpolation.cs:59-85 | two matches are substituted in order, the second acting on the result of the first |
| `Interpolation.SubstituteAllStep` | src/Cds.EnvironmentVariable.Interpolation.Plugins/EntityInterpolation.cs:59-85 | each pass of the loop adds exactly one substitution step for the next match |
| `Interpolation.ExpandTwoMatches` | src/Cds.EnvironmentVariable.Interpolation.Plugins/EntityInterpolation.cs:56-85 | text with exactly two matches expands by substituting the first and then the second |
| `Interpolation.ReplaceLoneToken` | src/Cds.EnvironmentVariable.Interpolation.Plugins/EntityInterpolation.cs:85 | a token standing once in brace-free text is replaced with the text around it kept |
| `Interpolation.ExpandOneToken` | src/Cds.EnvironmentVariable.Interpolation.Plugins/EntityInterpolation.cs:59-85 | one token in brace-free text stays verbatim when unresolved and is replaced by its resolved value otherwise |
| `Interpolation.ExpandRemovesToken` | src/Cds.EnvironmentVariable.Interpolation.Plugins/EntityInterpolation.cs:78-85 | a single token that resolves to the empty string disappears from the text |
| `Interpolation.ReplaceTwiceToken` | src/Cds.EnvironmentVariable.Interpolation.Plugins/EntityInterpolation.cs:85 | one replacement rewrites both occurrences of a token |
| `Interpolation.ExpandDuplicateToken` | src/Cds.EnvironmentVariable.Interpolation.Plugins/EntityInterpolation.cs:59-85 | a repeated token is replaced at both places; the second lookup of the same token changes nothing more |
| `Interpolation.ReplaceInOtherToken` | src/Cds.EnvironmentVariable.Interpolation.Plugins/EntityInterpolation.cs:85 | replacing one match's text never alters a different match's text |
| `Interpolation.ReplaceChained` | src/Cds.EnvironmentVariable.Interpolation.Plugins/EntityInterpolation.cs:85 | replacing `t1` by `t2` and then `t2` by `v` turns `t1 t2` into `v v` |
| `Interpolation.ExpandChainedTokens` | src/Cds.EnvironmentVariable.Interpolation.Plugins/EntityInterpolation.cs:59-85 | when the first token resolves to the second token's text, the later substitution also rewrites the inserted value |
| `Templates.DelimitedNotPrefix` | src/Cds.EnvironmentVariable.Interpolation.Plugins/EntityInterpolation.cs:85 | a delimited string never begins with a different delimited one |
| `Templates.ReplaceSkipDelimited` | src/Cds.EnvironmentVariable.Interpolation.Plugins/EntityInterpolation.cs:85 | replacing one match's text copies a different match at the front through unchanged |
| `Templates.ReplaceAroundDelimited` | src/Cds.EnvironmentVariable.Interpolation.Plugins/EntityInterpolation.cs:85 | replacing one match's text rewrites the text on either side of a different match and leaves that match intact |
| `Templates.ReplaceOverSegment` | src/Cds.EnvironmentVariable.Interpolation.Plugins/EntityInterpolation.cs:85 | a brace-free stretch or a whole token at the front is rewritten as a whole or not at all |
| `Templates.ReplacePieceSegment` | src/Cds.EnvironmentVariable.Interpolation.Plugins/EntityInterpolation.cs:85 | a brace-free piece followed by a segment: the piece is copied, the segment rewritten exactly when it equals the replaced token |
| `Templates.ReplaceAssembled` | src/Cds.EnvironmentVariable.Interpolation.Plugins/EntityInterpolation.cs:85 | one `Replace` over a text of brace-free pieces and segments rewrites exactly the segments equal to the replaced token |
| `Templates.SubstituteAsReplace` | src/Cds.EnvironmentVariable.Interpolation.Plugins/EntityInterpolation.cs:76-85 | each pass replaces the match by its resolution, and a match with no definition by itself |
| `Templates.SwapPartial` | src/Cds.EnvironmentVariable.Interpolation.Plugins/EntityInterpolation.cs:59-85 | after one more pass every copy of the next token holds its resolution and the tokens already handled are not disturbed, when no resolution but a token's own text holds `{` |
| `Templates.PartialStep` | src/Cds.EnvironmentVariable.Interpolation.Plugins/EntityInterpolation.cs:59-85 | one more pass of the loop over a template resolves every copy of one more token |
| `Templates.SubstituteTemplate` | src/Cds.EnvironmentVariable.Interpolation.Plugins/EntityInterpolation.cs:59-85 | after `k` passes over a template, every copy of the first `k` tokens holds its resolution and every other token is intact |
| `Templates.ExpandTemplate` | src/Cds.EnvironmentVariable.Interpolation.Plugins/EntityInterpolation.cs:56-85 | for any number of tokens in brace-free text, `a0 t1 a1 … tn an` expands to `a0 r1 a1 … rn an`, each `ri` the resolution of `ti` or `ti` itself when it has none, provided no resolution other than a token's own text holds `{` |
| `Templates.SliceOccurs` | src/Cds.EnvironmentVariable.Interpolation.Plugins/EntityInterpolation.cs:56 | a match's text is a slice of the text it was found in |
| `Templates.MatchOccurs` | src/Cds.EnvironmentVariable.Interpolation.Plugins/EntityInterpolation.cs:56 | every match occurs in the text it was found in |
| `Templates.MatchesDelimited` | src/Cds.EnvironmentVariable.Interpolation.Plugins/EntityInterpolation.cs:52-56 | every match of a word prefix is delimited |
| `Templates.ReplaceKeeps` | src/Cds.EnvironmentVariable.Interpolation.Plugins/EntityInterpolation.cs:85 | replacing a different match's text keeps an occurrence of a match |
| `Templates.SubstituteAllKeeps` | src/Cds.EnvironmentVariable.Interpolation.Plugins/EntityInterpolation.cs:59-85 | an occurrence of a match that resolves to nothing or to itself survives every pass of the loop |
| `Templates.ExpandKeepsInert` | src/Cds.EnvironmentVariable.Interpolation.Plugins/EntityInterpolation.cs:56-85 | in any text, a match with no definition, or one that resolves to its own text, is still in the output, whatever the other matches resolve to |
| `Scanner.PrefixString` | src/Cds.EnvironmentVariable.Interpolation.Plugins/EntityInterpolation.cs:51 | an empty prefix contributes nothing to the pattern, any other one contributes itself followed by `:` |
| `Scanner.PrefixStringContents` | src/Cds.EnvironmentVariable.Interpolation.Plugins/EntityInterpolation.cs:51 | the prefix string holds `:` exactly when a prefix is configured, and holds `{` only when the prefix does |
| `Scanner.IsToken` | src/Cds.EnvironmentVariable.Interpolation.Plugins/EntityInterpolation.cs:52-55 | a whole match of `\{` + prefix string + `\w+}` under `IgnoreCase`: `{`, the prefix string up to ASCII case, one or more word characters, `}`; a predicate, described by `TokenEnd`, `TokenEndComplete` and `Interpolation.PrefixedToken` |
| `Scanner.WordEnd` | src/Cds.EnvironmentVariable.Interpolation.Plugins/EntityInterpolation.cs:52 | the greedy `\w+` run: every character before the end is a word character and the one at the end is not |
| `Scanner.TokenEnd` | src/Cds.EnvironmentVariable.Interpolation.Plugins/EntityInterpolation.cs:52-55 | a match reported at a position spans a whole token: `{`, the prefix up to case, one or more word characters, `}` |
| `Scanner.TokenEndComplete` | src/Cds.EnvironmentVariable.Interpolation.Plugins/EntityInterpolation.cs:52-55 | wherever a whole token starts, the pattern matches exactly that token |
| `Scanner.NoBraceInsideToken` | src/Cds.EnvironmentVariable.Interpolation.Plugins/EntityInterpolation.cs:52 | a match holds no `{` after its first character when the prefix holds none |
| `Scanner.Scan` | src/Cds.EnvironmentVariable.Interpolation.Plugins/EntityInterpolation.cs:56 | every reported span is a match, in increasing order and without overlap |
| `Scanner.ScanFindsEveryToken` | src/Cds.EnvironmentVariable.Interpolation.Plugins/EntityInterpolation.cs:56 | every position where the pattern matches starts one of the reported spans |
| `Scanner.ScanWithoutBraces` | src/Cds.EnvironmentVariable.Interpolation.Plugins/EntityInterpolation.cs:56 | text without `{` yields no span |
| `Scanner.ScanSkip` | src/Cds.EnvironmentVariable.Interpolation.Plugins/EntityInterpolation.cs:56 | positions where no match starts are passed over |
| `Scanner.ScanTokenAt` | src/Cds.EnvironmentVariable.Interpolation.Plugins/EntityInterpolation.cs:56 | a token at the scan position is reported and the scan resumes after it |
| `Scanner.ScanToToken` | src/Cds.EnvironmentVariable.Interpolation.Plugins/EntityInterpolation.cs:56 | after brace-free text, the next token is the next match |
| `Scanner.MatchesOfOneToken` | src/Cds.EnvironmentVariable.Interpolation.Plugins/EntityInterpolation.cs:56 | one token in brace-free text is the only match |
| `Scanner.MatchesOfTwoTokens` | src/Cds.EnvironmentVariable.Interpolation.Plugins/EntityInterpolation.cs:56 | two tokens in brace-free text are the matches, in order, duplicates included |
| `Scanner.MatchesOfAdjacentTokens` | src/Cds.EnvironmentVariable.Interpolation.Plugins/EntityInterpolation.cs:56 | two tokens side by side are the two matches |
| `Scanner.Matches` | src/Cds.EnvironmentVariable.Interpolation.Plugins/EntityInterpolation.cs:56 | every match text is a whole token for the configured prefix |
| `Scanner.MatchesWithoutBraces` | src/Cds.EnvironmentVariable.Interpolation.Plugins/EntityInterpolation.cs:56 | text without `{` has no matches, whatever the prefix |
| `Scanner.ScanTemplate` | src/Cds.EnvironmentVariable.Interpolation.Plugins/EntityInterpolation.cs:56 | scanning brace-free pieces interleaved with tokens yields exactly those tokens, in order, duplicates included |
| `Scanner.MatchesOfTemplate` | src/Cds.EnvironmentVariable.Interpolation.Plugins/EntityInterpolation.cs:56 | the matches of any text of brace-free pieces and tokens are its tokens, in order, duplicates included |
| `Lookup.FindDefinition` | src/Cds.EnvironmentVariable.Interpolation.Plugins/EntityInterpolation.cs:64 | finds the first definition with the schema name, and finds none exactly when no definition has it |
| `Lookup.FindDefinitionFirst` | src/Cds.EnvironmentVariable.Interpolation.Plugins/EntityInterpolation.cs:64 | conversely, the first definition with the name is the one found |
| `Lookup.FindValue` | src/Cds.EnvironmentVariable.Interpolation.Plugins/EntityInterpolation.cs:76 | finds the first value referencing the definition, and finds none exactly when no value references it |
| `Lookup.FindValueFirst` | src/Cds.EnvironmentVariable.Interpolation.Plugins/EntityInterpolation.cs:76 | conversely, the first value referencing the definition is the one found |
| `Text.Replace` | src/Cds.EnvironmentVariable.Interpolation.Plugins/EntityInterpolation.cs:85 | `String.Replace` (ordinal): left to right, every occurrence of the old string not overlapping an earlier replaced one becomes the new string; no ensures of its own, described by `ReplaceSelf`, `ReplaceAbsent`, `ReplaceAtStart`, `ReplaceSkip`, `ReplaceLeading`, `ReplaceTrailingChar` and `ReplaceBeforeBrace` |
| `Text.StartsWith` | src/Cds.EnvironmentVariable.Interpolation.Plugins/EntityInterpolation.cs:33 | the text begins with the given string; a predicate used by the `$` gate of `Interpolated` |
| `Text.ReplaceSelf` | src/Cds.EnvironmentVariable.Interpolation.Plugins/EntityInterpolation.cs:78-85 | replacing a token by its own text (the null-default fallback) changes nothing |
| `Text.ReplaceAbsent` | src/Cds.EnvironmentVariable.Interpolation.Plugins/EntityInterpolation.cs:85 | `Replace` of a string that does not occur changes nothing |
| `Text.CountWithoutFirstChar` | src/Cds.EnvironmentVariable.Interpolation.Plugins/EntityInterpolation.cs:85 | a string whose first character is absent does not occur |
| `Text.ReplaceTrailingChar` | src/Cds.EnvironmentVariable.Interpolation.Plugins/EntityInterpolation.cs:61 | removing `}` that occurs only at the end drops the last character |
| `Text.ReplaceLeading` | src/Cds.EnvironmentVariable.Interpolation.Plugins/EntityInterpolation.cs:61 | removing `{prefix:` that occurs only at the start drops that prefix |
| `Text.ReplaceAtStart` | src/Cds.EnvironmentVariable.Interpolation.Plugins/EntityInterpolation.cs:85 | an occurrence at the start is rewritten and replacement resumes after it |
| `Text.ReplaceSkip` | src/Cds.EnvironmentVariable.Interpolation.Plugins/EntityInterpolation.cs:85 | text without the first character of the old string is copied through unchanged |
| `Text.ReplaceBeforeBrace` | src/Cds.EnvironmentVariable.Interpolation.Plugins/EntityInterpolation.cs:85 | when the old string holds `{` only at its start, text that begins with `{` splits the replacement into independent halves |
| `Text.Lower` | src/Cds.EnvironmentVariable.Interpolation.Plugins/EntityInterpolation.cs:55 | case folding maps upper-case ASCII letters to lower case and fixes every other character |
| `Text.LowerIdempotent` | src/Cds.EnvironmentVariable.Interpolation.Plugins/EntityInterpolation.cs:55 | folding never yields an upper-case letter, so folding a folded character changes nothing |
| `Text.LowerFixesNonLetters` | src/Cds.EnvironmentVariable.Interpolation.Plugins/EntityInterpolation.cs:55 | only a non-letter itself matches a non-letter when case is ignored |
| `Settings.Setting` | src/Cds.EnvironmentVariable.Interpolation.Plugins/EntityRetrieve.cs:24-36 | a configured setting reads as its value, a missing one as `""`; a non-empty reading comes from a configured setting |
| `Settings.OutputAttribute` | src/Cds.EnvironmentVariable.Interpolation.Plugins/EntityRetrieve.cs:72-76 | the attribute written is the `output` setting, or the `input` setting when `output` is empty or missing; with an input configured, some attribute is always written; a non-empty result comes from a configured `output` or `input` |
| `Retrieve.EntityRetrieve.Execute` | src/Cds.EnvironmentVariable.Interpolation.Plugins/EntityRetrieve.cs:56-156 | with an empty input setting, returns leaving the record unchanged; when the record lacks the input attribute, fails with `KeyNotFound` and leaves it unchanged; otherwise the record becomes `Interpolated` with the defaulted output attribute and the configured prefix |
| `RetrieveMultiple.EntityRetrieveMultiple.Execute` | src/Cds.EnvironmentVariable.Interpolation.Plugins/EntityRetrieveMultiple.cs:56-98 | the collection keeps its records and order; with an empty input setting, every record is unchanged; otherwise each record before the last becomes `Interpolated` of its own old attributes; the last record is never changed |
| `Scenarios.PfxToken` | src/Cds.EnvironmentVariable.Interpolation.Plugins/EntityInterpolation.cs:51-61 | `{pfx:Name}` is a match under prefix `pfx` and is looked up as `Name` |
| `Scenarios.StripsSentinel` | src/Cds.EnvironmentVariable.Interpolation.Plugins/EntityInterpolation.cs:39-91 | `$hello` writes `hello` |
| `Scenarios.FullResolution` | src/Cds.EnvironmentVariable.Interpolation.Plugins/EntityInterpolation.cs:72-85 | a defined variable without an override is replaced by its default |
| `Scenarios.OverridePrecedence` | src/Cds.EnvironmentVariable.Interpolation.Plugins/EntityInterpolation.cs:76-83 | an override value wins over the default |
| `Scenarios.UnresolvedTokenVerbatim` | src/Cds.EnvironmentVariable.Interpolation.Plugins/EntityInterpolation.cs:64-70 | a token with no definition is left verbatim |
| `Scenarios.DuplicateTokens` | src/Cds.EnvironmentVariable.Interpolation.Plugins/EntityInterpolation.cs:59-85 | `x={pfx:A} y={pfx:A}` with `A` as `1` gives `x=1 y=1` |
| `Scenarios.ForeignPrefixVerbatim` | src/Cds.EnvironmentVariable.Interpolation.Plugins/EntityInterpolation.cs:51-56 | `{other:A}` is not a match under prefix `pfx` and survives verbatim |
| `Scenarios.CaseMismatchedPrefixVerbatim` | src/Cds.EnvironmentVariable.Interpolation.Plugins/EntityInterpolation.cs:55-61 | `{PFX:A}` matches under `pfx` but is looked up as `{PFX:A` and stays verbatim |
| `Scenarios.UpperCasePrefixToken` | src/Cds.EnvironmentVariable.Interpolation.Plugins/EntityInterpolation.cs:55-61 | `{PFX:A}` is a match under prefix `pfx` and its schema name is `{PFX:A` |
| `Scenarios.NullOverrideRemovesToken` | src/Cds.EnvironmentVariable.Interpolation.Plugins/EntityInterpolation.cs:79-85 | an override with a null value removes the token |
| `Scenarios.NullDefaultKeepsToken` | src/Cds.EnvironmentVariable.Interpolation.Plugins/EntityInterpolation.cs:78 | a null default and no override leave the token verbatim |
| `Scenarios.EmptyDefaultRemovesToken` | src/Cds.EnvironmentVariable.Interpolation.Plugins/EntityInterpolation.cs:78 | an empty default is substituted, removing the token |
| `Scenarios.FirstRecordsWin` | src/Cds.EnvironmentVariable.Interpolation.Plugins/EntityInterpolation.cs:64-76 | of duplicate definitions and duplicate values, the first in store order wins |
| `Scenarios.UnprefixedToken` | src/Cds.EnvironmentVariable.Interpolation.Plugins/EntityInterpolation.cs:51 | without a prefix, `{A}` is the token for `A` |
| `Scenarios.DistinctOutputAttribute` | src/Cds.EnvironmentVariable.Interpolation.Plugins/EntityInterpolation.cs:91 | with a distinct output attribute, the input keeps its value, sentinel included, and only the output changes |
| `Scenarios.LaterTokenRewritesInsertedValue` | src/Cds.EnvironmentVariable.Interpolation.Plugins/EntityInterpolation.cs:85 | a value inserted for `{pfx:A}` that reads `{pfx:B}` is rewritten by the later substitution of `B` |

## Left out

- Configuration parsing is not modelled. This covers `XmlDocument.LoadXml`, the XPath lookups and the constructors' exception for an empty configuration. The settings are a map from name to value text.
- Plug-in plumbing is not modelled: the service provider, the execution context, the organisation service factory, and the `OutputParameters` gate that checks for `BusinessEntity` / `BusinessEntityCollection`. The plug-ins receive the record, or the array of records, and the store as parameters.
- Tracing is not modelled. This includes the read of the output attribute before the transformation, which only feeds a trace message.
- The query provider behind `CreateQuery` becomes in-memory sequences searched in order. The real queries run on the server: `Equals` there follows the database collation (case-insensitive in Dataverse), and `FirstOrDefault` without an ordering has no defined first row. The model compares schema names ordinally and reads the store in sequence order, so it does not capture a case-insensitive schema-name match or a different choice among duplicate records. Remote failures, concurrency and transactions are not modelled.
- Lookup.FindDefinition: compares schema names ordinally and returns the first definition in sequence order, where the server compares under its collation and returns rows in no defined order.
- Lookup.FindValue: returns the first value in sequence order, where the server returns rows in no defined order.
- Templates.ExpandTemplate: requires brace-free pieces and resolutions that hold no `{` unless they are the token's own text. Without that, an inserted value can complete a token that a later pass rewrites; `Interpolation.ExpandChainedTokens` and `Scenarios.LaterTokenRewritesInsertedValue` show that case.
- Interpolation.SubstituteMatches: the number of store queries (one definition query and up to one value query per match, duplicates included) is not stated as a count.
- Regular-expression details are not modelled.
  - The prefix is compared literally: characters in it that the regex engine would treat as metacharacters are not interpreted.
  - `\w` and case-insensitive comparison cover ASCII only.
  - `RegexOptions.Compiled` has no observable effect and is ignored.
- Scanner.ScanFindsEveryToken: the lemma requires a prefix without `{`. Interpolation.SchemaNameOfToken, Interpolation.TokenBraces, Interpolation.PrefixedToken, Interpolation.ReplaceInOtherToken, Interpolation.ExpandChainedTokens, Templates.ExpandTemplate and Templates.ExpandKeepsInert require a prefix of word characters only.
- Runtime casts and nulls are not modelled.
  - Attribute values are non-null strings.
  - Schema names are non-null.
  - A value record always references a definition.
- `String.StartsWith("$")` is culture-sensitive in .NET. It is modelled as an ordinal comparison of the first character.
- RetrieveMultiple.EntityRetrieveMultiple.Execute: requires the collection to hold distinct record objects, so aliasing of one record at two indices is not modelled.
