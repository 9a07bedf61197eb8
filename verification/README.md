# so2017-survey `clean.js`: the converter engine in Dafny

`clean.js` reads the public results of the 2017 Stack Overflow developer
survey. It builds one *converter* per output column and writes a numeric
CSV file with one row per response. This project models the pure part of
that script:

- `createConverters` (clean.js:7-217):
  - the `addSwitch` closures;
  - the year-count, free-number, yes/no-flag and agreement-scale converters;
  - the scan of every record that discovers the tokens of each
    multi-select column and registers one `factor_token` indicator per token;
- the header and row loops of the `"end"` handler (clean.js:233-261). These
  write the comma-separated header and then each record's cells, and stop at
  the first converter result that is `undefined` or NaN.

## Modules

- `Wrappers` holds `Option` and `Result`.
- `Text` holds JavaScript's `split` with a literal separator, `join`, the
  header's comma-to-period rename, decimal rendering of integers, and the
  decimal subset of `parseInt`.
- `Seqs` holds first-seen deduplication. This is the order in which the
  script's objects enumerate keys that were assigned one after another.
- `Converters` holds the record type, the JavaScript values a closure
  returns, the errors it throws, `addSwitch`, the year-count parse, the
  agreement scale, and `Eval`, which applies each kind of stored converter.
- `Schema` holds the declared field lists, the exact lists of the survey
  (`SurveySchema`), and a proof that these lists follow the naming discipline
  the rest of the model relies on:
  - no underscore in a factor or switch name;
  - no switch named like a single-column converter.
- `Registry` holds:
  - the ordered converter registry, with JavaScript object-assignment
    semantics;
  - token discovery, both as a function and as the nested loops;
  - the indicator names;
  - `Build` (the whole of `createConverters`) and what its result contains.
- `Emit` holds the cell check, rows, the table, the header, and the writer
  loops as methods (`WriteHeader`, `WriteRow`, `WriteRows`, `Emit`). `Clean`
  puts construction and writing together.

A record is a `map<string, string>`. A missing column behaves as in
JavaScript, which depends on the converter:

- a switch looks up the key `"undefined"`;
- a year count, an indicator and the token scan throw a `TypeError`, which is
  modelled as `MissingField`;
- a free number becomes NaN;
- a flag becomes `"0"`;
- an agreement field becomes `undefined`.

Floating-point behaviour is a parameter, `Numerics`: `parseFloat`, and the
rendering of a number that is not an integer below 10^21 in magnitude.
Integers render as their decimal digits, as `Number.prototype.toString` does.

## Model

| member | source | states |
|---|---|---|
| Converters.ApplySwitch | clean.js:10-15 | a raw value (the key `"undefined"` for a missing column) that is a table key yields its code; otherwise a default yields the default; the closure throws exactly when the key is absent and there is no default |
| Converters.SwitchWithDefaultIsTotal | clean.js:12-13 | a switch with a default never throws, and returns either a table code or the default |
| Converters.SwitchErrorIgnoresValue | clean.js:14 | the unknown-option error interpolates the (absent) default, so every failing record of a switch throws the same `UnknownOption(None)`, whatever its raw value |
| Schema.SurveySwitchExamples | clean.js:17-40 | "20 to 99 employees" codes as 1.5 and "1,000 to 4,999 employees" as 3; an unlisted company size falls back to 0 and an unlisted last-job answer to 4; an unlisted "Overpaid" answer throws |
| Schema.SurveySchemaWellFormed | clean.js:17-202 | the survey's lists have no underscore in any factor or switch name, and no switch shares a name with a single-column converter |
| Converters.YearsOf | clean.js:96-101 | the two sentinels give 0; a failure is always `Unexpected number` carrying the raw cell |
| Converters.YearsOfCount | clean.js:98-100 | an integer written in decimal, alone or followed by a space and more words (such as "5 years"), reads back as that integer |
| Converters.YearsOfDigits | clean.js:96-100 | a cell that starts with a run of digits counts as the value of those digits, whatever follows them (other than a `0x` or `0X` prefix): leading zeros are read ("05 years" is 5) and trailing letters are ignored ("5abc" is 5) |
| Converters.YearsOfNonNumber | clean.js:97-99 | a cell that is not a sentinel and does not start with a sign or a digit (the empty cell among them) throws `Unexpected number` |
| Converters.AgreeScaleOrdered | clean.js:153-160 | the five labels from "Strongly disagree" to "Strongly agree" score -2 to 2 in order, "NA" scores 0, and no other text is a case |
| Converters.AgreeDefinedExactly | clean.js:152-161 | the agreement closure never throws, and yields a number in [-2, 2] exactly for the six literals and `undefined` for every other cell, including a missing one |
| Converters.FlagIsTotal | clean.js:112-114 | the flag closure never throws and yields "1" exactly when the cell is "Yes", "0" otherwise |
| Converters.Eval | clean.js:96-212 | only year counts and indicators can throw, and an indicator throws exactly when its factor column is missing |
| Converters.IndicatorMembership | clean.js:212 | an indicator yields "1" exactly when its token is one of the pieces of the cell split on "; " |
| Text.ReplaceCommas | clean.js:237-240 | the renamed header field has the same length, turns every comma into a period, keeps every other character, and so holds no comma |
| Text.JoinSplit | clean.js:98 | joining the pieces of `split` with its separator gives the text back |
| Text.SplitPiecesFree | clean.js:207 | no piece of `split` holds the separator; with `JoinSplit` this fixes the pieces for a separator that cannot overlap itself, such as "; ": they are the text cut at each occurrence of it |
| Text.ParseIntToString | clean.js:98 | `parseInt` reads a rendered integer back as that integer, whatever non-digit text follows it (other than an `x` or `X` after a lone `0`, which JavaScript reads as a hexadecimal prefix) |
| Text.ReplaceCommasIdempotent | clean.js:237-240 | a name without commas is unchanged, and renaming twice is renaming once |
| Registry.Put | clean.js:212 | assignment to an existing name replaces its converter in place; a new name is appended; no other entry changes |
| Registry.PutAllNames | clean.js:91-213 | after a run of assignments the key order is the first-seen order of the assigned names |
| Registry.PutAllKeeps | clean.js:211-213 | an assignment that no later assignment overwrites survives in the registry |
| Registry.PiecesMembership | clean.js:206-210 | a text is a scanned piece of a factor exactly when it is a piece of some record's cell split on "; " |
| Registry.Tokens | clean.js:204-210 | token discovery fails exactly when some record lacks the factor column, and then with that column's missing-field error |
| Registry.TokensSpec | clean.js:204-211 | the discovered tokens hold no repeats; a text is a token exactly when some record's cell splits into it; tokens come in the order they are first met |
| Registry.RecordPieces | clean.js:207-209 | the inner loop over one cell's pieces extends the first-seen list of pieces by exactly those pieces |
| Registry.DiscoverTokens | clean.js:204-211 | the nested scan loops compute exactly the discovered tokens, or the missing-field failure |
| Registry.IndicatorNameInjective | clean.js:212 | given underscore-free factor names, `factor + "_" + token` determines both the factor and the token |
| Registry.Expand | clean.js:163-214 | the indicator phase succeeds exactly when every record has every factor column, and otherwise fails with the missing-field error of a column some record lacks |
| Registry.ExpandMembership | clean.js:203-214 | an entry produced by the indicator phase is the indicator of a listed factor and one of its discovered tokens, and every such indicator is produced |
| Registry.StaticEntries | clean.js:91-161 | the single-column converters carry exactly the declared year, number, flag and agreement names, in that order; each name is bound to a converter of its own kind that reads its own column, and none is an indicator |
| Registry.BuildFailsOnMissingFactor | clean.js:206-207 | construction succeeds exactly when every record has every factor column, and otherwise fails with a missing-field error of a factor |
| Registry.BuildOrder | clean.js:91-216 | the columns are the single-column names in declared order, then each factor's indicators in discovery order, with a repeated name keeping its first position |
| Registry.BuildNamesDistinct | clean.js:91-216 | every column name occurs once |
| Registry.BuildSpec | clean.js:7-217 | construction fails exactly when some record lacks a factor column; otherwise the columns are distinct and in first-assignment order, and every one holds a single-column converter of the schema or the indicator of a listed factor and one of its discovered tokens |
| Registry.IndicatorColumns | clean.js:204-213 | the indicator for a token of a listed factor is registered exactly when some record's cell in that column splits into that token |
| Registry.EmptyCellToken | clean.js:207-212 | an empty cell yields the empty token, so its factor gets the column `factor_` |
| Registry.EveryRecordSetsAnIndicator | clean.js:206-212 | every record has, for every factor, a registered indicator that answers "1" for it |
| Registry.SwitchesNeverRegistered | clean.js:10-89 | no registry column carries a switch's name, because `addSwitch` never stores its closure |
| Seqs.DedupFirstSeen | clean.js:211 | keys enumerate in the order in which they were first assigned |
| Emit.Check | clean.js:251-253 | the writer rejects exactly `undefined` and NaN, with the error that names the converter and the record |
| Emit.ShowInteger | clean.js:253 | an integer below 10^21 in magnitude is written as its decimal digits, and `parseInt` reads that text back as the same integer |
| Emit.CellOutcomes | clean.js:250-253 | what each kind of converter (clean.js:96-161) makes the writer write: a flag or indicator cell writes "1" or "0"; an agreement literal writes its score in decimal ("Strongly agree" writes "2") and any other agreement cell stops with the `undefined` error; a free number writes its parsed value, "NA" writes "0", and an unparsable or missing number stops with the NaN error; a year count writes its value in decimal ("5 years" writes "5"), a missing year column throws `MissingField` and an unparsable one `Unexpected number` |
| Emit.CellIsPlain | clean.js:253 | a written cell holds neither a comma nor a line break when the floating-point renderer writes neither |
| Emit.RowCells | clean.js:245-254 | a row converts exactly when each of its cells does, and then has one cell per converter, in registry order |
| Emit.RowCellsFailure | clean.js:250-252 | a row that fails reports the error of its first failing cell |
| Emit.Table | clean.js:244-256 | the table converts exactly when every record's row does, and then has one row per record, in input order |
| Emit.TableFailsAt | clean.js:251-252 | one failing record makes the whole output fail |
| Emit.BodyLineCount | clean.js:255 | the body holds one line break per row |
| Emit.TableLines | clean.js:244-256 | a converted table writes exactly one line per record, in input order, each holding its record's cells |
| Emit.RowShape | clean.js:245-255 | a written row holds one comma fewer than there are converters, and splitting it on commas gives back its cells |
| Emit.HeaderNames | clean.js:234-241 | one header field per converter, in registry order, each the converter's name with commas replaced |
| Emit.HeaderShape | clean.js:233-243 | the header ends in a line break, holds one comma fewer than there are converters, and splitting it on commas gives back the renamed names |
| Emit.WriteHeader | clean.js:233-243 | the header loop writes the renamed names separated by single commas |
| Emit.WriteRow | clean.js:245-255 | the cell loop writes the comma-joined cells of the row, or stops at the first failing cell having written exactly the cells before it and the comma in front of it |
| Emit.WriteRows | clean.js:244-260 | the record loop writes one line per record, or stops inside the first failing row with that row's first failing cell's error and nothing after it |
| Emit.Emit | clean.js:233-261 | the output is the header and then every row when the table converts; otherwise the header, the lines of the converting records before the first failing one, and that record's partial line |
| Emit.Clean | clean.js:227-261 | a failure while building the converters writes nothing and reports that failure; otherwise the output is the header and every row when the table converts, and else the header, the lines before the first failing record and that record's partial line, with the error of its first failing cell |

## Left out

- File and CSV input and output (clean.js:1-3, 219-229): the records are a
  sequence of maps, and the output is the text the writer would have
  written.
- Progress logging and `console.warn` (clean.js:205, 224, 238, 258): these
  are side effects only.
- The async wrapper, `.catch(console.error)` and `wait` (clean.js:232, 262,
  265-269): an abort is the `failure` out-parameter.
- Floating-point `parseFloat` and the rendering of numbers that are not
  integers below 10^21 in magnitude: both are fields of the `Numerics`
  parameter, and nothing is assumed about them except where a lemma
  requires it (`PlainRenderer`).
- `Infinity` is not a distinct value. A renderer may return any text for it.
- Converters.YearsOfDigits is stated for a cell that starts with a digit.
  A cell with a leading sign is covered only in the form `YearsOfCount`
  states, the decimal text of an integer.
- Converters.YearsOf reads only an optional sign and a decimal digit
  prefix. Leading whitespace, `0x` radix detection and the loss of precision
  above 2^53 are not modelled.
- Registry.TokensSpec and `Registry.BuildOrder` state plain first-seen
  order. JavaScript objects enumerate integer-like keys first, in numeric
  order. So a token such as `"2"`, or a column name made only of digits,
  would be listed earlier by the script than here.
- Converters.ApplySwitch looks keys up in a plain map. JavaScript's
  prototype keys (`"constructor"`, `"toString"`, ...) would be found on every
  switch table object, and this is not modelled. Nor is the `"__proto__"`
  token, which does not become an own key of `uniq`.
- Emit.Check carries the record itself in its errors. The text
  `JSON.stringify` would make of the record is not modelled.
- The switch closures are modelled (`ApplySwitch`) but are never applied by
  the writer. The script never stores them either.

## Quirks the model keeps

- **Switches.** Switch columns are never written: every `addSwitch` result
  is discarded (clean.js:17-89). See `Registry.SwitchesNeverRegistered`.
- **Unknown-option error.** The unknown-option message interpolates `def`,
  which is `undefined` on that path (clean.js:14), so it does not show the
  raw value. See `Converters.SwitchErrorIgnoresValue`.
- **Unparsable numbers.**
  - An unparsable year count throws a message holding only the raw value
    (clean.js:99). See `Converters.YearsOf`.
  - An unparsable free number is not rejected by its converter
    (clean.js:110). It becomes NaN and is rejected by the writer
    (clean.js:252). See `Emit.CellOutcomes`.
