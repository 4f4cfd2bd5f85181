# Test-support logic of challenge-automation-feq, in Dafny

This project models the deterministic text and record logic of a Playwright test
suite. That logic sits inside page objects and utilities, and it has five parts:

- **Designer caption.** `getArtworkDesigner` matches the infobox caption against
  `/artwork by\s+(.+?)(?:\[|$)/i`. Without a caption or a match it answers
  `Designer not found`. With a match it cleans group 1 with `cleanDesignerText`,
  which makes four global replacements in a fixed order and then trims.
- **Image URL.** `downloadMainImage` makes the image's `src` absolute.
- **Spreadsheet rows.** `readExcelData` drops the header row, keeps the rows whose
  first two cells are truthy, and maps each kept row to `{ id, name }`.
- **Environment.** `getEnvironmentConfig`, `getSecretKey` and `getEnvironmentName`
  choose a secret by the `TEST_ENV` variable.
- **Files and log lines.** `validateImageExtension` applies an extension
  allow-list over Node's POSIX `path.extname`. `validateFileSize` and `getFileSize`
  check sizes. The `Logger` class formats `YYYY-MM-DD HH:mm:ss` timestamps and
  builds the lines it writes.

## How the model is organised

Each module corresponds to one source file or to one concept those files share:

- `Wrappers`: `Option` and `Result`. A `Failure` carries the message of the `Error`
  the source throws.
- `Text`: the pieces of JavaScript string semantics the code relies on:
  - ECMAScript white space and line terminators;
  - `trim`;
  - ASCII case mapping;
  - decimal printing and reading of integers.
- `JsValues`: spreadsheet cells as JavaScript values, with truthiness, `Number(v)`
  and `String(v)`.
- `TestData`: the `PokemonData` and `TestConfig` records.
- `ArtworkCaption`: the caption pattern, in two forms:
  - a declarative description: `Matches` is the set of matches, and `Preferred` is
    the match a backtracking engine reports;
  - a matcher that tries the alternatives in the engine's order (`MatchCaption`),
    proved sound, complete and preferred.
- `DesignerText`: the four patterns of `cleanDesignerText`, also in two forms:
  - the strings each pattern matches (`Matched`);
  - where the match at a position ends (`RuleEnd`).

  A global replace is a left-to-right scan, proved equal to ECMAScript's "find the
  leftmost match, replace it, continue after it".
- `WikipediaPage`: `getArtworkDesigner` and the URL absolutisation.
- `WikipediaExamples`: worked captions.
- `ExcelReader`: the row pipeline of `readExcelData`.
- `Environment`: the configuration resolver, over a map from variable names to values.
- `FileValidator`: `path.extname`, the extension check and the size checks.
- `Logging`: the timestamp, the three line shapes, and the `Logger` class:
  - its constructor sets `testName` and `startTime`;
  - its methods return the line they would write, and modify nothing;
  - `CreateLogger` returns a fresh logger.

Whatever comes from outside the program is a parameter:

- the caption lookup and the `src` attribute;
- the rows the workbook yields, or the error reading it raised;
- the process environment after `.env` has been loaded;
- the size `fs.statSync` reports, or its error;
- the local-time components `Date` reports.

## Model

| member | source | states |
|---|---|---|
| ArtworkCaption.MatchCaption | pages/wikipedia.page.ts:54 | `captionText.match(...)` without the `g` flag: the first match the engine reports, or none. What it finds is characterised in MatchCaptionCorrect |
| ArtworkCaption.MatchCaptionCorrect | pages/wikipedia.page.ts:54 | The matcher finds a match exactly when the pattern matches somewhere in the caption, and what it finds is the match ECMAScript reports: leftmost start, longest `\s+`, shortest lazy group ending at `[` or the end |
| ArtworkCaption.FirstMatchSpec | pages/wikipedia.page.ts:54 | Scanning starts from a position on reports the preferred match among those starting there or later, or none when there is none |
| ArtworkCaption.MatchAtSpec | pages/wikipedia.page.ts:54 | The match anchored at a position is found exactly when one exists there, with the longest white-space run and then the shortest group |
| ArtworkCaption.BacktrackSpec | pages/wikipedia.page.ts:54 | Backtracking into `\s+` tries the group starts from the longest run down, and takes the first start that admits a group, with that group's shortest end |
| ArtworkCaption.LazyEndSpec | pages/wikipedia.page.ts:54 | The lazy group stops at the first `[` or the end of input, and fails at a line terminator, because `.` does not match one |
| ArtworkCaption.SpaceRunEndSpec | pages/wikipedia.page.ts:54 | The greedy `\s+` takes the whole white-space run |
| ArtworkCaption.SpacesBefore | pages/wikipedia.page.ts:54 | A group can start after `artwork by` exactly where only white space precedes it, within the maximal run |
| ArtworkCaption.CaptureNonEmpty | pages/wikipedia.page.ts:55 | Group 1 of a match is never empty and holds no line terminator, so the test `artworkByMatch[1]` never rejects a match |
| WikipediaPage.ArtworkDesigner | pages/wikipedia.page.ts:48-63 | `getArtworkDesigner`: the error wrapping, the sentinel, and the cleaned group of the match. Its properties are stated in ArtworkDesignerSpec and DesignerIsNormalized |
| WikipediaPage.ArtworkDesignerSpec | pages/wikipedia.page.ts:48-63 | The designer is the cleaned group of the preferred match. Without a caption or a match, the result is the sentinel `Designer not found`, not an error. Only a browser error fails, and its message is `Failed to get artwork designer: ` followed by the error. Whenever the pattern matches, a preferred match exists, so the designer is always defined |
| WikipediaPage.PreferredUnique | pages/wikipedia.page.ts:54 | The match the engine reports is unique |
| WikipediaPage.DesignerIsNormalized | pages/wikipedia.page.ts:54-56 | A designer read from a caption is the sentinel, or a trimmed, single-spaced text no longer than the caption |
| WikipediaPage.AbsoluteImageUrl | pages/wikipedia.page.ts:107-117 | The URL absolutisation of `downloadMainImage`, with its error wrapping. Its properties are stated in AbsoluteImageUrlSpec and AbsoluteImageUrlIdempotent |
| WikipediaPage.AbsoluteImageUrlSpec | pages/wikipedia.page.ts:107-117 | A missing or empty `src` is an error, `Failed to download main image: Error: Could not find image source`, and any other `src` resolves. A `//` src gets `https:`, and that test wins over the `/` test. Any other `/` src gets `https://en.wikipedia.org`, and everything else is kept |
| WikipediaPage.AbsoluteImageUrlIdempotent | pages/wikipedia.page.ts:112-117 | The resolved URL ends with the `src` and never starts with `/`, so resolving it again leaves it unchanged |
| DesignerText.CleanDesignerText | pages/wikipedia.page.ts:70-86 | `cleanDesignerText`: `""` for empty text, otherwise the three removals and then the collapse and trim. Its properties are stated in CleanIsNormalized, CleanShrinks and CleanFixesNormalized |
| DesignerText.StripNoise | pages/wikipedia.page.ts:73-80 | The three removals, in the source's order. StripNoiseKeepsClean and the worked examples state what they do |
| DesignerText.CollapseSpaces | pages/wikipedia.page.ts:83 | `replace(/\s+/g, ' ').trim()`. CollapseSingleSpaced and CollapseKeepsNormalized state what it does |
| DesignerText.ReplaceAll | pages/wikipedia.page.ts:74-83 | `replace` with a global pattern, as a left-to-right scan. ReplaceFromLeftmost ties it to ECMAScript's replace algorithm |
| DesignerText.RuleEnd | pages/wikipedia.page.ts:74-83 | Where the match of each of the four patterns at a position ends. RuleEndCorrect ties it to the strings each pattern matches |
| DesignerText.RuleEndCorrect | pages/wikipedia.page.ts:74-83 | For each of the four patterns, the computed match end at a position is found exactly when the pattern matches that span; `\s+` takes the maximal run |
| DesignerText.CssMatchFound | pages/wikipedia.page.ts:74 | A `.mw-` rule fragment (letters, then white space, then characters other than `}`, then `}`) is found where it occurs |
| DesignerText.CssFoundMatch | pages/wikipedia.page.ts:74 | What is found for a `.mw-` rule fragment is one |
| DesignerText.RunEndSpec | pages/wikipedia.page.ts:74-83 | A repeated character class takes the maximal run of its characters |
| DesignerText.RunEndAt | pages/wikipedia.page.ts:74-83 | A run that stops where its class stops is the maximal run |
| DesignerText.ReplaceFromLeftmost | pages/wikipedia.page.ts:74-83 | The global replace copies the text before the leftmost match, replaces the match, and resumes right after it |
| DesignerText.ReplaceFromKeeps | pages/wikipedia.page.ts:74-83 | Where no pattern match starts, the scan keeps the character |
| DesignerText.ReplaceFromReplaces | pages/wikipedia.page.ts:74-83 | Where a match starts, the scan replaces it and resumes after it |
| DesignerText.ReplaceFromNoMatch | pages/wikipedia.page.ts:74-80 | Text where the pattern never matches passes unchanged |
| DesignerText.ReplaceFromShrinks | pages/wikipedia.page.ts:74-83 | A replacement of at most one character never lengthens the text |
| DesignerText.CollapseSingleSpaced | pages/wikipedia.page.ts:83 | After `\s+` is replaced by `' '`, every white-space character is a plain space and no two are adjacent |
| DesignerText.CleanIsNormalized | pages/wikipedia.page.ts:70-86 | The cleaned text has no leading or trailing white space, no white space other than `' '`, and no two adjacent white-space characters |
| DesignerText.CleanShrinks | pages/wikipedia.page.ts:70-86 | The cleaned text is never longer than the input, and the empty text gives the empty text |
| DesignerText.StripNoiseKeepsClean | pages/wikipedia.page.ts:74-80 | Text without `.mw-`, `{` or `[` passes the first three replacements unchanged |
| DesignerText.CollapseKeepsNormalized | pages/wikipedia.page.ts:83 | Trimmed, single-spaced text passes the last step unchanged |
| DesignerText.CollapseKeepsSingleSpaces | pages/wikipedia.page.ts:83 | On single-spaced text, each match of `\s+` is one `' '` replaced by `' '` |
| DesignerText.CleanFixesNormalized | pages/wikipedia.page.ts:70-86 | Text without noise that is already trimmed and single-spaced comes back unchanged |
| DesignerText.SingleSpacedSlice | pages/wikipedia.page.ts:83 | Trimming keeps the single spacing |
| DesignerText.SingleSpacedCons | pages/wikipedia.page.ts:83 | A non-space, or a single space before a non-space, keeps a text single-spaced |
| WikipediaExamples.CleanKenSugimori | pages/wikipedia.page.ts:80 | `Ken Sugimori[1]` is cleaned to `Ken Sugimori` |
| WikipediaExamples.LeadingStyleRuleRemoved | pages/wikipedia.page.ts:74 | A `.mw-` rule at the start (letters or hyphens, one space, characters other than `}`, then `}`) is removed, and text without `.` after it is kept |
| WikipediaExamples.StripStyleRule | pages/wikipedia.page.ts:74 | The `.mw-` pass removes `.mw-parser-output .x{color:red}` before `Ken Sugimori` |
| WikipediaExamples.CleanStyledName | pages/wikipedia.page.ts:70-86 | `.mw-parser-output .x{color:red}Ken Sugimori` is cleaned to `Ken Sugimori` |
| WikipediaExamples.StripKenSugimori | pages/wikipedia.page.ts:80 | Of `Ken Sugimori[1]` the reference-marker pass removes `[1]` |
| WikipediaExamples.PikachuDesigner | pages/wikipedia.page.ts:54-56 | The caption `Pikachu artwork by Ken Sugimori[1]` gives the designer `Ken Sugimori` |
| WikipediaExamples.MatchPikachuCaption | pages/wikipedia.page.ts:54 | That caption matches at position 8, with the group running up to the `[` |
| WikipediaExamples.KenSugimoriIsClean | pages/wikipedia.page.ts:70-86 | `Ken Sugimori` comes back from cleaning unchanged |
| WikipediaExamples.MatchAtEight | pages/wikipedia.page.ts:54 | At position 8 the pattern takes one space and the group `Ken Sugimori` |
| WikipediaExamples.FirstMatchSkips | pages/wikipedia.page.ts:54 | The search passes over positions where `artwork by` does not occur |
| WikipediaExamples.NoPhraseAt | pages/wikipedia.page.ts:54 | `artwork by` cannot occur at a character other than `a`, or at an `a` not followed by `r`, in any case |
| WikipediaExamples.ReplacementOrder | pages/wikipedia.page.ts:77-80 | The passes run in order: removing `{x}` from `[{x}1]` leaves `[1]`, which the next pass removes |
| WikipediaExamples.SinglePass | pages/wikipedia.page.ts:80 | Each pass is a single scan: `[[1]2]` becomes `[2]`, which is not scanned again |
| WikipediaExamples.AbsentLead | pages/wikipedia.page.ts:74-80 | Text without the character a pattern must start with passes that pattern's replacement unchanged |
| ExcelReader.Records | utils/excel-reader.ts:24-29 | The `slice(1).filter(...).map(...)` chain. Its properties are stated in RecordsOfRows, RecordsLength and RecordsAppendRow |
| ExcelReader.KeepRow | utils/excel-reader.ts:25 | The filter predicate: at least two cells, and the first two truthy |
| ExcelReader.ToRecord | utils/excel-reader.ts:26-29 | The map: `{ id: Number(row[0]), name: String(row[1]).trim() }` |
| JsValues.Truthy | utils/excel-reader.ts:25 | JavaScript truthiness of a cell: `undefined`, `null`, `0`, `""` and `false` are falsy |
| JsValues.ToNumber | utils/excel-reader.ts:27 | `Number(v)` of a cell. NumberOfPrintedInteger and BlankIdKept state what it gives |
| JsValues.ToString | utils/excel-reader.ts:28 | `String(v)` of a cell |
| ExcelReader.ReadExcelData | utils/excel-reader.ts:14-33 | A read failure is rethrown with the `Failed to read Excel file: ` prefix, and otherwise the records come from the rows |
| ExcelReader.KeepRows | utils/excel-reader.ts:25 | The filter keeps only rows with two truthy leading cells, each of them from the input, and never more rows than it is given |
| ExcelReader.ToRecords | utils/excel-reader.ts:26-29 | The map gives one record per row, in order, each `{ Number(row[0]), String(row[1]).trim() }` |
| ExcelReader.RecordsOfRows | utils/excel-reader.ts:24-29 | The first row is discarded whatever it holds. Every record comes from a kept row, and every kept row gives a record |
| ExcelReader.RecordsLength | utils/excel-reader.ts:24-25 | There are at most `max(0, rows - 1)` records |
| ExcelReader.RecordsAppendRow | utils/excel-reader.ts:24-29 | Appending a row appends its record when it passes the filter, and the order is kept |
| ExcelReader.ProcessAppend | utils/excel-reader.ts:25-29 | The filter and map work row by row: the records of two blocks are those of the first followed by those of the second |
| ExcelReader.KeepRowsAppend | utils/excel-reader.ts:25 | The filter works row by row |
| ExcelReader.ToRecordsAppend | utils/excel-reader.ts:26-29 | The map works row by row |
| ExcelReader.ProcessSingle | utils/excel-reader.ts:25-29 | One row gives its record if it passes the filter, and nothing otherwise |
| ExcelReader.RecordsFromKeptRows | utils/excel-reader.ts:25-29 | Each record is the record of a kept row |
| ExcelReader.KeptRowsGiveRecords | utils/excel-reader.ts:25-29 | Each kept row gives a record |
| ExcelReader.FalsyCellDropsRow | utils/excel-reader.ts:25 | A missing cell, or a falsy id or name (`0`, `''`, `null`, `undefined`), drops the row |
| ExcelReader.BlankNameKept | utils/excel-reader.ts:25-28 | The filter looks at the cell before trimming, so a name of white space only is kept and becomes `""` |
| ExcelReader.BlankIdKept | utils/excel-reader.ts:25-27 | An id cell of white space only is truthy, so the row is kept, and `Number` reads it as id 0; a number cell 0 drops the row |
| ExcelReader.NamedRow | utils/excel-reader.ts:26-29 | A non-zero id and a name without white space at its ends give exactly that id and name |
| ExcelReader.ExtraCellsIgnored | utils/excel-reader.ts:25-29 | Cells after the second change neither the filter nor the record |
| ExcelReader.ThreeRowSheet | utils/excel-reader.ts:24-29 | A header and three rows, the middle one without an id, give two records in order |
| JsValues.NumberOfText | utils/excel-reader.ts:27 | Text that is not a decimal integer stays uninterpreted, and it is the trimmed, non-empty text |
| JsValues.NumberOfPrintedInteger | utils/excel-reader.ts:27-28 | A number cell and a text cell holding its decimal text give the same id |
| Environment.EnvName | config/environment.ts:12 | `(TEST_ENV ?? 'qa').toLowerCase()`. EnvNameDefault states what it gives |
| Environment.SecretVariable | config/environment.ts:17-21 | The variable read: `SECRET_KEY_QA` for `qa`, `SECRET_KEY_CERT` otherwise. QaOnlyForQa states when each is read |
| Environment.MissingSecretMessage | config/environment.ts:25 | The error message, named after the upper-cased environment name. MessageNamesReadVariable and UnknownEnvironmentUsesCert relate it to the variable read |
| Environment.GetEnvironmentConfig | config/environment.ts:11-32 | On success, the environment is the lower-cased name and the secret is not empty. On failure, the message names `SECRET_KEY_` plus the upper-cased name |
| Environment.ConfigResolved | config/environment.ts:17-31 | The configuration resolves exactly when the selected secret is set and not empty, and then it holds the name and the secret verbatim, untrimmed |
| Environment.EnvNameDefault | config/environment.ts:12 | An unset `TEST_ENV` gives `qa`, and any value is lower-cased and not validated |
| Environment.QaOnlyForQa | config/environment.ts:17-21 | Only `qa`, in any mix of cases, or an unset variable reads the QA secret; every other value reads the CERT secret |
| Environment.LowerIsQa | config/environment.ts:12-17 | A value lower-cases to `qa` exactly when it is `qa` in some mix of cases |
| Environment.OtherSecretIrrelevant | config/environment.ts:17-26 | The secret of the environment not selected does not matter, set or not |
| Environment.MessageNamesReadVariable | config/environment.ts:24-26 | For `qa` and `cert`, the error names the variable that was read |
| Environment.UnknownEnvironmentUsesCert | config/environment.ts:12-26 | `Prod` is not rejected: it reads the CERT secret, and without it the error names `SECRET_KEY_PROD` |
| Environment.GetSecretKey | config/environment.ts:38-40 | It is the secret of the configuration, and fails exactly when the configuration fails, with the same message |
| Environment.GetEnvironmentName | config/environment.ts:46-48 | It is the lower-cased name, and fails exactly when the configuration fails, with the same message |
| FileValidator.ValidateImageExtension | utils/file-validator.ts:9-13 | `validateImageExtension`: the lower-cased extension is on the list. ImageExtensionSuffix characterises it |
| FileValidator.Extname | utils/file-validator.ts:11 | POSIX `path.extname`: the extension of the base name. BaseExtension states its shape |
| FileValidator.ImageExtensionSuffix | utils/file-validator.ts:9-13 | A file name passes exactly when its base name is longer than, and ends in, one of `.jpg`, `.jpeg`, `.png`, `.svg` in any ASCII case |
| FileValidator.BaseExtensionAllowed | utils/file-validator.ts:11-12 | The lower-cased extension is allowed exactly when the base name properly ends in an allowed extension, ignoring case |
| FileValidator.AllowedExtensionIsSuffix | utils/file-validator.ts:11-12 | An allowed extension found is a proper suffix of the base name, up to case |
| FileValidator.SuffixIsExtension | utils/file-validator.ts:11-12 | A proper suffix that is an allowed extension, up to case, is the extension `extname` finds |
| FileValidator.BaseExtension | utils/file-validator.ts:11 | The extension is empty or a `.`-led proper suffix of the base name with no other `.` |
| FileValidator.LastDot | utils/file-validator.ts:11 | The last `.` is found, or there is none |
| FileValidator.LastDotAt | utils/file-validator.ts:11 | A `.` followed by no other `.` is the last one |
| FileValidator.LastDotOfSuffix | utils/file-validator.ts:11 | In a name ending in an extension, the last `.` is where the extension starts |
| FileValidator.ValidExtensionShape | utils/file-validator.ts:10 | Each allowed extension is a `.` followed by at least one other character that is not a `.` |
| FileValidator.OnlyLastSegmentCounts | utils/file-validator.ts:11 | Only the last path segment counts |
| FileValidator.LastSegmentOfSegment | utils/file-validator.ts:11 | A path without `/` is its own last segment |
| FileValidator.LastSegmentAfterSlash | utils/file-validator.ts:11 | What follows the last `/` is the last segment |
| FileValidator.BaseNameOfSegment | utils/file-validator.ts:11 | A non-empty segment is its own base name |
| FileValidator.BaseNameAfterSlash | utils/file-validator.ts:11 | The base name is the non-empty part after the last `/` |
| FileValidator.BaseNameTrailingSlash | utils/file-validator.ts:11 | A trailing `/` does not change the base name |
| FileValidator.LastExtensionCounts | utils/file-validator.ts:11 | `a.bmp.png` passes |
| FileValidator.EarlierExtensionIgnored | utils/file-validator.ts:11 | `a.png.bmp` fails |
| FileValidator.ExtensionCaseIgnored | utils/file-validator.ts:11 | `Foo.PNG` passes |
| FileValidator.UnlistedExtensionRejected | utils/file-validator.ts:10-12 | `foo.bmp` fails |
| FileValidator.DirectoryExtensionIgnored | utils/file-validator.ts:11 | `dir.png/file` fails |
| FileValidator.DotFileRejected | utils/file-validator.ts:11 | `.png` has no extension and fails |
| FileValidator.TrailingDotRejected | utils/file-validator.ts:11 | `a.` has the extension `.` and fails |
| FileValidator.TrailingSlashIgnored | utils/file-validator.ts:11 | `img.png/` passes |
| FileValidator.ValidateFileSize | utils/file-validator.ts:21-28 | A stat failure is rethrown with the `Failed to validate file size: ` prefix, and is the only failure |
| FileValidator.GetFileSize | utils/file-validator.ts:35-42 | The size, or the stat failure rethrown with the `Failed to get file size: ` prefix |
| FileValidator.SizeChecksAgree | utils/file-validator.ts:21-42 | Both checks fail together. The size check is strict, so a file of exactly the limit fails, and raising the limit never turns a pass into a failure |
| Logging.FormatDateTime | utils/logger.ts:44-53 | `formatDateTime`. TimestampLayout and TimestampRoundTrip state its layout and that it can be read back |
| Logging.Pad2 | utils/logger.ts:46-50 | `padStart(2, '0')` gives at least two digits |
| Logging.Pad2Spec | utils/logger.ts:46-50 | Values below 10 get a leading `0`, values from 10 on are printed unchanged, and the two digits read back as the value |
| Logging.FourDigitYear | utils/logger.ts:45 | The year is not padded; a year from 1000 to 9999 prints as four digits |
| Logging.TimestampLayout | utils/logger.ts:44-53 | With a four-digit year the timestamp is 19 characters long. Its separators are `-`, `-`, ` `, `:`, `:`, and the month is printed one-based |
| Logging.Layout | utils/logger.ts:52 | The position of each field and separator of the timestamp |
| Logging.TimestampRoundTrip | utils/logger.ts:44-53 | The date components read back from the timestamp |
| Logging.LogLineRoundTrip | utils/logger.ts:26-29 | The timestamp and the message read back from a line `log` writes |
| Logging.EndLineRoundTrip | utils/logger.ts:16-20 | The timestamp reads back from a line `end` writes |
| Logging.Bracketed | utils/logger.ts:28 | Where the timestamp and the message lie in a `log` line |
| Logging.LineShapes | utils/logger.ts:16-37 | Each line starts with its own fixed text, and the message and the key appear verbatim at the end |
| Logging.Logger.constructor | utils/logger.ts:8-11 | The constructor sets the name and the start time |
| Logging.Logger.End | utils/logger.ts:16-20 | `end()` writes `Test finished at: ` and the timestamp |
| Logging.Logger.Log | utils/logger.ts:26-29 | `log(m)` writes the bracketed timestamp, a space and the message |
| Logging.Logger.LogEncryptedKey | utils/logger.ts:35-37 | `logEncryptedKey(k)` writes `Encrypted Secret Key: ` and the key |
| Logging.CreateLogger | utils/logger.ts:61-63 | A fresh logger whose name is the given one, or `""` when none is given |
| Text.TrimIsSlice | utils/excel-reader.ts:28 | `trim` removes white space, and only white space, from both ends |
| Text.TrimStartSpec | utils/excel-reader.ts:28 | The leading white space is removed |
| Text.TrimEndSpec | utils/excel-reader.ts:28 | The trailing white space is removed |
| Text.TrimOfTrimmed | pages/wikipedia.page.ts:83 | A text without white space at its ends is its own trim |
| Text.IntegerRoundTrip | utils/excel-reader.ts:27 | Every integer reads back from its decimal text |
| Text.DigitsValueOfDecimal | utils/logger.ts:45-50 | The printed digits of a number read back as the number |
| Text.DecimalOfDigitsValue | utils/logger.ts:45-50 | A digit string without leading zeros is the printing of its value |
| Text.DecimalDigits | utils/logger.ts:45-50 | The digits of a number are at least one, with no leading zero, and are one exactly below 10 |
| Text.Lower | config/environment.ts:12 | ASCII `toLowerCase`: each character is mapped on its own, so the length is kept |
| Text.Upper | config/environment.ts:25 | ASCII `toUpperCase`: each character is mapped on its own, so the length is kept |

## Left out

- Browser, network and file-system I/O: locators, `innerText`, `page.request.get`, `fs.writeFileSync`, `fs.statSync`, `XLSX.readFile`, `dotenv.config()` and `console.log`. Their results are parameters, or the methods return the line instead of writing it.
- `ensureDirectoryExists` (utils/file-validator.ts:48-52) is a thin file-system wrapper with no logic of its own.
- `getTestDataPath` (utils/excel-reader.ts:39-41) joins the working directory with a fixed name. It is left out with the working directory.
- `Lower`, `Upper`, `LowerChar`, `UpperChar`: map ASCII letters only. `toLowerCase` and `toUpperCase` also map other letters. For the regular expressions' `i` flag this is exact, because every pattern letter is ASCII.
- `JsValues.NumberOfText`: evaluates only optionally signed decimal integers. Other numeric text (fractions, exponents, hexadecimal, `Infinity`) and text that gives NaN become `NumericText(t)`, which is not evaluated. The same holds for numbers in cells, which are integers here: floating point is not modelled.
- `FileValidator.BaseName`: POSIX paths only; the Windows form of `path.extname` is not modelled.
- `Logging.TimestampRoundTrip`, `Logging.LogLineRoundTrip` and `Logging.TimestampLayout`: stated for years from 1000 to 9999. Outside that range the year is printed without padding (or with a `-`), so the layout is not fixed.
- `new Date()`: the clock is a parameter (the local-time components it reports); time zones are not modelled.
- The SHA-256 helper in utils/crypto-helper.ts is not part of this model, and neither are the test fixtures, the base page, the specs and the runner configuration.
- `Logging.Logger`: the fields are private in the source, so nothing outside the class reads them. Here they are readable, so that the constructor's effect can be stated.
