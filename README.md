# Product image classifier: text handling

This project models the text logic of `app.py`, the single-file Streamlit app
that sends an uploaded product photo to a hosted vision model. The app asks the
model three questions and turns each free-text reply into a value it can use:

- **Classification** (`classify_image`). The photo counts as fruit or vegetables
  exactly when the trimmed, lower-cased reply is `yes`.
- **Freshness** (`predict_freshness`). The index is the first whole number in the
  stripped reply (`\b\d+\b`, then `int`). If there is none, the result is absent.
- **Product details** (`generate_product_details` and `parse_response_to_dataframe`).
  The stripped reply is split into lines and each line into `", "`-separated parts.
  Each part is routed to one of seven columns by the first label it contains, and it
  stores `part.split(": ")[1]`. Every line yields one seven-field record; fields that
  no part fills stay `"NA"`.
- **`combined_pipeline`**. This branch logic picks between the freshness path and
  the product-table path.

Modules:

- `Wrappers` has `Option` and `Result`.
- `Text` models the Python string operations the app relies on: `in`, `str.split`,
  `str.strip` and `str.lower`. Each has its own characterisation:
  - `Split` is proved to be the inverse of `Join`.
  - `Strip` is pinned down by `StrippedOf` and its uniqueness.
- `ProductParser` holds the parser.
  - `ParseResponse` is the loop-based method as the source writes it: an outer loop
    that appends records and an inner loop that fills a record.
  - It is proved equal to the functional specification `Parse`.
  - All the lemmas are stated about `Parse`.
- `Classification`, `Freshness` and `Pipeline` hold the remaining pieces.

Model decisions:

- The dictionary `product_details` is a `Record` value that the inner loop reassigns.
- The pandas table is a `seq<Record>` whose fields are in column order.
- Python's `IndexError` from `split(": ")[1]` is the `Failure(IndexError)` result.
  In the app it ends the run with an exception.

Behaviour of the code worth knowing, each with the lemma that states it:

- Every line of the reply yields a record, blank ones included (`OneRecordPerLine`,
  `BlankLineBetween`).
- The stored value is only the piece between the first and the second `": "` of a
  part, not everything after the first (`ValueBetweenSeparators`).
- The freshness number needs a word boundary on both sides, so digits inside a word
  such as `B12` are skipped (`DigitsInWordSkipped`).
- A part that contains a label but no `": "` raises `IndexError` (`ParseFailsIff`).

## Model

| member | source | states |
|---|---|---|
| Text.IndexOf | app.py:127-140 | `label in part`: the result is the leftmost position where the label occurs in the part, or none when it occurs nowhere |
| Text.Split | app.py:119 | `str.split(sep)`: at least one piece; the pieces joined with the separator give back the text; no piece contains the separator |
| Text.SplitJoin | app.py:124 | splitting text joined from separator-free pieces gives back exactly those pieces (for a separator such as `", "` that cannot overlap itself) |
| Text.SplitSingleton | app.py:128 | a split yields a single piece exactly when the separator does not occur, the case where `[1]` raises |
| Text.SplitCharCount | app.py:119 | splitting on a one-character separator gives one piece more than the number of times that character occurs |
| Text.Strip | app.py:81 | `str.strip()`: the result occurs in the text with only whitespace before and after it, and neither starts nor ends with whitespace |
| Text.StrippedUnique | app.py:81 | only one string is the text with its surrounding whitespace removed |
| Text.Lower | app.py:81 | `str.lower()`: same length, each letter lower-cased in place |
| ProductParser.Rank | app.py:118 | each column has one position in the fixed column order Product Name, Category, Brand, MRP, Manufacturer, Expiry Date, Quantity |
| ProductParser.Record.With | app.py:128-140 | `product_details[col] = value` changes that one column and keeps every other |
| ProductParser.MatchedColumn | app.py:127-140 | the `if`/`elif` chain: the chosen column's label occurs in the part and no label earlier in column order does; no column exactly when no label occurs |
| ProductParser.PartValue | app.py:128 | `part.split(": ")[1]` exists exactly when the part contains `": "`, and it holds no `": "` of its own |
| ProductParser.ParsePart | app.py:126-140 | one part fails exactly when it names a column but lacks `": "`; a part with no label leaves the record unchanged; otherwise only the matched column changes and it gets the part's value |
| ProductParser.ParseParts | app.py:126-140 | the inner loop as a function: the parts are applied to the record in order, and the first part that raises ends it with `IndexError` (partner lemmas `PartsFailIff`, `FieldFromLastLabelled`) |
| ProductParser.ParseSection | app.py:123-140 | one line's record: its `", "`-separated parts applied to the record with every column `"NA"` |
| ProductParser.ParseSections | app.py:122-142 | the outer loop as a function: one record per line, in line order, or the first line's `IndexError` (partner lemma `SectionsParsedInOrder`) |
| ProductParser.Parse | app.py:117-144 | `parse_response_to_dataframe`: the reply split on `"\n"` and each line parsed (partner lemmas `OneRecordPerLine`, `ParseFailsIff`, `TableRoundTrip`) |
| ProductParser.ParseResponse | app.py:117-144 | the two nested loops compute the table `Parse` specifies, or the `IndexError` failure |
| ProductParser.SectionsParsedInOrder | app.py:122-142 | the lines parse when every line parses, and then record `i` is the record of line `i` |
| ProductParser.OneRecordPerLine | app.py:119-142 | a parsed reply has one record per `"\n"`-separated line (newline count plus one), in input order |
| ProductParser.PartsFailIff | app.py:126-140 | the parts of a line fail exactly when one of them names a column but has no `": "` |
| ProductParser.ParseFailsIff | app.py:119-142 | the whole parse raises `IndexError` exactly when some line holds such a part |
| ProductParser.FieldFromLastLabelled | app.py:123-140 | a field holds the value of the last part routed to it (later parts overwrite earlier ones), and keeps its starting value when no part is routed to it |
| ProductParser.FieldOfLine | app.py:118-140 | each field of a line's record is `"NA"` unless some part is routed to it, and then the value of the last such part |
| ProductParser.UnlabelledLineIsBlank | app.py:123-142 | a line with no labelled part, the empty line included, gives the all-`"NA"` record |
| ProductParser.BlankLineBetween | app.py:119-142 | a blank line between two product lines gives three records, the middle one all `"NA"` |
| ProductParser.ValueBetweenSeparators | app.py:128 | the stored value is the text between the first and the second `": "`, or to the end of the part |
| ProductParser.LabelInValueMisroutes | app.py:127-130 | a part `Brand: Category King` is routed to Category, because Category comes before Brand in the chain |
| ProductParser.LineParsesBack | app.py:123-140 | a line written in the prompted `Label: value, ...` format, with values that hold no comma, colon, line feed or label, parses to exactly the record it was written from |
| ProductParser.LineRoundTrip | app.py:117-144 | such a line, as the whole reply, gives a table of exactly that one record |
| ProductParser.TableRoundTrip | app.py:117-144 | several such lines give their records, one per line, in order |
| ProductParser.ExampleLine | app.py:117-144 | the prompted example line for Soap parses to one record with its seven values in column order |
| Classification.IsProduce | app.py:81-82 | `classify_image`'s result: the stripped, lower-cased reply equals `yes` (characterised by `ClassifiesIff`) |
| Classification.LowerIsYes | app.py:81-82 | a string lower-cases to `yes` exactly when it spells `yes` in any letter case |
| Classification.ClassifiesIff | app.py:81-82 | the photo is classified as produce exactly when the reply is a `yes` in any letter case with only whitespace around it |
| Classification.PaddedUpperYes | app.py:81-82 | `" YES\n"` classifies as produce |
| Classification.YesWithPeriod | app.py:81-82 | `"Yes."` does not |
| Classification.YesWithMore | app.py:81-82 | `"yes, it is"` does not |
| Freshness.RunEnd | app.py:93 | the end of a run of digits: every character before it is a digit, and the one at it is not |
| Freshness.MatchEnd | app.py:93 | `\d+` between word boundaries always takes the whole run of digits |
| Freshness.SearchFrom | app.py:93 | scanning from a position returns a match starting there or later, and no match starts between the position and it; none means no match at all from there on |
| Freshness.Search | app.py:93 | `re.search(r'\b\d+\b', s)`: the leftmost match, which is also the only match at its start; none exactly when nothing matches |
| Freshness.DecimalString | app.py:95 | a decimal spelling is a non-empty string of digits with no leading zero |
| Freshness.DecimalRoundTrip | app.py:95 | `int(str(n)) == n`: reading back the canonical spelling gives the number (Python agrees below its int/str digit limit, see below) |
| Freshness.DecimalValue | app.py:95 | `int()` on a string of ASCII digits: the digits read as a base-10 number, leading zeros allowed (partner lemma `DecimalRoundTrip`) |
| Freshness.FirstNumber | app.py:93-96 | no number exactly when `\b\d+\b` matches nowhere; otherwise the value of a match that no other match starts before |
| Freshness.FreshnessIndex | app.py:85-99 | `predict_freshness` after the model call: the first whole number of the stripped reply, or none on the error branch (partner lemmas `UnpaddedIndex`, `NoDigitsNoIndex`, `BareNumber`) |
| Freshness.NoNumberIff | app.py:93-99 | no index exactly when no whole number occurs in the text |
| Freshness.LeftmostNumber | app.py:93-96 | the index is the value of the leftmost whole number |
| Freshness.NoDigitsNoIndex | app.py:93-99 | a reply without digits gives no index |
| Freshness.UnpaddedIndex | app.py:93 | a reply without surrounding whitespace is searched as it is |
| Freshness.DigitsAreOneNumber | app.py:93-96 | a string of digits holds one number, worth its decimal value |
| Freshness.BareDigits | app.py:93-96 | a reply made only of digits gives their value, leading zeros allowed |
| Freshness.BareNumber | app.py:93-96 | a reply that is just the number `n` gives `n`, 0 and 37 included: the 1 to 10 range is not checked (for `n` within Python's int/str digit limit, see below) |
| Freshness.FirstNumberWins | app.py:93-96 | `"7, confidence 90"` gives 7 |
| Freshness.LabelledNumber | app.py:93-96 | `"Score: 7/10"` gives 7: a label before the number and a larger number after it do not matter |
| Freshness.DigitsInWordSkipped | app.py:93-96 | `"B12 is 9"` gives 9: digits inside a word do not count |
| Pipeline.ProductText | app.py:114 | the product text is the stripped reply, or empty when there is no response |
| Pipeline.CombinedPipeline | app.py:162-205 | `combined_pipeline` as the outcome of one run: upload failure, freshness index or its absence after a `yes`, otherwise no product details or the parsed table (partner lemmas `NoUploadStops`, `ProduceBranch`, `ProductBranch`, `TableRows`) |
| Pipeline.BlankReplyHasNoText | app.py:114 | a reply of nothing but whitespace leaves an empty product text |
| Pipeline.NoUploadStops | app.py:168-171 | without an uploaded file the run stops before any reply is used |
| Pipeline.ProduceBranch | app.py:175-189 | after a `yes`, the outcome is the freshness index or its absence, whatever the product-detail reply |
| Pipeline.ProductBranch | app.py:175-201 | after any other reply, the outcome never comes from the freshness path; it is "no product details" exactly when the product text is empty; it depends on the product-detail reply alone |
| Pipeline.TableRows | app.py:195-201 | a table shown to the user has one row per line of the stripped reply, each line parsed on its own, in order |

## Left out

- The Streamlit interface is not modelled. This covers titles, spinners, banners, CSS,
  the image preview and the letter-by-letter animated heading with its `time.sleep`
  delays. It is presentation and timing only.
- The calls to the hosted model (`genai.configure`, `genai.upload_file`,
  `generate_content`) are external network calls. Their results are parameters:
  - the reply strings;
  - `uploaded` for whether the upload returned a file;
  - `None` for a missing product-detail response.
- Exceptions the network calls raise are not modelled.
- The temporary-file write and PIL image loading are file I/O and are not modelled.
- pandas `DataFrame` construction and `style_dataframe` are not modelled. The table is
  a sequence of records with fields in column order, and styling has no content.
- Text.Strip: whitespace is the ASCII set `str.isspace` accepts (tab through carriage
  return, 0x1C to 0x1F and space). Python also strips Unicode spaces.
- Text.Lower: only ASCII letters are lower-cased. Python also folds other alphabets.
- Freshness.Search: `\d` is the ASCII digits and `\w` is ASCII letters, digits and
  `_`. Python's `re` uses Unicode classes for both.
- Freshness.DecimalValue: `int()` also accepts non-ASCII decimal digits, which this
  model does not.
- Freshness.FirstNumber: `int()` in current Python raises `ValueError` for a run of more
  than 4300 digits (the default int/str conversion limit, which the interpreter's
  configuration can change). `predict_freshness` does not catch it, so such a reply
  ends the run with an exception. The model returns the number's value instead, and so
  do `FreshnessIndex`, `BareDigits`, `BareNumber` and `DecimalRoundTrip` for such lengths.
