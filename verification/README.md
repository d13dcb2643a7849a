# MovieLens `.dat` to CSV reformatting, in Dafny

This project models the one piece of real logic in the MovieLens data
preparation of `cf_experiments_loop`: `_transform_csv`, which turns a
delimiter-separated MovieLens file (`ratings.dat`, `movies.dat`, fields
separated by `::`) into a comma-separated file with a fixed header. It also
models the distinct-count step of `prepare_data`, which counts users and items
in the loaded ratings.

The output of `_transform_csv` is built in this order:

- the column names joined with `,`, then a newline;
- then, for every input line (the first one is dropped when `skip_first` is set):
  - the line is split on the separator;
  - if the separator is not `,`, each field holding a comma is wrapped in double quotes;
  - the fields are joined with `,`.

Each line keeps its own terminator. The terminator ends up at the end of the line's last field.

Modules:

- `Results`: a success-or-failure result.
- `Text`: Python's `str.split(sep)`, the leftmost search it performs, and `sep.join(parts)`.
  - `Split` cuts at the leftmost, non-overlapping occurrences of a non-empty separator.
- `Lines`: iterating over a `tf.io.gfile.GFile` opened in binary mode.
  - GFile's buffered line reader discards every carriage return, so a CRLF file yields LF-terminated lines.
  - The remaining content is cut after every `\n`, and each line keeps its terminator.
- `CsvReader`: a small quote-aware reader of one comma-separated record.
  - It is an independent reference used to judge the reformatted lines.
  - It is not part of the repository.
- `MovielensTransform`: the quoting rule, one line's transformation, and the whole file's transformation.
  - `TransformCsv` takes a list of lines; `TransformFile` takes file content.
  - An empty separator makes Python's `split` raise `ValueError` at the first line that is not skipped.
  - By then the header has already been written, so the failure carries the text written so far.
- `MovielensPrepare`: the column constants and the two calls with the `::` separator.
  - Also the distinct user and item counts, computed through a `unique()` method with loop invariants.

All sources below are in `cf_experiments_loop/transformations/movielens.py`.

## Model

| member | source | states |
|---|---|---|
| Text.FindFirst | cf_experiments_loop/transformations/movielens.py:105 | the leftmost search `str.split` performs reports the leftmost occurrence: no occurrence starts before the index it returns, and it returns -1 exactly when the pattern does not occur |
| Text.Join | cf_experiments_loop/transformations/movielens.py:109 | `",".join(parts)`: no parts give the empty text and one part is joined to itself |
| Text.JoinStartsWithFirst | cf_experiments_loop/transformations/movielens.py:109 | the joined text starts with the first part, followed by the separator when there are more parts |
| Text.JoinEndsWithLast | cf_experiments_loop/transformations/movielens.py:109 | the joined text ends with the last part, preceded by the separator when there are more parts |
| Text.Split | cf_experiments_loop/transformations/movielens.py:105 | `line.split(sep)` for a non-empty separator gives at least one field |
| Text.JoinSplit | cf_experiments_loop/transformations/movielens.py:105 | joining the fields of `line.split(sep)` back with the separator reproduces the line exactly |
| Text.SplitLeftmost | cf_experiments_loop/transformations/movielens.py:105 | the split cuts at the leftmost separators, left to right and without overlaps: every field but the last ends where the first separator starts, and the last field contains no separator |
| Text.SplitJoin | cf_experiments_loop/transformations/movielens.py:105 | conversely, fields that each stop at the first separator, with a separator-free last field, are recovered exactly by splitting their join |
| Text.SplitCharParts | cf_experiments_loop/transformations/movielens.py:105 | splitting on a one-character separator leaves that character in no field |
| Text.SplitCharCount | cf_experiments_loop/transformations/movielens.py:105 | splitting on a one-character separator yields one more field than the line has occurrences of that character |
| Lines.CutLines | cf_experiments_loop/transformations/movielens.py:100 | the lines cut after each newline glue back to the text; each is non-empty with a newline at most at its end, and all but the last end with a newline |
| Lines.DropCr | cf_experiments_loop/transformations/movielens.py:95-100 | the content GFile's line reader sees holds no carriage return, and a file without one is seen unchanged |
| Lines.DropCrAppend | cf_experiments_loop/transformations/movielens.py:95-100 | dropping carriage returns works piece by piece, so the kept characters stay in their order |
| Lines.DropCrCount | cf_experiments_loop/transformations/movielens.py:95-100 | dropping carriage returns keeps every other character as often as it occurs |
| Lines.ReadLines | cf_experiments_loop/transformations/movielens.py:100 | the lines the input file yields, glued together, are the file content without its carriage returns; each line is non-empty, holds no carriage return and has a newline at most at its end, and every line but the last ends with a newline |
| Lines.ReadLinesConcat | cf_experiments_loop/transformations/movielens.py:100 | reading the concatenation of well-formed lines without carriage returns yields exactly those lines |
| MovielensTransform.QuoteField | cf_experiments_loop/transformations/movielens.py:107 | a field without a comma is kept; a field with one becomes two characters longer, with a double quote at each end and the field unchanged between them |
| MovielensTransform.QuoteFields | cf_experiments_loop/transformations/movielens.py:106-108 | quoting keeps the number of fields; a field with a comma becomes `"` + field + `"` with embedded quotes not escaped, and any other field is unchanged |
| MovielensTransform.TransformLine | cf_experiments_loop/transformations/movielens.py:105-109 | with `,` as separator the written line equals the input line |
| MovielensTransform.TransformLineReadsBack | cf_experiments_loop/transformations/movielens.py:105-109 | a line without double quotes is written as a well-formed comma-separated record: a quote-aware reader gets back exactly the fields of the split, as many and in the same order |
| MovielensTransform.ReadJoinedFields | cf_experiments_loop/transformations/movielens.py:106-109 | quoted fields joined with commas read back as the original fields when none holds a double quote |
| MovielensTransform.QuotedFieldReadsBack | cf_experiments_loop/transformations/movielens.py:107 | one quoted field without embedded quotes reads back as itself, commas included |
| MovielensTransform.EmbeddedQuoteBreaksReadBack | cf_experiments_loop/transformations/movielens.py:105-109 | embedded quotes are not escaped: `a"b,c::d` splits into `a"b,c` and `d` and is written as `"a"b,c",d`, which reads back as the fields `ab` and `c,d` instead |
| MovielensTransform.TransformLineKeepsChars | cf_experiments_loop/transformations/movielens.py:105-109 | any character other than a comma, a double quote or a separator character occurs as often in the written line as in the input line |
| MovielensTransform.SplitLastTerminated | cf_experiments_loop/transformations/movielens.py:104-105 | splitting a terminated line on a separator without newlines leaves the newline at the end of the last field |
| MovielensTransform.TransformLineTerminator | cf_experiments_loop/transformations/movielens.py:104-109 | a terminated line is written terminated, unless its last field has a comma and is quoted; then the closing quote follows the newline |
| MovielensTransform.Header | cf_experiments_loop/transformations/movielens.py:98-99 | the header is the column names joined with commas, then a newline; when no name holds a newline it is a single proper line |
| MovielensTransform.DataLines | cf_experiments_loop/transformations/movielens.py:100-102 | the lines reformatted are a suffix of the input lines, shorter by exactly one when `skip_first` is set and there is a line, otherwise all of them |
| MovielensTransform.TransformLines | cf_experiments_loop/transformations/movielens.py:100-109 | every data line contributes exactly one reformatted chunk, in the original order |
| MovielensTransform.TransformCsv | cf_experiments_loop/transformations/movielens.py:97-109 | the output starts with the header; it fails exactly when the separator is empty and a data line exists, and the failure carries the header already written; with `,` as separator the output is the header followed by the data lines unchanged |
| MovielensTransform.TransformCsvAppend | cf_experiments_loop/transformations/movielens.py:100-109 | one more input line appends exactly its reformatted text and changes nothing written before it |
| MovielensTransform.TransformCsvSkipFirst | cf_experiments_loop/transformations/movielens.py:100-102 | with `skip_first` the first line is dropped, whatever it holds, and nothing else is |
| MovielensTransform.TransformCsvNoData | cf_experiments_loop/transformations/movielens.py:97-99 | with no data lines the output is the header alone, whatever the separator |
| MovielensTransform.TransformCsvKeepsChars | cf_experiments_loop/transformations/movielens.py:97-109 | counting any character that is not a comma, a quote or a separator character, the output holds the header's occurrences plus the data lines' occurrences |
| MovielensTransform.TransformLinesCount | cf_experiments_loop/transformations/movielens.py:100-109 | the reformatted lines together hold as many of such a character as the input lines |
| MovielensTransform.TransformFile | cf_experiments_loop/transformations/movielens.py:94-109 | on file content, a non-empty separator never fails; a failure needs a file holding more than carriage returns, and without `skip_first` such a file with an empty separator always fails; the output starts with the header |
| MovielensTransform.CommaSeparatedFileCopied | cf_experiments_loop/transformations/movielens.py:100-109 | with `,` as separator the file content, without its carriage returns, is copied after the header; with `skip_first`, only what follows the first newline is copied |
| MovielensPrepare.RatingsCsv | cf_experiments_loop/transformations/movielens.py:56-60 | `ratings.csv` starts with `user_id,item_id,rating,timestamp` and a newline, and has exactly one newline more than `ratings.dat` |
| MovielensPrepare.MoviesCsv | cf_experiments_loop/transformations/movielens.py:62-66 | `movies.csv` starts with `item_id,titles,genres` and a newline, and has exactly one newline more than `movies.dat` |
| MovielensPrepare.RatingHeader | cf_experiments_loop/transformations/movielens.py:12-19 | the rating columns joined with commas are `user_id,item_id,rating,timestamp` |
| MovielensPrepare.MovieHeader | cf_experiments_loop/transformations/movielens.py:12-20 | the movie columns joined with commas are `item_id,titles,genres` |
| MovielensPrepare.HeaderNewlines | cf_experiments_loop/transformations/movielens.py:97-99 | each fixed header holds exactly one newline, its terminator |
| MovielensPrepare.RowsKept | cf_experiments_loop/transformations/movielens.py:56-66 | reformatting a `.dat` file with `::` never fails and adds exactly one newline, the header's |
| MovielensPrepare.ColonFreeRow | cf_experiments_loop/transformations/movielens.py:105-109 | a `::`-joined row of colon-free fields is written as its quoted fields joined with commas |
| MovielensPrepare.SplitColonFree | cf_experiments_loop/transformations/movielens.py:105 | colon-free fields joined with `::` split back into exactly those fields |
| MovielensPrepare.RatingRow | cf_experiments_loop/transformations/movielens.py:56-60 | a rating row `u::i::r::t` of colon- and comma-free fields is written as `u,i,r,t` |
| MovielensPrepare.MovieRowQuotesTitle | cf_experiments_loop/transformations/movielens.py:62-66 | a movie row whose title has a comma, and possibly single colons, is written with the title in double quotes and the id and genres unchanged |
| MovielensPrepare.MovieRowSplits | cf_experiments_loop/transformations/movielens.py:62-66 | such a movie row splits on `::` into exactly its item id, title and genres |
| MovielensPrepare.SeparatorEndsField | cf_experiments_loop/transformations/movielens.py:105 | a field without `::` that does not end with a colon stops at the first `::` written after it |
| MovielensPrepare.GodfatherTitleEnded | cf_experiments_loop/transformations/movielens.py:62-66 | the title `Godfather: Part II, The (1974)` is such a field |
| MovielensPrepare.Unique | cf_experiments_loop/transformations/movielens.py:73-74 | `unique()` returns every value of the column once and nothing else |
| MovielensPrepare.ElemsBound | cf_experiments_loop/transformations/movielens.py:73-74 | a column has at most as many distinct values as rows |
| MovielensPrepare.DistinctCounts | cf_experiments_loop/transformations/movielens.py:72-74 | the user and item counts are the numbers of distinct ids in the ratings: each at most the number of rows, and at least one when there is a row |

## Left out

- Download, zip extraction, removing and copying files, directory creation, and the `tf.io.gfile` file handles (lines 31-54, 68-70, 94-95): these are I/O and calls into libraries. The model takes the input file's content as a string and returns the output text.
- TensorFlow's buffered input stream behind GFile's line iteration: only its effect on the lines, dropping every carriage return, is modelled (`Lines.DropCr`). Buffer sizes and read errors are not.
- MovielensPrepare.MovieRowQuotesTitle: a title holding `::` or ending with a colon splits differently and is not covered. The title's single colons are covered.
- UTF-8 decoding with `errors="ignore"` and the `six.PY2` branch (lines 91-92, 104): lines are modelled as already-decoded character sequences.
- `pd.read_csv` (line 72): the loaded ratings are given as a sequence of `Rating` records, so CSV parsing by pandas is not modelled. The reference reader `CsvReader` stands in for it only to judge the written lines.
- `train_test_split` (line 76): library behaviour with a random split.
- `cf_experiments_loop/models/ncf.py` and `setup.py`: model construction on TensorFlow/Keras with floating point, and packaging metadata.
- MovielensPrepare.Unique: returns each value once, but does not state that values come in order of first appearance as pandas returns them; only the count is used by the source.
- MovielensTransform.TransformLineReadsBack: requires a line without double quotes. Lines with embedded quotes need not read back, as EmbeddedQuoteBreaksReadBack shows with `a"b,c::d`.
- The quoting of a last field that holds a comma also wraps the line's newline, so the closing quote lands after it. TransformLineTerminator states this as the source's behaviour. MovieLens rows end with the genres field, which holds no comma.
