# pytest-easyMPI output parser, modelled in Dafny

pytest-easyMPI runs a single pytest test under MPI, captures pytest's console
output in a temporary file and reads the result back. This project models the
parser module `pytest_easyMPI/_mpi_test_parser.py`:

- `strip_colour_codes` removes ANSI colour codes;
- `get_pytest_input` builds the node id that makes pytest run exactly one test;
- `temp_ouput_file` names that test's temporary output file;
- `contains_failure` detects pytest's failures banner;
- `get_traceback` cuts the traceback out of the output;
- `get_summary` cuts the one-line failure reason out of the short test summary;
- `END_OF_TEST` is declared as `MpiTestParser.EndOfTest`.

It has two modules:

- `PyStr` (`py_str.dfy`) holds the Python `str` operations the parser uses: `find`/`index` from a start, `rindex` below an end, `replace`, `split`, `join`, `in` and slicing. It also holds `CountChar`, which counts one character and is used only to state contracts. Strings are `seq<char>`.
- `MpiTestParser` (`mpi_test_parser.dfy`) holds the parser itself.

Python exceptions become the error tags of `Result`:

- `NoTraceback` is the ValueError that `get_traceback` raises itself.
- `LookupFailed` is a raw ValueError from `str.index` or `str.rindex`.
- `NoMatch` is the AttributeError from `.groups()` when `re.search` returns None.

The two regular expressions are not run by a general regex engine. Each has its own scanner, plus a declarative statement of what the pattern matches:

- `\x1B\[\d+(;\d+){0,2}m` becomes `ColourCodeAt` and `IsColourCode`. The substitution `re.sub` becomes `StripColourCodes`, a left-to-right scan.
- `=* short test summary info =*\nFAILED .*?::.*? - (.*)` becomes `SummaryAt`, tried at each position where the banner may begin, and `SearchSummary`, which keeps the leftmost success.
  - In the rows below, "the leftmost match" is the match whose banner is furthest left. `SearchFromStarts` shows that trying each start position instead, as `re.search` does, gives the same group: a start inside a '=' run reaches the banner at the run's end, and no banner begins inside such a run.
  - `SummaryShape` describes where the pattern can match at all.
  - `SummaryMatch` describes the match that the lazy `.*?` and the greedy `(.*)` select.

`get_traceback` loops three times, so it is a method, and its loop is the method `SkipThreeLines`. Its postconditions are stated through `IsTracebackStart` and `IsTracebackEnd`, which describe the two cut points without reference to the search.

Two properties of the code are worth knowing:

- Stripping is not idempotent: `StripNotIdempotent` gives a counterexample for every colour code.
- A non-empty traceback begins with the third newline after the failures banner (`GetTraceback`, last postcondition).

## Model

| member | source | states |
|---|---|---|
| MpiTestParser.ParamRunEnd | pytest_easyMPI/_mpi_test_parser.py:7 | `(;\d+)` runs scan exactly the digits and ';' from a position: everything before the end is one of them, and the character at the end is neither |
| MpiTestParser.ColourCodeAt | pytest_easyMPI/_mpi_test_parser.py:7 | a length it returns covers exactly one whole colour code: ESC '[' then one to three digit runs separated by ';', then 'm' |
| MpiTestParser.ColourCodeAtIsOnlyMatch | pytest_easyMPI/_mpi_test_parser.py:7 | every colour code that begins the text is the one ColourCodeAt reports, so the match at a position is unique |
| MpiTestParser.ColourCodeAtFindsAll | pytest_easyMPI/_mpi_test_parser.py:7 | ColourCodeAt misses no colour code that begins the text |
| MpiTestParser.StripColourCodes | pytest_easyMPI/_mpi_test_parser.py:6-8 | the stripped text is never longer than the input |
| MpiTestParser.StripDropsCode | pytest_easyMPI/_mpi_test_parser.py:8 | where a colour code begins, the substitution removes it whole and continues after it |
| MpiTestParser.StripKeepsChar | pytest_easyMPI/_mpi_test_parser.py:8 | where no prefix of the text is a colour code, the substitution keeps the first character and carries on with the rest |
| MpiTestParser.StripPlainPrefix | pytest_easyMPI/_mpi_test_parser.py:8 | a prefix without ESC passes through unchanged, whatever follows it |
| MpiTestParser.StripWithoutEsc | pytest_easyMPI/_mpi_test_parser.py:8 | text without ESC is returned unchanged |
| MpiTestParser.StripSplitsAtNewline | pytest_easyMPI/_mpi_test_parser.py:7-8 | no colour code holds a newline, so text split next to a newline strips part by part |
| MpiTestParser.StripCodeTextCode | pytest_easyMPI/_mpi_test_parser.py:7-8 | a text without ESC between two colour codes, followed by text without ESC, keeps both texts and loses both codes |
| MpiTestParser.StripExample | pytest_easyMPI/_mpi_test_parser.py:7-8 | ESC "[31mFAIL" ESC "[0m" becomes "FAIL" |
| MpiTestParser.DigitsAreParamList | pytest_easyMPI/_mpi_test_parser.py:7 | one non-empty run of digits is a parameter list |
| MpiTestParser.NoCodeUnlessParamList | pytest_easyMPI/_mpi_test_parser.py:7 | ESC '[' followed by digits and ';' that do not form one to three groups begins no colour code |
| MpiTestParser.StripKeepsMalformedCode | pytest_easyMPI/_mpi_test_parser.py:7-8 | such an escape sequence survives stripping unchanged |
| MpiTestParser.StripLeavesCodeWithoutDigits | pytest_easyMPI/_mpi_test_parser.py:7-8 | ESC "[m" has no digits and is not removed |
| MpiTestParser.StripLeavesCodeWithFourGroups | pytest_easyMPI/_mpi_test_parser.py:7-8 | ESC "[1;2;3;4m" has four groups, one too many, and is not removed |
| MpiTestParser.StripCodeThenPlain | pytest_easyMPI/_mpi_test_parser.py:8 | a colour code followed by text without ESC leaves just the text |
| MpiTestParser.StripKeepsOpenBracket | pytest_easyMPI/_mpi_test_parser.py:8 | ESC '[' followed directly by another ESC begins no code and is kept |
| MpiTestParser.StripNotIdempotent | pytest_easyMPI/_mpi_test_parser.py:7-8 | for every colour code c = ESC '[' p 'm': ESC '[' c p 'm' strips to c, and c strips to the empty text, so stripping twice differs from stripping once (p = "1" gives ESC "[" ESC "[1m1m") |
| MpiTestParser.StripIsLeftToRightScan | pytest_easyMPI/_mpi_test_parser.py:8 | the output is the kept text of a left-to-right scan that removes a whole colour code wherever one begins and otherwise keeps one character, as `re.sub` does |
| MpiTestParser.StripKeepsScannedText | pytest_easyMPI/_mpi_test_parser.py:8 | every such scan keeps the same text, namely the stripped output |
| MpiTestParser.StripIsSubsequence | pytest_easyMPI/_mpi_test_parser.py:8 | the output is obtained from the input by deleting characters |
| PyStr.Split | pytest_easyMPI/_mpi_test_parser.py:34 | `split` on one character gives one part more than there are separators, and no part holds the separator |
| PyStr.Join | pytest_easyMPI/_mpi_test_parser.py:34 | the joined text begins with the first part |
| PyStr.JoinSplitIsReplace | pytest_easyMPI/_mpi_test_parser.py:34 | joining the parts of a split with a glue string replaces every separator by the glue |
| PyStr.JoinSplitRoundTrip | pytest_easyMPI/_mpi_test_parser.py:34 | splitting on a character and joining with the same character gives back the input |
| MpiTestParser.PytestInput | pytest_easyMPI/_mpi_test_parser.py:34-36 | the node id built by splitting the qualified name on '.' and joining with "::" is the module path, "::", and the qualified name with every '.' replaced by "::" |
| MpiTestParser.NodeIdOfMethod | pytest_easyMPI/_mpi_test_parser.py:34-36 | the method fn of class cls in module path m gets the node id "m::cls::fn" |
| PyStr.ReplaceAll | pytest_easyMPI/_mpi_test_parser.py:55 | `replace` leaves a text unchanged when the pattern's first character does not occur in it, and keeps the length when the replacement is as long as the pattern |
| PyStr.ReplaceCharPointwise | pytest_easyMPI/_mpi_test_parser.py:55 | replacing one character by one character keeps the length and acts position by position |
| PyStr.ReplacePairLeavesNoPair | pytest_easyMPI/_mpi_test_parser.py:55 | after `replace("::", ".")` no "::" is left, because a surviving ':' is never followed by another |
| MpiTestParser.TempOutputFile | pytest_easyMPI/_mpi_test_parser.py:55 | a temporary file name holds no '/' and no "::" |
| MpiTestParser.QualnameRoundTrip | pytest_easyMPI/_mpi_test_parser.py:55 | for a qualified name without ':', turning '.' into "::" and then applying both passes of temp_ouput_file gives the name with '/' turned into '.' |
| MpiTestParser.SlashPassOfPytestInput | pytest_easyMPI/_mpi_test_parser.py:55 | the '/' pass acts separately on the module path and on the rejoined qualified name |
| MpiTestParser.TempOutputFileOfPytestInput | pytest_easyMPI/_mpi_test_parser.py:55 | when neither the module path nor the qualified name holds ':', the file name is the module path with '/' as '.', then '.', then the qualified name with '/' as '.' |
| MpiTestParser.TempOutputFileOfMethod | pytest_easyMPI/_mpi_test_parser.py:55 | the method fn of class cls in "dir/file" gets the file name "dir.file.cls.fn", e.g. "tests/test_x.py::TestA::test_b" gives "tests.test_x.py.TestA.test_b" |
| MpiTestParser.ContainsFailure | pytest_easyMPI/_mpi_test_parser.py:73 | true exactly when "= FAILURES =" occurs in the output |
| MpiTestParser.FailureHasTracebackMarker | pytest_easyMPI/_mpi_test_parser.py:95-98 | when contains_failure holds, "= FAILURES " occurs, so get_traceback does not raise its own "no traceback" error |
| PyStr.IndexOf | pytest_easyMPI/_mpi_test_parser.py:96 | `find`/`index` from a start: the lowest occurrence at or after it, or none when there is none |
| PyStr.LastIndexOf | pytest_easyMPI/_mpi_test_parser.py:103-104 | `rindex` below an end: the highest occurrence wholly before it, or none when there is none |
| MpiTestParser.SkipThreeLines | pytest_easyMPI/_mpi_test_parser.py:100-101 | the loop ends on a start cut point: the third newline after the first "= FAILURES "; when a lookup fails, no start cut point exists |
| MpiTestParser.NewlineCountStep | pytest_easyMPI/_mpi_test_parser.py:100-101 | each `index("\n", index + 1)` raises the count of newlines passed by one |
| MpiTestParser.NoTracebackStartBeyond | pytest_easyMPI/_mpi_test_parser.py:100-101 | when a newline lookup fails before the third, no third newline exists |
| MpiTestParser.GetTraceback | pytest_easyMPI/_mpi_test_parser.py:95-106 | NoTraceback exactly when "= FAILURES " is absent; success exactly when both cut points exist; every other failure is a raw lookup failure; on success the result is Python's slice `message[start:end]`, where start is the third newline after the first "= FAILURES " and end is the last newline before the last "short test summary info"; it is empty when end <= start, otherwise it is `message[start..end]` and begins with that newline unless empty |
| MpiTestParser.TracebackStartUnique | pytest_easyMPI/_mpi_test_parser.py:100-101 | the start cut point is unique |
| MpiTestParser.TracebackEndUnique | pytest_easyMPI/_mpi_test_parser.py:103-104 | the end cut point is unique |
| MpiTestParser.TracebackStartExists | pytest_easyMPI/_mpi_test_parser.py:100-101 | a start exists exactly when at least three newlines follow the first "= FAILURES " |
| MpiTestParser.TracebackEndExists | pytest_easyMPI/_mpi_test_parser.py:103-104 | an end exists exactly when a newline comes before the last "short test summary info" |
| MpiTestParser.EqualsRunEnd | pytest_easyMPI/_mpi_test_parser.py:124 | `=*` takes the whole run of '=' |
| MpiTestParser.LineEnd | pytest_easyMPI/_mpi_test_parser.py:124 | `.*` runs to the end of the line |
| MpiTestParser.FailedLineAt | pytest_easyMPI/_mpi_test_parser.py:124 | a line end it reports lies after the banner and holds a newline |
| MpiTestParser.FailedLineAtSound | pytest_easyMPI/_mpi_test_parser.py:124 | a line end that the matcher reports closes the banner, its trailing '=' run, the newline and "FAILED " |
| MpiTestParser.FailedLineAtComplete | pytest_easyMPI/_mpi_test_parser.py:124 | wherever that first part of the pattern matches, the matcher reports its line end, which is the only possible one |
| MpiTestParser.TestIdGroup | pytest_easyMPI/_mpi_test_parser.py:124 | the group it returns holds no newline |
| MpiTestParser.SummaryAt | pytest_easyMPI/_mpi_test_parser.py:124 | the group a match at a position returns holds no newline |
| MpiTestParser.TestIdFound | pytest_easyMPI/_mpi_test_parser.py:124 | wherever "…::… - " can match on the line, taking the first "::" and the first " - " after it finds a match |
| MpiTestParser.TestIdGroupMatches | pytest_easyMPI/_mpi_test_parser.py:124 | the matcher's choice is the lazy/greedy match, and its group is the rest of the line after " - " |
| MpiTestParser.TestIdMatchUnique | pytest_easyMPI/_mpi_test_parser.py:124 | the lazy/greedy match from a given start is unique |
| MpiTestParser.ShapeFound | pytest_easyMPI/_mpi_test_parser.py:124 | wherever the pattern can match from a position, the matcher succeeds there |
| MpiTestParser.SummaryAtMatches | pytest_easyMPI/_mpi_test_parser.py:124 | a success of the matcher at a position is the lazy/greedy match there, with that group |
| MpiTestParser.SummaryAtComplete | pytest_easyMPI/_mpi_test_parser.py:124 | the matcher fails at a position exactly when the pattern cannot match there |
| MpiTestParser.SummaryMatchUnique | pytest_easyMPI/_mpi_test_parser.py:124 | from a given banner position the lazy/greedy match is unique |
| MpiTestParser.SearchSummary | pytest_easyMPI/_mpi_test_parser.py:123-124 | the group the search returns holds no newline |
| MpiTestParser.FirstSomeFinds | pytest_easyMPI/_mpi_test_parser.py:123-124 | the search returns the result at the first position that succeeds, and every earlier position fails |
| MpiTestParser.FirstSomeFails | pytest_easyMPI/_mpi_test_parser.py:123-124 | when the search fails, every start position fails |
| MpiTestParser.FirstSomeVia | pytest_easyMPI/_mpi_test_parser.py:123-124 | a search that tries g at each position finds what a search trying f finds, when g at p is f at some later h(p) and f fails everywhere h skips over |
| MpiTestParser.SearchFromStarts | pytest_easyMPI/_mpi_test_parser.py:123-124 | trying the pattern at each start position, as `re.search` does, gives the same group as the search over banner positions, so "leftmost" means the leftmost start as well as the leftmost banner |
| MpiTestParser.GetSummary | pytest_easyMPI/_mpi_test_parser.py:123-127 | the only failure is NoMatch |
| MpiTestParser.GetSummaryFailsIffNoMatch | pytest_easyMPI/_mpi_test_parser.py:123-125 | get_summary fails exactly when the pattern matches nowhere in the colour-stripped output |
| MpiTestParser.NoShapeWhereMatcherFails | pytest_easyMPI/_mpi_test_parser.py:123-124 | where the matcher fails at every earlier position, the pattern has no match with its banner there |
| MpiTestParser.SearchSummaryLeftmost | pytest_easyMPI/_mpi_test_parser.py:123-124 | a successful search returns the group of the leftmost match |
| MpiTestParser.SearchSummaryFindsShape | pytest_easyMPI/_mpi_test_parser.py:123-124 | wherever the pattern can match, the search succeeds |
| MpiTestParser.SearchSummaryIsLeftmostGroup | pytest_easyMPI/_mpi_test_parser.py:123-124 | conversely, the group of the leftmost match is what the search returns |
| MpiTestParser.GetSummaryLeftmost | pytest_easyMPI/_mpi_test_parser.py:123-127 | a summary that get_summary returns is the text after the first " - " that follows the first "::" on the "FAILED " line under the leftmost banner, up to the end of that line |
| MpiTestParser.GetSummaryIsLeftmostGroup | pytest_easyMPI/_mpi_test_parser.py:123-127 | conversely, the group of the leftmost match in the stripped output is what get_summary returns |
| MpiTestParser.GetSummaryOkWhenShape | pytest_easyMPI/_mpi_test_parser.py:123-127 | wherever the pattern can match in the stripped output, get_summary succeeds |
| MpiTestParser.LeftmostMatchUnique | pytest_easyMPI/_mpi_test_parser.py:123-124 | there is only one leftmost match |
| MpiTestParser.GetSummaryIsOneLine | pytest_easyMPI/_mpi_test_parser.py:124-127 | the summary holds no newline |
| MpiTestParser.BannerLineOf | pytest_easyMPI/_mpi_test_parser.py:124 | a banner, '=' padding, a newline and "FAILED " form the pattern's first line |
| MpiTestParser.TestIdOf | pytest_easyMPI/_mpi_test_parser.py:124 | "file::test - msg" is read as the lazy/greedy match with the group msg, when the file name has no ':' and the test name no '-' |
| MpiTestParser.FailedLineMatch | pytest_easyMPI/_mpi_test_parser.py:124 | when a banner padded on both sides with '=' runs of any length follows text that holds no banner and ends its last line, and such a line follows the banner, the text holds the leftmost match at that banner and its group is msg |
| MpiTestParser.SummaryOfFailedLine | pytest_easyMPI/_mpi_test_parser.py:123-127 | for output that strips to such text, get_summary returns the message after " - " |
| MpiTestParser.StripColouredBanner | pytest_easyMPI/_mpi_test_parser.py:123-124 | when colour codes wrap a banner padded with '=' runs of any length, after text without ESC, stripping removes both codes and keeps the text, the padding, the banner and what follows, when what follows holds no ESC |
| MpiTestParser.SummaryOfColouredBanner | pytest_easyMPI/_mpi_test_parser.py:123-127 | suppose colour codes wrap a banner padded with '=' runs of any length. Before it comes text that may hold colour codes, holds no banner once stripped, and ends its last line. Below it is an uncoloured "FAILED file::test - msg" line, with a file name without ':' and a test name without '-'. Any further lines may follow. Then get_summary returns msg |
| MpiTestParser.GetSummaryExample | pytest_easyMPI/_mpi_test_parser.py:123-127 | ESC "[31m===== short test summary info =====" ESC "[0m" above "FAILED tests/x.py::test_y - AssertionError: boom" gives "AssertionError: boom" |

## Left out

- `inspect.getfile` and `os.path.relpath` (lines 31-32) depend on reflection and on the working directory. `PytestInput` takes the relative module path and `__qualname__` as string parameters.
- Python's `\d` matches every Unicode decimal digit. The model accepts the ASCII digits '0' to '9' only.
- No general regular-expression engine is modelled. Only the two fixed patterns at lines 7 and 124 are, each by its own scanner.
- MpiTestParser.GetSummary: its postcondition states only that the error is NoMatch. What it returns is stated by `GetSummaryFailsIffNoMatch`, `GetSummaryLeftmost`, `GetSummaryIsLeftmostGroup` and `GetSummaryIsOneLine`.
- The MPI orchestration, process spawning and file I/O around the parser are not part of this model. `END_OF_TEST` is only declared: it is a constant without behaviour.
- `replace` with an empty pattern and `split` with a separator longer than one character are not modelled. The parser does not use either.
