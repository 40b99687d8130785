# linker.py, modelled in Dafny

`linker.py` turns a data file of "riddles" into a web of short links. The data
file is cut into riddles at header lines (`--- name`). A riddle depends on
every riddle whose name occurs in its text. Riddles are then resolved one at a
time, always the first unresolved one whose dependencies are all resolved. Resolving a
riddle does four things:

- replaces each dependency's name in the riddle's text by that dependency's link;
- compresses the text and makes it URL-safe;
- appends it to a destination URI as the `z` query parameter;
- shortens the resulting URL and stores it as the riddle's link.

The model has five modules:

- `Wrappers`: `Option`, `Result` and `Outcome`. These stand where the Python
  code returns `None`, raises or exits.
- `PyStrings`: the Python string built-ins the program relies on, with
  CPython's meaning. These are `p in s`, `str.replace` (an empty pattern
  included), `"\n".join` and `str.splitlines()[0]`.
- `LinkPayload`: `custom_link`. Its payload is URL-safe, and it is lossless
  for any base64 text the compressor can produce.
- `Riddles`:
  - the `Riddle` class, whose `dependencies` and `link` fields are updated in
    place;
  - `link_dependencies` and `link_all_riddles`, as loops;
  - `resolve` and `resolve_all_riddles`, as loops, proved against the pure
    functions `Substitute` and `PublishedLink`.
- `DataFile`: `parse_data_file`.
  - `HeaderName` is the regular expression `^---\s*(\w+)`.
  - `Scan` and `Parse` are the loop written as a fold.
  - `ParseDataFile` is the loop itself. It creates fresh `Riddle` objects.

Four things the program takes from outside are parameters of a `Config`
value:

- the two destination URIs, which the program reads from environment
  variables;
- Python's `float()` test;
- LZString's `compressToBase64`;
- the Shlink shortening call.

The Shlink call is modelled as a total function from the long URL to the
stored link. `shorten_url` (linker.py:76-86) answers with the long URL itself
when the HTTP status is not 200, and with the `shortUrl` field of the JSON
answer otherwise. The exceptions it can raise are not modelled (see
"Left out").

Where the program raises or exits, the model returns an error value:

- An empty data file is `EmptyDataFile`. The program prints an error and exits.
- A line before the first header is `LineBeforeFirstHeader`. The program fails
  with TypeError on `None += [line]`.
- A dependency without a link is `UnresolvedDependency`. The program fails
  with TypeError in `str.replace`.
- A riddle with empty data is `EmptyRiddleData`. The program fails with
  IndexError, because `"".splitlines()` is empty.
- No resolvable riddle is `CyclingDependency`. The program exits.

Some consequences of the code that the model states:

- Text before the first header is an error (`LineBeforeFirstHeader`); it is
  not discarded.
- A riddle whose data contains its own name depends on itself. It can
  therefore never be resolved, and the run fails.
- Names are replaced by links as they are, with no escaping of any character.
- Each riddle is shortened once, when it is resolved; links are never
  revised afterwards.
- A shortening request answered with a status other than 200 is not fatal:
  `Config.shortenUrl` always answers.

## Model

| member | source | states |
|---|---|---|
| Riddles.Riddle.constructor | linker.py:22-26 | a new riddle has the given name and data, no dependencies and no link |
| Riddles.Riddle.GetUri | linker.py:39-43 | the URI is missing exactly when the data is empty (IndexError); otherwise it is the Treasure Finder URI when the float test holds of the first line (the text before the first line boundary) and the On The Quizz URI when it does not |
| Riddles.UriOfJoinedLines | linker.py:39-43 | for data joined from lines without line boundaries, as parsing builds it, the URI is chosen by the float test on the first of those lines, and is missing when there are no lines or one empty line |
| Riddles.ReadyIffResolvable | linker.py:28-37 | a riddle is resolvable exactly when it is not resolved and every one of its dependencies is |
| Riddles.Riddle.LinkDependencies | linker.py:45-48 | the riddles of `others` whose name occurs in the data are appended, in list order, to the existing dependencies |
| Riddles.MentionedPositions | linker.py:45-48 | the positions the linking loop appends are increasing, in range, and are exactly the positions whose name is a substring of the data |
| Riddles.MentionedInListOrder | linker.py:45-48 | the appended riddles are the riddles at those positions, in the same order |
| Riddles.MentionedExactly | linker.py:45-48 | a riddle is appended exactly when it is in the list and its name is a substring of the data, the riddle itself included |
| Riddles.LinkAllRiddles | linker.py:138-140 | links are untouched; each riddle receives the mentioned riddles of the whole list once per occurrence of itself in the list, so exactly once when the list has no repeats |
| Riddles.DistinctOccursOnce | linker.py:138-140 | in a list without repeats a listed riddle occurs once, so it is linked once |
| Riddles.Riddle.Resolve | linker.py:50-57 | fails with TypeError's case when a dependency has no link and with IndexError's case when the data is empty, changing nothing; otherwise sets the link to the shortened custom link of the data with each dependency's name replaced by its link, in dependency order |
| Riddles.SubstituteUnmentioned | linker.py:52-56 | replacing names that are non-empty and do not occur in the text leaves the text unchanged, whatever their links are |
| Riddles.PublishedLinkUnmentioned | linker.py:50-57 | the links of dependencies whose names the data does not mention do not affect the link resolve stores |
| Riddles.FirstResolvable | linker.py:148-152 | returns the index of the first resolvable riddle in list order, or reports that none is resolvable |
| Riddles.ResolveAt | linker.py:152 | resolving the first resolvable riddle either fails only on empty data, changing nothing, or sets that riddle's link alone and appends it to the resolution order, keeping every earlier link and every invariant of the loop |
| Riddles.ResolveFirst | linker.py:146-152 | one loop round either resolves exactly the first riddle in list order that is resolvable when the round starts, or stops with a cycle (no riddle resolvable) or with the empty-data error of that first resolvable riddle; it never sets a link twice |
| Riddles.ResolveAllRiddles | linker.py:143-153 | no link is set twice; each round resolved the first riddle in list order that was resolvable when the round started; the resolution order lists each newly resolved riddle once, each after its dependencies, each holding the link resolve computes from its dependencies' links; success exactly when every riddle is resolved; a cycle error only when no riddle is resolvable; a self-dependent unresolved riddle stays unresolved and the run fails |
| Riddles.GreedyExtend | linker.py:146-152 | a round that resolves the first ready riddle keeps the record of rounds greedy |
| Riddles.FirstReadyIsFirstResolvable | linker.py:148-152 | the first resolvable riddle of the list is the first one ready given the set of resolved riddles |
| Riddles.DependenciesFirstAppend | linker.py:146-152 | appending a riddle that depends neither on itself nor is needed by an earlier one keeps dependencies-first order |
| Riddles.SelfDependentNeverOrdered | linker.py:146-152 | in a dependencies-first resolution order no riddle depends on itself, so a riddle that mentions its own name (linker.py:45-48 makes it its own dependency) is never resolved |
| Riddles.DistinctWithin | linker.py:146 | the resolution order is bounded by the riddles unresolved at the start, which makes the loop terminate |
| LinkPayload.CustomLink | linker.py:89-97 | the link is the URI, then `?z=`, then the payload of the compressor's output, which holds no `+`, `/` or `=` |
| LinkPayload.CustomLinkRoundTrip | linker.py:89-97 | when the compressor answers with padded base64 text, restoring the text after `?z=` gives the compressor's output back |
| LinkPayload.PayloadIsUrlSafe | linker.py:90-96 | after the swaps, the `=` removal and the reversal, no `+`, `/` or `=` is left |
| LinkPayload.ReverseAt | linker.py:95 | `[::-1]` keeps the length and puts the character at position |s|-1-i at position i |
| LinkPayload.ReverseKeepsCharacters | linker.py:95 | reversal introduces no character |
| LinkPayload.DropPaddingKeeps | linker.py:95 | removing `=` keeps only characters of the text, none of them `=` |
| LinkPayload.PayloadRoundTrip | linker.py:90-96 | base64 text padded to a multiple of four is recovered from the payload by reversing, swapping back and re-padding |
| LinkPayload.ReverseReverse | linker.py:95 | reversing twice gives the text back |
| PyStrings.ContainsIffOccurs | linker.py:47 | `p in s` holds exactly when p occurs at some position of s |
| PyStrings.ReplaceLeftmost | linker.py:53-56 | `str.replace` with a non-empty name replaces its leftmost occurrence and carries on with the text after that occurrence |
| PyStrings.ReplaceAbsent | linker.py:53-56 | replacing a non-empty name that does not occur leaves the text unchanged |
| PyStrings.TakeLine | linker.py:40 | the first line is the longest prefix without a `splitlines` boundary |
| PyStrings.FirstLine | linker.py:40 | `splitlines()[0]` is missing exactly when the text is empty |
| PyStrings.FirstLineOfJoin | linker.py:40 | the first line of newline-joined riddle lines is the first of those lines |
| DataFile.SpaceCount | linker.py:117 | `\s*` takes the longest run of whitespace |
| DataFile.WordLength | linker.py:117 | `\w+` takes the longest run of word characters |
| DataFile.HeaderName | linker.py:117 | a captured name is a non-empty run of word characters |
| DataFile.HeaderNameMeaning | linker.py:117 | the captured name is exactly what the greedy pattern `^---\s*(\w+)` captures |
| DataFile.HeaderIndices | linker.py:117-118 | the header positions are increasing and each is a header line |
| DataFile.HeaderIndicesExact | linker.py:117-118 | every header line is listed, and nothing else |
| DataFile.ScanFails | linker.py:113-124 | a first line that is not a header makes the loop fail |
| DataFile.ScanShape | linker.py:116-124 | after lines that start with a header, each header but the last has closed its block, and the last is current with the lines after it buffered |
| DataFile.ShapeAfterHeader | linker.py:118-122 | a header line closes the current block and opens its own |
| DataFile.ShapeAfterData | linker.py:123-124 | any other line joins the current block's buffer |
| DataFile.ParseStructure | linker.py:109-127 | an empty file and a first line that is not a header are the two errors; otherwise one riddle per header line, in file order, named by its header and holding the newline-join of the lines up to the next header or the end |
| DataFile.AppendRiddle | linker.py:120 | appends one fresh, unlinked riddle holding the joined buffer |
| DataFile.ParseDataFile | linker.py:109-127 | fails exactly as the parse does; otherwise builds fresh, distinct, unlinked riddles whose names and data are the parsed blocks |

## Left out

- `shorten_url` (linker.py:76-86) is an HTTP POST. It is the parameter `Config.shortenUrl`. The model does not say which short URL Shlink returns.
- `shorten_url` raises when the POST fails to connect, when a 200 answer is not JSON and when it has no `shortUrl` field. These exceptions are not modelled: `Config.shortenUrl` always answers.
- LZString's `compressToBase64` is foreign code. It is the parameter `Config.compressToBase64`. The round trip is stated for any padded base64 text, not for the compressor itself.
- `is_float` (linker.py:68-73) relies on Python's `float()` parsing. It is the parameter `Config.isFloat`.
- The environment variables (linker.py:15-18) become the two URI fields of `Config`. An unset variable is not modelled: `os.environ.get` then gives None, and `uri + "?z="` (linker.py:97) raises TypeError.
- `print_riddles` and `Riddle.__repr__` (linker.py:59-65, 130-135) only write ANSI terminal output.
- The progress printing inside `resolve_all_riddles` is left out for the same reason.
- `read_data_file`, `main` and argparse (linker.py:100-106, 156-183) are file I/O and the command line. The model starts from the list of lines.
- DataFile.IsWordChar: only the ASCII word characters are modelled. Python's `\w` on `str` also matches non-ASCII letters and digits.
- DataFile.IsSpace: only the ASCII whitespace characters are modelled. Python's `\s` also matches non-ASCII spaces such as U+0085 and U+00A0.
- Riddles.ResolveAllRiddles: `order` and `resolvedBefore` are ghost. The program keeps neither; they only record which riddle each round resolved and which riddles were resolved before the call.
- `sys.exit(1)` becomes an error value. The process exit status is not modelled.
