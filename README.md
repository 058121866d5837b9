# Zettai: a verified model of the to-do list lookup and page

Zettai is a small to-do list web application written in Kotlin on http4k. A
`Zettai` handler is built once from an immutable store that maps each user to
that user's to-do lists, in order. It serves one route,
`GET /todo/{user}/{list}`, in four steps:

1. read the user and the list name from the path;
2. look up the first list of that user with that name, failing with
   "List unknown" when there is none;
3. render the list as an HTML page whose `<h2>` holds the name and whose table
   has one `<tr><td>…</td></tr>` row per item;
4. answer `200 OK` with that page as the body.

The acceptance tests drive the application through a client. The client asks
for a list, then reads it back out of the HTML with the regular expressions
`<h2>(.*)<` for the name and `<td>(.*?)<` for the items. It compares what it
read with the list the owner filed.

The project has four modules:

- `Wrappers` (`wrappers.dfy`): `Option` and `Result`.
- `KotlinText` (`kotlin_text.dfy`): the Kotlin standard-library string functions the renderer relies on, written out once:
  - `lines()`, `joinToString` and `trimIndent()`, including its treatment of blank first and last lines and of the least common indentation;
  - an independent description, `NormalizeBreaks`, of what re-joining the lines does to `\r\n` and `\r`.
- `Zettai` (`zettai.dfy`): the data model, the path extraction, the lookup, the renderer, the response and the pipeline, with the properties of each.
- `SeeATodoList` (`see_a_todo_list.dfy`): the acceptance tests' client.
  - It holds the two regular expressions as scanners, with the `java.util.regex` meaning of `.`: any character but `\n`, `\r`, U+0085, U+2028 and U+2029. It captures their greedy and lazy matching and the way `findAll` resumes after each match.
  - It proves the round trip from a rendered page back to the list, and the two acceptance scenarios.

Everything in the core is pure, so it is modelled with datatypes, functions and
lemmas. The failure that `fetchListContent` raises with `error("List unknown")`
becomes `Failure(ListUnknown)` of a `Result`. `showList` stops at that failure.

The DDT test (`SeeATodoListDDT.kt:43`, `:50`) builds the application from a
`ToDoListHub`, but `Zettai` itself (`Zettai.kt:20`) takes a plain
`Map<User, List<ToDoList>>`. Its `error("List unknown")` (`Zettai.kt:42`)
chooses no HTTP status. The model follows `Zettai`:

- the store is `map<User, seq<ToDoList>>`;
- an unknown list is a `Failure` carrying the same message;
- the only status the handler itself produces is `OK`.

## Model

| member | source | states |
|---|---|---|
| Zettai.Path | src/main/kotlin/com/zettai/Zettai.kt:33-34 | `request.path(name)` gives a segment exactly when the route captured that parameter, and then it is the captured text |
| Zettai.ExtractListData | src/main/kotlin/com/zettai/Zettai.kt:32-37 | the user and the list name are the captured `user` and `list` segments; a missing segment becomes the empty name |
| Zettai.FirstNamed | src/main/kotlin/com/zettai/Zettai.kt:41 | `firstOrNull` finds nothing exactly when no list has the name; otherwise it returns a list at an index where the name first occurs |
| Zettai.FetchListContent | src/main/kotlin/com/zettai/Zettai.kt:39-42 | succeeds exactly when the user is in the store and owns a list of that name; the result has the requested name and is the first such list of that user; every failure is "List unknown" |
| Zettai.FetchReadsOnlyOwnersLists | src/main/kotlin/com/zettai/Zettai.kt:40 | the lookup depends only on the requesting user's own entry of the store |
| Zettai.OwnerIsolation | src/main/kotlin/com/zettai/Zettai.kt:39-42 | the owner's lookup of a list's name succeeds, and another user who owns no list of that name gets "List unknown" for it |
| Zettai.EmptyStoreKnowsNoList | src/main/kotlin/com/zettai/Zettai.kt:39-42 | with an empty store every lookup fails with "List unknown" |
| Zettai.Row | src/main/kotlin/com/zettai/Zettai.kt:61 | definition: the one-line row template with the description interpolated, through `trimIndent()`; its meaning is stated by `Zettai.RowOf` |
| Zettai.Rows | src/main/kotlin/com/zettai/Zettai.kt:60-61 | `items.map` gives exactly one row per item, the i-th row being the row of the i-th item |
| Zettai.RenderItems | src/main/kotlin/com/zettai/Zettai.kt:59-62 | definition: the rows joined with `joinToString("")`; its meaning is stated by `Zettai.RenderItemsRows`, `Zettai.RenderItemsAppend` and `Zettai.RenderItemsOfUnbroken` |
| Zettai.RenderHtml | src/main/kotlin/com/zettai/Zettai.kt:44-57 | definition: the interpolated multi-line template through `trimIndent()`; the page it gives is stated by `Zettai.RenderHtmlLayout` and `Zettai.RenderHtmlOpening` |
| Zettai.RowOf | src/main/kotlin/com/zettai/Zettai.kt:61 | one row is the description verbatim between `<tr><td>` and `</td></tr>`; `trimIndent()` only turns `\r\n` and `\r` in it into `\n` |
| Zettai.RenderItemsRows | src/main/kotlin/com/zettai/Zettai.kt:59-62 | `renderItems` is the in-order concatenation of one `<tr><td>d</td></tr>` per item, with nothing between rows; no items give "" |
| Zettai.RenderItemsAppend | src/main/kotlin/com/zettai/Zettai.kt:59-62 | rendering the items of `a + b` is rendering `a` followed by rendering `b` |
| Zettai.RenderItemsOfUnbroken | src/main/kotlin/com/zettai/Zettai.kt:59-62 | when no description breaks a line, the rows hold the descriptions verbatim and break no line |
| Zettai.RenderHtmlLayout | src/main/kotlin/com/zettai/Zettai.kt:44-57 | when no interpolated text breaks a line, `renderHtml` gives the fixed nine-line page, dedented so that `<html>` is at column 0; the name sits verbatim between `<h2>` and `</h2>` and the rows between `<tbody>` and `</tbody>`, unescaped |
| Zettai.RenderHtmlOpening | src/main/kotlin/com/zettai/Zettai.kt:44-57 | whatever the descriptions hold, when the name breaks no line the page opens with the template's first four lines, `<html>` to the `<h2>` heading with the name verbatim in it, each cut by the same number of columns, at most the twelve before `<html>` |
| Zettai.CreateResponse | src/main/kotlin/com/zettai/Zettai.kt:64-65 | the response has status OK and the page's raw text as its body |
| Zettai.ShowList | src/main/kotlin/com/zettai/Zettai.kt:25-30 | the pipeline succeeds exactly when the lookup of the extracted pair succeeds; it then answers OK with the rendered page of the found list; otherwise it fails with "List unknown" |
| KotlinText.TrimIndent | src/main/kotlin/com/zettai/Zettai.kt:56 | definition of `trimIndent()`, here and at `Zettai.kt:61`: `replaceIndent("")` splits with `lines()`, takes the least indentation (`IndentWidth`, `MinCommonIndent`, with `IsWhitespace` as Kotlin's `isWhitespace`) of the non-blank lines, drops a blank first and last line, cuts that indentation from every other line (`Reindent`) and rejoins with "\n"; its meaning is stated by `KotlinText.TrimIndentBlock` and `KotlinText.TrimIndentUnindented` |
| KotlinText.JoinToString | src/main/kotlin/com/zettai/Zettai.kt:62 | definition of `joinToString(separator)`, used with "" for the rows and with "\n" inside `trimIndent()`; its meaning is stated by `KotlinText.JoinEmptyAppend`, `KotlinText.LinesOfJoin` and `KotlinText.JoinOfLines` |
| KotlinText.Lines | src/main/kotlin/com/zettai/Zettai.kt:56 | `lines()`, as `trimIndent()` calls it, yields at least one piece and no piece holds a line break |
| KotlinText.LinesOfJoin | src/main/kotlin/com/zettai/Zettai.kt:56 | splitting the "\n"-join of unbroken pieces gives those pieces back |
| KotlinText.JoinOfLines | src/main/kotlin/com/zettai/Zettai.kt:56 | re-joining the lines of a text with "\n" normalizes every `\r\n` and lone `\r` to `\n` and changes nothing else |
| KotlinText.TrimIndentBlock | src/main/kotlin/com/zettai/Zettai.kt:46-56 | `trimIndent()` of a block with blank first and last lines drops those two lines and cuts the least indentation of the non-blank lines from every other line |
| KotlinText.TrimIndentUnindented | src/main/kotlin/com/zettai/Zettai.kt:61 | `trimIndent()` of text that starts with a non-blank character and does not end in a blank line only normalizes its line breaks |
| KotlinText.JoinEmptyAppend | src/main/kotlin/com/zettai/Zettai.kt:62 | `joinToString("")` distributes over concatenation of the pieces |
| KotlinText.LinesOfJoinPrefix | src/main/kotlin/com/zettai/Zettai.kt:56 | splitting the "\n"-join of pieces whose first `k` are unbroken gives those `k` pieces first, whatever the later pieces hold |
| KotlinText.TrimIndentOpening | src/main/kotlin/com/zettai/Zettai.kt:46-56 | `trimIndent()` of a text with a blank first line keeps the next `k` unbroken lines as its first `k`, each cut by the same number of columns, at most the indentation of the first non-blank line, whatever follows |
| KotlinText.NormalizeAppend | src/main/kotlin/com/zettai/Zettai.kt:61 | line-break normalization distributes over concatenation unless the cut splits a `\r\n` |
| SeeATodoList.LineLengthIsFirstTerminator | src/test/kotlin/com/zettai/SeeATodoListAT.kt:44 | a `.*` runs exactly up to the first line terminator |
| SeeATodoList.FirstLtIsFirst | src/test/kotlin/com/zettai/SeeATodoListAT.kt:53 | the lazy `(.*?)<` stops at the first `<` of the line, and fails only when the line has none |
| SeeATodoList.LastLtIsLast | src/test/kotlin/com/zettai/SeeATodoListAT.kt:44 | the greedy `(.*)<` stops at the last `<` of the line, and fails only when the line has none |
| SeeATodoList.FindH2 | src/test/kotlin/com/zettai/SeeATodoListAT.kt:43-48 | definition: `find` of `<h2>(.*)<`, scanning from the left; its meaning is stated by `SeeATodoList.FindH2Leftmost` |
| SeeATodoList.FindTds | src/test/kotlin/com/zettai/SeeATodoListAT.kt:52-56 | definition: the groups of `findAll` of `<td>(.*?)<`; its meaning is stated by `SeeATodoList.FindTdsLeftmost` |
| SeeATodoList.FindH2Leftmost | src/test/kotlin/com/zettai/SeeATodoListAT.kt:43-48 | `find` of `<h2>(.*)<` fails exactly when the expression matches nowhere, and otherwise gives the group of the leftmost match |
| SeeATodoList.FindTdsLeftmost | src/test/kotlin/com/zettai/SeeATodoListAT.kt:52-56 | `findAll` of `<td>(.*?)<` is empty exactly when nothing matches; otherwise it starts with the group of the leftmost match and resumes just past that match |
| SeeATodoList.ExtractListName | src/test/kotlin/com/zettai/SeeATodoListAT.kt:43-50 | the list name is the `<h2>` group, or the empty name when nothing matches |
| SeeATodoList.ExtractItems | src/test/kotlin/com/zettai/SeeATodoListAT.kt:52-62 | one item per `<td>` match, in page order, each holding its group |
| SeeATodoList.ParseResponse | src/test/kotlin/com/zettai/SeeATodoListAT.kt:37-41 | definition: the list of the extracted name and items; the round trip through it is stated by `SeeATodoList.RenderThenParse` and `SeeATodoList.RoundTripExactlyForPlainItems` |
| SeeATodoList.FindH2Split | src/test/kotlin/com/zettai/SeeATodoListAT.kt:43-48 | no `<h2>` match spans a line break: the first line holding one decides |
| SeeATodoList.FindTdsSplit | src/test/kotlin/com/zettai/SeeATodoListAT.kt:52-56 | no `<td>` match spans a line break: the matches of two lines are those of each line, in order |
| SeeATodoList.TableRowsCells | src/test/kotlin/com/zettai/SeeATodoListAT.kt:52-58 | over rows of plain cell texts, `findAll` reads back exactly those texts in order, then goes on with whatever follows |
| SeeATodoList.PageName | src/test/kotlin/com/zettai/SeeATodoListAT.kt:43-50 | on the rendered page `<h2>(.*)<` captures exactly the list name, for a name with no line terminator, whatever the rows |
| SeeATodoList.PageCells | src/test/kotlin/com/zettai/SeeATodoListAT.kt:52-58 | for a surviving name (`NameSurvives`: no line terminator, and its `<h2>` line forms no `<td>` match) and plain cell texts, `<td>(.*?)<` on the rendered page captures exactly the rows' cell texts, in order |
| SeeATodoList.PageCellsAfterHeading | src/test/kotlin/com/zettai/SeeATodoListAT.kt:52-58 | whatever the name, for plain cell texts `<td>(.*?)<` on the rendered page captures the matches of the `<h2>` line, then exactly the rows' cell texts |
| SeeATodoList.PlainNameSurvives | src/test/kotlin/com/zettai/SeeATodoListAT.kt:43-56 | a name with no `<` and no line terminator survives the page |
| SeeATodoList.OneLtHeading | src/test/kotlin/com/zettai/SeeATodoListAT.kt:52-56 | a `<h2>` line whose name holds one `<`, not followed by `td>`, holds no `<td>` match |
| SeeATodoList.CellsArePlain | src/test/kotlin/com/zettai/SeeATodoListAT.kt:52-58 | every item the client reads holds no `<` and no line terminator |
| SeeATodoList.NameIsUnbroken | src/test/kotlin/com/zettai/SeeATodoListAT.kt:43-50 | the name the client reads holds no line terminator |
| SeeATodoList.RenderThenParse | src/test/kotlin/com/zettai/SeeATodoListAT.kt:37-41 | parsing a rendered page gives the list back when its name survives and its descriptions hold no `<` and no line terminator |
| SeeATodoList.RoundTripExactlyForPlainItems | src/test/kotlin/com/zettai/SeeATodoListAT.kt:37-58 | for a list whose name survives, the round trip gives the list back if and only if every description is plain |
| SeeATodoList.RoundTripExactlyForSurvivingNames | src/test/kotlin/com/zettai/SeeATodoListAT.kt:37-58 | for a name with no line terminator and plain descriptions, the round trip gives the list back if and only if the name survives; otherwise the heading's matches come first as extra items |
| SeeATodoList.NameWithLtRoundTrip | src/test/kotlin/com/zettai/SeeATodoListAT.kt:37-58 | the list named "a<b" holding the item "x" comes back whole from its page |
| SeeATodoList.RenderThenExtractName | src/test/kotlin/com/zettai/SeeATodoListAT.kt:43-50 | the greedy name expression reads back any name without a line terminator, `<` included, whatever the descriptions hold |
| SeeATodoList.ListRequest | src/test/kotlin/com/zettai/SeeATodoListAT.kt:23 | the path parameters captured for `/todo/$user/$listName`, each text as its own segment, extract to exactly that user and list name |
| SeeATodoList.GetToDoList | src/test/kotlin/com/zettai/SeeATodoListAT.kt:22-29 | definition: run the pipeline and parse the body of an `OK` response, anything else being no list; its meaning is stated by `SeeATodoList.GetSucceedsWhenFetchDoes`, `SeeATodoList.OwnerSeesList` and `SeeATodoList.NonOwnerSeesNothing` |
| SeeATodoList.GetSucceedsWhenFetchDoes | src/test/kotlin/com/zettai/SeeATodoListAT.kt:22-29 | the client gets a list exactly when the lookup succeeds |
| SeeATodoList.OwnerSeesList | src/test/kotlin/com/zettai/SeeATodoListAT.kt:70-74 | an owner sees their list exactly as stored, when the owner's name and the list's name are segment-safe, the name survives the page and the descriptions are plain |
| SeeATodoList.NonOwnerSeesNothing | src/test/kotlin/com/zettai/SeeATodoListAT.kt:76-80 | a user who owns no list of that name gets nothing back |
| SeeATodoList.ScenarioEntries | src/test/kotlin/com/zettai/SeeATodoListAT.kt:88-99 | the scenario store files the shopping list under Frank only and the gardening list under Bob only |
| SeeATodoList.ListOwnersCanSeeTheirLists | src/test/kotlin/com/zettai/SeeATodoListAT.kt:101-108 | Frank gets back his shopping list and Bob his gardening list, item for item |
| SeeATodoList.OnlyOwnersCanSeeTheirLists | src/test/kotlin/com/zettai/SeeATodoListAT.kt:110-118 | Frank gets nothing for "gardening" and Bob gets nothing for "shopping" |

## Left out

- The http4k routing (`routes`, `bind`, `invoke`): a request is modelled by the path parameters the route captured. Matching a URL against `/todo/{user}/{list}`, percent-decoding of segments and the framework's answer for unmatched paths and methods are not modelled.
- The HTTP status of an unknown list: `error("List unknown")` throws, and what the server then answers is framework behaviour. The model ends the pipeline with `Failure("List unknown")`, and the test client treats any outcome other than an `OK` response as "no list".
- `Application.kt` (a separate hello-world server), `build.gradle.kts`, Jetty, the HTTP clients and starting or stopping servers: these are I/O and build configuration.
- `ToDoListHub` and the pesticide DDT framework of `SeeATodoListDDT.kt`: `ToDoListHub` is used at `SeeATodoListDDT.kt:43` and `:50` but is not defined in the modelled sources. The DDT actions build it from an empty map, and `EmptyStoreKnowsNoList` states what `Zettai`'s lookup does with an empty map.
- The commented-out `ToDoStatus` enum: it is not part of the code.
- strikt's `containsExactlyInAnyOrder` in the DDT file: the lemmas state exact, ordered equality instead, which is stronger.
- Strings are sequences of Unicode code points. Kotlin strings are UTF-16, so a character outside the Basic Multilingual Plane is one element here and two there. None of the modelled operations depends on that difference for the characters they test.
- KotlinText.IsWhitespace: this covers the characters Kotlin's `isWhitespace` accepts and leaves out U+180E, which older Unicode versions counted as a space separator.
- Zettai.RenderHtmlLayout: states the whole page only when neither the name nor any description holds `\n` or `\r`. With a line break in an interpolated text, `trimIndent()` re-measures the indentation of the new lines, and the model does not state the whole page that results. `RenderHtml` itself still computes it, and `RenderHtmlOpening` states its first four lines, up to the heading, whatever the descriptions hold.
- SeeATodoList.ListRequest: the client writes the texts into the URL `/todo/$user/$listName`. The model assumes each text comes back unchanged as its own path segment, and relies on this only for segment-safe texts: not empty, not `.` or `..`, with no `/`, `?`, `#` or `%`. Whether the HTTP client and server pass even such a text through unchanged (a space, say, which `java.net.URI` refuses) is framework behaviour and is not modelled. Neither is what an empty text, a dot-segment, a `/`, a query or fragment start or a percent-escape does to the captured segments. `OwnerSeesList` therefore requires segment-safe names.
- SeeATodoList.RenderThenParse: requires a surviving name and descriptions without `<` and without a line terminator. Outside that:
  - a description holding `<` or a line terminator never comes back (`RoundTripExactlyForPlainItems`, `CellsArePlain`);
  - neither does a name holding a line terminator (`NameIsUnbroken`);
  - a name holding `<` is read back (`RenderThenExtractName`), and the list comes back exactly when the name's `<h2>` line forms no `<td>` match (`RoundTripExactlyForSurvivingNames`, with "a<b" as an example in `NameWithLtRoundTrip`).
